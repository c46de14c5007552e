/**
  What the commands of the deque do, element by element, and what whole runs of them do.
 */
module DequeRuns {
  import opened Deque

  // ----- one command

  /** After either insertion: the old elements before, the range, the old elements behind. */
  lemma InsertionElements<T>(s: seq<T>, command: Command<T>, capacity: nat, trivial: bool)
    requires command.Insert? || command.InsertOnePass?
    requires command.at <= |s| && |s| + |command.xs| <= capacity
    requires command.Insert? ==> trivial || command.xs != [] || command.at == |s|
    ensures Allowed(s, command, capacity, trivial)
    ensures var r, at, xs := Effect(s, command, capacity, trivial), command.at, command.xs;
      && |r| == |s| + |xs|
      && (forall i :: 0 <= i < at ==> r[i] == s[i])
      && (forall i :: at <= i < at + |xs| ==> r[i] == xs[i - at])
      && (forall i :: at + |xs| <= i < |r| ==> r[i] == s[i - |xs|])
  {
  }

  /** The two insertions agree. */
  lemma InsertionsAgree<T>(s: seq<T>, at: nat, xs: seq<T>, capacity: nat, trivial: bool)
    requires Allowed(s, Insert(at, xs), capacity, trivial)
    ensures Allowed(s, InsertOnePass(at, xs), capacity, trivial)
    ensures Effect(s, Insert(at, xs), capacity, trivial) == Effect(s, InsertOnePass(at, xs), capacity, trivial)
  {
    var r, r' := Effect(s, Insert(at, xs), capacity, trivial), Effect(s, InsertOnePass(at, xs), capacity, trivial);
    InsertionElements(s, Insert(at, xs), capacity, trivial);
    InsertionElements(s, InsertOnePass(at, xs), capacity, trivial);
    assert forall i :: 0 <= i < |r| ==> r[i] == r'[i];
  }

  /** After an erasure the elements behind it have moved up. */
  lemma ErasureElements<T>(s: seq<T>, from: nat, to: nat, capacity: nat, trivial: bool)
    requires from <= to <= |s| && (trivial || from < to || to == |s|)
    ensures Allowed(s, Erase(from, to), capacity, trivial)
    ensures var r := Effect(s, Erase(from, to), capacity, trivial);
      && |r| == |s| - (to - from)
      && (forall i :: 0 <= i < from ==> r[i] == s[i])
      && (forall i :: from <= i < |r| ==> r[i] == s[i + (to - from)])
  {
  }

  /** Erasing an inserted range undoes the insertion. */
  lemma ErasureUndoesInsertion<T>(s: seq<T>, at: nat, xs: seq<T>, capacity: nat, trivial: bool)
    requires Allowed(s, Insert(at, xs), capacity, trivial)
    ensures var r := Effect(s, Insert(at, xs), capacity, trivial);
      && Allowed(r, Erase(at, at + |xs|), capacity, trivial)
      && Effect(r, Erase(at, at + |xs|), capacity, trivial) == s
  {
    hide Effect;
    InsertionElements(s, Insert(at, xs), capacity, trivial);
    var r := Effect(s, Insert(at, xs), capacity, trivial);
    ErasureElements(r, at, at + |xs|, capacity, trivial);
  }

  /** A push adds an element at its end and moves the others by one if that is the front. */
  lemma PushElements<T>(s: seq<T>, value: T, capacity: nat, trivial: bool)
    requires |s| < capacity
    ensures var r := Effect(s, PushBack(value), capacity, trivial);
            |r| == |s| + 1 && r[|s|] == value && forall i :: 0 <= i < |s| ==> r[i] == s[i]
    ensures var r := Effect(s, PushFront(value), capacity, trivial);
            |r| == |s| + 1 && r[0] == value && forall i :: 0 <= i < |s| ==> r[i + 1] == s[i]
  {
  }

  lemma PopElements<T>(s: seq<T>, capacity: nat, trivial: bool)
    requires s != []
    ensures var r := Effect(s, PopBack, capacity, trivial);
            |r| == |s| - 1 && forall i :: 0 <= i < |r| ==> r[i] == s[i]
    ensures var r := Effect(s, PopFront, capacity, trivial);
            |r| == |s| - 1 && forall i :: 0 <= i < |r| ==> r[i] == s[i + 1]
  {
  }

  /** A pop at an end undoes a push at that end. */
  lemma PopUndoesPush<T>(s: seq<T>, value: T, capacity: nat, trivial: bool)
    requires |s| < capacity
    ensures var r := Effect(s, PushBack(value), capacity, trivial);
            r != [] && Effect(r, PopBack, capacity, trivial) == s
    ensures var r := Effect(s, PushFront(value), capacity, trivial);
            r != [] && Effect(r, PopFront, capacity, trivial) == s
  {
    hide Effect;
    PushElements(s, value, capacity, trivial);
    PopElements(Effect(s, PushBack(value), capacity, trivial), capacity, trivial);
    PopElements(Effect(s, PushFront(value), capacity, trivial), capacity, trivial);
  }

  lemma ClearElements<T>(s: seq<T>, capacity: nat, trivial: bool)
    ensures |Effect(s, Clear, capacity, trivial)| == 0
  {
  }

  // ----- runs

  /** A run can be cut anywhere. */
  lemma {:induction false} EffectsSplit<T>(s: seq<T>, a: seq<Command<T>>, b: seq<Command<T>>, capacity: nat,
                                           trivial: bool)
    requires AllAllowed(s, a, capacity, trivial)
    ensures AllAllowed(s, a + b, capacity, trivial) <==>
            AllAllowed(Effects(s, a, capacity, trivial), b, capacity, trivial)
    ensures AllAllowed(s, a + b, capacity, trivial) ==>
              Effects(s, a + b, capacity, trivial) == Effects(Effects(s, a, capacity, trivial), b, capacity, trivial)
    decreases |a|
  {
    if a == [] {
      assert a + b == b;
    } else {
      assert (a + b)[0] == a[0] && (a + b)[1..] == a[1..] + b;
      EffectsSplit(Effect(s, a[0], capacity, trivial), a[1..], b, capacity, trivial);
    }
  }

  function PushBacks<T>(xs: seq<T>): (r: seq<Command<T>>)
    ensures |r| == |xs| && forall i :: 0 <= i < |xs| ==> r[i] == PushBack(xs[i])
  {
    seq(|xs|, i requires 0 <= i < |xs| => PushBack(xs[i]))
  }

  function PushFronts<T>(xs: seq<T>): (r: seq<Command<T>>)
    ensures |r| == |xs| && forall i :: 0 <= i < |xs| ==> r[i] == PushFront(xs[i])
  {
    seq(|xs|, i requires 0 <= i < |xs| => PushFront(xs[i]))
  }

  function Repeated<T>(command: Command<T>, n: nat): (r: seq<Command<T>>)
    ensures |r| == n && forall i :: 0 <= i < n ==> r[i] == command
  {
    seq(n, _ => command)
  }

  /** Pushes at the back append in order. */
  lemma {:induction false} PushBacksAppend<T>(s: seq<T>, xs: seq<T>, capacity: nat, trivial: bool)
    requires |s| + |xs| <= capacity
    ensures AllAllowed(s, PushBacks(xs), capacity, trivial)
    ensures Effects(s, PushBacks(xs), capacity, trivial) == s + xs
    decreases |xs|
  {
    hide Effect;
    if xs != [] {
      PushElements(s, xs[0], capacity, trivial);
      var s' := Effect(s, PushBack(xs[0]), capacity, trivial);
      assert s' == s + [xs[0]];
      assert PushBacks(xs)[0] == PushBack(xs[0]) && PushBacks(xs)[1..] == PushBacks(xs[1..]);
      PushBacksAppend(s', xs[1..], capacity, trivial);
      assert s + xs == s' + xs[1..];
    } else {
      assert s + xs == s;
    }
  }

  /** Pops at the front remove the first elements, pops at the back the last ones. */
  lemma {:induction false} PopsRemove<T>(s: seq<T>, n: nat, capacity: nat, trivial: bool)
    requires n <= |s|
    ensures AllAllowed(s, Repeated(PopFront, n), capacity, trivial)
    ensures AllAllowed(s, Repeated(PopBack, n), capacity, trivial)
    ensures Effects(s, Repeated(PopFront, n), capacity, trivial) == s[n..]
    ensures Effects(s, Repeated(PopBack, n), capacity, trivial) == s[..|s| - n]
    decreases n
  {
    hide Effect;
    if n > 0 {
      PopElements(s, capacity, trivial);
      var f, b := Effect(s, PopFront, capacity, trivial), Effect(s, PopBack, capacity, trivial);
      assert f == s[1..] && b == s[..|s| - 1];
      assert Repeated<T>(PopFront, n)[1..] == Repeated(PopFront, n - 1);
      assert Repeated<T>(PopBack, n)[1..] == Repeated(PopBack, n - 1);
      PopsRemove(f, n - 1, capacity, trivial);
      PopsRemove(b, n - 1, capacity, trivial);
      assert s[n..] == f[n - 1..] && s[..|s| - n] == b[..|b| - (n - 1)];
    }
  }

  /** Pushes at the back and pops at the front are a queue: the elements come out in the order in which they
      went in. */
  lemma DrainsInOrder<T>(s: seq<T>, xs: seq<T>, n: nat, capacity: nat, trivial: bool)
    requires |s| + |xs| <= capacity && n <= |s| + |xs|
    ensures var commands := PushBacks(xs) + Repeated(PopFront, n);
      && AllAllowed(s, commands, capacity, trivial)
      && Effects(s, commands, capacity, trivial) == (s + xs)[n..]
  {
    hide Effects;
    PushBacksAppend(s, xs, capacity, trivial);
    PopsRemove(s + xs, n, capacity, trivial);
    EffectsSplit(s, PushBacks(xs), Repeated(PopFront, n), capacity, trivial);
  }

  /** Pushes and pops at the back are a stack: as many pops as pushes leave what was there. */
  lemma UnwindsInReverse<T>(s: seq<T>, xs: seq<T>, n: nat, capacity: nat, trivial: bool)
    requires |s| + |xs| <= capacity && n <= |s| + |xs|
    ensures var commands := PushBacks(xs) + Repeated(PopBack, n);
      && AllAllowed(s, commands, capacity, trivial)
      && Effects(s, commands, capacity, trivial) == (s + xs)[..|s| + |xs| - n]
  {
    hide Effects;
    PushBacksAppend(s, xs, capacity, trivial);
    PopsRemove(s + xs, n, capacity, trivial);
    EffectsSplit(s, PushBacks(xs), Repeated(PopBack, n), capacity, trivial);
  }

  /** Pushes at the front end up in reverse order. */
  lemma {:induction false} PushFrontsReverse<T>(s: seq<T>, xs: seq<T>, capacity: nat, trivial: bool)
    requires |s| + |xs| <= capacity
    ensures AllAllowed(s, PushFronts(xs), capacity, trivial)
    ensures var r := Effects(s, PushFronts(xs), capacity, trivial);
      && |r| == |xs| + |s|
      && (forall i :: 0 <= i < |xs| ==> r[i] == xs[|xs| - 1 - i])
      && (forall i :: 0 <= i < |s| ==> r[|xs| + i] == s[i])
    decreases |xs|
  {
    hide Effect;
    if xs != [] {
      PushElements(s, xs[0], capacity, trivial);
      var s' := Effect(s, PushFront(xs[0]), capacity, trivial);
      assert PushFronts(xs)[0] == PushFront(xs[0]) && PushFronts(xs)[1..] == PushFronts(xs[1..]);
      PushFrontsReverse(s', xs[1..], capacity, trivial);
      var r, t := Effects(s', PushFronts(xs[1..]), capacity, trivial), xs[1..];
      assert forall i :: 0 <= i < |t| ==> r[i] == xs[|xs| - 1 - i];
      assert r[|t|] == s'[0];
      forall i | 0 <= i < |s|
        ensures r[|xs| + i] == s[i]
      {
        assert r[|t| + (i + 1)] == s'[i + 1];
      }
    }
  }

  // ----- the start counter

  /** On a new deque of at most 2^61 elements every run of fewer than 2^62 commands keeps the start counter
      inside its range. */
  lemma NewDequeRunsFit<T>(commands: seq<Command<T>>, capacity: nat)
    requires |commands| < 0x4000_0000_0000_0000 && capacity <= 0x2000_0000_0000_0000
    ensures CounterFits(STARTING_OFFSET, commands, capacity)
  {
    ShortRunsFit(STARTING_OFFSET, commands, capacity);
  }
}
