/**
  What the commands of the circular deque do: what the plain deque does as long as that has room, and what
  overflow drops otherwise.
 */
module CircularDequeRuns {
  import opened Deque
  import opened DequeRuns
  import opened CircularDeque

  // ----- one command

  /** Whatever the plain deque allows is permitted and does the same, and moves the start counter alike. */
  lemma AgreesWithDeque<T>(start: nat, s: seq<T>, command: Command<T>, capacity: nat, trivial: bool)
    requires |s| <= capacity && Allowed(s, command, capacity, trivial)
    ensures Permitted(s, command, capacity, trivial)
    ensures Outcome(s, command, capacity, trivial) == Effect(s, command, capacity, trivial)
    ensures CounterAfter(start, s, command, capacity, trivial) == StartAfter(start, command)
  {
    match command {
      case Insert(at, xs) => SplicedWithRoom(s, capacity, at, xs);
      case InsertOnePass(at, xs) => SplicedWithRoom(s, capacity, at, xs);
      case _ =>
    }
  }

  lemma SplicedWithRoom<T>(s: seq<T>, capacity: nat, at: nat, xs: seq<T>)
    requires at <= |s| && |s| + |xs| <= capacity
    ensures Spliced(s, capacity, at, xs) == Inserted(s, at, xs)
  {
  }

  /** The last elements that fit. */
  function LastOnes<T>(all: seq<T>, capacity: nat): (r: seq<T>)
    ensures |r| == if |all| <= capacity then |all| else capacity
    ensures forall i :: 0 <= i < |r| ==> r[i] == all[|all| - |r| + i]
  {
    if |all| <= capacity then all else all[|all| - capacity..]
  }

  /** The first elements that fit. */
  function FirstOnes<T>(all: seq<T>, capacity: nat): (r: seq<T>)
    ensures |r| == if |all| <= capacity then |all| else capacity
    ensures forall i :: 0 <= i < |r| ==> r[i] == all[i]
  {
    if |all| <= capacity then all else all[..capacity]
  }

  /** A push at the back leaves the last elements, a push at the front the first ones. */
  lemma PushKeeps<T>(s: seq<T>, value: T, capacity: nat, trivial: bool)
    requires 0 < capacity && |s| <= capacity
    ensures Outcome(s, PushBack(value), capacity, trivial) == LastOnes(s + [value], capacity)
    ensures Outcome(s, PushFront(value), capacity, trivial) == FirstOnes([value] + s, capacity)
  {
  }

  /** Either insertion leaves the last elements of what it would be without a bound. */
  lemma InsertionKeepsLast<T>(s: seq<T>, command: Command<T>, capacity: nat, trivial: bool)
    requires |s| <= capacity && (command.Insert? || command.InsertOnePass?) && command.at <= |s|
    requires (command.Insert? && (trivial || command.at == |s|))
             || (command.InsertOnePass? && command.xs == [])
             || (command.xs != [] && !(command.at == 0 && |s| == capacity))
    ensures Permitted(s, command, capacity, trivial)
    ensures Outcome(s, command, capacity, trivial)
            == LastOnes(s[..command.at] + command.xs + s[command.at..], capacity)
  {
    var at, xs := command.at, command.xs;
    var all, e := s[..at] + xs + s[at..], Excess(capacity, |s|, |xs|);
    assert (s[..at] + xs)[e..] + s[at..] == all[e..];
  }

  /** At the position that an insertion returns stands what is left of the range, and then what was behind. */
  lemma InsertedRangeAt<T>(s: seq<T>, capacity: nat, at: nat, xs: seq<T>)
    requires at <= |s| <= capacity
    ensures var r, p := Spliced(s, capacity, at, xs), SplicedAt(capacity, |s|, at, |xs|);
      && p <= |r| && |r| - p - (|s| - at) <= |xs|
      && r[p..] == xs[|xs| - (|r| - p - (|s| - at))..] + s[at..]
      && (p > 0 ==> |r| - p - (|s| - at) == |xs|)
  {
    var r, p, excess := Spliced(s, capacity, at, xs), SplicedAt(capacity, |s|, at, |xs|), Excess(capacity, |s|, |xs|);
    if excess <= at {
      assert r == s[excess..at] + xs + s[at..];
      assert r[p..] == xs + s[at..];
    } else {
      assert r == xs[excess - at..] + s[at..];
    }
  }

  // ----- runs

  /** Runs that the plain deque allows do the same to the circular one. */
  lemma {:induction false} RunsAgree<T>(start: nat, s: seq<T>, commands: seq<Command<T>>, capacity: nat, trivial: bool)
    requires |s| <= capacity && AllAllowed(s, commands, capacity, trivial) && CounterFits(start, commands, capacity)
    ensures AllPermitted(start, s, commands, capacity, trivial)
    ensures Outcomes(start, s, commands, capacity, trivial) == Effects(s, commands, capacity, trivial)
    decreases |commands|
  {
    hide Allowed, Permitted, Effect, Outcome, StartAfter, CounterAfter, RoundInReach;
    if commands != [] {
      AgreesWithDeque(start, s, commands[0], capacity, trivial);
      RunsAgree(StartAfter(start, commands[0]), Effect(s, commands[0], capacity, trivial), commands[1..], capacity,
                trivial);
    }
  }

  /** A run of pushes at the back leaves the last elements of all. */
  lemma {:induction false} PushBacksKeepLast<T>(start: nat, s: seq<T>, xs: seq<T>, capacity: nat, trivial: bool)
    requires 0 < capacity && AllPermitted(start, s, PushBacks(xs), capacity, trivial)
    ensures Outcomes(start, s, PushBacks(xs), capacity, trivial) == LastOnes(s + xs, capacity)
    decreases |xs|
  {
    hide Outcome, CounterAfter, RoundInReach, LastOnes;
    if xs != [] {
      PushKeeps(s, xs[0], capacity, trivial);
      var s' := Outcome(s, PushBack(xs[0]), capacity, trivial);
      assert PushBacks(xs)[0] == PushBack(xs[0]) && PushBacks(xs)[1..] == PushBacks(xs[1..]);
      PushBacksKeepLast(CounterAfter(start, s, PushBack(xs[0]), capacity, trivial), s', xs[1..], capacity, trivial);
      LastOfLast(s, xs, s', capacity);
    } else {
      LastOfFew(s, xs, capacity);
    }
  }

  lemma LastOfFew<T>(s: seq<T>, xs: seq<T>, capacity: nat)
    requires |s| <= capacity && xs == []
    ensures LastOnes(s + xs, capacity) == s == FirstOnes(xs + s, capacity)
  {
    assert s + xs == s == xs + s;
  }

  lemma LastOfLast<T>(s: seq<T>, xs: seq<T>, s': seq<T>, capacity: nat)
    requires |s| <= capacity && xs != [] && s' == LastOnes(s + [xs[0]], capacity)
    ensures LastOnes(s' + xs[1..], capacity) == LastOnes(s + xs, capacity)
  {
    var all, all' := s + xs, s' + xs[1..];
    assert s + [xs[0]] + xs[1..] == all;
    if |s| == capacity {
      assert all' == all[1..];
    } else {
      assert all' == all;
    }
  }

  function Reversed<T>(xs: seq<T>): (r: seq<T>)
    ensures |r| == |xs| && forall i :: 0 <= i < |xs| ==> r[i] == xs[|xs| - 1 - i]
  {
    if xs == [] then [] else Reversed(xs[1..]) + [xs[0]]
  }

  /** A run of pushes at the front leaves the first elements of all, the latest one first. */
  lemma {:induction false} PushFrontsKeepFirst<T>(start: nat, s: seq<T>, xs: seq<T>, capacity: nat, trivial: bool)
    requires 0 < capacity && AllPermitted(start, s, PushFronts(xs), capacity, trivial)
    ensures Outcomes(start, s, PushFronts(xs), capacity, trivial) == FirstOnes(Reversed(xs) + s, capacity)
    decreases |xs|
  {
    hide Outcome, CounterAfter, RoundInReach, FirstOnes;
    if xs != [] {
      PushKeeps(s, xs[0], capacity, trivial);
      var s', t := Outcome(s, PushFront(xs[0]), capacity, trivial), xs[1..];
      var next := CounterAfter(start, s, PushFront(xs[0]), capacity, trivial);
      assert PushFronts(xs)[0] == PushFront(xs[0]) && PushFronts(xs)[1..] == PushFronts(t);
      PushFrontsKeepFirst(next, s', t, capacity, trivial);
      FirstOfFirst(s, Reversed(t), xs[0], s', capacity);
    } else {
      LastOfFew(s, Reversed(xs), capacity);
    }
  }

  lemma FirstOfFirst<T>(s: seq<T>, front: seq<T>, x: T, s': seq<T>, capacity: nat)
    requires |s| <= capacity && s' == FirstOnes([x] + s, capacity)
    ensures FirstOnes(front + s', capacity) == FirstOnes(front + [x] + s, capacity)
  {
    var all, all' := front + [x] + s, front + s';
    assert all == front + ([x] + s);
    if |s| == capacity {
      assert all' == all[..|all| - 1];
    }
  }
}
