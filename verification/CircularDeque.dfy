/**
  The circular deque: a full deque makes room by dropping elements from the other end. Ranges are
  inserted by two different algorithms, depending on whether their length is known beforehand.
 */
module CircularDeque {
  import opened CircularIndexing
  import opened Deque

  // ----- the reference

  function Push<T>(s: seq<T>, capacity: nat, value: T): seq<T>
    requires 0 < capacity && |s| <= capacity
  {
    (if |s| == capacity then s[1..] else s) + [value]
  }

  function Pushes<T>(s: seq<T>, capacity: nat, xs: seq<T>): seq<T>
    requires 0 < capacity && |s| <= capacity
    decreases |xs|
  {
    if xs == [] then s else Pushes(Push(s, capacity, xs[0]), capacity, xs[1..])
  }

  /** How many elements do not fit. */
  function Excess(capacity: nat, size: nat, count: nat): nat
    requires size <= capacity
  {
    if size + count <= capacity then 0 else size + count - capacity
  }

  /** Insertion before element `at` drops the excess from the front, at most up to that element and then
      from the front of what is inserted. */
  function Spliced<T>(s: seq<T>, capacity: nat, at: nat, xs: seq<T>): seq<T>
    requires at <= |s| <= capacity
  {
    (s[..at] + xs)[Excess(capacity, |s|, |xs|)..] + s[at..]
  }

  /** Where the inserted elements are afterwards. */
  function SplicedAt(capacity: nat, size: nat, at: nat, count: nat): nat
    requires at <= size <= capacity
  {
    var excess := Excess(capacity, size, count);
    if excess <= at then at - excess else 0
  }

  /** Inserting a range at the end is pushing its elements one by one. */
  lemma {:induction false} SpliceAtEndPushes<T>(s: seq<T>, capacity: nat, xs: seq<T>)
    requires 0 < capacity && |s| <= capacity
    ensures Spliced(s, capacity, |s|, xs) == Pushes(s, capacity, xs)
    decreases |xs|
  {
    if xs != [] {
      var s' := Push(s, capacity, xs[0]);
      SpliceAtEndPushes(s', capacity, xs[1..]);
      SpliceHead(s, capacity, xs);
    }
  }

  lemma SpliceHead<T>(s: seq<T>, capacity: nat, xs: seq<T>)
    requires 0 < capacity && |s| <= capacity && xs != []
    ensures var s' := Push(s, capacity, xs[0]);
            Spliced(s', capacity, |s'|, xs[1..]) == Spliced(s, capacity, |s|, xs)
  {
    var s' := Push(s, capacity, xs[0]);
    var e, e' := Excess(capacity, |s|, |xs|), Excess(capacity, |s'|, |xs| - 1);
    var l, l' := s + xs, s' + xs[1..];
    assert s[..|s|] == s && s'[..|s'|] == s' && s[|s|..] == [] && s'[|s'|..] == [];
    if |s| == capacity {
      assert l' == l[1..];
      assert l'[e'..] == l[e..];
    } else {
      assert l' == l;
    }
  }

  /** How many of the elements already there are dropped. */
  function Dropped(capacity: nat, size: nat, at: nat, count: nat): nat
    requires at <= size <= capacity
  {
    var excess := Excess(capacity, size, count);
    if excess <= at then excess else at
  }

  /** Insertion at the end in one pass also drops elements that it has just appended. */
  function DroppedInOnePass(capacity: nat, size: nat, at: nat, count: nat): nat
    requires at <= size <= capacity
  {
    if at == size then Excess(capacity, size, count) else Dropped(capacity, size, at, count)
  }

  // ----- single elements

  method PushBack<T>(deque: FixedDeque<T>, value: T)
    requires deque.Valid() && deque.cells.Length > 0
    requires deque.size == deque.cells.Length ==> RoundInReach(deque.cells.Length, deque.start + 1)
    modifies deque, deque.cells
    ensures deque.Valid() && |old(deque.Contents())| <= deque.cells.Length
    ensures deque.Contents() == Push(old(deque.Contents()), deque.cells.Length, value)
    ensures deque.start == old(deque.start) + if old(deque.size) == deque.cells.Length then 1 else 0
  {
    hide ValidCells, Values;
    deque.SizeOfContents();
    if deque.size >= deque.cells.Length {
      deque.PopFront();
      deque.SizeOfContents();
    }
    deque.PushBack(value);
  }

  method PushFront<T>(deque: FixedDeque<T>, value: T)
    requires deque.Valid() && deque.cells.Length > 0 && deque.start > 0
    modifies deque, deque.cells
    ensures deque.Valid() && deque.start == old(deque.start) - 1 && |old(deque.Contents())| == old(deque.size)
    ensures deque.Contents() == [value] +
            if old(deque.size) == deque.cells.Length then old(deque.Contents())[..old(deque.size) - 1]
            else old(deque.Contents())
  {
    hide ValidCells, Values;
    deque.SizeOfContents();
    if deque.size >= deque.cells.Length {
      deque.PopBack();
      deque.SizeOfContents();
    }
    deque.PushFront(value);
  }

  // ----- a range of known length

  method DropFront<T>(deque: FixedDeque<T>, count: nat)
    requires deque.Valid() && count <= deque.size && RoundInReach(deque.cells.Length, deque.start + count)
    modifies deque, deque.cells
    ensures deque.Valid() && |old(deque.Contents())| == old(deque.size) && deque.size == old(deque.size) - count
    ensures deque.Contents() == old(deque.Contents())[count..] && deque.start == old(deque.start) + count
  {
    hide ValidCells, Values;
    deque.SizeOfContents();
    ghost var s := deque.Contents();
    for i := 0 to count
      invariant deque.Valid() && deque.size == |s| - i && deque.start == old(deque.start) + i
      invariant deque.Contents() == s[i..]
    {
      deque.PopFront();
      deque.SizeOfContents();
    }
  }

  /** Drops what has to go and inserts the rest. Inserting relocates objects onto themselves when all of
      the range had to go. */
  method InsertRange<T>(deque: FixedDeque<T>, pos: nat, xs: seq<T>) returns (r: nat)
    requires deque.Valid() && deque.start <= pos <= deque.start + deque.size
    requires RoundInReach(deque.cells.Length,
                          deque.start + Dropped(deque.cells.Length, deque.size, pos - deque.start, |xs|))
    modifies deque, deque.cells
    ensures |old(deque.Contents())| == old(deque.size) <= deque.cells.Length
    ensures deque.Valid() <==>
            Survives(deque.trivial, deque.cells.Length, old(deque.size), pos - old(deque.start), |xs|)
    ensures deque.Valid() ==>
              deque.Contents() == Spliced(old(deque.Contents()), deque.cells.Length, pos - old(deque.start), xs)
    ensures r - deque.start == SplicedAt(deque.cells.Length, old(deque.size), pos - old(deque.start), |xs|)
    ensures deque.start ==
            old(deque.start) + Dropped(deque.cells.Length, old(deque.size), pos - old(deque.start), |xs|)
  {
    hide ValidCells, Values, Spliced, Inserted, Excess, Dropped, SplicedAt;
    deque.SizeOfContents();
    ghost var s, at, start := deque.Contents(), pos - deque.start, deque.start;
    var rest := MakeRoom(deque, pos, xs);
    SplicedByParts(s, deque.cells.Length, at, xs);
    RestLossless(deque.trivial, deque.cells.Length, |s|, at, |xs|);
    r := deque.InsertRange(pos, rest);
  }

  /** Nothing is relocated onto itself: there is nothing behind the insertion, or something is left to insert. */
  predicate Survives(trivial: bool, capacity: nat, size: nat, at: nat, count: nat) {
    trivial || at == size || (count > 0 && !(at == 0 && size == capacity))
  }

  lemma RestLossless(trivial: bool, capacity: nat, size: nat, at: nat, count: nat)
    requires at <= size <= capacity
    ensures var excess, dropped := Excess(capacity, size, count), Dropped(capacity, size, at, count);
      && 0 <= excess - dropped <= count && dropped <= at && at - dropped == SplicedAt(capacity, size, at, count)
      && (Lossless(trivial, count - (excess - dropped), size - at) <==> Survives(trivial, capacity, size, at, count))
  {
  }

  method MakeRoom<T>(deque: FixedDeque<T>, pos: nat, xs: seq<T>) returns (rest: seq<T>)
    requires deque.Valid() && deque.start <= pos <= deque.start + deque.size
    requires RoundInReach(deque.cells.Length,
                          deque.start + Dropped(deque.cells.Length, deque.size, pos - deque.start, |xs|))
    modifies deque, deque.cells
    ensures deque.Valid() && |old(deque.Contents())| == old(deque.size) <= deque.cells.Length
    ensures var size, at := old(deque.size), pos - old(deque.start);
      var excess, dropped := Excess(deque.cells.Length, size, |xs|), Dropped(deque.cells.Length, size, at, |xs|);
      && deque.Contents() == old(deque.Contents())[dropped..] && deque.start == old(deque.start) + dropped
      && excess - dropped <= |xs| && rest == xs[excess - dropped..]
      && deque.size == size - dropped && deque.size + |rest| <= deque.cells.Length
  {
    hide ValidCells, Values;
    deque.SizeOfContents();
    var available := deque.cells.Length - deque.size;
    var excess := if |xs| > available then |xs| - available else 0;
    rest := xs;
    if excess > 0 {
      var dropped := if excess <= pos - deque.start then excess else pos - deque.start;
      DropFront(deque, dropped);
      rest := xs[excess - dropped..];
    }
  }

  lemma SplicedByParts<T>(s: seq<T>, capacity: nat, at: nat, xs: seq<T>)
    requires at <= |s| <= capacity
    ensures var excess, dropped := Excess(capacity, |s|, |xs|), Dropped(capacity, |s|, at, |xs|);
      && dropped <= at && excess - dropped <= |xs|
      && at - dropped <= |s[dropped..]|
      && Inserted(s[dropped..], at - dropped, xs[excess - dropped..]) == Spliced(s, capacity, at, xs)
  {
    var excess, dropped := Excess(capacity, |s|, |xs|), Dropped(capacity, |s|, at, |xs|);
    assert s[dropped..][..at - dropped] == s[dropped..at] && s[dropped..][at - dropped..] == s[at..];
    assert (s[..at] + xs)[excess..] == s[dropped..at] + xs[excess - dropped..];
  }

  // ----- a range that can only be read once

  /** Iterators into the deque while the range is being appended. */
  datatype Marks = Marks(first: nat, middle: nat)

  /** What is left of `s` and the first `n` elements of `xs` when the front has been dropped. */
  ghost function Tail<T>(s: seq<T>, xs: seq<T>, n: nat, dropped: nat): (r: seq<T>)
    requires n <= |xs| && dropped <= |s| + n
    ensures |r| == |s| + n - dropped
  {
    (s + xs[..n])[dropped..]
  }

  lemma TailStep<T>(s: seq<T>, xs: seq<T>, n: nat, dropped: nat)
    requires n < |xs| && dropped <= |s| + n
    ensures Tail(s, xs, n, dropped) + [xs[n]] == Tail(s, xs, n + 1, dropped)
    ensures dropped < |s| + n ==> Tail(s, xs, n, dropped)[1..] + [xs[n]] == Tail(s, xs, n + 1, dropped + 1)
  {
    assert s + xs[..n + 1] == s + xs[..n] + [xs[n]];
  }

  /** `n` elements have been appended to what was `s` from position `start` on, and the front has been dropped. */
  ghost predicate Appended<T>(deque: FixedDeque<T>, s: seq<T>, start: nat, at: nat, xs: seq<T>, n: nat, marks: Marks)
    reads deque, deque.cells
  {
    && deque.Valid() && at <= |s| <= deque.cells.Length && n <= |xs|
    && var dropped := Excess(deque.cells.Length, |s|, n);
    && (at < |s| ==> dropped <= at)
    && deque.Contents() == Tail(s, xs, n, dropped) && deque.start == start + dropped && deque.size == |s| + n - dropped
    && marks.first == (if start + at >= deque.start then start + at else deque.start)
    && marks.middle == (if start + |s| >= deque.start then start + |s| else deque.start)
  }

  /** Appending stops at the barrier: the deque is full and starts at the element to insert before. */
  ghost predicate AtBarrier<T>(deque: FixedDeque<T>, s: seq<T>, start: nat, at: nat)
    reads deque
  {
    at < |s| && deque.size == deque.cells.Length && deque.start == start + at
  }

  method AppendOne<T>(deque: FixedDeque<T>, ghost s: seq<T>, ghost start: nat, ghost at: nat, ghost xs: seq<T>, n: nat,
                      x: T, marks: Marks) returns (marks': Marks)
    requires n < |xs| && x == xs[n] && deque.cells.Length > 0
    requires Appended(deque, s, start, at, xs, n, marks) && !AtBarrier(deque, s, start, at)
    requires RoundInReach(deque.cells.Length, start + DroppedInOnePass(deque.cells.Length, |s|, at, |xs|))
    modifies deque, deque.cells
    ensures Appended(deque, s, start, at, xs, n + 1, marks')
  {
    hide ValidCells, Values, Tail;
    marks' := marks;
    TailStep(s, xs, n, Excess(deque.cells.Length, |s|, n));
    if deque.size >= deque.cells.Length {
      if deque.start == marks'.first {
        marks' := Marks(marks'.first + 1, if marks'.first == marks'.middle then marks'.middle + 1 else marks'.middle);
      }
      deque.PopFront();
    }
    deque.PushBack(x);
  }

  /** The last elements of `xs` that were read, written round and round over the elements from `middle` on. */
  ghost predicate Overwriting<T>(seg: seq<T>, left: nat, xs: seq<T>, n: nat) {
    left < |seg| <= n <= |xs| && seg[left..] + seg[..left] == xs[n - |seg|..n]
  }

  lemma OverwriteStep<T>(seg: seq<T>, left: nat, xs: seq<T>, n: nat)
    requires Overwriting(seg, left, xs, n) && n < |xs|
    ensures Overwriting(seg[left := xs[n]], if left + 1 == |seg| then 0 else left + 1, xs, n + 1)
  {
    var seg', left' := seg[left := xs[n]], if left + 1 == |seg| then 0 else left + 1;
    var ring, ring' := seg[left..] + seg[..left], seg'[left'..] + seg'[..left'];
    forall i | 0 <= i < |seg|
      ensures ring'[i] == xs[n + 1 - |seg| + i]
    {
      if i + 1 < |seg| {
        assert ring'[i] == ring[i + 1];
        assert ring[i + 1] == xs[n - |seg|..n][i + 1];
      }
    }
  }

  /** Overwrites the elements from `middle` on with what is left of the range, and puts them in order. */
  method OverwriteRest<T>(deque: FixedDeque<T>, middle: nat, xs: seq<T>, n: nat, ghost base: seq<T>)
    requires deque.Valid() && n <= |xs| && deque.start <= middle < deque.start + deque.size
    requires deque.size - (middle - deque.start) == n && |base| == middle - deque.start
    requires deque.Contents() == base + xs[..n]
    modifies deque.cells
    ensures deque.Valid() && deque.Contents() == base + xs[|xs| - n..]
  {
    hide ValidCells, Values, Overwriting, Rotated;
    var left, end := middle, deque.start + deque.size;
    ghost var seg := xs[..n];
    OverwriteStart(xs, n);
    for i := n to |xs|
      invariant deque.Valid() && middle <= left < end && |seg| == n && deque.Contents() == base + seg
      invariant Overwriting(seg, left - middle, xs, i)
    {
      OverwriteStep(seg, left - middle, xs, i);
      deque.Put(left, xs[i]);
      seg := seg[left - middle := xs[i]];
      left := left + 1;
      if left == end {
        left := middle;
      }
    }
    OverwriteEnd(base, seg, left - middle, xs);
    deque.Rotate(middle, left, end);
  }

  lemma OverwriteStart<T>(xs: seq<T>, n: nat)
    requires 0 < n <= |xs|
    ensures Overwriting(xs[..n], 0, xs, n)
  {
  }

  lemma OverwriteEnd<T>(base: seq<T>, seg: seq<T>, left: nat, xs: seq<T>)
    requires Overwriting(seg, left, xs, |xs|)
    ensures Rotated(base + seg, |base|, |base| + left, |base + seg|) == base + xs[|xs| - |seg|..]
  {
    var s := base + seg;
    assert s[..|base|] == base && s[|base| + left..] == seg[left..] && s[|base|..|base| + left] == seg[..left];
    assert s[|base| + left..|s|] == seg[left..] && s[|s|..] == [];
    assert xs[|xs| - |seg|..|xs|] == xs[|xs| - |seg|..];
  }

  /** Appends until the range is exhausted or the barrier is reached; fails if it would have to drop an
      element of an empty deque. */
  method AppendAll<T>(deque: FixedDeque<T>, pos: nat, xs: seq<T>, ghost s: seq<T>, ghost start: nat)
    returns (ok: bool, n: nat, marks: Marks)
    requires deque.Valid() && deque.Contents() == s && deque.start == start && |s| == deque.size <= deque.cells.Length
    requires start <= pos <= start + |s|
    requires RoundInReach(deque.cells.Length, start + DroppedInOnePass(deque.cells.Length, |s|, pos - start, |xs|))
    modifies deque, deque.cells
    ensures ok <==> xs == [] || deque.cells.Length > 0
    ensures ok ==> Appended(deque, s, start, pos - start, xs, n, marks)
    ensures ok ==> n == |xs| || (n < |xs| && AtBarrier(deque, s, start, pos - start))
  {
    hide ValidCells, Values, Tail;
    var atEnd := pos == deque.start + deque.size;
    marks := Marks(pos, deque.start + deque.size);
    n := 0;
    AppendedNone(s, xs);
    while n != |xs| && !(deque.size >= deque.cells.Length && deque.start == pos && !atEnd)
      invariant n <= |xs| && Appended(deque, s, start, pos - start, xs, n, marks)
      invariant deque.cells.Length > 0 || n == 0
      decreases |xs| - n
    {
      if deque.cells.Length == 0 {
        return false, n, marks;
      }
      marks := AppendOne(deque, s, start, pos - start, xs, n, xs[n], marks);
      n := n + 1;
    }
    ok := true;
  }

  lemma AppendedNone<T>(s: seq<T>, xs: seq<T>)
    ensures Tail(s, xs, 0, 0) == s
  {
  }

  /** The last rotation, when the whole range has been appended. */
  lemma PlacedWhole<T>(s: seq<T>, capacity: nat, at: nat, xs: seq<T>)
    requires at <= |s| <= capacity && (at < |s| ==> Excess(capacity, |s|, |xs|) <= at)
    ensures var dropped := Excess(capacity, |s|, |xs|);
      var first, middle := if dropped <= at then at - dropped else 0, if dropped <= |s| then |s| - dropped else 0;
      Rotated(Tail(s, xs, |xs|, dropped), first, middle, |s| + |xs| - dropped) == Spliced(s, capacity, at, xs)
  {
    var dropped := Excess(capacity, |s|, |xs|);
    assert xs[..|xs|] == xs;
    if dropped <= |s| {
      RotatedOld(s, dropped, at, xs);
    } else {
      assert (s + xs)[dropped..] == xs[dropped - |s|..];
      assert s[..at] == s && s[at..] == [];
    }
  }

  lemma RotatedOld<T>(s: seq<T>, dropped: nat, at: nat, xs: seq<T>)
    requires dropped <= at <= |s|
    ensures (s[..at] + xs)[dropped..] == s[dropped..at] + xs
    ensures Rotated((s + xs)[dropped..], at - dropped, |s| - dropped, |s| + |xs| - dropped)
            == s[dropped..at] + xs + s[at..]
  {
    var l := (s + xs)[dropped..];
    assert l[..at - dropped] == s[dropped..at] && l[at - dropped..|s| - dropped] == s[at..];
    assert l[|s| - dropped..|s| + |xs| - dropped] == xs && l[|s| + |xs| - dropped..] == [];
  }

  /** The last rotation, when the barrier was reached. */
  lemma PlacedRest<T>(s: seq<T>, capacity: nat, at: nat, xs: seq<T>, n: nat)
    requires at < |s| <= capacity && n < |xs| && |s| + n - at == capacity
    ensures Rotated(s[at..] + xs[|xs| - n..], 0, |s| - at, capacity) == Spliced(s, capacity, at, xs)
    ensures SplicedAt(capacity, |s|, at, |xs|) == 0
  {
    var excess := Excess(capacity, |s|, |xs|);
    assert excess - at == |xs| - n;
    assert (s[..at] + xs)[excess..] == xs[excess - at..];
  }

  lemma AtBarrierContents<T>(s: seq<T>, at: nat, xs: seq<T>, n: nat)
    requires at < |s| && n <= |xs|
    ensures Tail(s, xs, n, at) == s[at..] + xs[..n]
  {
  }

  /** Appends the range, overwrites the appended elements if the barrier is reached, and rotates twice. The
      attempt fails when an element would be dropped from an empty deque or written behind the last one. */
  method InsertOnePass<T>(deque: FixedDeque<T>, pos: nat, xs: seq<T>) returns (done: bool, r: nat)
    requires deque.Valid() && deque.start <= pos <= deque.start + deque.size
    requires RoundInReach(deque.cells.Length,
                          deque.start + DroppedInOnePass(deque.cells.Length, deque.size, pos - deque.start, |xs|))
    modifies deque, deque.cells
    ensures |old(deque.Contents())| == old(deque.size) <= deque.cells.Length
    ensures done <==> xs == [] || !(pos == old(deque.start) && old(deque.size) == deque.cells.Length)
    ensures done ==> deque.Valid()
    ensures done ==> deque.Contents() == Spliced(old(deque.Contents()), deque.cells.Length, pos - old(deque.start), xs)
    ensures done ==> r - deque.start == SplicedAt(deque.cells.Length, old(deque.size), pos - old(deque.start), |xs|)
    ensures done ==> deque.start - old(deque.start)
                     == DroppedInOnePass(deque.cells.Length, old(deque.size), pos - old(deque.start), |xs|)
  {
    hide ValidCells, Values, Spliced, Rotated, Tail;
    deque.SizeOfContents();
    ghost var s, at, start := deque.Contents(), pos - deque.start, deque.start;
    var ok, n, marks := AppendAll(deque, pos, xs, s, start);
    if !ok {
      return false, pos;
    }
    if n != |xs| {
      if marks.middle == deque.start + deque.size {
        return false, pos;
      }
      AtBarrierContents(s, at, xs, n);
      OverwriteRest(deque, marks.middle, xs, n, s[at..]);
      PlacedRest(s, deque.cells.Length, at, xs, n);
    } else {
      PlacedWhole(s, deque.cells.Length, at, xs);
    }
    deque.Rotate(marks.first, marks.middle, deque.start + deque.size);
    done, r := true, marks.first;
  }

  // ----- instances

  method FullDeque() returns (deque: FixedDeque<int>)
    ensures fresh(deque) && fresh(deque.cells) && deque.Valid() && deque.start == STARTING_OFFSET && !deque.trivial
    ensures deque.size == deque.cells.Length == 2
  {
    SmallCapacity(2);
    deque := new FixedDeque<int>(2, false);
    deque.PushBack(7);
    deque.PushBack(8);
    deque.SizeOfContents();
  }

  /** Inserting at begin of a full deque drops the whole range, relocates every object onto itself and
      destroys it. */
  method DroppedRangeExample() returns (deque: FixedDeque<int>)
    ensures !deque.Valid() && !deque.trivial
  {
    deque := FullDeque();
    var r := InsertRange(deque, deque.start, [9]);
  }

  /** Inserting in one pass does not succeed there. */
  method OnePassExample() returns (deque: FixedDeque<int>, done: bool)
    ensures !done
  {
    deque := FullDeque();
    var r;
    done, r := InsertOnePass(deque, deque.start, [9]);
  }

  // ----- whole runs

  /** What the circular deque demands of its callers, and that no object is relocated onto itself. */
  predicate Permitted<T>(s: seq<T>, command: Command<T>, capacity: nat, trivial: bool) {
    match command
    case PushBack(_) => capacity > 0
    case PushFront(_) => capacity > 0
    case PopBack => |s| > 0
    case PopFront => |s| > 0
    case Insert(at, xs) => at <= |s| && Survives(trivial, capacity, |s|, at, |xs|)
    case InsertOnePass(at, xs) => at <= |s| && (xs == [] || !(at == 0 && |s| == capacity))
    case Erase(from, to) => from <= to <= |s| && Lossless(trivial, to - from, |s| - to)
    case Clear => true
  }

  function Outcome<T>(s: seq<T>, command: Command<T>, capacity: nat, trivial: bool): (r: seq<T>)
    requires |s| <= capacity && Permitted(s, command, capacity, trivial)
    ensures |r| <= capacity
  {
    match command
    case PushBack(value) => Push(s, capacity, value)
    case PushFront(value) => [value] + if |s| == capacity then s[..|s| - 1] else s
    case PopBack => s[..|s| - 1]
    case PopFront => s[1..]
    case Insert(at, xs) => Spliced(s, capacity, at, xs)
    case InsertOnePass(at, xs) => Spliced(s, capacity, at, xs)
    case Erase(from, to) => s[..from] + s[to..]
    case Clear => []
  }

  /** The start counter after a command. */
  function CounterAfter<T>(start: nat, s: seq<T>, command: Command<T>, capacity: nat, trivial: bool): int
    requires |s| <= capacity && Permitted(s, command, capacity, trivial)
  {
    match command
    case PushBack(_) => if |s| == capacity then start + 1 else start
    case PushFront(_) => start - 1
    case PopFront => start + 1
    case Insert(at, xs) => start + Dropped(capacity, |s|, at, |xs|)
    case InsertOnePass(at, xs) => start + DroppedInOnePass(capacity, |s|, at, |xs|)
    case Clear => STARTING_OFFSET
    case _ => start
  }

  /** Every command is permitted where it comes, and the start counter stays inside its range. */
  predicate AllPermitted<T>(start: nat, s: seq<T>, commands: seq<Command<T>>, capacity: nat, trivial: bool)
    decreases |commands|
  {
    |s| <= capacity &&
    (commands == [] ||
     (&& Permitted(s, commands[0], capacity, trivial)
      && var next := CounterAfter(start, s, commands[0], capacity, trivial);
      && 0 <= next && RoundInReach(capacity, next)
      && AllPermitted(next, Outcome(s, commands[0], capacity, trivial), commands[1..], capacity, trivial)))
  }

  function Outcomes<T>(start: nat, s: seq<T>, commands: seq<Command<T>>, capacity: nat, trivial: bool): seq<T>
    requires AllPermitted(start, s, commands, capacity, trivial)
    decreases |commands|
  {
    if commands == [] then s
    else Outcomes(CounterAfter(start, s, commands[0], capacity, trivial), Outcome(s, commands[0], capacity, trivial),
                  commands[1..], capacity, trivial)
  }

  method Execute<T>(deque: FixedDeque<T>, command: Command<T>)
    requires deque.Valid() && |deque.Contents()| <= deque.cells.Length
    requires Permitted(deque.Contents(), command, deque.cells.Length, deque.trivial)
    requires var next := CounterAfter(deque.start, deque.Contents(), command, deque.cells.Length, deque.trivial);
             0 <= next && RoundInReach(deque.cells.Length, next)
    modifies deque, deque.cells
    ensures deque.Valid()
    ensures deque.start ==
            CounterAfter(old(deque.start), old(deque.Contents()), command, deque.cells.Length, deque.trivial)
    ensures deque.Contents() == Outcome(old(deque.Contents()), command, deque.cells.Length, deque.trivial)
  {
    hide ValidCells, Values, SlotOf, RoundInReach, Spliced, Excess;
    deque.SizeOfContents();
    match command {
      case PushBack(value) => PushBack(deque, value);
      case PushFront(value) => PushFront(deque, value);
      case PopBack => deque.PopBack();
      case PopFront => deque.PopFront();
      case Insert(at, xs) => var r := InsertRange(deque, deque.start + at, xs);
      case InsertOnePass(at, xs) => var done, r := InsertOnePass(deque, deque.start + at, xs);
      case Erase(from, to) => var r := deque.Erase(deque.start + from, deque.start + to);
      case Clear => deque.Clear();
    }
  }

  /** Every run does to the contents what the reference does to a sequence of bounded length. */
  method Run<T>(deque: FixedDeque<T>, commands: seq<Command<T>>)
    requires deque.Valid()
    requires AllPermitted(deque.start, deque.Contents(), commands, deque.cells.Length, deque.trivial)
    modifies deque, deque.cells
    ensures deque.Valid() && |deque.Contents()| <= deque.cells.Length
    ensures deque.Contents() ==
            Outcomes(old(deque.start), old(deque.Contents()), commands, deque.cells.Length, deque.trivial)
  {
    hide ValidCells, Values, Permitted, Outcome, CounterAfter, RoundInReach;
    ghost var capacity, trivial, s, start := deque.cells.Length, deque.trivial, deque.Contents(), deque.start;
    for n := 0 to |commands|
      invariant deque.Valid() && AllPermitted(deque.start, deque.Contents(), commands[n..], capacity, trivial)
      invariant Outcomes(start, s, commands, capacity, trivial)
                == Outcomes(deque.start, deque.Contents(), commands[n..], capacity, trivial)
    {
      ghost var rest := commands[n..];
      assert rest[0] == commands[n] && rest[1..] == commands[n + 1..];
      Execute(deque, commands[n]);
    }
    assert commands[|commands|..] == [];
  }
}
