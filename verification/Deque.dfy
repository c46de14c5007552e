/**
  The double-ended queue: positions count on without limit, and a position's slot is found modulo the
  capacity. Cells become vacant when the object in them is destroyed.
 */
module Deque {
  import opened Products
  import opened CircularIndexing

  /** Where the positions of a new deque start: in the middle of the index range. */
  const STARTING_OFFSET: nat := SIGN_LIMIT - 1

  datatype Cell<T> = Vacant | Held(v: T)

  // ----- from positions to slots

  /** What is added to a position before it is reduced to a slot. */
  function Lead(capacity: nat): (r: nat)
    requires capacity > 0
    ensures 0 < r <= capacity
  {
    Lift(Range(0, capacity), STARTING_OFFSET)
  }

  /** The slot of the position can be computed without leaving 64 bits. */
  predicate InReach(capacity: nat, position: nat) {
    0 < capacity < SIGN_LIMIT && position + Lead(capacity) < SIZE_LIMIT
  }

  /** So can the slots of a whole round of positions. */
  predicate RoundInReach(capacity: nat, start: nat) {
    if capacity == 0 then start < SIZE_LIMIT
    else capacity < SIGN_LIMIT && start + capacity + Lead(capacity) <= SIZE_LIMIT
  }

  lemma SmallCapacity(capacity: nat)
    requires capacity <= SIGN_LIMIT / 2
    ensures RoundInReach(capacity, STARTING_OFFSET)
  {
  }

  /** The slot of a position. */
  function SlotOf(capacity: nat, position: nat): (slot: nat)
    requires InReach(capacity, position)
    ensures slot < capacity
  {
    DecrementWraps(Range(0, capacity), position, STARTING_OFFSET);
    Decrement(Range(0, capacity), position, STARTING_OFFSET).integer
  }

  lemma SlotWrapped(capacity: nat, position: nat) returns (c: int)
    requires InReach(capacity, position)
    ensures SlotOf(capacity, position) < capacity
    ensures Wrapped(Range(0, capacity), position - STARTING_OFFSET, c, SlotOf(capacity, position))
  {
    hide Decrement, Times;
    var r := Range(0, capacity);
    DecrementWraps(r, position, STARTING_OFFSET);
    c :| Wrapped(r, position - STARTING_OFFSET, c, Decrement(r, position, STARTING_OFFSET).integer);
  }

  /** Within one round, wrapping around is a single comparison. */
  lemma IncrementOnce(capacity: nat, s: nat, n: nat)
    requires 0 < capacity < SIGN_LIMIT && s < capacity && n <= capacity
    ensures Increment(Range(0, capacity), s, n).integer == if s + n < capacity then s + n else s + n - capacity
  {
    hide Times, Increment;
    var r := Range(0, capacity);
    IncrementWraps(r, s, n);
    NonNegative(0, capacity);
    WrappedUnique(r, s + n, (s + n) / r.Distance(), if s + n < capacity then 0 else 1, Increment(r, s, n).integer,
                  if s + n < capacity then s + n else s + n - capacity);
  }

  /** Positions less than a round apart have different slots. */
  lemma SlotsDiffer(capacity: nat, p: nat, q: nat)
    requires InReach(capacity, q) && p < q < p + capacity
    ensures SlotOf(capacity, p) != SlotOf(capacity, q)
  {
    hide Times, SlotOf;
    var r := Range(0, capacity);
    var c := SlotWrapped(capacity, p);
    var c' := SlotWrapped(capacity, q);
    TimesLinear(c' - c, c, capacity);
    NonNegative(0, capacity);
    if SlotOf(capacity, p) == SlotOf(capacity, q) {
      TimesBound(c' - c, capacity);
      assert false;
    }
  }

  /** Stepping on from the slot of a position leads to the slot of the position that far on. */
  lemma SlotSteps(capacity: nat, p: nat, n: nat)
    requires InReach(capacity, p + n) && n <= capacity
    ensures SlotOf(capacity, p) < capacity
    ensures Increment(Range(0, capacity), SlotOf(capacity, p), n).integer == SlotOf(capacity, p + n)
  {
    hide Times, SlotOf, Increment;
    var r := Range(0, capacity);
    var c := SlotWrapped(capacity, p);
    var c' := SlotWrapped(capacity, p + n);
    IncrementWraps(r, SlotOf(capacity, p), n);
    var i := Increment(r, SlotOf(capacity, p), n).integer;
    var k := (SlotOf(capacity, p) + n - r.start) / r.Distance();
    WrappedShift(r, p - STARTING_OFFSET, c, SlotOf(capacity, p), n, k, i);
    WrappedUnique(r, p + n - STARTING_OFFSET, c + k, c', i, SlotOf(capacity, p + n));
  }

  lemma EndSlot(capacity: nat, p: nat, n: nat)
    requires RoundInReach(capacity, p) && 0 < capacity && n <= capacity
    ensures var end := Increment(Range(0, capacity), SlotOf(capacity, p), n).integer;
            if n < capacity then end == SlotOf(capacity, p + n) else end == SlotOf(capacity, p)
  {
    hide SlotOf, Increment;
    if n < capacity {
      SlotSteps(capacity, p, n);
    } else {
      IncrementOnce(capacity, SlotOf(capacity, p), n);
    }
  }

  /** Stepping back from the slot behind the last element. */
  lemma BackSlot(capacity: nat, p: nat, n: nat)
    requires RoundInReach(capacity, p) && 0 < n <= capacity
    ensures var end := Increment(Range(0, capacity), SlotOf(capacity, p), n).integer;
            Decrement(Range(0, capacity), end, 1).integer == SlotOf(capacity, p + (n - 1))
  {
    hide SlotOf, Decrement, Increment;
    var r := Range(0, capacity);
    SlotSteps(capacity, p, n - 1);
    IncrementsAdd(r, SlotOf(capacity, p), n - 1, 1);
    DecrementUndoesIncrement(r, SlotOf(capacity, p + (n - 1)), 1);
  }

  /** A round leads back to the same slot. */
  lemma SlotPeriod(capacity: nat, p: nat)
    requires InReach(capacity, p + capacity)
    ensures SlotOf(capacity, p + capacity) == SlotOf(capacity, p)
  {
    hide Times, SlotOf;
    var r := Range(0, capacity);
    var c := SlotWrapped(capacity, p);
    var c' := SlotWrapped(capacity, p + capacity);
    TimesLinear(c, 1, capacity);
    NonNegative(0, capacity);
    WrappedUnique(r, p + capacity - STARTING_OFFSET, c + 1, c', SlotOf(capacity, p), SlotOf(capacity, p + capacity));
  }

  /** Any window of a round's length reaches every slot. */
  lemma SlotReached(capacity: nat, start: nat, i: nat) returns (p: nat)
    requires RoundInReach(capacity, start) && i < capacity
    ensures start <= p < start + capacity && SlotOf(capacity, p) == i
  {
    hide SlotOf, Increment;
    var c := SlotWrapped(capacity, start);
    var s := SlotOf(capacity, start);
    var n := if i >= s then i - s else i + capacity - s;
    p := start + n;
    IncrementOnce(capacity, s, n);
    SlotSteps(capacity, start, n);
  }

  // ----- the cells seen by position

  function CellAt<T>(m: seq<Cell<T>>, position: nat): Cell<T>
    requires InReach(|m|, position)
  {
    m[SlotOf(|m|, position)]
  }

  lemma CellUpdate<T>(m: seq<Cell<T>>, q: nat, c: Cell<T>, p: nat)
    requires InReach(|m|, q) && InReach(|m|, p) && p < q + |m| && q < p + |m|
    ensures CellAt(m[SlotOf(|m|, q) := c], p) == if p == q then c else CellAt(m, p)
  {
    if p < q {
      SlotsDiffer(|m|, p, q);
    } else if q < p {
      SlotsDiffer(|m|, q, p);
    }
  }

  predicate Roomy(capacity: nat, start: nat, size: nat) {
    size <= capacity && RoundInReach(capacity, start) && RoundInReach(capacity, STARTING_OFFSET)
  }

  /** The positions [start, start + size) hold objects; the rest of the round holds none unless destroying
      is trivial. */
  ghost predicate ValidCells<T>(m: seq<Cell<T>>, trivial: bool, start: nat, size: nat) {
    && Roomy(|m|, start, size)
    && (forall p :: start <= p < start + size ==> CellAt(m, p).Held?)
    && (!trivial ==> forall p :: start + size <= p < start + |m| ==> CellAt(m, p).Vacant?)
  }

  ghost function Values<T>(m: seq<Cell<T>>, start: nat, size: nat): (s: seq<T>)
    requires Roomy(|m|, start, size) && forall p :: start <= p < start + size ==> CellAt(m, p).Held?
    ensures |s| == size && forall i :: 0 <= i < size ==> s[i] == CellAt(m, start + i).v
  {
    seq(size, i requires 0 <= i < size => CellAt(m, start + i).v)
  }

  // ----- relocation

  /** What is at position `p` after the objects at positions [a, b) have been relocated by `shift`. When
      the shift is zero every object is constructed onto itself and destroyed. */
  ghost function Relocated<T>(m: seq<Cell<T>>, trivial: bool, a: nat, b: nat, shift: int, p: nat): Cell<T>
    requires InReach(|m|, p) && (a + shift <= p < b + shift ==> InReach(|m|, p - shift))
  {
    if a + shift <= p < b + shift && (shift != 0 || trivial) then CellAt(m, p - shift)
    else if a <= p < b && !trivial then Vacant
    else CellAt(m, p)
  }

  /** The whole round after such a relocation. */
  ghost predicate RelocatedTo<T>(m: seq<Cell<T>>, trivial: bool, start: nat, a: nat, b: nat, shift: int,
                                 r: seq<Cell<T>>) {
    && |r| == |m| && Roomy(|m|, start, 0)
    && start <= a <= b <= start + |m| && start <= a + shift && b + shift <= start + |m|
    && forall p :: start <= p < start + |m| ==> CellAt(r, p) == Relocated(m, trivial, a, b, shift, p)
  }

  /** Relocating one more object at the end of the block towards which the others moved away from it. */
  lemma RelocateStep<T>(m: seq<Cell<T>>, trivial: bool, start: nat, a: nat, b: nat, shift: int, r: seq<Cell<T>>, x: nat)
    requires RelocatedTo(m, trivial, start, a, b, shift, r)
    requires (x == a - 1 && shift >= 0) || (x == b && shift <= 0)
    requires start <= x < start + |m| && start <= x + shift < start + |m|
    ensures var r1 := r[SlotOf(|m|, x + shift) := CellAt(r, x)];
            var r2 := if trivial then r1 else r1[SlotOf(|m|, x) := Vacant];
            RelocatedTo(m, trivial, start, if x < a then x else a, if x < a then b else x + 1, shift, r2)
  {
    hide SlotOf;
    var r1 := r[SlotOf(|m|, x + shift) := CellAt(r, x)];
    var r2 := if trivial then r1 else r1[SlotOf(|m|, x) := Vacant];
    assert CellAt(r, x) == CellAt(m, x);
    forall p | start <= p < start + |m|
      ensures CellAt(r2, p) == Relocated(m, trivial, if x < a then x else a, if x < a then b else x + 1, shift, p)
    {
      CellUpdate(r, x + shift, CellAt(r, x), p);
      CellUpdate(r1, x, Vacant, p);
    }
  }

  lemma RelocateNone<T>(m: seq<Cell<T>>, trivial: bool, start: nat, a: nat, shift: int)
    requires Roomy(|m|, start, 0) && start <= a <= start + |m| && start <= a + shift <= start + |m|
    ensures RelocatedTo(m, trivial, start, a, a, shift, m)
  {
  }

  /** The cells after writing `xs` from position `pos` on. */
  ghost predicate Written<T>(m: seq<Cell<T>>, start: nat, pos: nat, xs: seq<T>, r: seq<Cell<T>>) {
    && |r| == |m| && Roomy(|m|, start, 0) && start <= pos && pos + |xs| <= start + |m|
    && forall p :: start <= p < start + |m| ==>
      CellAt(r, p) == if pos <= p < pos + |xs| then Held(xs[p - pos]) else CellAt(m, p)
  }

  lemma WrittenStep<T>(m: seq<Cell<T>>, start: nat, pos: nat, xs: seq<T>, r: seq<Cell<T>>, x: T)
    requires Written(m, start, pos, xs, r) && pos + |xs| < start + |m|
    ensures Written(m, start, pos, xs + [x], r[SlotOf(|m|, pos + |xs|) := Held(x)])
  {
    hide SlotOf;
    var r' := r[SlotOf(|m|, pos + |xs|) := Held(x)];
    forall p | start <= p < start + |m|
      ensures CellAt(r', p) == if pos <= p < pos + |xs| + 1 then Held((xs + [x])[p - pos]) else CellAt(m, p)
    {
      CellUpdate(r, pos + |xs|, Held(x), p);
    }
  }

  /** Making room relocates every object onto itself when there is nothing to insert: they survive only if
      there are none or destroying is trivial. */
  predicate Lossless(trivial: bool, shift: nat, moved: nat) { trivial || shift > 0 || moved == 0 }

  function Inserted<T>(s: seq<T>, k: nat, xs: seq<T>): seq<T>
    requires k <= |s|
  {
    s[..k] + xs + s[k..]
  }

  lemma InsertedCells<T>(m: seq<Cell<T>>, trivial: bool, start: nat, size: nat, pos: nat, xs: seq<T>, r: seq<Cell<T>>,
                         r': seq<Cell<T>>)
    requires ValidCells(m, trivial, start, size) && start <= pos <= start + size && size + |xs| <= |m|
    requires RelocatedTo(m, trivial, start, pos, start + size, |xs|, r) && Written(r, start, pos, xs, r')
    ensures ValidCells(r', trivial, start, size + |xs|) <==> Lossless(trivial, |xs|, start + size - pos)
    ensures Lossless(trivial, |xs|, start + size - pos) ==>
              Values(r', start, size + |xs|) == Inserted(Values(m, start, size), pos - start, xs)
  {
    hide CellAt;
    if !Lossless(trivial, |xs|, start + size - pos) {
      assert CellAt(r', pos) == Vacant;
    }
  }

  ghost predicate Destroyed<T>(m: seq<Cell<T>>, trivial: bool, start: nat, a: nat, b: nat, r: seq<Cell<T>>) {
    && |r| == |m| && Roomy(|m|, start, 0) && start <= a <= b <= start + |m|
    && forall p :: start <= p < start + |m| ==>
      CellAt(r, p) == if a <= p < b && !trivial then Vacant else CellAt(m, p)
  }

  lemma DestroyedStep<T>(m: seq<Cell<T>>, trivial: bool, start: nat, a: nat, b: nat, r: seq<Cell<T>>)
    requires Destroyed(m, trivial, start, a, b, r) && b < start + |m| && !trivial
    ensures Destroyed(m, trivial, start, a, b + 1, r[SlotOf(|m|, b) := Vacant])
  {
    hide SlotOf;
    var r' := r[SlotOf(|m|, b) := Vacant];
    forall p | start <= p < start + |m|
      ensures CellAt(r', p) == if a <= p < b + 1 then Vacant else CellAt(m, p)
    {
      CellUpdate(r, b, Vacant, p);
    }
  }

  lemma ErasedCells<T>(m: seq<Cell<T>>, trivial: bool, start: nat, size: nat, a: nat, b: nat, r: seq<Cell<T>>,
                       r': seq<Cell<T>>)
    requires ValidCells(m, trivial, start, size) && start <= a <= b <= start + size
    requires Destroyed(m, trivial, start, a, b, r) && RelocatedTo(r, trivial, start, b, start + size, a - b, r')
    ensures ValidCells(r', trivial, start, size - (b - a)) <==> Lossless(trivial, b - a, start + size - b)
    ensures Lossless(trivial, b - a, start + size - b) ==>
              Values(r', start, size - (b - a))
              == Values(m, start, size)[..a - start] + Values(m, start, size)[b - start..]
  {
    hide CellAt;
    if !Lossless(trivial, b - a, start + size - b) {
      assert CellAt(r', a) == Vacant;
    }
  }

  // ----- the deque

  class FixedDeque<T> {
    /** Destroying an object leaves its cell as it is. */
    const trivial: bool
    const cells: array<Cell<T>>
    var start: nat
    var size: nat

    ghost predicate Valid()
      reads this, cells
    {
      ValidCells(cells[..], trivial, start, size)
    }

    ghost function Contents(): seq<T>
      requires Valid()
      reads this, cells
    {
      Values(cells[..], start, size)
    }

    constructor (capacity: nat, trivial: bool)
      requires RoundInReach(capacity, STARTING_OFFSET)
      ensures Valid() && Contents() == [] && start == STARTING_OFFSET && fresh(cells)
      ensures cells.Length == capacity && this.trivial == trivial
    {
      this.trivial := trivial;
      cells := new Cell<T>[capacity](_ => Vacant);
      start, size := STARTING_OFFSET, 0;
    }

    function FrontIndex(): nat
      requires InReach(cells.Length, start)
      reads this
    {
      SlotOf(cells.Length, start)
    }

    /** The slot behind the last element; in a full deque that is the front again. */
    function EndIndex(): (slot: nat)
      requires Roomy(cells.Length, start, size) && cells.Length > 0
      reads this
      ensures slot < cells.Length
      ensures if size < cells.Length then slot == SlotOf(cells.Length, start + size) else slot == FrontIndex()
    {
      EndSlot(cells.Length, start, size);
      Increment(Range(0, cells.Length), FrontIndex(), size).integer
    }

    function BackIndex(): (slot: nat)
      requires Roomy(cells.Length, start, size) && size > 0
      reads this
      ensures slot == SlotOf(cells.Length, start + size - 1) < cells.Length
    {
      BackSlot(cells.Length, start, size);
      Decrement(Range(0, cells.Length), EndIndex(), 1).integer
    }

    method PushBack(value: T)
      requires Valid() && size < cells.Length
      modifies this, cells
      ensures Valid() && Contents() == old(Contents()) + [value] && start == old(start)
    {
      hide SlotOf, Values;
      ghost var m := cells[..];
      cells[EndIndex()] := Held(value);
      PushedBack(m, trivial, start, size, value);
      size := size + 1;
    }

    method PushFront(value: T)
      requires Valid() && size < cells.Length && start > 0
      modifies this, cells
      ensures Valid() && Contents() == [value] + old(Contents()) && start == old(start) - 1
    {
      hide SlotOf, Values;
      ghost var m := cells[..];
      start := start - 1;
      cells[FrontIndex()] := Held(value);
      PushedFront(m, trivial, start + 1, size, value);
      size := size + 1;
    }

    method PopBack()
      requires Valid() && size > 0
      modifies this, cells
      ensures Valid() && Contents() == old(Contents())[..old(size) - 1] && start == old(start)
    {
      hide SlotOf, Values;
      ghost var m := cells[..];
      if !trivial {
        cells[BackIndex()] := Vacant;
      }
      PoppedBack(m, trivial, start, size);
      size := size - 1;
    }

    method PopFront()
      requires Valid() && size > 0 && RoundInReach(cells.Length, start + 1)
      modifies this, cells
      ensures Valid() && Contents() == old(Contents())[1..] && start == old(start) + 1
    {
      hide SlotOf, Values;
      ghost var m := cells[..];
      if !trivial {
        cells[FrontIndex()] := Vacant;
      }
      PoppedFront(m, trivial, start, size);
      start := start + 1;
      size := size - 1;
    }

    /** Access by logical index. */
    method At(index: nat) returns (value: T)
      requires Valid() && index < size
      ensures value == Contents()[index]
    {
      hide SlotOf, Decrement, Increment;
      SlotSteps(cells.Length, start, index);
      assert CellAt(cells[..], start + index).Held?;
      value := cells[Increment(Range(0, cells.Length), FrontIndex(), index).integer].v;
    }

    /** Access through an iterator. */
    method Get(pos: nat) returns (value: T)
      requires Valid() && start <= pos < start + size
      ensures value == Contents()[pos - start]
    {
      assert CellAt(cells[..], pos).Held?;
      value := cells[SlotOf(cells.Length, pos)].v;
    }

    method Put(pos: nat, value: T)
      requires Valid() && start <= pos < start + size
      modifies cells
      ensures Valid() && Contents() == old(Contents())[pos - start := value]
    {
      hide SlotOf, Values;
      ghost var m := cells[..];
      cells[SlotOf(cells.Length, pos)] := Held(value);
      PutThere(m, trivial, start, size, pos, value);
    }

    /** Constructs the object at `to` from the one at `from` and destroys the latter. */
    method RelocateOne(from: nat, to: nat)
      requires InReach(cells.Length, from) && InReach(cells.Length, to)
      modifies cells
      ensures var m := old(cells[..]);
        var r := m[SlotOf(|m|, to) := CellAt(m, from)];
        cells[..] == if trivial then r else r[SlotOf(|m|, from) := Vacant]
    {
      hide SlotOf;
      cells[SlotOf(cells.Length, to)] := cells[SlotOf(cells.Length, from)];
      if !trivial {
        cells[SlotOf(cells.Length, from)] := Vacant;
      }
    }

    /** Relocates the objects from position `pos` on by `n` towards the end, the last one first. */
    method AdvanceAll(pos: nat, n: nat)
      requires Valid() && start <= pos <= start + size && size + n <= cells.Length
      modifies this`size, cells
      ensures size == old(size) + n
      ensures RelocatedTo(old(cells[..]), trivial, start, pos, start + old(size), n, cells[..])
    {
      hide SlotOf, RelocatedTo;
      ghost var m, end := cells[..], start + size;
      var last := start + size;
      size := size + n;
      RelocateNone(m, trivial, start, last, n);
      while last != pos
        invariant pos <= last <= end && size == old(size) + n
        invariant RelocatedTo(m, trivial, start, last, end, n, cells[..])
        decreases last
      {
        RelocateStep(m, trivial, start, last, end, n, cells[..], last - 1);
        last := last - 1;
        RelocateOne(last, last + n);
      }
    }

    method WriteAll(pos: nat, xs: seq<T>)
      requires Roomy(cells.Length, start, 0) && start <= pos && pos + |xs| <= start + cells.Length
      modifies cells
      ensures Written(old(cells[..]), start, pos, xs, cells[..])
    {
      hide SlotOf;
      ghost var m := cells[..];
      for i := 0 to |xs|
        invariant Written(m, start, pos, xs[..i], cells[..])
      {
        WrittenStep(m, start, pos, xs[..i], cells[..], xs[i]);
        assert xs[..i] + [xs[i]] == xs[..i + 1];
        cells[SlotOf(cells.Length, pos + i)] := Held(xs[i]);
      }
      assert xs[..|xs|] == xs;
    }

    /** Inserts a range whose length is known beforehand. */
    method InsertRange(pos: nat, xs: seq<T>) returns (r: nat)
      requires Valid() && start <= pos <= start + size && size + |xs| <= cells.Length
      modifies this`size, cells
      ensures size == old(size) + |xs| && r == pos
      ensures Valid() <==> Lossless(trivial, |xs|, start + old(size) - pos)
      ensures Valid() ==> Contents() == Inserted(old(Contents()), pos - start, xs)
    {
      hide SlotOf, RelocatedTo, Written, ValidCells, Values;
      ghost var m, oldSize := cells[..], size;
      AdvanceAll(pos, |xs|);
      ghost var moved := cells[..];
      MovedRoom(m, trivial, start, oldSize, pos, xs, moved);
      WriteAll(pos, xs);
      InsertedCells(m, trivial, start, oldSize, pos, xs, moved, cells[..]);
      r := pos;
    }

    method DestroyRange(first: nat, last: nat)
      requires Valid() && start <= first <= last <= start + size
      modifies cells
      ensures Destroyed(old(cells[..]), trivial, start, first, last, cells[..])
    {
      hide SlotOf;
      if trivial {
        return;
      }
      ghost var m := cells[..];
      var i := first;
      while i != last
        invariant first <= i <= last && Destroyed(m, trivial, start, first, i, cells[..])
        decreases last - i
      {
        DestroyedStep(m, trivial, start, first, i, cells[..]);
        cells[SlotOf(cells.Length, i)] := Vacant;
        i := i + 1;
      }
    }

    /** Erases the positions [first, last): destroys them and relocates what follows, the first one first. */
    method Erase(first: nat, last: nat) returns (r: nat)
      requires Valid() && start <= first <= last <= start + size
      modifies this`size, cells
      ensures size == old(size) - (last - first) && r == first
      ensures Valid() <==> Lossless(trivial, last - first, start + old(size) - last)
      ensures Valid() ==> Contents() == old(Contents())[..first - start] + old(Contents())[last - start..]
    {
      hide SlotOf, RelocatedTo, Destroyed, Values;
      ghost var m, d := cells[..], last - first;
      DestroyRange(first, last);
      ghost var gap := cells[..];
      var read := last;
      RelocateNone(gap, trivial, start, last, -d);
      while read != start + size
        invariant last <= read <= start + size && size == old(size)
        invariant RelocatedTo(gap, trivial, start, last, read, -d, cells[..])
        decreases start + size - read
      {
        RelocateStep(gap, trivial, start, last, read, -d, cells[..], read);
        RelocateOne(read, read - (last - first));
        read := read + 1;
      }
      ErasedCells(m, trivial, start, size, first, last, gap, cells[..]);
      size := size - (last - first);
      r := first;
    }

    /** Destroys everything and starts again in the middle of the index range. */
    method Clear()
      requires Valid()
      modifies this, cells
      ensures Valid() && Contents() == [] && start == STARTING_OFFSET
    {
      ghost var m := cells[..];
      DestroyRange(start, start + size);
      Cleared(m, trivial, start, size, cells[..]);
      start, size := STARTING_OFFSET, 0;
    }

    lemma SizeOfContents()
      requires Valid()
      ensures |Contents()| == size <= cells.Length
    {
    }

    method ReadRange(first: nat, last: nat) returns (xs: seq<T>)
      requires Valid() && start <= first <= last <= start + size
      ensures |Contents()| == size && xs == Contents()[first - start..last - start]
    {
      hide SlotOf, ValidCells, Values;
      SizeOfContents();
      xs := [];
      for i := first to last
        invariant Valid() && |Contents()| == size && xs == Contents()[first - start..i - start]
      {
        var x := Get(i);
        xs := xs + [x];
      }
    }

    method PutAll(first: nat, xs: seq<T>)
      requires Valid() && start <= first && first + |xs| <= start + size
      modifies cells
      ensures |old(Contents())| == size && Valid()
      ensures Contents() == Overlaid(old(Contents()), first - start, xs)
    {
      hide SlotOf, ValidCells, Values, Overlaid;
      SizeOfContents();
      ghost var s, a := Contents(), first - start;
      OverlaidNone(s, a, xs);
      for i := 0 to |xs|
        invariant Valid() && Contents() == Overlaid(s, a, xs[..i])
      {
        OverlaidStep(s, a, xs, i);
        Put(first + i, xs[i]);
      }
      assert xs[..|xs|] == xs;
    }

    /** Left rotation of the positions [first, last) that brings `middle` to `first`. */
    method Rotate(first: nat, middle: nat, last: nat)
      requires Valid() && start <= first <= middle <= last <= start + size
      modifies cells
      ensures Valid()
      ensures Contents() == Rotated(old(Contents()), first - start, middle - start, last - start)
    {
      hide *;
      ghost var s := Contents();
      var front := ReadRange(first, middle);
      var back := ReadRange(middle, last);
      SizeOfContents();
      RotatedByParts(s, first - start, middle - start, last - start);
      PutAll(first, back + front);
    }

    /** Inserts a range that can only be read once: appends it and rotates it into place. */
    method InsertOnePass(pos: nat, xs: seq<T>) returns (r: nat)
      requires Valid() && start <= pos <= start + size && size + |xs| <= cells.Length
      modifies this, cells
      ensures Valid() && start == old(start) && r == pos
      ensures Contents() == Inserted(old(Contents()), pos - start, xs)
    {
      hide ValidCells, Values;
      ghost var s := Contents();
      var middle := start + size;
      var i := 0;
      while i != |xs| && size < cells.Length
        invariant 0 <= i <= |xs| && Valid() && start == old(start) && size == |s| + i && Contents() == s + xs[..i]
        decreases |xs| - i
      {
        PushBack(xs[i]);
        i := i + 1;
      }
      assert xs[..i] == xs;
      Rotate(pos, middle, start + size);
      r := pos;
    }
  }

  /** The sequence with the elements from position `a` on replaced by `xs`. */
  function Overlaid<T>(s: seq<T>, a: nat, xs: seq<T>): seq<T>
    requires a + |xs| <= |s|
  {
    s[..a] + xs + s[a + |xs|..]
  }

  lemma OverlaidNone<T>(s: seq<T>, a: nat, xs: seq<T>)
    requires a + |xs| <= |s|
    ensures Overlaid(s, a, xs[..0]) == s
  {
  }

  lemma OverlaidStep<T>(s: seq<T>, a: nat, xs: seq<T>, i: nat)
    requires i < |xs| && a + |xs| <= |s|
    ensures |Overlaid(s, a, xs[..i])| == |s|
    ensures Overlaid(s, a, xs[..i])[a + i := xs[i]] == Overlaid(s, a, xs[..i + 1])
  {
  }

  /** The left rotation of s[a..c] that brings element `b` to the front. */
  function Rotated<T>(s: seq<T>, a: nat, b: nat, c: nat): seq<T>
    requires a <= b <= c <= |s|
  {
    s[..a] + s[b..c] + s[a..b] + s[c..]
  }

  lemma RotatedByParts<T>(s: seq<T>, a: nat, b: nat, c: nat)
    requires a <= b <= c <= |s|
    ensures a + |s[b..c] + s[a..b]| == c
    ensures Overlaid(s, a, s[b..c] + s[a..b]) == Rotated(s, a, b, c)
  {
  }

  lemma MovedRoom<T>(m: seq<Cell<T>>, trivial: bool, start: nat, size: nat, pos: nat, xs: seq<T>, r: seq<Cell<T>>)
    requires ValidCells(m, trivial, start, size) && start <= pos <= start + size && size + |xs| <= |m|
    requires RelocatedTo(m, trivial, start, pos, start + size, |xs|, r)
    ensures |r| == |m| && Roomy(|r|, start, 0)
  {
  }

  lemma Cleared<T>(m: seq<Cell<T>>, trivial: bool, start: nat, size: nat, r: seq<Cell<T>>)
    requires ValidCells(m, trivial, start, size)
    requires Destroyed(m, trivial, start, start, start + size, r)
    ensures ValidCells(r, trivial, STARTING_OFFSET, 0)
  {
    if !trivial {
      forall p | STARTING_OFFSET <= p < STARTING_OFFSET + |r|
        ensures CellAt(r, p).Vacant?
      {
        var q := SlotReached(|r|, start, SlotOf(|r|, p));
        assert CellAt(r, q).Vacant?;
      }
    }
  }

  lemma PushedBack<T>(m: seq<Cell<T>>, trivial: bool, start: nat, size: nat, value: T)
    requires ValidCells(m, trivial, start, size) && size < |m|
    ensures var r := m[SlotOf(|m|, start + size) := Held(value)];
            ValidCells(r, trivial, start, size + 1) && Values(r, start, size + 1) == Values(m, start, size) + [value]
  {
    hide SlotOf, CellAt;
    var r := m[SlotOf(|m|, start + size) := Held(value)];
    forall p | start <= p < start + |m|
      ensures CellAt(r, p) ==
              if p == start + size then Held(value) else CellAt(m, p)
    {
      CellUpdate(m, start + size, Held(value), p);
    }
  }

  lemma PutThere<T>(m: seq<Cell<T>>, trivial: bool, start: nat, size: nat, pos: nat, value: T)
    requires ValidCells(m, trivial, start, size) && start <= pos < start + size
    ensures var r := m[SlotOf(|m|, pos) := Held(value)];
            && ValidCells(r, trivial, start, size)
            && Values(r, start, size) == Values(m, start, size)[pos - start := value]
  {
    hide SlotOf, CellAt;
    var r := m[SlotOf(|m|, pos) := Held(value)];
    forall p | start <= p < start + |m|
      ensures CellAt(r, p) == if p == pos then Held(value) else CellAt(m, p)
    {
      CellUpdate(m, pos, Held(value), p);
    }
  }

  /** The cell a round before the first position is the cell after the last. */
  lemma PushedFront<T>(m: seq<Cell<T>>, trivial: bool, start: nat, size: nat, value: T)
    requires ValidCells(m, trivial, start, size) && size < |m| && start > 0
    ensures var r := m[SlotOf(|m|, start - 1) := Held(value)];
            && ValidCells(r, trivial, start - 1, size + 1)
            && Values(r, start - 1, size + 1) == [value] + Values(m, start, size)
  {
    hide SlotOf, CellAt;
    var r := m[SlotOf(|m|, start - 1) := Held(value)];
    forall p | start - 1 <= p < start - 1 + |m|
      ensures CellAt(r, p) ==
              if p == start - 1 then Held(value) else CellAt(m, p)
    {
      CellUpdate(m, start - 1, Held(value), p);
    }
  }

  lemma PoppedBack<T>(m: seq<Cell<T>>, trivial: bool, start: nat, size: nat)
    requires ValidCells(m, trivial, start, size) && size > 0
    ensures var r := if trivial then m else m[SlotOf(|m|, start + size - 1) := Vacant];
            ValidCells(r, trivial, start, size - 1) && Values(r, start, size - 1) == Values(m, start, size)[..size - 1]
  {
    hide SlotOf, CellAt;
    var r := m[SlotOf(|m|, start + size - 1) := Vacant];
    forall p | start <= p < start + |m|
      ensures CellAt(r, p) ==
              if p == start + size - 1 then Vacant else CellAt(m, p)
    {
      CellUpdate(m, start + size - 1, Vacant, p);
    }
  }

  lemma PoppedFront<T>(m: seq<Cell<T>>, trivial: bool, start: nat, size: nat)
    requires ValidCells(m, trivial, start, size) && size > 0 && RoundInReach(|m|, start + 1)
    ensures var r := if trivial then m else m[SlotOf(|m|, start) := Vacant];
            ValidCells(r, trivial, start + 1, size - 1) && Values(r, start + 1, size - 1) == Values(m, start, size)[1..]
  {
    hide SlotOf;
    SlotPeriod(|m|, start);
    var r := m[SlotOf(|m|, start) := Vacant];
    forall p | start <= p < start + |m|
      ensures CellAt(r, p) == if p == start then Vacant else CellAt(m, p)
    {
      CellUpdate(m, start, Vacant, p);
    }
  }

  /** Inserting nothing in front of an object whose destruction is not trivial destroys it. */
  method EmptyInsertionExample() returns (deque: FixedDeque<int>)
    ensures !deque.Valid() && !deque.trivial && deque.size == 1
  {
    SmallCapacity(2);
    deque := new FixedDeque<int>(2, false);
    deque.PushBack(7);
    var r := deque.InsertRange(deque.start, []);
  }

  /** So does erasing an empty range. */
  method EmptyErasureExample() returns (deque: FixedDeque<int>)
    ensures !deque.Valid() && !deque.trivial && deque.size == 1
  {
    SmallCapacity(2);
    deque := new FixedDeque<int>(2, false);
    deque.PushBack(7);
    var r := deque.Erase(deque.start, deque.start);
  }

  // ----- whole runs

  datatype Command<T> =
    | PushBack(value: T)
    | PushFront(value: T)
    | PopBack
    | PopFront
    | Insert(at: nat, xs: seq<T>)
    | InsertOnePass(at: nat, xs: seq<T>)
    | Erase(from: nat, to: nat)
    | Clear

  /** What the deque demands of its callers, and that no object is relocated onto itself. */
  predicate Allowed<T>(s: seq<T>, command: Command<T>, capacity: nat, trivial: bool) {
    match command
    case PushBack(_) => |s| < capacity
    case PushFront(_) => |s| < capacity
    case PopBack => |s| > 0
    case PopFront => |s| > 0
    case Insert(at, xs) => at <= |s| && |s| + |xs| <= capacity && Lossless(trivial, |xs|, |s| - at)
    case InsertOnePass(at, xs) => at <= |s| && |s| + |xs| <= capacity
    case Erase(from, to) => from <= to <= |s| && Lossless(trivial, to - from, |s| - to)
    case Clear => true
  }

  function Effect<T>(s: seq<T>, command: Command<T>, capacity: nat, trivial: bool): seq<T>
    requires Allowed(s, command, capacity, trivial)
  {
    match command
    case PushBack(value) => s + [value]
    case PushFront(value) => [value] + s
    case PopBack => s[..|s| - 1]
    case PopFront => s[1..]
    case Insert(at, xs) => Inserted(s, at, xs)
    case InsertOnePass(at, xs) => Inserted(s, at, xs)
    case Erase(from, to) => s[..from] + s[to..]
    case Clear => []
  }

  predicate AllAllowed<T>(s: seq<T>, commands: seq<Command<T>>, capacity: nat, trivial: bool)
    decreases |commands|
  {
    commands == [] ||
    (Allowed(s, commands[0], capacity, trivial) &&
     AllAllowed(Effect(s, commands[0], capacity, trivial), commands[1..], capacity, trivial))
  }

  function Effects<T>(s: seq<T>, commands: seq<Command<T>>, capacity: nat, trivial: bool): seq<T>
    requires AllAllowed(s, commands, capacity, trivial)
    decreases |commands|
  {
    if commands == [] then s
    else Effects(Effect(s, commands[0], capacity, trivial), commands[1..], capacity, trivial)
  }

  /** The start counter after a command. */
  function StartAfter<T>(start: nat, command: Command<T>): int {
    match command
    case PushFront(_) => start - 1
    case PopFront => start + 1
    case Clear => STARTING_OFFSET
    case _ => start
  }

  /** The start counter stays inside its range throughout. */
  predicate CounterFits<T>(start: nat, commands: seq<Command<T>>, capacity: nat)
    decreases |commands|
  {
    commands == [] ||
    (var next := StartAfter(start, commands[0]);
     0 <= next && RoundInReach(capacity, next) && CounterFits(next, commands[1..], capacity))
  }

  /** It does in every run that is shorter than the distance to either end. */
  lemma {:induction false} ShortRunsFit<T>(start: nat, commands: seq<Command<T>>, capacity: nat)
    requires |commands| <= start && RoundInReach(capacity, start + |commands|)
    requires |commands| <= STARTING_OFFSET && RoundInReach(capacity, STARTING_OFFSET + |commands|)
    ensures CounterFits(start, commands, capacity)
    decreases |commands|
  {
    if commands != [] {
      ShortRunsFit(StartAfter(start, commands[0]), commands[1..], capacity);
    }
  }

  method Execute<T>(deque: FixedDeque<T>, command: Command<T>)
    requires deque.Valid() && Allowed(deque.Contents(), command, deque.cells.Length, deque.trivial)
    requires 0 <= StartAfter(deque.start, command) && RoundInReach(deque.cells.Length, StartAfter(deque.start, command))
    modifies deque, deque.cells
    ensures deque.Valid() && deque.start == StartAfter(old(deque.start), command)
    ensures deque.Contents() == Effect(old(deque.Contents()), command, deque.cells.Length, deque.trivial)
  {
    hide ValidCells, Values, SlotOf, RoundInReach;
    deque.SizeOfContents();
    match command {
      case PushBack(value) => deque.PushBack(value);
      case PushFront(value) => deque.PushFront(value);
      case PopBack => deque.PopBack();
      case PopFront => deque.PopFront();
      case Insert(at, xs) => var r := deque.InsertRange(deque.start + at, xs);
      case InsertOnePass(at, xs) => var r := deque.InsertOnePass(deque.start + at, xs);
      case Erase(from, to) => var r := deque.Erase(deque.start + from, deque.start + to);
      case Clear => deque.Clear();
    }
  }

  /** Every run in which the start counter stays inside its range does to the contents what the commands do
      to a sequence. */
  method Run<T>(deque: FixedDeque<T>, commands: seq<Command<T>>)
    requires deque.Valid() && AllAllowed(deque.Contents(), commands, deque.cells.Length, deque.trivial)
    requires CounterFits(deque.start, commands, deque.cells.Length)
    modifies deque, deque.cells
    ensures deque.Valid()
    ensures deque.Contents() == Effects(old(deque.Contents()), commands, deque.cells.Length, deque.trivial)
  {
    hide ValidCells, Values, Allowed, Effect, RoundInReach, StartAfter;
    ghost var capacity, trivial, s := deque.cells.Length, deque.trivial, deque.Contents();
    for n := 0 to |commands|
      invariant deque.Valid() && AllAllowed(deque.Contents(), commands[n..], capacity, trivial)
      invariant CounterFits(deque.start, commands[n..], capacity)
      invariant Effects(s, commands, capacity, trivial) == Effects(deque.Contents(), commands[n..], capacity, trivial)
    {
      ghost var rest := commands[n..];
      assert rest[0] == commands[n] && rest[1..] == commands[n + 1..];
      Execute(deque, commands[n]);
    }
    assert commands[|commands|..] == [];
  }
}
