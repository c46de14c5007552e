/**
  The doubly linked list over a pool: one chain array holds the links of all slots, and its last
  element is the sentinel that closes the chain to a ring.
 */
module LinkedList {
  import opened Sequences
  import opened IndexStorage

  datatype Link = Link(prev: nat, next: nat)

  ghost predicate InBounds(ids: seq<nat>, bound: nat) {
    forall k :: 0 <= k < |ids| ==> ids[k] < bound
  }

  /** Element `k` of the ring: the sentinel stands before the first and after the last element. */
  function RingAt(order: seq<nat>, sentinel: nat, k: int): nat {
    if 0 <= k < |order| then order[k] else sentinel
  }

  /** Following `next` from the sentinel runs through `order` and back to the sentinel, and `prev` is the
      inverse of `next`. */
  ghost predicate Ring(chain: seq<Link>, order: seq<nat>) {
    && |chain| > 0 && NoRepeats(order)
    && InBounds(order, |chain| - 1)
    && forall k :: -1 <= k < |order| ==> Linked(chain, order, k)
  }

  ghost predicate Linked(chain: seq<Link>, order: seq<nat>, k: int)
    requires |chain| > 0 && InBounds(order, |chain| - 1)
  {
    var s := |chain| - 1;
    && chain[RingAt(order, s, k)].next == RingAt(order, s, k + 1)
    && chain[RingAt(order, s, k + 1)].prev == RingAt(order, s, k)
  }

  function Inserted<T>(s: seq<T>, k: nat, x: T): seq<T>
    requires k <= |s|
  {
    s[..k] + [x] + s[k..]
  }

  /** The chain after `x` has been linked in behind `after`. */
  function LinkIn(chain: seq<Link>, after: nat, x: nat): (r: seq<Link>)
    requires after < |chain| && x < |chain| && chain[after].next < |chain|
    ensures |r| == |chain|
  {
    var c1 := chain[x := chain[x].(next := chain[after].next)];
    var c2 := c1[c1[x].next := c1[c1[x].next].(prev := x)];
    var c3 := c2[x := c2[x].(prev := after)];
    c3[after := c3[after].(next := x)]
  }

  lemma LinkInEffect(chain: seq<Link>, after: nat, x: nat)
    requires after < |chain| && x < |chain| && chain[after].next < |chain| && x != after && x != chain[after].next
    ensures var before := chain[after].next;
      forall y :: 0 <= y < |chain| ==>
        && LinkIn(chain, after, x)[y].prev == (if y == before then x else if y == x then after else chain[y].prev)
        && LinkIn(chain, after, x)[y].next == (if y == after then x else if y == x then before else chain[y].next)
  {
  }

  lemma RingAtInserted(order: seq<nat>, s: nat, k: nat, x: nat, j: int)
    requires k <= |order| && -1 <= j <= |order| + 1
    ensures RingAt(Inserted(order, k, x), s, j) ==
            if j < k then RingAt(order, s, j) else if j == k then x else RingAt(order, s, j - 1)
  {
  }

  lemma LinkedInAt(chain: seq<Link>, order: seq<nat>, k: nat, x: nat, j: int)
    requires Ring(chain, order) && k <= |order| && x < |chain| - 1 && x !in order && -1 <= j <= |order|
    requires InBounds(Inserted(order, k, x), |chain| - 1)
    ensures var after := RingAt(order, |chain| - 1, k - 1);
            chain[after].next < |chain| && Linked(LinkIn(chain, after, x), Inserted(order, k, x), j)
  {
    hide LinkIn, Inserted, NoRepeats, InBounds;
    var s := |chain| - 1;
    assert Linked(chain, order, k - 1);
    var after, before := RingAt(order, s, k - 1), RingAt(order, s, k);
    RingBounds(chain, order, k - 1);
    RingBounds(chain, order, k);
    RingBounds(chain, order, if j < k then j else j - 1);
    RingBounds(chain, order, if j < k then j + 1 else j);
    NotInRing(order, s, x, k - 1);
    NotInRing(order, s, x, k);
    LinkInEffect(chain, after, x);
    RingAtInserted(order, s, k, x, j);
    RingAtInserted(order, s, k, x, j + 1);
    if j < k - 1 {
      assert Linked(chain, order, j);
      Apart(order, s, j, k - 1);
      Apart(order, s, j + 1, k);
      NotInRing(order, s, x, j);
      NotInRing(order, s, x, j + 1);
    } else if j > k {
      assert Linked(chain, order, j - 1);
      Apart(order, s, j - 1, k - 1);
      Apart(order, s, j, k);
      NotInRing(order, s, x, j - 1);
      NotInRing(order, s, x, j);
    }
  }

  lemma RingBounds(chain: seq<Link>, order: seq<nat>, k: int)
    requires Ring(chain, order)
    ensures RingAt(order, |chain| - 1, k) < |chain|
  {
  }

  lemma NotInRing(order: seq<nat>, s: nat, x: nat, k: int)
    requires x !in order && x < s
    ensures RingAt(order, s, k) != x
  {
  }

  lemma LinkedIn(chain: seq<Link>, order: seq<nat>, k: nat, x: nat)
    requires Ring(chain, order) && k <= |order| && x < |chain| - 1 && x !in order
    ensures var after := RingAt(order, |chain| - 1, k - 1);
            chain[after].next < |chain| && Ring(LinkIn(chain, after, x), Inserted(order, k, x))
  {
    hide LinkIn, Linked;
    var order' := Inserted(order, k, x);
    assert forall j :: 0 <= j < |order'| ==>
      order'[j] == if j < k then order[j] else if j == k then x else order[j - 1];
    assert NoRepeats(order') && InBounds(order', |chain| - 1);
    LinkedInAt(chain, order, k, x, -1);
    var chain' := LinkIn(chain, RingAt(order, |chain| - 1, k - 1), x);
    forall j | -1 <= j < |order'|
      ensures Linked(chain', order', j)
    {
      LinkedInAt(chain, order, k, x, j);
    }
  }

  /** Two ring positions hold the same node only if they are equal or both are the sentinel's. */
  lemma Apart(order: seq<nat>, s: nat, a: int, b: int)
    requires NoRepeats(order) && InBounds(order, s)
    requires -1 <= a <= |order| && -1 <= b <= |order| && a != b
    ensures RingAt(order, s, a) == RingAt(order, s, b) ==> (a == -1 && b == |order|) || (a == |order| && b == -1)
  {
  }

  predicate Detachable(chain: seq<Link>, x: nat) {
    x < |chain| && chain[x].prev < |chain| && chain[x].next < |chain| && chain[x].prev != x && chain[x].next != x
  }

  /** The chain after node `x` has been bypassed. */
  function Bypass(chain: seq<Link>, x: nat): (r: seq<Link>)
    requires Detachable(chain, x)
    ensures |r| == |chain|
  {
    var c1 := chain[chain[x].prev := chain[chain[x].prev].(next := chain[x].next)];
    c1[c1[x].next := c1[c1[x].next].(prev := c1[x].prev)]
  }

  lemma BypassEffect(chain: seq<Link>, x: nat)
    requires Detachable(chain, x)
    ensures forall y :: 0 <= y < |chain| ==>
        && Bypass(chain, x)[y].prev == (if y == chain[x].next then chain[x].prev else chain[y].prev)
        && Bypass(chain, x)[y].next == (if y == chain[x].prev then chain[x].next else chain[y].next)
  {
  }

  lemma RingAtRemoved(order: seq<nat>, s: nat, k: nat, j: int)
    requires k < |order| && -1 <= j < |order|
    ensures RingAt(RemoveAt(order, k), s, j) == RingAt(order, s, if j < k then j else j + 1)
  {
  }

  lemma BypassedNode(chain: seq<Link>, order: seq<nat>, k: nat)
    requires Ring(chain, order) && k < |order|
    ensures var x, s := order[k], |chain| - 1;
      && x < |chain| && chain[x] == Link(RingAt(order, s, k - 1), RingAt(order, s, k + 1))
      && Detachable(chain, x)
  {
    var s := |chain| - 1;
    assert Linked(chain, order, k - 1) && Linked(chain, order, k);
    Apart(order, s, k - 1, k);
    Apart(order, s, k + 1, k);
  }

  lemma BypassedAt(chain: seq<Link>, order: seq<nat>, k: nat, j: int)
    requires Ring(chain, order) && k < |order| && -1 <= j < |order| - 1 && InBounds(RemoveAt(order, k), |chain| - 1)
    ensures Detachable(chain, order[k]) && Linked(Bypass(chain, order[k]), RemoveAt(order, k), j)
  {
    hide Bypass, RemoveAt;
    var s, x := |chain| - 1, order[k];
    BypassedNode(chain, order, k);
    BypassEffect(chain, x);
    RingAtRemoved(order, s, k, j);
    RingAtRemoved(order, s, k, j + 1);
    if j < k - 1 {
      assert Linked(chain, order, j);
      Apart(order, s, j, k - 1);
      Apart(order, s, j + 1, k + 1);
    } else if j > k - 1 {
      assert Linked(chain, order, j + 1);
      Apart(order, s, j + 1, k - 1);
      Apart(order, s, j + 2, k + 1);
    }
  }

  lemma Bypassed(chain: seq<Link>, order: seq<nat>, k: nat)
    requires Ring(chain, order) && k < |order|
    ensures Detachable(chain, order[k]) && Ring(Bypass(chain, order[k]), RemoveAt(order, k))
  {
    hide Bypass, Linked;
    BypassedNode(chain, order, k);
    var order' := RemoveAt(order, k);
    assert forall j :: 0 <= j < |order'| ==> order'[j] == order[if j < k then j else j + 1];
    assert NoRepeats(order') && InBounds(order', |chain| - 1);
    var chain' := Bypass(chain, order[k]);
    forall j | -1 <= j < |order'|
      ensures Linked(chain', order', j)
    {
      BypassedAt(chain, order, k, j);
    }
  }

  // ----- the list

  /** The values at the given indices. */
  ghost function ValuesAt<T>(m: seq<Slot<T>>, order: seq<nat>): (s: seq<T>)
    requires AllLive(m, order)
    ensures |s| == |order| && forall k :: 0 <= k < |order| ==> s[k] == m[order[k]].v
  {
    seq(|order|, k requires 0 <= k < |order| => m[order[k]].v)
  }

  ghost predicate AllLive<T>(m: seq<Slot<T>>, order: seq<nat>) {
    forall k :: 0 <= k < |order| ==> order[k] < |m| && m[order[k]].Value?
  }

  /** The ring runs through exactly the live slots. */
  ghost predicate ValidList<T>(m: seq<Slot<T>>, chain: seq<Link>, order: seq<nat>) {
    |chain| == |m| + 1 && Ring(chain, order) && Covers(m, order)
  }

  ghost predicate Covers<T>(m: seq<Slot<T>>, order: seq<nat>) {
    AllLive(m, order) && forall i :: 0 <= i < |m| && m[i].Value? ==> i in order
  }

  lemma InsertedCovers<T>(m: seq<Slot<T>>, order: seq<nat>, k: nat, x: nat, v: T)
    requires Covers(m, order) && k <= |order| && x < |m| && m[x].Index?
    ensures x !in order && Covers(m[x := Value(v)], Inserted(order, k, x))
    ensures ValuesAt(m[x := Value(v)], Inserted(order, k, x)) == Inserted(ValuesAt(m, order), k, v)
  {
    hide Inserted;
    var m', order', v' := m[x := Value(v)], Inserted(order, k, x), Inserted(ValuesAt(m, order), k, v);
    InsertedAt(order, k, x);
    InsertedAt(ValuesAt(m, order), k, v);
    forall j | 0 <= j < |order'|
      ensures order'[j] < |m| && m'[order'[j]] == Value(v'[j])
    {
      if j < k {
        assert order'[j] == order[j];
      } else if j > k {
        assert order'[j] == order[j - 1];
      }
    }
    forall i | 0 <= i < |m| && m'[i].Value?
      ensures i in order'
    {
      if i == x {
        assert order'[k] == x;
      } else {
        var j :| 0 <= j < |order| && order[j] == i;
        assert j < k ==> order'[j] == i;
        assert j >= k ==> order'[j + 1] == i;
      }
    }
  }

  lemma InsertedAt<T>(s: seq<T>, k: nat, x: T)
    requires k <= |s|
    ensures |Inserted(s, k, x)| == |s| + 1
    ensures forall j :: 0 <= j < k ==> Inserted(s, k, x)[j] == s[j]
    ensures Inserted(s, k, x)[k] == x
    ensures forall j :: k < j <= |s| ==> Inserted(s, k, x)[j] == s[j - 1]
  {
  }

  lemma InsertedList<T>(m: seq<Slot<T>>, chain: seq<Link>, order: seq<nat>, k: nat, x: nat, v: T)
    requires ValidList(m, chain, order) && k <= |order| && x < |m| && m[x].Index?
    ensures var after := RingAt(order, |m|, k - 1);
      && after < |chain| && chain[after].next < |chain|
      && ValidList(m[x := Value(v)], LinkIn(chain, after, x), Inserted(order, k, x))
      && ValuesAt(m[x := Value(v)], Inserted(order, k, x)) == Inserted(ValuesAt(m, order), k, v)
  {
    hide LinkIn, Ring, ValuesAt, Inserted, Covers;
    InsertedCovers(m, order, k, x, v);
    LinkedIn(chain, order, k, x);
    AfterInBounds(m, chain, order, k);
  }

  lemma AfterInBounds<T>(m: seq<Slot<T>>, chain: seq<Link>, order: seq<nat>, k: nat)
    requires ValidList(m, chain, order) && k <= |order|
    ensures RingAt(order, |m|, k - 1) < |chain|
  {
  }

  lemma RemovedAt<T>(s: seq<T>, k: nat)
    requires k < |s|
    ensures |RemoveAt(s, k)| == |s| - 1
    ensures forall j :: 0 <= j < k ==> RemoveAt(s, k)[j] == s[j]
    ensures forall j :: k < j < |s| ==> RemoveAt(s, k)[j - 1] == s[j]
    ensures forall j :: k <= j < |s| - 1 ==> RemoveAt(s, k)[j] == s[j + 1]
  {
  }

  lemma RemovedCovers<T>(m: seq<Slot<T>>, order: seq<nat>, k: nat, next: nat)
    requires Covers(m, order) && NoRepeats(order) && k < |order|
    ensures order[k] < |m| && Covers(m[order[k] := Index(next)], RemoveAt(order, k))
    ensures ValuesAt(m[order[k] := Index(next)], RemoveAt(order, k)) == RemoveAt(ValuesAt(m, order), k)
  {
    hide RemoveAt;
    var m', order', v := m[order[k] := Index(next)], RemoveAt(order, k), ValuesAt(m, order);
    RemovedAt(order, k);
    RemovedAt(v, k);
    forall j | 0 <= j < |order'|
      ensures order'[j] < |m| && m'[order'[j]] == m[order'[j]] && m'[order'[j]] == Value(RemoveAt(v, k)[j])
    {
      if j < k {
        assert order'[j] == order[j] != order[k];
      } else {
        assert order'[j] == order[j + 1] != order[k];
      }
    }
    forall i | 0 <= i < |m| && m'[i].Value?
      ensures i in order'
    {
      var j :| 0 <= j < |order| && order[j] == i;
      assert j < k ==> order'[j] == i;
      assert j > k ==> order'[j - 1] == i;
    }
  }

  lemma RemovedList<T>(m: seq<Slot<T>>, chain: seq<Link>, order: seq<nat>, k: nat, next: nat)
    requires ValidList(m, chain, order) && k < |order|
    ensures Detachable(chain, order[k]) && order[k] < |m|
    ensures chain[order[k]].next == RingAt(order, |m|, k + 1)
    ensures ValidList(m[order[k] := Index(next)], Bypass(chain, order[k]), RemoveAt(order, k))
    ensures ValuesAt(m[order[k] := Index(next)], RemoveAt(order, k)) == RemoveAt(ValuesAt(m, order), k)
  {
    hide Bypass, Ring, ValuesAt, RemoveAt, Covers;
    RingNoRepeats(chain, order);
    BypassedNode(chain, order, k);
    Bypassed(chain, order, k);
    RemovedCovers(m, order, k, next);
  }

  lemma RingNoRepeats(chain: seq<Link>, order: seq<nat>)
    requires Ring(chain, order)
    ensures NoRepeats(order) && InBounds(order, |chain| - 1)
  {
  }

  ghost function AsSet(ids: seq<nat>): set<nat> { set i | i in ids }

  lemma {:induction false} CountOrder(order: seq<nat>)
    requires NoRepeats(order)
    ensures |AsSet(order)| == |order|
  {
    if order != [] {
      var last, front := order[|order| - 1], order[..|order| - 1];
      CountOrder(front);
      assert order == front + [last];
      assert AsSet(order) == AsSet(front) + {last};
    } else {
      assert AsSet(order) == {};
    }
  }

  /** The head of the free list tells whether the list has as many elements as the capacity allows. */
  lemma FullBySize<T>(m: seq<Slot<T>>, chain: seq<Link>, order: seq<nat>, next: nat, free: seq<nat>)
    requires ValidList(m, chain, order) && FreeList(m, next, free)
    ensures next == |m| <==> |order| == |m|
    ensures |order| <= |m|
  {
    hide Linked;
    FullMeansAllLive(Pool, m, next, free);
    CountOrder(order);
    assert Live(m) == AsSet(order);
  }

  class FixedList<T> {
    const storage: Storage<T>
    const chain: array<Link>
    var size: nat
    ghost var order: seq<nat>

    ghost predicate Valid()
      reads this, storage, storage.slots, chain
    {
      storage.policy == Pool && storage.Valid() && size == |order|
      && ValidList(storage.slots[..], chain[..], order)
    }

    /** The elements in list order. */
    ghost function Elements(): seq<T>
      requires Valid()
      reads this, storage, storage.slots, chain
    {
      ValuesAt(storage.slots[..], order)
    }

    constructor (capacity: nat)
      requires capacity < LOCAL_NULL_INDEX
      ensures Valid() && order == [] && storage.slots.Length == capacity
      ensures fresh(storage) && fresh(storage.slots) && fresh(chain)
    {
      storage := new Storage(Pool, capacity);
      chain := new Link[capacity + 1](_ => Link(0, 0));
      size := 0;
      order := [];
      new;
      hide Ring, Covers, Consistent, ValuesAt, ValidList, UpTo;
      chain[capacity] := Link(capacity, capacity);
      EmptyList(storage.slots[..], chain[..]);
    }

    /** Inserts behind the node at ring position `k - 1`, which is `after`. */
    method EmplaceAfter(after: nat, value: T, ghost k: nat) returns (x: nat)
      requires Valid() && k <= size < storage.slots.Length && after == RingAt(order, storage.slots.Length, k - 1)
      modifies this, storage, storage.slots, chain
      ensures Valid() && size == old(size) + 1 && order == Inserted(old(order), k, x)
      ensures Elements() == Inserted(old(Elements()), k, value)
      ensures x < storage.slots.Length && x !in old(order)
      ensures storage.slots[..] == old(storage.slots[..])[x := Value(value)]
    {
      hide Linked, Ring, FreeList;
      ghost var m, c := storage.slots[..], chain[..];
      FullBySize(m, c, order, storage.next, storage.free);
      size := size + 1;
      x := storage.Emplace(value);
      InsertedList(m, c, order, k, x, value);
      chain[x] := chain[x].(next := chain[after].next);
      chain[chain[x].next] := chain[chain[x].next].(prev := x);
      chain[x] := chain[x].(prev := after);
      chain[after] := chain[after].(next := x);
      order := Inserted(order, k, x);
    }

    method EmplaceBack(value: T) returns (x: nat)
      requires Valid() && size < storage.slots.Length
      modifies this, storage, storage.slots, chain
      ensures Valid() && size == old(size) + 1 && order == old(order) + [x]
      ensures Elements() == old(Elements()) + [value]
      ensures x < storage.slots.Length && x !in old(order)
      ensures storage.slots[..] == old(storage.slots[..])[x := Value(value)]
    {
      hide FreeList;
      assert Linked(chain[..], order, size - 1);
      x := EmplaceAfter(chain[storage.slots.Length].prev, value, size);
    }

    /** Deletes the node at position `k`, which is `x`, and returns the node that followed it. */
    method DeleteAt(x: nat, ghost k: nat) returns (next: nat)
      requires Valid() && k < size && order[k] == x
      modifies this, storage, storage.slots, chain
      ensures Valid() && size == old(size) - 1 && order == RemoveAt(old(order), k)
      ensures Elements() == RemoveAt(old(Elements()), k)
      ensures next == RingAt(order, storage.slots.Length, k)
      ensures x < storage.slots.Length && storage.slots[x].Index?
      ensures storage.slots[..] == old(storage.slots[..])[x := storage.slots[x]]
    {
      hide Linked, Ring, FreeList;
      ghost var m, c := storage.slots[..], chain[..];
      RemovedList(m, c, order, k, storage.next);
      size := size - 1;
      var repositioned := storage.Delete(x);
      RemovedList(m, c, order, k, storage.slots[x].next);
      assert storage.slots[..] == m[x := storage.slots[x]];
      chain[chain[x].prev] := chain[chain[x].prev].(next := chain[x].next);
      chain[chain[x].next] := chain[chain[x].next].(prev := chain[x].prev);
      next := chain[x].next;
      order := RemoveAt(order, k);
    }

    /** Deletes the nodes at positions [a, b). */
    method DeleteRange(from: nat, to: nat, ghost a: nat, ghost b: nat) returns (r: nat)
      requires Valid() && a <= b <= size
      requires from == RingAt(order, storage.slots.Length, a) && to == RingAt(order, storage.slots.Length, b)
      modifies this, storage, storage.slots, chain
      ensures Valid() && order == old(order)[..a] + old(order)[b..]
      ensures Elements() == old(Elements())[..a] + old(Elements())[b..]
      ensures r == to
    {
      hide RingAt, Ring, Consistent, ValidList, ValuesAt, Shrunk, RemoveAt;
      r := from;
      ghost var ids, e := order, Elements();
      ghost var left: nat := b - a;
      ElementCount();
      ShrinkStart(ids, a, b);
      ShrinkStart(e, a, b);
      ListRing(storage.slots[..], chain[..], order);
      RangeOpen(chain[..], order, a, left);
      while r != to
        invariant Valid() && a + left <= size
        invariant r == RingAt(order, storage.slots.Length, a) && to == RingAt(order, storage.slots.Length, a + left)
        invariant Shrunk(order, ids, a, b, left) && Shrunk(Elements(), e, a, b, left)
        invariant r == to <==> left == 0
        decreases left
      {
        r := DeleteNext(r, a, b, left, ids, e);
        left := left - 1;
        ListRing(storage.slots[..], chain[..], order);
        RangeOpen(chain[..], order, a, left);
      }
      ShrunkSize(order, ids, a, b, 0);
      ShrunkSize(Elements(), e, a, b, 0);
    }

    /** One iteration of the range deletion, with `left` nodes to go. */
    method DeleteNext(x: nat, ghost a: nat, ghost b: nat, ghost left: nat, ghost ids: seq<nat>, ghost e: seq<T>)
      returns (next: nat)
      requires Valid() && 0 < left && a + left <= size && x == RingAt(order, storage.slots.Length, a)
      requires Shrunk(order, ids, a, b, left) && Shrunk(Elements(), e, a, b, left)
      modifies this, storage, storage.slots, chain
      ensures Valid() && a + left - 1 <= size && next == RingAt(order, storage.slots.Length, a)
      ensures RingAt(order, storage.slots.Length, a + left - 1) == old(RingAt(order, storage.slots.Length, a + left))
      ensures Shrunk(order, ids, a, b, left - 1) && Shrunk(Elements(), e, a, b, left - 1)
    {
      hide Ring, Consistent, ValidList, ValuesAt, Shrunk, RemoveAt;
      ShrinkStep(order, ids, a, b, left);
      ShrinkStep(Elements(), e, a, b, left);
      RingAtRemoved(order, storage.slots.Length, a, a + left - 1);
      next := DeleteAt(x, a);
      ShrunkSize(order, ids, a, b, left - 1);
    }

    /** Copies another list into this one, which holds no values: every element keeps its physical index.
        `walk` selects how the free list is taken over. */
    method CopyFrom(other: FixedList<T>, walk: bool)
      requires Valid() && other.Valid() && order == [] && storage.slots.Length == other.storage.slots.Length
      requires this != other && storage != other.storage && storage.slots != other.storage.slots && chain != other.chain
      modifies this, storage, storage.slots, chain
      ensures Valid() && order == other.order && Elements() == other.Elements()
      ensures storage.slots[..] == other.storage.slots[..] && chain[..] == other.chain[..]
      ensures storage.next == other.storage.next
    {
      hide Linked, FreeList, Covers;
      ghost var m, c, ids := other.storage.slots[..], other.chain[..], other.order;
      NoValues(storage.slots[..], order);
      FirstAt(m, c, ids);
      size := other.size;
      forall i | 0 <= i < chain.Length {
        chain[i] := other.chain[i];
      }
      assert chain[..] == c;
      order := ids;
      storage.CopyFreeList(other.storage, walk);
      var i := other.chain[storage.slots.Length].next;
      ghost var k := 0;
      while i != storage.slots.Length
        invariant 0 <= k <= |ids| && i == RingAt(ids, storage.slots.Length, k)
        invariant forall j :: 0 <= j < |m| && m[j].Index? ==> storage.slots[j] == m[j]
        invariant forall j :: 0 <= j < k && ids[j] < |m| ==> storage.slots[ids[j]] == m[ids[j]]
        modifies storage.slots
        decreases |ids| - k
      {
        LiveAt(m, c, ids, k);
        storage.slots[i] := Value(other.storage.slots[i].v);
        i := other.chain[i].next;
        k := k + 1;
      }
      AllCopied(m, c, ids, storage.slots[..]);
      assert storage.slots[..] == m && chain[..] == c && order == ids;
      assert ValidList(m, c, ids) && storage.Valid();
    }

    lemma ElementCount()
      requires Valid()
      ensures |Elements()| == |order| == size
    {
    }
  }

  lemma ListRing<T>(m: seq<Slot<T>>, chain: seq<Link>, order: seq<nat>)
    requires ValidList(m, chain, order)
    ensures |chain| == |m| + 1 && Ring(chain, order) && NoRepeats(order)
  {
  }

  lemma EmptyList<T>(m: seq<Slot<T>>, chain: seq<Link>)
    requires |chain| == |m| + 1 && chain[|m|] == Link(|m|, |m|) && forall i :: 0 <= i < |m| ==> m[i].Index?
    ensures ValidList(m, chain, [])
  {
  }

  lemma FirstAt<T>(m: seq<Slot<T>>, chain: seq<Link>, order: seq<nat>)
    requires ValidList(m, chain, order)
    ensures chain[|m|].next == RingAt(order, |m|, 0)
  {
    assert Linked(chain, order, -1);
  }

  lemma NoValues<T>(m: seq<Slot<T>>, order: seq<nat>)
    requires Covers(m, order) && order == []
    ensures forall i :: 0 <= i < |m| ==> m[i].Index?
  {
  }

  lemma LiveAt<T>(m: seq<Slot<T>>, chain: seq<Link>, order: seq<nat>, k: nat)
    requires ValidList(m, chain, order) && k < |order|
    ensures order[k] < |m| && m[order[k]].Value? && chain[order[k]].next == RingAt(order, |m|, k + 1)
    ensures forall j :: 0 <= j < k ==> order[j] != order[k]
  {
    assert Linked(chain, order, k);
  }

  lemma AllCopied<T>(m: seq<Slot<T>>, chain: seq<Link>, order: seq<nat>, m': seq<Slot<T>>)
    requires ValidList(m, chain, order) && |m'| == |m|
    requires forall j :: 0 <= j < |m| && m[j].Index? ==> m'[j] == m[j]
    requires forall j :: 0 <= j < |order| && order[j] < |m| ==> m'[order[j]] == m[order[j]]
    ensures m' == m
  {
    hide Linked;
    forall i | 0 <= i < |m|
      ensures m'[i] == m[i]
    {
      if m[i].Value? {
        var j :| 0 <= j < |order| && order[j] == i;
      }
    }
  }

  /** `s` is what remains of `was` when only `left` of the elements at positions [a, b) are still to be removed. */
  ghost predicate Shrunk<T>(s: seq<T>, was: seq<T>, a: nat, b: nat, left: nat) {
    a <= b <= |was| && left <= b - a && s == was[..a] + was[b - left..]
  }

  lemma ShrinkStart<T>(was: seq<T>, a: nat, b: nat)
    requires a <= b <= |was|
    ensures Shrunk(was, was, a, b, b - a)
  {
    assert was == was[..a] + was[a..];
  }

  lemma ShrinkStep<T>(s: seq<T>, was: seq<T>, a: nat, b: nat, left: nat)
    requires Shrunk(s, was, a, b, left) && left > 0
    ensures a < |s| && Shrunk(RemoveAt(s, a), was, a, b, left - 1)
  {
  }

  lemma ShrunkSize<T>(s: seq<T>, was: seq<T>, a: nat, b: nat, left: nat)
    requires Shrunk(s, was, a, b, left)
    ensures a + left <= |s|
    ensures left == 0 ==> s == was[..a] + was[b..]
  {
  }

  /** The ends of a range coincide only when the range is empty. */
  lemma RangeOpen(chain: seq<Link>, order: seq<nat>, a: nat, left: nat)
    requires Ring(chain, order) && a + left <= |order|
    ensures RingAt(order, |chain| - 1, a) == RingAt(order, |chain| - 1, a + left) <==> left == 0
  {
    hide Linked;
    if left > 0 {
      Apart(order, |chain| - 1, a, a + left);
    }
  }
}
