/**
  Fixed-capacity storage addressed by index. The pool threads a free list through the unused
  slots and never moves a value; the contiguous storage keeps the values in a prefix and fills
  the gap of a deletion with the last value.
 */
module IndexStorage {

  const NULL_INDEX: nat := 0xFFFF_FFFF_FFFF_FFFF

  /** Half of the index range: what is left for indices when a colour bit shares their word. */
  const LOCAL_NULL_INDEX: nat := 0x7FFF_FFFF_FFFF_FFFF

  /** A slot holds either the index of the next free slot or a live value. */
  datatype Slot<T> = Index(next: nat) | Value(v: T)

  datatype Policy = Pool | Contiguous

  /** Element `k` of a free list, with the capacity as the end marker. */
  function FreeAt(free: seq<nat>, k: nat, capacity: nat): nat {
    if k < |free| then free[k] else capacity
  }

  /** `free` lists every unused slot once, in the order in which the slots chain them. */
  ghost predicate FreeList<T>(m: seq<Slot<T>>, next: nat, free: seq<nat>) {
    && next == FreeAt(free, 0, |m|)
    && (forall k :: 0 <= k < |free| ==> free[k] < |m| && m[free[k]] == Index(FreeAt(free, k + 1, |m|)))
    && (forall j, k :: 0 <= j < k < |free| ==> free[j] != free[k])
    && (forall i :: 0 <= i < |m| && m[i].Index? ==> i in free)
  }

  ghost function UpTo(n: nat): (s: seq<nat>)
    ensures |s| == n && forall i :: 0 <= i < n ==> s[i] == i
  {
    seq(n, i requires 0 <= i => i)
  }

  /** A new pool chains all its slots in index order. */
  lemma InitialFreeList<T>(m: seq<Slot<T>>)
    requires forall i :: 0 <= i < |m| ==> m[i] == Index(i + 1)
    ensures FreeList(m, 0, UpTo(|m|))
  {
    var free := UpTo(|m|);
    forall i | 0 <= i < |m|
      ensures i in free
    {
      assert free[i] == i;
    }
  }

  ghost predicate Prefix<T>(m: seq<Slot<T>>, count: nat) {
    count <= |m| && forall i :: 0 <= i < |m| ==> (m[i].Value? <==> i < count)
  }

  ghost predicate Consistent<T>(policy: Policy, m: seq<Slot<T>>, next: nat, free: seq<nat>) {
    if policy == Pool then FreeList(m, next, free) else Prefix(m, next)
  }

  ghost function Live<T>(m: seq<Slot<T>>): set<nat> {
    set i | 0 <= i < |m| && m[i].Value?
  }

  /** The first `n` indices. */
  ghost function Below(n: nat): (r: set<nat>)
    ensures forall i: nat :: i in r <==> i < n
    ensures |r| == n
  {
    if n == 0 then {} else Below(n - 1) + {n - 1}
  }

  /** Comparing the head of the free list with the capacity decides whether all slots are live. */
  lemma FullMeansAllLive<T>(policy: Policy, m: seq<Slot<T>>, next: nat, free: seq<nat>)
    requires Consistent(policy, m, next, free)
    ensures next == |m| <==> |Live(m)| == |m|
    ensures |Live(m)| <= |m|
  {
    var all := Below(|m|);
    assert Live(m) <= all;
    Subset(Live(m), all);
    if next == |m| {
      assert policy == Pool ==> free == [];
      assert Live(m) == all;
    } else {
      assert m[next].Index?;
      assert next !in Live(m) && next in all;
    }
  }

  lemma {:induction false} Subset(a: set<nat>, b: set<nat>)
    requires a <= b
    ensures |a| <= |b|
    ensures |a| == |b| ==> a == b
    decreases a
  {
    if a != {} {
      var x :| x in a;
      Subset(a - {x}, b - {x});
    }
  }

  /** The head of the free list is taken. */
  lemma Taken<T>(m: seq<Slot<T>>, next: nat, free: seq<nat>, value: T)
    requires FreeList(m, next, free) && next != |m|
    ensures free != [] && next < |m| && m[next].Index?
    ensures FreeList(m[next := Value(value)], m[next].next, free[1..])
  {
    hide FreeAt;
    FreeAtEnd(free, |m|);
    FreeAtFirst(free, |m|);
    var m', free' := m[next := Value(value)], free[1..];
    assert free == [next] + free';
    FreeAtLater(next, free', 0, |m|);
    forall k | 0 <= k < |free'|
      ensures free'[k] < |m| && m'[free'[k]] == Index(FreeAt(free', k + 1, |m|))
    {
      assert free'[k] == free[k + 1];
      FreeAtLater(next, free', k + 1, |m|);
    }
    forall i | 0 <= i < |m| && m'[i].Index?
      ensures i in free'
    {
      assert i in free;
    }
    forall j, k | 0 <= j < k < |free'|
      ensures free'[j] != free'[k]
    {
      assert free'[j] == free[j + 1] && free'[k] == free[k + 1];
    }
  }

  lemma FreeAtEnd(free: seq<nat>, capacity: nat)
    ensures FreeAt(free, 0, capacity) != capacity ==> free != []
  {
  }

  lemma Lengthened<T>(m: seq<Slot<T>>, count: nat, value: T)
    requires Prefix(m, count) && count != |m|
    ensures count < |m| && m[count].Index? && Prefix(m[count := Value(value)], count + 1)
  {
  }

  /** A freed slot becomes the head of the free list. */
  lemma Freed<T>(m: seq<Slot<T>>, next: nat, free: seq<nat>, index: nat)
    requires FreeList(m, next, free) && index < |m| && m[index].Value?
    ensures FreeList(m[index := Index(next)], index, [index] + free)
  {
    hide FreeAt;
    var m', free' := m[index := Index(next)], [index] + free;
    FreeAtFirst(free', |m|);
    forall k | 0 <= k < |free'|
      ensures free'[k] < |m| && m'[free'[k]] == Index(FreeAt(free', k + 1, |m|)) && (k > 0 ==> free'[k] != index)
    {
      FreeAtLater(index, free, k, |m|);
      if k > 0 {
        assert free'[k] == free[k - 1];
      }
    }
    forall i | 0 <= i < |m| && m'[i].Index?
      ensures i in free'
    {
      assert i != index ==> i in free;
    }
    forall j, k | 0 <= j < k < |free'|
      ensures free'[j] != free'[k]
    {
      if j > 0 {
        assert free'[j] == free[j - 1] && free'[k] == free[k - 1];
      }
    }
  }

  lemma FreeAtFirst(free: seq<nat>, capacity: nat)
    requires free != []
    ensures FreeAt(free, 0, capacity) == free[0]
  {
  }

  lemma FreeAtLater(index: nat, free: seq<nat>, k: nat, capacity: nat)
    ensures FreeAt([index] + free, k + 1, capacity) == FreeAt(free, k, capacity)
  {
  }

  /** The last value fills the gap. */
  lemma Shortened<T>(m: seq<Slot<T>>, count: nat, index: nat)
    requires Prefix(m, count) && index < |m| && m[index].Value?
    ensures 0 < count <= |m| && m[count - 1].Value?
    ensures Prefix(m[index := m[count - 1]][count - 1 := Index(0)], count - 1)
  {
  }

  class Storage<T> {
    const policy: Policy
    const slots: array<Slot<T>>
    /** The head of the free list (pool) or the number of values (contiguous). */
    var next: nat
    ghost var free: seq<nat>

    ghost predicate Valid()
      reads this, slots
    {
      slots.Length <= LOCAL_NULL_INDEX && Consistent(policy, slots[..], next, free)
    }

    constructor (policy: Policy, capacity: nat)
      requires capacity <= LOCAL_NULL_INDEX
      ensures Valid() && fresh(this) && fresh(slots)
      ensures this.policy == policy && slots.Length == capacity
      ensures forall i :: 0 <= i < capacity ==> slots[i].Index?
      ensures next == 0 && free == UpTo(capacity)
    {
      this.policy := policy;
      slots := new Slot<T>[capacity](_ => Index(0));
      next := 0;
      new;
      for i := 0 to capacity
        invariant forall j :: 0 <= j < i ==> slots[j] == Index(j + 1)
        invariant forall j :: 0 <= j < capacity ==> slots[j].Index?
        modifies slots
      {
        slots[i] := Index(i + 1);
      }
      free := UpTo(capacity);
      InitialFreeList(slots[..]);
    }

    predicate Full()
      reads this
    {
      next == slots.Length
    }

    method Emplace(value: T) returns (index: nat)
      requires Valid() && !Full()
      modifies this, slots
      ensures Valid()
      ensures index < slots.Length && old(slots[..])[index].Index?
      ensures slots[..] == old(slots[..])[index := Value(value)]
    {
      hide FreeList, Prefix;
      ghost var m := slots[..];
      index := next;
      if policy == Pool {
        Taken(m, next, free, value);
        next := slots[index].next;
        free := free[1..];
      } else {
        Lengthened(m, next, value);
        next := next + 1;
      }
      slots[index] := Value(value);
    }

    method Delete(index: nat) returns (repositioned: nat)
      requires Valid() && index < slots.Length && slots[index].Value?
      modifies this, slots
      ensures Valid() && !Full()
      ensures repositioned < slots.Length && slots[repositioned].Index?
      ensures old(slots[..])[repositioned].Value?
      ensures slots[..] == old(slots[..])[index := old(slots[..])[repositioned]][repositioned := slots[repositioned]]
      ensures policy == Pool ==> repositioned == index
      ensures policy == Contiguous ==> repositioned == old(next) - 1
    {
      hide FreeList, Prefix;
      ghost var m := slots[..];
      if policy == Pool {
        Freed(m, next, free, index);
        repositioned := index;
        slots[index] := Index(next);
        free := [index] + free;
        next := index;
      } else {
        Shortened(m, next, index);
        slots[index] := slots[next - 1];
        next := next - 1;
        slots[next] := Index(0);
        repositioned := next;
      }
    }

    /** Takes over the free list of a pool of the same capacity, either by copying the whole array or by
        walking the list; the values for the remaining slots are still to be constructed. */
    method CopyFreeList(other: Storage<T>, walk: bool)
      requires other.Valid() && policy == other.policy == Pool && slots.Length == other.slots.Length
      requires this != other && slots != other.slots
      requires forall i :: 0 <= i < slots.Length ==> slots[i].Index?
      modifies this, slots
      ensures forall i :: 0 <= i < slots.Length && other.slots[i].Index? ==> slots[i] == other.slots[i]
      ensures next == other.next && free == other.free
    {
      if !walk {
        forall i | 0 <= i < slots.Length {
          slots[i] := other.slots[i];
        }
      } else {
        var current := other.next;
        ghost var k := 0;
        while current != slots.Length
          invariant 0 <= k <= |other.free| && current == FreeAt(other.free, k, slots.Length)
          invariant forall j :: 0 <= j < k ==> slots[other.free[j]] == other.slots[other.free[j]]
          modifies slots
          decreases |other.free| - k
        {
          slots[current] := Index(other.slots[current].next);
          current := other.slots[current].next;
          k := k + 1;
        }
        forall i | 0 <= i < slots.Length && other.slots[i].Index?
          ensures slots[i] == other.slots[i]
        {
          assert other.slots[..][i] == other.slots[i];
          var j :| 0 <= j < |other.free| && other.free[j] == i;
        }
      }
      next := other.next;
      free := other.free;
    }

    /** Assigns to a live value in place. */
    method Set(index: nat, value: T)
      requires Valid() && index < slots.Length && slots[index].Value?
      modifies slots
      ensures Valid()
      ensures slots[..] == old(slots[..])[index := Value(value)]
    {
      slots[index] := Value(value);
    }
  }
}
