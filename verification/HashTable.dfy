/**
  The Robin Hood hash table: a bucket array that refers to the nodes of a doubly linked list, which
  keeps the entries in insertion order.
 */
module HashTable {
  import opened Sequences
  import opened IndexStorage
  import opened LinkedList
  import opened RobinHood
  import opened SortedEntries

  ghost predicate EquivalenceRelation<K(!new)>(eq: (K, K) -> bool) {
    && (forall a :: eq(a, a))
    && (forall a, b :: eq(a, b) ==> eq(b, a))
    && (forall a, b, c :: eq(a, b) && eq(b, c) ==> eq(a, c))
  }

  ghost predicate Compatible<K(!new)>(hash: K -> nat, eq: (K, K) -> bool) {
    EquivalenceRelation(eq) && forall a, b :: eq(a, b) ==> hash(a) == hash(b)
  }

  ghost function SlotHash<K, V>(hash: K -> nat, s: Slot<Entry<K, V>>): nat {
    if s.Value? then hash(s.v.key) else 0
  }

  /** The hash of the key in every live slot. */
  ghost function Hashes<K, V>(hash: K -> nat, m: seq<Slot<Entry<K, V>>>): (h: seq<nat>)
    ensures |h| == |m| && forall i :: 0 <= i < |m| && m[i].Value? ==> h[i] == hash(m[i].v.key)
  {
    seq(|m|, i requires 0 <= i < |m| => SlotHash(hash, m[i]))
  }

  ghost predicate UniqueKeys<K, V>(eq: (K, K) -> bool, s: seq<Entry<K, V>>) {
    forall a, b :: 0 <= a < b < |s| ==> !eq(s[a].key, s[b].key)
  }

  ghost predicate Contains<K, V>(eq: (K, K) -> bool, s: seq<Entry<K, V>>, key: K) {
    exists k :: 0 <= k < |s| && eq(key, s[k].key)
  }

  /** Buckets and live nodes are in bijection through the value indices. */
  ghost predicate TableState<K(!new), V>(hash: K -> nat, eq: (K, K) -> bool, m: seq<Slot<Entry<K, V>>>, order: seq<nat>,
                                         bs: seq<Bucket>) {
    && Compatible(hash, eq) && Covers(m, order) && UniqueKeys(eq, ValuesAt(m, order))
    && ValidBuckets(bs, Hashes(hash, m)) && Values(bs) == AsSet(order)
    && 0 < |bs| && |m| <= |bs|
  }

  // ----- probing

  /** The bucket `k` steps after the home bucket. */
  function Probe(n: nat, home: nat, k: nat): nat
    requires home < n && k <= n
  {
    if home + k < n then home + k else home + k - n
  }

  /** The probe with distance `j` neither matched nor stopped. */
  ghost predicate Passed<K, V>(eq: (K, K) -> bool, m: seq<Slot<Entry<K, V>>>, bs: seq<Bucket>, key: K, home: nat,
                               fingerprint: nat, j: nat)
    requires home < |bs| && 1 <= j <= |bs| + 1
  {
    var b := bs[Probe(|bs|, home, j - 1)];
    && b.word >= DIST_INC * j + fingerprint
    && !(b.word == DIST_INC * j + fingerprint && b.value < |m| && m[b.value].Value? && eq(key, m[b.value].v.key))
  }

  /** Probing stops at the latest when it comes round to the home bucket. */
  lemma StopsAtHome(bs: seq<Bucket>, hashes: seq<nat>, home: nat, word: nat)
    requires Sorted(bs, hashes) && home < |bs| && word >= DIST_INC * (|bs| + 1)
    ensures word > bs[home].word
  {
    WordBounds(bs, hashes, home);
  }

  /** With an empty bucket, probing stops before it has come round. */
  lemma StopsAtEmpty<K, V>(eq: (K, K) -> bool, m: seq<Slot<Entry<K, V>>>, bs: seq<Bucket>, key: K, home: nat,
                           fingerprint: nat, e: nat)
    requires home < |bs| && e < |bs| && bs[e].Empty()
    ensures exists j :: 1 <= j <= |bs| && !Passed(eq, m, bs, key, home, fingerprint, j)
  {
    var j := Steps(|bs|, home, e) + 1;
    assert Probe(|bs|, home, j - 1) == e;
    assert !Passed(eq, m, bs, key, home, fingerprint, j);
  }

  /** On the way to the bucket of a stored key no probe word exceeds the word it meets. */
  lemma ProbeReaches<K(!new), V>(hash: K -> nat, eq: (K, K) -> bool, m: seq<Slot<Entry<K, V>>>, order: seq<nat>,
                                 bs: seq<Bucket>, key: K, q: nat)
    requires TableState(hash, eq, m, order, bs) && q < |bs| && !bs[q].Empty()
    requires bs[q].value < |m| && m[bs[q].value].Value? && eq(key, m[bs[q].value].v.key)
    ensures var home, fingerprint := HomeOf(|bs|, hash(key)), hash(key) % DIST_INC;
      var d := Steps(|bs|, home, q) + 1;
      && bs[q].word == DIST_INC * d + fingerprint
      && forall j :: 1 <= j <= d ==> bs[Probe(|bs|, home, j - 1)].word >= DIST_INC * j + fingerprint
  {
    hide Sorted, DistinctValues, Anchored, Values, HomeOf, UniqueKeys, ValuesAt, Covers;
    var n, home, hashes := |bs|, HomeOf(|bs|, hash(key)), Hashes(hash, m);
    var d := Steps(n, home, q) + 1;
    assert hashes[bs[q].value] == hash(key);
    StoredWord(bs, hashes, q);
    forall j | 1 <= j <= d
      ensures bs[Probe(n, home, j - 1)].word >= DIST_INC * j + hash(key) % DIST_INC
    {
      RunBack(bs, hashes, q, d - j);
      assert Back(n, q, d - j) == Probe(n, home, j - 1);
    }
  }

  /** Early stopping never misses a key, and neither does a probe of all buckets. */
  lemma StopMeansAbsent<K(!new), V>(hash: K -> nat, eq: (K, K) -> bool, m: seq<Slot<Entry<K, V>>>, order: seq<nat>,
                                    bs: seq<Bucket>, key: K, j: nat)
    requires TableState(hash, eq, m, order, bs) && 1 <= j <= |bs| + 1
    requires forall i :: 1 <= i < j ==> Passed(eq, m, bs, key, HomeOf(|bs|, hash(key)), hash(key) % DIST_INC, i)
    requires j == |bs| + 1 || bs[Probe(|bs|, HomeOf(|bs|, hash(key)), j - 1)].word < DIST_INC * j + hash(key) % DIST_INC
    ensures !Contains(eq, ValuesAt(m, order), key)
  {
    hide Compatible, UniqueKeys, ValidBuckets;
    var n, home, fingerprint := |bs|, HomeOf(|bs|, hash(key)), hash(key) % DIST_INC;
    forall k | 0 <= k < |order|
      ensures !eq(key, ValuesAt(m, order)[k].key)
    {
      assert order[k] in AsSet(order);
      var q :| 0 <= q < |bs| && !bs[q].Empty() && bs[q].value == order[k];
      var d := Steps(n, home, q) + 1;
      assert Probe(n, home, d - 1) == q;
      assert d < j ==> Passed(eq, m, bs, key, home, fingerprint, d);
      if eq(key, m[order[k]].v.key) {
        ProbeReaches(hash, eq, m, order, bs, key, q);
        assert false;
      }
    }
  }

  lemma LiveValue<K, V>(m: seq<Slot<Entry<K, V>>>, order: seq<nat>, bs: seq<Bucket>, q: nat)
    requires Covers(m, order) && Values(bs) == AsSet(order) && q < |bs| && !bs[q].Empty()
    ensures bs[q].value in order && bs[q].value < |m| && m[bs[q].value].Value?
  {
    ValueIn(bs, q);
    var k :| 0 <= k < |order| && order[k] == bs[q].value;
  }

  // ----- empty buckets

  function Occupied(bs: seq<Bucket>): nat {
    if bs == [] then 0 else Occupied(bs[..|bs| - 1]) + if bs[|bs| - 1].Empty() then 0 else 1
  }

  lemma {:induction false} OccupiedByValues(bs: seq<Bucket>)
    requires DistinctValues(bs)
    ensures |Values(bs)| == Occupied(bs) <= |bs|
    ensures Occupied(bs) < |bs| ==> exists e :: 0 <= e < |bs| && bs[e].Empty()
  {
    if bs == [] {
      assert Values(bs) == {};
    } else {
      var front, last := bs[..|bs| - 1], bs[|bs| - 1];
      assert bs == front + [last];
      OccupiedByValues(front);
      if last.Empty() {
        assert Values(bs) == Values(front);
      } else {
        assert last.value !in Values(front);
        assert Values(bs) == Values(front) + {last.value};
        if Occupied(bs) < |bs| {
          var e :| 0 <= e < |front| && front[e].Empty();
          assert bs[e].Empty();
        }
      }
    }
  }

  /** As long as the list is not full, some bucket is empty. */
  lemma EmptyBucketExists<K(!new), V>(hash: K -> nat, eq: (K, K) -> bool, m: seq<Slot<Entry<K, V>>>, order: seq<nat>,
                                      bs: seq<Bucket>)
    requires TableState(hash, eq, m, order, bs) && NoRepeats(order) && |order| < |bs|
    ensures exists e :: 0 <= e < |bs| && bs[e].Empty()
  {
    OccupiedByValues(bs);
    CountOrder(order);
  }

  // ----- what the updates make of the state

  /** Slots that no bucket refers to do not matter for the buckets. */
  lemma SameForBuckets(bs: seq<Bucket>, hashes: seq<nat>, hashes': seq<nat>)
    requires ValidBuckets(bs, hashes)
    requires forall v :: v in Values(bs) && v < |hashes| ==> v < |hashes'| && hashes'[v] == hashes[v]
    ensures ValidBuckets(bs, hashes')
  {
    forall i | 0 <= i < |bs| && !bs[i].Empty()
      ensures Placed(bs, hashes', bs[i], i)
    {
      ValueIn(bs, i);
    }
  }

  lemma HashesElsewhere<K, V>(hash: K -> nat, m: seq<Slot<Entry<K, V>>>, x: nat, s: Slot<Entry<K, V>>, bs: seq<Bucket>)
    requires ValidBuckets(bs, Hashes(hash, m)) && x < |m| && x !in Values(bs)
    ensures ValidBuckets(bs, Hashes(hash, m[x := s]))
  {
    SameForBuckets(bs, Hashes(hash, m), Hashes(hash, m[x := s]));
  }

  lemma UniqueAppended<K(!new), V>(eq: (K, K) -> bool, s: seq<Entry<K, V>>, e: Entry<K, V>)
    requires EquivalenceRelation(eq) && UniqueKeys(eq, s) && !Contains(eq, s, e.key)
    ensures UniqueKeys(eq, s + [e])
  {
    var r := s + [e];
    forall a, b | 0 <= a < b < |r|
      ensures !eq(r[a].key, r[b].key)
    {
      if b == |s| {
        assert !eq(e.key, s[a].key);
      }
    }
  }

  lemma EmplacedState<K(!new), V>(hash: K -> nat, eq: (K, K) -> bool, m: seq<Slot<Entry<K, V>>>, order: seq<nat>,
                                  bs: seq<Bucket>, e: Entry<K, V>, x: nat, bs': seq<Bucket>)
    requires TableState(hash, eq, m, order, bs) && !Contains(eq, ValuesAt(m, order), e.key)
    requires x < |m| && m[x].Index? && |bs'| == |bs|
    requires ValidBuckets(bs', Hashes(hash, m[x := Value(e)])) && Values(bs') == Values(bs) + {x}
    ensures TableState(hash, eq, m[x := Value(e)], order + [x], bs')
    ensures ValuesAt(m[x := Value(e)], order + [x]) == ValuesAt(m, order) + [e]
  {
    hide ValidBuckets, Values, UniqueKeys, ValuesAt, Contains, EquivalenceRelation;
    InsertedCovers(m, order, |order|, x, e);
    assert Inserted(order, |order|, x) == order + [x];
    assert Inserted(ValuesAt(m, order), |order|, e) == ValuesAt(m, order) + [e] by { ValuesCount(m, order); }
    UniqueAppended(eq, ValuesAt(m, order), e);
    assert AsSet(order + [x]) == AsSet(order) + {x};
  }

  lemma ValuesCount<T>(m: seq<Slot<T>>, order: seq<nat>)
    requires Covers(m, order)
    ensures |ValuesAt(m, order)| == |order|
  {
  }

  lemma UniqueRemoved<K, V>(eq: (K, K) -> bool, s: seq<Entry<K, V>>, k: nat)
    requires UniqueKeys(eq, s) && k < |s|
    ensures UniqueKeys(eq, RemoveAt(s, k))
  {
    var r := RemoveAt(s, k);
    forall a, b | 0 <= a < b < |r|
      ensures !eq(r[a].key, r[b].key)
    {
      assert r[a] == s[if a < k then a else a + 1] && r[b] == s[if b < k then b else b + 1];
    }
  }

  lemma ErasedState<K(!new), V>(hash: K -> nat, eq: (K, K) -> bool, m: seq<Slot<Entry<K, V>>>, order: seq<nat>,
                                bs: seq<Bucket>, k: nat, next: nat, bs': seq<Bucket>)
    requires TableState(hash, eq, m, order, bs) && NoRepeats(order) && k < |order| && |bs'| == |bs|
    requires ValidBuckets(bs', Hashes(hash, m)) && Values(bs') == Values(bs) - {order[k]}
    ensures order[k] < |m| && TableState(hash, eq, m[order[k] := Index(next)], RemoveAt(order, k), bs')
  {
    hide ValidBuckets, Values, UniqueKeys, ValuesAt, RemoveAt;
    RemovedCovers(m, order, k, next);
    UniqueRemoved(eq, ValuesAt(m, order), k) by { ValuesCount(m, order); }
    RemovedSet(order, k);
    HashesElsewhere(hash, m, order[k], Index(next), bs');
  }

  lemma RemovedSet(order: seq<nat>, k: nat)
    requires NoRepeats(order) && k < |order|
    ensures AsSet(RemoveAt(order, k)) == AsSet(order) - {order[k]}
  {
    hide RemoveAt;
    RemovedAt(order, k);
    var r := RemoveAt(order, k);
    forall x | x in AsSet(order) - {order[k]}
      ensures x in r
    {
      var j :| 0 <= j < |order| && order[j] == x;
      assert j < k ==> r[j] == x;
      assert j > k ==> r[j - 1] == x;
    }
    forall x | x in r
      ensures x in order && x != order[k]
    {
      var j :| 0 <= j < |r| && r[j] == x;
      assert j < k ==> order[j] == x;
      assert j >= k ==> order[j + 1] == x;
    }
  }

  // ----- the table

  class HashTable<K(!new), V> {
    const hash: K -> nat
    const eq: (K, K) -> bool
    const list: FixedList<Entry<K, V>>
    const buckets: array<Bucket>

    ghost predicate Valid()
      reads this, list, list.storage, list.storage.slots, list.chain, buckets
    {
      list.Valid() && TableState(hash, eq, list.storage.slots[..], list.order, buckets[..])
    }

    /** The entries in the order in which they were inserted. */
    ghost function Model(): seq<Entry<K, V>>
      requires Valid()
      reads this, list, list.storage, list.storage.slots, list.chain, buckets
    {
      list.Elements()
    }

    constructor (hash: K -> nat, eq: (K, K) -> bool, capacity: nat, bucketCount: nat)
      requires Compatible(hash, eq) && capacity <= bucketCount <= MAX_NUM_BUCKETS
      ensures Valid() && Model() == [] && list.storage.slots.Length == capacity
      ensures fresh(list) && fresh(list.storage) && fresh(list.storage.slots) && fresh(list.chain) && fresh(buckets)
      ensures this.hash == hash && this.eq == eq
    {
      this.hash := hash;
      this.eq := eq;
      list := new FixedList(capacity);
      buckets := new Bucket[if bucketCount == 0 then 1 else bucketCount](_ => EMPTY_BUCKET);
      new;
      EmptyTable(hash, eq, list.storage.slots[..], buckets[..]);
    }

    /** Probes for `key`. A zero word says that the key is in bucket `loc`; any other word says that it is
        absent and is the word with which it can be put into bucket `loc`. */
    method IndexOf(key: K) returns (loc: nat, word: nat)
      requires Valid()
      ensures loc < buckets.Length
      ensures word == 0 <==> Contains(eq, Model(), key)
      ensures word == 0 ==> !buckets[loc].Empty() && FoundIn(eq, list.storage.slots[..], buckets[loc], key)
      ensures word != 0 ==> CanPut(buckets[..], loc, word)
      ensures word != 0 && list.size < buckets.Length ==> word == WordAt(buckets.Length, hash(key), loc)
    {
      hide TableState, FreeList, Ring, ValuesAt, HomeOf, Contains, CanPut, ProbeState;
      var h := hash(key);
      var n := buckets.Length;
      ghost var m, bs, order := list.storage.slots[..], buckets[..], list.order;
      RingNoRepeats(list.chain[..], order);
      ProbeStart(hash, eq, m, order, bs, key);
      word := DIST_INC + h % DIST_INC;
      loc := HomeOf(n, h);
      ghost var j := 1;
      while true
        invariant 1 <= j <= 2 * n + 1 && loc < n
        invariant ProbeState(hash, eq, m, order, bs, key, j, loc, word)
        decreases 2 * n + 1 - j
      {
        if !buckets[loc].Empty() {
          LiveInTable(hash, eq, m, order, bs, loc);
        }
        ProbeWord(hash, eq, m, order, bs, key, j, loc, word);
        if buckets[loc].word == word && eq(key, list.storage.slots[buckets[loc].value].v.key) {
          FoundMeansContained(hash, eq, m, order, bs, key, loc);
          return loc, 0;
        }
        if word > buckets[loc].word {
          ProbeStop(hash, eq, m, order, bs, key, j, loc, word);
          return;
        }
        ProbeStep(hash, eq, m, order, bs, key, j, loc, word);
        word := (word + DIST_INC) % WORD_LIMIT;
        loc := Next(n, loc);
        j := j + 1;
      }
    }

    /** Appends a new entry and puts its bucket where the probe ended. */
    method Emplace(loc: nat, word: nat, key: K, value: V)
      requires Valid() && list.size < list.storage.slots.Length && !Contains(eq, Model(), key)
      requires CanPut(buckets[..], loc, word) && word == WordAt(buckets.Length, hash(key), loc)
      modifies list, list.storage, list.storage.slots, list.chain, buckets
      ensures Valid() && Model() == old(Model()) + [Entry(key, value)]
      ensures !buckets[loc].Empty() && list.order == old(list.order) + [buckets[loc].value]
    {
      hide Compatible, UniqueKeys, Values, FreeList, Ring, ValuesAt, Contains, Covers, ValidBuckets;
      ghost var m, bs, order := list.storage.slots[..], buckets[..], list.order;
      RingNoRepeats(list.chain[..], order);
      EmptyBucketExists(hash, eq, m, order, bs) by { AtMostCapacity(m, order); }
      ghost var e :| 0 <= e < |bs| && bs[e].Empty();
      var x := list.EmplaceBack(Entry(key, value));
      assert buckets[..] == bs;
      FreshSlot(m, order, x);
      HashesElsewhere(hash, m, x, Value(Entry(key, value)), bs);
      ghost var hashes := Hashes(hash, list.storage.slots[..]);
      PlaceAndShiftUp(buckets, Bucket(word, x), loc, hashes, e);
      EmplacedState(hash, eq, m, order, bs, Entry(key, value), x, buckets[..]);
    }

    /** Erases the entry whose bucket is `loc`, which is at position `k`, and returns the index of the next. */
    method Erase(loc: nat, ghost k: nat) returns (next: nat)
      requires Valid() && loc < buckets.Length && !buckets[loc].Empty()
      requires k < list.size && list.order[k] == buckets[loc].value
      modifies list, list.storage, list.storage.slots, list.chain, buckets
      ensures Valid() && k < |old(Model())| && Model() == RemoveAt(old(Model()), k)
      ensures list.order == RemoveAt(old(list.order), k)
      ensures next == RingAt(list.order, list.storage.slots.Length, k)
    {
      hide Compatible, UniqueKeys, Values, FreeList, Ring, ValuesAt, Covers, ValidBuckets;
      ghost var m, bs, order := list.storage.slots[..], buckets[..], list.order;
      RingNoRepeats(list.chain[..], order);
      ValuesCount(m, order);
      var value := buckets[loc].value;
      EraseBucket(buckets, loc, Hashes(hash, m));
      assert list.storage.slots[..] == m && list.Valid();
      next := list.DeleteAt(value, k);
      ErasedState(hash, eq, m, order, bs, k, list.storage.slots[value].next, buckets[..]);
    }

    /** Erases the entries at positions [a, b), looking each of them up again by its key. */
    method EraseRange(from: nat, to: nat, ghost a: nat, ghost b: nat) returns (r: nat)
      requires Valid() && a <= b <= list.size
      requires from == RingAt(list.order, list.storage.slots.Length, a)
      requires to == RingAt(list.order, list.storage.slots.Length, b)
      modifies list, list.storage, list.storage.slots, list.chain, buckets
      ensures Valid() && list.order == old(list.order)[..a] + old(list.order)[b..]
      ensures Model() == old(Model())[..a] + old(Model())[b..]
      ensures r == to
    {
      hide TableState, ValidList, FreeList, ValuesAt, Contains, CanPut, Ring, Shrunk, RemoveAt;
      r := from;
      ghost var ids, e := list.order, Model();
      ghost var left: nat := b - a;
      list.ElementCount();
      ShrinkStart(ids, a, b);
      ShrinkStart(e, a, b);
      ListRing(list.storage.slots[..], list.chain[..], list.order);
      RangeOpen(list.chain[..], list.order, a, left);
      while r != to
        invariant Valid() && a + left <= list.size
        invariant r == RingAt(list.order, list.storage.slots.Length, a)
        invariant to == RingAt(list.order, list.storage.slots.Length, a + left)
        invariant Shrunk(list.order, ids, a, b, left) && Shrunk(Model(), e, a, b, left)
        invariant r == to <==> left == 0
        decreases left
      {
        ShrinkStep(list.order, ids, a, b, left);
        ShrinkStep(Model(), e, a, b, left);
        r := EraseStored(r, a);
        left := left - 1;
        ShrunkSize(list.order, ids, a, b, left);
        ListRing(list.storage.slots[..], list.chain[..], list.order);
        RangeOpen(list.chain[..], list.order, a, left);
      }
      ShrunkSize(list.order, ids, a, b, 0);
      ShrunkSize(Model(), e, a, b, 0);
    }

    /** Looks up the key of the node at position `k` and erases what is found: that very node. */
    method EraseStored(x: nat, ghost k: nat) returns (next: nat)
      requires Valid() && k < list.size && list.order[k] == x
      modifies list, list.storage, list.storage.slots, list.chain, buckets
      ensures Valid() && k < |old(Model())| && Model() == RemoveAt(old(Model()), k)
      ensures list.order == RemoveAt(old(list.order), k)
      ensures next == RingAt(list.order, list.storage.slots.Length, k)
    {
      hide TableState, ValidList, FreeList, ValuesAt, Contains, CanPut, RemoveAt;
      StoredAt(hash, eq, list.storage.slots[..], list.order, buckets[..], k);
      var loc, word := IndexOf(list.storage.slots[x].v.key);
      FoundIsStored(hash, eq, list.storage.slots[..], list.order, buckets[..], k, loc);
      next := Erase(loc, k);
    }

    method Clear()
      requires Valid()
      modifies list, list.storage, list.storage.slots, list.chain, buckets
      ensures Valid() && Model() == []
    {
      hide TableState, ValidList, FreeList, ValuesAt;
      list.ElementCount();
      ListRing(list.storage.slots[..], list.chain[..], list.order);
      FirstAt(list.storage.slots[..], list.chain[..], list.order);
      var end := EraseRange(list.chain[list.storage.slots.Length].next, list.storage.slots.Length, 0, list.size);
    }

    /** Copies another table into this one, which is empty. Nodes keep their physical indices, so that the
        copied buckets refer to the copies of the nodes they referred to. */
    method CopyFrom(other: HashTable<K, V>, walk: bool)
      requires Valid() && other.Valid() && Model() == [] && hash == other.hash && eq == other.eq
      requires list.storage.slots.Length == other.list.storage.slots.Length && buckets.Length == other.buckets.Length
      requires list != other.list && list.storage != other.list.storage
      requires list.storage.slots != other.list.storage.slots
      requires list.chain != other.list.chain && buckets != other.buckets
      modifies list, list.storage, list.storage.slots, list.chain, buckets
      ensures Valid() && Model() == other.Model() && list.order == other.list.order
      ensures buckets[..] == other.buckets[..] && list.storage.slots[..] == other.list.storage.slots[..]
    {
      hide TableState, ValidList, FreeList, ValuesAt;
      ghost var m, bs, order := other.list.storage.slots[..], other.buckets[..], other.list.order;
      assert TableState(hash, eq, m, order, bs);
      list.ElementCount();
      list.CopyFrom(other.list, walk);
      assert list.storage.slots[..] == m && list.order == order;
      forall i | 0 <= i < buckets.Length {
        buckets[i] := other.buckets[i];
      }
      assert buckets[..] == bs;
      assert list.storage.slots[..] == other.list.storage.slots[..] == m;
    }

    /** Overwrites the value of the entry whose bucket is `loc`, which is at position `k`. */
    method Assign(loc: nat, value: V, ghost k: nat)
      requires Valid() && loc < buckets.Length && !buckets[loc].Empty()
      requires k < list.size && list.order[k] == buckets[loc].value
      modifies list.storage.slots
      ensures Valid() && k < |old(Model())|
      ensures Model() == old(Model())[k := Entry(old(Model())[k].key, value)]
    {
      hide TableState, ValidList, FreeList, ValuesAt;
      AssignedState(hash, eq, list.storage.slots[..], list.chain[..], list.order, buckets[..], k, value);
      var x := buckets[loc].value;
      list.storage.Set(x, Entry(list.storage.slots[x].v.key, value));
    }
  }

  lemma AssignedState<K(!new), V>(hash: K -> nat, eq: (K, K) -> bool, m: seq<Slot<Entry<K, V>>>, chain: seq<Link>,
                                  order: seq<nat>, bs: seq<Bucket>, k: nat, value: V)
    requires TableState(hash, eq, m, order, bs) && ValidList(m, chain, order) && k < |order|
    ensures order[k] < |m| && m[order[k]].Value?
    ensures var e := Entry(m[order[k]].v.key, value);
      && TableState(hash, eq, m[order[k] := Value(e)], order, bs) && ValidList(m[order[k] := Value(e)], chain, order)
      && ValuesAt(m[order[k] := Value(e)], order) == ValuesAt(m, order)[k := e]
  {
    hide ValidBuckets, Compatible, Values, Linked;
    var e := Entry(m[order[k]].v.key, value);
    assert Hashes(hash, m[order[k] := Value(e)]) == Hashes(hash, m);
    assert ValuesAt(m[order[k] := Value(e)], order) == ValuesAt(m, order)[k := e];
  }

  lemma StoredAt<K(!new), V>(hash: K -> nat, eq: (K, K) -> bool, m: seq<Slot<Entry<K, V>>>, order: seq<nat>,
                             bs: seq<Bucket>, k: nat)
    requires TableState(hash, eq, m, order, bs) && k < |order|
    ensures order[k] < |m| && m[order[k]].Value? && ValuesAt(m, order)[k] == m[order[k]].v
    ensures Contains(eq, ValuesAt(m, order), m[order[k]].v.key)
  {
    hide ValidBuckets, Values;
    assert eq(m[order[k]].v.key, ValuesAt(m, order)[k].key);
  }

  /** The bucket found for a stored key is the one of its node. */
  lemma FoundIsStored<K(!new), V>(hash: K -> nat, eq: (K, K) -> bool, m: seq<Slot<Entry<K, V>>>, order: seq<nat>,
                                  bs: seq<Bucket>, k: nat, loc: nat)
    requires TableState(hash, eq, m, order, bs) && k < |order| && loc < |bs| && !bs[loc].Empty()
    requires order[k] < |m| && m[order[k]].Value? && FoundIn(eq, m, bs[loc], m[order[k]].v.key)
    ensures bs[loc].value == order[k]
  {
    hide ValidBuckets, Values;
    LiveInTable(hash, eq, m, order, bs, loc);
    var j :| 0 <= j < |order| && order[j] == bs[loc].value;
    assert eq(ValuesAt(m, order)[k].key, ValuesAt(m, order)[j].key);
  }

  lemma EmptyTable<K(!new), V>(hash: K -> nat, eq: (K, K) -> bool, m: seq<Slot<Entry<K, V>>>, bs: seq<Bucket>)
    requires Compatible(hash, eq) && Covers(m, []) && |m| <= |bs| && 0 < |bs| <= MAX_NUM_BUCKETS
    requires forall i :: 0 <= i < |bs| ==> bs[i] == EMPTY_BUCKET
    ensures TableState(hash, eq, m, [], bs) && ValuesAt(m, []) == []
  {
    assert Values(bs) == {} && AsSet([]) == {};
  }

  lemma FreshSlot<T>(m: seq<Slot<T>>, order: seq<nat>, x: nat)
    requires Covers(m, order) && x < |m| && x !in order
    ensures m[x].Index?
  {
  }

  ghost predicate FoundIn<K, V>(eq: (K, K) -> bool, m: seq<Slot<Entry<K, V>>>, b: Bucket, key: K) {
    b.value < |m| && m[b.value].Value? && eq(key, m[b.value].v.key)
  }

  /** A bucket with this word goes before what is in bucket `loc`. */
  ghost predicate CanPut(bs: seq<Bucket>, loc: nat, word: nat) {
    loc < |bs| && bs[loc].word < word && InOrder(bs, Bucket(word, 0), loc)
  }

  lemma FoundMeansContained<K(!new), V>(hash: K -> nat, eq: (K, K) -> bool, m: seq<Slot<Entry<K, V>>>, order: seq<nat>,
                                        bs: seq<Bucket>, key: K, loc: nat)
    requires TableState(hash, eq, m, order, bs) && loc < |bs| && !bs[loc].Empty() && FoundIn(eq, m, bs[loc], key)
    ensures Contains(eq, ValuesAt(m, order), key)
  {
    LiveValue(m, order, bs, loc);
    var k :| 0 <= k < |order| && order[k] == bs[loc].value;
    assert eq(key, ValuesAt(m, order)[k].key);
  }

  lemma PassedHere<K, V>(eq: (K, K) -> bool, m: seq<Slot<Entry<K, V>>>, bs: seq<Bucket>, key: K, home: nat,
                         fingerprint: nat, j: nat)
    requires home < |bs| && 1 <= j <= |bs| + 1
    requires var b := bs[Probe(|bs|, home, j - 1)];
             b.word >= DIST_INC * j + fingerprint && !(b.word == DIST_INC * j + fingerprint && FoundIn(eq, m, b, key))
    ensures Passed(eq, m, bs, key, home, fingerprint, j)
  {
  }

  lemma AtMostCapacity<T>(m: seq<Slot<T>>, order: seq<nat>)
    requires Covers(m, order) && NoRepeats(order)
    ensures |order| <= |m|
  {
    CountOrder(order);
    Subset(AsSet(order), Below(|m|));
  }

  /** A probe that has passed its bucket goes on to the next one, unless it has come round. */
  lemma RoomForProbe<K(!new), V>(hash: K -> nat, eq: (K, K) -> bool, m: seq<Slot<Entry<K, V>>>, order: seq<nat>,
                                 bs: seq<Bucket>, key: K, j: nat)
    requires TableState(hash, eq, m, order, bs) && NoRepeats(order) && 1 <= j <= |bs| + 1
    requires forall i :: 1 <= i <= j ==> Passed(eq, m, bs, key, HomeOf(|bs|, hash(key)), hash(key) % DIST_INC, i)
    ensures j <= |bs| && (|order| < |bs| ==> j < |bs|)
  {
    hide Compatible, Covers, UniqueKeys, Values, ValuesAt, Sorted, DistinctValues, Anchored, HomeOf, AsSet;
    var home, fingerprint := HomeOf(|bs|, hash(key)), hash(key) % DIST_INC;
    assert Passed(eq, m, bs, key, home, fingerprint, j);
    if j == |bs| + 1 {
      StopsAtHome(bs, Hashes(hash, m), home, DIST_INC * j);
      assert false;
    }
    if |order| < |bs| {
      EmptyBucketExists(hash, eq, m, order, bs);
      var e :| 0 <= e < |bs| && bs[e].Empty();
      StopsAtEmpty(eq, m, bs, key, home, fingerprint, e);
    }
  }

  /** The first round: probe `j` has distance `j` and all before it were passed. */
  ghost predicate Probing<K, V>(eq: (K, K) -> bool, m: seq<Slot<Entry<K, V>>>, bs: seq<Bucket>, key: K, home: nat,
                                fingerprint: nat, j: nat, loc: nat, word: nat) {
    && home < |bs| && 1 <= j <= |bs| + 1 && loc == Probe(|bs|, home, j - 1) && word == DIST_INC * j + fingerprint
    && forall i :: 1 <= i < j ==> Passed(eq, m, bs, key, home, fingerprint, i)
  }

  /** Every bucket has the same home and no smaller fingerprint. */
  ghost predicate Lapped(bs: seq<Bucket>, home: nat, fingerprint: nat) {
    home < |bs| && forall k :: 0 <= k < |bs| ==>
      DIST_INC * (k + 1) + fingerprint <= bs[Probe(|bs|, home, k)].word < DIST_INC * (k + 2)
  }

  /** The second round, in which the probe word has wrapped around and lags one distance unit behind. */
  ghost predicate Lapping(bs: seq<Bucket>, home: nat, fingerprint: nat, j: nat, loc: nat, word: nat) {
    && Lapped(bs, home, fingerprint) && |bs| == MAX_NUM_BUCKETS && |bs| < j <= 2 * |bs| + 1 && fingerprint < DIST_INC
    && loc == (if j <= 2 * |bs| then Probe(|bs|, home, j - 1 - |bs|) else home)
    && word == DIST_INC * (j - |bs| - 1) + fingerprint
  }

  /** Passing all buckets needs a full table whose elements all have the same home. */
  lemma {:induction false} LappedAt(bs: seq<Bucket>, hashes: seq<nat>, home: nat, k: nat)
    requires ValidBuckets(bs, hashes) && home < |bs| && k < |bs|
    requires forall j :: 0 <= j < |bs| ==> bs[Probe(|bs|, home, j)].word >= DIST_INC * (j + 1)
    ensures bs[Probe(|bs|, home, k)].word < DIST_INC * (k + 2)
  {
    hide HomeOf, DistinctValues, Sorted;
    var n := |bs|;
    if k == 0 {
      assert bs[Probe(n, home, 0)].word >= DIST_INC;
      var q :| IsAnchor(bs, q);
      var s := Steps(n, home, q);
      assert Probe(n, home, s) == q;
    } else {
      LappedAt(bs, hashes, home, k - 1);
      var p := Probe(n, home, k);
      assert Prev(n, p) == Probe(n, home, k - 1);
      Behind(bs, hashes, p);
    }
  }

  lemma ProbingStep<K(!new), V>(hash: K -> nat, eq: (K, K) -> bool, m: seq<Slot<Entry<K, V>>>, order: seq<nat>,
                                bs: seq<Bucket>, key: K, j: nat, loc: nat, word: nat)
    requires TableState(hash, eq, m, order, bs) && NoRepeats(order)
    requires Probing(eq, m, bs, key, HomeOf(|bs|, hash(key)), hash(key) % DIST_INC, j, loc, word)
    requires word <= bs[loc].word && !(word == bs[loc].word && FoundIn(eq, m, bs[loc], key))
    ensures var home, fingerprint := HomeOf(|bs|, hash(key)), hash(key) % DIST_INC;
      var word' := (word + DIST_INC) % WORD_LIMIT;
      && j <= |bs|
      && (j < |bs| || |bs| < MAX_NUM_BUCKETS ==>
            Probing(eq, m, bs, key, home, fingerprint, j + 1, Next(|bs|, loc), word'))
      && (j == |bs| == MAX_NUM_BUCKETS ==> Lapping(bs, home, fingerprint, j + 1, Next(|bs|, loc), word'))
      && (j == |bs| ==> !Contains(eq, ValuesAt(m, order), key) && |bs| <= |order|)
  {
    hide Compatible, Covers, UniqueKeys, Values, ValuesAt, Sorted, DistinctValues, Anchored, HomeOf, AsSet;
    hide Contains, Passed;
    var n, home, fingerprint := |bs|, HomeOf(|bs|, hash(key)), hash(key) % DIST_INC;
    PassedHere(eq, m, bs, key, home, fingerprint, j);
    RoomForProbe(hash, eq, m, order, bs, key, j);
    SortedBounds(bs, Hashes(hash, m));
    if j == n {
      StopMeansAbsent(hash, eq, m, order, bs, key, n + 1);
      forall k | 0 <= k < n
        ensures bs[Probe(n, home, k)].word >= DIST_INC * (k + 1) + fingerprint
      {
        PassedWord(eq, m, bs, key, home, fingerprint, k + 1);
      }
      forall k | 0 <= k < n
        ensures bs[Probe(n, home, k)].word < DIST_INC * (k + 2)
      {
        LappedAt(bs, Hashes(hash, m), home, k);
      }
    }
  }

  /** What holds when probe `j` looks at bucket `loc`. */
  ghost predicate ProbeState<K(!new), V>(hash: K -> nat, eq: (K, K) -> bool, m: seq<Slot<Entry<K, V>>>, order: seq<nat>,
                                         bs: seq<Bucket>, key: K, j: nat, loc: nat, word: nat)
    requires TableState(hash, eq, m, order, bs)
  {
    var n, home, fingerprint := |bs|, HomeOf(|bs|, hash(key)), hash(key) % DIST_INC;
    if j <= n || n < MAX_NUM_BUCKETS then Probing(eq, m, bs, key, home, fingerprint, j, loc, word)
    else Lapping(bs, home, fingerprint, j, loc, word) && !Contains(eq, ValuesAt(m, order), key) && n <= |order|
  }

  lemma ProbeStart<K(!new), V>(hash: K -> nat, eq: (K, K) -> bool, m: seq<Slot<Entry<K, V>>>, order: seq<nat>,
                               bs: seq<Bucket>, key: K)
    requires TableState(hash, eq, m, order, bs)
    ensures ProbeState(hash, eq, m, order, bs, key, 1, HomeOf(|bs|, hash(key)), DIST_INC + hash(key) % DIST_INC)
  {
    hide ValidBuckets, Compatible, Covers, UniqueKeys, Values;
  }

  lemma ProbeWord<K(!new), V>(hash: K -> nat, eq: (K, K) -> bool, m: seq<Slot<Entry<K, V>>>, order: seq<nat>,
                              bs: seq<Bucket>, key: K, j: nat, loc: nat, word: nat)
    requires TableState(hash, eq, m, order, bs) && ProbeState(hash, eq, m, order, bs, key, j, loc, word) && loc < |bs|
    ensures word == bs[loc].word ==> !bs[loc].Empty()
  {
    hide ValidBuckets, Compatible, Covers, UniqueKeys, Values, HomeOf;
    var n, home := |bs|, HomeOf(|bs|, hash(key));
    if n < j && n == MAX_NUM_BUCKETS {
      assert bs[Probe(n, home, if j <= 2 * n then j - 1 - n else 0)].word >= DIST_INC;
    }
  }

  lemma ProbeStop<K(!new), V>(hash: K -> nat, eq: (K, K) -> bool, m: seq<Slot<Entry<K, V>>>, order: seq<nat>,
                              bs: seq<Bucket>, key: K, j: nat, loc: nat, word: nat)
    requires TableState(hash, eq, m, order, bs) && NoRepeats(order)
    requires ProbeState(hash, eq, m, order, bs, key, j, loc, word) && loc < |bs| && word > bs[loc].word
    ensures !Contains(eq, ValuesAt(m, order), key) && CanPut(bs, loc, word)
    ensures |order| < |bs| ==> word == WordAt(|bs|, hash(key), loc)
  {
    hide ValidBuckets, Compatible, Covers, UniqueKeys, Values, HomeOf, Passed, Lapped, CanPut, Contains, WordAt;
    var n, home, fingerprint := |bs|, HomeOf(|bs|, hash(key)), hash(key) % DIST_INC;
    if j <= n || n < MAX_NUM_BUCKETS {
      StopMeansAbsent(hash, eq, m, order, bs, key, j);
      StoppedWord(hash, eq, m, order, bs, key, j);
    } else {
      LapStop(bs, home, fingerprint, j, loc, word);
    }
  }

  lemma ProbeStep<K(!new), V>(hash: K -> nat, eq: (K, K) -> bool, m: seq<Slot<Entry<K, V>>>, order: seq<nat>,
                              bs: seq<Bucket>, key: K, j: nat, loc: nat, word: nat)
    requires TableState(hash, eq, m, order, bs) && NoRepeats(order)
    requires ProbeState(hash, eq, m, order, bs, key, j, loc, word) && loc < |bs|
    requires word <= bs[loc].word && !(word == bs[loc].word && FoundIn(eq, m, bs[loc], key))
    ensures j <= 2 * |bs|
    ensures ProbeState(hash, eq, m, order, bs, key, j + 1, Next(|bs|, loc), (word + DIST_INC) % WORD_LIMIT)
  {
    hide ValidBuckets, Compatible, Covers, UniqueKeys, Values, HomeOf, Passed, Lapped, Contains, WordAt, FoundIn;
    var n, home, fingerprint := |bs|, HomeOf(|bs|, hash(key)), hash(key) % DIST_INC;
    if j <= n || n < MAX_NUM_BUCKETS {
      ProbingStep(hash, eq, m, order, bs, key, j, loc, word);
      SortedBounds(bs, Hashes(hash, m)) by { ValidIsSorted(bs, Hashes(hash, m)); }
    } else {
      LapStep(bs, home, fingerprint, j, loc, word);
    }
  }

  lemma ValidIsSorted(bs: seq<Bucket>, hashes: seq<nat>)
    requires ValidBuckets(bs, hashes)
    ensures Sorted(bs, hashes)
  {
  }

  lemma LiveInTable<K(!new), V>(hash: K -> nat, eq: (K, K) -> bool, m: seq<Slot<Entry<K, V>>>, order: seq<nat>,
                                bs: seq<Bucket>, q: nat)
    requires TableState(hash, eq, m, order, bs) && q < |bs| && !bs[q].Empty()
    ensures bs[q].value in order && bs[q].value < |m| && m[bs[q].value].Value?
  {
    hide ValidBuckets, Compatible, Covers, UniqueKeys, Values;
    LiveValue(m, order, bs, q);
  }

  lemma PassedWord<K, V>(eq: (K, K) -> bool, m: seq<Slot<Entry<K, V>>>, bs: seq<Bucket>, key: K, home: nat,
                         fingerprint: nat, j: nat)
    requires home < |bs| && 1 <= j <= |bs| + 1 && Passed(eq, m, bs, key, home, fingerprint, j)
    ensures bs[Probe(|bs|, home, j - 1)].word >= DIST_INC * j + fingerprint
  {
  }

  lemma LapStep(bs: seq<Bucket>, home: nat, fingerprint: nat, j: nat, loc: nat, word: nat)
    requires Lapping(bs, home, fingerprint, j, loc, word) && word <= bs[loc].word
    ensures Lapping(bs, home, fingerprint, j + 1, Next(|bs|, loc), (word + DIST_INC) % WORD_LIMIT)
  {
    assert Probe(|bs|, home, 0) == home;
  }

  /** The second round ends at the home bucket. */
  lemma LapStop(bs: seq<Bucket>, home: nat, fingerprint: nat, j: nat, loc: nat, word: nat)
    requires Lapping(bs, home, fingerprint, j, loc, word) && word > bs[loc].word
    ensures CanPut(bs, loc, word) && j == 2 * |bs| + 1
  {
    var n := |bs|;
    assert Prev(n, home) == Probe(n, home, n - 1);
  }

  lemma SortedBounds(bs: seq<Bucket>, hashes: seq<nat>)
    requires Sorted(bs, hashes)
    ensures 0 < |bs| <= MAX_NUM_BUCKETS
  {
  }

  lemma StoppedWord<K(!new), V>(hash: K -> nat, eq: (K, K) -> bool, m: seq<Slot<Entry<K, V>>>, order: seq<nat>,
                                bs: seq<Bucket>, key: K, j: nat)
    requires TableState(hash, eq, m, order, bs) && NoRepeats(order) && 1 <= j <= |bs| + 1
    requires forall i :: 1 <= i < j ==> Passed(eq, m, bs, key, HomeOf(|bs|, hash(key)), hash(key) % DIST_INC, i)
    requires bs[Probe(|bs|, HomeOf(|bs|, hash(key)), j - 1)].word < DIST_INC * j + hash(key) % DIST_INC
    ensures var loc, word := Probe(|bs|, HomeOf(|bs|, hash(key)), j - 1), DIST_INC * j + hash(key) % DIST_INC;
            CanPut(bs, loc, word) && (|order| < |bs| ==> word == WordAt(|bs|, hash(key), loc))
  {
    hide Compatible, Covers, UniqueKeys, Values, ValuesAt, Sorted, DistinctValues, Anchored, HomeOf, AsSet;
    var home, fingerprint := HomeOf(|bs|, hash(key)), hash(key) % DIST_INC;
    var loc := Probe(|bs|, home, j - 1);
    if j > 1 {
      assert Passed(eq, m, bs, key, home, fingerprint, j - 1);
      assert Prev(|bs|, loc) == Probe(|bs|, home, j - 2);
      RoomForProbe(hash, eq, m, order, bs, key, j - 1);
    }
  }
}
