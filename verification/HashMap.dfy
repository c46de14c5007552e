/**
  The map interface over the hash table: an insertion-ordered association list is what it refines, and
  its equality is equality of finite maps.
 */
module HashMap {
  import opened Sequences
  import opened IndexStorage
  import opened SortedEntries
  import opened LinkedList
  import opened RobinHood
  import opened HashTable

  datatype Option<T> = None | Some(value: T)

  // ----- the reference: an association list in insertion order

  /** The position of the entry with the given key, or the length of the list. */
  function Position<K, V>(eq: (K, K) -> bool, s: seq<Entry<K, V>>, key: K): (r: nat)
    ensures r <= |s| && (r < |s| ==> eq(key, s[r].key))
    ensures forall j :: 0 <= j < r ==> !eq(key, s[j].key)
  {
    if s == [] || eq(key, s[0].key) then 0 else 1 + Position(eq, s[1..], key)
  }

  function Lookup<K, V>(eq: (K, K) -> bool, s: seq<Entry<K, V>>, key: K): Option<V> {
    var p := Position(eq, s, key);
    if p < |s| then Some(s[p].value) else None
  }

  /** Insertion that leaves an existing entry alone. */
  function WithKey<K, V>(eq: (K, K) -> bool, s: seq<Entry<K, V>>, key: K, value: V): seq<Entry<K, V>> {
    if Position(eq, s, key) < |s| then s else s + [Entry(key, value)]
  }

  /** Insertion that overwrites the value of an existing entry, which keeps its place and its key. */
  function WithValue<K, V>(eq: (K, K) -> bool, s: seq<Entry<K, V>>, key: K, value: V): seq<Entry<K, V>> {
    var p := Position(eq, s, key);
    if p < |s| then s[p := Entry(s[p].key, value)] else s + [Entry(key, value)]
  }

  function WithoutKey<K, V>(eq: (K, K) -> bool, s: seq<Entry<K, V>>, key: K): seq<Entry<K, V>> {
    var p := Position(eq, s, key);
    if p < |s| then RemoveAt(s, p) else s
  }

  /** In a list with unique keys any matching entry is the one at `Position`. */
  lemma PositionUnique<K(!new), V>(eq: (K, K) -> bool, s: seq<Entry<K, V>>, key: K, p: nat)
    requires EquivalenceRelation(eq) && UniqueKeys(eq, s)
    requires p < |s| && eq(key, s[p].key)
    ensures Position(eq, s, key) == p
  {
    var q := Position(eq, s, key);
    assert eq(s[q].key, key);
    assert eq(s[q].key, s[p].key);
  }

  lemma PositionAbsent<K, V>(eq: (K, K) -> bool, s: seq<Entry<K, V>>, key: K)
    ensures Contains(eq, s, key) <==> Position(eq, s, key) < |s|
  {
  }

  lemma PositionCongruent<K(!new), V>(eq: (K, K) -> bool, s: seq<Entry<K, V>>, a: K, b: K)
    requires EquivalenceRelation(eq) && eq(a, b)
    ensures Position(eq, s, a) == Position(eq, s, b)
  {
    var p, q := Position(eq, s, a), Position(eq, s, b);
    if p < |s| {
      assert eq(b, a) && eq(b, s[p].key);
    }
    if q < |s| {
      assert eq(a, s[q].key);
    }
  }

  lemma WithKeyLookup<K(!new), V>(eq: (K, K) -> bool, s: seq<Entry<K, V>>, key: K, value: V, x: K)
    requires EquivalenceRelation(eq) && UniqueKeys(eq, s)
    ensures UniqueKeys(eq, WithKey(eq, s, key, value))
    ensures Lookup(eq, WithKey(eq, s, key, value), x) ==
            if eq(x, key) && Lookup(eq, s, key).None? then Some(value) else Lookup(eq, s, x)
  {
    var r := WithKey(eq, s, key, value);
    if Position(eq, s, key) == |s| {
      UniqueAppended(eq, s, Entry(key, value));
      AppendedLookup(eq, s, Entry(key, value), x);
    }
  }

  lemma AppendedLookup<K(!new), V>(eq: (K, K) -> bool, s: seq<Entry<K, V>>, e: Entry<K, V>, x: K)
    requires EquivalenceRelation(eq) && UniqueKeys(eq, s + [e])
    ensures Lookup(eq, s + [e], x) == if eq(x, e.key) then Some(e.value) else Lookup(eq, s, x)
  {
    var p, r := Position(eq, s, x), s + [e];
    assert r[|s|] == e;
    assert p < |s| ==> r[p] == s[p];
    if eq(x, e.key) {
      PositionUnique(eq, r, x, |s|);
    } else if p < |s| {
      PositionUnique(eq, r, x, p);
    } else {
      assert forall j :: 0 <= j < |r| ==> !eq(x, r[j].key);
      assert Position(eq, r, x) == |r|;
    }
  }

  lemma WithValueLookup<K(!new), V>(eq: (K, K) -> bool, s: seq<Entry<K, V>>, key: K, value: V, x: K)
    requires EquivalenceRelation(eq) && UniqueKeys(eq, s)
    ensures UniqueKeys(eq, WithValue(eq, s, key, value))
    ensures Lookup(eq, WithValue(eq, s, key, value), x) == if eq(x, key) then Some(value) else Lookup(eq, s, x)
  {
    var p, r := Position(eq, s, key), WithValue(eq, s, key, value);
    if p == |s| {
      UniqueAppended(eq, s, Entry(key, value));
      AppendedLookup(eq, s, Entry(key, value), x);
    } else {
      assert UniqueKeys(eq, r) by {
        assert forall j :: 0 <= j < |s| ==> r[j].key == s[j].key;
      }
      var q := Position(eq, s, x);
      if eq(x, key) {
        assert eq(x, r[p].key);
        PositionUnique(eq, r, x, p);
      } else if q < |s| {
        PositionUnique(eq, r, x, q);
      } else {
        assert forall j :: 0 <= j < |r| ==> r[j].key == s[j].key;
        assert Position(eq, r, x) == |r|;
      }
    }
  }

  lemma WithoutKeyLookup<K(!new), V>(eq: (K, K) -> bool, s: seq<Entry<K, V>>, key: K, x: K)
    requires EquivalenceRelation(eq) && UniqueKeys(eq, s)
    ensures UniqueKeys(eq, WithoutKey(eq, s, key))
    ensures Lookup(eq, WithoutKey(eq, s, key), x) == if eq(x, key) then None else Lookup(eq, s, x)
  {
    hide RemoveAt;
    var p, q, r := Position(eq, s, key), Position(eq, s, x), WithoutKey(eq, s, key);
    if eq(x, key) {
      PositionCongruent(eq, s, x, key);
    }
    if p < |s| {
      UniqueRemoved(eq, s, p);
      RemovedAt(s, p);
      if q < |s| && q != p {
        assert r[if q < p then q else q - 1] == s[q];
        PositionUnique(eq, r, x, if q < p then q else q - 1);
        assert eq(x, key) ==> p == q;
      } else {
        forall j | 0 <= j < |r|
          ensures !eq(x, r[j].key)
        {
          var i := if j < p then j else j + 1;
          assert r[j] == s[i];
          if eq(x, s[i].key) {
            PositionUnique(eq, s, x, i);
          }
        }
        assert Position(eq, r, x) == |r|;
        assert q == p ==> eq(x, s[p].key) && eq(s[p].key, key) && eq(x, key);
      }
    }
  }

  // ----- equality

  ghost predicate SameMap<K(!new), V>(eq: (K, K) -> bool, s: seq<Entry<K, V>>, t: seq<Entry<K, V>>) {
    forall key :: Lookup(eq, s, key) == Lookup(eq, t, key)
  }

  /** Entry `k` of one map has an equal counterpart in the other. */
  ghost predicate Matched<K, V>(eq: (K, K) -> bool, s: seq<Entry<K, V>>, t: seq<Entry<K, V>>, k: nat)
    requires k < |s|
  {
    Lookup(eq, t, s[k].key) == Some(s[k].value)
  }

  /** Where the keys of one list stand in another. */
  function Positions<K, V>(eq: (K, K) -> bool, s: seq<Entry<K, V>>, t: seq<Entry<K, V>>): (r: seq<nat>)
    ensures |r| == |s| && forall k :: 0 <= k < |s| ==> r[k] == Position(eq, t, s[k].key)
  {
    seq(|s|, k requires 0 <= k < |s| => Position(eq, t, s[k].key))
  }

  /** Keys found in another list occupy as many positions there. */
  lemma PositionsDiffer<K(!new), V>(eq: (K, K) -> bool, s: seq<Entry<K, V>>, t: seq<Entry<K, V>>)
    requires EquivalenceRelation(eq) && UniqueKeys(eq, s)
    requires forall k :: 0 <= k < |s| ==> Contains(eq, t, s[k].key)
    ensures NoRepeats(Positions(eq, s, t)) && AsSet(Positions(eq, s, t)) <= Below(|t|)
    ensures |s| <= |t|
  {
    var r := Positions(eq, s, t);
    forall k | 0 <= k < |s|
      ensures r[k] < |t|
    {
      PositionAbsent(eq, t, s[k].key);
    }
    forall a, b | 0 <= a < b < |r|
      ensures r[a] != r[b]
    {
      assert eq(s[a].key, t[r[a]].key) && eq(t[r[b]].key, s[b].key);
    }
    CountOrder(r);
    Subset(AsSet(r), Below(|t|));
  }

  /** For maps of equal size, matching all entries of the one means that no key of the other is left over. */
  lemma NoneLeftOver<K(!new), V>(eq: (K, K) -> bool, s: seq<Entry<K, V>>, t: seq<Entry<K, V>>, p: nat)
    requires EquivalenceRelation(eq) && UniqueKeys(eq, s) && |s| == |t| && p < |t|
    requires forall k :: 0 <= k < |s| ==> Contains(eq, t, s[k].key)
    ensures exists k :: 0 <= k < |s| && eq(t[p].key, s[k].key)
  {
    PositionsDiffer(eq, s, t);
    var r := Positions(eq, s, t);
    CountOrder(r);
    Subset(AsSet(r), Below(|t|));
    assert p in AsSet(r);
    var k :| 0 <= k < |r| && r[k] == p;
    assert eq(s[k].key, t[p].key);
  }

  /** Equal sizes and matched entries are exactly equality of the finite maps. */
  lemma EqualMeansSame<K(!new), V>(eq: (K, K) -> bool, s: seq<Entry<K, V>>, t: seq<Entry<K, V>>)
    requires EquivalenceRelation(eq) && UniqueKeys(eq, s) && UniqueKeys(eq, t)
    ensures |s| == |t| && (forall k :: 0 <= k < |s| ==> Matched(eq, s, t, k)) <==> SameMap(eq, s, t)
  {
    if |s| == |t| && forall k :: 0 <= k < |s| ==> Matched(eq, s, t, k) {
      MatchedMeansContained(eq, s, t);
      forall key
        ensures Lookup(eq, s, key) == Lookup(eq, t, key)
      {
        var p, q := Position(eq, s, key), Position(eq, t, key);
        if p < |s| {
          assert Matched(eq, s, t, p);
          PositionCongruent(eq, t, key, s[p].key);
        } else if q < |t| {
          NoneLeftOver(eq, s, t, q);
          assert false;
        }
      }
    }
    if SameMap(eq, s, t) {
      forall k | 0 <= k < |s|
        ensures Matched(eq, s, t, k)
      {
        PositionUnique(eq, s, s[k].key, k);
      }
      forall k | 0 <= k < |t|
        ensures Matched(eq, t, s, k)
      {
        PositionUnique(eq, t, t[k].key, k);
      }
      MatchedMeansContained(eq, s, t);
      MatchedMeansContained(eq, t, s);
      PositionsDiffer(eq, s, t);
      PositionsDiffer(eq, t, s);
    }
  }

  lemma MatchedMeansContained<K, V>(eq: (K, K) -> bool, s: seq<Entry<K, V>>, t: seq<Entry<K, V>>)
    requires forall k :: 0 <= k < |s| ==> Matched(eq, s, t, k)
    ensures forall k :: 0 <= k < |s| ==> Contains(eq, t, s[k].key)
  {
    forall k | 0 <= k < |s|
      ensures Contains(eq, t, s[k].key)
    {
      assert Matched(eq, s, t, k);
      PositionAbsent(eq, t, s[k].key);
    }
  }

  // ----- the operations

  lemma FoundPosition<K(!new), V>(hash: K -> nat, eq: (K, K) -> bool, m: seq<Slot<Entry<K, V>>>, order: seq<nat>,
                                  bs: seq<Bucket>, loc: nat, key: K)
    requires TableState(hash, eq, m, order, bs) && loc < |bs| && !bs[loc].Empty() && FoundIn(eq, m, bs[loc], key)
    ensures var p := Position(eq, ValuesAt(m, order), key);
            p < |ValuesAt(m, order)| == |order| && order[p] == bs[loc].value && m[order[p]].Value?
    ensures UniqueKeys(eq, ValuesAt(m, order)) && EquivalenceRelation(eq)
  {
    hide ValidBuckets, Values;
    LiveInTable(hash, eq, m, order, bs, loc);
    var k :| 0 <= k < |order| && order[k] == bs[loc].value;
    PositionUnique(eq, ValuesAt(m, order), key, k);
  }

  /** The node with the given key, or the sentinel. */
  method Find<K(!new), V>(table: HashTable<K, V>, key: K) returns (node: nat)
    requires table.Valid()
    ensures node == RingAt(table.list.order, table.list.storage.slots.Length, Position(table.eq, table.Model(), key))
  {
    hide TableState, ValidList, FreeList, ValuesAt, Position, Contains, CanPut;
    var loc, word := table.IndexOf(key);
    PositionAbsent(table.eq, table.Model(), key);
    table.list.ElementCount();
    if word != 0 {
      return table.list.storage.slots.Length;
    }
    FoundPosition(table.hash, table.eq, table.list.storage.slots[..], table.list.order, table.buckets[..], loc, key);
    node := table.buckets[loc].value;
  }

  /** Inserts unless the key is there; `node` holds the key afterwards. */
  method Insert<K(!new), V>(table: HashTable<K, V>, key: K, value: V) returns (node: nat, inserted: bool)
    requires table.Valid()
    requires table.list.size < table.list.storage.slots.Length || Contains(table.eq, table.Model(), key)
    modifies table.list, table.list.storage, table.list.storage.slots, table.list.chain, table.buckets
    ensures table.Valid() && table.Model() == WithKey(table.eq, old(table.Model()), key, value)
    ensures inserted <==> !Contains(table.eq, old(table.Model()), key)
    ensures NodeOf(table.list.order, table.eq, table.Model(), key, node)
  {
    hide TableState, ValidList, FreeList, ValuesAt, Position, Contains, CanPut;
    ghost var e := table.Model();
    var loc, word := table.IndexOf(key);
    PositionAbsent(table.eq, e, key);
    table.list.ElementCount();
    if word == 0 {
      FoundPosition(table.hash, table.eq, table.list.storage.slots[..], table.list.order, table.buckets[..], loc, key);
      return table.buckets[loc].value, false;
    }
    CapacityFits(table);
    table.Emplace(loc, word, key, value);
    AppendedPosition(table, e, key, value);
    table.list.ElementCount();
    node, inserted := table.buckets[loc].value, true;
  }

  /** Inserts, or overwrites the value if the key is there. */
  method InsertOrAssign<K(!new), V>(table: HashTable<K, V>, key: K, value: V) returns (node: nat, inserted: bool)
    requires table.Valid()
    requires table.list.size < table.list.storage.slots.Length || Contains(table.eq, table.Model(), key)
    modifies table.list, table.list.storage, table.list.storage.slots, table.list.chain, table.buckets
    ensures table.Valid() && table.Model() == WithValue(table.eq, old(table.Model()), key, value)
    ensures inserted <==> !Contains(table.eq, old(table.Model()), key)
    ensures NodeOf(table.list.order, table.eq, table.Model(), key, node)
  {
    hide TableState, ValidList, FreeList, ValuesAt, Position, Contains, CanPut;
    ghost var e := table.Model();
    var loc, word := table.IndexOf(key);
    PositionAbsent(table.eq, e, key);
    table.list.ElementCount();
    if word == 0 {
      FoundPosition(table.hash, table.eq, table.list.storage.slots[..], table.list.order, table.buckets[..], loc, key);
      node, inserted := table.buckets[loc].value, false;
      table.Assign(loc, value, Position(table.eq, e, key));
      AssignedPosition(table.eq, e, key, value);
    } else {
      CapacityFits(table);
      table.Emplace(loc, word, key, value);
      AppendedPosition(table, e, key, value);
      table.list.ElementCount();
      node, inserted := table.buckets[loc].value, true;
    }
  }

  /** `node` is the node of the entry with the given key. */
  ghost predicate NodeOf<K, V>(order: seq<nat>, eq: (K, K) -> bool, s: seq<Entry<K, V>>, key: K, node: nat) {
    var p := Position(eq, s, key);
    p < |s| == |order| && order[p] == node
  }

  lemma AssignedPosition<K(!new), V>(eq: (K, K) -> bool, s: seq<Entry<K, V>>, key: K, value: V)
    requires EquivalenceRelation(eq) && UniqueKeys(eq, s) && Position(eq, s, key) < |s|
    ensures Position(eq, WithValue(eq, s, key, value), key) == Position(eq, s, key)
  {
    var p, r := Position(eq, s, key), WithValue(eq, s, key, value);
    assert forall j :: 0 <= j < |s| ==> r[j].key == s[j].key;
    PositionUnique(eq, r, key, p);
  }

  lemma CapacityFits<K(!new), V>(table: HashTable<K, V>)
    requires table.Valid()
    ensures table.list.storage.slots.Length <= table.buckets.Length
  {
    hide ValidBuckets, Compatible, Covers, UniqueKeys, Values, ValidList, FreeList, ValuesAt;
  }

  lemma AppendedPosition<K(!new), V>(table: HashTable<K, V>, s: seq<Entry<K, V>>, key: K, value: V)
    requires table.Valid() && table.Model() == s + [Entry(key, value)] && Position(table.eq, s, key) == |s|
    ensures Position(table.eq, table.Model(), key) == |s|
  {
    hide ValidBuckets, Covers, Values, ValidList, FreeList, ValuesAt;
    PositionUnique(table.eq, table.Model(), key, |s|);
  }

  method EraseKey<K(!new), V>(table: HashTable<K, V>, key: K) returns (count: nat)
    requires table.Valid()
    modifies table.list, table.list.storage, table.list.storage.slots, table.list.chain, table.buckets
    ensures table.Valid() && table.Model() == WithoutKey(table.eq, old(table.Model()), key)
    ensures count == if Contains(table.eq, old(table.Model()), key) then 1 else 0
  {
    hide TableState, ValidList, FreeList, ValuesAt, Position, Contains, CanPut;
    var loc, word := table.IndexOf(key);
    PositionAbsent(table.eq, table.Model(), key);
    if word != 0 {
      return 0;
    }
    FoundPosition(table.hash, table.eq, table.list.storage.slots[..], table.list.order, table.buckets[..], loc, key);
    var next := table.Erase(loc, Position(table.eq, table.Model(), key));
    count := 1;
  }

  /** Compares two tables, possibly with different hashes and sizes, entry by entry in list order. */
  method Equal<K(!new), V(==)>(table: HashTable<K, V>, other: HashTable<K, V>) returns (same: bool)
    requires table.Valid() && other.Valid() && table.eq == other.eq
    ensures same <==> SameMap(table.eq, table.Model(), other.Model())
  {
    hide TableState, ValidList, FreeList, ValuesAt, Position, Lookup;
    TableKeys(table);
    TableKeys(other);
    ghost var s, t := table.Model(), other.Model();
    EqualMeansSame(table.eq, s, t);
    if table.list.size != other.list.size {
      return false;
    }
    ghost var m, c, order := table.list.storage.slots[..], table.list.chain[..], table.list.order;
    ListRing(m, c, order);
    FirstAt(m, c, order);
    var node := table.list.chain[table.list.storage.slots.Length].next;
    ghost var k := 0;
    while node != table.list.storage.slots.Length
      invariant 0 <= k <= |s| && node == RingAt(order, |m|, k)
      invariant forall j :: 0 <= j < k ==> Matched(table.eq, s, t, j)
      decreases |s| - k
    {
      ElementAt(m, c, order, k);
      var entry := table.list.storage.slots[node].v;
      var found := Find(other, entry.key);
      MatchedAt(other, entry, found);
      if found == other.list.storage.slots.Length || other.list.storage.slots[found].v.value != entry.value {
        assert !Matched(table.eq, s, t, k);
        return false;
      }
      node := table.list.chain[node].next;
      k := k + 1;
    }
    InRing(m, c, order, k);
    same := true;
  }

  lemma TableKeys<K(!new), V>(table: HashTable<K, V>)
    requires table.Valid()
    ensures EquivalenceRelation(table.eq) && UniqueKeys(table.eq, table.Model())
    ensures |table.Model()| == |table.list.order| == table.list.size
  {
    hide ValidBuckets, Values, ValidList, FreeList;
    table.list.ElementCount();
  }

  lemma ElementAt<T>(m: seq<Slot<T>>, chain: seq<Link>, order: seq<nat>, k: nat)
    requires ValidList(m, chain, order) && k <= |order| && RingAt(order, |m|, k) != |m|
    ensures k < |order| && order[k] < |m| && m[order[k]].Value? && ValuesAt(m, order)[k] == m[order[k]].v
    ensures chain[order[k]].next == RingAt(order, |m|, k + 1)
  {
    LiveAt(m, chain, order, k);
  }

  lemma InRing<T>(m: seq<Slot<T>>, chain: seq<Link>, order: seq<nat>, k: nat)
    requires ValidList(m, chain, order) && k <= |order|
    ensures RingAt(order, |m|, k) == |m| <==> k == |order|
  {
    hide Linked, FreeList;
  }

  /** Comparing against the node that was found compares against the looked-up value. */
  lemma MatchedAt<K(!new), V>(other: HashTable<K, V>, entry: Entry<K, V>, found: nat)
    requires other.Valid()
    requires found ==
             RingAt(other.list.order, other.list.storage.slots.Length, Position(other.eq, other.Model(), entry.key))
    ensures found != other.list.storage.slots.Length ==>
              found < other.list.storage.slots.Length && other.list.storage.slots[found].Value?
    ensures Lookup(other.eq, other.Model(), entry.key) ==
            if found == other.list.storage.slots.Length then None else Some(other.list.storage.slots[found].v.value)
  {
    hide TableState, FreeList, Ring, Linked;
    var p := Position(other.eq, other.Model(), entry.key);
    InRing(other.list.storage.slots[..], other.list.chain[..], other.list.order, p) by { other.list.ElementCount(); }
  }

  // ----- whole runs

  datatype Command<K, V> = Add(key: K, value: V) | Overwrite(key: K, value: V) | Erase(key: K) | Clear

  function Effect<K, V>(eq: (K, K) -> bool, s: seq<Entry<K, V>>, command: Command<K, V>): seq<Entry<K, V>> {
    match command
    case Add(key, value) => WithKey(eq, s, key, value)
    case Overwrite(key, value) => WithValue(eq, s, key, value)
    case Erase(key) => WithoutKey(eq, s, key)
    case Clear => []
  }

  function Effects<K, V>(eq: (K, K) -> bool, s: seq<Entry<K, V>>, commands: seq<Command<K, V>>): seq<Entry<K, V>>
    decreases |commands|
  {
    if commands == [] then s else Effects(eq, Effect(eq, s, commands[0]), commands[1..])
  }

  ghost predicate Spares<K, V>(eq: (K, K) -> bool, command: Command<K, V>, key: K) {
    !command.Clear? && (command.Erase? ==> !eq(key, command.key))
  }

  lemma OrderKeptByOne<K(!new), V>(eq: (K, K) -> bool, s: seq<Entry<K, V>>, command: Command<K, V>, a: K, b: K)
    requires EquivalenceRelation(eq) && UniqueKeys(eq, s) && Spares(eq, command, a) && Spares(eq, command, b)
    requires Position(eq, s, a) < Position(eq, s, b) < |s|
    ensures var r := Effect(eq, s, command);
            UniqueKeys(eq, r) && Position(eq, r, a) < Position(eq, r, b) < |r|
  {
    hide RemoveAt, Position, WithoutKey, UniqueKeys;
    match command {
      case Add(key, value) =>
        WithKeyLookup(eq, s, key, value, a);
        OrderKeptByAppend(eq, s, Effect(eq, s, command), a, b);
      case Overwrite(key, value) =>
        WithValueLookup(eq, s, key, value, a);
        OrderKeptByAppend(eq, s, Effect(eq, s, command), a, b);
      case Erase(key) =>
        OrderKeptByErasure(eq, s, key, a, b);
    }
  }

  lemma OrderKeptByAppend<K(!new), V>(eq: (K, K) -> bool, s: seq<Entry<K, V>>, r: seq<Entry<K, V>>, a: K, b: K)
    requires EquivalenceRelation(eq) && UniqueKeys(eq, r) && Position(eq, s, a) < Position(eq, s, b) < |s| <= |r|
    requires forall j :: 0 <= j < |s| ==> r[j].key == s[j].key
    ensures Position(eq, r, a) < Position(eq, r, b) < |r|
  {
    PositionUnique(eq, r, a, Position(eq, s, a));
    PositionUnique(eq, r, b, Position(eq, s, b));
  }

  lemma OrderKeptByErasure<K(!new), V>(eq: (K, K) -> bool, s: seq<Entry<K, V>>, key: K, a: K, b: K)
    requires EquivalenceRelation(eq) && UniqueKeys(eq, s) && !eq(a, key) && !eq(b, key)
    requires Position(eq, s, a) < Position(eq, s, b) < |s|
    ensures var r := WithoutKey(eq, s, key);
            UniqueKeys(eq, r) && Position(eq, r, a) < Position(eq, r, b) < |r|
  {
    hide RemoveAt;
    var p, q, x, r := Position(eq, s, a), Position(eq, s, b), Position(eq, s, key), WithoutKey(eq, s, key);
    WithoutKeyLookup(eq, s, key, a);
    if x < |s| {
      RemovedAt(s, x);
      NotAt(eq, s, key, a);
      NotAt(eq, s, key, b);
      PositionUnique(eq, r, a, if p < x then p else p - 1);
      PositionUnique(eq, r, b, if q < x then q else q - 1);
    }
  }

  lemma NotAt<K(!new), V>(eq: (K, K) -> bool, s: seq<Entry<K, V>>, key: K, a: K)
    requires EquivalenceRelation(eq) && !eq(a, key) && Position(eq, s, a) < |s|
    ensures Position(eq, s, a) != Position(eq, s, key)
  {
    var p := Position(eq, s, a);
    assert eq(a, s[p].key);
  }

  /** Over a whole run two entries that no command removes keep their order. */
  lemma {:induction false} InsertionOrderKept<K(!new), V>(eq: (K, K) -> bool, s: seq<Entry<K, V>>,
                                                          commands: seq<Command<K, V>>, a: K, b: K)
    requires EquivalenceRelation(eq) && UniqueKeys(eq, s) && Position(eq, s, a) < Position(eq, s, b) < |s|
    requires forall c :: c in commands ==> Spares(eq, c, a) && Spares(eq, c, b)
    ensures var r := Effects(eq, s, commands);
            Position(eq, r, a) < Position(eq, r, b) < |r|
    decreases |commands|
  {
    hide Position, Effect, Spares, UniqueKeys;
    if commands != [] {
      assert commands[0] in commands;
      OrderKeptByOne(eq, s, commands[0], a, b);
      assert forall c :: c in commands[1..] ==> c in commands;
      InsertionOrderKept(eq, Effect(eq, s, commands[0]), commands[1..], a, b);
    }
  }

  // ----- what a run leaves

  lemma {:induction false} EffectsSplit<K, V>(eq: (K, K) -> bool, s: seq<Entry<K, V>>, commands: seq<Command<K, V>>,
                                              k: nat)
    requires k <= |commands|
    ensures Effects(eq, s, commands) == Effects(eq, Effects(eq, s, commands[..k]), commands[k..])
    decreases k
  {
    if k == 0 {
      assert commands[0..] == commands;
      NoEffects(eq, s, commands[..0]);
    } else {
      EffectsSplit(eq, Effect(eq, s, commands[0]), commands[1..], k - 1);
      assert commands[..k][0] == commands[0] && commands[..k][1..] == commands[1..][..k - 1];
      assert commands[k..] == commands[1..][k - 1..];
    }
  }

  lemma NoEffects<K, V>(eq: (K, K) -> bool, s: seq<Entry<K, V>>, commands: seq<Command<K, V>>)
    requires commands == []
    ensures Effects(eq, s, commands) == s
  {
  }

  lemma EffectUnique<K(!new), V>(eq: (K, K) -> bool, s: seq<Entry<K, V>>, command: Command<K, V>)
    requires EquivalenceRelation(eq) && UniqueKeys(eq, s)
    ensures UniqueKeys(eq, Effect(eq, s, command))
  {
    hide UniqueKeys;
    match command {
      case Add(key, value) => WithKeyLookup(eq, s, key, value, key);
      case Overwrite(key, value) => WithValueLookup(eq, s, key, value, key);
      case Erase(key) => WithoutKeyLookup(eq, s, key, key);
      case Clear => NoneUnique<K, V>(eq);
    }
  }

  lemma NoneUnique<K, V>(eq: (K, K) -> bool)
    ensures UniqueKeys<K, V>(eq, [])
  {
  }

  lemma {:induction false} EffectsUnique<K(!new), V>(eq: (K, K) -> bool, s: seq<Entry<K, V>>,
                                                     commands: seq<Command<K, V>>)
    requires EquivalenceRelation(eq) && UniqueKeys(eq, s)
    ensures UniqueKeys(eq, Effects(eq, s, commands))
    decreases |commands|
  {
    if commands != [] {
      EffectUnique(eq, s, commands[0]);
      EffectsUnique(eq, Effect(eq, s, commands[0]), commands[1..]);
    }
  }

  predicate Touches<K, V>(eq: (K, K) -> bool, command: Command<K, V>, x: K) { command.Clear? || eq(x, command.key) }

  /** A run leaves a key alone that no command touches. */
  lemma {:induction false} Untouched<K(!new), V>(eq: (K, K) -> bool, s: seq<Entry<K, V>>,
                                                 commands: seq<Command<K, V>>, x: K)
    requires EquivalenceRelation(eq) && UniqueKeys(eq, s)
    requires forall j :: 0 <= j < |commands| ==> !Touches(eq, commands[j], x)
    ensures Lookup(eq, Effects(eq, s, commands), x) == Lookup(eq, s, x)
    decreases |commands|
  {
    hide Lookup, WithKey, WithValue, WithoutKey, UniqueKeys;
    if commands != [] {
      assert !Touches(eq, commands[0], x);
      match commands[0] {
        case Add(key, value) => WithKeyLookup(eq, s, key, value, x);
        case Overwrite(key, value) => WithValueLookup(eq, s, key, value, x);
        case Erase(key) => WithoutKeyLookup(eq, s, key, x);
      }
      Untouched(eq, Effect(eq, s, commands[0]), commands[1..], x);
    }
  }

  /** The last command that touches a key says what a run leaves for it. */
  lemma LastWriter<K(!new), V>(eq: (K, K) -> bool, s: seq<Entry<K, V>>, commands: seq<Command<K, V>>, k: nat, x: K)
    requires EquivalenceRelation(eq) && UniqueKeys(eq, s)
    requires k < |commands| && Touches(eq, commands[k], x)
    requires forall j :: k < j < |commands| ==> !Touches(eq, commands[j], x)
    ensures var before := Lookup(eq, Effects(eq, s, commands[..k]), x);
      Lookup(eq, Effects(eq, s, commands), x) ==
      match commands[k]
      case Overwrite(_, value) => Some(value)
      case Erase(_) => None
      case Clear => None
      case Add(_, value) => if before.None? then Some(value) else before
  {
    hide Lookup, WithKey, WithValue, WithoutKey, UniqueKeys;
    var r, rest := Effects(eq, s, commands[..k]), commands[k..];
    EffectsSplit(eq, s, commands, k);
    EffectsUnique(eq, s, commands[..k]);
    EffectUnique(eq, r, commands[k]);
    assert rest[0] == commands[k];
    assert forall j :: 0 <= j < |rest| - 1 ==> rest[1..][j] == commands[k + 1 + j];
    Untouched(eq, Effect(eq, r, rest[0]), rest[1..], x);
    match commands[k] {
      case Add(key, value) =>
        WithKeyLookup(eq, r, key, value, x);
        LookupCongruent(eq, r, x, key);
      case Overwrite(key, value) => WithValueLookup(eq, r, key, value, x);
      case Erase(key) => WithoutKeyLookup(eq, r, key, x);
      case Clear => NothingThere<K, V>(eq, x);
    }
  }

  lemma LookupCongruent<K(!new), V>(eq: (K, K) -> bool, s: seq<Entry<K, V>>, a: K, b: K)
    requires EquivalenceRelation(eq) && eq(a, b)
    ensures Lookup(eq, s, a) == Lookup(eq, s, b)
  {
    PositionCongruent(eq, s, a, b);
  }

  lemma NothingThere<K, V>(eq: (K, K) -> bool, x: K)
    ensures Lookup<K, V>(eq, [], x) == None
  {
  }

  /** A new entry comes last and an old one keeps its key; so, with the order of the survivors, the entries are
      in the order in which their keys were inserted. */
  lemma InsertedLast<K(!new), V>(eq: (K, K) -> bool, s: seq<Entry<K, V>>, command: Command<K, V>)
    requires EquivalenceRelation(eq) && UniqueKeys(eq, s) && (command.Add? || command.Overwrite?)
    ensures var r, p := Effect(eq, s, command), Position(eq, Effect(eq, s, command), command.key);
      if Contains(eq, s, command.key) then
        |r| == |s| && forall i :: 0 <= i < |s| ==> r[i].key == s[i].key
      else
        |r| == |s| + 1 && p == |s| && r[p] == Entry(command.key, command.value)
        && forall i :: 0 <= i < |s| ==> r[i] == s[i]
  {
    PositionAbsent(eq, s, command.key);
    EffectUnique(eq, s, command);
    if !Contains(eq, s, command.key) {
      PositionUnique(eq, Effect(eq, s, command), command.key, |s|);
    }
  }

  /** Over a whole run, what is there when a key is newly inserted stays before it. */
  lemma LaterInsertedLater<K(!new), V>(eq: (K, K) -> bool, s: seq<Entry<K, V>>, commands: seq<Command<K, V>>, k: nat,
                                       a: K)
    requires EquivalenceRelation(eq) && UniqueKeys(eq, s)
    requires k < |commands| && (commands[k].Add? || commands[k].Overwrite?)
    requires var before := Effects(eq, s, commands[..k]);
             Contains(eq, before, a) && !Contains(eq, before, commands[k].key)
    requires forall j :: k < j < |commands| ==> Spares(eq, commands[j], a) && Spares(eq, commands[j], commands[k].key)
    ensures var r := Effects(eq, s, commands);
            Position(eq, r, a) < Position(eq, r, commands[k].key) < |r|
  {
    hide Spares, Contains, UniqueKeys, Effects;
    var before, rest, b := Effects(eq, s, commands[..k]), commands[k + 1..], commands[k].key;
    var after := Effect(eq, before, commands[k]);
    EffectsSplit(eq, s, commands, k);
    EffectsHead(eq, before, commands[k..]);
    assert commands[k..][0] == commands[k] && commands[k..][1..] == rest;
    EffectsUnique(eq, s, commands[..k]);
    EffectUnique(eq, before, commands[k]);
    InsertedLast(eq, before, commands[k]);
    PositionAbsent(eq, before, a);
    PositionUnique(eq, after, a, Position(eq, before, a));
    assert forall c :: c in rest ==> Spares(eq, c, a) && Spares(eq, c, b);
    InsertionOrderKept(eq, after, rest, a, b);
  }

  lemma EffectsHead<K, V>(eq: (K, K) -> bool, s: seq<Entry<K, V>>, commands: seq<Command<K, V>>)
    requires commands != []
    ensures Effects(eq, s, commands) == Effects(eq, Effect(eq, s, commands[0]), commands[1..])
  {
  }

  /** No insertion of a new key finds the map full. */
  ghost predicate Fits<K, V>(eq: (K, K) -> bool, s: seq<Entry<K, V>>, commands: seq<Command<K, V>>, capacity: nat)
    decreases |commands|
  {
    commands != [] ==>
      && (commands[0].Add? || commands[0].Overwrite? ==> |s| < capacity || Contains(eq, s, commands[0].key))
      && Fits(eq, Effect(eq, s, commands[0]), commands[1..], capacity)
  }

  /** Every run turns the entries into what the reference operations make of them, in the same order. */
  method Run<K(!new), V>(table: HashTable<K, V>, commands: seq<Command<K, V>>)
    requires table.Valid() && Fits(table.eq, table.Model(), commands, table.list.storage.slots.Length)
    modifies table.list, table.list.storage, table.list.storage.slots, table.list.chain, table.buckets
    ensures table.Valid() && table.Model() == Effects(table.eq, old(table.Model()), commands)
  {
    hide TableState, ValidList, FreeList, ValuesAt, Position, Contains, WithKey, WithValue, WithoutKey;
    ghost var e := table.Model();
    for n := 0 to |commands|
      invariant table.Valid() && Fits(table.eq, table.Model(), commands[n..], table.list.storage.slots.Length)
      invariant Effects(table.eq, e, commands) == Effects(table.eq, table.Model(), commands[n..])
    {
      table.list.ElementCount();
      ghost var rest := commands[n..];
      assert rest[0] == commands[n] && rest[1..] == commands[n + 1..];
      match commands[n] {
        case Add(key, value) =>
          var node, inserted := Insert(table, key, value);
        case Overwrite(key, value) =>
          var node, inserted := InsertOrAssign(table, key, value);
        case Erase(key) =>
          var count := EraseKey(table, key);
        case Clear =>
          table.Clear();
      }
    }
    assert commands[|commands|..] == [];
  }
}
