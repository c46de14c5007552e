/**
  The abstract value of a sorted container: its entries in key order, with the reference
  definitions of insertion and removal.
 */
module SortedEntries {
  import opened Sequences

  datatype Entry<K, V> = Entry(key: K, value: V)

  ghost predicate StrictWeakOrder<K(!new)>(lt: (K, K) -> bool) {
    && (forall a :: !lt(a, a))
    && (forall a, b, c :: lt(a, b) && lt(b, c) ==> lt(a, c))
    && (forall a, b, c :: !lt(a, b) && !lt(b, a) && !lt(b, c) && !lt(c, b) ==> !lt(a, c) && !lt(c, a))
  }

  predicate Equivalent<K>(lt: (K, K) -> bool, a: K, b: K) { !lt(a, b) && !lt(b, a) }

  ghost predicate Ascending<K, V>(lt: (K, K) -> bool, s: seq<Entry<K, V>>) {
    forall a, b :: 0 <= a < b < |s| ==> lt(s[a].key, s[b].key)
  }

  ghost predicate AllBelow<K, V>(lt: (K, K) -> bool, s: seq<Entry<K, V>>, key: K) {
    forall a :: 0 <= a < |s| ==> lt(s[a].key, key)
  }

  ghost predicate AllAbove<K, V>(lt: (K, K) -> bool, s: seq<Entry<K, V>>, key: K) {
    forall a :: 0 <= a < |s| ==> lt(key, s[a].key)
  }

  ghost predicate Occurs<K, V>(lt: (K, K) -> bool, s: seq<Entry<K, V>>, key: K) {
    exists k :: 0 <= k < |s| && Equivalent(lt, s[k].key, key)
  }

  /** Insertion that leaves an entry with an equivalent key alone. */
  function Put<K, V>(lt: (K, K) -> bool, s: seq<Entry<K, V>>, key: K, value: V): seq<Entry<K, V>> {
    if s == [] then [Entry(key, value)]
    else if lt(key, s[0].key) then [Entry(key, value)] + s
    else if lt(s[0].key, key) then [s[0]] + Put(lt, s[1..], key, value)
    else s
  }

  /** Removal of the entries with an equivalent key. */
  function Without<K, V>(lt: (K, K) -> bool, s: seq<Entry<K, V>>, key: K): seq<Entry<K, V>> {
    if s == [] then []
    else if Equivalent(lt, s[0].key, key) then Without(lt, s[1..], key)
    else [s[0]] + Without(lt, s[1..], key)
  }

  lemma {:induction false} PutBetween<K, V>(lt: (K, K) -> bool, below: seq<Entry<K, V>>, above: seq<Entry<K, V>>,
                                            key: K, value: V)
    requires forall a, b :: lt(a, b) ==> !lt(b, a)
    requires AllBelow(lt, below, key) && AllAbove(lt, above, key)
    ensures Put(lt, below + above, key, value) == below + [Entry(key, value)] + above
  {
    var s := below + above;
    if below == [] {
      assert s == above;
    } else {
      PutBetween(lt, below[1..], above, key, value);
      assert s[1..] == below[1..] + above;
      assert !lt(key, s[0].key);
      assert below == [below[0]] + below[1..];
    }
  }

  lemma {:induction false} PutPresent<K, V>(lt: (K, K) -> bool, s: seq<Entry<K, V>>, k: nat, key: K, value: V)
    requires k < |s| && Equivalent(lt, s[k].key, key)
    requires forall a :: 0 <= a < k ==> lt(s[a].key, key) && !lt(key, s[a].key)
    ensures Put(lt, s, key, value) == s
  {
    if k > 0 {
      PutPresent(lt, s[1..], k - 1, key, value);
    }
  }

  lemma {:induction false} WithoutAbsent<K, V>(lt: (K, K) -> bool, s: seq<Entry<K, V>>, key: K)
    requires forall a :: 0 <= a < |s| ==> !Equivalent(lt, s[a].key, key)
    ensures Without(lt, s, key) == s
  {
    if s != [] {
      WithoutAbsent(lt, s[1..], key);
    }
  }

  lemma {:induction false} WithoutPresent<K, V>(lt: (K, K) -> bool, s: seq<Entry<K, V>>, k: nat, key: K)
    requires k < |s| && Equivalent(lt, s[k].key, key)
    requires forall a :: 0 <= a < |s| && a != k ==> !Equivalent(lt, s[a].key, key)
    ensures Without(lt, s, key) == RemoveAt(s, k)
  {
    if k == 0 {
      WithoutAbsent(lt, s[1..], key);
    } else {
      WithoutPresent(lt, s[1..], k - 1, key);
      assert RemoveAt(s, k) == [s[0]] + RemoveAt(s[1..], k - 1);
    }
  }

  /** Around an entry equivalent to `key`, everything before it is below and everything after above. */
  lemma AroundEquivalent<K(!new), V>(lt: (K, K) -> bool, s: seq<Entry<K, V>>, k: nat, key: K)
    requires StrictWeakOrder(lt) && Ascending(lt, s) && k < |s| && Equivalent(lt, s[k].key, key)
    ensures AllBelow(lt, s[..k], key) && AllAbove(lt, s[k + 1..], key)
    ensures forall a :: 0 <= a < |s| && a != k ==> !Equivalent(lt, s[a].key, key)
  {
    forall a | 0 <= a < |s| && a != k
      ensures if a < k then lt(s[a].key, key) else lt(key, s[a].key)
    {
      var e, x := s[k].key, s[a].key;
      if a < k {
        assert lt(x, e);
        assert lt(key, x) ==> lt(key, e);
        assert !lt(e, key) && !lt(key, e);
      } else {
        assert lt(e, x);
        assert lt(x, key) ==> lt(e, key);
        assert !lt(e, key) && !lt(key, e);
      }
    }
  }

  /** Ascending entries have ascending insertions and removals. */
  lemma AscendingBetween<K(!new), V>(lt: (K, K) -> bool, below: seq<Entry<K, V>>, above: seq<Entry<K, V>>,
                                     key: K, value: V)
    requires StrictWeakOrder(lt) && Ascending(lt, below + above)
    requires AllBelow(lt, below, key) && AllAbove(lt, above, key)
    ensures Ascending(lt, below + [Entry(key, value)] + above)
  {
    var s, r := below + above, below + [Entry(key, value)] + above;
    forall a, b | 0 <= a < b < |r|
      ensures lt(r[a].key, r[b].key)
    {
      var n := |below|;
      if a != n && b != n {
        var a', b' := if a < n then a else a - 1, if b < n then b else b - 1;
        assert r[a] == s[a'] && r[b] == s[b'] && lt(s[a'].key, s[b'].key);
      } else if a == n {
        assert r[b] == above[b - n - 1];
      } else {
        assert r[a] == below[a];
      }
    }
  }

  lemma AscendingRemoveAt<K, V>(lt: (K, K) -> bool, s: seq<Entry<K, V>>, k: nat)
    requires Ascending(lt, s) && k < |s|
    ensures Ascending(lt, RemoveAt(s, k))
  {
    var r := RemoveAt(s, k);
    forall a, b | 0 <= a < b < |r|
      ensures lt(r[a].key, r[b].key)
    {
      var a', b' := if a < k then a else a + 1, if b < k then b else b + 1;
      assert r[a] == s[a'] && r[b] == s[b'] && lt(s[a'].key, s[b'].key);
    }
  }

  /** The entries after an insertion: the old ones, and the new one exactly if no key is equivalent to its key. */
  lemma {:induction false} PutEntries<K(!new), V>(lt: (K, K) -> bool, s: seq<Entry<K, V>>, key: K, value: V,
                                                  e: Entry<K, V>)
    requires StrictWeakOrder(lt) && Ascending(lt, s)
    ensures e in Put(lt, s, key, value) <==> e in s || (e == Entry(key, value) && !Occurs(lt, s, key))
  {
    if s == [] || lt(key, s[0].key) {
      assert forall k :: 0 < k < |s| ==> lt(key, s[k].key);
      assert !Occurs(lt, s, key);
    } else if lt(s[0].key, key) {
      var t := s[1..];
      assert s == [s[0]] + t;
      PutEntries(lt, t, key, value, e);
      assert forall k :: 0 <= k < |t| ==> t[k] == s[k + 1];
      if k :| 0 <= k < |s| && Equivalent(lt, s[k].key, key) {
        assert t[k - 1] == s[k];
      }
    } else {
      assert Equivalent(lt, s[0].key, key);
    }
  }

  /** The entries after a removal: all but those with an equivalent key. */
  lemma {:induction false} WithoutEntries<K, V>(lt: (K, K) -> bool, s: seq<Entry<K, V>>, key: K, e: Entry<K, V>)
    ensures e in Without(lt, s, key) <==> e in s && !Equivalent(lt, e.key, key)
  {
    if s != [] {
      WithoutEntries(lt, s[1..], key, e);
      assert s == [s[0]] + s[1..];
    }
  }
}
