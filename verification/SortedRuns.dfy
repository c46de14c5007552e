/**
  Runs of insertions and erasures on sorted entries: what a run leaves, said in terms of its commands.
 */
module SortedRuns {
  import opened SortedEntries

  datatype Command<K, V> = Insert(key: K, value: V) | Erase(key: K)

  function Effect<K, V>(lt: (K, K) -> bool, s: seq<Entry<K, V>>, command: Command<K, V>): seq<Entry<K, V>> {
    match command
    case Insert(key, value) => Put(lt, s, key, value)
    case Erase(key) => Without(lt, s, key)
  }

  function Effects<K, V>(lt: (K, K) -> bool, s: seq<Entry<K, V>>, commands: seq<Command<K, V>>): seq<Entry<K, V>>
    decreases |commands|
  {
    if commands == [] then s else Effects(lt, Effect(lt, s, commands[0]), commands[1..])
  }

  lemma {:induction false} EffectsOfMore<K, V>(lt: (K, K) -> bool, s: seq<Entry<K, V>>, commands: seq<Command<K, V>>,
                                               last: Command<K, V>)
    ensures Effects(lt, s, commands + [last]) == Effect(lt, Effects(lt, s, commands), last)
    decreases |commands|
  {
    if commands == [] {
      assert ([] + [last])[1..] == [];
      EffectsOfNone(lt, Effect(lt, s, last));
    } else {
      assert (commands + [last])[1..] == commands[1..] + [last];
      EffectsOfMore(lt, Effect(lt, s, commands[0]), commands[1..], last);
    }
  }

  lemma EffectsOfNone<K, V>(lt: (K, K) -> bool, s: seq<Entry<K, V>>)
    ensures Effects(lt, s, []) == s
  {
  }

  // ----- order

  lemma {:induction false} PutAscending<K(!new), V>(lt: (K, K) -> bool, s: seq<Entry<K, V>>, key: K, value: V)
    requires StrictWeakOrder(lt) && Ascending(lt, s)
    ensures Ascending(lt, Put(lt, s, key, value))
  {
    if s != [] && !lt(key, s[0].key) && lt(s[0].key, key) {
      var t := s[1..];
      PutAscending(lt, t, key, value);
      var r := Put(lt, t, key, value);
      forall k | 0 <= k < |r|
        ensures lt(s[0].key, r[k].key)
      {
        PutEntries(lt, t, key, value, r[k]);
        assert r[k] in r;
        if r[k] in t {
          var j :| 0 <= j < |t| && t[j] == r[k];
          assert t[j] == s[j + 1];
        }
      }
    }
  }

  lemma {:induction false} WithoutAscending<K(!new), V>(lt: (K, K) -> bool, s: seq<Entry<K, V>>, key: K)
    requires Ascending(lt, s)
    ensures Ascending(lt, Without(lt, s, key))
  {
    if s != [] {
      var t := s[1..];
      WithoutAscending(lt, t, key);
      var r := Without(lt, t, key);
      forall k | 0 <= k < |r|
        ensures lt(s[0].key, r[k].key)
      {
        WithoutEntries(lt, t, key, r[k]);
        assert r[k] in r;
        var j :| 0 <= j < |t| && t[j] == r[k];
        assert t[j] == s[j + 1];
      }
    }
  }

  /** Every run keeps the entries in strict key order. */
  lemma {:induction false} EffectsAscending<K(!new), V>(lt: (K, K) -> bool, s: seq<Entry<K, V>>,
                                                        commands: seq<Command<K, V>>)
    requires StrictWeakOrder(lt) && Ascending(lt, s)
    ensures Ascending(lt, Effects(lt, s, commands))
    decreases |commands|
  {
    if commands != [] {
      match commands[0] {
        case Insert(key, value) => PutAscending(lt, s, key, value);
        case Erase(key) => WithoutAscending(lt, s, key);
      }
      EffectsAscending(lt, Effect(lt, s, commands[0]), commands[1..]);
    }
  }

  // ----- what a run leaves

  predicate Erases<K, V>(lt: (K, K) -> bool, command: Command<K, V>, key: K) {
    command.Erase? && Equivalent(lt, command.key, key)
  }

  predicate Inserts<K, V>(lt: (K, K) -> bool, command: Command<K, V>, key: K) {
    command.Insert? && Equivalent(lt, command.key, key)
  }

  /** No command from `from` on erases the key. */
  ghost predicate KeptFrom<K, V>(lt: (K, K) -> bool, commands: seq<Command<K, V>>, key: K, from: nat) {
    forall j :: from <= j < |commands| ==> !Erases(lt, commands[j], key)
  }

  /** Command `k` is the insertion that the run leaves: the first one that is not followed by an erasure, of a
      key that was not there from the beginning or that has been erased. */
  ghost predicate Decides<K, V>(lt: (K, K) -> bool, s: seq<Entry<K, V>>, commands: seq<Command<K, V>>, key: K, k: nat) {
    && k < |commands| && Inserts(lt, commands[k], key) && KeptFrom(lt, commands, key, k + 1)
    && (forall j :: 0 <= j < k && Inserts(lt, commands[j], key) ==> !KeptFrom(lt, commands, key, j + 1))
    && (Occurs(lt, s, key) ==> !KeptFrom(lt, commands, key, 0))
  }

  /** What the commands say about entry `e`, whose key is equivalent to `key`. */
  ghost predicate Left<K, V>(lt: (K, K) -> bool, s: seq<Entry<K, V>>, commands: seq<Command<K, V>>, key: K,
                             e: Entry<K, V>) {
    || (e in s && KeptFrom(lt, commands, key, 0))
    || exists k: nat :: Decides(lt, s, commands, key, k) && e == Entry(commands[k].key, commands[k].value)
  }

  lemma KeptFromMore<K, V>(lt: (K, K) -> bool, commands: seq<Command<K, V>>, last: Command<K, V>, key: K, from: nat)
    ensures KeptFrom(lt, commands + [last], key, from) <==>
            KeptFrom(lt, commands, key, from) && (from <= |commands| ==> !Erases(lt, last, key))
  {
    var more := commands + [last];
    assert more[|commands|] == last;
    assert forall j :: 0 <= j < |commands| ==> more[j] == commands[j];
  }

  /** A command that does not erase the key leaves the earlier decision as it was. */
  lemma DecidesMore<K, V>(lt: (K, K) -> bool, s: seq<Entry<K, V>>, commands: seq<Command<K, V>>, last: Command<K, V>,
                          key: K, k: nat)
    requires !Erases(lt, last, key) && k < |commands|
    ensures Decides(lt, s, commands + [last], key, k) <==> Decides(lt, s, commands, key, k)
  {
    hide Erases, KeptFrom;
    var more := commands + [last];
    KeptFromMore(lt, commands, last, key, k + 1);
    KeptFromMore(lt, commands, last, key, 0);
    assert forall j :: 0 <= j < |commands| ==> more[j] == commands[j];
    forall j | 0 <= j < k
      ensures more[j] == commands[j] && (KeptFrom(lt, more, key, j + 1) <==> KeptFrom(lt, commands, key, j + 1))
    {
      KeptFromMore(lt, commands, last, key, j + 1);
    }
  }

  /** Among the insertions that no erasure follows, one is the first. */
  lemma Earliest<K, V>(lt: (K, K) -> bool, commands: seq<Command<K, V>>, key: K, j: nat) returns (k: nat)
    requires j < |commands| && Inserts(lt, commands[j], key) && KeptFrom(lt, commands, key, j + 1)
    ensures k <= j && Inserts(lt, commands[k], key) && KeptFrom(lt, commands, key, k + 1)
    ensures forall i :: 0 <= i < k && Inserts(lt, commands[i], key) ==> !KeptFrom(lt, commands, key, i + 1)
    decreases j
  {
    hide KeptFrom, Inserts;
    k := j;
    if i :| 0 <= i < j && Inserts(lt, commands[i], key) && KeptFrom(lt, commands, key, i + 1) {
      k := Earliest(lt, commands, key, i);
    }
  }

  /** A last insertion decides exactly if nothing was left before it. */
  lemma LastDecides<K, V>(lt: (K, K) -> bool, s: seq<Entry<K, V>>, commands: seq<Command<K, V>>, last: Command<K, V>,
                          key: K)
    requires Inserts(lt, last, key)
    ensures Decides(lt, s, commands + [last], key, |commands|) <==>
      && !(Occurs(lt, s, key) && KeptFrom(lt, commands, key, 0))
      && forall k: nat :: !Decides(lt, s, commands, key, k)
  {
    hide KeptFrom, Inserts, Occurs;
    var more, n := commands + [last], |commands|;
    assert !Erases(lt, last, key) by { InsertsNotErases(lt, last, key); }
    NothingBehind(lt, more, key);
    KeptFromMore(lt, commands, last, key, 0);
    assert more[n] == last;
    forall j | 0 <= j < n
      ensures more[j] == commands[j] && (KeptFrom(lt, more, key, j + 1) <==> KeptFrom(lt, commands, key, j + 1))
    {
      KeptFromMore(lt, commands, last, key, j + 1);
    }
    if j :| 0 <= j < n && Inserts(lt, commands[j], key) && KeptFrom(lt, commands, key, j + 1) {
      var k := Earliest(lt, commands, key, j);
      KeptLonger(lt, commands, key, 0, k + 1);
      assert Occurs(lt, s, key) && !KeptFrom(lt, commands, key, 0) ==> Decides(lt, s, commands, key, k);
      assert !Occurs(lt, s, key) ==> Decides(lt, s, commands, key, k);
    }
  }

  lemma InsertsNotErases<K, V>(lt: (K, K) -> bool, command: Command<K, V>, key: K)
    requires Inserts(lt, command, key)
    ensures !Erases(lt, command, key)
  {
  }

  lemma NothingBehind<K, V>(lt: (K, K) -> bool, commands: seq<Command<K, V>>, key: K)
    ensures KeptFrom(lt, commands, key, |commands|)
  {
  }

  lemma KeptLonger<K, V>(lt: (K, K) -> bool, commands: seq<Command<K, V>>, key: K, a: nat, b: nat)
    requires a <= b
    ensures KeptFrom(lt, commands, key, a) ==> KeptFrom(lt, commands, key, b)
  {
  }

  /** One more command does to what is left for a key what it does to the entries. */
  lemma LeftMore<K(!new), V>(lt: (K, K) -> bool, s: seq<Entry<K, V>>, commands: seq<Command<K, V>>,
                             last: Command<K, V>, key: K, e: Entry<K, V>)
    requires Equivalent(lt, e.key, key)
    ensures Erases(lt, last, key) ==> !Left(lt, s, commands + [last], key, e)
    ensures !Erases(lt, last, key) && !Inserts(lt, last, key) ==>
              (Left(lt, s, commands + [last], key, e) <==> Left(lt, s, commands, key, e))
    ensures Inserts(lt, last, key) ==>
              (Left(lt, s, commands + [last], key, e) <==>
               Left(lt, s, commands, key, e)
               || (Decides(lt, s, commands + [last], key, |commands|) && e == Entry(last.key, last.value)))
  {
    hide KeptFrom, Inserts, Erases, Occurs;
    var more, n := commands + [last], |commands|;
    KeptFromMore(lt, commands, last, key, 0);
    assert more[n] == last;
    assert forall j :: 0 <= j < n ==> more[j] == commands[j];
    if Inserts(lt, last, key) {
      InsertsNotErases(lt, last, key);
    }
    if Erases(lt, last, key) {
      forall k: nat
        ensures !Decides(lt, s, more, key, k)
      {
        KeptFromMore(lt, commands, last, key, k + 1);
      }
    } else {
      forall k: nat
        ensures k < n ==> more[k] == commands[k] && (Decides(lt, s, more, key, k) <==> Decides(lt, s, commands, key, k))
        ensures Decides(lt, s, more, key, k) ==> k < n || (k == n && Inserts(lt, last, key))
        ensures Decides(lt, s, commands, key, k) ==> k < n
      {
        if k < n {
          DecidesMore(lt, s, commands, last, key, k);
        }
      }
    }
  }

  /** What a run leaves for a key is what its commands say: the old entry if no command erases it, or else the
      entry of the insertion that decides. */
  lemma {:induction false} RunLeaves<K(!new), V>(lt: (K, K) -> bool, s: seq<Entry<K, V>>, commands: seq<Command<K, V>>,
                                                 key: K)
    requires StrictWeakOrder(lt) && Ascending(lt, s)
    ensures forall e: Entry<K, V> :: Equivalent(lt, e.key, key) ==>
      (e in Effects(lt, s, commands) <==>
       || (e in s && KeptFrom(lt, commands, key, 0))
       || exists k: nat :: Decides(lt, s, commands, key, k) && e == Entry(commands[k].key, commands[k].value))
    decreases |commands|
  {
    hide Left;
    if commands == [] {
      RunLeavesAll(lt, s, key);
    } else {
      var front, last := commands[..|commands| - 1], commands[|commands| - 1];
      assert commands == front + [last];
      RunLeaves(lt, s, front, key);
      EffectsOfMore(lt, s, front, last);
      EffectsAscending(lt, s, front);
      forall e: Entry<K, V> | Equivalent(lt, e.key, key)
        ensures e in Effects(lt, s, commands) <==> Left(lt, s, commands, key, e)
      {
        LeftIs(lt, s, front, key);
        LeftMore(lt, s, front, last, key, e);
        OneMore(lt, s, front, last, key, e);
      }
      LeftIs(lt, s, commands, key);
    }
  }

  lemma LeftIs<K(!new), V>(lt: (K, K) -> bool, s: seq<Entry<K, V>>, commands: seq<Command<K, V>>, key: K)
    ensures forall e :: Left(lt, s, commands, key, e) <==>
      || (e in s && KeptFrom(lt, commands, key, 0))
      || exists k: nat :: Decides(lt, s, commands, key, k) && e == Entry(commands[k].key, commands[k].value)
  {
  }

  lemma RunLeavesAll<K(!new), V>(lt: (K, K) -> bool, s: seq<Entry<K, V>>, key: K)
    ensures Effects(lt, s, []) == s && KeptFrom<K, V>(lt, [], key, 0)
    ensures forall k: nat :: !Decides(lt, s, [], key, k)
  {
  }

  lemma OneMore<K(!new), V>(lt: (K, K) -> bool, s: seq<Entry<K, V>>, front: seq<Command<K, V>>, last: Command<K, V>,
                            key: K, e: Entry<K, V>)
    requires StrictWeakOrder(lt) && Ascending(lt, Effects(lt, s, front)) && Equivalent(lt, e.key, key)
    requires forall x: Entry<K, V> :: Equivalent(lt, x.key, key) ==>
      (x in Effects(lt, s, front) <==> Left(lt, s, front, key, x))
    ensures e in Effect(lt, Effects(lt, s, front), last) <==> Left(lt, s, front + [last], key, e)
  {
    hide Effects, Left, Decides, KeptFrom, Put, Without, Ascending;
    var r := Effects(lt, s, front);
    LeftMore(lt, s, front, last, key, e);
    match last {
      case Erase(k) => WithoutEntries(lt, r, k, e);
      case Insert(k, v) => PutEntries(lt, r, k, v, e);
    }
    if Inserts(lt, last, key) {
      SameOccurrence(lt, r, key, last.key);
      LastDecides(lt, s, front, last, key);
      OccursByLeft(lt, s, front, key);
    }
  }

  lemma SameOccurrence<K(!new), V>(lt: (K, K) -> bool, s: seq<Entry<K, V>>, a: K, b: K)
    requires StrictWeakOrder(lt) && Equivalent(lt, a, b)
    ensures Occurs(lt, s, a) <==> Occurs(lt, s, b)
  {
  }

  /** The key is there exactly if something is left for it. */
  lemma OccursByLeft<K(!new), V>(lt: (K, K) -> bool, s: seq<Entry<K, V>>, commands: seq<Command<K, V>>, key: K)
    requires StrictWeakOrder(lt)
    requires forall x: Entry<K, V> :: Equivalent(lt, x.key, key) ==>
      (x in Effects(lt, s, commands) <==> Left(lt, s, commands, key, x))
    ensures Occurs(lt, Effects(lt, s, commands), key) <==>
      || (Occurs(lt, s, key) && KeptFrom(lt, commands, key, 0))
      || exists k: nat :: Decides(lt, s, commands, key, k)
  {
    hide Effects, KeptFrom, Decides;
    var r := Effects(lt, s, commands);
    if i :| 0 <= i < |r| && Equivalent(lt, r[i].key, key) {
      assert Left(lt, s, commands, key, r[i]);
      if r[i] in s {
        var j :| 0 <= j < |s| && s[j] == r[i];
      }
    }
    if KeptFrom(lt, commands, key, 0) {
      if j :| 0 <= j < |s| && Equivalent(lt, s[j].key, key) {
        assert Left(lt, s, commands, key, s[j]);
        var i :| 0 <= i < |r| && r[i] == s[j];
      }
    }
    if k: nat :| Decides(lt, s, commands, key, k) {
      DecidesInserts(lt, s, commands, key, k);
      var e := Entry(commands[k].key, commands[k].value);
      assert Left(lt, s, commands, key, e);
      var i :| 0 <= i < |r| && r[i] == e;
    }
  }

  lemma DecidesInserts<K, V>(lt: (K, K) -> bool, s: seq<Entry<K, V>>, commands: seq<Command<K, V>>, key: K, k: nat)
    requires Decides(lt, s, commands, key, k)
    ensures k < |commands| && commands[k].Insert? && Equivalent(lt, commands[k].key, key)
  {
  }

  /** A key occurs after a run if it occurred before and no command erases it, or if some insertion of it is
      not followed by an erasure. */
  lemma RunOccurs<K(!new), V>(lt: (K, K) -> bool, s: seq<Entry<K, V>>, commands: seq<Command<K, V>>, key: K)
    requires StrictWeakOrder(lt) && Ascending(lt, s)
    ensures Occurs(lt, Effects(lt, s, commands), key) <==>
      || (Occurs(lt, s, key) && forall j :: 0 <= j < |commands| ==> !Erases(lt, commands[j], key))
      || exists k :: 0 <= k < |commands| && Inserts(lt, commands[k], key)
                     && forall j :: k < j < |commands| ==> !Erases(lt, commands[j], key)
  {
    hide Effects, Inserts, Erases, Occurs;
    RunLeaves(lt, s, commands, key);
    LeftIs(lt, s, commands, key);
    OccursByLeft(lt, s, commands, key);
    if k :| 0 <= k < |commands| && Inserts(lt, commands[k], key) && KeptFrom(lt, commands, key, k + 1) {
      var i := Earliest(lt, commands, key, k);
      assert !(Occurs(lt, s, key) && KeptFrom(lt, commands, key, 0)) ==> Decides(lt, s, commands, key, i);
    }
  }
}
