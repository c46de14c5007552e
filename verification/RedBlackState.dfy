/**
  The invariant of the red-black tree container and what the two updates make of it.
 */
module RedBlackState {
  import opened Sequences
  import opened IndexStorage
  import opened RedBlackShape
  import opened RedBlackMemory
  import opened SortedEntries

  /** Search order, mutually consistent links, colours, and agreement with the storage. */
  ghost predicate ValidState<K(!new), V>(lt: (K, K) -> bool, m: Memory<K, V>, root: nat, size: nat, shape: Tree) {
    && StrictWeakOrder(lt)
    && Rep(m, root, Top, shape) && RedBlack(shape) && Alive(shape)
    && size == |Inorder(shape)|
    && (forall i :: 0 <= i < |m| ==> (m[i].Value? <==> i in Ids(shape)))
    && Points(Data(m), Inorder(shape)) && Ascending(lt, Entries(Data(m), Inorder(shape)))
  }

  lemma StateFacts<K(!new), V>(lt: (K, K) -> bool, m: Memory<K, V>, root: nat, size: nat, shape: Tree)
    requires ValidState(lt, m, root, size, shape)
    ensures StrictWeakOrder(lt) && Rep(m, root, Top, shape) && RedBlack(shape) && Alive(shape)
    ensures size == |Inorder(shape)| && Points(Data(m), Inorder(shape))
    ensures forall i :: 0 <= i < |m| ==> (m[i].Value? <==> i in Ids(shape))
  {
  }

  lemma StatePoints<K, V>(m: Memory<K, V>, root: nat, shape: Tree)
    requires Rep(m, root, Top, shape)
    ensures Points(Data(m), Inorder(shape))
  {
    RepIds(m, root, Top, shape);
    var ids := Inorder(shape);
    forall k | 0 <= k < |ids|
      ensures ids[k] < |m| && m[ids[k]].Value?
    {
      InorderIds(shape, ids[k]);
    }
  }

  /** `full` of the storage is what comparing the size with the capacity says. */
  lemma FullBySize<K(!new), V>(lt: (K, K) -> bool, m: Memory<K, V>, root: nat, size: nat, shape: Tree,
                               policy: Policy, next: nat, free: seq<nat>)
    requires ValidState(lt, m, root, size, shape) && Consistent(policy, m, next, free)
    ensures next == |m| <==> size == |m|
    ensures size <= |m|
  {
    RepIds(m, root, Top, shape);
    InorderSize(shape);
    assert Live(m) == Ids(shape);
    FullMeansAllLive(policy, m, next, free);
  }

  lemma EntriesConcat<K, V>(d: seq<Slot<Entry<K, V>>>, a: seq<nat>, b: seq<nat>)
    ensures Points(d, a + b) <==> Points(d, a) && Points(d, b)
    ensures Points(d, a + b) ==> Entries(d, a + b) == Entries(d, a) + Entries(d, b)
  {
    var ab := a + b;
    assert forall k :: 0 <= k < |a| ==> ab[k] == a[k];
    assert forall k :: 0 <= k < |b| ==> ab[|a| + k] == b[k];
    assert Points(d, ab) ==> Points(d, a) && Points(d, b);
    if Points(d, ab) {
      assert Entries(d, ab) == Entries(d, a) + Entries(d, b);
    }
  }

  // ----- search

  /** A node for `key` belongs into the hole of `c`. */
  ghost predicate Place<K, V>(lt: (K, K) -> bool, d: seq<Slot<Entry<K, V>>>, c: Ctx, key: K) {
    && Points(d, Before(c)) && AllBelow(lt, Entries(d, Before(c)), key)
    && Points(d, After(c)) && AllAbove(lt, Entries(d, After(c)), key)
  }

  lemma PlaceAnywhere<K, V>(lt: (K, K) -> bool, d: seq<Slot<Entry<K, V>>>, key: K)
    ensures Place(lt, d, Top, key)
  {
  }

  lemma AscendingParts<K, V>(lt: (K, K) -> bool, a: seq<Entry<K, V>>, b: seq<Entry<K, V>>, c: seq<Entry<K, V>>)
    requires Ascending(lt, a + b + c)
    ensures Ascending(lt, b)
  {
    var s := a + b + c;
    assert forall k :: 0 <= k < |b| ==> s[|a| + k] == b[k];
  }

  /** The keys of the left subtree are below the key of the root, those of the right subtree above. */
  lemma SubtreeOrder<K, V>(lt: (K, K) -> bool, d: seq<Slot<Entry<K, V>>>, c: Ctx, t: Tree)
    requires t.Br? && Points(d, Inorder(Plug(c, t))) && Ascending(lt, Entries(d, Inorder(Plug(c, t))))
    ensures t.i < |d| && d[t.i].Value? && Points(d, Inorder(t.l)) && Points(d, Inorder(t.r))
    ensures AllBelow(lt, Entries(d, Inorder(t.l)), d[t.i].v.key)
    ensures AllAbove(lt, Entries(d, Inorder(t.r)), d[t.i].v.key)
  {
    hide Entries, Inorder, Plug, Points;
    var b, l, r, a := Before(c), Inorder(t.l), Inorder(t.r), After(c);
    PlugInorder(c, t);
    InorderOfTree(t);
    EntriesConcat(d, b + Inorder(t), a);
    EntriesConcat(d, b, Inorder(t));
    EntriesConcat(d, l + [t.i], r);
    EntriesConcat(d, l, [t.i]);
    EntriesOfOne(d, t.i);
    var el, er, x := Entries(d, l), Entries(d, r), d[t.i].v;
    var s := el + [x] + er;
    AscendingParts(lt, Entries(d, b), s, Entries(d, a));
    forall k | 0 <= k < |el|
      ensures lt(el[k].key, x.key)
    {
      assert s[k] == el[k] && s[|el|] == x;
    }
    forall k | 0 <= k < |er|
      ensures lt(x.key, er[k].key)
    {
      assert s[|el|] == x && s[|el| + 1 + k] == er[k];
    }
  }

  lemma InorderOfTree(t: Tree)
    requires t.Br?
    ensures Inorder(t) == Inorder(t.l) + [t.i] + Inorder(t.r)
  {
  }

  lemma EntriesOfOne<K, V>(d: seq<Slot<Entry<K, V>>>, i: nat)
    ensures Points(d, [i]) <==> i < |d| && d[i].Value?
    ensures Points(d, [i]) ==> Entries(d, [i]) == [d[i].v]
  {
    assert Points(d, [i]) <==> [i][0] < |d| && d[[i][0]].Value?;
  }

  /** One step down the tree keeps the place of `key`. */
  lemma PlaceStep<K(!new), V>(lt: (K, K) -> bool, d: seq<Slot<Entry<K, V>>>, c: Ctx, t: Tree, key: K, side: Side)
    requires StrictWeakOrder(lt) && Place(lt, d, c, key) && t.Br?
    requires Points(d, Inorder(Plug(c, t))) && Ascending(lt, Entries(d, Inorder(Plug(c, t))))
    requires t.i < |d| && d[t.i].Value?
    requires if side == Left then lt(key, d[t.i].v.key) else lt(d[t.i].v.key, key)
    ensures Place(lt, d, In(side, c, t.i, t.red, Kid(t, side.Other())), key)
  {
    hide Entries, Inorder, Plug, Points;
    SubtreeOrder(lt, d, c, t);
    EntriesOfOne(d, t.i);
    var sib := Inorder(Kid(t, side.Other()));
    if side == Left {
      EntriesConcat(d, [t.i] + sib, After(c));
      EntriesConcat(d, [t.i], sib);
    } else {
      EntriesConcat(d, Before(c), sib + [t.i]);
      EntriesConcat(d, sib, [t.i]);
    }
  }

  /** Where a found node stands in key order, and that everything before it is below. */
  lemma FoundState<K(!new), V>(lt: (K, K) -> bool, m: Memory<K, V>, root: nat, size: nat, shape: Tree,
                               c: Ctx, t: Tree, key: K) returns (k: nat)
    requires ValidState(lt, m, root, size, shape) && Plug(c, t) == shape && t.Br?
    requires t.i < |m| && m[t.i].Value? && Equivalent(lt, m[t.i].v.key, key)
    ensures k == |Before(c)| + |Inorder(t.l)| < |Inorder(shape)| && Inorder(shape)[k] == t.i && t.i in Inorder(shape)
    ensures var s := Entries(Data(m), Inorder(shape));
            && Equivalent(lt, s[k].key, key) && Occurs(lt, s, key)
            && (forall a :: 0 <= a < k ==> lt(s[a].key, key) && !lt(key, s[a].key))
            && (forall a :: 0 <= a < |s| && a != k ==> !Equivalent(lt, s[a].key, key))
  {
    hide Linked, Ids, Distinct, Balanced, Inorder, Plug, Before, Data, Ascending, StrictWeakOrder, Alive;
    k := |Before(c)| + |Inorder(t.l)|;
    NodePosition(c, t, Left);
    DataAt(m, t.i);
    var s := Entries(Data(m), Inorder(shape));
    assert s[k] == Data(m)[t.i].v;
    FoundAround(lt, s, k, key);
  }

  lemma FoundAround<K(!new), V>(lt: (K, K) -> bool, s: seq<Entry<K, V>>, k: nat, key: K)
    requires StrictWeakOrder(lt) && Ascending(lt, s) && k < |s| && Equivalent(lt, s[k].key, key)
    ensures Occurs(lt, s, key)
    ensures forall a :: 0 <= a < k ==> lt(s[a].key, key) && !lt(key, s[a].key)
    ensures forall a :: 0 <= a < |s| && a != k ==> !Equivalent(lt, s[a].key, key)
  {
    hide Ascending;
    AroundEquivalent(lt, s, k, key);
    assert forall a :: 0 <= a < k ==> s[a] == s[..k][a];
  }

  lemma AbsentState<K(!new), V>(lt: (K, K) -> bool, m: Memory<K, V>, root: nat, size: nat, shape: Tree, c: Ctx, key: K)
    requires ValidState(lt, m, root, size, shape) && Plug(c, Leaf) == shape && Place(lt, Data(m), c, key)
    ensures !Occurs(lt, Entries(Data(m), Inorder(shape)), key)
  {
    hide Linked, Ids, Distinct, Balanced, Entries, Points;
    InsertedInorder(c, 0);
    EntriesConcat(Data(m), Before(c), After(c));
    var b, a := Entries(Data(m), Before(c)), Entries(Data(m), After(c));
    var s := b + a;
    forall k | 0 <= k < |s|
      ensures !Equivalent(lt, s[k].key, key)
    {
      if k < |b| {
        assert lt(b[k].key, key);
      } else {
        assert lt(key, a[k - |b|].key);
      }
    }
  }

  lemma FreshIndex<K, V>(m: Memory<K, V>, root: nat, shape: Tree, i: nat)
    requires Rep(m, root, Top, shape) && i < |m| && m[i].Index?
    ensures i !in Inorder(shape)
  {
    RepIds(m, root, Top, shape);
    InorderIds(shape, i);
  }

  /** All former indices are still in use and still hold the same entry. */
  ghost predicate KeepsIndices<K, V>(ids: seq<nat>, d: seq<Slot<Entry<K, V>>>, ids': seq<nat>,
                                     d': seq<Slot<Entry<K, V>>>) {
    |d'| == |d| && forall i :: i in ids && i < |d| ==> i in ids' && d'[i] == d[i]
  }

  // ----- neighbours in key order

  /** The number of nodes that lie beyond the hole of `c` on `side`. */
  function Beyond(side: Side, c: Ctx): nat { if side == Left then |Before(c)| else |After(c)| }

  function IndexAt(ids: seq<nat>, k: int): nat { if 0 <= k < |ids| then ids[k] else NULL_INDEX }

  /** Position `k` seen from the `side` end. */
  function From(side: Side, n: nat, k: int): int { if side == Left then k else n - 1 - k }

  lemma NodePosition(c: Ctx, t: Tree, side: Side)
    requires t.Br?
    ensures var ids := Inorder(Plug(c, t));
            IndexAt(ids, From(side, |ids|, Beyond(side, c) + |Inorder(Kid(t, side))|)) == t.i
    ensures var ids := Inorder(Plug(c, t));
            Beyond(side, c) + |Inorder(Kid(t, side))| + 1 + |Inorder(Kid(t, side.Other()))| + Beyond(side.Other(), c)
            == |ids|
  {
    PlugInorder(c, t);
    InorderOfTree(t);
  }

  lemma HolePosition(c: Ctx, t: Tree)
    requires c.In?
    ensures var ids := Inorder(Plug(c, t)); var side := c.side.Other();
            IndexAt(ids, From(side, |ids|, Beyond(side, c) - 1)) == c.i && Beyond(side, c) > 0
  {
    PlugInorder(c, t);
    var ids := Inorder(Plug(c, t));
    if c.side == Left {
      assert After(c)[0] == c.i;
    } else {
      assert Before(c)[|Before(c)| - 1] == c.i;
    }
  }

  lemma UniqueIndices<K(!new), V>(lt: (K, K) -> bool, m: Memory<K, V>, root: nat, size: nat, shape: Tree)
    requires ValidState(lt, m, root, size, shape)
    ensures NoRepeats(Inorder(shape))
  {
    hide Inorder, Balanced, Linked, Distinct, Ids, Rep, Alive;
    var ids, s := Inorder(shape), Entries(Data(m), Inorder(shape));
    forall a, b | 0 <= a < b < |ids|
      ensures ids[a] != ids[b]
    {
      assert lt(s[a].key, s[b].key);
    }
  }

  lemma PlugIn(c: Ctx, t: Tree)
    requires c.In?
    ensures Plug(c.up, Join(c.side, t, c.i, c.red, c.sib)) == Plug(c, t)
  {
  }

  lemma BeyondIn(side: Side, c: Ctx)
    requires c.In?
    ensures Beyond(side, c) == Beyond(side, c.up) + if c.side == side then 0 else 1 + |Inorder(c.sib)|
  {
  }

  lemma BeyondTop(side: Side)
    ensures Beyond(side, Top) == 0
  {
  }

  lemma AliveKid(t: Tree, side: Side)
    requires t.Br? && Alive(t)
    ensures Alive(Kid(t, side))
  {
  }

  lemma HoleNext(side: Side, c: Ctx, t: Tree)
    requires c.In? ==> c.side == side.Other()
    ensures var ids := Inorder(Plug(c, t)); HoleParent(c) == IndexAt(ids, From(side, |ids|, Beyond(side, c) - 1))
  {
    if c.In? {
      HolePosition(c, t);
    } else {
      BeyondTop(side);
    }
  }

  lemma EmptyInorder(t: Tree)
    ensures t.Leaf? ==> Inorder(t) == []
  {
  }

  lemma NoNullIndex<K, V>(m: Memory<K, V>, root: nat, shape: Tree)
    requires Rep(m, root, Top, shape)
    ensures NULL_INDEX !in Inorder(shape)
  {
    RepIds(m, root, Top, shape);
    InorderIds(shape, NULL_INDEX);
  }

  /** The view from the node with a given index. */
  lemma LocateNode<K, V>(m: Memory<K, V>, root: nat, shape: Tree, i: nat) returns (c: Ctx, t: Tree)
    requires Rep(m, root, Top, shape) && Alive(shape) && i in Inorder(shape)
    ensures Plug(c, t) == shape && t.Br? && t.i == i && Rep(m, root, c, t) && i < NULL_INDEX && Alive(t)
  {
    InorderIds(shape, i);
    c, t := Locate(shape, i);
    PlugAlive(c, t);
    MoveToTop(m, root, c, t);
    View(m, root, c, t);
  }

  lemma {:induction false} PlugAlive(c: Ctx, t: Tree)
    requires Alive(Plug(c, t))
    ensures Alive(t)
    decreases c
  {
    if c.In? {
      PlugAlive(c.up, Join(c.side, t, c.i, c.red, c.sib));
    }
  }

  /** Which neighbour a position count from the far end stands for. */
  lemma NextPosition(c: Ctx, t: Tree, side: Side, r: nat)
    requires t.Br? && NoRepeats(Inorder(Plug(c, t)))
    requires var ids, n := Inorder(Plug(c, t)), Beyond(side.Other(), c) + |Inorder(Kid(t, side.Other()))| + 1;
             r == IndexAt(ids, From(side.Other(), |ids|, n))
    ensures var ids := Inorder(Plug(c, t));
            forall k :: 0 <= k < |ids| && ids[k] == t.i ==> r == IndexAt(ids, if side == Right then k + 1 else k - 1)
  {
    hide Inorder, Plug, Beyond;
    NodePosition(c, t, side.Other());
    var ids, n := Inorder(Plug(c, t)), Beyond(side.Other(), c) + |Inorder(Kid(t, side.Other()))|;
    var p := From(side.Other(), |ids|, n);
    assert 0 <= p < |ids| && ids[p] == t.i;
    assert From(side.Other(), |ids|, n + 1) == if side == Right then p + 1 else p - 1;
  }

  // ----- insertion

  /** A tree that holds the old nodes and, in its place, the new one is a valid state for the
      entries with the new entry put in. */
  lemma InsertedState<K(!new), V>(lt: (K, K) -> bool, m: Memory<K, V>, root: nat, shape: Tree, c: Ctx, i: nat,
                                  key: K, value: V, m': Memory<K, V>, root': nat, shape': Tree)
    requires ValidState(lt, m, root, |Inorder(shape)|, shape) && Plug(c, Leaf) == shape
    requires i < |m| && m[i].Index? && Data(m') == Data(m)[i := Value(Entry(key, value))]
    requires Rep(m', root', Top, shape') && RedBlack(shape')
    requires SameNodes(c, Br(Leaf, i, false, Leaf), Top, shape')
    requires Place(lt, Data(m), c, key)
    ensures Inorder(shape) == Before(c) + After(c) && Inorder(shape') == Before(c) + [i] + After(c)
    ensures ValidState(lt, m', root', |Inorder(shape)| + 1, shape')
    ensures Entries(Data(m'), Inorder(shape')) == Put(lt, Entries(Data(m), Inorder(shape)), key, value)
  {
    hide Entries, Inorder, Plug, Points, Linked, Ids, Data, Ascending, AllBelow, AllAbove, Distinct, Balanced;
    InsertedInorder(c, i);
    assert Inorder(shape') == Before(c) + [i] + After(c) && Ids(shape') == Ids(shape) + {i} by { PlugTop(shape'); }
    StatePoints(m', root', shape');
    InsertedEntries(lt, m, m', Before(c), After(c), i, key, value);
    SlotKinds(m, m', i, Entry(key, value));
    forall x | x in Ids(shape')
      ensures x in Inorder(shape')
    {
      AliveInorder(shape, x);
    }
    AliveBySequence(shape');
  }

  lemma InsertedEntries<K(!new), V>(lt: (K, K) -> bool, m: Memory<K, V>, m': Memory<K, V>, b: seq<nat>, a: seq<nat>,
                                    i: nat, key: K, value: V)
    requires StrictWeakOrder(lt) && i < |m| && m[i].Index? && Data(m') == Data(m)[i := Value(Entry(key, value))]
    requires Points(Data(m), b + a) && Points(Data(m'), b + [i] + a)
    requires Ascending(lt, Entries(Data(m), b + a))
    requires Points(Data(m), b) && AllBelow(lt, Entries(Data(m), b), key)
    requires Points(Data(m), a) && AllAbove(lt, Entries(Data(m), a), key)
    ensures Ascending(lt, Entries(Data(m'), b + [i] + a))
    ensures Entries(Data(m'), b + [i] + a) == Put(lt, Entries(Data(m), b + a), key, value)
  {
    hide Entries, Points, Data, Ascending, AllBelow, AllAbove;
    var d, d' := Data(m), Data(m');
    SlotKinds(m, m', i, Entry(key, value));
    EntriesConcat(d', b + [i], a);
    EntriesConcat(d', b, [i]);
    EntriesOfOne(d', i);
    EntriesConcat(d, b, a);
    EntriesElsewhere(d, d', b, i);
    EntriesElsewhere(d, d', a, i);
    PutBetween(lt, Entries(d, b), Entries(d, a), key, value);
    AscendingBetween(lt, Entries(d, b), Entries(d, a), key, value);
  }

  lemma PlugTop(t: Tree)
    ensures Plug(Top, t) == t
  {
  }

  lemma InsertedInorder(c: Ctx, i: nat)
    ensures Inorder(Plug(c, Leaf)) == Before(c) + After(c)
    ensures Inorder(Plug(c, Br(Leaf, i, false, Leaf))) == Before(c) + [i] + After(c)
    ensures Ids(Plug(c, Br(Leaf, i, false, Leaf))) == Ids(Plug(c, Leaf)) + {i}
  {
    var t := Br(Leaf, i, false, Leaf);
    PlugInorder(c, Leaf);
    PlugInorder(c, t);
    PlugIds(c, Leaf);
    PlugIds(c, t);
    assert Inorder(t) == [i] && Ids(t) == {i};
  }

  lemma EntriesElsewhere<K, V>(d: seq<Slot<Entry<K, V>>>, d': seq<Slot<Entry<K, V>>>, ids: seq<nat>, i: nat)
    requires Points(d, ids) && i < |d| && |d'| == |d| && d[i].Index?
    requires forall j :: 0 <= j < |d| && j != i ==> d'[j] == d[j]
    ensures Points(d', ids) && Entries(d', ids) == Entries(d, ids)
  {
    assert forall k :: 0 <= k < |ids| ==> ids[k] != i;
    assert Points(d', ids);
    assert Entries(d', ids) == Entries(d, ids);
  }

  lemma SlotKinds<K, V>(m: Memory<K, V>, m': Memory<K, V>, i: nat, e: Entry<K, V>)
    requires i < |m| && Data(m') == Data(m)[i := Value(e)]
    ensures |m'| == |m| && m'[i].Value? && (m[i].Index? ==> Data(m)[i].Index?)
    ensures forall j :: 0 <= j < |m| && j != i ==> m'[j].Value? == m[j].Value?
  {
    assert forall j :: 0 <= j < |m| ==> m[j].Value? == Data(m)[j].Value?;
    assert forall j :: 0 <= j < |m'| ==> m'[j].Value? == Data(m')[j].Value?;
  }
}
