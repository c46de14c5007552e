/**
  Bookkeeping for deletions: the node with two children and its successor, and the state of the
  container once a node has left the tree and the storage.
 */
module RedBlackRemoval {
  import opened Sequences
  import opened IndexStorage
  import opened RedBlackShape
  import opened RedBlackMemory
  import opened RedBlackRename
  import opened RedBlackState
  import opened SortedEntries

  function RenameCtx(c: Ctx, i: nat, j: nat): Ctx {
    if c.Top? then Top
    else In(c.side, RenameCtx(c.up, i, j), Swap(i, j, c.i), c.red, Rename(c.sib, i, j))
  }

  lemma {:induction false} RenamePlug(c: Ctx, t: Tree, i: nat, j: nat)
    ensures Rename(Plug(c, t), i, j) == Plug(RenameCtx(c, i, j), Rename(t, i, j))
    decreases c
  {
    if c.In? {
      RenamePlug(c.up, Join(c.side, t, c.i, c.red, c.sib), i, j);
    }
  }

  /** The leftmost node of a subtree has no left child and comes first. */
  lemma {:induction false} Leftmost(t: Tree) returns (c: Ctx, s: Tree)
    requires t.Br? && Alive(t)
    ensures Plug(c, s) == t && s.Br? && s.l.Leaf? && Before(c) == [] && s.i == Inorder(t)[0]
    ensures s.i in Ids(t) && (c.In? ==> c.i in Ids(t))
  {
    if t.l.Leaf? {
      c, s := Top, t;
    } else {
      var d;
      d, s := Leftmost(t.l);
      var above := In(Left, Top, t.i, t.red, t.r);
      c := Compose(above, d);
      PlugCompose(above, d, s);
      BeforeCompose(above, d);
    }
  }

  lemma {:induction false} BeforeCompose(outer: Ctx, inner: Ctx)
    ensures Before(Compose(outer, inner)) == Before(outer) + Before(inner)
    decreases inner
  {
    if inner.In? {
      BeforeCompose(outer, inner.up);
    }
  }

  /** The successor of a node with two children is in its right subtree and has no left child; the two
      are never siblings. */
  lemma TwoChildren<K, V>(m: Memory<K, V>, root: nat, c0: Ctx, t0: Tree, k: nat) returns (c: Ctx, s: Tree)
    requires Rep(m, root, c0, t0) && t0.Br? && t0.r.Br? && Alive(t0)
    requires k == |Before(c0)| + |Inorder(t0.l)|
    ensures Plug(c, s) == Plug(c0, t0) && s.Br? && s.l.Leaf? && |Before(c)| == k + 1
    ensures s.i == IndexAt(Inorder(Plug(c0, t0)), k + 1) && s.i != t0.i
    ensures t0.i in Ids(Plug(c0, t0)) && s.i in Ids(Plug(c0, t0)) && NotSiblings(m, t0.i, s.i)
  {
    var d;
    d, s := Leftmost(t0.r);
    var above := In(Right, c0, t0.i, t0.red, t0.l);
    c := Compose(above, d);
    PlugCompose(above, d, s);
    BeforeCompose(above, d);
    PlugInorder(c, s);
    InorderOfTree(s);
    PlugIds(c0, t0);
    MoveToTop(m, root, c0, t0);
    MoveToTop(m, root, c, s);
    View(m, root, c0, t0);
    View(m, root, c, s);
    if c0.In? {
      RootAboveIn(c0, t0.i);
    }
  }

  /** Exchanging neighbours in a sequence and removing one of them is removing it at once. */
  lemma RemoveRenamed(ids: seq<nat>, k: nat)
    requires k + 1 < |ids| && NoRepeats(ids)
    ensures RemoveAt(RenameSeq(ids, ids[k], ids[k + 1]), k + 1) == RemoveAt(ids, k)
  {
  }

  lemma RemainingByPosition(c: Ctx, t: Tree)
    requires t.Br?
    ensures var k := |Before(c)| + |Inorder(t.l)|;
            k < |Inorder(Plug(c, t))| && Remaining(c, t) == RemoveAt(Inorder(Plug(c, t)), k)
  {
    hide Inorder, Plug;
    PlugInorder(c, t);
    InorderOfTree(t);
    RemoveMiddle(Before(c), Inorder(t.l), t.i, Inorder(t.r), After(c));
  }

  lemma RemoveMiddle(b: seq<nat>, l: seq<nat>, x: nat, r: seq<nat>, a: seq<nat>)
    ensures RemoveAt(b + (l + [x] + r) + a, |b| + |l|) == b + (l + r) + a
  {
  }

  lemma AfterSwap(c: Ctx, s: Tree, i: nat, k: nat)
    requires s.Br? && s.l.Leaf? && |Before(c)| == k + 1 && NoRepeats(Inorder(Plug(c, s)))
    requires RedBlack(Plug(c, s)) && Alive(Plug(c, s)) && i in Ids(Plug(c, s)) && s.i in Ids(Plug(c, s))
    requires IndexAt(Inorder(Plug(c, s)), k) == i && IndexAt(Inorder(Plug(c, s)), k + 1) == s.i && i < NULL_INDEX
    ensures var c', t' := RenameCtx(c, i, s.i), Rename(s, i, s.i);
      && Plug(c', t') == Rename(Plug(c, s), i, s.i)
      && t'.Br? && t'.i == i && t'.l.Leaf? && Alive(t') && RedBlack(Plug(c', t'))
      && k < |Inorder(Plug(c, s))| && Remaining(c', t') == RemoveAt(Inorder(Plug(c, s)), k)
      && Ids(Plug(c', t')) == Ids(Plug(c, s))
  {
    hide Inorder, Plug, Balanced, Ids, Remaining, NoRepeats;
    var c', t', j := RenameCtx(c, i, s.i), Rename(s, i, s.i), s.i;
    RenamePlug(c, s, i, j);
    RenameColours(Plug(c, s), i, j);
    PlugAlive(c', t');
    RenameInorder(Plug(c, s), i, j);
    RemainingByPosition(c', t');
    EmptyInorder(t'.l);
    RenameBefore(c, i, j);
    RemoveRenamed(Inorder(Plug(c, s)), k);
    forall x
      ensures x in Ids(Plug(c', t')) <==> x in Ids(Plug(c, s))
    {
      RenameIds(Plug(c, s), i, j, x);
    }
  }

  lemma {:induction false} RenameBefore(c: Ctx, i: nat, j: nat)
    ensures |Before(RenameCtx(c, i, j))| == |Before(c)|
  {
    if c.In? {
      RenameBefore(c.up, i, j);
      RenameInorder(c.sib, i, j);
    }
  }

  // ----- the state after a removal

  lemma {:induction false} RenameSelf(t: Tree, i: nat)
    ensures Rename(t, i, i) == t
  {
    if t.Br? {
      RenameSelf(t.l, i);
      RenameSelf(t.r, i);
    }
  }

  lemma FreedSlot<K, V>(m: Memory<K, V>, root: nat, t: Tree, i: nat, free: Slot<Node<K, V>>)
    requires Rep(m, root, Top, t) && i !in Ids(t) && i < |m|
    ensures Rep(m[i := free], root, Top, t)
  {
    KeepTree(m, m[i := free], t, NULL_INDEX);
  }

  lemma RemovedEntries<K, V>(d: seq<Slot<Entry<K, V>>>, d': seq<Slot<Entry<K, V>>>, ids: seq<nat>, rep: nat, i: nat)
    requires Points(d, ids) && i !in ids && i < |d| && rep < |d| && d[rep].Value?
    requires |d'| == |d| && (rep != i ==> d'[i] == d[rep])
    requires forall x :: 0 <= x < |d| && x != i && x != rep ==> d'[x] == d[x]
    ensures Points(d', RenameSeq(ids, rep, i)) && Entries(d', RenameSeq(ids, rep, i)) == Entries(d, ids)
  {
    var r := RenameSeq(ids, rep, i);
    forall k | 0 <= k < |ids|
      ensures r[k] < |d| && d'[r[k]] == d[ids[k]]
    {
      assert ids[k] in ids;
    }
    assert Points(d', r);
  }

  lemma RemoveAtEntries<K, V>(d: seq<Slot<Entry<K, V>>>, ids: seq<nat>, k: nat)
    requires Points(d, ids) && k < |ids|
    ensures Points(d, RemoveAt(ids, k)) && Entries(d, RemoveAt(ids, k)) == RemoveAt(Entries(d, ids), k)
  {
    var r := RemoveAt(ids, k);
    assert forall a :: 0 <= a < |r| ==> r[a] == ids[if a < k then a else a + 1];
    assert Points(d, r);
  }

  lemma InRemoved(ids: seq<nat>, k: nat, x: nat)
    requires k < |ids| && NoRepeats(ids)
    ensures x in RemoveAt(ids, k) <==> x in ids && x != ids[k]
  {
    var r := RemoveAt(ids, k);
    if x in ids && x != ids[k] {
      var a :| 0 <= a < |ids| && ids[a] == x;
      assert r[if a < k then a else a - 1] == x;
    }
    assert forall a :: 0 <= a < |r| ==> r[a] == ids[if a < k then a else a + 1];
  }

  /** A tree of the remaining nodes, with the moved node renamed, is a valid state for the remaining
      entries. */
  lemma RemovedState<K(!new), V>(lt: (K, K) -> bool, m: Memory<K, V>, root: nat, shape: Tree, k: nat,
                                 whole: Tree, rep: nat, i: nat, m': Memory<K, V>, root': nat)
    requires ValidState(lt, m, root, |Inorder(shape)|, shape)
    requires k < |Inorder(shape)| && i == Inorder(shape)[k] && rep < |m| && i < |m| && m[rep].Value?
    requires RedBlack(whole) && Distinct(whole)
    requires Inorder(whole) == RemoveAt(Inorder(shape), k) && Ids(whole) == Ids(shape) - {i}
    requires Rep(m', root', Top, Rename(whole, rep, i))
    requires |m'| == |m| && Data(m') == Data(m)[i := Data(m)[rep]][rep := Data(m')[rep]] && Data(m')[rep].Index?
    ensures Inorder(Rename(whole, rep, i)) == RenameSeq(RemoveAt(Inorder(shape), k), rep, i)
    ensures ValidState(lt, m', root', |Inorder(shape)| - 1, Rename(whole, rep, i))
    ensures Entries(Data(m'), Inorder(Rename(whole, rep, i))) == RemoveAt(Entries(Data(m), Inorder(shape)), k)
  {
    hide Inorder, Balanced, Linked, Distinct, Ids, Entries, Points, Ascending, Rename, NoRepeats;
    var ids, d, d' := Inorder(shape), Data(m), Data(m');
    UniqueIndices(lt, m, root, |ids|, shape);
    RenameInorder(whole, rep, i);
    RemoveAtEntries(d, ids, k);
    InRemoved(ids, k, i);
    RemovedEntries(d, d', RemoveAt(ids, k), rep, i);
    AscendingRemoveAt(lt, Entries(d, ids), k);
    forall x | x in Ids(whole)
      ensures x in Inorder(whole)
    {
      AliveInorder(shape, x);
      InRemoved(ids, k, x);
    }
    AliveBySequence(whole);
    RenameColours(whole, rep, i);
    forall x | 0 <= x < |m'|
      ensures m'[x].Value? <==> x in Ids(Rename(whole, rep, i))
    {
      RenameIds(whole, rep, i, x);
      DataAt(m', x);
      DataAt(m, x);
      DataAt(m, rep);
    }
  }

  lemma KidAlive(t: Tree)
    requires t.Br? && Alive(t)
    ensures Alive(t.l) && Alive(t.r)
  {
  }

  lemma ReleasedData<K, V>(m: Memory<K, V>, i: nat, rep: nat, free: Slot<Node<K, V>>)
    requires i < |m| && rep < |m| && free.Index?
    ensures var d, d' := Data(m), Data(m[i := m[rep]][rep := free]);
            |d| == |d'| == |m| && d' == d[i := d[rep]][rep := d'[rep]] && d'[rep].Index?
  {
  }

  lemma ReleasedProper<K, V>(m: Memory<K, V>, s: set<nat>, root: nat, rep: nat, i: nat, free: Slot<Node<K, V>>)
    requires Mutual(m, s, root) && |m| < NULL_INDEX && rep in s && i !in s && i < |m| && m[i].Value?
    ensures var m1 := m[i := m[rep]][rep := free]; ProperNode(m1, i)
  {
    hide Mutual, Neighbourly;
    MutualAt(m, s, root, rep);
    Proper(m, s, root, rep);
    ProperLinks(m, s, root, rep);
    ParentIn(m, s, root, rep);
  }

  lemma NotRoot<K, V>(m: Memory<K, V>, root: nat, t: Tree, i: nat)
    requires Rep(m, root, Top, t) && i !in Ids(t) && i < |m|
    ensures root != i
  {
    RootOnTop(m, root, t);
    RootIn(t);
  }

  // ----- odds and ends of a deletion

  lemma OnlyNode<K(!new), V>(lt: (K, K) -> bool, m: Memory<K, V>, root: nat, shape: Tree, i: nat)
    requires ValidState(lt, m, root, 1, shape) && i in Inorder(shape)
    ensures i < |m| && m[i].Value? && forall x :: 0 <= x < |m| && m[x].Value? ==> x == i
  {
    hide Inorder, Ids, Balanced, Linked, Distinct, Alive;
    forall x
      ensures x in Ids(shape) <==> x in Inorder(shape)
    {
      AliveInorder(shape, x);
    }
    RepIds(m, root, Top, shape);
    assert Inorder(shape) == [Inorder(shape)[0]];
  }

  lemma EmptyState<K(!new), V>(lt: (K, K) -> bool, m: Memory<K, V>)
    requires StrictWeakOrder(lt) && |m| < NULL_INDEX && forall x :: 0 <= x < |m| ==> m[x].Index?
    ensures ValidState(lt, m, NULL_INDEX, 0, Leaf) && Inorder(Leaf) == [] && Entries(Data(m), Inorder(Leaf)) == []
  {
  }

  lemma NotAlone(shape: Tree, c: Ctx, t: Tree)
    requires Alive(shape) && NoRepeats(Inorder(shape)) && |Inorder(shape)| > 1
    requires t.Br? && Ids(Plug(c, t)) == Ids(shape)
    ensures c.Top? ==> !t.l.Leaf? || !t.r.Leaf?
  {
    AliveInorder(shape, Inorder(shape)[0]);
    AliveInorder(shape, Inorder(shape)[1]);
    var single := Br(Leaf, t.i, t.red, Leaf);
    assert Ids(Plug(Top, single)) == {t.i};
  }

  lemma SameKinds<K, V>(m: Memory<K, V>, m': Memory<K, V>)
    requires Data(m) == Data(m')
    ensures |m| == |m'| && forall x :: 0 <= x < |m| ==> m[x].Value? == m'[x].Value?
  {
    assert |Data(m)| == |m| && |Data(m')| == |m'|;
    forall x | 0 <= x < |m|
      ensures m[x].Value? == m'[x].Value?
    {
      DataAt(m, x);
      DataAt(m', x);
    }
  }

  lemma SuccessorAfter(ids: seq<nat>, k: nat, rep: nat, i: nat, successor: nat)
    requires NoRepeats(ids) && k < |ids| && ids[k] == i && successor == IndexAt(ids, k + 1)
    requires rep < NULL_INDEX && i < NULL_INDEX
    ensures (if rep != i && successor == rep then i else successor) == IndexAt(RenameSeq(RemoveAt(ids, k), rep, i), k)
  {
    var r := RemoveAt(ids, k);
    assert k < |r| ==> r[k] == ids[k + 1];
  }

  /** The entry of every index in `ids` is now found at that index, or, if it was the one that has been
      moved, at the index it was moved to. */
  ghost predicate MovesIndices<K, V>(ids: seq<nat>, d: seq<Slot<Entry<K, V>>>, d': seq<Slot<Entry<K, V>>>,
                                     from: nat, to: nat) {
    |d'| == |d| && forall x :: x in ids && x < |d| ==>
      Swap(from, to, x) < |d| && d'[Swap(from, to, x)] == d[x]
  }

  lemma NothingMoved<K, V>(ids: seq<nat>, d: seq<Slot<Entry<K, V>>>, d': seq<Slot<Entry<K, V>>>, i: nat)
    requires |ids| == 1 && |d'| == |d|
    ensures MovesIndices(RemoveAt(ids, 0), d, d', NULL_INDEX, i)
    ensures RenameSeq(RemoveAt(ids, 0), NULL_INDEX, i) == []
  {
    assert RemoveAt(ids, 0) == [];
  }

  lemma RemovedIndices<K, V>(ids: seq<nat>, k: nat, d: seq<Slot<Entry<K, V>>>, d': seq<Slot<Entry<K, V>>>,
                             rep: nat, i: nat)
    requires NoRepeats(ids) && k < |ids| && ids[k] == i && i < |d| && rep < |d| && |d'| == |d|
    requires d' == d[i := d[rep]][rep := d'[rep]]
    ensures MovesIndices(RemoveAt(ids, k), d, d', rep, i)
  {
    InRemoved(ids, k, i);
  }
}
