/**
  The shapes that a red-black tree over node indices goes through, without any memory:
  trees of indices, one-hole contexts (a context records the way from a node up to the
  root, which is what the parent links of the implementation encode), and the colour
  discipline that the two fixup loops restore.
 */
module RedBlackShape {
  import opened Products

  datatype Side = Left | Right {
    function Other(): Side { if this == Left then Right else Left }
  }

  /** `Doomed(i)` is a childless black node that still hangs in the tree while its removal is
      being compensated for: it takes part in rotations but counts as empty. */
  datatype Tree = Leaf | Doomed(i: nat) | Br(l: Tree, i: nat, red: bool, r: Tree)

  /** `In(side, up, i, red, sib)`: the hole is the `side` child of node `i`, whose other
      child is `sib`; `up` is the context of `i`. */
  datatype Ctx = Top | In(side: Side, up: Ctx, i: nat, red: bool, sib: Tree)

  function Join(side: Side, near: Tree, i: nat, red: bool, far: Tree): Tree {
    if side == Left then Br(near, i, red, far) else Br(far, i, red, near)
  }

  lemma JoinFlips(side: Side, near: Tree, i: nat, red: bool, far: Tree)
    ensures Join(side, near, i, red, far) == Join(side.Other(), far, i, red, near)
  {
  }

  function Kid(t: Tree, side: Side): Tree
    requires t.Br?
  {
    if side == Left then t.l else t.r
  }

  function Plug(c: Ctx, t: Tree): Tree
    decreases c
  {
    match c
    case Top => t
    case In(side, up, i, red, sib) => Plug(up, Join(side, t, i, red, sib))
  }

  /** The context `inner` placed inside the hole of `outer`. */
  function Compose(outer: Ctx, inner: Ctx): Ctx
    decreases inner
  {
    match inner
    case Top => outer
    case In(side, up, i, red, sib) => In(side, Compose(outer, up), i, red, sib)
  }

  function Depth(c: Ctx): nat { if c.Top? then 0 else 1 + Depth(c.up) }

  function Height(t: Tree): nat {
    if t.Br? then 1 + (if Height(t.l) > Height(t.r) then Height(t.l) else Height(t.r)) else 0
  }

  // ----- indices and in-order sequences

  function Ids(t: Tree): set<nat> {
    match t
    case Leaf => {}
    case Doomed(i) => {i}
    case Br(l, i, _, r) => Ids(l) + {i} + Ids(r)
  }

  function CtxIds(c: Ctx): set<nat> {
    if c.Top? then {} else CtxIds(c.up) + {c.i} + Ids(c.sib)
  }

  /** The indices in key order; doomed nodes no longer count. */
  function Inorder(t: Tree): seq<nat> {
    if t.Br? then Inorder(t.l) + [t.i] + Inorder(t.r) else []
  }

  function Before(c: Ctx): seq<nat> {
    if c.Top? then []
    else if c.side == Left then Before(c.up)
    else Before(c.up) + (Inorder(c.sib) + [c.i])
  }

  function After(c: Ctx): seq<nat> {
    if c.Top? then []
    else if c.side == Right then After(c.up)
    else ([c.i] + Inorder(c.sib)) + After(c.up)
  }

  /** Every index occurs once. */
  ghost predicate Distinct(t: Tree) {
    t.Br? ==> t.i !in Ids(t.l) && t.i !in Ids(t.r) && Ids(t.l) !! Ids(t.r) && Distinct(t.l) && Distinct(t.r)
  }

  ghost predicate CtxDistinct(c: Ctx) {
    c.In? ==> c.i !in Ids(c.sib) && c.i !in CtxIds(c.up) && Ids(c.sib) !! CtxIds(c.up)
              && Distinct(c.sib) && CtxDistinct(c.up)
  }

  lemma KidIds(t: Tree, side: Side)
    requires t.Br?
    ensures Ids(Kid(t, side)) <= Ids(t)
  {
  }

  /** No node is doomed. */
  ghost predicate Alive(t: Tree) { !t.Doomed? && (t.Br? ==> Alive(t.l) && Alive(t.r)) }

  /** Every index occurs once in the tree with `t` in the hole of `c`. */
  ghost predicate AllDistinct(c: Ctx, t: Tree) {
    Distinct(t) && CtxDistinct(c) && Ids(t) !! CtxIds(c)
  }

  lemma JoinDistinct(side: Side, near: Tree, i: nat, red: bool, far: Tree)
    ensures Ids(Join(side, near, i, red, far)) == Ids(near) + {i} + Ids(far)
    ensures Distinct(Join(side, near, i, red, far)) <==>
            i !in Ids(near) && i !in Ids(far) && Ids(near) !! Ids(far) && Distinct(near) && Distinct(far)
  {
  }

  lemma RotatedDistinct(c: Ctx, side: Side, a: Tree, x: nat, xr: bool, b: Tree, y: nat, yr: bool, d: Tree)
    requires AllDistinct(c, Join(side, a, x, xr, Join(side, b, y, yr, d)))
    ensures AllDistinct(c, Join(side, Join(side, a, x, xr, b), y, yr, d))
  {
    hide Ids, Distinct, CtxIds, CtxDistinct, Join;
    var under, turned := Join(side, b, y, yr, d), Join(side, a, x, xr, b);
    JoinDistinct(side, b, y, yr, d);
    JoinDistinct(side, a, x, xr, under);
    JoinDistinct(side, a, x, xr, b);
    JoinDistinct(side, turned, y, yr, d);
  }

  lemma {:induction false} PlugIsTree(c: Ctx, t: Tree)
    requires c.In? || t.Br?
    ensures Plug(c, t).Br?
    decreases c
  {
    if c.In? {
      PlugIsTree(c.up, Join(c.side, t, c.i, c.red, c.sib));
    }
  }

  lemma {:induction false} PlugIds(c: Ctx, t: Tree)
    ensures Ids(Plug(c, t)) == Ids(t) + CtxIds(c)
    decreases c
  {
    if c.In? {
      PlugIds(c.up, Join(c.side, t, c.i, c.red, c.sib));
    }
  }

  lemma {:induction false} PlugInorder(c: Ctx, t: Tree)
    ensures Inorder(Plug(c, t)) == Before(c) + Inorder(t) + After(c)
    decreases c
  {
    hide Inorder, Join;
    if c.In? {
      PlugInorder(c.up, Join(c.side, t, c.i, c.red, c.sib));
      JoinInorder(c.side, t, c.i, c.red, c.sib);
      Regroup(Before(c.up), Inorder(c.sib) + [c.i], Inorder(t), [c.i] + Inorder(c.sib), After(c.up));
    }
  }

  lemma JoinInorder(side: Side, near: Tree, i: nat, red: bool, far: Tree)
    ensures Inorder(Join(side, near, i, red, far)) ==
            if side == Left then Inorder(near) + ([i] + Inorder(far)) else (Inorder(far) + [i]) + Inorder(near)
  {
  }

  lemma Regroup(b: seq<nat>, x: seq<nat>, m: seq<nat>, y: seq<nat>, a: seq<nat>)
    ensures b + (x + m) + a == (b + x) + m + a && b + (m + y) + a == b + m + (y + a)
  {
  }

  /** Replacing a subtree by one with the same nodes in the same order changes neither for the whole. */
  lemma PlugSame(c: Ctx, t: Tree, t': Tree)
    requires Inorder(t) == Inorder(t') && Ids(t) == Ids(t')
    ensures Inorder(Plug(c, t)) == Inorder(Plug(c, t')) && Ids(Plug(c, t)) == Ids(Plug(c, t'))
  {
    PlugInorder(c, t);
    PlugInorder(c, t');
    PlugIds(c, t);
    PlugIds(c, t');
  }

  lemma RotatedSame(side: Side, a: Tree, x: nat, xr: bool, b: Tree, y: nat, yr: bool, d: Tree)
    ensures var before := Join(side, a, x, xr, Join(side, b, y, yr, d));
            var after := Join(side, Join(side, a, x, xr, b), y, yr, d);
            Inorder(before) == Inorder(after) && Ids(before) == Ids(after)
  {
    hide Inorder, Join, Ids, Distinct;
    var under, turned := Join(side, b, y, yr, d), Join(side, a, x, xr, b);
    JoinInorder(side, b, y, yr, d);
    JoinInorder(side, a, x, xr, under);
    JoinInorder(side, a, x, xr, b);
    JoinInorder(side, turned, y, yr, d);
    Regroup([], Inorder(a) + [x], Inorder(b), [y] + Inorder(d), []);
    Regroup([], Inorder(d) + [y], Inorder(b), [x] + Inorder(a), []);
    JoinDistinct(side, b, y, yr, d);
    JoinDistinct(side, a, x, xr, under);
    JoinDistinct(side, a, x, xr, b);
    JoinDistinct(side, turned, y, yr, d);
  }

  /** Colours, and the arrangement inside the children, do not matter for the nodes and their order. */
  lemma JoinSame(side: Side, near: Tree, near': Tree, i: nat, red: bool, red': bool, far: Tree, far': Tree)
    requires Inorder(near) == Inorder(near') && Ids(near) == Ids(near')
    requires Inorder(far) == Inorder(far') && Ids(far) == Ids(far')
    ensures Inorder(Join(side, near, i, red, far)) == Inorder(Join(side, near', i, red', far'))
    ensures Ids(Join(side, near, i, red, far)) == Ids(Join(side, near', i, red', far'))
  {
  }

  lemma BlackenSame(t: Tree)
    ensures Inorder(Blacken(t)) == Inorder(t) && Ids(Blacken(t)) == Ids(t)
  {
  }

  lemma {:induction false} PlugCompose(outer: Ctx, inner: Ctx, t: Tree)
    ensures Plug(Compose(outer, inner), t) == Plug(outer, Plug(inner, t))
    decreases inner
  {
    if inner.In? {
      PlugCompose(outer, inner.up, Join(inner.side, t, inner.i, inner.red, inner.sib));
    }
  }

  lemma {:induction false} PlugHeight(c: Ctx, t: Tree)
    ensures Depth(c) + Height(t) <= Height(Plug(c, t))
    decreases c
  {
    if c.In? {
      PlugHeight(c.up, Join(c.side, t, c.i, c.red, c.sib));
    }
  }

  lemma {:induction false} InorderIds(t: Tree, i: nat)
    ensures i in Inorder(t) ==> i in Ids(t)
  {
    if t.Br? {
      InorderIds(t.l, i);
      InorderIds(t.r, i);
    }
  }

  lemma {:induction false} AliveInorder(t: Tree, i: nat)
    requires Alive(t)
    ensures i in Ids(t) <==> i in Inorder(t)
  {
    if t.Br? {
      AliveInorder(t.l, i);
      AliveInorder(t.r, i);
    }
  }

  /** A tree is alive when its in-order sequence misses none of its indices. */
  lemma {:induction false} AliveBySequence(t: Tree)
    requires Distinct(t) && forall i :: i in Ids(t) ==> i in Inorder(t)
    ensures Alive(t)
  {
    if t.Br? {
      forall i | i in Ids(t)
        ensures (i in Ids(t.l) ==> i in Inorder(t.l)) && (i in Ids(t.r) ==> i in Inorder(t.r))
      {
        InorderIds(t.l, i);
        InorderIds(t.r, i);
      }
      AliveBySequence(t.l);
      AliveBySequence(t.r);
    } else {
      assert t.Doomed? ==> t.i in Ids(t);
    }
  }

  lemma {:induction false} InorderSize(t: Tree)
    requires Alive(t) && Distinct(t)
    ensures |Ids(t)| == |Inorder(t)|
  {
    if t.Br? {
      InorderSize(t.l);
      InorderSize(t.r);
      assert |Ids(t.l) + {t.i}| == |Ids(t.l)| + 1;
    }
  }

  /** The context in which index `i` occurs in `t`. */
  lemma {:induction false} Locate(t: Tree, i: nat) returns (c: Ctx, s: Tree)
    requires i in Ids(t)
    ensures Plug(c, s) == t
    ensures s == Doomed(i) || (s.Br? && s.i == i)
  {
    match t
    case Doomed(_) =>
      c, s := Top, t;
    case Br(l, j, red, r) =>
      if i == j {
        c, s := Top, t;
      } else {
        var side := if i in Ids(l) then Left else Right;
        var d, u := Locate(Kid(t, side), i);
        c, s := Compose(In(side, Top, j, red, Kid(t, side.Other())), d), u;
        PlugCompose(In(side, Top, j, red, Kid(t, side.Other())), d, u);
      }
  }

  // ----- the colour discipline

  predicate IsRed(t: Tree) { t.Br? && t.red }

  predicate HoleParentRed(c: Ctx) { c.In? && c.red }

  function Blacken(t: Tree): Tree { if t.Br? then t.(red := false) else t }

  function BlackUnit(red: bool): nat { if red then 0 else 1 }

  function BlackHeight(t: Tree): nat {
    if t.Br? then BlackHeight(t.l) + BlackUnit(t.red) else 0
  }

  /** No red node has a red child and all paths down hold the same number of black nodes. */
  ghost predicate Balanced(t: Tree) {
    t.Br? ==>
      Balanced(t.l) && Balanced(t.r) && BlackHeight(t.l) == BlackHeight(t.r)
      && (t.red ==> !IsRed(t.l) && !IsRed(t.r))
  }

  ghost predicate RedBlack(t: Tree) { Balanced(t) && !IsRed(t) }

  /** The context is a red-black tree as soon as a balanced tree of black height `h` fills its
      hole, setting aside the colours at the hole itself. */
  ghost predicate Frame(c: Ctx, h: int) {
    c.In? ==>
      Balanced(c.sib) && BlackHeight(c.sib) == h
      && (c.red ==> !IsRed(c.sib) && c.up.In? && !c.up.red)
      && Frame(c.up, h + BlackUnit(c.red))
  }

  lemma {:induction false} PlugRedBlack(c: Ctx, t: Tree)
    requires Balanced(t) && Frame(c, BlackHeight(t))
    requires IsRed(t) ==> c.In? && !c.red
    ensures RedBlack(Plug(c, t))
    decreases c
  {
    if c.In? {
      PlugRedBlack(c.up, Join(c.side, t, c.i, c.red, c.sib));
    }
  }

  lemma {:induction false} UnplugRedBlack(c: Ctx, t: Tree)
    requires RedBlack(Plug(c, t))
    ensures Balanced(t) && Frame(c, BlackHeight(t))
    ensures IsRed(t) ==> c.In? && !c.red
    decreases c
  {
    if c.In? {
      UnplugRedBlack(c.up, Join(c.side, t, c.i, c.red, c.sib));
    }
  }

  // ----- the steps of the fixup after an insertion

  lemma RecoloredSame(c: Ctx, t: Tree, red: bool)
    requires t.Br?
    ensures SameNodes(c, t, c, t.(red := red))
  {
    PlugSame(c, t, t.(red := red));
  }

  /** Two views of trees with the same nodes in the same order. */
  ghost predicate SameNodes(c: Ctx, t: Tree, c': Ctx, t': Tree) {
    Inorder(Plug(c, t)) == Inorder(Plug(c', t')) && Ids(Plug(c, t)) == Ids(Plug(c', t'))
  }

  /** Everything is in order except that the red node at hand may hang from a red node. */
  ghost predicate RedIntruder(c: Ctx, t: Tree) {
    IsRed(t) && Balanced(t) && Frame(c, BlackHeight(t))
  }

  lemma NewLeafIntrudes(c: Ctx, i: nat)
    requires Frame(c, 0)
    ensures RedIntruder(c, Br(Leaf, i, true, Leaf))
  {
  }

  lemma PlaceFrame(c: Ctx)
    requires RedBlack(Plug(c, Leaf))
    ensures Frame(c, 0)
  {
    UnplugRedBlack(c, Leaf);
  }

  lemma RedParentHangs(c: Ctx, t: Tree)
    requires RedIntruder(c, t) && HoleParentRed(c)
    ensures c.up.In? && !c.up.red
  {
  }

  lemma IntruderSettled(c: Ctx, t: Tree)
    requires RedIntruder(c, t) && !HoleParentRed(c)
    ensures Plug(c, t).Br? && RedBlack(Blacken(Plug(c, t))) && Plug(Top, Plug(c, t)) == Plug(c, t)
    ensures Plug(Top, Blacken(Plug(c, t))) == Blacken(Plug(c, t))
  {
    PlugIsTree(c, t);
    if c.In? {
      PlugRedBlack(c, t);
    }
  }

  /** Parent and uncle turn black, the grandparent turns red and becomes the node at hand. */
  function Lifted(c: Ctx, t: Tree): Tree
    requires c.In? && c.up.In?
  {
    Join(c.up.side, Join(c.side, t, c.i, false, c.sib), c.up.i, true, Blacken(c.up.sib))
  }

  lemma LiftedKeeps(c: Ctx, t: Tree)
    requires RedIntruder(c, t) && HoleParentRed(c) && IsRed(c.up.sib)
    ensures RedIntruder(c.up.up, Lifted(c, t)) && SameNodes(c, t, c.up.up, Lifted(c, t))
  {
    hide Inorder, Ids, Plug;
    var g, h := c.up, BlackHeight(t);
    assert Frame(g, h);
    assert Frame(g.up, h + 1);
    assert Balanced(Join(c.side, t, c.i, false, c.sib)) && Balanced(Blacken(g.sib));
    LiftedSame(c, t);
  }

  lemma LiftedSame(c: Ctx, t: Tree)
    requires c.In? && c.up.In?
    ensures SameNodes(c, t, c.up.up, Lifted(c, t))
  {
    hide Inorder, Ids, Join, Plug;
    var g := c.up;
    PlugStep(c, t);
    PlugStep(g, Join(c.side, t, c.i, c.red, c.sib));
    BlackenSame(g.sib);
    JoinSame(c.side, t, t, c.i, c.red, false, c.sib, c.sib);
    JoinSame(g.side, Join(c.side, t, c.i, c.red, c.sib), Join(c.side, t, c.i, false, c.sib), g.i, g.red, true, g.sib,
             Blacken(g.sib));
    PlugSame(g.up, Join(g.side, Join(c.side, t, c.i, c.red, c.sib), g.i, g.red, g.sib), Lifted(c, t));
  }

  /** An inner grandchild is rotated to the outside; its former parent is the node at hand. */
  lemma InnerKeeps(c: Ctx, t: Tree, b: Tree, d: Tree)
    requires RedIntruder(c, t) && HoleParentRed(c) && c.side == c.up.side.Other()
    requires t == Join(c.up.side, b, t.i, true, d)
    ensures var c', t' := In(c.up.side, c.up, t.i, true, d), Join(c.up.side, c.sib, c.i, true, b);
            RedIntruder(c', t') && SameNodes(c, t, c', t')
  {
    var s := c.up.side;
    RotatedSame(s, c.sib, c.i, true, b, t.i, true, d);
    PlugSame(c.up, Join(s, c.sib, c.i, true, t), Join(s, Join(s, c.sib, c.i, true, b), t.i, true, d));
  }

  /** The red parent of an outer grandchild takes the place of the black grandparent. */
  function OuterCtx(c: Ctx): Ctx
    requires c.In? && c.up.In?
  {
    In(c.side, c.up.up, c.i, false, Join(c.side, c.sib, c.up.i, true, c.up.sib))
  }

  lemma OuterKeeps(c: Ctx, t: Tree)
    requires RedIntruder(c, t) && HoleParentRed(c) && c.side == c.up.side && !IsRed(c.up.sib)
    ensures RedIntruder(OuterCtx(c), t) && SameNodes(c, t, OuterCtx(c), t)
  {
    var s, g, h := c.side.Other(), c.up, BlackHeight(t);
    assert Frame(g, h);
    assert Frame(g.up, h + 1);
    assert Balanced(OuterCtx(c).sib);
    RotatedSame(s, g.sib, g.i, g.red, c.sib, c.i, true, t);
    RotatedSame(s, g.sib, g.i, true, c.sib, c.i, false, t);
    PlugSame(g.up, Join(c.side, Join(c.side, t, c.i, true, c.sib), g.i, g.red, g.sib),
             Join(c.side, t, c.i, false, OuterCtx(c).sib));
  }

  // ----- the steps of the fixup after a deletion

  /** The subtree at hand holds one black node too few for its context; its root may also be a
      red node with a red child, which blackening it repairs. */
  ghost predicate Deficit(c: Ctx, t: Tree) {
    !t.Leaf? && (t.Doomed? ==> c.In?) && Balanced(Blacken(t)) && Frame(c, BlackHeight(t) + 1)
  }

  lemma DeficitSibling(c: Ctx, t: Tree)
    requires Deficit(c, t) && c.In?
    ensures c.sib.Br? && (IsRed(c.sib) ==> c.sib.l.Br? && c.sib.r.Br? && !IsRed(c.sib.l) && !IsRed(c.sib.r))
  {
    assert Balanced(c.sib) && BlackHeight(c.sib) == BlackHeight(t) + 1;
  }

  /** A black parent has been rotated below a red sibling: the new sibling is black. */
  function UnderRedSibling(c: Ctx): Ctx
    requires c.In? && c.sib.Br?
  {
    In(c.side, In(c.side, c.up, c.sib.i, false, Kid(c.sib, c.side.Other())), c.i, true, Kid(c.sib, c.side))
  }

  lemma RedSiblingKeeps(c: Ctx, t: Tree)
    requires Deficit(c, t) && c.In? && IsRed(c.sib)
    ensures Deficit(UnderRedSibling(c), t) && SameNodes(c, t, UnderRedSibling(c), t)
    ensures !IsRed(UnderRedSibling(c).sib)
  {
    var s, near, far := c.sib, Kid(c.sib, c.side), Kid(c.sib, c.side.Other());
    assert Balanced(s) && BlackHeight(s) == BlackHeight(t) + 1;
    RotatedSame(c.side, t, c.i, c.red, near, s.i, s.red, far);
    PlugSame(c.up, Join(c.side, t, c.i, c.red, s), Join(c.side, Join(c.side, t, c.i, c.red, near), s.i, s.red, far));
    PlugSame(c.up, Join(c.side, Join(c.side, t, c.i, c.red, near), s.i, s.red, far),
             Join(c.side, Join(c.side, t, c.i, true, near), s.i, false, far));
  }

  /** A sibling with black children turns red: the parent's whole subtree is now short. */
  function WithRedSibling(c: Ctx, t: Tree): Tree
    requires c.In? && c.sib.Br?
  {
    Join(c.side, t, c.i, c.red, c.sib.(red := true))
  }

  lemma BlackNephewsKeep(c: Ctx, t: Tree)
    requires Deficit(c, t) && !IsRed(t) && c.In? && c.sib.Br? && !c.sib.red && !IsRed(c.sib.l) && !IsRed(c.sib.r)
    ensures Deficit(c.up, WithRedSibling(c, t)) && SameNodes(c, t, c.up, WithRedSibling(c, t))
    ensures IsRed(WithRedSibling(c, t)) == c.red && WithRedSibling(c, t).i == c.i
  {
    hide Inorder, Ids, Plug;
    assert Balanced(c.sib) && Balanced(c.sib.(red := true)) && Balanced(t);
    WithRedSiblingSame(c, t);
  }

  lemma WithRedSiblingSame(c: Ctx, t: Tree)
    requires c.In? && c.sib.Br?
    ensures SameNodes(c, t, c.up, WithRedSibling(c, t))
  {
    hide Plug;
    PlugStep(c, t);
    PlugSame(c.up, Join(c.side, t, c.i, c.red, c.sib), WithRedSibling(c, t));
  }

  lemma PlugStep(c: Ctx, t: Tree)
    requires c.In?
    ensures Plug(c, t) == Plug(c.up, Join(c.side, t, c.i, c.red, c.sib))
  {
  }

  /** The red near nephew has been rotated above its parent: the far nephew is red. */
  function PastNearNephew(c: Ctx): Ctx
    requires c.In? && c.sib.Br? && Kid(c.sib, c.side).Br?
  {
    var near := Kid(c.sib, c.side);
    c.(sib := Join(c.side, Kid(near, c.side), near.i, false,
                   Join(c.side, Kid(near, c.side.Other()), c.sib.i, true, Kid(c.sib, c.side.Other()))))
  }

  lemma NearNephewKeeps(c: Ctx, t: Tree)
    requires Deficit(c, t) && c.In? && c.sib.Br? && !c.sib.red
    requires IsRed(Kid(c.sib, c.side)) && !IsRed(Kid(c.sib, c.side.Other()))
    ensures Deficit(PastNearNephew(c), t) && SameNodes(c, t, PastNearNephew(c), t)
  {
    hide Inorder, Ids, Plug, Balanced, Frame;
    FrameSibling(c, BlackHeight(t) + 1);
    NearNephewBalanced(c);
    FrameOf(c, PastNearNephew(c), BlackHeight(t) + 1);
    NearNephewSame(c, t);
  }

  lemma FrameSibling(c: Ctx, h: int)
    requires c.In? && Frame(c, h)
    ensures Balanced(c.sib) && BlackHeight(c.sib) == h
  {
  }

  /** A frame does not depend on how its first sibling is arranged. */
  lemma FrameOf(c: Ctx, c': Ctx, h: int)
    requires c.In? && Frame(c, h) && c'.In? && c'.up == c.up && c'.red == c.red
    requires Balanced(c'.sib) && BlackHeight(c'.sib) == h && (c.red ==> !IsRed(c'.sib))
    ensures Frame(c', h)
  {
  }

  lemma NearNephewBalanced(c: Ctx)
    requires c.In? && c.sib.Br? && !c.sib.red && Balanced(c.sib)
    requires IsRed(Kid(c.sib, c.side)) && !IsRed(Kid(c.sib, c.side.Other()))
    ensures var s := PastNearNephew(c).sib;
            Balanced(s) && BlackHeight(s) == BlackHeight(c.sib) && !IsRed(s)
  {
    var s, side := c.sib, c.side;
    var near, far := Kid(s, side), Kid(s, side.Other());
    assert Balanced(near) && Balanced(far) && BlackHeight(near) == BlackHeight(far);
    var outer := Join(side, Kid(near, side.Other()), s.i, true, far);
    assert Balanced(outer) && BlackHeight(outer) == BlackHeight(far);
    assert PastNearNephew(c).sib == Join(side, Kid(near, side), near.i, false, outer);
  }

  lemma NearNephewSame(c: Ctx, t: Tree)
    requires c.In? && c.sib.Br? && Kid(c.sib, c.side).Br?
    ensures SameNodes(c, t, PastNearNephew(c), t)
  {
    hide Inorder, Ids, Plug, Balanced;
    var s, side := c.sib, c.side;
    var near, far := Kid(s, side), Kid(s, side.Other());
    var inner, outer := Kid(near, side.Other()), Kid(near, side);
    assert s == Join(side.Other(), far, s.i, s.red, Join(side.Other(), inner, near.i, near.red, outer));
    RotatedSame(side.Other(), far, s.i, s.red, inner, near.i, near.red, outer);
    JoinSame(side.Other(), far, far, s.i, s.red, true, inner, inner);
    var s' := PastNearNephew(c).sib;
    assert s' == Join(side.Other(), Join(side.Other(), far, s.i, true, inner), near.i, false, outer);
    JoinSame(side.Other(), Join(side.Other(), far, s.i, s.red, inner), Join(side.Other(), far, s.i, true, inner),
             near.i, near.red, false, outer, outer);
    JoinSame(side, t, t, c.i, c.red, c.red, s, s');
    PlugStep(c, t);
    PlugStep(PastNearNephew(c), t);
    PlugSame(c.up, Join(side, t, c.i, c.red, s), Join(side, t, c.i, c.red, s'));
  }

  lemma NearNephewTurns(c: Ctx)
    requires c.In? && c.sib.Br? && Kid(c.sib, c.side).Br?
    ensures var s := PastNearNephew(c).sib;
            s.Br? && !s.red && s.i == Kid(c.sib, c.side).i && IsRed(Kid(s, c.side.Other()))
  {
  }

  /** The red far nephew pays for the missing black node. */
  function Settled(c: Ctx, t: Tree): Tree
    requires c.In? && c.sib.Br?
  {
    Join(c.side, Join(c.side, t, c.i, false, Kid(c.sib, c.side)), c.sib.i, c.red,
         Blacken(Kid(c.sib, c.side.Other())))
  }

  lemma FarNephewSettles(c: Ctx, t: Tree)
    requires Deficit(c, t) && !IsRed(t) && c.In? && c.sib.Br? && !c.sib.red && IsRed(Kid(c.sib, c.side.Other()))
    ensures var whole := Plug(c.up, Settled(c, t));
            whole.Br? && Deficit(Top, whole) && SameNodes(c, t, Top, whole)
    ensures Settled(c, t).Br?
  {
    hide Inorder, Ids, Plug;
    var s, near, far := c.sib, Kid(c.sib, c.side), Kid(c.sib, c.side.Other());
    assert Balanced(s) && Balanced(near) && Balanced(far);
    assert Balanced(Join(c.side, t, c.i, false, near)) && Balanced(Blacken(far));
    SettledSame(c, t);
    PlugRedBlack(c.up, Settled(c, t));
    PlugIsTree(c.up, Settled(c, t));
  }

  lemma SettledSame(c: Ctx, t: Tree)
    requires c.In? && c.sib.Br?
    ensures SameNodes(c, t, Top, Plug(c.up, Settled(c, t)))
  {
    hide Inorder, Ids, Balanced;
    var s, near, far := c.sib, Kid(c.sib, c.side), Kid(c.sib, c.side.Other());
    RotatedSame(c.side, t, c.i, c.red, near, s.i, s.red, far);
    BlackenSame(far);
    JoinSame(c.side, t, t, c.i, c.red, false, near, near);
    JoinSame(c.side, Join(c.side, t, c.i, c.red, near), Join(c.side, t, c.i, false, near), s.i, s.red, c.red, far,
             Blacken(far));
    PlugSame(c.up, Join(c.side, t, c.i, c.red, s), Settled(c, t));
  }

  lemma DeficitSettled(c: Ctx, t: Tree)
    requires Deficit(c, t) && (c.Top? || IsRed(t))
    ensures t.Br? && RedBlack(Plug(c, Blacken(t))) && SameNodes(c, t, Top, Plug(c, Blacken(t)))
  {
    PlugRedBlack(c, Blacken(t));
    RecoloredSame(c, t, false);
  }

  // ----- where the fixup after a deletion starts

  /** The in-order sequence that is left when the root of `t` is taken out. */
  function Remaining(c: Ctx, t: Tree): seq<nat>
    requires t.Br?
  {
    Before(c) + (Inorder(t.l) + Inorder(t.r)) + After(c)
  }

  /** A node with one child is black, and putting the child in its place leaves a deficit. */
  lemma OnlyChildDeficit(c: Ctx, side: Side, x: Tree, i: nat, red: bool)
    requires RedBlack(Plug(c, Join(side, x, i, red, Leaf))) && x.Br?
    requires AllDistinct(c, Join(side, x, i, red, Leaf))
    ensures !red && Deficit(c, x)
    ensures Inorder(Plug(c, x)) == Remaining(c, Join(side, x, i, red, Leaf))
    ensures Ids(Plug(c, x)) == Ids(Plug(c, Join(side, x, i, red, Leaf))) - {i}
  {
    var t := Join(side, x, i, red, Leaf);
    UnplugRedBlack(c, t);
    assert BlackHeight(Leaf) == 0;
    PlugInorder(c, x);
    assert Inorder(t.l) + Inorder(t.r) == Inorder(x);
    PlugIds(c, x);
    PlugIds(c, t);
  }

  /** A black node without children leaves a deficit where it still hangs. */
  lemma ChildlessDeficit(c: Ctx, t: Tree)
    requires t.Br? && t.l.Leaf? && t.r.Leaf? && c.In? && RedBlack(Plug(c, t))
    ensures !t.red ==> Deficit(c, Doomed(t.i))
    ensures t.red ==> RedBlack(Plug(c, Leaf))
  {
    UnplugRedBlack(c, t);
    assert BlackHeight(Leaf) == 0;
    if t.red {
      PlugRedBlack(c, Leaf);
    }
  }

  lemma DoomedNodes(c: Ctx, t: Tree)
    requires t.Br? && t.l.Leaf? && t.r.Leaf?
    ensures Inorder(Plug(c, Doomed(t.i))) == Remaining(c, t) == Inorder(Plug(c, Leaf))
    ensures Ids(Plug(c, Doomed(t.i))) == Ids(Plug(c, t))
  {
    PlugInorder(c, Doomed(t.i));
    PlugInorder(c, Leaf);
    PlugIds(c, Doomed(t.i));
    PlugIds(c, t);
    assert Inorder(t.l) + Inorder(t.r) == [];
  }

  lemma OutsideCtx(c: Ctx, t: Tree)
    requires AllDistinct(c, t) && !t.Leaf?
    ensures t.i !in CtxIds(c)
  {
  }

  lemma RootInorder(t: Tree)
    ensures t.Br? ==> t.i in Inorder(t)
  {
  }

  /** After the fixup the doomed node is found doomed, and below some other node. */
  lemma LocateDoomed(whole: Tree, c0: Ctx, i: nat) returns (c: Ctx)
    requires SameNodes(c0, Doomed(i), Top, whole) && c0.In? && i !in CtxIds(c0) && RedBlack(whole)
    ensures Plug(c, Doomed(i)) == whole && c.In? && RedBlack(Plug(c, Leaf))
  {
    PlugIds(c0, Doomed(i));
    PlugInorder(c0, Doomed(i));
    assert i in Ids(Doomed(i));
    var s;
    c, s := Locate(whole, i);
    CtxInorder(c0, i);
    PlugInorder(c, s);
    assert i !in Inorder(whole) && (i in Inorder(s) ==> i in Inorder(whole));
    RootInorder(s);
    assert c0.i in CtxIds(c0) && c0.i in Ids(whole);
    UnplugRedBlack(c, s);
    PlugRedBlack(c, Leaf);
  }

  lemma {:induction false} CtxInorder(c: Ctx, i: nat)
    requires i !in CtxIds(c)
    ensures i !in Before(c) && i !in After(c)
  {
    if c.In? {
      InorderIds(c.sib, i);
      CtxInorder(c.up, i);
    }
  }

  lemma CutNodes(c: Ctx, t: Tree, i: nat)
    requires AllDistinct(c, t) && (t == Doomed(i) || (t.Br? && t.i == i && t.l.Leaf? && t.r.Leaf?))
    ensures Ids(Plug(c, Leaf)) == Ids(Plug(c, t)) - {i}
    ensures t.Doomed? ==> Inorder(Plug(c, Leaf)) == Inorder(Plug(c, t))
  {
    PlugIds(c, Leaf);
    PlugIds(c, t);
    PlugInorder(c, Leaf);
    PlugInorder(c, t);
  }

  // ----- logarithmic height

  lemma {:induction false} BalancedHeight(t: Tree)
    requires Balanced(t)
    ensures Height(t) <= 2 * BlackHeight(t) + (if IsRed(t) then 1 else 0)
    ensures Pow2(BlackHeight(t)) <= |Inorder(t)| + 1
  {
    if t.Br? {
      BalancedHeight(t.l);
      BalancedHeight(t.r);
    }
  }

  lemma SquareMonotone(p: nat, q: nat)
    requires p <= q
    ensures p * p <= q * q
  {
    assert p * p <= p * q;
    assert p * q <= q * q;
  }

  /** A path down a red-black tree of n nodes has at most 2 * log2(n + 1) nodes. */
  lemma PathIsLogarithmic(c: Ctx, t: Tree)
    requires RedBlack(Plug(c, t))
    ensures var n := |Inorder(Plug(c, t))|; Pow2(Depth(c) + Height(t)) <= (n + 1) * (n + 1)
  {
    var whole, path := Plug(c, t), Depth(c) + Height(t);
    PlugHeight(c, t);
    BalancedHeight(whole);
    var b := BlackHeight(whole);
    Pow2Monotone(path, b + b);
    Pow2Sum(b, b);
    SquareMonotone(Pow2(b), |Inorder(whole)| + 1);
  }

  /** A search that ends at `t` has looked at the nodes above it and perhaps at its root. */
  lemma StepsAreLogarithmic(c: Ctx, t: Tree, steps: nat)
    requires RedBlack(Plug(c, t)) && steps <= Depth(c) + if t.Br? then 1 else 0
    ensures var n := |Inorder(Plug(c, t))|; Pow2(steps) <= (n + 1) * (n + 1)
  {
    hide Pow2, Plug, Inorder, RedBlack;
    PathIsLogarithmic(c, t);
    Pow2Monotone(steps, Depth(c) + Height(t));
  }
}
