/**
  How the links stored in the nodes of a storage represent a tree, seen from any of its nodes.
 */
module RedBlackMemory {
  import opened IndexStorage
  import opened RedBlackShape
  import opened SortedEntries

  datatype Node<K, V> = Node(key: K, value: V, left: nat, right: nat, parent: nat, red: bool) {
    function Child(side: Side): nat { if side == Left then left else right }
    function WithChild(side: Side, i: nat): Node<K, V> {
      if side == Left then this.(left := i) else this.(right := i)
    }
  }

  type Memory<K, V> = seq<Slot<Node<K, V>>>

  function RootOf(t: Tree): nat { if t.Leaf? then NULL_INDEX else t.i }

  /** The index of the node that the hole hangs from. */
  function HoleParent(c: Ctx): nat { if c.Top? then NULL_INDEX else c.i }

  /** The root of the whole tree when node `i` fills the hole. */
  function RootAbove(c: Ctx, i: nat): nat { if c.Top? then i else RootAbove(c.up, c.i) }

  /** Node `i` has the given links, `near` being its child on `side` and `far` the other one. */
  ghost predicate Holds<K, V>(m: Memory<K, V>, side: Side, i: nat, near: nat, far: nat, parent: nat, red: bool) {
    i < |m| && m[i].Value? && m[i].v.Child(side) == near && m[i].v.Child(side.Other()) == far
    && m[i].v.parent == parent && m[i].v.red == red
  }

  ghost predicate Linked<K, V>(m: Memory<K, V>, t: Tree, parent: nat) {
    match t
    case Leaf => true
    case Doomed(i) => Holds(m, Left, i, NULL_INDEX, NULL_INDEX, parent, false)
    case Br(l, i, red, r) =>
      Holds(m, Left, i, RootOf(l), RootOf(r), parent, red) && Linked(m, l, i) && Linked(m, r, i)
  }

  ghost predicate CtxLinked<K, V>(m: Memory<K, V>, c: Ctx, hole: nat) {
    c.In? ==>
      Holds(m, c.side, c.i, hole, RootOf(c.sib), HoleParent(c.up), c.red)
      && Linked(m, c.sib, c.i) && CtxLinked(m, c.up, c.i)
  }

  /** The memory holds the tree `Plug(c, t)`; `c` and `t` say which of its nodes is looked at. */
  ghost predicate Rep<K, V>(m: Memory<K, V>, root: nat, c: Ctx, t: Tree) {
    && |m| < NULL_INDEX && AllDistinct(c, t)
    && Linked(m, t, HoleParent(c)) && CtxLinked(m, c, RootOf(t)) && root == RootAbove(c, RootOf(t))
  }

  function SlotData<K, V>(s: Slot<Node<K, V>>): Slot<Entry<K, V>> {
    if s.Index? then Index(s.next) else Value(Entry(s.v.key, s.v.value))
  }

  /** What the slots hold apart from links and colours: which are free, and the keys and values. */
  function Data<K, V>(m: Memory<K, V>): (d: seq<Slot<Entry<K, V>>>)
    ensures |d| == |m| && forall i :: 0 <= i < |m| ==> d[i] == SlotData(m[i])
  {
    seq(|m|, i requires 0 <= i < |m| => SlotData(m[i]))
  }

  ghost predicate Points<K, V>(d: seq<Slot<Entry<K, V>>>, ids: seq<nat>) {
    forall k :: 0 <= k < |ids| ==> ids[k] < |d| && d[ids[k]].Value?
  }

  /** The entries at the given indices. */
  ghost function Entries<K, V>(d: seq<Slot<Entry<K, V>>>, ids: seq<nat>): (s: seq<Entry<K, V>>)
    requires Points(d, ids)
    ensures |s| == |ids| && forall k :: 0 <= k < |ids| ==> s[k] == d[ids[k]].v
  {
    seq(|ids|, k requires 0 <= k < |ids| => d[ids[k]].v)
  }

  lemma DataAt<K, V>(m: Memory<K, V>, i: nat)
    requires i < |m|
    ensures |Data(m)| == |m| && Data(m)[i] == SlotData(m[i])
  {
  }

  lemma DataUpdate<K, V>(m: Memory<K, V>, i: nat, n: Node<K, V>)
    requires i < |m|
    ensures |Data(m)| == |m| && Data(m[i := Value(n)]) == Data(m)[i := Value(Entry(n.key, n.value))]
  {
  }

  lemma SameData<K, V>(m: Memory<K, V>, i: nat, n: Node<K, V>)
    requires i < |m| && m[i].Value? && n.key == m[i].v.key && n.value == m[i].v.value
    ensures Data(m[i := Value(n)]) == Data(m)
  {
  }

  // ----- writes; the null index, like any index that holds no node, absorbs them

  function WithParent<K, V>(m: Memory<K, V>, i: nat, p: nat): Memory<K, V> {
    if i < |m| && m[i].Value? then m[i := Value(m[i].v.(parent := p))] else m
  }

  function WithChild<K, V>(m: Memory<K, V>, i: nat, side: Side, h: nat): Memory<K, V> {
    if i < |m| && m[i].Value? then m[i := Value(m[i].v.WithChild(side, h))] else m
  }

  // ----- changes that keep a representation

  /** `m'` is `m` on the nodes of `t`, except that the root of `t` got the parent `p`. */
  ghost predicate Reparented<K, V>(m: Memory<K, V>, m': Memory<K, V>, t: Tree, p: nat) {
    |m'| == |m| && forall i :: i in Ids(t) && i < |m| && m[i].Value? ==>
      m'[i] == if i == RootOf(t) then Value(m[i].v.(parent := p)) else m[i]
  }

  /** `m'` is `m` on the nodes of `c`, except that the hole of `c` now holds `h`. */
  ghost predicate Retargeted<K, V>(m: Memory<K, V>, m': Memory<K, V>, c: Ctx, h: nat) {
    |m'| == |m| && forall i :: i in CtxIds(c) && i < |m| && m[i].Value? ==>
      m'[i] == if i == HoleParent(c) then Value(m[i].v.WithChild(c.side, h)) else m[i]
  }

  lemma {:induction false} LinkedIds<K, V>(m: Memory<K, V>, t: Tree, p: nat)
    requires Linked(m, t, p)
    ensures forall i :: i in Ids(t) ==> i < |m| && m[i].Value?
  {
    if t.Br? {
      LinkedIds(m, t.l, t.i);
      LinkedIds(m, t.r, t.i);
    }
  }

  lemma {:induction false} CtxLinkedIds<K, V>(m: Memory<K, V>, c: Ctx, hole: nat)
    requires CtxLinked(m, c, hole)
    ensures forall i :: i in CtxIds(c) ==> i < |m| && m[i].Value?
  {
    if c.In? {
      LinkedIds(m, c.sib, c.i);
      CtxLinkedIds(m, c.up, c.i);
    }
  }

  lemma {:induction false} KeepTree<K, V>(m: Memory<K, V>, m': Memory<K, V>, t: Tree, p: nat)
    requires Linked(m, t, p) && |m'| == |m|
    requires forall i :: i in Ids(t) && i < |m| ==> m'[i] == m[i]
    ensures Linked(m', t, p)
  {
    if t.Br? {
      KeepTree(m, m', t.l, t.i);
      KeepTree(m, m', t.r, t.i);
    }
  }

  lemma ReparentTree<K, V>(m: Memory<K, V>, m': Memory<K, V>, t: Tree, p: nat, p': nat)
    requires Linked(m, t, p) && Distinct(t) && Reparented(m, m', t, p')
    ensures Linked(m', t, p')
  {
    LinkedIds(m, t, p);
    if t.Br? {
      KeepTree(m, m', t.l, t.i);
      KeepTree(m, m', t.r, t.i);
    }
  }

  lemma {:induction false} KeepCtx<K, V>(m: Memory<K, V>, m': Memory<K, V>, c: Ctx, h: nat)
    requires CtxLinked(m, c, h) && |m'| == |m|
    requires forall i :: i in CtxIds(c) && i < |m| ==> m'[i] == m[i]
    ensures CtxLinked(m', c, h)
  {
    if c.In? {
      KeepTree(m, m', c.sib, c.i);
      KeepCtx(m, m', c.up, c.i);
    }
  }

  lemma RetargetCtx<K, V>(m: Memory<K, V>, m': Memory<K, V>, c: Ctx, h: nat, h': nat)
    requires CtxLinked(m, c, h) && CtxDistinct(c) && Retargeted(m, m', c, h')
    ensures CtxLinked(m', c, h')
  {
    CtxLinkedIds(m, c, h);
    if c.In? {
      KeepTree(m, m', c.sib, c.i);
      KeepCtx(m, m', c.up, c.i);
    }
  }

  // ----- looking at the same tree from another node

  lemma MoveUp<K, V>(m: Memory<K, V>, root: nat, c: Ctx, t: Tree)
    requires c.In?
    ensures Rep(m, root, c, t) <==> Rep(m, root, c.up, Join(c.side, t, c.i, c.red, c.sib))
  {
  }

  lemma {:induction false} MoveToTop<K, V>(m: Memory<K, V>, root: nat, c: Ctx, t: Tree)
    ensures Rep(m, root, c, t) <==> Rep(m, root, Top, Plug(c, t))
    decreases c
  {
    if c.In? {
      MoveUp(m, root, c, t);
      MoveToTop(m, root, c.up, Join(c.side, t, c.i, c.red, c.sib));
    }
  }

  lemma RepIds<K, V>(m: Memory<K, V>, root: nat, c: Ctx, t: Tree)
    requires Rep(m, root, c, t)
    ensures forall i :: i in Ids(t) || i in CtxIds(c) ==> i < |m| && m[i].Value?
  {
    LinkedIds(m, t, HoleParent(c));
    CtxLinkedIds(m, c, RootOf(t));
  }

  lemma RootOnTop<K, V>(m: Memory<K, V>, root: nat, t: Tree)
    requires Rep(m, root, Top, t)
    ensures root == RootOf(t)
  {
  }

  lemma RootIn(t: Tree)
    ensures !t.Leaf? ==> RootOf(t) in Ids(t)
  {
  }

  lemma {:induction false} RootAboveIn(c: Ctx, i: nat)
    requires c.In?
    ensures HoleParent(c) in CtxIds(c) && RootAbove(c, i) in CtxIds(c)
  {
    if c.up.In? {
      RootAboveIn(c.up, c.i);
    }
  }

  /** Node `i` is the child of the hole's parent on the side of the hole only. */
  ghost predicate HangsFrom<K, V>(m: Memory<K, V>, c: Ctx, i: nat)
    requires c.In?
  {
    c.i < |m| && c.i < NULL_INDEX && m[c.i].Value? && m[c.i].v.Child(c.side) == i && m[c.i].v.Child(c.side.Other()) != i
  }

  lemma OnlyChild<K, V>(m: Memory<K, V>, c: Ctx, i: nat)
    requires CtxLinked(m, c, i) && i < NULL_INDEX && |m| < NULL_INDEX && i !in CtxIds(c)
    ensures c.In? ==> c.i in CtxIds(c) && HangsFrom(m, c, i)
  {
    if c.In? {
      RootIn(c.sib);
    }
  }

  /** What the links say about the root of a subtree. */
  ghost predicate ShowsTree<K, V>(m: Memory<K, V>, t: Tree, parent: nat) {
    if t.Leaf? then RootOf(t) == NULL_INDEX
    else
      RootOf(t) < |m| && RootOf(t) < NULL_INDEX && m[RootOf(t)].Value? && m[RootOf(t)].v.parent == parent
      && m[RootOf(t)].v.red == IsRed(t)
      && m[RootOf(t)].v.left == (if t.Br? then RootOf(t.l) else NULL_INDEX)
      && m[RootOf(t)].v.right == (if t.Br? then RootOf(t.r) else NULL_INDEX)
  }

  lemma ShowsLinked<K, V>(m: Memory<K, V>, t: Tree, parent: nat)
    requires |m| < NULL_INDEX && Linked(m, t, parent)
    ensures ShowsTree(m, t, parent)
  {
  }

  /** What the links around the node at hand say. */
  lemma View<K, V>(m: Memory<K, V>, root: nat, c: Ctx, t: Tree)
    requires Rep(m, root, c, t) && !t.Leaf?
    ensures ShowsTree(m, t, HoleParent(c))
    ensures t.Br? ==> ShowsTree(m, t.l, t.i) && ShowsTree(m, t.r, t.i)
    ensures root == RootOf(t) <==> c.Top?
    ensures c.In? ==>
            && Holds(m, c.side, c.i, RootOf(t), RootOf(c.sib), HoleParent(c.up), c.red)
            && c.i < NULL_INDEX && RootOf(c.sib) != RootOf(t) && ShowsTree(m, c.sib, c.i)
  {
    if t.Br? {
      ShowsLinked(m, t.l, t.i);
      ShowsLinked(m, t.r, t.i);
    }
    RootIn(t);
    if c.In? {
      ShowsLinked(m, c.sib, c.i);
      RootIn(c.sib);
      RootAboveIn(c, RootOf(t));
    }
  }

  function Beside(c: Ctx, t: Tree): Ctx
    requires c.In?
  {
    In(c.side.Other(), c.up, c.i, c.red, t)
  }

  lemma MoveAside<K, V>(m: Memory<K, V>, root: nat, c: Ctx, t: Tree)
    requires c.In?
    ensures Rep(m, root, c, t) <==> Rep(m, root, Beside(c, t), c.sib)
  {
    hide Rep;
    MoveUp(m, root, c, t);
    MoveUp(m, root, Beside(c, t), c.sib);
  }

  // ----- single steps

  lemma Recolored<K, V>(m: Memory<K, V>, root: nat, c: Ctx, t: Tree, red: bool)
    requires Rep(m, root, c, t) && t.Br?
    ensures Rep(m[t.i := Value(m[t.i].v.(red := red))], root, c, t.(red := red))
  {
    var m' := m[t.i := Value(m[t.i].v.(red := red))];
    RepIds(m, root, c, t);
    KeepTree(m, m', t.l, t.i);
    KeepTree(m, m', t.r, t.i);
    KeepCtx(m, m', c, t.i);
  }

  lemma SingleLinked<K, V>(m: Memory<K, V>, i: nat, p: nat)
    requires Holds(m, Left, i, NULL_INDEX, NULL_INDEX, p, false)
    ensures var t := Br(Leaf, i, false, Leaf);
            Linked(m, t, p) && Distinct(t) && Ids(t) == {i} && RootOf(t) == i && RootOf(Leaf) == NULL_INDEX
  {
  }

  /** Linking a new node into an empty place. */
  lemma Attached<K, V>(m: Memory<K, V>, root: nat, c: Ctx, i: nat, n: Node<K, V>)
    requires Rep(m, root, c, Leaf) && i < |m| && m[i].Index?
    requires n.left == n.right == NULL_INDEX && n.parent == HoleParent(c) && !n.red
    ensures var m1 := m[i := Value(n)];
            Rep(if c.Top? then m1 else WithChild(m1, c.i, c.side, i), if c.Top? then i else root, c,
                Br(Leaf, i, false, Leaf))
    ensures c.In? ==> c.i != i && c.i < |m| && m[c.i].Value?
  {
    hide CtxLinked, CtxDistinct, CtxIds;
    var m1 := m[i := Value(n)];
    var m' := if c.Top? then m1 else WithChild(m1, c.i, c.side, i);
    CtxLinkedIds(m, c, NULL_INDEX);
    KeepCtx(m, m1, c, NULL_INDEX);
    RetargetCtx(m1, m', c, NULL_INDEX, i);
    if c.In? {
      RootAboveIn(c, i);
    }
    SingleLinked(m', i, HoleParent(c));
  }

  // ----- taking a node out

  /** The memory after the only child `x` of node `i` has taken the place of `i`. */
  function SplicedMemory<K, V>(m: Memory<K, V>, c: Ctx, i: nat, x: nat): Memory<K, V> {
    var m1 := WithParent(m, x, HoleParent(c));
    var m2 := if c.Top? then m1 else WithChild(m1, c.i, c.side, x);
    WithChild(WithChild(WithParent(m2, i, NULL_INDEX), i, Left, NULL_INDEX), i, Right, NULL_INDEX)
  }

  lemma Spliced<K, V>(m: Memory<K, V>, root: nat, c: Ctx, side: Side, x: Tree, i: nat, red: bool)
    requires Rep(m, root, c, Join(side, x, i, red, Leaf)) && !x.Leaf?
    ensures Rep(SplicedMemory(m, c, i, RootOf(x)), if c.Top? then RootOf(x) else root, c, x)
    ensures Holds(m, side, i, RootOf(x), NULL_INDEX, HoleParent(c), red)
    ensures RootOf(x) < |m| && m[RootOf(x)].Value? && RootOf(x) != i
    ensures c.In? ==> c.i != i && c.i != RootOf(x) && HangsFrom(m, c, i)
  {
    hide Ids, Distinct, CtxIds, CtxDistinct, Join, Linked, CtxLinked;
    var m' := SplicedMemory(m, c, i, RootOf(x));
    JoinLinked(m, side, x, i, red, Leaf, HoleParent(c));
    JoinDistinct(side, x, i, red, Leaf);
    RootIn(x);
    LinkedIds(m, x, i);
    CtxLinkedIds(m, c, i);
    OnlyChild(m, c, i);
    SplicedEffect(m, c, i, RootOf(x));
    ReparentTree(m, m', x, i, HoleParent(c));
    RetargetCtx(m, m', c, i, RootOf(x));
  }

  lemma SplicedEffect<K, V>(m: Memory<K, V>, c: Ctx, i: nat, x: nat)
    requires |m| < NULL_INDEX && i < |m| && x < |m| && i != x && (c.In? ==> c.i != i && c.i != x)
    requires m[i].Value? && m[x].Value?
    ensures var m' := SplicedMemory(m, c, i, x);
      && |m'| == |m| && m'[x] == Value(m[x].v.(parent := HoleParent(c)))
      && (c.In? && c.i < |m| && m[c.i].Value? ==> m'[c.i] == Value(m[c.i].v.WithChild(c.side, x)))
      && forall y :: 0 <= y < |m| && y != i && y != x && y != HoleParent(c) ==> m'[y] == m[y]
  {
  }

  /** The memory after the childless node `i` has been cut off from its parent. */
  function CutMemory<K, V>(m: Memory<K, V>, c: Ctx, i: nat): Memory<K, V>
    requires c.In?
  {
    WithParent(WithChild(m, c.i, c.side, NULL_INDEX), i, NULL_INDEX)
  }

  predicate Childless(t: Tree, i: nat) { t == Doomed(i) || (t.Br? && t.i == i && t.l.Leaf? && t.r.Leaf?) }

  lemma Cut<K, V>(m: Memory<K, V>, root: nat, c: Ctx, t: Tree, i: nat)
    requires Rep(m, root, c, t) && c.In? && Childless(t, i)
    ensures Rep(CutMemory(m, c, i), root, c, Leaf)
    ensures c.i != i && HangsFrom(m, c, i) && i < |m| && m[i].Value? && m[i].v.parent == c.i
  {
    var m' := CutMemory(m, c, i);
    CtxLinkedIds(m, c, i);
    OnlyChild(m, c, i);
    RetargetCtx(m, m', c, i, NULL_INDEX);
    RootAboveSame(c, i);
  }

  lemma RootAboveSame(c: Ctx, i: nat)
    requires c.In?
    ensures RootAbove(c, i) == RootAbove(c, NULL_INDEX)
  {
  }

  /** A childless black node may be looked at as doomed. */
  lemma Doom<K, V>(m: Memory<K, V>, root: nat, c: Ctx, t: Tree, i: nat)
    requires Rep(m, root, c, t) && Childless(t, i) && !IsRed(t)
    ensures Rep(m, root, c, Doomed(i))
  {
  }

  lemma JoinLinked<K, V>(m: Memory<K, V>, side: Side, near: Tree, i: nat, red: bool, far: Tree, p: nat)
    ensures RootOf(Join(side, near, i, red, far)) == i
    ensures Linked(m, Join(side, near, i, red, far), p) <==>
            Holds(m, side, i, RootOf(near), RootOf(far), p, red) && Linked(m, near, i) && Linked(m, far, i)
  {
  }

  /** The memory after a rotation of `x` towards `side`, where `b` is the inner grandchild. */
  function RotatedMemory<K, V>(m: Memory<K, V>, c: Ctx, side: Side, x: nat, b: nat, y: nat): Memory<K, V> {
    var m1 := WithParent(WithChild(m, x, side.Other(), b), b, x);
    var m2 := WithParent(m1, y, HoleParent(c));
    var m3 := if c.Top? then m2 else WithChild(m2, c.i, c.side, y);
    WithParent(WithChild(m3, y, side, x), x, y)
  }

  lemma RotatedEffect<K, V>(m: Memory<K, V>, c: Ctx, side: Side, x: nat, b: nat, y: nat)
    requires |m| < NULL_INDEX && x < |m| && y < |m| && m[x].Value? && m[y].Value?
    requires x != y && x != b && y != b && (c.In? ==> c.i != x && c.i != y && c.i != b)
    ensures var m' := RotatedMemory(m, c, side, x, b, y);
      && |m'| == |m|
      && m'[x] == Value(m[x].v.WithChild(side.Other(), b).(parent := y))
      && m'[y] == Value(m[y].v.WithChild(side, x).(parent := HoleParent(c)))
      && (b < |m| && m[b].Value? ==> m'[b] == Value(m[b].v.(parent := x)))
      && (c.In? && c.i < |m| && m[c.i].Value? ==> m'[c.i] == Value(m[c.i].v.WithChild(c.side, y)))
      && forall i :: 0 <= i < |m| && i != x && i != y && i != b && i != HoleParent(c) ==> m'[i] == m[i]
  {
    hide WithParent, WithChild;
    var m0 := WithChild(m, x, side.Other(), b);
    WithChildEffect(m, x, side.Other(), b);
    var m1 := WithParent(m0, b, x);
    WithParentEffect(m0, b, x);
    var m2 := WithParent(m1, y, HoleParent(c));
    WithParentEffect(m1, y, HoleParent(c));
    var m3 := if c.Top? then m2 else WithChild(m2, c.i, c.side, y);
    if c.In? {
      WithChildEffect(m2, c.i, c.side, y);
    }
    WithChildEffect(m3, y, side, x);
    WithParentEffect(WithChild(m3, y, side, x), x, y);
  }

  lemma WithParentEffect<K, V>(m: Memory<K, V>, i: nat, p: nat)
    ensures var m' := WithParent(m, i, p);
      && |m'| == |m|
      && (i < |m| && m[i].Value? ==> m'[i] == Value(m[i].v.(parent := p)))
      && forall j :: 0 <= j < |m| && j != i ==> m'[j] == m[j]
  {
  }

  lemma WithChildEffect<K, V>(m: Memory<K, V>, i: nat, side: Side, h: nat)
    ensures var m' := WithChild(m, i, side, h);
      && |m'| == |m|
      && (i < |m| && m[i].Value? ==> m'[i] == Value(m[i].v.WithChild(side, h)))
      && forall j :: 0 <= j < |m| && j != i ==> m'[j] == m[j]
  {
  }

  /** The nodes that a rotation writes to are different nodes. */
  lemma RotationSites<K, V>(m: Memory<K, V>, root: nat, c: Ctx, side: Side,
                            a: Tree, x: nat, xr: bool, b: Tree, y: nat, yr: bool, d: Tree)
    requires Rep(m, root, c, Join(side, a, x, xr, Join(side, b, y, yr, d)))
    ensures Holds(m, side, x, RootOf(a), y, HoleParent(c), xr) && Holds(m, side, y, RootOf(b), RootOf(d), x, yr)
    ensures x != y && RootOf(b) != x && RootOf(b) != y
    ensures !b.Leaf? ==> RootOf(b) < |m| && m[RootOf(b)].Value? && RootOf(b) in Ids(b)
    ensures c.In? ==> c.i != x && c.i != y && c.i != RootOf(b) && c.i in CtxIds(c) && HangsFrom(m, c, x)
  {
    hide Ids, Distinct, CtxIds, CtxDistinct, Join, Linked, CtxLinked;
    var under := Join(side, b, y, yr, d);
    JoinLinked(m, side, b, y, yr, d, x);
    JoinLinked(m, side, a, x, xr, under, HoleParent(c));
    JoinDistinct(side, a, x, xr, under);
    JoinDistinct(side, b, y, yr, d);
    RootIn(b);
    LinkedIds(m, b, y);
    OnlyChild(m, c, x);
  }

  /** The links written by a rotation of `x` towards `side` represent the rotated subtree. */
  lemma Rotated<K, V>(m: Memory<K, V>, root: nat, c: Ctx, side: Side,
                      a: Tree, x: nat, xr: bool, b: Tree, y: nat, yr: bool, d: Tree)
    requires Rep(m, root, c, Join(side, a, x, xr, Join(side, b, y, yr, d)))
    ensures Rep(RotatedMemory(m, c, side, x, RootOf(b), y), RootAbove(c, y), c,
                Join(side, Join(side, a, x, xr, b), y, yr, d))
  {
    hide Ids, Distinct, CtxIds, CtxDistinct, Join, Linked, CtxLinked, RootAbove, RotatedMemory;
    var m' := RotatedMemory(m, c, side, x, RootOf(b), y);
    RotationSites(m, root, c, side, a, x, xr, b, y, yr, d);
    JoinDistinct(side, a, x, xr, Join(side, b, y, yr, d));
    JoinDistinct(side, b, y, yr, d);
    RotatedEffect(m, c, side, x, RootOf(b), y);
    RotatedBy(m, m', root, c, side, a, x, xr, b, y, yr, d);
  }

  lemma RotatedBy<K, V>(m: Memory<K, V>, m': Memory<K, V>, root: nat, c: Ctx, side: Side,
                        a: Tree, x: nat, xr: bool, b: Tree, y: nat, yr: bool, d: Tree)
    requires Rep(m, root, c, Join(side, a, x, xr, Join(side, b, y, yr, d)))
    requires |m'| == |m| && x < |m| && y < |m| && m[x].Value? && m[y].Value?
    requires m'[x] == Value(m[x].v.WithChild(side.Other(), RootOf(b)).(parent := y))
    requires m'[y] == Value(m[y].v.WithChild(side, x).(parent := HoleParent(c)))
    requires forall i :: (i in Ids(a) || i in Ids(d)) && i < |m| ==> m'[i] == m[i]
    requires Reparented(m, m', b, x) && Retargeted(m, m', c, y)
    ensures Rep(m', RootAbove(c, y), c, Join(side, Join(side, a, x, xr, b), y, yr, d))
  {
    hide Ids, Distinct, CtxIds, CtxDistinct, Join, Linked, CtxLinked, RootOf, RootAbove;
    hide Reparented, Retargeted;
    var under, turned := Join(side, b, y, yr, d), Join(side, a, x, xr, b);
    JoinLinked(m, side, b, y, yr, d, x);
    JoinLinked(m, side, a, x, xr, under, HoleParent(c));
    JoinDistinct(side, a, x, xr, under);
    JoinDistinct(side, b, y, yr, d);
    KeepTree(m, m', a, x);
    ReparentTree(m, m', b, y, x);
    KeepTree(m, m', d, y);
    RetargetCtx(m, m', c, x, y);
    RotatedDistinct(c, side, a, x, xr, b, y, yr, d);
    JoinLinked(m', side, a, x, xr, b, y);
    JoinLinked(m', side, turned, y, yr, d, HoleParent(c));
  }
}
