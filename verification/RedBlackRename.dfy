/**
  Exchanging the roles of two node indices. Two operations of the container amount to it:
  the structural swap that precedes a two-child deletion, and the fixup after the contiguous
  storage has moved its last node into the gap.
 */
module RedBlackRename {
  import opened IndexStorage
  import opened RedBlackShape
  import opened RedBlackMemory

  function Swap(i: nat, j: nat, x: nat): nat { if x == i then j else if x == j then i else x }

  function Rename(t: Tree, i: nat, j: nat): Tree {
    match t
    case Leaf => Leaf
    case Doomed(x) => Doomed(Swap(i, j, x))
    case Br(l, x, red, r) => Br(Rename(l, i, j), Swap(i, j, x), red, Rename(r, i, j))
  }

  lemma {:induction false} RenameSymmetric(t: Tree, i: nat, j: nat)
    ensures Rename(t, i, j) == Rename(t, j, i)
  {
    if t.Br? {
      RenameSymmetric(t.l, i, j);
      RenameSymmetric(t.r, i, j);
    }
  }

  lemma {:induction false} RenameIds(t: Tree, i: nat, j: nat, x: nat)
    ensures x in Ids(Rename(t, i, j)) <==> Swap(i, j, x) in Ids(t)
  {
    if t.Br? {
      RenameIds(t.l, i, j, x);
      RenameIds(t.r, i, j, x);
    }
  }

  lemma {:induction false} RenameDistinct(t: Tree, i: nat, j: nat)
    requires Distinct(t)
    ensures Distinct(Rename(t, i, j))
  {
    if t.Br? {
      RenameDistinct(t.l, i, j);
      RenameDistinct(t.r, i, j);
      forall x
        ensures x in Ids(Rename(t.l, i, j)) <==> Swap(i, j, x) in Ids(t.l)
        ensures x in Ids(Rename(t.r, i, j)) <==> Swap(i, j, x) in Ids(t.r)
      {
        RenameIds(t.l, i, j, x);
        RenameIds(t.r, i, j, x);
      }
    }
  }

  lemma {:induction false} RenameColours(t: Tree, i: nat, j: nat)
    ensures BlackHeight(Rename(t, i, j)) == BlackHeight(t) && IsRed(Rename(t, i, j)) == IsRed(t)
    ensures Balanced(t) ==> Balanced(Rename(t, i, j))
    ensures Alive(t) ==> Alive(Rename(t, i, j))
  {
    if t.Br? {
      RenameColours(t.l, i, j);
      RenameColours(t.r, i, j);
    }
  }

  function RenameSeq(s: seq<nat>, i: nat, j: nat): (r: seq<nat>)
    ensures |r| == |s| && forall k :: 0 <= k < |s| ==> r[k] == Swap(i, j, s[k])
  {
    seq(|s|, k requires 0 <= k < |s| => Swap(i, j, s[k]))
  }

  lemma {:induction false} RenameInorder(t: Tree, i: nat, j: nat)
    ensures Inorder(Rename(t, i, j)) == RenameSeq(Inorder(t), i, j)
  {
    if t.Br? {
      RenameInorder(t.l, i, j);
      RenameInorder(t.r, i, j);
    }
  }

  // ----- memory

  ghost predicate RenamedNode<K, V>(n: Node<K, V>, n': Node<K, V>, i: nat, j: nat) {
    n'.left == Swap(i, j, n.left) && n'.right == Swap(i, j, n.right) && n'.parent == Swap(i, j, n.parent)
    && n'.red == n.red
  }

  /** On the nodes of `s`, `m'` has the links of `m` with `i` and `j` exchanged. */
  ghost predicate Renamed<K, V>(m: Memory<K, V>, m': Memory<K, V>, s: set<nat>, i: nat, j: nat) {
    |m'| == |m| && forall x :: x in s && x < |m| && m[x].Value? ==>
      Swap(i, j, x) < |m| && m'[Swap(i, j, x)].Value? && RenamedNode(m[x].v, m'[Swap(i, j, x)].v, i, j)
  }

  lemma {:induction false} RenameLinked<K, V>(m: Memory<K, V>, m': Memory<K, V>, t: Tree, p: nat, i: nat, j: nat)
    requires Linked(m, t, p) && Renamed(m, m', Ids(t), i, j) && i < NULL_INDEX && j < NULL_INDEX
    ensures Linked(m', Rename(t, i, j), Swap(i, j, p))
  {
    if t.Br? {
      RenameLinked(m, m', t.l, t.i, i, j);
      RenameLinked(m, m', t.r, t.i, i, j);
    }
  }

  /** The renamed memory represents the renamed tree. */
  lemma RenameRep<K, V>(m: Memory<K, V>, m': Memory<K, V>, root: nat, t: Tree, i: nat, j: nat)
    requires Rep(m, root, Top, t) && Renamed(m, m', Ids(t), i, j) && i < NULL_INDEX && j < NULL_INDEX
    ensures Rep(m', Swap(i, j, root), Top, Rename(t, i, j))
  {
    RenameLinked(m, m', t, NULL_INDEX, i, j);
    RenameDistinct(t, i, j);
  }

  lemma RenameRoot(t: Tree, i: nat, j: nat)
    requires i < NULL_INDEX && j < NULL_INDEX
    ensures RootOf(Rename(t, i, j)) == Swap(i, j, RootOf(t))
  {
  }

  lemma {:induction false} LinkedRenamed<K, V>(m: Memory<K, V>, m': Memory<K, V>, t: Tree, p: nat, i: nat, j: nat,
                                               x: nat)
    requires Linked(m, t, p) && Linked(m', Rename(t, i, j), Swap(i, j, p)) && i < NULL_INDEX && j < NULL_INDEX
    requires x in Ids(t)
    ensures x < |m| && m[x].Value? && Swap(i, j, x) < |m'| && m'[Swap(i, j, x)].Value?
    ensures RenamedNode(m[x].v, m'[Swap(i, j, x)].v, i, j)
  {
    if t.Br? {
      RenameRoot(t.l, i, j);
      RenameRoot(t.r, i, j);
    }
    if t.Br? && x != t.i {
      if x in Ids(t.l) {
        LinkedRenamed(m, m', t.l, t.i, i, j, x);
      } else {
        LinkedRenamed(m, m', t.r, t.i, i, j, x);
      }
    }
  }

  /** Only the renamed memory does. */
  lemma RepRenamed<K, V>(m: Memory<K, V>, m': Memory<K, V>, root: nat, root': nat, t: Tree, i: nat, j: nat)
    requires Rep(m, root, Top, t) && Rep(m', root', Top, Rename(t, i, j)) && |m'| == |m|
    requires i < NULL_INDEX && j < NULL_INDEX
    ensures Renamed(m, m', Ids(t), i, j)
  {
    hide RenamedNode, Linked;
    forall x | x in Ids(t)
      ensures x < |m| && m[x].Value? && Swap(i, j, x) < |m| && m'[Swap(i, j, x)].Value?
      ensures RenamedNode(m[x].v, m'[Swap(i, j, x)].v, i, j)
    {
      LinkedRenamed(m, m', t, NULL_INDEX, i, j, x);
    }
  }

  lemma NotRenamedNotRep<K, V>(m: Memory<K, V>, m': Memory<K, V>, root: nat, root': nat, t: Tree, i: nat, j: nat)
    requires Rep(m, root, Top, t) && !Renamed(m, m', Ids(t), i, j) && |m'| == |m| && i < NULL_INDEX && j < NULL_INDEX
    ensures !Rep(m', root', Top, Rename(t, i, j))
  {
    hide Rep, Renamed;
    if Rep(m', root', Top, Rename(t, i, j)) {
      RepRenamed(m, m', root, root', t, i, j);
      assert false;
    }
  }

  // ----- mutual consistency of parent and child links

  ghost predicate Neighbourly<K, V>(m: Memory<K, V>, s: set<nat>, root: nat, x: nat)
    requires forall y :: y in s ==> y < |m| && m[y].Value?
    requires x in s
  {
    var n := m[x].v;
    && (n.left != NULL_INDEX ==> n.left in s && m[n.left].v.parent == x && n.left != x && n.left != n.right)
    && (n.right != NULL_INDEX ==> n.right in s && m[n.right].v.parent == x && n.right != x)
    && (if n.parent == NULL_INDEX then x == root
        else x != root && n.parent in s && n.parent != x && n.parent != n.left && n.parent != n.right
             && (m[n.parent].v.left == x || m[n.parent].v.right == x))
  }

  ghost predicate Mutual<K, V>(m: Memory<K, V>, s: set<nat>, root: nat) {
    && (forall x :: x in s ==> x < |m| && x < NULL_INDEX && m[x].Value?)
    && (forall x :: x in s ==> Neighbourly(m, s, root, x))
  }

  lemma {:induction false} LinkedMutual<K, V>(m: Memory<K, V>, t: Tree, p: nat, s: set<nat>)
    requires Linked(m, t, p) && Distinct(t) && Ids(t) <= s && p !in Ids(t) && |m| < NULL_INDEX
    requires forall y :: y in s ==> y < |m| && m[y].Value?
    requires p != NULL_INDEX && !t.Leaf? ==> p in s && (m[p].v.left == RootOf(t) || m[p].v.right == RootOf(t))
    ensures forall x :: x in Ids(t) ==> Neighbourly(m, s, if p == NULL_INDEX then RootOf(t) else NULL_INDEX, x)
  {
    if t.Br? {
      LinkedMutual(m, t.l, t.i, s);
      LinkedMutual(m, t.r, t.i, s);
      RootIn(t.l);
      RootIn(t.r);
      forall x | x in Ids(t)
        ensures Neighbourly(m, s, if p == NULL_INDEX then RootOf(t) else NULL_INDEX, x)
      {
        if x == t.i {
          ShowsLinked(m, t.l, t.i);
          ShowsLinked(m, t.r, t.i);
        } else if x in Ids(t.l) {
          assert Neighbourly(m, s, NULL_INDEX, x);
        } else {
          assert Neighbourly(m, s, NULL_INDEX, x);
        }
      }
    }
  }

  /** In a represented tree the links are mutually consistent. */
  lemma RepMutual<K, V>(m: Memory<K, V>, root: nat, t: Tree)
    requires Rep(m, root, Top, t)
    ensures Mutual(m, Ids(t), root)
  {
    LinkedIds(m, t, NULL_INDEX);
    LinkedMutual(m, t, NULL_INDEX, Ids(t));
  }

  // ----- redirecting the neighbours of a node

  /** What happens to node `y` when the neighbours of a node with links `n` are told that the
      node now has index `to` instead of `from`. */
  function Told<K, V>(node: Node<K, V>, y: nat, n: Node<K, V>, from: nat, to: nat): Node<K, V> {
    if y == n.left || y == n.right then node.(parent := to)
    else if y != n.parent then node
    else if node.left == from then node.(left := to)
    else node.(right := to)
  }

  function TellNeighbours<K, V>(m: Memory<K, V>, n: Node<K, V>, from: nat, to: nat): Memory<K, V> {
    var m1 := WithParent(WithParent(m, n.left, to), n.right, to);
    if n.parent < |m1| && m1[n.parent].Value? then
      WithChild(m1, n.parent, if m1[n.parent].v.left == from then Left else Right, to)
    else m1
  }

  lemma TellEffect<K, V>(m: Memory<K, V>, n: Node<K, V>, from: nat, to: nat)
    requires n.parent < |m| ==> n.parent != n.left && n.parent != n.right
    ensures var m' := TellNeighbours(m, n, from, to);
      |m'| == |m| && forall y :: 0 <= y < |m| ==>
        m'[y] == if m[y].Value? then Value(Told(m[y].v, y, n, from, to)) else m[y]
  {
  }

  // ----- the structural swap

  /** The memory after exchanging two nodes of which neither is the other's parent. */
  function SwapApart<K, V>(m: Memory<K, V>, i: nat, j: nat): Memory<K, V>
    requires i < |m| && j < |m| && m[i].Value? && m[j].Value?
  {
    var ni, nj := m[i].v, m[j].v;
    var m2 := TellNeighbours(TellNeighbours(m, ni, i, j), nj, j, i);
    if |m2| != |m| then m2 else
    m2[i := Value(nj.(key := ni.key, value := ni.value))][j := Value(ni.(key := nj.key, value := nj.value))]
  }

  /** Neither is the other's parent. */
  ghost predicate Apart<K, V>(m: Memory<K, V>, i: nat, j: nat)
    requires i < |m| && j < |m| && m[i].Value? && m[j].Value?
  {
    m[i].v.parent != j && m[j].v.parent != i
  }

  /** `i` and `j` are the left and the right child of one node. */
  ghost predicate LeftAndRight<K, V>(m: Memory<K, V>, i: nat, j: nat) {
    && i < |m| && m[i].Value? && m[i].v.parent < |m| && m[m[i].v.parent].Value?
    && m[m[i].v.parent].v.left == i && m[m[i].v.parent].v.right == j
  }

  /** Nodes `y` and `x` agree on whether and how they are linked. */
  ghost predicate Agree<K, V>(ny: Node<K, V>, y: nat, nx: Node<K, V>, x: nat) {
    && (ny.parent == x <==> nx.left == y || nx.right == y)
    && (nx.parent == y <==> ny.left == x || ny.right == x)
    && (ny.left == x ==> ny.right != x) && (nx.parent == y ==> ny.parent != x)
  }

  lemma MutualAgree<K, V>(m: Memory<K, V>, s: set<nat>, root: nat, y: nat, x: nat)
    requires Mutual(m, s, root) && x in s && y in s && x != y
    ensures Agree(m[y].v, y, m[x].v, x)
  {
    hide Mutual;
    MutualAt(m, s, root, x);
    MutualAt(m, s, root, y);
  }

  lemma MutualAt<K, V>(m: Memory<K, V>, s: set<nat>, root: nat, x: nat)
    requires Mutual(m, s, root) && x in s
    ensures forall y :: y in s ==> y < |m| && y < NULL_INDEX && m[y].Value?
    ensures Neighbourly(m, s, root, x)
  {
  }

  /** Telling a node first about `i` and then about `j` renames both in its links, unless they are its left
      and its right child: then the second telling undoes the first. */
  lemma TwiceTold<K, V>(ny: Node<K, V>, y: nat, ni: Node<K, V>, i: nat, nj: Node<K, V>, j: nat)
    requires Agree(ny, y, ni, i) && Agree(ny, y, nj, j) && (i == j ==> ni == nj)
    ensures RenamedNode(ny, Told(Told(ny, y, ni, i, j), y, nj, j, i), i, j) <==> !(ny.left == i && ny.right == j)
  {
  }

  lemma ChildrenOf<K, V>(m: Memory<K, V>, s: set<nat>, root: nat, i: nat, j: nat, y: nat)
    requires Mutual(m, s, root) && |m| < NULL_INDEX && i in s && j in s && y in s
    ensures i < |m| && j < |m| && y < |m| && m[i].Value? && m[y].Value?
    ensures m[y].v.left == i && m[y].v.right == j ==> m[i].v.parent == y && LeftAndRight(m, i, j)
    ensures LeftAndRight(m, i, j) ==> m[i].v.parent in s
  {
    hide Mutual;
    MutualAt(m, s, root, i);
    MutualAt(m, s, root, j);
    MutualAt(m, s, root, y);
  }

  lemma NotTheParent<K, V>(m: Memory<K, V>, s: set<nat>, root: nat, i: nat, j: nat)
    requires Mutual(m, s, root) && |m| < NULL_INDEX && i in s && j in s && i < |m| && j < |m| && m[i].Value?
    requires m[j].Value?
    requires m[j].v.left != i && m[j].v.right != i && m[j].v.parent != i
    ensures Apart(m, i, j)
  {
    hide Mutual;
    MutualAt(m, s, root, i);
  }

  /** A node and its parent are not children of one node. */
  lemma ChildNotSibling<K, V>(m: Memory<K, V>, s: set<nat>, root: nat, i: nat, j: nat)
    requires Mutual(m, s, root) && |m| < NULL_INDEX && i in s && j in s && i < |m| && j < |m| && m[i].Value?
    requires m[j].Value?
    requires m[j].v.parent == i
    ensures !LeftAndRight(m, i, j) && !LeftAndRight(m, j, i)
  {
    hide Mutual;
    MutualAt(m, s, root, i);
    MutualAt(m, s, root, j);
    if m[i].v.parent != NULL_INDEX {
      MutualAt(m, s, root, m[i].v.parent);
    }
  }

  lemma SwappedApartAt<K, V>(m: Memory<K, V>, s: set<nat>, root: nat, i: nat, j: nat, y: nat)
    requires Mutual(m, s, root) && |m| < NULL_INDEX && i in s && j in s && y in s && y != i && y != j
    requires i < |m| && j < |m| && y < |m| && m[i].Value? && m[j].Value? && m[y].Value? && Apart(m, i, j)
    ensures var m' := SwapApart(m, i, j);
      && |m'| == |m| && m'[y].Value?
      && (RenamedNode(m[y].v, m'[y].v, i, j) <==> !(m[y].v.left == i && m[y].v.right == j))
  {
    hide TellNeighbours, Told, Mutual, Agree, Neighbourly;
    ProperLinks(m, s, root, i);
    ProperLinks(m, s, root, j);
    TellEffect(m, m[i].v, i, j);
    TellEffect(TellNeighbours(m, m[i].v, i, j), m[j].v, j, i);
    MutualAgree(m, s, root, y, i);
    MutualAgree(m, s, root, y, j);
    TwiceTold(m[y].v, y, m[i].v, i, m[j].v, j);
  }

  /** The writes for two nodes of which neither is the other's parent exchange the two indices everywhere,
      except when they are the left and the right child of one node, in this order. */
  lemma SwappedApart<K, V>(m: Memory<K, V>, s: set<nat>, root: nat, i: nat, j: nat)
    requires Mutual(m, s, root) && |m| < NULL_INDEX && i in s && j in s && Apart(m, i, j)
    ensures Renamed(m, SwapApart(m, i, j), s, i, j) <==> !LeftAndRight(m, i, j)
    ensures |SwapApart(m, i, j)| == |m|
  {
    hide TellNeighbours, Told, Mutual, Agree, Neighbourly, RenamedNode, LeftAndRight;
    MutualAt(m, s, root, i);
    MutualAt(m, s, root, j);
    var m' := SwapApart(m, i, j);
    SwappedPairApart(m, s, root, i, j);
    if LeftAndRight(m, i, j) {
      ChildrenOf(m, s, root, i, j, i);
      var p := ParentOfPair(m, s, root, i, j);
      SwappedApartAt(m, s, root, i, j, p);
      assert Swap(i, j, p) == p;
    } else {
      forall y | y in s && y != i && y != j
        ensures m'[y].Value? && RenamedNode(m[y].v, m'[y].v, i, j)
      {
        ChildrenOf(m, s, root, i, j, y);
        SwappedApartAt(m, s, root, i, j, y);
      }
    }
  }

  lemma ParentOfPair<K, V>(m: Memory<K, V>, s: set<nat>, root: nat, i: nat, j: nat) returns (p: nat)
    requires Mutual(m, s, root) && |m| < NULL_INDEX && i in s && j in s && LeftAndRight(m, i, j)
    ensures p in s && p < |m| && m[p].Value? && p != i && p != j && m[p].v.left == i && m[p].v.right == j
  {
    hide Mutual;
    MutualAt(m, s, root, i);
    MutualAt(m, s, root, j);
    p := m[i].v.parent;
    MutualAt(m, s, root, p);
  }

  lemma SwappedPairApart<K, V>(m: Memory<K, V>, s: set<nat>, root: nat, i: nat, j: nat)
    requires Mutual(m, s, root) && |m| < NULL_INDEX && i in s && j in s && Apart(m, i, j)
    ensures var m' := SwapApart(m, i, j);
      && |m'| == |m| && m'[i].Value? && m'[j].Value?
      && RenamedNode(m[i].v, m'[j].v, i, j) && RenamedNode(m[j].v, m'[i].v, i, j)
  {
    hide TellNeighbours, Told, Mutual, Agree, Neighbourly;
    MutualAt(m, s, root, i);
    MutualAt(m, s, root, j);
    ProperLinks(m, s, root, i);
    ProperLinks(m, s, root, j);
    TellEffect(m, m[i].v, i, j);
    TellEffect(TellNeighbours(m, m[i].v, i, j), m[j].v, j, i);
  }

  lemma ProperLinks<K, V>(m: Memory<K, V>, s: set<nat>, root: nat, x: nat)
    requires Mutual(m, s, root) && x in s && x < |m| && m[x].Value?
    ensures var n := m[x].v;
      n.left != x && n.right != x && n.parent != x
      && (n.parent < NULL_INDEX ==> n.parent != n.left && n.parent != n.right)
      && (n.left < NULL_INDEX ==> n.left in s && m[n.left].v.parent == x)
      && (n.right < NULL_INDEX ==> n.right in s && m[n.right].v.parent == x)
      && (n.left == n.right ==> n.left == NULL_INDEX)
      && (n.left <= NULL_INDEX && n.right <= NULL_INDEX && n.parent <= NULL_INDEX)
  {
    hide Mutual;
    MutualAt(m, s, root, x);
  }

  /** The memory after exchanging node `i` with its parent `j`, whose child on `side` it is. */
  function SwapWithParent<K, V>(m: Memory<K, V>, side: Side, i: nat, j: nat): Memory<K, V>
    requires i < |m| && j < |m| && m[i].Value? && m[j].Value?
  {
    var ni, nj := m[i].v.(parent := NULL_INDEX), m[j].v.WithChild(side, NULL_INDEX);
    var m0 := WithChild(WithParent(m, i, NULL_INDEX), j, side, NULL_INDEX);
    var m2 := TellNeighbours(TellNeighbours(m0, ni, i, j), nj, j, i);
    if |m2| != |m| then m2 else
    m2[i := Value(nj.WithChild(side, j).(key := ni.key, value := ni.value))]
      [j := Value(ni.(parent := i, key := nj.key, value := nj.value))]
  }

  lemma ToldAround<K, V>(ny: Node<K, V>, y: nat, ni: Node<K, V>, i: nat, nj: Node<K, V>, j: nat, side: Side)
    requires Agree(ny, y, ni, i) && Agree(ny, y, nj, j) && i != j && y < NULL_INDEX && y != i && y != j
    requires ni.parent == j && nj.Child(side) == i
    ensures var ni', nj' := ni.(parent := NULL_INDEX), nj.WithChild(side, NULL_INDEX);
            RenamedNode(ny, Told(Told(ny, y, ni', i, j), y, nj', j, i), i, j)
  {
  }

  lemma SwappedPair<K, V>(m: Memory<K, V>, side: Side, i: nat, j: nat)
    requires i < |m| && j < |m| && m[i].Value? && m[j].Value? && i != j && |m| < NULL_INDEX
    requires m[i].v.parent == j && m[j].v.Child(side) == i
    requires m[i].v.left != i && m[i].v.right != i && m[i].v.left != j && m[i].v.right != j
    requires m[j].v.parent != i && m[j].v.parent != j && m[j].v.Child(side.Other()) != i
    requires m[j].v.Child(side.Other()) != j
    ensures var m' := SwapWithParent(m, side, i, j);
      |m'| == |m| ==>
        && m'[i].Value? && m'[j].Value?
        && RenamedNode(m[i].v, m'[j].v, i, j) && RenamedNode(m[j].v, m'[i].v, i, j)
  {
    hide TellNeighbours;
  }

  lemma SwappedWithParent<K, V>(m: Memory<K, V>, s: set<nat>, root: nat, side: Side, i: nat, j: nat)
    requires Mutual(m, s, root) && |m| < NULL_INDEX && i in s && j in s && i != j
    requires m[i].v.parent == j && m[j].v.Child(side) == i
    ensures Renamed(m, SwapWithParent(m, side, i, j), s, i, j)
  {
    hide TellNeighbours, Told, Mutual, Agree, Neighbourly;
    MutualAt(m, s, root, i);
    MutualAt(m, s, root, j);
    ProperLinks(m, s, root, i);
    ProperLinks(m, s, root, j);
    var ni, nj, m' := m[i].v.(parent := NULL_INDEX), m[j].v.WithChild(side, NULL_INDEX), SwapWithParent(m, side, i, j);
    var m0 := WithChild(WithParent(m, i, NULL_INDEX), j, side, NULL_INDEX);
    TellEffect(m0, ni, i, j);
    TellEffect(TellNeighbours(m0, ni, i, j), nj, j, i);
    SwappedPair(m, side, i, j);
    forall y | y in s && y != i && y != j
      ensures m'[y].Value? && RenamedNode(m[y].v, m'[y].v, i, j)
    {
      MutualAgree(m, s, root, y, i);
      MutualAgree(m, s, root, y, j);
      ToldAround(m[y].v, y, m[i].v, i, m[j].v, j, side);
      assert m0[y] == m[y];
    }
  }

  /** Every link of `x` leads to a node, and to three different ones other than `x`. */
  ghost predicate ProperNode<K, V>(m: Memory<K, V>, x: nat)
    requires x < |m| && m[x].Value?
  {
    var n := m[x].v;
    && n.left != x && n.right != x && n.parent != x
    && (n.left != NULL_INDEX ==> n.left < |m| && m[n.left].Value?)
    && (n.right != NULL_INDEX ==> n.right < |m| && m[n.right].Value?)
    && (n.parent != NULL_INDEX ==> n.parent < |m| && m[n.parent].Value? && n.parent != n.left && n.parent != n.right)
  }

  lemma Proper<K, V>(m: Memory<K, V>, s: set<nat>, root: nat, x: nat)
    requires Mutual(m, s, root) && x in s && x < |m| && m[x].Value?
    ensures ProperNode(m, x)
  {
    hide Mutual;
    MutualAt(m, s, root, x);
  }

  lemma NotToldApart<K, V>(m: Memory<K, V>, s: set<nat>, root: nat, i: nat, j: nat)
    requires Mutual(m, s, root) && i in s && j in s && Apart(m, i, j)
    ensures var ni, nj := m[i].v, m[j].v;
            && Told(nj, j, ni, i, j) == nj && Told(ni, i, ni, i, j) == ni
            && Told(ni, i, nj, j, i) == ni && Told(nj, j, nj, j, i) == nj
  {
    hide Mutual;
    MutualAt(m, s, root, i);
    MutualAt(m, s, root, j);
  }

  lemma SameProper<K, V>(m: Memory<K, V>, m': Memory<K, V>, x: nat)
    requires x < |m| && m[x].Value? && ProperNode(m, x)
    requires |m'| == |m| && m'[x] == m[x] && forall y :: 0 <= y < |m| && m[y].Value? ==> m'[y].Value?
    ensures ProperNode(m', x)
  {
  }

  lemma BrokenLink<K, V>(m: Memory<K, V>, s: set<nat>, root: nat, side: Side, i: nat, j: nat)
    requires Mutual(m, s, root) && |m| < NULL_INDEX && i in s && j in s && i != j
    requires m[i].v.parent == j && m[j].v.Child(side) == i
    ensures var m0 := WithChild(WithParent(m, i, NULL_INDEX), j, side, NULL_INDEX);
      && |m0| == |m| && m0[i] == Value(m[i].v.(parent := NULL_INDEX))
      && m0[j] == Value(m[j].v.WithChild(side, NULL_INDEX))
      && ProperNode(m0, i) && ProperNode(m0, j)
  {
    hide Mutual, Neighbourly;
    MutualAt(m, s, root, i);
    Proper(m, s, root, i);
    Proper(m, s, root, j);
    ProperLinks(m, s, root, i);
    ProperLinks(m, s, root, j);
  }

  lemma BrokenApart<K, V>(m: Memory<K, V>, s: set<nat>, root: nat, side: Side, i: nat, j: nat)
    requires Mutual(m, s, root) && |m| < NULL_INDEX && i in s && j in s && i != j
    requires m[i].v.parent == j && m[j].v.Child(side) == i
    ensures var ni, nj := m[i].v.(parent := NULL_INDEX), m[j].v.WithChild(side, NULL_INDEX);
      && Told(nj, j, ni, i, j) == nj && Told(ni, i, ni, i, j) == ni
      && Told(ni, i, nj, j, i) == ni && Told(nj, j, nj, j, i) == nj
      && (ni.parent < |m| ==> ni.parent != ni.left && ni.parent != ni.right)
      && (nj.parent < |m| ==> nj.parent != nj.left && nj.parent != nj.right)
  {
    hide Mutual;
    MutualAt(m, s, root, i);
    MutualAt(m, s, root, j);
  }

  // ----- an instance of each order of two siblings

  /** A root with its left child at index 2 and its right child at index 1. */
  function ThreeNodes(): Memory<int, int> {
    [Value(Node(17, 170, 2, 1, NULL_INDEX, false)), Value(Node(19, 190, NULL_INDEX, NULL_INDEX, 0, true)),
     Value(Node(15, 150, NULL_INDEX, NULL_INDEX, 0, true))]
  }

  function ThreeNodeTree(): Tree { Br(Br(Leaf, 2, true, Leaf), 0, false, Br(Leaf, 1, true, Leaf)) }

  /** Exchanging the right child with the left one works, exchanging the left with the right one does not. */
  lemma SiblingSwapExample()
    ensures Rep(ThreeNodes(), 0, Top, ThreeNodeTree())
    ensures Rep(SwapApart(ThreeNodes(), 1, 2), 0, Top, Rename(ThreeNodeTree(), 1, 2))
    ensures !Rep(SwapApart(ThreeNodes(), 2, 1), 0, Top, Rename(ThreeNodeTree(), 2, 1))
  {
    var m, t := ThreeNodes(), ThreeNodeTree();
    ThreeNodesLinked();
    hide *;
    RepMutual(m, 0, t);
    SwappedApart(m, Ids(t), 0, 1, 2);
    SwappedApart(m, Ids(t), 0, 2, 1);
    RenameRep(m, SwapApart(m, 1, 2), 0, t, 1, 2);
    NotRenamedNotRep(m, SwapApart(m, 2, 1), 0, 0, t, 2, 1);
  }

  lemma ThreeNodesLinked()
    ensures Rep(ThreeNodes(), 0, Top, ThreeNodeTree()) && Ids(ThreeNodeTree()) == {0, 1, 2}
    ensures |ThreeNodes()| == 3 && Apart(ThreeNodes(), 1, 2) && Apart(ThreeNodes(), 2, 1)
    ensures LeftAndRight(ThreeNodes(), 2, 1) && !LeftAndRight(ThreeNodes(), 1, 2) && Swap(1, 2, 0) == 0
  {
    var left, right := Br(Leaf, 2, true, Leaf), Br(Leaf, 1, true, Leaf);
    assert Ids(left) == {2} && Ids(right) == {1};
    assert Linked(ThreeNodes(), left, 0) && Linked(ThreeNodes(), right, 0);
  }

  ghost predicate NotSiblings<K, V>(m: Memory<K, V>, i: nat, j: nat) {
    i < |m| && j < |m| && m[i].Value? && m[j].Value?
    && (m[i].v.parent == NULL_INDEX || m[i].v.parent != m[j].v.parent)
  }

  // ----- relocation

  /** The memory after node `last` has been moved into the unused slot `i`. */
  function Relocated<K, V>(m: Memory<K, V>, last: nat, i: nat, rest: Slot<Node<K, V>>): Memory<K, V>
    requires i < |m| && last < |m| && m[last].Value?
  {
    TellNeighbours(m[i := m[last]][last := rest], m[last].v, last, i)
  }

  lemma ToldOnce<K, V>(ny: Node<K, V>, y: nat, nx: Node<K, V>, x: nat, i: nat)
    requires Agree(ny, y, nx, x) && ny.left != i && ny.right != i && ny.parent != i
    ensures RenamedNode(ny, Told(ny, y, nx, x, i), x, i)
  {
  }

  lemma RelocatedRenames<K, V>(m: Memory<K, V>, s: set<nat>, root: nat, last: nat, i: nat, rest: Slot<Node<K, V>>)
    requires Mutual(m, s, root) && |m| < NULL_INDEX && last in s && i !in s && i < |m|
    ensures Renamed(m, Relocated(m, last, i, rest), s, last, i)
  {
    hide TellNeighbours, Told, Mutual, Agree, Neighbourly;
    MutualAt(m, s, root, last);
    ProperLinks(m, s, root, last);
    var n, m' := m[last].v, Relocated(m, last, i, rest);
    TellEffect(m[i := m[last]][last := rest], n, last, i);
    assert m'[i].Value? && RenamedNode(n, m'[i].v, last, i) by {
      ParentIn(m, s, root, last);
      NotTold(n, i, n, last, i);
    }
    forall y | y in s && y != last
      ensures m'[y].Value? && RenamedNode(m[y].v, m'[y].v, last, i)
    {
      MutualAgree(m, s, root, y, last);
      ProperLinks(m, s, root, y);
      ParentIn(m, s, root, y);
      ToldOnce(m[y].v, y, n, last, i);
    }
  }

  lemma NotTold<K, V>(node: Node<K, V>, y: nat, n: Node<K, V>, from: nat, to: nat)
    requires y != n.left && y != n.right && y != n.parent
    ensures Told(node, y, n, from, to) == node
  {
  }

  lemma ParentIn<K, V>(m: Memory<K, V>, s: set<nat>, root: nat, x: nat)
    requires Mutual(m, s, root) && x in s && x < |m| && m[x].Value?
    ensures m[x].v.parent != NULL_INDEX ==> m[x].v.parent in s
  {
    hide Mutual;
    MutualAt(m, s, root, x);
  }
}
