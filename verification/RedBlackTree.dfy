/**
  The red-black tree container: iterative insertion and deletion over index links.
  The mirrored left and right halves of the C++ code are one piece of code with a `side`
  parameter: `Rotate(Left, ..)` is the left rotation.
 */
module RedBlackTree {
  import opened Sequences
  import opened Products
  import opened IndexStorage
  import opened RedBlackShape
  import opened RedBlackMemory
  import opened NodeLayout
  import opened RedBlackRename
  import opened RedBlackRemoval
  import opened RedBlackState
  import opened SortedEntries

  class RedBlackTree<K(!new), V> {
    const lt: (K, K) -> bool
    const layout: Layout
    const storage: Storage<Stored<K, V>>
    var root: nat
    var size: nat

    /** The tree that the links represent. */
    ghost var shape: Tree

    /** The storage is consistent and holds all nodes in the layout of the tree. */
    ghost predicate Sound()
      reads storage, storage.slots
    {
      storage.Valid() && Uniform(layout, storage.slots[..])
    }

    ghost predicate Valid()
      reads this, storage, storage.slots
    {
      Sound() && ValidState(lt, Links(), root, size, shape)
    }

    /** The nodes as the tree reads them, whatever their layout. */
    ghost function Links(): (m: Memory<K, V>)
      reads storage.slots
      ensures |m| == storage.slots.Length
    {
      Unpack(storage.slots[..])
    }

    /** The node indices in key order. */
    ghost function Order(): seq<nat>
      reads this
    {
      Inorder(shape)
    }

    /** The entries in key order. */
    ghost function Model(): seq<Entry<K, V>>
      requires Valid()
      reads this, storage, storage.slots
    {
      Entries(Data(Links()), Inorder(shape))
    }

    constructor (lt: (K, K) -> bool, layout: Layout, policy: Policy, capacity: nat)
      requires StrictWeakOrder(lt) && capacity <= LOCAL_NULL_INDEX
      ensures Valid() && Model() == []
      ensures fresh(storage) && fresh(storage.slots)
      ensures this.lt == lt && this.layout == layout && storage.policy == policy && storage.slots.Length == capacity
    {
      this.lt := lt;
      this.layout := layout;
      storage := new Storage(policy, capacity);
      root := NULL_INDEX;
      size := 0;
      shape := Leaf;
      new;
      hide Unpack, Consistent, ValidState;
      UnpackNothing(storage.slots[..]);
      EmptyState(lt, Links());
    }

    /** The links represent `Plug(c, t)`. */
    ghost predicate At(c: Ctx, t: Tree)
      reads this, storage, storage.slots
    {
      Sound() && Rep(Links(), root, c, t)
    }

    // ----- accessors that treat the null index as a black node without links

    ghost predicate Readable(i: nat)
      reads storage.slots
    {
      i != NULL_INDEX ==> i < storage.slots.Length && Links()[i].Value?
    }

    function NodeAt(i: nat): (n: Node<K, V>)
      requires i < storage.slots.Length && Links()[i].Value?
      reads storage.slots
      ensures n == Links()[i].v
    {
      UnpackAt(storage.slots[..], i);
      storage.slots[i].v.Read()
    }

    function ParentOf(i: nat): nat
      requires Readable(i)
      reads storage.slots
    {
      if i == NULL_INDEX then NULL_INDEX else NodeAt(i).parent
    }

    function ChildOf(i: nat, side: Side): nat
      requires Readable(i)
      reads storage.slots
    {
      if i == NULL_INDEX then NULL_INDEX else NodeAt(i).Child(side)
    }

    function ColorOf(i: nat): bool
      requires Readable(i)
      reads storage.slots
    {
      i != NULL_INDEX && NodeAt(i).red
    }

    // ----- the writes: each goes through the layout and is the write to the node it stands for

    method WriteNode(i: nat, s: Stored<K, V>, ghost n: Node<K, V>)
      requires Sound() && i < storage.slots.Length && Links()[i].Value? && s.Read() == n
      requires InLayout(layout, s)
      modifies storage.slots
      ensures Sound() && Links() == old(Links())[i := Value(n)]
    {
      UnpackAt(storage.slots[..], i);
      UnpackUpdate(storage.slots[..], i, Value(s));
      storage.Set(i, s);
    }

    method SetColor(i: nat, red: bool, ghost c: Ctx, ghost t: Tree)
      requires At(c, t) && i == RootOf(t) && !t.Doomed?
      modifies storage.slots
      ensures At(c, if t.Br? then t.(red := red) else t)
      ensures Data(Links()) == old(Data(Links()))
    {
      hide Unpack;
      if i == NULL_INDEX {
        return;
      }
      Recolored(Links(), root, c, t, red);
      ghost var n := NodeAt(i).(red := red);
      SameData(Links(), i, n);
      UnpackAt(storage.slots[..], i);
      ColorReads(storage.slots[i].v, red);
      WriteNode(i, storage.slots[i].v.WriteColor(red), n);
    }

    method SetParent(i: nat, parent: nat)
      requires Sound() && i < storage.slots.Length && Links()[i].Value? && Storable(parent)
      modifies storage.slots
      ensures Sound() && Links() == WithParent(old(Links()), i, parent)
      ensures Data(Links()) == old(Data(Links()))
    {
      hide Unpack;
      ghost var n := NodeAt(i).(parent := parent);
      SameData(Links(), i, n);
      UnpackAt(storage.slots[..], i);
      ParentReads(storage.slots[i].v, parent);
      WriteNode(i, storage.slots[i].v.WriteParent(parent), n);
    }

    method SetChild(i: nat, side: Side, child: nat)
      requires Sound() && i < storage.slots.Length && Links()[i].Value?
      modifies storage.slots
      ensures Sound() && Links() == WithChild(old(Links()), i, side, child)
      ensures Data(Links()) == old(Data(Links()))
    {
      hide Unpack;
      ghost var n := NodeAt(i).WithChild(side, child);
      SameData(Links(), i, n);
      UnpackAt(storage.slots[..], i);
      ChildReads(storage.slots[i].v, side, child);
      WriteNode(i, storage.slots[i].v.WriteChild(side, child), n);
    }

    /** Overwrites everything but key and value. */
    method SetLinks(i: nat, n: Node<K, V>)
      requires Sound() && i < storage.slots.Length && Links()[i].Value? && Storable(n.parent)
      modifies storage.slots
      ensures Sound() && Data(Links()) == old(Data(Links()))
      ensures Links() == var o := old(Links())[i].v;
                         old(Links())[i := Value(n.(key := o.key, value := o.value))]
    {
      hide Unpack;
      ghost var o := NodeAt(i);
      SameData(Links(), i, n.(key := o.key, value := o.value));
      UnpackAt(storage.slots[..], i);
      LinksRead(storage.slots[i].v, n);
      WriteNode(i, storage.slots[i].v.WriteLinks(n), n.(key := o.key, value := o.value));
    }

    /** Stores a node without links. */
    method Allocate(key: K, value: V) returns (i: nat)
      requires Sound() && !storage.Full()
      modifies storage, storage.slots
      ensures Sound() && i < storage.slots.Length && old(Links())[i].Index?
      ensures Links() == old(Links())[i := Value(Node(key, value, NULL_INDEX, NULL_INDEX, NULL_INDEX, false))]
    {
      hide Unpack, Fresh, Consistent;
      ghost var m := storage.slots[..];
      FreshReads(layout, key, value);
      i := storage.Emplace(Fresh(layout, key, value));
      UnpackAt(m, i);
      UnpackUpdate(m, i, Value(Fresh(layout, key, value)));
    }

    /** Returns a slot to the storage, which may move another node into it. */
    method Reclaim(index: nat) returns (repositioned: nat)
      requires Sound() && index < storage.slots.Length && Links()[index].Value?
      modifies storage, storage.slots
      ensures Sound() && !storage.Full()
      ensures repositioned < storage.slots.Length && Links()[repositioned].Index? && old(Links())[repositioned].Value?
      ensures Links() == old(Links())[index := old(Links())[repositioned]][repositioned := Links()[repositioned]]
      ensures storage.policy == Pool ==> repositioned == index
      ensures storage.policy == Contiguous ==> repositioned == old(storage.next) - 1
    {
      hide Unpack, Consistent;
      ghost var m := storage.slots[..];
      UnpackAt(m, index);
      repositioned := storage.Delete(index);
      UnpackAt(m, repositioned);
      UnpackAt(storage.slots[..], repositioned);
      UnpackMove(m, index, repositioned, storage.slots[repositioned]);
    }

    /** Makes `child` the child of `parent` that `oldChild` was, or the root if there is no parent;
        `side` is the side that is tried first. */
    method ReplaceChild(parent: nat, side: Side, oldChild: nat, child: nat, ghost c: Ctx)
      requires Sound() && parent == HoleParent(c)
      requires c.In? ==> HangsFrom(Links(), c, oldChild)
      modifies this`root, storage.slots
      ensures Sound() && Data(Links()) == old(Data(Links()))
      ensures root == if c.Top? then child else old(root)
      ensures Links() ==
              if c.Top? then old(Links()) else WithChild(old(Links()), c.i, c.side, child)
    {
      if parent == NULL_INDEX {
        root := child;
      } else if NodeAt(parent).Child(side) == oldChild {
        SetChild(parent, side, child);
      } else {
        SetChild(parent, side.Other(), child);
      }
    }

    /** The first writes of a rotation: `x` takes over the inner child of `r`. */
    method PassInner(side: Side, x: nat, r: nat, inner: nat)
      requires Sound() && Readable(x) && Readable(r) && Readable(inner) && x != NULL_INDEX && r != NULL_INDEX
      requires x != r && x != inner && r != inner
      modifies storage.slots
      ensures Sound() && Data(Links()) == old(Data(Links()))
      ensures Links() == WithParent(WithChild(old(Links()), x, side.Other(), inner), inner, x)
      ensures Readable(x) && Readable(r) && NodeAt(x).parent == old(NodeAt(x)).parent && NodeAt(r) == old(NodeAt(r))
    {
      hide Unpack, Uniform, Data, Consistent;
      SetChild(x, side.Other(), inner);
      if inner != NULL_INDEX {
        SetParent(inner, x);
      }
    }

    method Rotate(side: Side, x: nat, ghost c: Ctx, ghost a: Tree, ghost xr: bool, ghost b: Tree, ghost y: nat,
                  ghost yr: bool, ghost d: Tree)
      requires At(c, Join(side, a, x, xr, Join(side, b, y, yr, d)))
      modifies this`root, storage.slots
      ensures At(c, Join(side, Join(side, a, x, xr, b), y, yr, d))
      ensures Data(Links()) == old(Data(Links()))
    {
      hide Unpack, Uniform, Ids, Distinct, CtxIds, CtxDistinct, Join, Linked, CtxLinked, Data, Consistent;
      ghost var m := Links();
      JoinLinked(m, side, a, x, xr, Join(side, b, y, yr, d), HoleParent(c));
      JoinLinked(m, side, b, y, yr, d, x);
      RotationSites(m, root, c, side, a, x, xr, b, y, yr, d);
      var r := NodeAt(x).Child(side.Other());
      var inner := NodeAt(r).Child(side);
      PassInner(side, x, r, inner);
      var parent := NodeAt(x).parent;
      SetParent(r, parent);
      ReplaceChild(parent, side, x, r, c);
      SetChild(r, side, x);
      SetParent(x, r);
      assert Links() == RotatedMemory(m, c, side, x, RootOf(b), y);
      Rotated(m, old(root), c, side, a, x, xr, b, y, yr, d);
    }

    // ----- insertion

    method LiftRed(p: nat, uncle: nat, g: nat, ghost c: Ctx, ghost t: Tree)
      requires At(c, t) && c.In? && c.up.In? && c.up.sib.Br?
      requires p == c.i && g == c.up.i && uncle == c.up.sib.i
      modifies storage.slots
      ensures At(c.up.up, Lifted(c, t)) && Data(Links()) == old(Data(Links()))
    {
      hide Unpack, Uniform, Ids, Distinct, CtxIds, CtxDistinct, Linked, CtxLinked, Data, Consistent;
      hide AllDistinct, RootAbove;
      ghost var up := c.up;
      ghost var t1 := Join(c.side, t, p, false, c.sib);
      MoveUp(Links(), root, c, t);
      SetColor(p, false, up, Join(c.side, t, p, c.red, c.sib));
      MoveUp(Links(), root, up, t1);
      ghost var beside := In(up.side.Other(), up.up, g, up.red, t1);
      MoveUp(Links(), root, beside, up.sib);
      SetColor(uncle, false, beside, up.sib);
      MoveUp(Links(), root, beside, Blacken(up.sib));
      SetColor(g, true, up.up, Join(up.side, t1, g, up.red, Blacken(up.sib)));
    }

    /** Rotates an inner grandchild to the outside of its red parent. */
    method RotateInner(side: Side, p: nat, ghost c: Ctx, ghost t: Tree)
      requires At(c, t) && c.In? && c.side == side.Other() && p == c.i && t.Br?
      modifies this`root, storage.slots
      ensures At(In(side, c.up, t.i, t.red, Kid(t, side.Other())), Join(side, c.sib, p, c.red, Kid(t, side)))
      ensures Data(Links()) == old(Data(Links()))
    {
      hide Unpack, Uniform, Ids, Distinct, CtxIds, CtxDistinct, Linked, CtxLinked, Data, Consistent;
      hide AllDistinct, RootAbove;
      ghost var b, d := Kid(t, side), Kid(t, side.Other());
      MoveUp(Links(), root, c, t);
      Rotate(side, p, c.up, c.sib, c.red, b, t.i, t.red, d);
      MoveUp(Links(), root, In(side, c.up, t.i, t.red, d), Join(side, c.sib, p, c.red, b));
    }

    /** Turns parent black and grandparent red and rotates the parent into the grandparent's place. */
    method RotateOuter(side: Side, p: nat, g: nat, ghost c: Ctx, ghost t: Tree)
      requires At(c, t) && c.In? && c.up.In? && c.side == side && c.up.side == side && p == c.i && g == c.up.i
      modifies this`root, storage.slots
      ensures At(OuterCtx(c), t) && Data(Links()) == old(Data(Links()))
    {
      hide Unpack, Uniform, Ids, Distinct, CtxIds, CtxDistinct, Linked, CtxLinked, Data, Consistent;
      hide AllDistinct, RootAbove;
      ghost var up := c.up;
      ghost var t1 := Join(side, t, p, false, c.sib);
      MoveUp(Links(), root, c, t);
      SetColor(p, false, up, Join(side, t, p, c.red, c.sib));
      MoveUp(Links(), root, up, t1);
      SetColor(g, true, up.up, Join(side, t1, g, up.red, up.sib));
      Rotate(side.Other(), g, up.up, up.sib, true, c.sib, p, false, t);
      MoveUp(Links(), root, OuterCtx(c), t);
    }

    /** One iteration of the fixup loop: the node at hand moves up. */
    method InsertionStep(idx: nat, ghost c: Ctx, ghost t: Tree) returns (next: nat, ghost c': Ctx, ghost t': Tree)
      requires At(c, t) && RedIntruder(c, t) && HoleParentRed(c) && idx == RootOf(t)
      modifies this`root, storage.slots
      ensures At(c', t') && RedIntruder(c', t') && next == RootOf(t')
      ensures SameNodes(c, t, c', t') && Depth(c') < Depth(c)
      ensures Data(Links()) == old(Data(Links()))
    {
      hide Unpack, Uniform, Ids, Distinct, CtxIds, CtxDistinct, Linked, CtxLinked, Data, Consistent;
      hide AllDistinct, RootAbove, Inorder;
      hide Balanced, Frame, BlackHeight, Plug;
      View(Links(), root, c, t);
      RedParentHangs(c, t);
      MoveUp(Links(), root, c, t);
      View(Links(), root, c.up, Join(c.side, t, c.i, c.red, c.sib));
      next, c', t' := idx, c, t;
      var parent := ParentOf(idx);
      var grandparent := ParentOf(parent);
      var side := if parent == ChildOf(grandparent, Left) then Left else Right;
      var uncle := ChildOf(grandparent, side.Other());
      if ColorOf(uncle) {
        LiftedKeeps(c, t);
        LiftRed(parent, uncle, grandparent, c, t);
        next, c', t' := grandparent, c.up.up, Lifted(c, t);
      } else {
        if idx == ChildOf(parent, side.Other()) {
          InnerKeeps(c, t, Kid(t, side), Kid(t, side.Other()));
          RotateInner(side, parent, c, t);
          c', t' := In(side, c.up, t.i, true, Kid(t, side.Other())), Join(side, c.sib, c.i, true, Kid(t, side));
          View(Links(), root, c', t');
          next := parent;
          parent := ParentOf(next);
        }
        OuterKeeps(c', t');
        RotateOuter(side, parent, grandparent, c', t');
        c' := OuterCtx(c');
      }
    }

    /** Restores the colours after `added` has been linked in as a leaf. */
    method FixAfterInsertion(added: nat, ghost c0: Ctx, ghost t0: Tree) returns (ghost whole: Tree)
      requires At(c0, t0) && t0.Br? && t0.l == t0.r == Leaf && t0.i == added && Frame(c0, 0)
      modifies this`root, storage.slots
      ensures At(Top, whole) && RedBlack(whole) && SameNodes(c0, t0, Top, whole)
      ensures Data(Links()) == old(Data(Links()))
    {
      hide Unpack, Uniform, Ids, Distinct, CtxIds, CtxDistinct, Linked, CtxLinked, Data, Consistent;
      hide AllDistinct, RootAbove, Inorder;
      hide Balanced, Frame, BlackHeight, Plug, Join, Rep, RedIntruder;
      ghost var c, t := c0, Br(Leaf, added, true, Leaf);
      RecoloredSame(c0, t0, true);
      View(Links(), root, c0, t0);
      NewLeafIntrudes(c, added);
      var idx := added;
      SetColor(idx, true, c0, t0);
      ParentShown(c, t);
      while idx != NULL_INDEX && idx != root && ColorOf(ParentOf(idx))
        invariant At(c, t) && idx == RootOf(t) && Readable(idx) && Readable(ParentOf(idx))
        invariant c.In? ==> ColorOf(ParentOf(idx)) == c.red
        invariant RedIntruder(c, t) && SameNodes(c0, t0, c, t) && (idx == root <==> c.Top?)
        invariant Data(Links()) == old(Data(Links()))
        decreases Depth(c)
      {
        idx, c, t := InsertionStep(idx, c, t);
        ParentShown(c, t);
      }
      whole := BlackenRoot(c, t);
    }

    /** What the loop of the insertion fixup looks at. */
    lemma ParentShown(c: Ctx, t: Tree)
      requires At(c, t) && RedIntruder(c, t)
      ensures t.Br? && Readable(RootOf(t)) && Readable(ParentOf(RootOf(t))) && RootOf(t) != NULL_INDEX
      ensures ColorOf(ParentOf(RootOf(t))) == HoleParentRed(c) && (RootOf(t) == root <==> c.Top?)
    {
      hide Unpack, Uniform, Ids, Distinct, CtxIds, CtxDistinct, Linked, CtxLinked, AllDistinct, RootAbove;
      View(Links(), root, c, t);
    }

    method BlackenRoot(ghost c: Ctx, ghost t: Tree) returns (ghost whole: Tree)
      requires At(c, t) && RedIntruder(c, t) && !HoleParentRed(c)
      modifies storage.slots
      ensures At(Top, whole) && RedBlack(whole) && SameNodes(c, t, Top, whole)
      ensures Data(Links()) == old(Data(Links()))
    {
      hide Unpack, Uniform, Ids, Distinct, CtxIds, CtxDistinct, Linked, CtxLinked, Data, Consistent;
      hide AllDistinct, RootAbove;
      hide Inorder, Balanced, Frame, BlackHeight, Plug, Join;
      whole := Plug(c, t);
      MoveToTop(Links(), root, c, t);
      IntruderSettled(c, t);
      RecoloredSame(Top, whole, false);
      View(Links(), root, Top, whole);
      SetColor(root, false, Top, whole);
      whole := Blacken(whole);
    }

    /** Descends from the root to the node with an equivalent key or to the place where such a
        node belongs. `steps` counts the iterations. */
    method FindWithParent(key: K)
      returns (i: nat, parent: nat, isLeft: bool, ghost c: Ctx, ghost t: Tree, ghost steps: nat)
      requires Valid()
      ensures At(c, t) && Plug(c, t) == shape && Alive(t)
      ensures i == RootOf(t) && parent == HoleParent(c) && isLeft == (c.Top? || c.side == Left)
      ensures Place(lt, Data(Links()), c, key)
      ensures if i == NULL_INDEX then t.Leaf?
              else t.Br? && Readable(i) && Equivalent(lt, NodeAt(i).key, key)
      ensures steps == Depth(c) + if t.Br? then 1 else 0
      ensures Pow2(steps) <= (size + 1) * (size + 1)
    {
      hide Unpack, Uniform, Ids, Distinct, CtxIds, CtxDistinct, Linked, CtxLinked, Data, Consistent;
      hide AllDistinct, RootAbove, Inorder;
      hide Balanced, Frame, BlackHeight, Place, Pow2, Height;
      i, parent, isLeft := root, NULL_INDEX, true;
      c, t, steps := Top, shape, 0;
      PlaceAnywhere(lt, Data(Links()), key);
      RootOnTop(Links(), root, shape);
      while i != NULL_INDEX
        invariant At(c, t) && Plug(c, t) == shape && Alive(t)
        invariant i == RootOf(t) && parent == HoleParent(c) && isLeft == (c.Top? || c.side == Left)
        invariant Place(lt, Data(Links()), c, key) && steps == Depth(c)
        decreases t
      {
        steps := steps + 1;
        View(Links(), root, c, t);
        DataAt(Links(), i);
        if lt(key, NodeAt(i).key) {
          PlaceStep(lt, Data(Links()), c, t, key, Left);
          parent, isLeft, i := i, true, NodeAt(i).left;
          c, t := In(Left, c, t.i, t.red, t.r), t.l;
          MoveUp(Links(), root, c, t);
        } else if lt(NodeAt(i).key, key) {
          PlaceStep(lt, Data(Links()), c, t, key, Right);
          parent, isLeft, i := i, false, NodeAt(i).right;
          c, t := In(Right, c, t.i, t.red, t.l), t.r;
          MoveUp(Links(), root, c, t);
        } else {
          break;
        }
      }
      if t.Br? {
        View(Links(), root, c, t);
      }
      StepsAreLogarithmic(c, t, steps);
    }

    /** Stores a new node and hangs it into the hole. */
    method LinkNew(parent: nat, isLeft: bool, key: K, value: V, ghost c: Ctx) returns (i: nat)
      requires At(c, Leaf) && !storage.Full() && parent == HoleParent(c) && isLeft == (c.Top? || c.side == Left)
      modifies this`root, storage, storage.slots
      ensures At(c, Br(Leaf, i, false, Leaf)) && (parent == NULL_INDEX ==> root == i)
      ensures i < storage.slots.Length && old(Links())[i].Index?
      ensures Data(Links()) == old(Data(Links()))[i := Value(Entry(key, value))]
    {
      hide Unpack, Uniform, Ids, Distinct, CtxIds, CtxDistinct, Linked, CtxLinked, Consistent, AllDistinct, RootAbove;
      hide Data;
      ghost var m, r := Links(), root;
      HoleParentStorable(m, root, c, Leaf);
      i := Allocate(key, value);
      SetParent(i, parent);
      ghost var n := Node(key, value, NULL_INDEX, NULL_INDEX, parent, false);
      assert Links() == m[i := Value(n)];
      Attached(m, r, c, i, n);
      DataUpdate(m, i, n);
      if parent == NULL_INDEX {
        root := i;
      } else {
        SetChild(parent, if isLeft then Left else Right, i);
      }
    }

    /** Links a new node for `key` into the place that a search has found. */
    method InsertNewAt(parent: nat, isLeft: bool, key: K, value: V, ghost c: Ctx) returns (i: nat)
      requires Valid() && !storage.Full() && Plug(c, Leaf) == shape && At(c, Leaf)
      requires parent == HoleParent(c) && isLeft == (c.Top? || c.side == Left)
      requires Place(lt, Data(Links()), c, key)
      modifies this, storage, storage.slots
      ensures Valid() && size == old(size) + 1
      ensures Model() == Put(lt, old(Model()), key, value)
      ensures old(Order()) == Before(c) + After(c) && Order() == Before(c) + [i] + After(c)
      ensures i < storage.slots.Length && old(Links())[i].Index?
      ensures Data(Links()) == old(Data(Links()))[i := Value(Entry(key, value))]
    {
      hide Unpack, Uniform, Ids, Distinct, CtxIds, CtxDistinct, Linked, CtxLinked, Consistent, AllDistinct;
      hide RootAbove, Inorder;
      hide Balanced, Frame, BlackHeight, Place, Plug, Data, RedBlack, ValidState;
      ghost var m, r := Links(), root;
      StateFacts(lt, m, r, size, shape);
      size := size + 1;
      i := LinkNew(parent, isLeft, key, value, c);
      PlaceFrame(c);
      shape := FixAfterInsertion(if parent == NULL_INDEX then root else i, c, Br(Leaf, i, false, Leaf));
      InsertedState(lt, m, r, old(shape), c, i, key, value, Links(), root, shape);
    }

    /** Inserts unless an equivalent key is present; returns the index of the entry either way. */
    method Insert(key: K, value: V) returns (i: nat, inserted: bool)
      requires Valid()
      requires size < storage.slots.Length || Occurs(lt, Model(), key)
      modifies this, storage, storage.slots
      ensures Valid() && Model() == Put(lt, old(Model()), key, value)
      ensures inserted == !Occurs(lt, old(Model()), key)
      ensures i in Order() && Data(Links())[i].Value?
      ensures Equivalent(lt, Data(Links())[i].v.key, key)
      ensures inserted ==> i !in old(Order()) && Data(Links())[i].v == Entry(key, value)
      ensures KeepsIndices(old(Order()), old(Data(Links())), Order(), Data(Links()))
    {
      hide Unpack, Uniform, Ids, Distinct, CtxIds, CtxDistinct, Linked, CtxLinked, Consistent, AllDistinct;
      hide RootAbove, Inorder;
      hide Balanced, Frame, BlackHeight, Plug, RedBlack, Alive, Put, Data, Entries, Points;
      var parent, isLeft;
      ghost var c, t, steps;
      i, parent, isLeft, c, t, steps := FindWithParent(key);
      ghost var m := Links();
      if i != NULL_INDEX {
        ghost var k := FoundState(lt, m, root, size, shape, c, t, key);
        DataAt(m, i);
        PutPresent(lt, Model(), k, key, value);
        inserted := false;
      } else {
        AbsentState(lt, m, root, size, shape, c, key);
        FullBySize(lt, m, root, size, shape, storage.policy, storage.next, storage.free) by {
          UnpackConsistent(storage.policy, storage.slots[..], storage.next, storage.free);
        }
        i := InsertNewAt(parent, isLeft, key, value, c);
        FreshIndex(m, old(root), old(shape), i);
        inserted := true;
      }
    }

    // ----- neighbours in key order

    /** The node furthest to `side` below the node at hand: the minimum for Left, the maximum for Right. */
    method Furthest(side: Side, start: nat, ghost c0: Ctx, ghost t0: Tree) returns (r: nat, ghost c: Ctx, ghost t: Tree)
      requires At(c0, t0) && start == RootOf(t0) && Alive(t0)
      ensures r == RootOf(t) && At(c, t) && Alive(t) && Plug(c, t) == Plug(c0, t0)
      ensures if t0.Leaf? then r == NULL_INDEX else t.Br? && Kid(t, side).Leaf? && t.i in Ids(t0)
      ensures Beyond(side, c) == Beyond(side, c0)
    {
      hide Unpack, Uniform, Ids, Distinct, CtxIds, CtxDistinct, Linked, CtxLinked, Consistent, AllDistinct;
      hide RootAbove, Inorder;
      r, c, t := start, c0, t0;
      if !t.Leaf? {
        View(Links(), root, c, t);
      }
      if start == NULL_INDEX {
        return;
      }
      RootIn(t0);
      View(Links(), root, c, t);
      while ChildOf(r, side) != NULL_INDEX
        invariant r == RootOf(t) && At(c, t) && Alive(t) && t.Br? && Plug(c, t) == Plug(c0, t0)
        invariant Beyond(side, c) == Beyond(side, c0) && Readable(r) && t.i in Ids(t0) && Ids(t) <= Ids(t0)
        invariant ChildOf(r, side) == RootOf(Kid(t, side))
        decreases t
      {
        View(Links(), root, c, t);
        KidIds(t, side);
        r := ChildOf(r, side);
        c, t := In(side, c, t.i, t.red, Kid(t, side.Other())), Kid(t, side);
        RootIn(t);
        MoveUp(Links(), root, c, t);
        View(Links(), root, c, t);
      }
      View(Links(), root, c, t);
    }

    /** Climbs parent links as long as it comes from the `side` child. */
    method Climb(side: Side, start: nat, ghost c0: Ctx, ghost t0: Tree) returns (r: nat, ghost c: Ctx, ghost t: Tree)
      requires At(c0, t0) && !t0.Leaf? && start == RootOf(t0)
      ensures At(c, t) && Plug(c, t) == Plug(c0, t0) && r == HoleParent(c) && (c.In? ==> c.side == side.Other())
      ensures Beyond(side, c) == Beyond(side, c0)
    {
      hide Unpack, Uniform, Ids, Distinct, CtxIds, CtxDistinct, Linked, CtxLinked, Consistent, AllDistinct;
      hide RootAbove, Inorder;
      hide Plug, Beyond;
      ghost var m := Links();
      c, t := c0, t0;
      View(m, root, c, t);
      r := ParentOf(start);
      var child := start;
      while r != NULL_INDEX && child == ChildOf(r, side)
        invariant At(c, t) && Plug(c, t) == Plug(c0, t0) && !t.Leaf?
        invariant child == RootOf(t) && r == HoleParent(c) && Readable(r)
        invariant Beyond(side, c) == Beyond(side, c0)
        decreases Depth(c)
      {
        View(m, root, c, t);
        MoveUp(m, root, c, t);
        PlugIn(c, t);
        BeyondIn(side, c);
        c, t := c.up, Join(c.side, t, c.i, c.red, c.sib);
        View(m, root, c, t);
        child := r;
        r := ParentOf(r);
      }
      View(m, root, c, t);
    }

    /** The neighbour in key order: the successor for Right, the predecessor for Left. */
    method Next(side: Side, index: nat) returns (r: nat)
      requires Valid() && (index == NULL_INDEX || index in Order())
      ensures index == NULL_INDEX ==> r == NULL_INDEX
      ensures forall k :: 0 <= k < size && Order()[k] == index ==>
                r == IndexAt(Order(), if side == Right then k + 1 else k - 1)
    {
      hide Unpack, Uniform, Ids, Distinct, CtxIds, CtxDistinct, Linked, CtxLinked, Consistent, AllDistinct;
      hide RootAbove, Inorder;
      hide Data, Entries, Points, Ascending, Balanced, Plug, Beyond, Alive, StrictWeakOrder, RedBlack, NoRepeats;
      ghost var m := Links();
      if index == NULL_INDEX {
        NoNullIndex(m, root, shape);
        return NULL_INDEX;
      }
      ghost var c0, t0 := LocateNode(m, root, shape, index);
      View(m, root, c0, t0);
      ghost var c, t;
      if ChildOf(index, side) != NULL_INDEX {
        c, t := In(side, c0, index, t0.red, Kid(t0, side.Other())), Kid(t0, side);
        MoveUp(m, root, c, t);
        PlugIn(c, t);
        AliveKid(t0, side);
        BeyondIn(side.Other(), c);
        r, c, t := Furthest(side.Other(), ChildOf(index, side), c, t);
        NodePosition(c, t, side.Other());
        EmptyInorder(Kid(t, side.Other()));
      } else {
        r, c, t := Climb(side, index, c0, t0);
        NodePosition(c0, t0, side.Other());
        EmptyInorder(Kid(t0, side));
        HoleNext(side, c, t);
      }
      UniqueIndices(lt, m, root, size, shape);
      NextPosition(c0, t0, side, r);
    }

    // ----- deletion

    method RotateRedSibling(side: Side, p: nat, sibling: nat, ghost c: Ctx, ghost t: Tree)
      requires At(c, t) && c.In? && c.sib.Br? && c.side == side && p == c.i && sibling == c.sib.i
      modifies this`root, storage.slots
      ensures At(UnderRedSibling(c), t) && Data(Links()) == old(Data(Links()))
    {
      hide Unpack, Uniform, Ids, Distinct, CtxIds, CtxDistinct, Linked, CtxLinked, Data, Consistent;
      hide AllDistinct, RootAbove;
      ghost var s, near, far := c.sib.(red := false), Kid(c.sib, side), Kid(c.sib, side.Other());
      ghost var beside := Beside(c, t);
      MoveAside(Links(), root, c, t);
      SetColor(sibling, false, beside, c.sib);
      MoveUp(Links(), root, beside, s);
      SetColor(p, true, c.up, Join(side, t, p, c.red, s));
      Rotate(side, p, c.up, t, true, near, sibling, false, far);
      MoveUp(Links(), root, UnderRedSibling(c).up, Join(side, t, p, true, near));
      MoveUp(Links(), root, UnderRedSibling(c), t);
    }

    method RotateNearNephew(side: Side, near: nat, sibling: nat, ghost c: Ctx, ghost t: Tree)
      requires At(c, t) && c.In? && c.sib.Br? && Kid(c.sib, side).Br?
      requires c.side == side && sibling == c.sib.i && near == Kid(c.sib, side).i
      modifies this`root, storage.slots
      ensures At(PastNearNephew(c), t) && Data(Links()) == old(Data(Links()))
    {
      hide Unpack, Uniform, Ids, Distinct, CtxIds, CtxDistinct, Linked, CtxLinked, Data, Consistent;
      hide AllDistinct, RootAbove;
      ghost var n, far := Kid(c.sib, side), Kid(c.sib, side.Other());
      ghost var beside := Beside(c, t);
      ghost var under := In(side, beside, sibling, c.sib.red, far);
      MoveAside(Links(), root, c, t);
      MoveUp(Links(), root, under, n);
      SetColor(near, false, under, n);
      MoveUp(Links(), root, under, n.(red := false));
      SetColor(sibling, true, beside, Join(side, n.(red := false), sibling, c.sib.red, far));
      Rotate(side.Other(), sibling, beside, far, true, Kid(n, side.Other()), near, false, Kid(n, side));
      MoveAside(Links(), root, PastNearNephew(c), t);
    }

    method RotateFarNephew(side: Side, p: nat, sibling: nat, far: nat, ghost c: Ctx, ghost t: Tree)
      requires At(c, t) && c.In? && c.sib.Br? && Kid(c.sib, side.Other()).Br?
      requires c.side == side && p == c.i && sibling == c.sib.i && far == Kid(c.sib, side.Other()).i
      requires Readable(p) && ColorOf(p) == c.red && p != NULL_INDEX
      modifies this`root, storage.slots
      ensures At(c.up, Settled(c, t)) && Data(Links()) == old(Data(Links()))
    {
      hide Unpack, Uniform, Ids, Distinct, CtxIds, CtxDistinct, Linked, CtxLinked, Data, Consistent;
      hide AllDistinct, RootAbove;
      ghost var near, f := Kid(c.sib, side), Kid(c.sib, side.Other());
      ghost var s := c.sib.(red := c.red);
      ghost var beside := Beside(c, t);
      MoveAside(Links(), root, c, t);
      SetColor(sibling, ColorOf(p), beside, c.sib);
      MoveUp(Links(), root, beside, s);
      SetColor(p, false, c.up, Join(side, t, p, c.red, s));
      ghost var above := In(side.Other(), c.up, p, false, t);
      ghost var under := In(side.Other(), above, sibling, c.red, near);
      MoveUp(Links(), root, above, s);
      MoveUp(Links(), root, under, f);
      SetColor(far, false, under, f);
      MoveUp(Links(), root, under, Blacken(f));
      MoveUp(Links(), root, above, Join(side, near, sibling, c.red, Blacken(f)));
      Rotate(side, p, c.up, t, false, near, sibling, c.red, Blacken(f));
    }

    /** A red nephew pays for the missing black node: the whole tree is in order. */
    method PayWithNephew(side: Side, idx: nat, sibling: nat, ghost c: Ctx, ghost t: Tree) returns (ghost whole: Tree)
      requires At(c, t) && Deficit(c, t) && !IsRed(t) && c.In? && c.side == side && idx == RootOf(t)
      requires c.sib.Br? && !c.sib.red && sibling == c.sib.i && (IsRed(c.sib.l) || IsRed(c.sib.r))
      modifies this`root, storage.slots
      ensures At(Top, whole) && Deficit(Top, whole) && SameNodes(c, t, Top, whole) && root == RootOf(whole)
      ensures Data(Links()) == old(Data(Links()))
    {
      hide Unpack, Uniform, Ids, Distinct, CtxIds, CtxDistinct, Linked, CtxLinked, Data, Consistent;
      hide AllDistinct, RootAbove, Inorder;
      hide Balanced, Frame, BlackHeight, Plug, Join;
      View(Links(), root, c, t);
      MoveAside(Links(), root, c, t);
      View(Links(), root, Beside(c, t), c.sib);
      ghost var c' := c;
      var s := sibling;
      if !ColorOf(ChildOf(sibling, side.Other())) {
        NearNephewKeeps(c, t);
        RotateNearNephew(side, ChildOf(sibling, side), sibling, c, t);
        c' := PastNearNephew(c);
        NearNephewTurns(c);
        View(Links(), root, c', t);
        s := ChildOf(ParentOf(idx), side.Other());
        MoveAside(Links(), root, c', t);
        View(Links(), root, Beside(c', t), c'.sib);
      }
      FarNephewSettles(c', t);
      RotateFarNephew(side, ParentOf(idx), s, ChildOf(s, side.Other()), c', t);
      whole := Plug(c'.up, Settled(c', t));
      MoveToTop(Links(), root, c'.up, Settled(c', t));
      View(Links(), root, Top, whole);
    }

    method BlackSiblingStep(side: Side, idx: nat, sibling: nat, ghost c: Ctx, ghost t: Tree)
      returns (next: nat, ghost c': Ctx, ghost t': Tree)
      requires At(c, t) && Deficit(c, t) && !IsRed(t) && c.In? && c.side == side && idx == RootOf(t)
      requires c.sib.Br? && !c.sib.red && sibling == c.sib.i
      modifies this`root, storage.slots
      ensures At(c', t') && Deficit(c', t') && next == RootOf(t') && SameNodes(c, t, c', t')
      ensures c'.Top? || (c' == c.up && IsRed(t') == c.red)
      ensures Data(Links()) == old(Data(Links()))
    {
      hide Unpack, Uniform, Ids, Distinct, CtxIds, CtxDistinct, Linked, CtxLinked, Data, Consistent;
      hide AllDistinct, RootAbove, Inorder;
      hide Balanced, Frame, BlackHeight, Plug, Join;
      View(Links(), root, c, t);
      MoveAside(Links(), root, c, t);
      View(Links(), root, Beside(c, t), c.sib);
      if !ColorOf(ChildOf(sibling, side)) && !ColorOf(ChildOf(sibling, side.Other())) {
        BlackNephewsKeep(c, t);
        var parent := ParentOf(idx);
        SetColor(sibling, true, Beside(c, t), c.sib);
        MoveUp(Links(), root, Beside(c, t), c.sib.(red := true));
        next, c', t' := parent, c.up, WithRedSibling(c, t);
        assert t' == Join(c.side.Other(), c.sib.(red := true), c.i, c.red, t) by {
          JoinFlips(c.side, t, c.i, c.red, c.sib.(red := true));
        }
      } else {
        c' := Top;
        t' := PayWithNephew(side, idx, sibling, c, t);
        next := root;
      }
    }

    /** One iteration of the fixup loop. The red-sibling case first pushes the node at hand one level
        down; the step as a whole still ends higher up or on a red node. */
    method DeletionStep(idx: nat, ghost c: Ctx, ghost t: Tree) returns (next: nat, ghost c': Ctx, ghost t': Tree)
      requires At(c, t) && Deficit(c, t) && c.In? && !IsRed(t) && idx == RootOf(t)
      modifies this`root, storage.slots
      ensures At(c', t') && Deficit(c', t') && next == RootOf(t')
      ensures SameNodes(c, t, c', t') && (IsRed(t') || Depth(c') < Depth(c))
      ensures Data(Links()) == old(Data(Links()))
    {
      hide Unpack, Uniform, Ids, Distinct, CtxIds, CtxDistinct, Linked, CtxLinked, Data, Consistent;
      hide AllDistinct, RootAbove, Inorder;
      hide Balanced, Frame, BlackHeight, Plug, Join;
      View(Links(), root, c, t);
      var side := if idx == ChildOf(ParentOf(idx), Left) then Left else Right;
      var sibling := ChildOf(ParentOf(idx), side.Other());
      DeficitSibling(c, t);
      if ColorOf(sibling) {
        RedSiblingKeeps(c, t);
        RotateRedSibling(side, ParentOf(idx), sibling, c, t);
        ghost var lower := UnderRedSibling(c);
        View(Links(), root, lower, t);
        sibling := ChildOf(ParentOf(idx), side.Other());
        DeficitSibling(lower, t);
        next, c', t' := BlackSiblingStep(side, idx, sibling, lower, t);
      } else {
        next, c', t' := BlackSiblingStep(side, idx, sibling, c, t);
      }
    }

    /** Makes up for the black node that is missing at `start`. */
    method FixAfterDeletion(start: nat, ghost c0: Ctx, ghost t0: Tree) returns (ghost whole: Tree)
      requires At(c0, t0) && Deficit(c0, t0) && start == RootOf(t0)
      modifies this`root, storage.slots
      ensures At(Top, whole) && RedBlack(whole) && SameNodes(c0, t0, Top, whole)
      ensures Data(Links()) == old(Data(Links()))
    {
      hide Unpack, Uniform, Ids, Distinct, CtxIds, CtxDistinct, Linked, CtxLinked, Data, Consistent;
      hide AllDistinct, RootAbove, Inorder;
      hide Balanced, Frame, BlackHeight, Plug, Join;
      ghost var c, t := c0, t0;
      var idx := start;
      View(Links(), root, c, t);
      while idx != root && !ColorOf(idx)
        invariant At(c, t) && Deficit(c, t) && idx == RootOf(t) && SameNodes(c0, t0, c, t)
        invariant Readable(idx) && ColorOf(idx) == IsRed(t) && (idx == root <==> c.Top?)
        invariant Data(Links()) == old(Data(Links()))
        decreases if IsRed(t) then 0 else 1 + Depth(c)
      {
        idx, c, t := DeletionStep(idx, c, t);
        View(Links(), root, c, t);
      }
      DeficitSettled(c, t);
      SetColor(idx, false, c, t);
      whole := Plug(c, Blacken(t));
      MoveToTop(Links(), root, c, Blacken(t));
    }

    // ----- structural swap

    method FixupNeighbours(x: nat, from: nat, to: nat)
      requires Sound() && x < storage.slots.Length && Links()[x].Value?
      requires ProperNode(Links(), x) && Storable(to)
      modifies storage.slots
      ensures Sound() && Data(Links()) == old(Data(Links()))
      ensures Links() == TellNeighbours(old(Links()), old(NodeAt(x)), from, to)
    {
      hide Unpack, Uniform, Consistent, Data;
      if NodeAt(x).left != NULL_INDEX {
        SetParent(NodeAt(x).left, to);
      }
      if NodeAt(x).right != NULL_INDEX {
        SetParent(NodeAt(x).right, to);
      }
      var p := NodeAt(x).parent;
      if p != NULL_INDEX {
        if NodeAt(p).left == from {
          SetChild(p, Left, to);
        } else {
          SetChild(p, Right, to);
        }
      }
    }

    method SwapApartNodes(i: nat, j: nat, ghost s: set<nat>)
      requires Sound() && Mutual(Links(), s, root) && i in s && j in s && Apart(Links(), i, j)
      modifies storage.slots
      ensures Sound() && Data(Links()) == old(Data(Links()))
      ensures Links() == SwapApart(old(Links()), i, j)
    {
      hide Unpack, Uniform, Consistent, Data, Mutual, Neighbourly, Told, TellNeighbours;
      ghost var m := Links();
      MutualAt(m, s, root, i);
      Proper(m, s, root, i);
      Proper(m, s, root, j);
      NotToldApart(m, s, root, i, j);
      var ni, nj := NodeAt(i), NodeAt(j);
      TellEffect(m, ni, i, j);
      FixupNeighbours(i, i, j);
      TellEffect(Links(), nj, j, i);
      FixupNeighbours(j, j, i);
      ni, nj := NodeAt(i), NodeAt(j);
      SetLinks(i, nj);
      SetLinks(j, ni);
    }

    method SwapWithParentNode(side: Side, i: nat, j: nat, ghost s: set<nat>)
      requires Sound() && Mutual(Links(), s, root) && i in s && j in s && i != j
      requires NodeAt(i).parent == j && NodeAt(j).Child(side) == i
      modifies storage.slots
      ensures Sound() && Data(Links()) == old(Data(Links()))
      ensures Links() == SwapWithParent(old(Links()), side, i, j)
    {
      hide Unpack, Uniform, Consistent, Data, Mutual, Neighbourly, Told, TellNeighbours, ProperNode;
      ghost var m := Links();
      MutualAt(m, s, root, i);
      BrokenLink(m, s, root, side, i, j);
      BrokenApart(m, s, root, side, i, j);
      SetParent(i, NULL_INDEX);
      SetChild(j, side, NULL_INDEX);
      ghost var m0 := Links();
      TellEffect(m0, m0[i].v, i, j);
      FixupNeighbours(i, i, j);
      TellEffect(Links(), m0[j].v, j, i);
      SameProper(m0, Links(), j);
      FixupNeighbours(j, j, i);
      var ni, nj := NodeAt(i), NodeAt(j);
      SetLinks(i, nj.WithChild(side, j));
      SetLinks(j, ni.(parent := i));
    }

    /** Exchanges the tree positions and colours of two nodes; keys and values stay where they are. The
        exchange succeeds unless the two are the left and the right child of one node, in this order. */
    method SwapNodes(i: nat, j: nat, ghost t: Tree)
      requires At(Top, t) && i in Ids(t) && j in Ids(t)
      modifies this`root, storage.slots
      ensures At(Top, Rename(t, i, j)) <==> !LeftAndRight(old(Links()), i, j)
      ensures Sound() && Data(Links()) == old(Data(Links()))
    {
      hide Unpack, Uniform, Consistent, Data, Mutual, Neighbourly, Told, TellNeighbours, ProperNode, Linked;
      hide Distinct, Ids, Rename;
      ghost var m, s := Links(), Ids(t);
      RepMutual(m, root, t);
      MutualAt(m, s, root, i);
      MutualAt(m, s, root, j);
      var p, q := i, j;
      if NodeAt(j).parent == i {
        ChildNotSibling(m, s, root, i, j);
        p, q := j, i;
      }
      RenameSymmetric(t, i, j);
      SwapImpl(p, q, t);
    }

    method SwapImpl(i: nat, j: nat, ghost t: Tree)
      requires At(Top, t) && i in Ids(t) && j in Ids(t)
      requires Readable(j) && j != NULL_INDEX && NodeAt(j).parent != i
      modifies this`root, storage.slots
      ensures At(Top, Rename(t, i, j)) <==> !LeftAndRight(old(Links()), i, j)
      ensures Sound() && Data(Links()) == old(Data(Links()))
    {
      hide Unpack, Uniform, Consistent, Data, Mutual, Neighbourly, Told, TellNeighbours, Linked, Distinct;
      hide Ids, Rename, Renamed;
      hide SwapWithParent, SwapApart;
      ghost var m, s, r := Links(), Ids(t), root;
      RepMutual(m, root, t);
      MutualAt(m, s, root, i);
      ProperLinks(m, s, root, j);
      if NodeAt(j).left == i {
        SwappedWithParent(m, s, root, Left, i, j);
        SwapWithParentNode(Left, i, j, s);
      } else if NodeAt(j).right == i {
        SwappedWithParent(m, s, root, Right, i, j);
        SwapWithParentNode(Right, i, j, s);
      } else {
        NotTheParent(m, s, root, i, j);
        SwappedApart(m, s, root, i, j);
        SwapApartNodes(i, j, s);
      }
      if i == root {
        root := j;
      } else if j == root {
        root := i;
      }
      if LeftAndRight(m, i, j) {
        NotRenamedNotRep(m, Links(), r, root, t, i, j);
      } else {
        RenameRep(m, Links(), r, t, i, j);
      }
    }

    // ----- removal of a node

    /** The only child takes the place of the node. */
    method Splice(index: nat, replacement: nat, ghost c: Ctx, ghost side: Side, ghost x: Tree, ghost red: bool)
      requires At(c, Join(side, x, index, red, Leaf)) && !x.Leaf? && replacement == RootOf(x)
      modifies this`root, storage.slots
      ensures At(c, x) && Data(Links()) == old(Data(Links()))
      ensures index < storage.slots.Length && Links()[index].Value? && NodeAt(index).red == red
    {
      hide Unpack, Uniform, Ids, Distinct, CtxIds, CtxDistinct, Join, Linked, CtxLinked, Data, Consistent;
      hide AllDistinct, RootAbove;
      ghost var m := Links();
      Spliced(m, root, c, side, x, index, red);
      var parent := NodeAt(index).parent;
      SetParent(replacement, parent);
      ReplaceChild(parent, Left, index, replacement, c);
      SetParent(index, NULL_INDEX);
      SetChild(index, Left, NULL_INDEX);
      SetChild(index, Right, NULL_INDEX);
    }

    /** Cuts a childless node off from its parent. */
    method CutOff(index: nat, ghost c: Ctx, ghost t: Tree)
      requires At(c, t) && c.In? && Childless(t, index)
      modifies storage.slots
      ensures At(c, Leaf) && Data(Links()) == old(Data(Links()))
    {
      hide Unpack, Uniform, Ids, Distinct, CtxIds, CtxDistinct, Linked, CtxLinked, Data, Consistent;
      hide AllDistinct, RootAbove;
      Cut(Links(), root, c, t, index);
      var parent := NodeAt(index).parent;
      if parent != NULL_INDEX {
        if index == NodeAt(parent).left {
          SetChild(parent, Left, NULL_INDEX);
        } else if index == NodeAt(parent).right {
          SetChild(parent, Right, NULL_INDEX);
        }
        SetParent(index, NULL_INDEX);
      }
    }

    /** Takes a node with at most one child out of a tree of at least two nodes. */
    method Unlink(index: nat, ghost c: Ctx, ghost t: Tree) returns (ghost whole: Tree)
      requires At(c, t) && t.Br? && t.i == index && (t.l.Leaf? || t.r.Leaf?) && Alive(t)
      requires RedBlack(Plug(c, t)) && (c.Top? ==> !t.l.Leaf? || !t.r.Leaf?)
      modifies this`root, storage.slots
      ensures At(Top, whole) && RedBlack(whole) && Data(Links()) == old(Data(Links()))
      ensures Inorder(whole) == Remaining(c, t) && Ids(whole) == Ids(Plug(c, t)) - {index}
    {
      hide Unpack, Uniform, Ids, Distinct, CtxIds, CtxDistinct, Linked, CtxLinked, Data, Consistent;
      hide RootAbove, Inorder, Plug;
      hide Balanced, Frame, BlackHeight, Remaining, AllDistinct, RedBlack, Deficit;
      View(Links(), root, c, t);
      whole := Plug(c, t);
      var left, right := NodeAt(index).left, NodeAt(index).right;
      var replacement := if left != NULL_INDEX then left else right;
      if replacement != NULL_INDEX {
        ghost var side := if left != NULL_INDEX then Left else Right;
        ghost var x := Kid(t, side);
        OnlyChildDeficit(c, side, x, index, t.red);
        Splice(index, replacement, c, side, x, t.red);
        if !NodeAt(index).red {
          whole := FixAfterDeletion(replacement, c, x);
          PlugTop(whole);
        }
      } else {
        ghost var c', t' := c, t;
        ChildlessDeficit(c, t);
        DoomedNodes(c, t);
        if !NodeAt(index).red {
          Doom(Links(), root, c, t, index);
          whole := FixAfterDeletion(index, c, Doomed(index));
          PlugTop(whole);
          OutsideCtx(c, t);
          c' := LocateDoomed(whole, c, index);
          t' := Doomed(index);
          MoveToTop(Links(), root, c', t');
        }
        CutNodes(c', t', index);
        CutOff(index, c', t');
        whole := Plug(c', Leaf);
        MoveToTop(Links(), root, c', Leaf);
      }
    }

    /** Brings the node into a position with at most one child. */
    method Isolate(index: nat, successor: nat, ghost c0: Ctx, ghost t0: Tree, ghost k: nat)
      returns (ghost c: Ctx, ghost t: Tree)
      requires At(c0, t0) && t0.Br? && t0.i == index && Alive(Plug(c0, t0)) && RedBlack(Plug(c0, t0))
      requires NoRepeats(Inorder(Plug(c0, t0))) && k == |Before(c0)| + |Inorder(t0.l)|
      requires successor == IndexAt(Inorder(Plug(c0, t0)), k + 1)
      modifies this`root, storage.slots
      ensures At(c, t) && t.Br? && t.i == index && (t.l.Leaf? || t.r.Leaf?) && Alive(t) && RedBlack(Plug(c, t))
      ensures k < |Inorder(Plug(c0, t0))| && Remaining(c, t) == RemoveAt(Inorder(Plug(c0, t0)), k)
      ensures Ids(Plug(c, t)) == Ids(Plug(c0, t0)) && Data(Links()) == old(Data(Links()))
    {
      hide Unpack, Uniform, Ids, Distinct, CtxIds, CtxDistinct, Linked, CtxLinked, Data, Consistent;
      hide RootAbove, Inorder, Plug;
      hide Balanced, Remaining, AllDistinct, Rename, NoRepeats, Alive;
      ghost var m := Links();
      View(m, root, c0, t0);
      PlugAlive(c0, t0);
      RemainingByPosition(c0, t0);
      c, t := c0, t0;
      if NodeAt(index).left != NULL_INDEX && NodeAt(index).right != NULL_INDEX {
        KidAlive(t0);
        c, t := TwoChildren(m, root, c0, t0, k);
        NodePosition(c0, t0, Left);
        AfterSwap(c, t, index, k);
        MoveToTop(m, root, c0, t0);
        SwapNodes(index, successor, Plug(c0, t0));
        c, t := RenameCtx(c, index, successor), Rename(t, index, successor);
        MoveToTop(Links(), root, c, t);
      }
    }

    /** Returns the slot of a node that is no longer in the tree to the storage, and follows the node
        that the storage may have moved into it. */
    method Release(index: nat, ghost whole: Tree) returns (repositioned: nat)
      requires At(Top, whole) && index !in Ids(whole) && index < storage.slots.Length && Links()[index].Value?
      requires forall x :: 0 <= x < storage.slots.Length && Links()[x].Value? ==> x == index || x in Ids(whole)
      modifies this`root, storage, storage.slots
      ensures At(Top, Rename(whole, repositioned, index))
      ensures storage.policy == Pool ==> repositioned == index
      ensures repositioned < storage.slots.Length && old(Links())[repositioned].Value?
      ensures Data(Links())[repositioned].Index?
      ensures var d, d' := old(Data(Links())), Data(Links());
              d' == d[index := d[repositioned]][repositioned := d'[repositioned]]
    {
      hide Unpack, Uniform, Ids, Distinct, Linked, Data, Consistent, Mutual, Neighbourly, Rename;
      hide TellNeighbours, Renamed, ProperNode;
      ghost var m, r := Links(), root;
      RepMutual(m, root, whole);
      repositioned := Reclaim(index);
      ghost var m1, free := Links(), Links()[repositioned];
      ReleasedData(m, index, repositioned, free);
      if repositioned != index {
        RelocatedRenames(m, Ids(whole), r, repositioned, index, free);
        ReleasedProper(m, Ids(whole), r, repositioned, index, free);
        FixupNeighbours(index, repositioned, index);
        if root == repositioned {
          root := index;
        }
        RenameRep(m, Links(), r, whole, repositioned, index);
        NotRoot(m, r, whole, index);
      } else {
        assert Links() == m[index := free];
        FreedSlot(m, r, whole, index, free);
        RenameSelf(whole, index);
      }
    }

    /** Takes the node out of the tree and returns its slot to the storage. */
    method TakeOut(index: nat, successor: nat, ghost c0: Ctx, ghost t0: Tree, ghost k: nat)
      returns (repositioned: nat, ghost whole: Tree)
      requires At(c0, t0) && t0.Br? && t0.i == index && Alive(Plug(c0, t0)) && RedBlack(Plug(c0, t0))
      requires NoRepeats(Inorder(Plug(c0, t0))) && k == |Before(c0)| + |Inorder(t0.l)| && |Inorder(Plug(c0, t0))| > 1
      requires successor == IndexAt(Inorder(Plug(c0, t0)), k + 1)
      requires index < storage.slots.Length && Links()[index].Value?
      requires forall x :: 0 <= x < storage.slots.Length && Links()[x].Value? ==> x in Ids(Plug(c0, t0))
      modifies this`root, storage, storage.slots
      ensures At(Top, Rename(whole, repositioned, index)) && RedBlack(whole) && Distinct(whole)
      ensures k < |Inorder(Plug(c0, t0))| && Inorder(whole) == RemoveAt(Inorder(Plug(c0, t0)), k)
      ensures Ids(whole) == Ids(Plug(c0, t0)) - {index}
      ensures storage.policy == Pool ==> repositioned == index
      ensures repositioned < storage.slots.Length && old(Links())[repositioned].Value?
      ensures Data(Links())[repositioned].Index?
      ensures var d, d' := old(Data(Links())), Data(Links());
              d' == d[index := d[repositioned]][repositioned := d'[repositioned]]
    {
      hide Unpack, Uniform, Ids, Distinct, CtxIds, CtxDistinct, Linked, CtxLinked, Data, Consistent;
      hide RootAbove, Inorder, Plug;
      hide Balanced, Remaining, Rename, NoRepeats, Alive, RedBlack;
      ghost var m := Links();
      ghost var c, t := Isolate(index, successor, c0, t0, k);
      NotAlone(Plug(c0, t0), c, t);
      whole := Unlink(index, c, t);
      SameKinds(m, Links());
      repositioned := Release(index, whole);
    }

    /** Deletes the only node. */
    method DeleteOnly(index: nat)
      requires Valid() && index in Order() && size == 1
      modifies this, storage, storage.slots
      ensures Valid() && size == 0 && Order() == [] && Model() == []
    {
      hide Unpack, Uniform, Ids, Distinct, Linked, Data, Consistent, Inorder, Balanced, Alive, Entries;
      hide Points, Ascending;
      ghost var m := Links();
      OnlyNode(lt, m, root, shape, index);
      var repositioned := Reclaim(index);
      root := NULL_INDEX;
      size := 0;
      shape := Leaf;
      EmptyState(lt, Links());
    }

    /** Deletes one of several nodes. */
    method DeleteFromMany(index: nat, ghost c0: Ctx, ghost t0: Tree, ghost k: nat)
      returns (successor: nat, repositioned: nat)
      requires Valid() && size > 1 && At(c0, t0) && Plug(c0, t0) == shape && t0.Br? && t0.i == index
      requires k == |Before(c0)| + |Inorder(t0.l)| < size && Order()[k] == index && index < storage.slots.Length
      modifies this, storage, storage.slots
      ensures Valid() && size == old(size) - 1 && Model() == RemoveAt(old(Model()), k)
      ensures repositioned < NULL_INDEX && (storage.policy == Pool ==> repositioned == index)
      ensures Order() == RenameSeq(RemoveAt(old(Order()), k), repositioned, index)
      ensures successor == IndexAt(Order(), k)
      ensures MovesIndices(RemoveAt(old(Order()), k), old(Data(Links())), Data(Links()), repositioned, index)
    {
      hide Unpack, Uniform, Ids, Distinct, CtxIds, CtxDistinct, Linked, CtxLinked, Data, Consistent;
      hide RootAbove, Inorder, Plug;
      hide Balanced, Remaining, Rename, NoRepeats, Alive, Entries, Points, Ascending, MovesIndices, RedBlack;
      hide ValidState;
      ghost var m, r, ids := Links(), root, Inorder(shape);
      StateFacts(lt, m, root, size, shape);
      View(m, root, c0, t0);
      UniqueIndices(lt, m, root, size, shape);
      successor := Next(Right, index);
      assert Order()[k] == index && successor == IndexAt(Order(), k + 1);
      size := size - 1;
      ghost var whole;
      repositioned, whole := TakeOut(index, successor, c0, t0, k);
      ghost var m' := Links();
      RemovedState(lt, m, r, old(shape), k, whole, repositioned, index, m', root);
      SuccessorAfter(ids, k, repositioned, index, successor);
      RemovedIndices(ids, k, Data(m), Data(m'), repositioned, index);
      shape := Rename(whole, repositioned, index);
      if repositioned != index && successor == repositioned {
        successor := index;
      }
    }

    /** Deletes a live node and returns the index of its successor and of the node that was moved into its
        slot; `k` is the position of the node in key order. */
    method DeleteAt(index: nat) returns (successor: nat, repositioned: nat, ghost k: nat)
      requires Valid() && index in Order()
      modifies this, storage, storage.slots
      ensures Valid() && size == old(size) - 1
      ensures k < old(size) && old(Order())[k] == index
      ensures Model() == RemoveAt(old(Model()), k)
      ensures size > 0 ==> repositioned < NULL_INDEX && (storage.policy == Pool ==> repositioned == index)
      ensures size == 0 ==> repositioned == NULL_INDEX
      ensures Order() == RenameSeq(RemoveAt(old(Order()), k), repositioned, index)
      ensures successor == IndexAt(Order(), k)
      ensures MovesIndices(RemoveAt(old(Order()), k), old(Data(Links())), Data(Links()), repositioned, index)
    {
      hide Unpack, Uniform, Ids, Distinct, CtxIds, CtxDistinct, Linked, CtxLinked, Data, Consistent;
      hide RootAbove, Inorder, Plug;
      hide Balanced, NoRepeats, Alive, Entries, Points, Ascending, MovesIndices;
      ghost var m := Links();
      ghost var c, t := LocateNode(m, root, shape, index);
      View(m, root, c, t);
      NodePosition(c, t, Left);
      k := |Before(c)| + |Inorder(t.l)|;
      if size == 1 {
        DeleteOnly(index);
        successor, repositioned := NULL_INDEX, NULL_INDEX;
        NothingMoved(old(Inorder(shape)), Data(m), Data(Links()), index);
      } else {
        successor, repositioned := DeleteFromMany(index, c, t, k);
      }
    }
  }
}
