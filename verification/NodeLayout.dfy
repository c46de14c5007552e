/**
  The two layouts of a tree node: with a field for the colour, or with the colour in the word of the
  parent index. Every write through the compact layout is the write to the node that it stands for.
 */
module NodeLayout {
  import opened IndexStorage
  import opened RedBlackMemory
  import opened RedBlackShape
  import opened RedBlackRename
  import opened PackedNode

  datatype Layout = DedicatedColor | EmbeddedColor

  datatype Stored<K, V> =
    | Dedicated(node: Node<K, V>)
    | Embedded(key: K, value: V, left: nat, right: nat, word: PackedWord)
  {
    /** The node as the tree reads it. */
    function Read(): Node<K, V> {
      match this
      case Dedicated(node) => node
      case Embedded(key, value, left, right, word) => Node(key, value, left, right, GetIndex(word), GetColor(word))
    }

    function WriteParent(parent: nat): Stored<K, V> {
      if Dedicated? then Dedicated(node.(parent := parent)) else this.(word := SetIndex(word, parent))
    }

    function WriteChild(side: Side, child: nat): Stored<K, V> {
      if Dedicated? then Dedicated(node.WithChild(side, child))
      else if side == Left then this.(left := child) else this.(right := child)
    }

    function WriteColor(red: bool): Stored<K, V> {
      if Dedicated? then Dedicated(node.(red := red)) else this.(word := SetColor(word, red))
    }

    function WriteLinks(n: Node<K, V>): Stored<K, V> {
      WriteParent(n.parent).WriteChild(Left, n.left).WriteChild(Right, n.right).WriteColor(n.red)
    }
  }

  predicate InLayout<K, V>(layout: Layout, s: Stored<K, V>) { s.Embedded? <==> layout == EmbeddedColor }

  /** The node that a key and a value are stored with. */
  function Fresh<K, V>(layout: Layout, key: K, value: V): Stored<K, V> {
    match layout
    case DedicatedColor => Dedicated(Node(key, value, NULL_INDEX, NULL_INDEX, NULL_INDEX, false))
    case EmbeddedColor =>
      Embedded(key, value, NULL_INDEX, NULL_INDEX, SetColor(SetIndex(Words.Zeros(WORD_BITS), NULL_INDEX), false))
  }

  /** The indices that both layouts hold: null, and those below the local null. */
  predicate Storable(index: nat) { index == NULL_INDEX || index < LOCAL_NULL_INDEX }

  lemma FreshReads<K, V>(layout: Layout, key: K, value: V)
    ensures Fresh(layout, key, value).Read() == Node(key, value, NULL_INDEX, NULL_INDEX, NULL_INDEX, false)
    ensures InLayout(layout, Fresh(layout, key, value))
  {
    hide GetIndex, GetColor, SetIndex, SetColor;
    var zeros := Words.Zeros(WORD_BITS);
    IndexReadsBack(zeros, NULL_INDEX);
    ColorReadsBack(SetIndex(zeros, NULL_INDEX), false);
  }

  lemma ParentReads<K, V>(s: Stored<K, V>, parent: nat)
    requires Storable(parent)
    ensures s.WriteParent(parent).Read() == s.Read().(parent := parent)
  {
    hide GetIndex, GetColor, SetIndex, SetColor;
    if s.Embedded? {
      IndexReadsBack(s.word, parent);
    }
  }

  lemma ChildReads<K, V>(s: Stored<K, V>, side: Side, child: nat)
    ensures s.WriteChild(side, child).Read() == s.Read().WithChild(side, child)
  {
    hide GetIndex, GetColor, SetIndex, SetColor;
  }

  lemma ColorReads<K, V>(s: Stored<K, V>, red: bool)
    ensures s.WriteColor(red).Read() == s.Read().(red := red)
  {
    hide GetIndex, GetColor, SetIndex, SetColor;
    if s.Embedded? {
      ColorReadsBack(s.word, red);
    }
  }

  lemma LinksRead<K, V>(s: Stored<K, V>, n: Node<K, V>)
    requires Storable(n.parent)
    ensures s.WriteLinks(n).Read() == n.(key := s.Read().key, value := s.Read().value)
  {
    var s1 := s.WriteParent(n.parent);
    var s2 := s1.WriteChild(Left, n.left);
    var s3 := s2.WriteChild(Right, n.right);
    ParentReads(s, n.parent);
    ChildReads(s1, Left, n.left);
    ChildReads(s2, Right, n.right);
    ColorReads(s3, n.red);
  }

  // ----- whole memories

  function ReadSlot<K, V>(s: Slot<Stored<K, V>>): Slot<Node<K, V>> {
    match s
    case Index(next) => Index(next)
    case Value(v) => Value(v.Read())
  }

  /** The memory as the tree reads it. */
  function Unpack<K, V>(m: seq<Slot<Stored<K, V>>>): (r: Memory<K, V>)
    ensures |r| == |m| && forall i :: 0 <= i < |m| ==> r[i] == ReadSlot(m[i])
  {
    seq(|m|, i requires 0 <= i < |m| => ReadSlot(m[i]))
  }

  /** All nodes are stored in the one layout. */
  ghost predicate Uniform<K, V>(layout: Layout, m: seq<Slot<Stored<K, V>>>) {
    forall i :: 0 <= i < |m| && m[i].Value? ==> InLayout(layout, m[i].v)
  }

  /** Nothing is stored, so nothing is read. */
  lemma UnpackNothing<K, V>(m: seq<Slot<Stored<K, V>>>)
    requires forall i :: 0 <= i < |m| ==> m[i].Index?
    ensures |Unpack(m)| == |m| && forall i :: 0 <= i < |m| ==> Unpack(m)[i].Index?
  {
  }

  lemma UnpackAt<K, V>(m: seq<Slot<Stored<K, V>>>, i: nat)
    requires i < |m|
    ensures |Unpack(m)| == |m| && Unpack(m)[i] == ReadSlot(m[i]) && Unpack(m)[i].Value? == m[i].Value?
  {
  }

  /** Writing a slot commutes with unpacking. */
  lemma UnpackUpdate<K, V>(m: seq<Slot<Stored<K, V>>>, i: nat, s: Slot<Stored<K, V>>)
    requires i < |m|
    ensures Unpack(m[i := s]) == Unpack(m)[i := ReadSlot(s)]
  {
  }

  /** Moving the last value into a gap commutes with unpacking. */
  lemma UnpackMove<K, V>(m: seq<Slot<Stored<K, V>>>, i: nat, last: nat, free: Slot<Stored<K, V>>)
    requires i < |m| && last < |m|
    ensures Unpack(m[i := m[last]][last := free]) == Unpack(m)[i := Unpack(m)[last]][last := ReadSlot(free)]
  {
  }

  /** The free slots are the same in both. */
  lemma UnpackConsistent<K, V>(policy: Policy, m: seq<Slot<Stored<K, V>>>, next: nat, free: seq<nat>)
    requires Consistent(policy, m, next, free)
    ensures Consistent(policy, Unpack(m), next, free)
  {
    hide FreeAt;
  }

  // ----- what a tree stores

  /** The parent of every node of a represented tree can be stored in either layout. */
  lemma ParentsStorable<K, V>(m: Memory<K, V>, root: nat, t: Tree, i: nat)
    requires Rep(m, root, Top, t) && |m| <= LOCAL_NULL_INDEX && i in Ids(t)
    ensures i < |m| && m[i].Value? && Storable(i) && Storable(m[i].v.parent)
  {
    hide Rep, Mutual;
    RepMutual(m, root, t);
    MutualAt(m, Ids(t), root, i);
  }

  /** So can the node that a hole hangs from. */
  lemma HoleParentStorable<K, V>(m: Memory<K, V>, root: nat, c: Ctx, t: Tree)
    requires Rep(m, root, c, t) && |m| <= LOCAL_NULL_INDEX
    ensures Storable(HoleParent(c))
  {
    RepIds(m, root, c, t);
  }
}
