/**
  The map operations on top of the red-black tree: erasure by key and by range, nearest keys,
  the iterator of the ordered map with its two sentinels, and whole runs.
 */
module RedBlackMap {
  import opened Sequences
  import opened IndexStorage
  import opened RedBlackShape
  import opened RedBlackMemory
  import opened NodeLayout
  import opened RedBlackRename
  import opened RedBlackState
  import opened RedBlackRemoval
  import opened SortedEntries
  import opened SortedRuns
  import opened RedBlackTree

  // ----- erasure

  /** Index `i` is in use and holds the entry that it held in `d`. */
  ghost predicate Stays<K, V>(i: nat, d: seq<Slot<Entry<K, V>>>, ids': seq<nat>, d': seq<Slot<Entry<K, V>>>) {
    i in ids' && i < |d| && |d'| == |d| && d'[i] == d[i]
  }

  ghost predicate EquivalentAt<K, V>(lt: (K, K) -> bool, d: seq<Slot<Entry<K, V>>>, i: nat, key: K) {
    i < |d| && d[i].Value? && Equivalent(lt, d[i].v.key, key)
  }

  method DeleteKey<K(!new), V>(tree: RedBlackTree<K, V>, key: K) returns (count: nat)
    requires tree.Valid()
    modifies tree, tree.storage, tree.storage.slots
    ensures tree.Valid() && tree.Model() == Without(tree.lt, old(tree.Model()), key)
    ensures count == if Occurs(tree.lt, old(tree.Model()), key) then 1 else 0
    ensures tree.size == old(tree.size) - count
    ensures tree.storage.policy == Pool ==>
              forall i :: i in old(tree.Order()) ==>
                Stays(i, old(Data(tree.Links())), tree.Order(), Data(tree.Links()))
                || EquivalentAt(tree.lt, old(Data(tree.Links())), i, key)
  {
    hide Unpack, Uniform, Inorder, Plug, Entries, Data, ValidState, Put, Consistent;
    ghost var m, ids := tree.Links(), tree.Order();
    StateFacts(tree.lt, m, tree.root, tree.size, tree.shape);
    var i, parent, isLeft;
    ghost var c, t, steps;
    i, parent, isLeft, c, t, steps := tree.FindWithParent(key);
    if i == NULL_INDEX {
      AllStay(m, ids);
      AbsentState(tree.lt, m, tree.root, tree.size, tree.shape, c, key);
      WithoutAbsent(tree.lt, tree.Model(), key);
      return 0;
    }
    ghost var p := FoundState(tree.lt, m, tree.root, tree.size, tree.shape, c, t, key);
    WithoutPresent(tree.lt, tree.Model(), p, key);
    UniqueIndices(tree.lt, m, tree.root, tree.size, tree.shape);
    var successor, repositioned;
    ghost var k;
    successor, repositioned, k := tree.DeleteAt(i);
    if tree.storage.policy == Pool {
      StayersOfDeletion(m, tree.Links(), ids, k, tree.Order(), repositioned);
      DataAt(m, i);
    }
    return 1;
  }

  lemma AllStay<K, V>(m: Memory<K, V>, ids: seq<nat>)
    requires Points(Data(m), ids)
    ensures forall i :: i in ids ==> Stays(i, Data(m), ids, Data(m))
  {
  }

  /** A deletion from the pool moves nothing. */
  lemma StayersOfDeletion<K, V>(m: Memory<K, V>, m': Memory<K, V>, ids: seq<nat>, k: nat, ids': seq<nat>, rep: nat)
    requires NoRepeats(ids) && k < |ids| && Points(Data(m), ids) && ids' == RenameSeq(RemoveAt(ids, k), rep, ids[k])
    requires ids' != [] ==> rep == ids[k]
    requires MovesIndices(RemoveAt(ids, k), Data(m), Data(m'), rep, ids[k])
    ensures forall i :: i in ids && i != ids[k] ==> Stays(i, Data(m), ids', Data(m'))
  {
    forall i | i in ids && i != ids[k]
      ensures Stays(i, Data(m), ids', Data(m'))
    {
      InRemoved(ids, k, i);
      var a :| 0 <= a < |RemoveAt(ids, k)| && RemoveAt(ids, k)[a] == i;
      assert ids'[a] == i;
      var b :| 0 <= b < |ids| && ids[b] == i;
    }
  }

  /** One iteration of a range erasure: deletes the entry at position `a` and follows the end of the range. */
  method DeleteFirstOfRange<K(!new), V>(tree: RedBlackTree<K, V>, index: nat, to: nat, ghost a: nat, ghost left: nat)
    returns (index': nat, to': nat)
    requires tree.Valid() && left > 0 && a + left <= tree.size
    requires index == IndexAt(tree.Order(), a) && to == IndexAt(tree.Order(), a + left)
    modifies tree, tree.storage, tree.storage.slots
    ensures tree.Valid() && tree.size == old(tree.size) - 1
    ensures a < |old(tree.Model())| && tree.Model() == RemoveAt(old(tree.Model()), a)
    ensures index' == IndexAt(tree.Order(), a) && to' == IndexAt(tree.Order(), a + left - 1)
  {
    hide Unpack, Uniform, Inorder, Entries, Data, ValidState, MovesIndices, NoRepeats, IndexAt, Linked, Ids;
    hide Distinct, Alive, Balanced, Consistent;
    ghost var ids := tree.Order();
    StateFacts(tree.lt, tree.Links(), tree.root, tree.size, tree.shape);
    UniqueIndices(tree.lt, tree.Links(), tree.root, tree.size, tree.shape);
    NoNullIndex(tree.Links(), tree.root, tree.shape);
    InRange(ids, a);
    SizeOfModel(tree);
    var successor, repositioned;
    ghost var k;
    successor, repositioned, k := tree.DeleteAt(index);
    SamePosition(ids, a, k);
    SizeOfModel(tree);
    index', to' := successor, to;
    if tree.size == 0 {
      RangeEmptied(ids, tree.Order(), a, left);
      return;
    }
    RangeStep(ids, a, left - 1, repositioned, to);
    if to == repositioned {
      to' := index;
    }
  }

  /** Erases the entries at positions [a, b) and returns the index of the entry that followed them. */
  method DeleteRange<K(!new), V>(tree: RedBlackTree<K, V>, from: nat, to: nat, ghost a: nat, ghost b: nat)
    returns (r: nat)
    requires tree.Valid() && a <= b <= tree.size
    requires from == IndexAt(tree.Order(), a) && to == IndexAt(tree.Order(), b)
    modifies tree, tree.storage, tree.storage.slots
    ensures tree.Valid() && b <= |old(tree.Model())|
    ensures tree.Model() == old(tree.Model())[..a] + old(tree.Model())[b..]
    ensures r == IndexAt(tree.Order(), a)
  {
    hide Unpack, Uniform, Inorder, Entries, Data, ValidState, NoRepeats, IndexAt, RemoveAt, Consistent;
    ghost var e := tree.Model();
    SizeOfModel(tree);
    assert e == e[..a] + e[a..];
    var index := from;
    r := to;
    ghost var left := b - a;
    RangeOpen(tree, a, left);
    while index != r
      invariant tree.Valid() && 0 <= left <= b - a && b <= |e| && |e| - (b - a) + left == tree.size
      invariant index == IndexAt(tree.Order(), a) && r == IndexAt(tree.Order(), a + left)
      invariant tree.Model() == e[..a] + e[b - left..]
      invariant index == r <==> left == 0
      decreases left
    {
      index, r := DeleteFirstOfRange(tree, index, r, a, left);
      RemoveSecond(e, a, b - left);
      left := left - 1;
      RangeOpen(tree, a, left);
      if tree.size == 0 {
        break;
      }
    }
  }

  /** The ends of a range coincide only when the range is empty. */
  lemma RangeOpen<K(!new), V>(tree: RedBlackTree<K, V>, a: nat, left: nat)
    requires tree.Valid() && a + left <= tree.size
    ensures IndexAt(tree.Order(), a) == IndexAt(tree.Order(), a + left) <==> left == 0
  {
    hide Unpack, Uniform, Inorder, Linked, Ids, Distinct, Alive, Balanced, Entries, Data, Points, Ascending;
    hide Consistent, StrictWeakOrder;
    UniqueIndices(tree.lt, tree.Links(), tree.root, tree.size, tree.shape);
    NoNullIndex(tree.Links(), tree.root, tree.shape);
    var ids := tree.Order();
    assert a < |ids| ==> ids[a] in ids;
  }

  lemma RangeEmptied(ids: seq<nat>, ids': seq<nat>, a: nat, left: nat)
    requires |ids| == 1 && ids' == [] && left > 0 && a + left <= |ids|
    ensures IndexAt(ids, a + left) == IndexAt(ids', a + left - 1)
  {
  }

  lemma InRange(ids: seq<nat>, k: nat)
    requires NULL_INDEX !in ids
    ensures IndexAt(ids, k) in ids <==> k < |ids|
    ensures k < |ids| ==> IndexAt(ids, k) == ids[k]
  {
  }

  lemma SamePosition(ids: seq<nat>, a: nat, k: nat)
    requires NoRepeats(ids) && a < |ids| && k < |ids| && ids[a] == ids[k]
    ensures a == k
  {
  }

  lemma RemoveSecond<T>(e: seq<T>, a: nat, b: nat)
    requires a <= b < |e|
    ensures RemoveAt(e[..a] + e[b..], a) == e[..a] + e[b + 1..]
  {
  }

  /** The bound of the range is followed when a deletion moves it. */
  lemma RangeStep(ids: seq<nat>, a: nat, left: nat, repositioned: nat, to: nat)
    requires NoRepeats(ids) && NULL_INDEX !in ids && a + left + 1 <= |ids| && to == IndexAt(ids, a + left + 1)
    requires repositioned < NULL_INDEX
    ensures (if to == repositioned then ids[a] else to)
            == IndexAt(RenameSeq(RemoveAt(ids, a), repositioned, ids[a]), a + left)
  {
    var rest := RemoveAt(ids, a);
    assert a + left < |rest| ==> rest[a + left] == ids[a + left + 1];
  }

  lemma SizeOfModel<K(!new), V>(tree: RedBlackTree<K, V>)
    requires tree.Valid()
    ensures |tree.Model()| == |tree.Order()| == tree.size
  {
  }

  // ----- nearest keys

  /** Whether an entry with key `x` qualifies: below (Left) or above (Right) `key`, strictly or not. */
  predicate Qualifies<K>(lt: (K, K) -> bool, x: K, key: K, side: Side, strict: bool) {
    if side == Left then (if strict then lt(x, key) else !lt(key, x))
    else (if strict then lt(key, x) else !lt(x, key))
  }

  /** The entries that qualify are exactly those from the `side` end up to position `k`, so `k` is the nearest. */
  ghost predicate IsNearest<K, V>(lt: (K, K) -> bool, s: seq<Entry<K, V>>, key: K, side: Side, strict: bool, k: int) {
    && (if side == Left then -1 <= k < |s| else 0 <= k <= |s|)
    && forall a :: 0 <= a < |s| ==>
         (Qualifies(lt, s[a].key, key, side, strict) <==> if side == Left then a <= k else a >= k)
  }

  /** Lower (Left, strict), floor (Left), higher (Right, strict) and ceiling (Right), computed from the
      outcome of the search alone. */
  method Nearest<K(!new), V>(tree: RedBlackTree<K, V>, key: K, side: Side, strict: bool) returns (r: nat, ghost k: int)
    requires tree.Valid()
    ensures IsNearest(tree.lt, tree.Model(), key, side, strict, k)
    ensures r == IndexAt(tree.Order(), k)
  {
    hide Unpack, Uniform, Inorder, Entries, Data, ValidState, Before, After, Rep, Plug, Alive, Consistent;
    hide IsNearest, StrictWeakOrder, Place;
    hide Points, RedBlack, Ids, Ascending;
    ghost var m, ids := tree.Links(), tree.Order();
    StateFacts(tree.lt, m, tree.root, tree.size, tree.shape);
    var i, parent, isLeft;
    ghost var c, t, steps;
    i, parent, isLeft, c, t, steps := tree.FindWithParent(key);
    if i != NULL_INDEX {
      ghost var p := FoundState(tree.lt, m, tree.root, tree.size, tree.shape, c, t, key);
      NearestPresent(tree.lt, tree.Model(), key, side, strict, p) by {
        StateAscending(tree.lt, m, tree.root, tree.size, tree.shape);
      }
      if strict {
        r := tree.Next(side, i);
        k := (p as int) + if side == Left then -1 else 1;
      } else {
        r, k := i, p;
      }
    } else {
      k := if side == Left then |Before(c)| - 1 else |Before(c)|;
      NearestAbsent(tree.lt, m, tree.shape, c, key, side, strict);
      HoleNeighbours(c, ids);
      if (if isLeft then Left else Right) == side.Other() {
        r := parent;
      } else {
        r := tree.Next(side, parent);
      }
    }
  }

  lemma StateAscending<K(!new), V>(lt: (K, K) -> bool, m: Memory<K, V>, root: nat, size: nat, shape: Tree)
    requires ValidState(lt, m, root, size, shape)
    ensures Points(Data(m), Inorder(shape)) && Ascending(lt, Entries(Data(m), Inorder(shape)))
  {
  }

  lemma NearestPresent<K(!new), V>(lt: (K, K) -> bool, s: seq<Entry<K, V>>, key: K, side: Side, strict: bool, p: nat)
    requires StrictWeakOrder(lt) && Ascending(lt, s) && p < |s| && Equivalent(lt, s[p].key, key)
    ensures IsNearest(lt, s, key, side, strict, if !strict then p else if side == Left then p - 1 else p + 1)
  {
    AroundEquivalent(lt, s, p, key);
    assert forall a :: 0 <= a < p ==> s[a] == s[..p][a];
    assert forall a :: p < a < |s| ==> s[a] == s[p + 1..][a - p - 1];
  }

  lemma NearestAbsent<K(!new), V>(lt: (K, K) -> bool, m: Memory<K, V>, shape: Tree, c: Ctx, key: K, side: Side,
                                  strict: bool)
    requires StrictWeakOrder(lt) && Plug(c, Leaf) == shape && Place(lt, Data(m), c, key)
    requires Points(Data(m), Inorder(shape))
    ensures IsNearest(lt, Entries(Data(m), Inorder(shape)), key, side, strict,
                      if side == Left then |Before(c)| - 1 else |Before(c)|)
  {
    hide Unpack, Uniform, Inorder, Plug, Entries, Points, Data;
    InsertedInorder(c, 0);
    EntriesConcat(Data(m), Before(c), After(c));
    var b, a := Entries(Data(m), Before(c)), Entries(Data(m), After(c));
    SplitNearest(lt, b, a, key, side, strict) by { EntriesSize(Data(m), Before(c)); }
  }

  lemma EntriesSize<K, V>(d: seq<Slot<Entry<K, V>>>, ids: seq<nat>)
    requires Points(d, ids)
    ensures |Entries(d, ids)| == |ids|
  {
  }

  lemma SplitNearest<K(!new), V>(lt: (K, K) -> bool, b: seq<Entry<K, V>>, a: seq<Entry<K, V>>, key: K, side: Side,
                                 strict: bool)
    requires StrictWeakOrder(lt) && AllBelow(lt, b, key) && AllAbove(lt, a, key)
    ensures IsNearest(lt, b + a, key, side, strict, if side == Left then |b| - 1 else |b|)
  {
    var s := b + a;
    assert forall x :: 0 <= x < |b| ==> s[x] == b[x];
    assert forall x :: |b| <= x < |s| ==> s[x] == a[x - |b|];
  }

  /** The parent of an empty place is the entry just before or just after it. */
  lemma HoleNeighbours(c: Ctx, ids: seq<nat>)
    requires Inorder(Plug(c, Leaf)) == ids
    ensures c.Top? ==> ids == [] && |Before(c)| == 0
    ensures c.In? ==> c.i in ids && c.i == IndexAt(ids, if c.side == Left then |Before(c)| else |Before(c)| - 1)
  {
    InsertedInorder(c, 0);
    if c.In? {
      HolePosition(c, Leaf);
      PlugInorder(c, Leaf);
    }
  }

  // ----- the iterator of the ordered map

  method Extreme<K(!new), V>(tree: RedBlackTree<K, V>, side: Side) returns (r: nat)
    requires tree.Valid()
    ensures r == IndexAt(tree.Order(), if side == Left then 0 else tree.size - 1)
  {
    hide Unpack, Uniform, Inorder, Linked, Ids, Distinct, Balanced, Entries, Data, Points, Ascending;
    hide Consistent, StrictWeakOrder, Plug;
    hide Beyond;
    ghost var c, t;
    RootOnTop(tree.Links(), tree.root, tree.shape);
    r, c, t := tree.Furthest(side, tree.root, Top, tree.shape);
    PlugTop(tree.shape);
    BeyondTop(side);
    if !tree.shape.Leaf? {
      NodePosition(c, t, side);
      EmptyInorder(Kid(t, side));
    } else {
      EmptyInorder(tree.shape);
    }
  }

  /** What an iterator stores at position `p`: the null index before the first entry, the capacity
      after the last one. */
  function Cursor(ids: seq<nat>, capacity: nat, p: int): nat {
    if p < 0 then NULL_INDEX else if p < |ids| then ids[p] else capacity
  }

  lemma CursorMeaning<K(!new), V>(tree: RedBlackTree<K, V>, p: int)
    requires tree.Valid() && -1 <= p <= tree.size
    ensures |tree.Order()| == tree.size && tree.storage.slots.Length < NULL_INDEX
    ensures var c := Cursor(tree.Order(), tree.storage.slots.Length, p);
            (c == NULL_INDEX <==> p == -1) && (c == tree.storage.slots.Length <==> p == tree.size)
    ensures forall k :: 0 <= k < tree.size && 0 <= p < tree.size && tree.Order()[k] == tree.Order()[p] ==> k == p
  {
    hide Unpack, Uniform, Inorder, Linked, Distinct, Balanced, Entries, Data, Ascending, Consistent;
    hide StrictWeakOrder, NoRepeats;
    var ids := tree.Order();
    StateFacts(tree.lt, tree.Links(), tree.root, tree.size, tree.shape);
    if 0 <= p < tree.size {
      InorderIds(tree.shape, ids[p]);
      RepIds(tree.Links(), tree.root, Top, tree.shape);
      UniqueIndices(tree.lt, tree.Links(), tree.root, tree.size, tree.shape);
      forall k | 0 <= k < tree.size && ids[k] == ids[p]
        ensures k == p
      {
        SamePosition(ids, k, p);
      }
    }
  }

  /** On an empty tree an iterator before the first entry cannot be advanced to the end. */
  method Advance<K(!new), V>(tree: RedBlackTree<K, V>, current: nat, ghost p: int) returns (r: nat)
    requires tree.Valid() && -1 <= p < tree.size && current == Cursor(tree.Order(), tree.storage.slots.Length, p)
    ensures r == if tree.size == 0 then NULL_INDEX else Cursor(tree.Order(), tree.storage.slots.Length, p + 1)
  {
    hide Unpack, Uniform, Inorder, ValidState, Consistent;
    CursorMeaning(tree, p);
    if current == NULL_INDEX {
      r := Extreme(tree, Left);
    } else {
      r := tree.Next(Right, current);
      assert tree.Order()[p] == current;
      r := if r == NULL_INDEX then tree.storage.slots.Length else r;
      CursorMeaning(tree, p + 1);
    }
  }

  method Recede<K(!new), V>(tree: RedBlackTree<K, V>, current: nat, ghost p: int) returns (r: nat)
    requires tree.Valid() && 0 <= p <= tree.size && current == Cursor(tree.Order(), tree.storage.slots.Length, p)
    ensures r == Cursor(tree.Order(), tree.storage.slots.Length, p - 1)
  {
    hide Unpack, Uniform, Inorder, ValidState, Consistent;
    CursorMeaning(tree, p);
    if current == tree.storage.slots.Length {
      r := Extreme(tree, Right);
    } else {
      r := tree.Next(Left, current);
      assert tree.Order()[p] == current;
    }
  }

  /** Iterating from begin to end visits every entry once, in key order. */
  method ForwardWalk<K(!new), V>(tree: RedBlackTree<K, V>) returns (visited: seq<nat>)
    requires tree.Valid()
    ensures visited == tree.Order()
  {
    hide Unpack, Uniform, Inorder, ValidState, Consistent;
    var capacity := tree.storage.slots.Length;
    var current := Extreme(tree, Left);
    if current == NULL_INDEX {
      current := capacity;
    }
    visited := [];
    ghost var p := 0;
    CursorMeaning(tree, 0);
    while current != capacity
      invariant 0 <= p <= tree.size == |tree.Order()| && current == Cursor(tree.Order(), capacity, p)
      invariant current == capacity <==> p == tree.size
      invariant visited == tree.Order()[..p]
      decreases tree.size - p
    {
      visited := visited + [current];
      current := Advance(tree, current, p);
      p := p + 1;
      CursorMeaning(tree, p);
    }
  }

  /** Iterating from rbegin to rend visits every entry once, in reverse key order. */
  method ReverseWalk<K(!new), V>(tree: RedBlackTree<K, V>) returns (visited: seq<nat>)
    requires tree.Valid()
    ensures |visited| == tree.size == |tree.Order()|
    ensures forall k :: 0 <= k < tree.size ==> visited[k] == tree.Order()[tree.size - 1 - k]
  {
    hide Unpack, Uniform, Inorder, ValidState, Consistent;
    CursorMeaning(tree, tree.size);
    CursorMeaning(tree, 0);
    var capacity := tree.storage.slots.Length;
    var current := Recede(tree, capacity, tree.size);
    var first := Extreme(tree, Left);
    var end := first;
    if first != NULL_INDEX {
      end := Recede(tree, first, 0);
    }
    visited := [];
    ghost var p := tree.size - 1;
    CursorMeaning(tree, p);
    while current != end
      invariant -1 <= p < tree.size && current == Cursor(tree.Order(), capacity, p)
      invariant current == end <==> p == -1
      invariant |visited| == tree.size - 1 - p
      invariant forall k :: 0 <= k < |visited| ==> visited[k] == tree.Order()[tree.size - 1 - k]
      decreases p
    {
      visited := visited + [current];
      current := Recede(tree, current, p);
      p := p - 1;
      CursorMeaning(tree, p);
    }
  }

  // ----- whole runs

  /** No insertion of a new key finds the container full. */
  ghost predicate Fits<K, V>(lt: (K, K) -> bool, s: seq<Entry<K, V>>, commands: seq<Command<K, V>>, capacity: nat)
    decreases |commands|
  {
    commands != [] ==>
      && (commands[0].Insert? ==> |s| < capacity || Occurs(lt, s, commands[0].key))
      && Fits(lt, Effect(lt, s, commands[0]), commands[1..], capacity)
  }

  ghost predicate Spared<K, V>(lt: (K, K) -> bool, commands: seq<Command<K, V>>, key: K) {
    forall c :: c in commands && c.Erase? ==> !Equivalent(lt, key, c.key)
  }

  /** Every run of insertions and erasures turns the entries into what the reference operations make of
      them. With the pool, an entry that no command erases keeps its physical index throughout. */
  method Run<K(!new), V>(tree: RedBlackTree<K, V>, commands: seq<Command<K, V>>)
    requires tree.Valid() && Fits(tree.lt, tree.Model(), commands, tree.storage.slots.Length)
    modifies tree, tree.storage, tree.storage.slots
    ensures tree.Valid() && tree.Model() == Effects(tree.lt, old(tree.Model()), commands)
    ensures tree.storage.policy == Pool ==>
              forall i :: i in old(tree.Order()) && SparedAt(tree.lt, old(Data(tree.Links())), i, commands) ==>
                Stays(i, old(Data(tree.Links())), tree.Order(), Data(tree.Links()))
  {
    hide Unpack, Uniform, Inorder, ValidState, Consistent, Put, Without, Data, Entries, Occurs;
    ghost var d, ids, e := Data(tree.Links()), tree.Order(), tree.Model();
    AllStay(tree.Links(), ids) by {
      StateFacts(tree.lt, tree.Links(), tree.root, tree.size, tree.shape);
    }
    for n := 0 to |commands|
      invariant tree.Valid() && Fits(tree.lt, tree.Model(), commands[n..], tree.storage.slots.Length)
      invariant Effects(tree.lt, e, commands) == Effects(tree.lt, tree.Model(), commands[n..])
      invariant tree.storage.policy == Pool ==>
                  forall i :: i in ids && SparedAt(tree.lt, d, i, commands) ==>
                    Stays(i, d, tree.Order(), Data(tree.Links()))
    {
      SizeOfModel(tree);
      ghost var rest := commands[n..];
      assert rest[0] == commands[n] && rest[1..] == commands[n + 1..];
      match commands[n] {
        case Insert(key, value) =>
          var i, inserted := tree.Insert(key, value);
        case Erase(key) =>
          assert commands[n] in commands;
          var count := DeleteKey(tree, key);
      }
    }
    assert commands[|commands|..] == [];
  }

  ghost predicate SparedAt<K, V>(lt: (K, K) -> bool, d: seq<Slot<Entry<K, V>>>, i: nat, commands: seq<Command<K, V>>) {
    i < |d| && d[i].Value? && Spared(lt, commands, d[i].v.key)
  }

  /** Every tree that is reached from an empty one, with either layout of the nodes and either storage. */
  method RunFromEmpty<K(!new), V>(lt: (K, K) -> bool, layout: Layout, policy: Policy, capacity: nat,
                                  commands: seq<Command<K, V>>) returns (tree: RedBlackTree<K, V>)
    requires StrictWeakOrder(lt) && capacity <= LOCAL_NULL_INDEX && Fits<K, V>(lt, [], commands, capacity)
    ensures fresh(tree) && tree.Valid() && tree.layout == layout && tree.storage.policy == policy
    ensures tree.Model() == Effects(lt, [], commands) && tree.size == |tree.Model()|
  {
    hide Unpack, ValidState, Consistent, Data, Entries, Inorder;
    tree := new RedBlackTree(lt, layout, policy, capacity);
    Run(tree, commands);
    SizeOfModel(tree);
  }
}
