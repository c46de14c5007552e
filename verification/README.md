# Verified models of the fixed-capacity containers

The library stores no pointers: every link is an index into a fixed array. This project models the four
groups of containers in which that makes correctness subtle, as Dafny classes over arrays whose methods
follow the code, and proves what they are for. Capacity is a parameter everywhere, so that every statement
holds for all capacities.

- **Red-black tree over index storage** (`IndexStorage`, `RedBlackShape`, `RedBlackMemory`, `RedBlackState`,
  `RedBlackRename`, `RedBlackRemoval`, `PackedNode`, `NodeLayout`, `RedBlackTree`, `RedBlackMap`, `SortedEntries`,
  `SortedRuns`).
  `RedBlackShape` has trees of indices and one-hole contexts without memory and proves what every step of the two
  fixups keeps; `RedBlackMemory` says which links represent a tree seen from a node, so that parent links are the
  context; the class `RedBlackTree` follows the code. Its nodes are stored with a colour field or with parent and
  colour packed in one word (`NodeLayout`), and every statement about it holds for both layouts. The comparison is any
  strict weak order.
- **Robin Hood hash table over a linked list over a pool** (`RobinHood`, `LinkedList`, `HashTable`, `HashMap`).
  The hash is any function that respects key equality.
- **Deque and circular deque** (`CircularIndexing`, `Deque`, `DequeRuns`, `CircularDeque`, `CircularDequeRuns`).
- **Bitset** (`Words`, `Bitset`). A machine word is the sequence of its bits; `Words` connects it to its value.

Each of the four maps and deques has a `Run`, which executes any list of commands and ends in the contents that a
reference on sequences computes. What such a reference computes is said by laws that speak of the commands alone:
`SortedRuns.RunLeaves` and `SortedRuns.RunOccurs` for the tree, `HashMap.LastWriter` and `HashMap.LaterInsertedLater`
for the hash map, the element laws and queue and stack laws of `DequeRuns`, and `CircularDequeRuns`, which compares the
circular deque with the plain one and says what overflow drops.

`dafny verify dfyconfig.toml` checks the whole project. `Products` and `Sequences` hold shared arithmetic and sequence notions.

## How the model relates to the code

- `assert_or_abort` and failed checks are preconditions, except where the point is when they happen (the circular
  one-pass insertion returns `done`).
- Where the code has two mirrored halves (rotations, fixups, successor and predecessor, lower and higher) the model
  has one method with a `side` parameter, used with both values.
- The storage and the compactness template parameters are the constants `policy` of `Storage` and `layout` of
  `RedBlackTree`; both storages and both node layouts go through the same tree code. `Links()` is the memory as the
  tree reads it: it unpacks what is stored.
- While `fix_after_deletion` runs on a childless black node, that node still hangs in the tree but no longer counts;
  the shape `Doomed` stands for it.
- `ghost` parameters such as positions and contexts only name what the proof is about.
- Machine integers: bucket words are 32 bits and wrap around, cycle counts are signed 64-bit, deque positions are
  64-bit, packed indices are words of 64 bits; other indices never reach their limits, which the invariants say.

## What the proofs found

- **Structural swap of siblings.** The swap works for every pair of nodes except the left and the right child of one
  node given in this order: redirecting the parent to the second then undoes redirecting it to the first
  (`RedBlackRename.SwappedApart`, `RedBlackRename.SiblingSwapExample`). Deletion never swaps siblings
  (`RedBlackRemoval.TwoChildren`).
- **Hash table, maximal bucket count.** With 2^24 - 1 buckets and as many entries the probe word can wrap around.
  `HashTable.LappedAt` shows that this needs a full table whose elements all share one home bucket, and
  `HashTable.LapStop` that the lookup then still ends, in the second round and with the right answer. So lookup needs
  no bound beyond the one the code asserts.
- **Deque, empty range.** Inserting or erasing an empty range in front of other elements constructs each of them onto
  itself and destroys it. `Deque.FixedDeque.InsertRange` and `Deque.FixedDeque.Erase` state exactly when the deque
  survives (`Lossless`), and `Deque.EmptyInsertionExample` and `Deque.EmptyErasureExample` are instances. The same happens
  in the circular deque when all incoming elements are dropped (`Survives`, `CircularDeque.DroppedRangeExample`).
- **Deque of capacity one.** `CircularIndexing.OverflowOnlyForOne`: the signed cycle count, which the deque does not
  use, overflows exactly for capacity one once the start is below its initial value. The index is not affected.
- **Circular deque, one-pass insertion.** It fails exactly for a non-empty range into a full deque at begin (which
  includes capacity zero), where the other algorithm drops the whole range.
- **Bitset from an integer.** Between 33 and 63 bits nothing is masked; `Bitset.FixedBitset.FromInteger` gives the
  exact condition.
- **Packed node.** The local null index is accepted by `set_index` but reads back as null.

## Model

| member | source | states |
|---|---|---|
| `IndexStorage.Storage.constructor` | include/fixed_containers/fixed_index_based_storage.hpp:44-51 | a new storage holds no values; the pool's slots form one free list in index order |
| `IndexStorage.Storage.Emplace` | include/fixed_containers/fixed_index_based_storage.hpp:63-185 | fills exactly one free slot and keeps free slots and free list in bijection (pool), or the values a prefix (contiguous) |
| `IndexStorage.Storage.Delete` | include/fixed_containers/fixed_index_based_storage.hpp:72-193 | the pool frees the slot in place; the contiguous storage moves the last value into the gap and reports it; nothing else changes and the storage is not full afterwards |
| `IndexStorage.Taken` | include/fixed_containers/fixed_index_based_storage.hpp:63-70 | taking the head of an acyclic, complete free list leaves an acyclic, complete free list |
| `IndexStorage.Freed` | include/fixed_containers/fixed_index_based_storage.hpp:72-78 | pushing a freed slot leaves an acyclic, complete free list |
| `IndexStorage.FullMeansAllLive` | include/fixed_containers/fixed_index_based_storage.hpp:54 | the head of the free list is the end marker exactly when all slots hold values |
| `IndexStorage.Storage.CopyFreeList` | include/fixed_containers/fixed_index_based_storage.hpp:85-118 | copying the whole array and walking the free list agree on every free slot; the walk terminates |
| `RedBlackShape.PlugRedBlack` | include/fixed_containers/fixed_red_black_tree.hpp:573-628 | a balanced subtree in a matching context is a red-black tree: the invariant splits at any node |
| `RedBlackShape.UnplugRedBlack` | include/fixed_containers/fixed_red_black_tree.hpp:573-628 | the converse: every node of a red-black tree splits it into a balanced subtree and a matching context |
| `RedBlackShape.LiftedKeeps` | include/fixed_containers/fixed_red_black_tree.hpp:583-590 | red uncle: recolouring moves the one possible red-red edge two levels up and keeps nodes, order and black heights |
| `RedBlackShape.InnerKeeps` | include/fixed_containers/fixed_red_black_tree.hpp:593-597 | rotating an inner grandchild outwards keeps nodes, order and black heights and leaves the same single violation |
| `RedBlackShape.OuterKeeps` | include/fixed_containers/fixed_red_black_tree.hpp:598-600 | the last rotation of the insertion fixup removes the violation one level up |
| `RedBlackShape.RedSiblingKeeps` | include/fixed_containers/fixed_red_black_tree.hpp:758-764 | red sibling: the missing black node is passed one level down, the new sibling is black |
| `RedBlackShape.BlackNephewsKeep` | include/fixed_containers/fixed_red_black_tree.hpp:766-771 | black nephews: the missing black node is passed to the parent |
| `RedBlackShape.NearNephewKeeps` | include/fixed_containers/fixed_red_black_tree.hpp:774-780 | the near nephew's rotation keeps the deficit and makes the far nephew red |
| `RedBlackShape.FarNephewSettles` | include/fixed_containers/fixed_red_black_tree.hpp:781-785 | the far nephew's rotation pays for the missing black node: the whole tree is red-black again |
| `RedBlackShape.OnlyChildDeficit` | include/fixed_containers/fixed_red_black_tree.hpp:676-705 | splicing out a node with one child leaves at most one missing black node, at the child |
| `RedBlackShape.ChildlessDeficit` | include/fixed_containers/fixed_red_black_tree.hpp:706-713 | a childless black node that is about to be cut off counts as one missing black node while it still hangs in the tree |
| `RedBlackShape.PathIsLogarithmic` | include/fixed_containers/fixed_red_black_tree.hpp:219-248 | in a red-black tree of n nodes every path has at most 2*log2(n+1) nodes |
| `RedBlackShape.StepsAreLogarithmic` | include/fixed_containers/fixed_red_black_tree.hpp:219-248 | a search that has looked at the nodes above a place, and at the node there if there is one, has made at most 2*log2(n+1) iterations |
| `RedBlackMemory.Rotated` | include/fixed_containers/fixed_red_black_tree.hpp:503-571 | the link writes of a rotation represent exactly the rotated subtree in the same context, parent links included |
| `RedBlackMemory.Attached` | include/fixed_containers/fixed_red_black_tree.hpp:133-154 | a new leaf linked under the parent found by the search represents the context with that leaf |
| `RedBlackMemory.Spliced` | include/fixed_containers/fixed_red_black_tree.hpp:678-695 | bypassing a node with one child represents the context with the child in its place |
| `RedBlackMemory.Cut` | include/fixed_containers/fixed_red_black_tree.hpp:715-727 | clearing the parent's link to a childless node represents the context with an empty hole |
| `RedBlackMemory.View` | include/fixed_containers/fixed_red_black_tree.hpp:473-501 | what the accessors read at a node (children, parent, colour, being the root) is what the represented tree says |
| `RedBlackTree.RedBlackTree.Rotate` | include/fixed_containers/fixed_red_black_tree.hpp:503-571 | both rotations, for either side: the tree with the rotated subtree is represented; keys, values and slots are untouched |
| `RedBlackTree.RedBlackTree.FixAfterInsertion` | include/fixed_containers/fixed_red_black_tree.hpp:573-628 | from one possible red-red edge to a red-black tree with the same nodes in the same order; every iteration moves strictly up |
| `RedBlackTree.RedBlackTree.FindWithParent` | include/fixed_containers/fixed_red_black_tree.hpp:219-248 | finds the node with an equivalent key, or the one place where the key belongs, within 2*log2(n+1) iterations of the loop, counted in `steps` |
| `RedBlackTree.RedBlackTree.InsertNewAt` | include/fixed_containers/fixed_red_black_tree.hpp:128-157 | linking a new node into that place yields a valid tree whose entries are the old ones with the new one in order; no other slot changes its entry |
| `RedBlackTree.RedBlackTree.Insert` | include/fixed_containers/fixed_red_black_tree.hpp:91-127 | insertion refines insertion into a sorted sequence of entries, leaves an equivalent key alone, and keeps every physical index |
| `RedBlackTree.RedBlackTree.Next` | include/fixed_containers/fixed_red_black_tree.hpp:383-436 | successor and predecessor by parent links are the neighbours in key order, for every node |
| `RedBlackTree.RedBlackTree.DeletionStep` | include/fixed_containers/fixed_red_black_tree.hpp:752-822 | one iteration keeps nodes and order and ends strictly higher or on a red node, although the red-sibling case first goes down |
| `RedBlackTree.RedBlackTree.FixAfterDeletion` | include/fixed_containers/fixed_red_black_tree.hpp:748-825 | terminates and turns any tree with one missing black node into a red-black tree with the same nodes in the same order |
| `RedBlackTree.RedBlackTree.SwapNodes` | include/fixed_containers/fixed_red_black_tree_ops.hpp:105-211 | exchanges exactly the two tree positions and colours, updates the root, and leaves all keys and values where they are, if and only if the two nodes are not the left and the right child of one node, in this order |
| `RedBlackTree.RedBlackTree.FixupNeighbours` | include/fixed_containers/fixed_red_black_tree_ops.hpp:76-103 | exactly the neighbours' links to the node are redirected |
| `RedBlackRename.SwappedApart` | include/fixed_containers/fixed_red_black_tree_ops.hpp:136-211 | the link writes for two nodes of which neither is the other's parent rename the two indices in every node's links, if and only if they are not the left and the right child of one node, in this order |
| `RedBlackRename.TwiceTold` | include/fixed_containers/fixed_red_black_tree_ops.hpp:76-103 | telling a node about both exchanged nodes renames both, unless they are its left and its right child: then the second telling undoes the first |
| `RedBlackRename.SiblingSwapExample` | include/fixed_containers/fixed_red_black_tree_ops.hpp:105-211 | three nodes: exchanging the right child with the left one works, exchanging the left with the right one does not |
| `RedBlackRename.SwappedWithParent` | include/fixed_containers/fixed_red_black_tree_ops.hpp:136-211 | the link writes for a node and its parent do the same |
| `RedBlackRename.RenameRep` | include/fixed_containers/fixed_red_black_tree_ops.hpp:105-211 | memory whose links are renamed represents the renamed tree |
| `RedBlackRename.RepRenamed` | include/fixed_containers/fixed_red_black_tree_ops.hpp:105-211 | the converse: only memory whose links are renamed represents the renamed tree |
| `RedBlackRename.RelocatedRenames` | include/fixed_containers/fixed_red_black_tree.hpp:730-743 | moving the last node into the freed slot and redirecting its neighbours renames that one index everywhere |
| `RedBlackRemoval.TwoChildren` | include/fixed_containers/fixed_red_black_tree.hpp:662-665 | the successor of a node with two children is the leftmost node of its right subtree and never its sibling |
| `RedBlackRemoval.AfterSwap` | include/fixed_containers/fixed_red_black_tree.hpp:662-673 | after the swap the node to delete has at most one child and what remains in order is the old order without it |
| `RedBlackRemoval.RemovedState` | include/fixed_containers/fixed_red_black_tree.hpp:630-746 | removing a node and renaming a moved index yields a valid tree whose entries are the old ones without that entry |
| `RedBlackRemoval.SuccessorAfter` | include/fixed_containers/fixed_red_black_tree.hpp:733-745 | the reported successor, renamed if it was the node that moved, is the entry that now stands at the deleted position |
| `RedBlackTree.RedBlackTree.DeleteAt` | include/fixed_containers/fixed_red_black_tree.hpp:630-746 | deleting any live node of any valid tree, with either storage: valid tree, exactly that entry gone, true successor, and every other entry at its old index except the reported moved one; for the only node, no moved one |
| `RedBlackMap.DeleteKey` | include/fixed_containers/fixed_red_black_tree.hpp:159-169 | removes the entry with an equivalent key if there is one; with the pool all other entries stay at their physical index |
| `RedBlackMap.DeleteRange` | include/fixed_containers/fixed_red_black_tree.hpp:176-203 | terminates with either storage, removes exactly the entries at positions [a, b) and returns the entry that followed them, also when deletions move the bound |
| `RedBlackMap.Nearest` | include/fixed_containers/fixed_red_black_tree.hpp:256-328 | lower, higher, floor and ceiling from the outcome of one search are the nearest qualifying keys of the whole key set |
| `RedBlackMap.Extreme` | include/fixed_containers/fixed_red_black_tree.hpp:342-381 | minimum and maximum are the first and last entry |
| `RedBlackMap.Advance` | include/fixed_containers/fixed_map.hpp:94-105 | advancing an iterator goes to the next position, with the two sentinels before the first and after the last; on an empty tree the first sentinel stays |
| `RedBlackMap.Recede` | include/fixed_containers/fixed_map.hpp:106-116 | receding goes to the previous position, so that it undoes advancing |
| `RedBlackMap.ForwardWalk` | include/fixed_containers/fixed_map.hpp:279-290 | iteration from begin to end visits every entry once in key order |
| `RedBlackMap.ReverseWalk` | include/fixed_containers/fixed_map.hpp:292-306 | reverse iteration visits every entry once in reverse key order |
| `RedBlackMap.Run` | include/fixed_containers/fixed_red_black_tree.hpp:91-171 | every run of insertions and erasures refines the sorted-sequence operations, whose runs `SortedRuns.RunLeaves` describes, with either node layout and either storage, and with the pool every entry that no command erases keeps its physical index throughout |
| `RedBlackMap.RunFromEmpty` | include/fixed_containers/fixed_red_black_tree.hpp:65-171 | every tree reached from an empty one, in either layout, holds what the reference run makes of nothing (an entry for every key that is inserted and not erased later, by `SortedRuns.RunOccurs`), and its size is the number of its entries |
| `SortedRuns.RunLeaves` | include/fixed_containers/fixed_red_black_tree.hpp:91-169 | what any run leaves for a key, entry by entry and in terms of its commands: the old entry if it was there and no command erases the key, else the entry of the first insertion of the key that no erasure follows, and nothing else |
| `SortedRuns.RunOccurs` | include/fixed_containers/fixed_red_black_tree.hpp:91-169 | a key is there after a run if and only if it was there and no command erases it, or some insertion of it has no later erasure |
| `SortedRuns.EffectsAscending` | include/fixed_containers/fixed_red_black_tree.hpp:91-169 | every run keeps the entries in strict key order, without two equivalent keys |
| `SortedEntries.PutEntries` | include/fixed_containers/fixed_red_black_tree.hpp:91-157 | the reference insertion adds exactly the new entry, and only if no key is equivalent |
| `SortedEntries.WithoutEntries` | include/fixed_containers/fixed_red_black_tree.hpp:159-169 | the reference removal removes exactly the entries with an equivalent key |
| `RedBlackState.FullBySize` | include/fixed_containers/fixed_red_black_tree.hpp:84 | the storage is full exactly when the number of reachable nodes is the capacity |
| `PackedNode.IndexReadsBack` | include/fixed_containers/fixed_red_black_tree_types.hpp:50-67 | an accepted index reads back if and only if it is not the local null; the colour is untouched |
| `PackedNode.ColorReadsBack` | include/fixed_containers/fixed_red_black_tree_types.hpp:69-78 | a colour reads back and the index is untouched |
| `PackedNode.WordIsIndexAndColor` | include/fixed_containers/fixed_red_black_tree_types.hpp:50-78 | two words are equal if and only if their indices and colours are |
| `NodeLayout.ParentReads` | include/fixed_containers/fixed_red_black_tree_nodes.hpp:230-237 | writing the parent through either layout is writing the parent of the node it stands for, for null and every index below the local null |
| `NodeLayout.ColorReads` | include/fixed_containers/fixed_red_black_tree_nodes.hpp:254-261 | writing the colour through either layout is writing the colour of the node it stands for |
| `NodeLayout.LinksRead` | include/fixed_containers/fixed_red_black_tree_ops.hpp:20-70 | writing all links and the colour through either layout leaves key and value and reads back |
| `NodeLayout.FreshReads` | include/fixed_containers/fixed_red_black_tree_nodes.hpp:193-221 | a new node reads as black and without links in either layout |
| `NodeLayout.UnpackUpdate` | include/fixed_containers/fixed_red_black_tree_storage.hpp:104-138 | writing a slot commutes with reading the whole memory |
| `NodeLayout.UnpackMove` | include/fixed_containers/fixed_index_based_storage.hpp:187-193 | moving the last value into a gap commutes with reading the whole memory |
| `NodeLayout.UnpackConsistent` | include/fixed_containers/fixed_index_based_storage.hpp:54-78 | the free slots are the same whether the memory is read or not |
| `NodeLayout.ParentsStorable` | include/fixed_containers/fixed_red_black_tree_types.hpp:62-67 | every parent stored in a represented tree is null or below the local null, so that the compact layout accepts it |
| `RedBlackTree.RedBlackTree.SetParent` | include/fixed_containers/fixed_red_black_tree_nodes.hpp:230-237 | the tree's write of a parent changes that parent alone, in either layout |
| `RedBlackTree.RedBlackTree.SetColor` | include/fixed_containers/fixed_red_black_tree_nodes.hpp:254-261 | the tree's write of a colour recolours that node alone, in either layout |
| `RedBlackTree.RedBlackTree.Allocate` | include/fixed_containers/fixed_red_black_tree_storage.hpp:140-144 | a new node is stored in a free slot in the layout of the tree |
| `RedBlackTree.RedBlackTree.Reclaim` | include/fixed_containers/fixed_red_black_tree_storage.hpp:146-149 | a slot is returned and at most one node is moved, in either layout |
| `PackedNode.IndexWithColor.constructor` | include/fixed_containers/fixed_red_black_tree_types.hpp:42-48 | a new word holds the given index, with the local null read as null, and the given colour |
| `PackedNode.IndexWithColor.StoreIndex` | include/fixed_containers/fixed_red_black_tree_types.hpp:62-67 | replaces the index, with the local null read as null, and keeps the colour |
| `PackedNode.IndexWithColor.StoreColor` | include/fixed_containers/fixed_red_black_tree_types.hpp:74-78 | replaces the colour and keeps the index |
| `LinkedList.LinkedIn` | include/fixed_containers/fixed_doubly_linked_list.hpp:66-77 | the four link writes of an insertion keep the chain one ring through the sentinel with next and prev inverse |
| `LinkedList.Bypassed` | include/fixed_containers/fixed_doubly_linked_list.hpp:95-103 | the two link writes of a deletion do the same |
| `LinkedList.FullBySize` | include/fixed_containers/fixed_doubly_linked_list.hpp:52 | the pool is full exactly when the list has as many elements as the capacity; live slots are exactly those in the ring |
| `LinkedList.FixedList.constructor` | include/fixed_containers/fixed_doubly_linked_list.hpp:35-46 | a new list is an empty ring over an empty pool |
| `LinkedList.FixedList.EmplaceAfter` | include/fixed_containers/fixed_doubly_linked_list.hpp:66-77 | inserts behind any ring position, sentinel included; only the new slot changes |
| `LinkedList.FixedList.EmplaceBack` | include/fixed_containers/fixed_doubly_linked_list.hpp:85-88 | appends |
| `LinkedList.FixedList.DeleteAt` | include/fixed_containers/fixed_doubly_linked_list.hpp:95-103 | removes exactly that element and returns the one that followed it |
| `LinkedList.FixedList.DeleteRange` | include/fixed_containers/fixed_doubly_linked_list.hpp:105-115 | terminates and removes exactly the elements at positions [a, b) |
| `LinkedList.FixedList.CopyFrom` | include/fixed_containers/fixed_doubly_linked_list.hpp:180-213 | the copy has the same elements at the same physical indices, the same chain and the same free list, whichever way the free list is copied |
| `RobinHood.RunBack` | include/fixed_containers/fixed_robinhood_hashtable.hpp:275-302 | on the way back from an element to its home bucket no bucket is empty and words fall by at most one distance unit per step |
| `RobinHood.NotFullCircle` | include/fixed_containers/fixed_robinhood_hashtable.hpp:187-198 | while some bucket is empty no element is a full round away from its home, so distances stay in their 24 bits |
| `RobinHood.GapAnchors` | include/fixed_containers/fixed_robinhood_hashtable.hpp:200-212 | behind an empty bucket the next element is at home: a table with a gap has an element at distance one |
| `RobinHood.ShiftUpStep` | include/fixed_containers/fixed_robinhood_hashtable.hpp:191-196 | one displacement keeps order, true distances and values, and the displaced element fits one bucket on |
| `RobinHood.ShiftDownStep` | include/fixed_containers/fixed_robinhood_hashtable.hpp:206-210 | one step of the backward shift keeps order and true distances |
| `RobinHood.PlaceAndShiftUp` | include/fixed_containers/fixed_robinhood_hashtable.hpp:187-198 | terminates, keeps the Robin Hood order with true distances, adds exactly the new value and puts it into the given bucket, across the wrap-around |
| `RobinHood.EraseBucket` | include/fixed_containers/fixed_robinhood_hashtable.hpp:200-212 | terminates also on a completely full table, keeps the order with true distances, and removes exactly the value of that bucket |
| `HashTable.ProbeReaches` | include/fixed_containers/fixed_robinhood_hashtable.hpp:275-302 | no probe on the way to the bucket of a stored key exceeds the word it meets |
| `HashTable.StopMeansAbsent` | include/fixed_containers/fixed_robinhood_hashtable.hpp:275-302 | stopping early on the packed comparison never misses a key |
| `HashTable.LappedAt` | include/fixed_containers/fixed_robinhood_hashtable.hpp:56-57 | only a full table whose elements all share one home lets a probe pass every bucket |
| `HashTable.LapStop` | include/fixed_containers/fixed_robinhood_hashtable.hpp:294-300 | when the 32-bit probe word wraps around, probing still ends, one round later, at the home bucket |
| `HashTable.HashTable.IndexOf` | include/fixed_containers/fixed_robinhood_hashtable.hpp:275-302 | terminates on every table up to the maximal bucket count; reports 'exists' at the right bucket exactly if the key is stored, and otherwise a bucket and word at which emplacing keeps the order |
| `HashTable.HashTable.Emplace` | include/fixed_containers/fixed_robinhood_hashtable.hpp:324-336 | appends the entry; buckets and list nodes stay in bijection; the reported bucket refers to the new node |
| `HashTable.HashTable.Erase` | include/fixed_containers/fixed_robinhood_hashtable.hpp:338-346 | removes exactly the entry of that bucket and returns the next one in insertion order |
| `HashTable.HashTable.EraseStored` | include/fixed_containers/fixed_map_adapter.hpp:392-400 | erasing through an iterator, which looks the key up again, erases that very node |
| `HashTable.HashTable.EraseRange` | include/fixed_containers/fixed_robinhood_hashtable.hpp:348-358 | removes exactly the listed segment |
| `HashTable.HashTable.Clear` | include/fixed_containers/fixed_robinhood_hashtable.hpp:360 | leaves an empty table |
| `HashTable.HashTable.Assign` | include/fixed_containers/fixed_map_adapter.hpp:281-285 | replaces one value; the key keeps its place |
| `HashTable.HashTable.CopyFrom` | include/fixed_containers/fixed_robinhood_hashtable.hpp:374-390 | copied buckets and copied list resolve the same lookups: same buckets, same slots, same order |
| `HashMap.Find` | include/fixed_containers/fixed_map_adapter.hpp:424-438 | finds the node of the key, or end |
| `HashMap.Insert` | include/fixed_containers/fixed_map_adapter.hpp:221-235 | inserts unless the key is present, in which case nothing changes; the returned iterator is at the key |
| `HashMap.InsertOrAssign` | include/fixed_containers/fixed_map_adapter.hpp:274-291 | inserts at the end or overwrites the value in place |
| `HashMap.EraseKey` | include/fixed_containers/fixed_map_adapter.hpp:413-422 | removes the entry if the key is present and counts it |
| `HashMap.Equal` | include/fixed_containers/fixed_map_adapter.hpp:455-471 | the entry-by-entry comparison is extensional equality of the two maps, also for tables with different hashes and bucket counts |
| `HashMap.EqualMeansSame` | include/fixed_containers/fixed_map_adapter.hpp:455-471 | equal sizes and matched entries are equivalent to agreement on every key: no key of the other map is left over |
| `HashMap.WithKeyLookup` | include/fixed_containers/fixed_map_adapter.hpp:221-235 | lookups after the reference insertion |
| `HashMap.WithValueLookup` | include/fixed_containers/fixed_map_adapter.hpp:274-291 | lookups after the reference insert-or-assign |
| `HashMap.WithoutKeyLookup` | include/fixed_containers/fixed_map_adapter.hpp:413-422 | lookups after the reference erasure |
| `HashMap.InsertionOrderKept` | include/fixed_containers/fixed_robinhood_hashtable.hpp:324-360 | over any run, entries that no command removes keep their relative order |
| `HashMap.LastWriter` | include/fixed_containers/fixed_map_adapter.hpp:219-422 | the last command that touches a key says what a run leaves for it: an overwrite its value, an erasure or a clear nothing, an insertion its value exactly if the key was absent just before it |
| `HashMap.Untouched` | include/fixed_containers/fixed_map_adapter.hpp:219-422 | a run leaves the value of every key alone that no command touches |
| `HashMap.InsertedLast` | include/fixed_containers/fixed_map_adapter.hpp:221-291 | an insertion of a new key puts its entry behind all others; of a key that is there it keeps all keys in their places |
| `HashMap.LaterInsertedLater` | include/fixed_containers/fixed_robinhood_hashtable.hpp:324-360 | over any run, a key that is there when another is newly inserted stays before it, while no command removes either |
| `HashMap.Run` | include/fixed_containers/fixed_map_adapter.hpp:219-422 | every run of insertions, overwrites, erasures and clears refines the insertion-ordered association list, whose runs `LastWriter` and `LaterInsertedLater` describe |
| `CircularIndexing.IncrementWraps` | include/fixed_containers/circular_indexing.hpp:25-46 | the new index lies in the range and is a whole number of rounds away, which the cycle count reports modulo 64 bits |
| `CircularIndexing.DecrementWraps` | include/fixed_containers/circular_indexing.hpp:48-68 | the same for receding, for every distance |
| `CircularIndexing.DecrementUndoesIncrement` | include/fixed_containers/circular_indexing.hpp:25-68 | receding undoes advancing |
| `CircularIndexing.IncrementsAdd` | include/fixed_containers/circular_indexing.hpp:25-46 | two advances are one advance by the sum |
| `CircularIndexing.OverflowOnlyForOne` | include/fixed_containers/circular_indexing.hpp:59-67 | with the deque's offset the signed cycle count overflows if and only if the range has size one and the index is below the offset |
| `CircularIndexing.OverflowExample` | include/fixed_containers/circular_indexing.hpp:59-67 | it does one step below the offset |
| `Deque.SlotsDiffer` | include/fixed_containers/fixed_deque.hpp:52-61 | positions less than a round apart have different slots |
| `Deque.SlotSteps` | include/fixed_containers/fixed_deque.hpp:555-577 | stepping from the front slot and mapping the position directly lead to the same slot |
| `Deque.SlotReached` | include/fixed_containers/fixed_deque.hpp:52-61 | every slot belongs to a position of any window of one round |
| `Deque.RelocateStep` | include/fixed_containers/algorithm.hpp:12-38 | one more relocated object, in either direction and across the wrap point, relocates one more and loses or duplicates none |
| `Deque.FixedDeque.constructor` | include/fixed_containers/fixed_deque.hpp:180-196 | a new deque is empty and starts in the middle of the index range, for every capacity of which a full round of positions can be mapped in 64 bits |
| `Deque.SmallCapacity` | include/fixed_containers/fixed_deque.hpp:28-29 | every capacity up to 2^62 is such a capacity |
| `Deque.FixedDeque.PushBack` | include/fixed_containers/fixed_deque.hpp:262-275 | appends |
| `Deque.FixedDeque.PushFront` | include/fixed_containers/fixed_deque.hpp:294-311 | prepends; the start counter goes down by one |
| `Deque.FixedDeque.PopBack` | include/fixed_containers/fixed_deque.hpp:286-292 | removes the last element |
| `Deque.FixedDeque.PopFront` | include/fixed_containers/fixed_deque.hpp:323-330 | removes the first element; the start counter goes up by one |
| `Deque.FixedDeque.EndIndex` | include/fixed_containers/fixed_deque.hpp:728-731 | the end slot is the slot of the end position; in a full deque it is the front again |
| `Deque.FixedDeque.BackIndex` | include/fixed_containers/fixed_deque.hpp:724-727 | the back slot is the slot of the last position |
| `Deque.FixedDeque.At` | include/fixed_containers/fixed_deque.hpp:555-577 | access by index reads the element at that index |
| `Deque.FixedDeque.Get` | include/fixed_containers/fixed_deque.hpp:113-121 | dereferencing an iterator reads the element at its position |
| `Deque.FixedDeque.AdvanceAll` | include/fixed_containers/fixed_deque.hpp:607-620 | the backward relocation moves the block by n inside the round, over any overlap |
| `Deque.FixedDeque.InsertRange` | include/fixed_containers/fixed_deque.hpp:622-638 | inserts the range; the deque stays valid if and only if something is inserted, nothing is behind the position, or destruction is trivial |
| `Deque.FixedDeque.InsertOnePass` | include/fixed_containers/fixed_deque.hpp:640-672 | append and rotate gives the same sequence as making room, without that condition |
| `Deque.FixedDeque.Erase` | include/fixed_containers/fixed_deque.hpp:408-451 | erases exactly the range; valid afterwards if and only if something is erased, nothing is behind it, or destruction is trivial |
| `Deque.EmptyInsertionExample` | include/fixed_containers/fixed_deque.hpp:622-638 | inserting an empty range in front of one object that is not trivially destructible destroys it |
| `Deque.EmptyErasureExample` | include/fixed_containers/fixed_deque.hpp:408-451 | erasing an empty range in front of such an object destroys it |
| `Deque.FixedDeque.Clear` | include/fixed_containers/fixed_deque.hpp:459-464 | leaves an empty deque in its starting position |
| `Deque.Run` | include/fixed_containers/fixed_deque.hpp:262-464 | every run of pushes, pops, range insertions and erasures in which the start counter stays inside 64 bits refines the reference on bounded sequences that the laws of `DequeRuns` describe |
| `DequeRuns.InsertionElements` | include/fixed_containers/fixed_deque.hpp:622-672 | after either insertion into a deque with room: the old elements before the position, the range, the old elements behind, index by index |
| `DequeRuns.InsertionsAgree` | include/fixed_containers/fixed_deque.hpp:622-672 | the two insertions have the same effect |
| `DequeRuns.ErasureElements` | include/fixed_containers/fixed_deque.hpp:408-451 | after an erasure the elements before it stay and those behind it have moved up by its length, index by index |
| `DequeRuns.ErasureUndoesInsertion` | include/fixed_containers/fixed_deque.hpp:408-638 | erasing an inserted range gives the old contents back |
| `DequeRuns.PushElements` | include/fixed_containers/fixed_deque.hpp:262-311 | a push adds its value at its end and keeps the order of the others, index by index |
| `DequeRuns.PopElements` | include/fixed_containers/fixed_deque.hpp:286-330 | a pop removes the element at its end and keeps the order of the others, index by index |
| `DequeRuns.PopUndoesPush` | include/fixed_containers/fixed_deque.hpp:262-330 | a pop at an end undoes a push at that end |
| `DequeRuns.DrainsInOrder` | include/fixed_containers/fixed_deque.hpp:262-330 | any number of pushes at the back and then pops at the front: the elements leave in the order in which they came |
| `DequeRuns.UnwindsInReverse` | include/fixed_containers/fixed_deque.hpp:262-292 | any number of pushes and then pops at the back: the last element that came leaves first |
| `DequeRuns.PushFrontsReverse` | include/fixed_containers/fixed_deque.hpp:294-311 | pushes at the front end up in reverse order before the old elements |
| `DequeRuns.EffectsSplit` | include/fixed_containers/fixed_deque.hpp:262-464 | running two lists of commands one after the other is running both as one |
| `DequeRuns.NewDequeRunsFit` | include/fixed_containers/fixed_deque.hpp:28-29 | on a new deque of capacity at most 2^61 every run of fewer than 2^62 commands keeps the start counter inside its range, at either end |
| `Deque.ShortRunsFit` | include/fixed_containers/fixed_deque.hpp:28-29 | the start counter stays inside in every run shorter than its distance to either end |
| `CircularDeque.PushBack` | include/fixed_containers/fixed_circular_deque.hpp:96-109 | appends and, when full, drops the first element |
| `CircularDeque.PushFront` | include/fixed_containers/fixed_circular_deque.hpp:124-137 | prepends and, when full, drops the last element |
| `CircularDeque.InsertRange` | include/fixed_containers/fixed_circular_deque.hpp:352-386 | drops the excess from the front, but not beyond the position, then leading incoming elements; result and position as the reference; valid if and only if nothing is relocated onto itself |
| `CircularDeque.InsertOnePass` | include/fixed_containers/fixed_circular_deque.hpp:388-458 | append, cyclic overwrite and two rotations give the same sequence and the same position; succeeds if and only if the range is empty or it is not a full deque with the position at begin |
| `CircularDeque.OverwriteRest` | include/fixed_containers/fixed_circular_deque.hpp:437-452 | overwriting round and round and rotating leaves the last elements of the range in order |
| `CircularDeque.SpliceAtEndPushes` | include/fixed_containers/fixed_circular_deque.hpp:352-458 | inserting a range at the end is pushing its elements one by one |
| `CircularDeque.DroppedRangeExample` | include/fixed_containers/fixed_circular_deque.hpp:352-386 | inserting one element at begin of a full deque of objects that are not trivially destructible destroys them |
| `CircularDeque.OnePassExample` | include/fixed_containers/fixed_circular_deque.hpp:388-458 | inserting it in one pass does not succeed |
| `CircularDeque.Run` | include/fixed_containers/fixed_circular_deque.hpp:96-458 | every run of pushes that drop when full, pops, both insertions, erasures and clears refines one reference on sequences of bounded length, which the laws of `CircularDequeRuns` describe |
| `CircularDequeRuns.AgreesWithDeque` | include/fixed_containers/fixed_circular_deque.hpp:96-458 | every command that the plain deque allows is permitted here, has the same effect and moves the start counter alike |
| `CircularDequeRuns.RunsAgree` | include/fixed_containers/fixed_circular_deque.hpp:96-458 | so has every run that the plain deque allows |
| `CircularDequeRuns.PushKeeps` | include/fixed_containers/fixed_circular_deque.hpp:96-137 | overflow: a push at the back leaves the last elements of all that fit, a push at the front the first ones |
| `CircularDequeRuns.InsertionKeepsLast` | include/fixed_containers/fixed_circular_deque.hpp:352-458 | overflow: either insertion leaves the last elements of what it would be without a bound |
| `CircularDequeRuns.InsertedRangeAt` | include/fixed_containers/fixed_circular_deque.hpp:352-458 | at the position that an insertion returns stands what is left of the range, followed by what was behind it |
| `CircularDequeRuns.PushBacksKeepLast` | include/fixed_containers/fixed_circular_deque.hpp:96-109 | a run of any number of pushes at the back leaves the last elements of all that fit |
| `CircularDequeRuns.PushFrontsKeepFirst` | include/fixed_containers/fixed_circular_deque.hpp:124-137 | a run of any number of pushes at the front leaves the latest elements that fit, the latest first |
| `Words.ShiftUpValue` | include/fixed_containers/fixed_bitset.hpp:428-440 | shifting bits up multiplies the machine word and drops what leaves it |
| `Words.ShiftDownValue` | include/fixed_containers/fixed_bitset.hpp:457-468 | shifting bits down divides it |
| `Words.MaskValue` | include/fixed_containers/fixed_bitset.hpp:666-673 | the low mask is 2^k - 1 |
| `Words.ValueInjective` | include/fixed_containers/fixed_bitset.hpp:646-656 | words are equal exactly if their bits are |
| `Words.DigitsValue` | include/fixed_containers/fixed_red_black_tree_types.hpp:62-67 | the binary digits of a number that fits have its value |
| `Words.PopCountIsCardinality` | include/fixed_containers/fixed_bitset.hpp:353-361 | the count of a word is the number of positions whose bit is one |
| `Bitset.UpMeansShiftedUp` | include/fixed_containers/fixed_bitset.hpp:416-442 | shifting the array by words, then by bits, then trimming is the shift of the bit sequence, with clean padding |
| `Bitset.DownMeansShiftedDown` | include/fixed_containers/fixed_bitset.hpp:445-468 | the same for the right shift, which keeps the padding clean without trimming |
| `Bitset.FixedBitset.constructor` | include/fixed_containers/fixed_bitset.hpp:207-210 | all bits are zero |
| `Bitset.FixedBitset.FromInteger` | include/fixed_containers/fixed_bitset.hpp:212-218 | the padding is clean if and only if the count is at most 32, at least 64, or the integer fits; then the bits are the integer's |
| `Bitset.UnmaskedExample` | include/fixed_containers/fixed_bitset.hpp:212-218 | 33 bits from an integer with all bits set have unclean padding |
| `Bitset.FixedBitset.ShiftLeft` | include/fixed_containers/fixed_bitset.hpp:416-442 | equals the shift of the bit sequence, for every bit count and amount |
| `Bitset.FixedBitset.ShiftRight` | include/fixed_containers/fixed_bitset.hpp:445-468 | equals the shift of the bit sequence, for every bit count and amount |
| `Bitset.TrimmedBits` | include/fixed_containers/fixed_bitset.hpp:666-673 | trimming clears the padding and keeps the bits |
| `Bitset.FixedBitset.SetAll` | include/fixed_containers/fixed_bitset.hpp:484-493 | all bits are one, the padding zero |
| `Bitset.FixedBitset.FlipAll` | include/fixed_containers/fixed_bitset.hpp:534-543 | every bit is negated, the padding stays zero |
| `Bitset.FixedBitset.Set` | include/fixed_containers/fixed_bitset.hpp:675-689 | changes one bit |
| `Bitset.FixedBitset.Flip` | include/fixed_containers/fixed_bitset.hpp:691-695 | negates one bit |
| `Bitset.FixedBitset.Test` | include/fixed_containers/fixed_bitset.hpp:661-664 | reads one bit |
| `Bitset.FixedBitset.All` | include/fixed_containers/fixed_bitset.hpp:331-351 | the word comparison is exact: true if and only if all bits are one |
| `Bitset.FixedBitset.Count` | include/fixed_containers/fixed_bitset.hpp:353-361 | returns the number of positions whose bit is one, for every bit count |
| `Bitset.CountExact` | include/fixed_containers/fixed_bitset.hpp:353-361 | padding does not count |
| `Bitset.FixedBitset.Equal` | include/fixed_containers/fixed_bitset.hpp:646-656 | word equality is equality of the bits |
| `Bitset.SameWords` | include/fixed_containers/fixed_bitset.hpp:646-656 | arrays with clean padding are equal if and only if their bits are |
| `Bitset.FixedBitset.Construct` | include/fixed_containers/fixed_bitset.hpp:139-198 | sets every word from the first characters of the string, the last of them for bit 0, whatever was in the words before |
| `Bitset.FixedBitset.ToString` | include/fixed_containers/fixed_bitset.hpp:628-644 | the characters of the bits, the highest first |
| `Bitset.ParsedPrinted` | include/fixed_containers/fixed_bitset.hpp:139-198 | parsing a printed bitset gives it back if and only if the two characters differ or all bits are one |
| `Bitset.PrintedParsed` | include/fixed_containers/fixed_bitset.hpp:628-644 | printing a parsed string of full length gives it back |

## Left out

- Raw views, reflection, struct views, enum containers, `FixedVector`, `FixedString`, stacks and queues: byte layout,
  compiler builtins or strictly easier than what is here.
- `FixedSet`: the same tree as `FixedMap`; reverse traversal is stated for `FixedMap` only.
- wyhash: the table's proofs hold for every hash that respects key equality.
- Object lifetime and constness: only the deque models which cells hold objects, because relocation depends on it.
- Copy and move of the tree, `clear` and `operator[]` of the tree: built from the operations modelled here.
- `equal_range`, `lower_bound`, `upper_bound`, `at` and the emplace variants of the maps: direct uses of `Nearest`,
  `Find` and `Insert`.
- `resize`, `assign`, `front`, `back` and comparison of the deques; single-element insertion of the deque, which is
  `InsertRange` with one element; single-element insertion of the circular deque, which aborts on a full deque at begin.
- The constant-evaluated branch of the deque's erase, which assigns instead of relocating.
- `&=`, `|=`, `^=`, `any`, `none`, `reset` and integer conversion of the bitset: word by word, they add nothing hard.
- Deque.FixedDeque.Rotate: stands for `std::rotate`, which is not part of the repository, by its documented effect.
- HashMap.Equal: compares tables that use the same key equality; the code also admits two different ones, for which
  extensional equality has no meaning.
- Deque.FixedDeque.constructor: requires that the last position of a full new deque can be mapped to its slot without
  leaving 64 bits, which is so for every capacity up to 2^62 and beyond it depends on the capacity.
- Deque.FixedDeque.PopFront: requires, as does every operation that moves the start, that a full round of positions from
  the new start on can be mapped in 64 bits; wrap-around of the position counter itself is not modelled.
