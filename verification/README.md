# Unbalanced binary search tree, modelled in Dafny

This project models the `BST` class of a small C++ library: an unbalanced
binary search tree over distinct `int` values. The model covers insertion
(`add_node`), lookup (`find_node`), parent lookup (`find_parent`), the
"successor" lookup (`find_successor`, which in fact returns the in-order
predecessor), three-case deletion (`delete_node`), breadth-first traversal
(`bfs`), `length`, and the copy, move and `++` operators.

The state of a tree is its root link. The model writes it as the inductive
datatype `Tree = Leaf | Node(left, value, right)`, where `Leaf` is a null
link. A node holds one value and two owned child links. There is no parent
pointer and no cached size. The C++ lookups return a slot, a `Node**` that
can be overwritten in place. The model names a slot by its `Path`, the
sequence of left/right steps from the root link. `At` reads a slot and
`Replace` rebuilds the tree with a new subtree in that slot. A null result is
`None`, and insertion and deletion return their `bool` next to the rebuilt tree.

Modules follow the structure of `src/bst.cpp`:

- `BstTree` (tree.dfy): the node layout, values, size, the ordering invariant and slots.
- `BstSearch` (search.dfy): `find_node`, `find_parent`, `find_successor`, `add_node`.
- `BstDelete` (delete.dfy): `delete_node`. It is modelled slot by slot as the
  source does it, and proved equal to the recursive reference `Remove`.
- `BstTraversal` (traversal.dfy): the `bfs` queue loop, proved equal to a
  level-by-level reference, and `length`.
- `BstLifecycle` (lifecycle.dfy): the constructors, copy and move (construction
  and assignment), and prefix and postfix `++`.
- `BstProperties` (properties.dfy): properties of call sequences and two worked examples.

Two results worth noting:

- Copying an ordered tree reinserts its values in level order. This rebuilds
  the *identical* tree, not just a tree with the same values
  (`LevelOrderReinsertion`, `Copy`). Every value is reinserted after all the
  values on its path from the root, so each new node lands in its original slot.
- Prefix `++` keeps the ordering invariant (`IncrementKeepsOrder`). Values are
  unbounded in the model, so adding one to every value keeps their order. In
  the source, only 32-bit overflow could break the order, and signed overflow
  in C++ is undefined behaviour.

## Model

| member | source | states |
|---|---|---|
| BstTree.OrderedSizeIsCardinality | src/bst.cpp:70-74 | in an ordered tree the node count equals the number of distinct values |
| BstSearch.FindNode | src/bst.cpp:94-105 | a returned slot holds a node whose value is `v`; on an ordered tree the slot is non-null exactly when `v` is in the tree |
| BstSearch.FindParent | src/bst.cpp:107-120 | a returned slot holds a node with a left or right child whose value is `v` |
| BstSearch.FindParentIsParent | src/bst.cpp:107-120 | on an ordered tree the parent lookup is null exactly when `v` is absent or in the root; otherwise the slot `find_node` returns is one step below it |
| BstSearch.RightSpine | src/bst.cpp:127-129 | following right children from a node ends at a node that has no right child, using right steps only |
| BstSearch.MaxIsGreatest | src/bst.cpp:127-129 | the end of the right chain holds a value of the tree; in an ordered tree it is the largest value |
| BstSearch.FindSuccessor | src/bst.cpp:122-133 | null exactly when `v` is not found or its node has no left child; otherwise the slot holds a node with no right child |
| BstSearch.FindSuccessorStep | src/bst.cpp:123-130 | below a root that differs from `v`, the lookup is the lookup in the subtree the walk enters, one step further down |
| BstSearch.FindSuccessorIsPredecessor | src/bst.cpp:122-133 | on an ordered tree the node found holds the maximum of the target's left subtree; that value is below `v` and is the largest value of the whole tree below `v` |
| BstSearch.InsertionSlot | src/bst.cpp:81-89 | the insertion walk ends at a null slot, or fails because `v` was met; on an ordered tree it fails exactly when `v` is present |
| BstSearch.AttachLeaf | src/bst.cpp:90-91 | storing the new leaf in the insertion slot adds exactly `v` to the values and one node to the count, and keeps the ordering |
| BstSearch.AddNode | src/bst.cpp:76-92 | an empty tree gets a single-node root and `true`; on failure the tree is unchanged and already held `v`; on an ordered tree it succeeds exactly when `v` was absent; on success the values gain `v`, the count grows by one and the new node is a leaf in the slot the walk reached; ordering is preserved |
| BstSearch.AddNodeStep | src/bst.cpp:82-88 | inserting below a node changes only the subtree on the side the comparison chooses, and changes nothing on an equal value |
| BstDelete.DeleteNode | src/bst.cpp:135-148 | returns `false` and leaves the tree unchanged exactly when `v` is not found; agrees with the recursive reference `Remove`; on success the count drops by one; on an ordered tree it succeeds exactly when `v` is present, keeps the ordering and removes exactly `v` from the values |
| BstDelete.Remove | src/bst.cpp:135-148 | the reference removal: unchanged when `v` is not found, one node fewer when it is, and on an ordered tree the values lose exactly `v` and the ordering holds |
| BstDelete.RemoveRoot | src/bst.cpp:139-147 | deleting the root of a subtree removes one node; on an ordered subtree it removes exactly the root's value and keeps the ordering |
| BstDelete.RemoveMax | src/bst.cpp:140-146 | splicing out the rightmost node removes one node; on an ordered subtree it removes exactly the maximum and keeps the ordering |
| BstDelete.Spliced | src/bst.cpp:145 | splicing out a node with at most one child removes one node; on an ordered node it removes exactly that node's value and the remaining link is ordered |
| BstDelete.RemoveAtSlot | src/bst.cpp:136-145 | the recursive removal changes only the slot `find_node` returns, storing there the subtree left by deleting its root |
| BstDelete.SpliceRightmost | src/bst.cpp:144-145 | replacing the rightmost node by its left child (else its right child) in its slot is `RemoveMax` |
| BstDelete.SplicePredecessor | src/bst.cpp:139-146 | copying the predecessor's value into a two-child node and splicing the predecessor's slot equals deleting the node's value |
| BstTraversal.BfsQueueVisitsEachNodeOnce | src/bst.cpp:57-67 | the queue loop, modelled by `BfsQueue`, visits the values of the queued subtrees as a multiset, one visit per node |
| BstTraversal.BfsVisitsEachNodeOnce | src/bst.cpp:53-68 | `bfs`, modelled by `Bfs`, is a no-op on an empty tree and visits each node exactly once: the visited values are the tree's values, one per node |
| BstTraversal.BfsQueueIsLevels | src/bst.cpp:57-67 | the queue loop `BfsQueue` equals level-by-level traversal of the queued forest |
| BstTraversal.BfsQueueIsLevelOrder | src/bst.cpp:59-67 | with the rest of a level queued ahead of the children already pushed, the loop visits that rest and then the levels below |
| BstTraversal.BfsIsLevelOrder | src/bst.cpp:53-68 | `bfs` of a tree (`Bfs`, the loop started on the root alone) is its level-order traversal |
| BstTraversal.LoopRound | src/bst.cpp:59-66 | one round of the loop visits the front node, queues only non-null children and leaves the queue owning one node fewer |
| BstTraversal.Length | src/bst.cpp:70-74 | the counting visitor returns the number of nodes, which is the number of values `bfs` visits |
| BstLifecycle.Empty | src/bst.cpp:26-27 | the default tree has no nodes, no values, an empty traversal and is ordered |
| BstLifecycle.InsertAll | src/bst.cpp:37-40 | repeated insertion yields exactly the old values plus the inserted ones, and keeps an ordered tree ordered |
| BstLifecycle.FromList | src/bst.cpp:37-40 | the initializer-list constructor builds an ordered tree holding exactly the listed values, duplicates dropped |
| BstLifecycle.InsertAllSplits | src/bst.cpp:82-88 | reinserting values into a node sends the smaller ones into the left subtree and the larger ones into the right, in order, and drops the node's own value |
| BstLifecycle.SideOfLevels | src/bst.cpp:59-67 | in level order, the values below a node's value are the level-order traversal of its left subtree and those above are that of its right subtree |
| BstLifecycle.LevelOrderReinsertion | src/bst.cpp:29-31 | reinserting an ordered tree's values in level order into an empty tree rebuilds the same tree |
| BstLifecycle.Copy | src/bst.cpp:29-31 | a copy is ordered and holds the source's values; a copy of an ordered tree is that very tree |
| BstLifecycle.CopyAssign | src/bst.cpp:161-171 | self-assignment leaves the tree unchanged; otherwise the destination is an ordered tree holding the source's values, and is the source itself when the source is ordered |
| BstLifecycle.MoveConstruct | src/bst.cpp:33-35 | the new tree holds the original tree and the moved-from tree is empty |
| BstLifecycle.MoveAssign | src/bst.cpp:173-184 | self-assignment changes nothing; otherwise the destination holds the original tree and the moved-from tree is empty |
| BstLifecycle.Increment | src/bst.cpp:150-153 | prefix `++` keeps the node count |
| BstLifecycle.IncrementShiftsValues | src/bst.cpp:150-153 | after prefix `++` the values are exactly the successors of the old values (`ShiftUp`) |
| BstLifecycle.IncrementKeepsOrder | src/bst.cpp:150-153 | prefix `++` keeps an ordered tree ordered |
| BstLifecycle.IncrementAtSlot | src/bst.cpp:150-153 | every slot of the incremented tree holds a node exactly where the original had one, with its value one larger |
| BstLifecycle.IncrementIsBfsVisit | src/bst.cpp:150-153 | prefix `++` equals `bfs` with a visitor that increments the visited node: the same visiting order, each value one larger |
| BstLifecycle.PostIncrement | src/bst.cpp:155-159 | postfix `++` applies prefix `++` to the original (so every node gains one in place and the visiting order is kept), leaving exactly the successors of the old values, the same node count and, when ordered, an ordered tree; it returns an ordered copy with the pre-increment values, which is the original tree itself when that was ordered |
| BstProperties.AddNodeTwice | src/bst.cpp:82-84 | inserting a value a second time returns `false` and leaves the tree and its size as the first insertion left them |
| BstProperties.DeleteThenAbsent | src/bst.cpp:135-147 | after deleting `v` from an ordered tree, `find_node(v)` is null |
| BstProperties.BuildScenario | src/bst.cpp:76-92 | inserting 25, 10, 50, 7, 15, 53 builds the expected six-node tree |
| BstProperties.DeleteRootScenario | src/bst.cpp:122-147 | in that tree the lookup for 25 promotes 15; deleting 25 puts 15 in the root, leaves five nodes and 25 absent |
| BstProperties.SingleNodeScenario | src/bst.cpp:135-147 | deleting the only node empties the tree; on an empty tree lookup is null and deletion returns `false` |

## Left out

- `operator<<` for `Node` and `BST` (src/bst.cpp:13-16, 186-189): stream output, presentational only.
- The destructor and the release of old nodes in both assignments (src/bst.cpp:42-47, 164-168, 176-180): memory management. The model's trees are immutable values owned by whoever holds them.
- `get_root` (src/bst.cpp:49-51): it hands out a raw reference to the root field. The model's root is just the `Tree` value.
- The `Node` constructors and comparison operators (src/bst.cpp:5-24): the model uses `Node(...)` and plain `int` comparison.
- The generic visitor of `bfs`: the model's `BfsQueue` returns the visited values in order. Of the visitors the class uses, three are modelled on their own: counting (`Length`), reinsertion (`Copy`) and incrementing (`Increment`, related to the visit order by `IncrementIsBfsVisit`). The node-collecting visitor of the destructor and both assignments and the printing visitor of `operator<<` belong to the parts left out above.
- Object identity: self-assignment is passed in as the `aliased` flag of `CopyAssign` and `MoveAssign` rather than found by comparing addresses.
- `size_t` in `length` and the 32-bit `int` values: the model uses unbounded integers.
- Increment: 32-bit wrap-around of `++` at the largest `int` is not modelled, because signed overflow is undefined behaviour in C++.
