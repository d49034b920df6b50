# Structural binary tree (ESTDII/arvore_bin.py), modelled in Dafny

The program is a textbook binary tree. Values are inserted in level order:
each new node goes into the first free child slot, scanning breadth-first
and filling the left slot before the right one. The resulting tree can then
be queried:

- the three depth-first traversals (in-order, pre-order and post-order) and
  the breadth-first level order;
- `height` and `count_nodes`;
- the structural checks `is_perfect`, `is_complete`, `is_regular` (every
  node has zero or two children), `is_balanced` and `is_unbalanced`.

The model has five modules:

- `Trees` (trees.dfy): the value view of a tree, `Tree<T> = Nil | Node(left, data, right)`.
  - `Height` and `Size` are written as in `height` and `count_nodes`.
  - It has the traversal orders as functions.
  - It defines level order level by level.
  - It holds independent definitions of the shape properties. `Full`, `LeavesAtDepth` and `HeightBalanced` quantify over every root-to-node path. `Complete` says the occupied heap positions form a prefix.
- `Traversals` (traversals.dfy): the traversal routines.
  - `inorder`, `preorder` and `postorder` are recursive methods that add to a result list.
  - `level_order` is a method with its deque loop. It is proved equal to the level-by-level definition.
- `Classify` (classify.dfy): the checks, each following the source's recursion.
  - `is_perfect` with its inner `check(node, depth, level)`, plus `is_regular`, `is_balanced` with its (height, balanced) pair, and `is_unbalanced`.
  - `is_complete` is a method with the source's queue of real nodes and `None` markers and its `end` flag.
  - Each check is proved equivalent to the independent definition.
- `Insertion` (insertion.dfy): the `BinaryTree` object, whose nodes live in an arena.
  - Node `i` is the i-th node created. `data[i]` is its payload. `left[i]` and `right[i]` are the indices of its children, or `Absent` (-1).
  - `root` is the root's index, or `Absent` when the tree is empty.
  - `insert_level_order` updates these fields in place, with the source's queue loop.
  - The invariant `Valid()` says the links have heap shape: node i links to nodes 2i+1 and 2i+2 when those exist. Insertion is the tree's only mutator, and it preserves this shape.
  - `Root()` reads the links back as a `Tree<T>`, and the queries run on that value.
- `Demo` (demo.dfy): the two demonstration trees, built from `[1, 2, 3, 4, 5, 6]` and `[6, 5, 4, 3, 2, 1, 0]`, plus the empty tree, with what each query returns on them.

The pre-order of the first demonstration tree is `[1, 2, 4, 5, 3, 6]`. That is what the code computes, and it is what `Demo.DemoTreeAOrders` proves.

## Model

| member | source | states |
|---|---|---|
| Trees.Height | ESTDII/arvore_bin.py:82-85 | `height`: the body is the source's recursion (0 for an absent node, else 1 + the larger child height); the contract says it is 0 exactly on the empty tree, and `HeightIsDeepest` relates it to the deepest root-to-node path |
| Trees.Size | ESTDII/arvore_bin.py:87-90 | `count_nodes`: the body is the source's recursion (0 for an absent node, else 1 + both children's counts); the contract says it is 0 exactly on the empty tree; `SizeBounds`, `DepthFirstLengths` and `LevelOrderIsPermutation` tie it to the height bound and to the length of every traversal |
| Trees.HeightIsDeepest | ESTDII/arvore_bin.py:82-85 | `height` is 0 exactly on the empty tree; every node lies on a path shorter than the height; some node lies on a path of exactly height - 1 steps |
| Trees.SizeBounds | ESTDII/arvore_bin.py:87-90 | `count_nodes` lies between the height and 2^height - 1 |
| Trees.EmptyTreeShape | ESTDII/arvore_bin.py:83-84 | the empty tree has height 0 and count 0, and it is full, balanced and has all its leaves at any depth |
| Trees.DepthFirstLengths | ESTDII/arvore_bin.py:47-63 | each depth-first order lists exactly count_nodes values |
| Trees.DepthFirstOrdersAgree | ESTDII/arvore_bin.py:47-63 | in-order, pre-order and post-order are permutations of one another (equal multisets) |
| Trees.FullNode | ESTDII/arvore_bin.py:125-127 | a node is full exactly when it does not have exactly one child and both subtrees are full |
| Trees.LeavesAtDepthNode | ESTDII/arvore_bin.py:96-100 | a node's leaves are at depth d exactly when (if it is a leaf, then d = 1) and both its subtrees have all their leaves at depth d - 1 |
| Trees.HeightBalancedNode | ESTDII/arvore_bin.py:134-136 | a node is height-balanced exactly when its child heights differ by at most 1 and both subtrees are height-balanced |
| Trees.EmptyTreeComplete | ESTDII/arvore_bin.py:106-107 | the empty tree is complete |
| Trees.AbsentFrom | ESTDII/arvore_bin.py:110-118 | if the heap positions first..2·first are all empty, every position from first on is empty |
| Traversals.InOrderInto | ESTDII/arvore_bin.py:47-51 | the result list gains the in-order values of the subtree, after what it already held, and grows by count_nodes |
| Traversals.PreOrderInto | ESTDII/arvore_bin.py:53-57 | the result list gains the pre-order values of the subtree, after what it already held, and grows by count_nodes |
| Traversals.PostOrderInto | ESTDII/arvore_bin.py:59-63 | the result list gains the post-order values of the subtree, after what it already held, and grows by count_nodes |
| Traversals.BfsSplit | ESTDII/arvore_bin.py:70-76 | draining a queue visits its current entries first, then processes their children after the rest of the queue |
| Traversals.BfsDropAbsent | ESTDII/arvore_bin.py:73-76 | an absent entry in the queue contributes nothing, so skipping absent children does not change the output |
| Traversals.BfsByLevels | ESTDII/arvore_bin.py:69-77 | draining a queue of trees no taller than h yields depth 0 of every entry, then depth 1, and so on up to depth h - 1 |
| Traversals.BfsIsLevelOrder | ESTDII/arvore_bin.py:69-77 | the breadth-first scan from the root yields the values level by level, each level left to right |
| Traversals.BfsValues | ESTDII/arvore_bin.py:69-77 | the scan of a queue outputs exactly the multiset of values in the queued subtrees |
| Traversals.LevelOrderIsPermutation | ESTDII/arvore_bin.py:65-77 | level order has count_nodes values and is a permutation of pre-order |
| Traversals.LevelOrderStep | ESTDII/arvore_bin.py:71-76 | one loop iteration emits the front node's value and enqueues only its present children; the work left decreases |
| Traversals.LevelOrderScan | ESTDII/arvore_bin.py:65-77 | `level_order` returns the level-by-level order (empty on an empty tree), which has count_nodes values and is a permutation of pre-order |
| Classify.PerfectCheck | ESTDII/arvore_bin.py:93-100 | `check(node, depth, level)` holds exactly when the subtree is full and all its leaves lie at depth depth - level |
| Classify.IsPerfect | ESTDII/arvore_bin.py:92-103 | `is_perfect` holds exactly when no node has one child and every leaf lies at depth equal to the height |
| Classify.PerfectIffMaximal | ESTDII/arvore_bin.py:92-103 | a tree is perfect exactly when its count is 2^height - 1 |
| Classify.PerfectIsMaximal | ESTDII/arvore_bin.py:92-103 | a full tree with every leaf at the height's depth has 2^height - 1 nodes |
| Classify.MaximalIsPerfect | ESTDII/arvore_bin.py:92-103 | a tree with 2^height - 1 nodes is full and has every leaf at the height's depth |
| Classify.PerfectHeights | ESTDII/arvore_bin.py:96-100 | a nonempty full tree whose leaves all lie at depth d has height d |
| Classify.IsRegular | ESTDII/arvore_bin.py:121-128 | `is_regular` holds exactly when no node reachable from the root has exactly one child |
| Classify.BalanceCheck | ESTDII/arvore_bin.py:131-136 | the helper's first component is the height, and its second holds exactly when every node's child heights differ by at most 1 |
| Classify.IsBalanced | ESTDII/arvore_bin.py:130-137 | `is_balanced` holds exactly when the tree is height-balanced at every node |
| Classify.IsUnbalanced | ESTDII/arvore_bin.py:139-140 | `is_unbalanced` holds exactly when some node's child heights differ by more than 1 |
| Classify.ScanReal | ESTDII/arvore_bin.py:114-118 | before the end marker, dequeuing a real node and enqueuing both child slots keeps the queue equal to the next heap positions |
| Classify.ScanAbsent | ESTDII/arvore_bin.py:112-113 | dequeuing the first absent slot starts the draining phase at that position |
| Classify.DrainAbsent | ESTDII/arvore_bin.py:112-113 | after the end marker, dequeuing another absent slot keeps the draining invariant |
| Classify.DrainReal | ESTDII/arvore_bin.py:115-116 | a real node dequeued after an absent slot means the tree is not complete |
| Classify.DrainDone | ESTDII/arvore_bin.py:119 | a queue drained without meeting a real node after the first absent slot means the tree is complete |
| Classify.IsComplete | ESTDII/arvore_bin.py:105-119 | `is_complete` returns true exactly when the occupied heap positions form a prefix (every level full except the last, which fills from the left) |
| Insertion.InsertionSlot | ESTDII/arvore_bin.py:29-42 | in a heap-shaped tree of n nodes, the scan meets its first free slot at node (n-1)/2, which is the left slot when n is odd; every earlier node has both children; filling the slot keeps the heap shape |
| Insertion.HeapAt | ESTDII/arvore_bin.py:23-42 | heap position p of the insertion-built tree holds the subtree rooted at the p-th inserted value |
| Insertion.HeapComplete | ESTDII/arvore_bin.py:23-42 | the tree built by n insertions is complete |
| Insertion.HeapScan | ESTDII/arvore_bin.py:23-42 | scanning the insertion-built tree breadth-first from heap position k yields the values inserted from the k-th on |
| Insertion.HeapLevelOrder | ESTDII/arvore_bin.py:23-42 | the level order of the tree built by insertions is the insertion order |
| Insertion.HeapSize | ESTDII/arvore_bin.py:23-42 | the tree built by n insertions has n nodes |
| Insertion.HeapHeight | ESTDII/arvore_bin.py:23-42 | the tree built by n > 0 insertions has height floor(log2 n) + 1, and the empty tree has height 0 |
| Insertion.InsertionShape | ESTDII/arvore_bin.py:23-42 | after n insertions the tree has count n, level order equal to the insertion order, is complete, and has height floor(log2 n) + 1 |
| Insertion.BinaryTree.RootIsHeap | ESTDII/arvore_bin.py:23-42 | the linked nodes of a valid tree form the heap-shaped tree of its values in creation order |
| Insertion.BinaryTree.LevelOrderIsInsertionOrder | ESTDII/arvore_bin.py:23-42 | a valid tree's level order is the creation order of its nodes; its count is the number of nodes created, and it is complete |
| Insertion.BinaryTree.constructor | ESTDII/arvore_bin.py:17-18 | a new tree has no nodes and no root |
| Insertion.BinaryTree.InsertLevelOrder | ESTDII/arvore_bin.py:23-42 | exactly one node is created, the structure stays valid, and the tree becomes the heap-shaped tree of the old values plus x. On an empty tree the new node is the root. Otherwise the root is unchanged and the new node fills the free slot of node (n-1)/2 that the scan meets first: the left slot when n is odd, otherwise the right. Every node before it already had both children |
| Insertion.Build | ESTDII/arvore_bin.py:149-152 | inserting a list one value at a time gives a valid tree of those values, with count n, level order equal to the list, complete shape and height floor(log2 n) + 1 |
| Demo.TreeABuilt | ESTDII/arvore_bin.py:149-152 | inserting 1, ..., 6 gives root 1 with children 2 and 3, then 4 and 5 under 2, and 6 as the left child of 3 |
| Demo.TreeBBuilt | ESTDII/arvore_bin.py:175-178 | inserting 6, ..., 0 gives root 6 with children 5 and 4, then 3 and 2 under 5, and 1 and 0 under 4 |
| Demo.DemoTreeAOrders | ESTDII/arvore_bin.py:154-159 | the first tree has in-order [4,2,5,1,6,3], pre-order [1,2,4,5,3,6] and post-order [4,5,2,6,3,1] |
| Demo.DemoTreeALevels | ESTDII/arvore_bin.py:160 | the first tree has level order [1,2,3,4,5,6], height 3 and count 6 |
| Demo.DemoTreeA | ESTDII/arvore_bin.py:167-172 | the first tree is complete and balanced, not unbalanced, and neither perfect nor regular |
| Demo.DemoTreeBOrders | ESTDII/arvore_bin.py:180-185 | the second tree has in-order [3,5,2,6,1,4,0], pre-order [6,5,3,2,4,1,0] and post-order [3,2,5,1,0,4,6] |
| Demo.DemoTreeBLevels | ESTDII/arvore_bin.py:186 | the second tree has level order [6,5,4,3,2,1,0], height 3 and count 7 |
| Demo.DemoTreeB | ESTDII/arvore_bin.py:193-198 | the second tree is perfect, complete, regular and balanced, and not unbalanced |
| Demo.DemoEmptyTree | ESTDII/arvore_bin.py:17-18 | on a new, empty tree every traversal is empty, height and count are 0, and the tree is perfect, complete, regular and balanced |

## Left out

- Printing: the demonstration's `print` calls are left out. What each printed query returns on the two trees is stated by the `Demo` lemmas instead.
- The `deque` of `insert_level_order`, `level_order` and `is_complete` is modelled as a sequence with pop-front and append. No other deque operation is used.
- Aliasing of the result list: the source's traversals append to a list the caller owns. The model passes that list in and returns the extended list, so sharing the list object is not modelled.
- Node objects: the read-only queries (traversals, `height`, `count_nodes` and the checks) run on the value `Root()` reads off the arena. Object identity of `Node` instances is not modelled.
- Arbitrary shapes in the object model: `Valid()` requires the heap shape that insertion produces. The source has no operation that builds any other shape. Trees of any shape are still covered by every query and check, which are stated over `Tree<T>` of any shape.
- Recursion depth: Python's recursion limit on very tall trees is not modelled.
- Payloads: values are of an arbitrary type `T`. They are never compared, and placement does not depend on them.
- Insertion.BinaryTree.InsertLevelOrder: the source's loop would drop the node silently if the queue ever ran empty. Under the heap shape that cannot happen, so the model has no such path.
