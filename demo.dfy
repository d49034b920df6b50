/**
 * The two trees of the module's demonstration, built by level-order
 * insertion of [1, 2, 3, 4, 5, 6] and of [6, 5, 4, 3, 2, 1, 0], and the
 * empty tree, with what every traversal and check yields on them.
 */
module Demo {
  import opened Trees
  import opened Traversals
  import opened Classify
  import opened Insertion

  function Leaf(x: int): Tree<int> { Node(Nil, x, Nil) }

  /** The first demonstration tree: 1 at the root, 2 and 3 below it, 4 and
      5 under 2, and 6 as the left child of 3. */
  function TreeA(): Tree<int> { Node(Node(Leaf(4), 2, Leaf(5)), 1, Node(Leaf(6), 3, Nil)) }

  /** The second demonstration tree: three full levels. */
  function TreeB(): Tree<int> { Node(Node(Leaf(3), 5, Leaf(2)), 6, Node(Leaf(1), 4, Leaf(0))) }

  /** Level-order insertion of 1, ..., 6 builds the first tree. */
  lemma TreeABuilt()
    ensures Heap([1, 2, 3, 4, 5, 6], 0) == TreeA()
  {
    var v := [1, 2, 3, 4, 5, 6];
    assert Heap(v, 3) == Leaf(4) && Heap(v, 4) == Leaf(5) && Heap(v, 5) == Leaf(6);
    assert Heap(v, 6) == Nil;
  }

  /** Level-order insertion of 6, 5, ..., 0 builds the second tree. */
  lemma TreeBBuilt()
    ensures Heap([6, 5, 4, 3, 2, 1, 0], 0) == TreeB()
  {
    var v := [6, 5, 4, 3, 2, 1, 0];
    assert Heap(v, 3) == Leaf(3) && Heap(v, 4) == Leaf(2);
    assert Heap(v, 5) == Leaf(1) && Heap(v, 6) == Leaf(0);
  }

  /** The first tree's depth-first orders. */
  lemma DemoTreeAOrders()
    ensures InOrder(TreeA()) == [4, 2, 5, 1, 6, 3]
    ensures PreOrder(TreeA()) == [1, 2, 4, 5, 3, 6]
    ensures PostOrder(TreeA()) == [4, 5, 2, 6, 3, 1]
  {
    var t := TreeA();
    assert InOrder(t.left) == [4, 2, 5] && InOrder(t.right) == [6, 3];
    assert PreOrder(t.left) == [2, 4, 5] && PreOrder(t.right) == [3, 6];
    assert PostOrder(t.left) == [4, 5, 2] && PostOrder(t.right) == [6, 3];
  }

  /** The first tree has height 3 and six nodes, and its level order is
      the insertion order. */
  lemma DemoTreeALevels()
    ensures Height(TreeA()) == 3 && Size(TreeA()) == 6
    ensures LevelOrder(TreeA()) == [1, 2, 3, 4, 5, 6]
  {
    var t := TreeA();
    assert Height(t) == 3;
    assert Level(t, 0) == [1] && Level(t, 1) == [2, 3] && Level(t, 2) == [4, 5, 6];
    assert LevelsFrom(t, 0, 3) == [1] + ([2, 3] + ([4, 5, 6] + []));
  }

  /** The first tree is complete and balanced, but node 3 has only a left
      child, so it is neither perfect nor regular. */
  lemma DemoTreeA()
    ensures Complete(TreeA())
    ensures !IsPerfect(TreeA()) && !IsRegular(TreeA())
    ensures IsBalanced(TreeA()) && !IsUnbalanced(TreeA())
  {
    TreeAComplete();
  }

  /** The tree built by insertion is complete. */
  lemma TreeAComplete()
    ensures Complete(TreeA())
  {
    TreeABuilt();
    HeapComplete([1, 2, 3, 4, 5, 6]);
  }

  /** The second tree's depth-first orders. */
  lemma DemoTreeBOrders()
    ensures InOrder(TreeB()) == [3, 5, 2, 6, 1, 4, 0]
    ensures PreOrder(TreeB()) == [6, 5, 3, 2, 4, 1, 0]
    ensures PostOrder(TreeB()) == [3, 2, 5, 1, 0, 4, 6]
  {
    var t := TreeB();
    assert InOrder(t.left) == [3, 5, 2] && InOrder(t.right) == [1, 4, 0];
    assert PreOrder(t.left) == [5, 3, 2] && PreOrder(t.right) == [4, 1, 0];
    assert PostOrder(t.left) == [3, 2, 5] && PostOrder(t.right) == [1, 0, 4];
  }

  /** The second tree has height 3 and seven nodes, and its level order is
      the insertion order. */
  lemma DemoTreeBLevels()
    ensures Height(TreeB()) == 3 && Size(TreeB()) == 7
    ensures LevelOrder(TreeB()) == [6, 5, 4, 3, 2, 1, 0]
  {
    var t := TreeB();
    assert Height(t) == 3;
    assert Level(t, 0) == [6] && Level(t, 1) == [5, 4] && Level(t, 2) == [3, 2, 1, 0];
    assert LevelsFrom(t, 0, 3) == [6] + ([5, 4] + ([3, 2, 1, 0] + []));
  }

  /** The second tree has seven nodes on three full levels: perfect,
      complete, regular and balanced. */
  lemma DemoTreeB()
    ensures Complete(TreeB())
    ensures IsPerfect(TreeB()) && IsRegular(TreeB())
    ensures IsBalanced(TreeB()) && !IsUnbalanced(TreeB())
  {
    TreeBComplete();
  }

  /** The tree built by insertion is complete. */
  lemma TreeBComplete()
    ensures Complete(TreeB())
  {
    TreeBBuilt();
    HeapComplete([6, 5, 4, 3, 2, 1, 0]);
  }

  /** The empty tree: every traversal is empty, height and count are 0, and
      all four shape checks hold. */
  lemma DemoEmptyTree()
    ensures InOrder<int>(Nil) == [] && PreOrder<int>(Nil) == [] && PostOrder<int>(Nil) == []
    ensures LevelOrder<int>(Nil) == []
    ensures Height<int>(Nil) == 0 && Size<int>(Nil) == 0
    ensures Complete<int>(Nil) && IsPerfect<int>(Nil) && IsRegular<int>(Nil)
    ensures IsBalanced<int>(Nil) && !IsUnbalanced<int>(Nil)
  {
    EmptyTreeComplete<int>();
  }
}
