/**
 * The four traversals of the binary tree. The depth-first ones append the
 * values of a subtree to a list the caller passes in; the level-order one
 * runs a first-in-first-out queue of nodes seeded with the root.
 *
 * The caller's list is passed in and handed back as a value; the queue is a
 * sequence, popped with `q[1..]` and pushed with `q + [x]`.
 */
module Traversals {
  import opened Trees

  /** inorder: appends left subtree, node value, right subtree. */
  method InOrderInto<T>(node: Tree<T>, result: seq<T>) returns (out: seq<T>)
    ensures out == result + InOrder(node)
    ensures |out| == |result| + Size(node)
    decreases node
  {
    DepthFirstLengths(node);
    out := result;
    if node.Node? {
      out := InOrderInto(node.left, out);
      out := out + [node.data];
      out := InOrderInto(node.right, out);
    }
  }

  /** preorder: appends node value, left subtree, right subtree. */
  method PreOrderInto<T>(node: Tree<T>, result: seq<T>) returns (out: seq<T>)
    ensures out == result + PreOrder(node)
    ensures |out| == |result| + Size(node)
    decreases node
  {
    DepthFirstLengths(node);
    out := result;
    if node.Node? {
      out := out + [node.data];
      out := PreOrderInto(node.left, out);
      out := PreOrderInto(node.right, out);
      assert out == result + ([node.data] + PreOrder(node.left) + PreOrder(node.right));
    }
  }

  /** postorder: appends left subtree, right subtree, node value. */
  method PostOrderInto<T>(node: Tree<T>, result: seq<T>) returns (out: seq<T>)
    ensures out == result + PostOrder(node)
    ensures |out| == |result| + Size(node)
    decreases node
  {
    DepthFirstLengths(node);
    out := result;
    if node.Node? {
      out := PostOrderInto(node.left, out);
      out := PostOrderInto(node.right, out);
      out := out + [node.data];
      assert out == result + (PostOrder(node.left) + PostOrder(node.right) + [node.data]);
    }
  }

  // ---------------------------------------------------------------------
  // Breadth-first order of a queue of subtrees
  // ---------------------------------------------------------------------

  /** The values a breadth-first scan of queue `q` emits: pop the front; an
      absent entry emits nothing, a node emits its value and enqueues both
      children. */
  ghost function Bfs<T>(q: seq<Tree<T>>): seq<T>
    decreases SizeSum(q), |q|
  {
    if q == [] then []
    else match q[0]
      case Nil => Bfs(q[1..])
      case Node(l, x, r) =>
        PopNodeSize(q);
        [x] + Bfs(q[1..] + [l, r])
  }

  /** Level `d` of every tree in `q`, one after another. */
  function LevelQ<T>(q: seq<Tree<T>>, d: nat): seq<T>
  {
    if q == [] then [] else Level(q[0], d) + LevelQ(q[1..], d)
  }

  /** Levels `d` .. `h - 1` of the trees in `q`. */
  function LevelsQ<T>(q: seq<Tree<T>>, d: nat, h: nat): seq<T>
    decreases h - d
  {
    if d >= h then [] else LevelQ(q, d) + LevelsQ(q, d + 1, h)
  }

  /** Both children of every node in `q`, in order. */
  function Children<T>(q: seq<Tree<T>>): seq<Tree<T>>
  {
    if q == [] then []
    else (if q[0].Nil? then [] else [q[0].left, q[0].right]) + Children(q[1..])
  }

  lemma {:induction false} LevelQAppend<T>(a: seq<Tree<T>>, b: seq<Tree<T>>, d: nat)
    ensures LevelQ(a + b, d) == LevelQ(a, d) + LevelQ(b, d)
  {
    if a == [] {
      assert a + b == b;
    } else {
      assert (a + b)[1..] == a[1..] + b;
      LevelQAppend(a[1..], b, d);
    }
  }

  lemma {:induction false} ChildrenAppend<T>(a: seq<Tree<T>>, b: seq<Tree<T>>)
    ensures Children(a + b) == Children(a) + Children(b)
  {
    if a == [] {
      assert a + b == b;
    } else {
      assert (a + b)[1..] == a[1..] + b;
      ChildrenAppend(a[1..], b);
    }
  }

  /** Scanning `q1 + q2` first emits the top values of `q1`, then scans
      `q2` followed by the children of `q1`. */
  lemma {:induction false} BfsSplit<T>(q1: seq<Tree<T>>, q2: seq<Tree<T>>)
    ensures Bfs(q1 + q2) == LevelQ(q1, 0) + Bfs(q2 + Children(q1))
    decreases |q1|
  {
    if q1 == [] {
      assert q1 + q2 == q2 && q2 + Children(q1) == q2;
    } else {
      var q := q1 + q2;
      assert q[0] == q1[0] && q[1..] == q1[1..] + q2;
      match q1[0]
      case Nil =>
        assert Bfs(q) == Bfs(q[1..]);
        BfsSplit(q1[1..], q2);
        assert LevelQ(q1, 0) == LevelQ(q1[1..], 0);
        assert Children(q1) == Children(q1[1..]);
      case Node(l, x, r) =>
        assert q[1..] + [l, r] == q1[1..] + (q2 + [l, r]);
        BfsSplit(q1[1..], q2 + [l, r]);
        assert (q2 + [l, r]) + Children(q1[1..]) == q2 + Children(q1);
    }
  }

  /** An absent entry anywhere in the queue emits nothing. */
  lemma BfsDropAbsent<T>(a: seq<Tree<T>>, b: seq<Tree<T>>)
    ensures Bfs(a + [Nil] + b) == Bfs(a + b)
  {
    assert a + [Nil] + b == a + ([Nil] + b);
    BfsSplit(a, [Nil] + b);
    var rest := [Nil] + b + Children(a);
    assert rest[0] == Nil && rest[1..] == b + Children(a);
    BfsSplit(a, b);
  }

  lemma {:induction false} ChildrenLevel<T>(q: seq<Tree<T>>, d: nat)
    ensures LevelQ(Children(q), d) == LevelQ(q, d + 1)
  {
    if q != [] {
      ChildrenLevel(q[1..], d);
      var front := if q[0].Nil? then [] else [q[0].left, q[0].right];
      LevelQAppend(front, Children(q[1..]), d);
      if q[0].Node? {
        LevelQAppend([q[0].left], [q[0].right], d);
      }
    }
  }

  lemma {:induction false} ChildrenLevels<T>(q: seq<Tree<T>>, d: nat, h: nat)
    ensures LevelsQ(Children(q), d, h) == LevelsQ(q, d + 1, h + 1)
    decreases h - d
  {
    if d < h {
      ChildrenLevel(q, d);
      ChildrenLevels(q, d + 1, h);
    }
  }

  ghost predicate HeightsAtMost<T>(q: seq<Tree<T>>, h: nat)
  {
    forall i :: 0 <= i < |q| ==> Height(q[i]) <= h
  }

  lemma {:induction false} ChildrenHeights<T>(q: seq<Tree<T>>, h: nat)
    requires HeightsAtMost(q, h + 1)
    ensures HeightsAtMost(Children(q), h)
  {
    if q != [] {
      assert HeightsAtMost(q[1..], h + 1);
      ChildrenHeights(q[1..], h);
    }
  }

  lemma {:induction false} BfsAllAbsent<T>(q: seq<Tree<T>>)
    requires HeightsAtMost(q, 0)
    ensures Bfs(q) == []
    decreases |q|
  {
    if q != [] {
      assert Height(q[0]) <= 0;
      assert HeightsAtMost(q[1..], 0);
      BfsAllAbsent(q[1..]);
    }
  }

  /** The breadth-first scan of a queue emits its trees level by level. */
  lemma {:induction false} BfsByLevels<T>(q: seq<Tree<T>>, h: nat)
    requires HeightsAtMost(q, h)
    ensures Bfs(q) == LevelsQ(q, 0, h)
    decreases h
  {
    if h == 0 {
      BfsAllAbsent(q);
    } else {
      BfsSplit(q, []);
      assert q + [] == q && [] + Children(q) == Children(q);
      ChildrenHeights(q, h - 1);
      BfsByLevels(Children(q), h - 1);
      ChildrenLevels(q, 0, h - 1);
    }
  }

  lemma {:induction false} SingleLevels<T>(t: Tree<T>, d: nat, h: nat)
    ensures LevelsQ([t], d, h) == LevelsFrom(t, d, h)
    decreases h - d
  {
    assert [t][1..] == [];
    assert LevelQ([t], d) == Level(t, d) + LevelQ([], d) == Level(t, d);
    if d < h { SingleLevels(t, d + 1, h); }
  }

  /** Scanning the queue [t] lists `t` level by level. */
  lemma BfsIsLevelOrder<T>(t: Tree<T>)
    ensures Bfs([t]) == LevelOrder(t)
  {
    BfsByLevels([t], Height(t));
    SingleLevels(t, 0, Height(t));
  }

  /** The multiset union of the pre-order values of the trees in `q`. */
  ghost function QueueValues<T>(q: seq<Tree<T>>): multiset<T>
  {
    if q == [] then multiset{} else multiset(PreOrder(q[0])) + QueueValues(q[1..])
  }

  lemma {:induction false} QueueValuesAppend<T>(a: seq<Tree<T>>, b: seq<Tree<T>>)
    ensures QueueValues(a + b) == QueueValues(a) + QueueValues(b)
  {
    if a == [] {
      assert a + b == b;
    } else {
      assert (a + b)[1..] == a[1..] + b;
      QueueValuesAppend(a[1..], b);
    }
  }

  lemma QueueValuesPair<T>(l: Tree<T>, r: Tree<T>)
    ensures QueueValues([l, r]) == multiset(PreOrder(l)) + multiset(PreOrder(r))
  {
    assert [l, r][1..] == [r] && [r][1..] == [];
    assert QueueValues([r]) == multiset(PreOrder(r)) + QueueValues([]);
    assert QueueValues([l, r]) == multiset(PreOrder(l)) + QueueValues([r]);
  }

  lemma BfsValuesNode<T>(q: seq<Tree<T>>)
    requires q != [] && q[0].Node?
    requires multiset(Bfs(q[1..] + [q[0].left, q[0].right])) == QueueValues(q[1..] + [q[0].left, q[0].right])
    ensures multiset(Bfs(q)) == QueueValues(q)
  {
    var Node(l, x, r) := q[0];
    QueueValuesAppend(q[1..], [l, r]);
    QueueValuesPair(l, r);
    assert Bfs(q) == [x] + Bfs(q[1..] + [l, r]);
  }

  /** The scan emits every value held in the queue, once. */
  lemma {:induction false} BfsValues<T>(q: seq<Tree<T>>)
    ensures multiset(Bfs(q)) == QueueValues(q)
    decreases SizeSum(q), |q|
  {
    if q != [] {
      if q[0].Nil? {
        assert Bfs(q) == Bfs(q[1..]);
        BfsValues(q[1..]);
      } else {
        PopNodeSize(q);
        BfsValues(q[1..] + [q[0].left, q[0].right]);
        BfsValuesNode(q);
      }
    }
  }

  /** Level order lists every node once: `Size(t)` values, a permutation of
      the pre-order sequence. */
  lemma LevelOrderIsPermutation<T>(t: Tree<T>)
    ensures multiset(LevelOrder(t)) == multiset(PreOrder(t))
    ensures |LevelOrder(t)| == Size(t)
  {
    BfsIsLevelOrder(t);
    BfsValues([t]);
    assert [t][1..] == [];
    DepthFirstLengths(t);
    assert |LevelOrder(t)| == |multiset(LevelOrder(t))| == |multiset(PreOrder(t))|;
  }

  function Present<T>(t: Tree<T>): seq<Tree<T>>
  {
    if t.Nil? then [] else [t]
  }

  /** Enqueueing only the present children emits what enqueueing both would. */
  lemma SkipAbsentChildren<T>(a: seq<Tree<T>>, l: Tree<T>, r: Tree<T>)
    ensures Bfs(a + [l, r]) == Bfs(a + Present(l) + Present(r))
  {
    if l.Nil? && r.Nil? {
      BfsDropAbsent(a, [Nil]);
      BfsDropAbsent(a, []);
      assert a + [l, r] == a + [Nil] + [Nil] && a + [Nil] == a + [Nil] + [];
      assert a + Present(l) + Present(r) == a + [];
    } else if l.Nil? {
      BfsDropAbsent(a, [r]);
      assert a + [l, r] == a + [Nil] + [r];
      assert a + Present(l) + Present(r) == a + [r];
    } else if r.Nil? {
      BfsDropAbsent(a + [l], []);
      assert a + [l, r] == a + [l] + [Nil] + [];
      assert a + Present(l) + Present(r) == a + [l] + [];
    } else {
      assert a + [l, r] == a + Present(l) + Present(r);
    }
  }

  lemma PresentSize<T>(a: seq<Tree<T>>, l: Tree<T>, r: Tree<T>)
    ensures SizeSum(a + Present(l) + Present(r)) == SizeSum(a) + Size(l) + Size(r)
  {
    SizeSumAppend(a + Present(l), Present(r));
    SizeSumAppend(a, Present(l));
    assert [l][1..] == [] && [r][1..] == [];
  }

  /** One step of level_order: pop the front node, emit its value and
      enqueue its present children. */
  lemma LevelOrderStep<T>(q: seq<Tree<T>>)
    requires q != [] && q[0].Node?
    ensures Bfs(q) == [q[0].data] + Bfs(q[1..] + Present(q[0].left) + Present(q[0].right))
    ensures SizeSum(q[1..] + Present(q[0].left) + Present(q[0].right)) < SizeSum(q)
  {
    var Node(l, x, r) := q[0];
    assert Bfs(q) == [x] + Bfs(q[1..] + [l, r]);
    SkipAbsentChildren(q[1..], l, r);
    PresentSize(q[1..], l, r);
    SizeSumAppend([q[0]], q[1..]);
    assert q == [q[0]] + q[1..];
  }

  /** Every entry of the queue is a real node. */
  ghost predicate AllPresent<T>(q: seq<Tree<T>>)
  {
    forall i :: 0 <= i < |q| ==> q[i].Node?
  }

  lemma AllPresentStep<T>(q: seq<Tree<T>>)
    requires AllPresent(q) && q != []
    ensures AllPresent(q[1..] + Present(q[0].left) + Present(q[0].right))
  {
  }

  /** level_order: an empty tree gives []; otherwise a queue seeded with the
      root, each popped node appends its value and enqueues its present
      children, left before right. */
  method LevelOrderScan<T>(root: Tree<T>) returns (result: seq<T>)
    ensures result == LevelOrder(root)
    ensures |result| == Size(root) && multiset(result) == multiset(PreOrder(root))
  {
    result := [];
    if root.Nil? {
      LevelOrderIsPermutation(root);
      return;
    }
    var q := [root];
    while q != []
      invariant AllPresent(q)
      invariant result + Bfs(q) == Bfs([root])
      decreases SizeSum(q)
    {
      var node := q[0];
      LevelOrderStep(q);
      ghost var next := q[1..] + Present(node.left) + Present(node.right);
      AllPresentStep(q);
      assert (result + [node.data]) + Bfs(next) == result + Bfs(q);
      q := q[1..];
      result := result + [node.data];
      if node.left.Node? {
        q := q + [node.left];
      }
      if node.right.Node? {
        q := q + [node.right];
      }
      assert q == next;
    }
    assert Bfs(q) == [];
    LevelOrderIsPermutation(root);
    BfsIsLevelOrder(root);
  }
}
