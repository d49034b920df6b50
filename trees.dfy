/**
 * The abstract binary tree: a node holds an opaque payload and two optional
 * children. Values are never compared; only the shape matters.
 *
 * This module holds the measures of the tree (count_nodes, height), the three
 * depth-first orders and the level order as reference definitions, and the
 * structural notions (full, leaves at one depth, height-balanced, complete)
 * that the checks in module Classify are proved against.
 */
module Trees {

  /** `Nil` stands for an absent node (Python's `None`). */
  datatype Tree<T> = Nil | Node(left: Tree<T>, data: T, right: Tree<T>)

  function Max(a: int, b: int): int { if a < b then b else a }

  function Pow2(n: nat): (r: nat)
    ensures r >= 1
  {
    if n == 0 then 1 else 2 * Pow2(n - 1)
  }

  /** count_nodes: 0 for an absent node, else 1 + both subtrees. The
      count is 0 only for the empty tree. */
  function Size<T>(t: Tree<T>): (r: nat)
    ensures r == 0 <==> t.Nil?
  {
    match t
    case Nil => 0
    case Node(l, _, r) => 1 + Size(l) + Size(r)
  }

  /** height: 0 for an absent node, else 1 + the larger subtree height. The
      height is 0 only for the empty tree. */
  function Height<T>(t: Tree<T>): (r: nat)
    ensures r == 0 <==> t.Nil?
  {
    match t
    case Nil => 0
    case Node(l, _, r) => 1 + Max(Height(l), Height(r))
  }

  predicate IsLeaf<T>(t: Tree<T>)
  {
    t.Node? && t.left.Nil? && t.right.Nil?
  }

  predicate HasOneChild<T>(t: Tree<T>)
  {
    t.Node? && t.left.Node? != t.right.Node?
  }

  /** The subtree reached from `t` by following `path` (false = left,
      true = right); `Nil` once the path leaves the tree. */
  function Follow<T>(t: Tree<T>, path: seq<bool>): Tree<T>
    decreases |path|
  {
    if path == [] then t
    else match t
      case Nil => Nil
      case Node(l, _, r) => Follow(if path[0] then r else l, path[1..])
  }

  lemma FollowStep<T>(t: Tree<T>, b: bool, path: seq<bool>)
    requires t.Node?
    ensures Follow(t, [b] + path) == Follow(if b then t.right else t.left, path)
  {
    assert ([b] + path)[1..] == path;
  }

  // ---------------------------------------------------------------------
  // Structural notions, each stated over every node of the tree
  // ---------------------------------------------------------------------

  /** No node has exactly one child (a "regular" or full tree). */
  ghost predicate Full<T>(t: Tree<T>)
  {
    forall path :: !HasOneChild(Follow(t, path))
  }

  /** Every leaf lies at depth `d`, counting the root as depth 1. */
  ghost predicate LeavesAtDepth<T>(t: Tree<T>, d: int)
  {
    forall path :: IsLeaf(Follow(t, path)) ==> |path| + 1 == d
  }

  /** The two subtree heights of a node differ by at most one. */
  predicate HeightsClose<T>(t: Tree<T>)
  {
    t.Nil? || -1 <= Height(t.left) - Height(t.right) <= 1
  }

  /** Every node is height-close (AVL-style balance). */
  ghost predicate HeightBalanced<T>(t: Tree<T>)
  {
    forall path :: HeightsClose(Follow(t, path))
  }

  lemma FullNode<T>(t: Tree<T>)
    requires t.Node?
    ensures Full(t) <==> !HasOneChild(t) && Full(t.left) && Full(t.right)
  {
    if Full(t) {
      assert !HasOneChild(Follow(t, []));
      forall path ensures !HasOneChild(Follow(t.left, path)) {
        FollowStep(t, false, path);
      }
      forall path ensures !HasOneChild(Follow(t.right, path)) {
        FollowStep(t, true, path);
      }
    }
    if !HasOneChild(t) && Full(t.left) && Full(t.right) {
      forall path ensures !HasOneChild(Follow(t, path)) {
        if path != [] {
          assert path == [path[0]] + path[1..];
          FollowStep(t, path[0], path[1..]);
        }
      }
    }
  }

  lemma LeavesAtDepthNode<T>(t: Tree<T>, d: int)
    requires t.Node?
    ensures LeavesAtDepth(t, d) <==>
      (IsLeaf(t) ==> d == 1) && LeavesAtDepth(t.left, d - 1) && LeavesAtDepth(t.right, d - 1)
  {
    if LeavesAtDepth(t, d) {
      assert IsLeaf(t) ==> IsLeaf(Follow(t, []));
      forall path | IsLeaf(Follow(t.left, path)) ensures |path| + 1 == d - 1 {
        FollowStep(t, false, path);
      }
      forall path | IsLeaf(Follow(t.right, path)) ensures |path| + 1 == d - 1 {
        FollowStep(t, true, path);
      }
    }
    if (IsLeaf(t) ==> d == 1) && LeavesAtDepth(t.left, d - 1) && LeavesAtDepth(t.right, d - 1) {
      forall path | IsLeaf(Follow(t, path)) ensures |path| + 1 == d {
        if path != [] {
          assert path == [path[0]] + path[1..];
          FollowStep(t, path[0], path[1..]);
        }
      }
    }
  }

  lemma HeightBalancedNode<T>(t: Tree<T>)
    requires t.Node?
    ensures HeightBalanced(t) <==>
      HeightsClose(t) && HeightBalanced(t.left) && HeightBalanced(t.right)
  {
    if HeightBalanced(t) {
      assert HeightsClose(Follow(t, []));
      forall path ensures HeightsClose(Follow(t.left, path)) {
        FollowStep(t, false, path);
      }
      forall path ensures HeightsClose(Follow(t.right, path)) {
        FollowStep(t, true, path);
      }
    }
    if HeightsClose(t) && HeightBalanced(t.left) && HeightBalanced(t.right) {
      forall path ensures HeightsClose(Follow(t, path)) {
        if path != [] {
          assert path == [path[0]] + path[1..];
          FollowStep(t, path[0], path[1..]);
        }
      }
    }
  }

  /** An absent tree is vacuously full, height-balanced and has all its
      (no) leaves at every depth. */
  lemma EmptyTreeShape<T>(d: int)
    ensures Full<T>(Nil) && LeavesAtDepth<T>(Nil, d) && HeightBalanced<T>(Nil)
    ensures Size<T>(Nil) == 0 && Height<T>(Nil) == 0
  {
    forall path ensures Follow<T>(Nil, path) == Nil { }
  }

  // ---------------------------------------------------------------------
  // Measures
  // ---------------------------------------------------------------------

  /** The height is the number of nodes on a deepest root-to-node path:
      no node lies deeper, and some node lies exactly that deep. */
  lemma {:induction false} HeightIsDeepest<T>(t: Tree<T>)
    ensures Height(t) == 0 <==> t.Nil?
    ensures forall path :: Follow(t, path).Node? ==> |path| < Height(t)
    ensures t.Node? ==> exists path :: |path| + 1 == Height(t) && Follow(t, path).Node?
  {
    match t
    case Nil =>
      forall path ensures Follow(t, path).Nil? { }
    case Node(l, _, r) =>
      HeightIsDeepest(l);
      HeightIsDeepest(r);
      forall path | Follow(t, path).Node? ensures |path| < Height(t) {
        if path != [] {
          assert path == [path[0]] + path[1..];
          FollowStep(t, path[0], path[1..]);
        }
      }
      if Height(l) == 0 && Height(r) == 0 {
        assert Follow(t, []).Node?;
      } else {
        var b := Height(l) < Height(r);
        var c := if b then r else l;
        var p :| |p| + 1 == Height(c) && Follow(c, p).Node?;
        FollowStep(t, b, p);
        assert |[b] + p| + 1 == Height(t);
      }
  }

  /** A tree of height h holds between h and 2^h - 1 nodes. */
  lemma {:induction false} SizeBounds<T>(t: Tree<T>)
    ensures Height(t) <= Size(t) <= Pow2(Height(t)) - 1
  {
    match t
    case Nil =>
    case Node(l, _, r) =>
      SizeBounds(l);
      SizeBounds(r);
      Pow2Monotone(Height(l), Height(t) - 1);
      Pow2Monotone(Height(r), Height(t) - 1);
  }

  lemma {:induction false} Pow2Monotone(a: nat, b: nat)
    requires a <= b
    ensures Pow2(a) <= Pow2(b)
  {
    if a < b { Pow2Monotone(a, b - 1); }
  }

  lemma Pow2Strict(a: nat, b: nat)
    requires a < b
    ensures 2 * Pow2(a) <= Pow2(b)
  {
    Pow2Monotone(a, b - 1);
  }

  /** Total size of the trees in a queue: the scan's termination measure. */
  function SizeSum<T>(q: seq<Tree<T>>): nat
  {
    if q == [] then 0 else Size(q[0]) + SizeSum(q[1..])
  }

  lemma {:induction false} SizeSumAppend<T>(a: seq<Tree<T>>, b: seq<Tree<T>>)
    ensures SizeSum(a + b) == SizeSum(a) + SizeSum(b)
  {
    if a == [] {
      assert a + b == b;
    } else {
      assert (a + b)[1..] == a[1..] + b;
      SizeSumAppend(a[1..], b);
    }
  }

  /** Popping a node and enqueueing both its children shrinks the queue's
      total size by one. */
  lemma PopNodeSize<T>(q: seq<Tree<T>>)
    requires q != [] && q[0].Node?
    ensures SizeSum(q[1..] + [q[0].left, q[0].right]) == SizeSum(q) - 1
  {
    SizeSumAppend([q[0]], q[1..]);
    assert q == [q[0]] + q[1..];
    SizeSumAppend(q[1..], [q[0].left, q[0].right]);
    SizeSumAppend([q[0].left], [q[0].right]);
  }

  // ---------------------------------------------------------------------
  // Traversal orders (reference definitions)
  // ---------------------------------------------------------------------

  function InOrder<T>(t: Tree<T>): seq<T>
  {
    match t
    case Nil => []
    case Node(l, x, r) => InOrder(l) + [x] + InOrder(r)
  }

  function PreOrder<T>(t: Tree<T>): seq<T>
  {
    match t
    case Nil => []
    case Node(l, x, r) => [x] + PreOrder(l) + PreOrder(r)
  }

  function PostOrder<T>(t: Tree<T>): seq<T>
  {
    match t
    case Nil => []
    case Node(l, x, r) => PostOrder(l) + PostOrder(r) + [x]
  }

  /** Each depth-first order lists `Size(t)` values. */
  lemma {:induction false} DepthFirstLengths<T>(t: Tree<T>)
    ensures |InOrder(t)| == Size(t) && |PreOrder(t)| == Size(t) && |PostOrder(t)| == Size(t)
  {
    match t
    case Nil =>
    case Node(l, x, r) =>
      DepthFirstLengths(l);
      DepthFirstLengths(r);
  }

  /** The three depth-first orders hold the same values: they are
      permutations of one another. */
  lemma {:induction false} DepthFirstOrdersAgree<T>(t: Tree<T>)
    ensures multiset(InOrder(t)) == multiset(PreOrder(t))
    ensures multiset(PostOrder(t)) == multiset(PreOrder(t))
  {
    match t
    case Nil =>
    case Node(l, x, r) =>
      DepthFirstOrdersAgree(l);
      DepthFirstOrdersAgree(r);
  }

  /** The values at depth `d` (the root is depth 0), left to right. */
  function Level<T>(t: Tree<T>, d: nat): seq<T>
  {
    match t
    case Nil => []
    case Node(l, x, r) => if d == 0 then [x] else Level(l, d - 1) + Level(r, d - 1)
  }

  /** Levels `d`, `d + 1`, ..., `h - 1` of `t`, one after another. */
  function LevelsFrom<T>(t: Tree<T>, d: nat, h: nat): seq<T>
    decreases h - d
  {
    if d >= h then [] else Level(t, d) + LevelsFrom(t, d + 1, h)
  }

  /** Level order: top to bottom, left to right within each level. */
  function LevelOrder<T>(t: Tree<T>): seq<T>
  {
    LevelsFrom(t, 0, Height(t))
  }

  // ---------------------------------------------------------------------
  // Heap positions and completeness
  // ---------------------------------------------------------------------

  function LeftOf<T>(t: Tree<T>): Tree<T> { if t.Nil? then Nil else t.left }
  function RightOf<T>(t: Tree<T>): Tree<T> { if t.Nil? then Nil else t.right }

  /** The slot at heap position `p`: the root is position 0 and the children
      of position `i` are positions 2i + 1 and 2i + 2. Slots below an absent
      node are absent. */
  function At<T>(t: Tree<T>, p: nat): Tree<T>
    decreases p
  {
    if p == 0 then t
    else if p % 2 == 1 then LeftOf(At(t, (p - 1) / 2))
    else RightOf(At(t, (p - 1) / 2))
  }

  lemma AtChildren<T>(t: Tree<T>, k: nat)
    ensures At(t, 2 * k + 1) == LeftOf(At(t, k))
    ensures At(t, 2 * k + 2) == RightOf(At(t, k))
  {
    assert (2 * k + 1 - 1) / 2 == k;
    assert (2 * k + 2 - 1) / 2 == k;
  }

  /** Complete: every level is full except possibly the last, which is
      filled from the left. Equivalently, the occupied heap positions form
      a prefix 0, 1, ..., n - 1 with no gap. */
  ghost predicate Complete<T>(t: Tree<T>)
  {
    forall p: nat, q: nat :: p < q && At(t, p).Nil? ==> At(t, q).Nil?
  }

  lemma {:induction false} AtNil<T>(p: nat)
    ensures At<T>(Nil, p) == Nil
    decreases p
  {
    if p > 0 { AtNil<T>((p - 1) / 2); }
  }

  lemma EmptyTreeComplete<T>()
    ensures Complete<T>(Nil)
  {
    forall q: nat ensures At<T>(Nil, q).Nil? { AtNil<T>(q); }
  }

  /** If the slots `first .. 2 * first` are all absent, then so is every
      slot from `first` on: the parent of a later slot lies in that range or
      is itself a later slot. */
  lemma {:induction false} AbsentFrom<T>(t: Tree<T>, first: nat, q: nat)
    requires forall j: nat :: first <= j <= 2 * first ==> At(t, j).Nil?
    requires first <= q
    ensures At(t, q).Nil?
    decreases q
  {
    if q > 2 * first {
      AbsentFrom(t, first, (q - 1) / 2);
    }
  }
}
