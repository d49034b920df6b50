/**
 * The structural checks of the binary tree: perfect, regular (full),
 * balanced, unbalanced and complete. Each check follows the recursion or the
 * queue scan of the source and is proved equal to a definition that speaks
 * about every node (module Trees).
 */
module Classify {
  import opened Trees

  /** is_perfect's inner check: an absent node passes; a leaf passes when
      its depth (level + 1) is `depth`; a node with one child fails; a node
      with two children passes when both subtrees pass one level down. */
  function PerfectCheck<T>(t: Tree<T>, depth: int, level: int): (r: bool)
    ensures r <==> Full(t) && LeavesAtDepth(t, depth - level)
  {
    match t
    case Nil =>
      EmptyTreeShape<T>(depth - level);
      true
    case Node(l, _, r) =>
      FullNode(t);
      LeavesAtDepthNode(t, depth - level);
      if l.Nil? && r.Nil? then
        EmptyTreeShape<T>(depth - level - 1);
        depth == level + 1
      else if l.Nil? || r.Nil? then
        false
      else
        PerfectCheck(l, depth, level + 1) && PerfectCheck(r, depth, level + 1)
  }

  /** is_perfect: no node has exactly one child and every leaf lies at depth
      `Height(t)` (the root at depth 1). */
  function IsPerfect<T>(t: Tree<T>): (r: bool)
    ensures r <==> Full(t) && LeavesAtDepth(t, Height(t))
  {
    PerfectCheck(t, Height(t), 0)
  }

  /** A tree is perfect exactly when it has the most nodes its height allows. */
  lemma PerfectIffMaximal<T>(t: Tree<T>)
    ensures IsPerfect(t) <==> Size(t) == Pow2(Height(t)) - 1
  {
    if IsPerfect(t) { PerfectIsMaximal(t); }
    if Size(t) == Pow2(Height(t)) - 1 { MaximalIsPerfect(t); }
  }

  lemma {:induction false} PerfectIsMaximal<T>(t: Tree<T>)
    requires Full(t) && LeavesAtDepth(t, Height(t))
    ensures Size(t) == Pow2(Height(t)) - 1
  {
    match t
    case Nil =>
    case Node(l, _, r) =>
      FullNode(t);
      LeavesAtDepthNode(t, Height(t));
      if l.Node? || r.Node? {
        assert l.Node? && r.Node?;
        PerfectHeights(l, Height(t) - 1);
        PerfectHeights(r, Height(t) - 1);
        PerfectIsMaximal(l);
        PerfectIsMaximal(r);
      }
  }

  lemma {:induction false} MaximalIsPerfect<T>(t: Tree<T>)
    requires Size(t) == Pow2(Height(t)) - 1
    ensures Full(t) && LeavesAtDepth(t, Height(t))
  {
    match t
    case Nil =>
      EmptyTreeShape<T>(0);
    case Node(l, _, r) =>
      MaximalChildren(t);
      MaximalIsPerfect(l);
      MaximalIsPerfect(r);
      FullNode(t);
      LeavesAtDepthNode(t, Height(t));
  }

  /** Both subtrees of a node with the most nodes its height allows are one
      level shorter and have the most nodes their height allows. */
  lemma MaximalChildren<T>(t: Tree<T>)
    requires t.Node? && Size(t) == Pow2(Height(t)) - 1
    ensures Height(t.left) == Height(t) - 1 && Size(t.left) == Pow2(Height(t.left)) - 1
    ensures Height(t.right) == Height(t) - 1 && Size(t.right) == Pow2(Height(t.right)) - 1
  {
    var h := Height(t) - 1;
    var l, r := t.left, t.right;
    assert Pow2(h + 1) == 2 * Pow2(h);
    SizeBounds(l);
    SizeBounds(r);
    Pow2Monotone(Height(l), h);
    Pow2Monotone(Height(r), h);
    TightPair(Size(l), Size(r), Pow2(Height(l)), Pow2(Height(r)), Pow2(h));
    if Height(l) < h { Pow2Strict(Height(l), h); }
    if Height(r) < h { Pow2Strict(Height(r), h); }
  }

  /** Two counts, each at most its own bound minus one, with bounds at most
      p, that add up to 2p - 2 are both p - 1, with both bounds p. */
  lemma TightPair(sl: int, sr: int, pl: int, pr: int, p: int)
    requires sl <= pl - 1 && sr <= pr - 1 && pl <= p && pr <= p
    requires sl + sr == 2 * p - 2
    ensures sl == p - 1 && sr == p - 1 && pl == p && pr == p
  {
  }

  /** A nonempty full tree whose leaves all lie at depth d has height d. */
  lemma {:induction false} PerfectHeights<T>(t: Tree<T>, d: int)
    requires t.Node? && Full(t) && LeavesAtDepth(t, d)
    ensures Height(t) == d
  {
    FullNode(t);
    LeavesAtDepthNode(t, d);
    if t.left.Node? {
      PerfectHeights(t.left, d - 1);
      PerfectHeights(t.right, d - 1);
    }
  }

  /** is_regular's check: an absent node passes, a node with exactly one
      child fails, otherwise both subtrees must pass. */
  function IsRegular<T>(t: Tree<T>): (r: bool)
    ensures r <==> Full(t)
    ensures !r ==> exists path :: HasOneChild(Follow(t, path))
    ensures (exists path :: HasOneChild(Follow(t, path))) ==> !r
  {
    match t
    case Nil =>
      EmptyTreeShape<T>(0);
      true
    case Node(l, _, rt) =>
      FullNode(t);
      if (l.Node? && rt.Nil?) || (l.Nil? && rt.Node?) then
        assert HasOneChild(Follow(t, []));
        false
      else
        IsRegular(l) && IsRegular(rt)
  }

  /** is_balanced's bottom-up check: the pair (height, balanced so far). */
  function BalanceCheck<T>(t: Tree<T>): (r: (nat, bool))
    ensures r.0 == Height(t)
    ensures r.1 <==> HeightBalanced(t)
  {
    match t
    case Nil =>
      EmptyTreeShape<T>(0);
      (0, true)
    case Node(l, _, rt) =>
      HeightBalancedNode(t);
      var (lh, lb) := BalanceCheck(l);
      var (rh, rb) := BalanceCheck(rt);
      (1 + Max(lh, rh), lb && rb && -1 <= lh - rh <= 1)
  }

  /** is_balanced: at every node the subtree heights differ by at most 1. */
  function IsBalanced<T>(t: Tree<T>): (r: bool)
    ensures r <==> HeightBalanced(t)
  {
    BalanceCheck(t).1
  }

  /** is_unbalanced: some node's subtree heights differ by more than 1. */
  function IsUnbalanced<T>(t: Tree<T>): (r: bool)
    ensures r ==> exists path :: !HeightsClose(Follow(t, path))
    ensures (exists path :: !HeightsClose(Follow(t, path))) ==> r
  {
    !IsBalanced(t)
  }

  /** The queue entries `At(t, a)`, ..., `At(t, b - 1)`. */
  ghost function Slots<T>(t: Tree<T>, a: nat, b: nat): seq<Tree<T>>
    requires a <= b
    ensures |Slots(t, a, b)| == b - a
    decreases b - a
  {
    if a == b then [] else [At(t, a)] + Slots(t, a + 1, b)
  }

  lemma {:induction false} SlotsSplit<T>(t: Tree<T>, a: nat, b: nat)
    requires a < b
    ensures Slots(t, a, b)[0] == At(t, a) && Slots(t, a, b)[1..] == Slots(t, a + 1, b)
  {
  }

  lemma {:induction false} SlotsIndex<T>(t: Tree<T>, a: nat, b: nat, i: nat)
    requires a <= b && i < b - a
    ensures Slots(t, a, b)[i] == At(t, a + i)
    decreases b - a
  {
    if i > 0 { SlotsIndex(t, a + 1, b, i - 1); }
  }

  lemma {:induction false} SlotsExtend<T>(t: Tree<T>, a: nat, b: nat)
    requires a <= b
    ensures Slots(t, a, b) + [At(t, b)] == Slots(t, a, b + 1)
    decreases b - a
  {
    if a < b { SlotsExtend(t, a + 1, b); }
  }

  /** The scan before any absent slot was dequeued: the queue holds the
      slots k .. 2k and every slot before k is a real node. */
  ghost predicate Scanning<T>(t: Tree<T>, q: seq<Tree<T>>, k: nat)
  {
    q == Slots(t, k, 2 * k + 1) && forall j: nat :: j < k ==> At(t, j).Node?
  }

  /** The scan after the first absent slot, at position `first`: the queue
      holds the slots k .. 2 first and the slots first .. k - 1 are absent. */
  ghost predicate Draining<T>(t: Tree<T>, q: seq<Tree<T>>, k: nat, first: nat)
  {
    && first < k <= 2 * first + 1
    && q == Slots(t, k, 2 * first + 1)
    && (forall j: nat :: j < first ==> At(t, j).Node?)
    && (forall j: nat :: first <= j < k ==> At(t, j).Nil?)
  }

  /** Dequeuing the real node at slot k and enqueuing both its child slots
      turns slots k .. 2k into slots k + 1 .. 2k + 2. */
  lemma ScanRealSlots<T>(t: Tree<T>, q: seq<Tree<T>>, k: nat)
    requires q == Slots(t, k, 2 * k + 1) && q[0].Node?
    ensures q[1..] + [q[0].left, q[0].right] == Slots(t, k + 1, 2 * k + 3)
  {
    SlotsSplit(t, k, 2 * k + 1);
    AtChildren(t, k);
    SlotsExtend(t, k + 1, 2 * k + 1);
    SlotsExtend(t, k + 1, 2 * k + 2);
    AppendPair(q[1..], q[0].left, q[0].right, Slots(t, k + 1, 2 * k + 2), Slots(t, k + 1, 2 * k + 3));
  }

  lemma AppendPair<X>(a: seq<X>, l: X, r: X, b: seq<X>, c: seq<X>)
    requires a + [l] == b && b + [r] == c
    ensures a + [l, r] == c
  {
    assert a + [l, r] == (a + [l]) + [r];
  }

  lemma ScanReal<T>(t: Tree<T>, q: seq<Tree<T>>, k: nat)
    requires Scanning(t, q, k) && q[0].Node?
    ensures Scanning(t, q[1..] + [q[0].left, q[0].right], k + 1)
    ensures SizeSum(q[1..] + [q[0].left, q[0].right]) < SizeSum(q)
  {
    ScanRealSlots(t, q, k);
    SlotsSplit(t, k, 2 * k + 1);
    PopNodeSize(q);
  }

  lemma ScanAbsent<T>(t: Tree<T>, q: seq<Tree<T>>, k: nat)
    requires Scanning(t, q, k) && q[0].Nil?
    ensures Draining(t, q[1..], k + 1, k)
  {
    SlotsSplit(t, k, 2 * k + 1);
  }

  lemma DrainAbsent<T>(t: Tree<T>, q: seq<Tree<T>>, k: nat, first: nat)
    requires Draining(t, q, k, first) && q != [] && q[0].Nil?
    ensures Draining(t, q[1..], k + 1, first)
  {
    SlotsSplit(t, k, 2 * first + 1);
  }

  lemma DrainReal<T>(t: Tree<T>, q: seq<Tree<T>>, k: nat, first: nat)
    requires Draining(t, q, k, first) && q != [] && q[0].Node?
    ensures !Complete(t)
  {
    SlotsSplit(t, k, 2 * first + 1);
    assert At(t, first).Nil? && At(t, k).Node?;
  }

  /** Once the queue has drained without meeting a real node, every slot
      before `first` is real and every slot from `first` on is absent. */
  lemma DrainDone<T>(t: Tree<T>, k: nat, first: nat)
    requires Draining(t, [], k, first)
    ensures Complete(t)
  {
    forall p: nat, p': nat | p < p' && At(t, p).Nil? ensures At(t, p').Nil? {
      AbsentFrom(t, first, p');
    }
  }

  lemma SizeSumTail<T>(q: seq<Tree<T>>)
    requires q != []
    ensures SizeSum(q[1..]) <= SizeSum(q)
  {
  }

  /** is_complete: a breadth-first scan that enqueues both child slots of
      every real node, absent ones included; once an absent slot has been
      dequeued, dequeuing a real node means the tree is not complete. */
  method IsComplete<T>(root: Tree<T>) returns (b: bool)
    ensures b <==> Complete(root)
  {
    if root.Nil? {
      EmptyTreeComplete<T>();
      return true;
    }
    var q := [root];
    var end := false;
    ghost var k: nat := 0;      // heap position of q[0]
    ghost var first: nat := 0;  // heap position of the first absent slot
    while q != []
      invariant if end then Draining(root, q, k, first) else Scanning(root, q, k)
      decreases SizeSum(q), |q|
    {
      var node := q[0];
      if node.Nil? {
        SizeSumTail(q);
        if end {
          DrainAbsent(root, q, k, first);
        } else {
          ScanAbsent(root, q, k);
          first := k;
        }
        q := q[1..];
        end := true;
      } else {
        if end {
          DrainReal(root, q, k, first);
          return false;
        }
        ScanReal(root, q, k);
        q := q[1..] + [node.left, node.right];
      }
      k := k + 1;
    }
    DrainDone(root, k, first);
    return true;
  }
}
