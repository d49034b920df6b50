/**
 * The binary tree object and its one mutator, level-order insertion.
 *
 * Nodes live in an arena: node `i` is the i-th node ever created, with its
 * payload in `data[i]` and the arena indices of its children in `left[i]` and
 * `right[i]` (`Absent` for a missing child); `root` is the index of the root
 * node or `Absent`. Inserting creates node `|data|` with both children absent
 * and attaches it to one free child slot of an existing node, in place.
 *
 * Because insertion is the only way a tree changes, every reachable tree has
 * the heap shape: node i has children 2i + 1 and 2i + 2 when those nodes
 * exist. `Valid()` states that shape and insertion preserves it.
 */
module Insertion {
  import opened Trees
  import opened Traversals
  import opened Classify

  const Absent: int := -1

  /** The arena index of a child that sits at index `c` once `n` nodes exist. */
  function ChildSlot(c: nat, n: nat): int
  {
    if c < n then c else Absent
  }

  /** The child links of `n` nodes in heap shape: node i links to nodes
      2i + 1 and 2i + 2 when they exist. */
  ghost predicate HeapLinks(left: seq<int>, right: seq<int>, n: nat)
  {
    && |left| == n && |right| == n
    && forall i :: 0 <= i < n ==>
         left[i] == ChildSlot(2 * i + 1, n) && right[i] == ChildSlot(2 * i + 2, n)
  }

  /** Where level-order insertion puts node n into a heap-shaped tree of
      n > 0 nodes: into a slot of node p = (n - 1) / 2 that was absent (the
      left one when n is odd), after every node before p has both children;
      attaching it there keeps the heap shape. */
  lemma InsertionSlot(left: seq<int>, right: seq<int>, n: nat)
    requires HeapLinks(left, right, n) && n > 0
    ensures var p := (n - 1) / 2;
      && (forall j :: 0 <= j < p ==> left[j] != Absent && right[j] != Absent)
      && (n % 2 == 1 ==>
            left[p] == Absent && HeapLinks((left + [Absent])[p := n], right + [Absent], n + 1))
      && (n % 2 == 0 ==>
            left[p] != Absent && right[p] == Absent
            && HeapLinks(left + [Absent], (right + [Absent])[p := n], n + 1))
  {
  }

  /** The tree whose node at heap position i holds vals[i]. */
  function Heap<T>(vals: seq<T>, i: nat): Tree<T>
    decreases if i < |vals| then |vals| - i else 0
  {
    if i < |vals| then Node(Heap(vals, 2 * i + 1), vals[i], Heap(vals, 2 * i + 2)) else Nil
  }

  // ---------------------------------------------------------------------
  // The shape level-order insertion produces
  // ---------------------------------------------------------------------

  /** The children of heap node i are heap nodes 2i + 1 and 2i + 2. */
  lemma HeapChildren<T>(vals: seq<T>, i: nat)
    ensures LeftOf(Heap(vals, i)) == Heap(vals, 2 * i + 1)
    ensures RightOf(Heap(vals, i)) == Heap(vals, 2 * i + 2)
  {
  }

  /** In the heap-shaped tree, heap position p holds node p. */
  lemma {:induction false} HeapAt<T>(vals: seq<T>, p: nat)
    ensures At(Heap(vals, 0), p) == Heap(vals, p)
    decreases p
  {
    if p > 0 {
      var t, q := Heap(vals, 0), (p - 1) / 2;
      HeapAt(vals, q);
      HeapChildren(vals, q);
      if p % 2 == 1 {
        calc {
          At(t, p);
          LeftOf(At(t, q));
          LeftOf(Heap(vals, q));
          Heap(vals, 2 * q + 1);
          { assert 2 * q + 1 == p; }
          Heap(vals, p);
        }
      } else {
        calc {
          At(t, p);
          RightOf(At(t, q));
          RightOf(Heap(vals, q));
          Heap(vals, 2 * q + 2);
          { assert 2 * q + 2 == p; }
          Heap(vals, p);
        }
      }
    }
  }

  /** A tree built only by level-order insertion is complete. */
  lemma HeapComplete<T>(vals: seq<T>)
    ensures Complete(Heap(vals, 0))
  {
    forall p: nat, q: nat | p < q && At(Heap(vals, 0), p).Nil?
      ensures At(Heap(vals, 0), q).Nil?
    {
      HeapAt(vals, p);
      HeapAt(vals, q);
    }
  }

  /** The breadth-first scan of the slots k .. 2k of the heap-shaped tree
      emits vals[k..]. */
  lemma {:induction false} HeapScan<T>(vals: seq<T>, k: nat)
    requires k <= |vals|
    ensures Bfs(Slots(Heap(vals, 0), k, 2 * k + 1)) == vals[k..]
    decreases |vals| - k
  {
    var t := Heap(vals, 0);
    var q := Slots(t, k, 2 * k + 1);
    if k == |vals| {
      forall i | 0 <= i < |q| ensures Height(q[i]) <= 0 {
        SlotsIndex(t, k, 2 * k + 1, i);
        HeapAt(vals, k + i);
      }
      BfsAllAbsent(q);
    } else {
      forall j: nat | j < k ensures At(t, j).Node? { HeapAt(vals, j); }
      SlotsSplit(t, k, 2 * k + 1);
      HeapAt(vals, k);
      ScanReal(t, q, k);
      assert Bfs(q) == [vals[k]] + Bfs(q[1..] + [q[0].left, q[0].right]);
      HeapScan(vals, k + 1);
      assert vals[k..] == [vals[k]] + vals[k + 1..];
    }
  }

  /** Level order of a tree built by level-order insertion is the insertion
      order. */
  lemma HeapLevelOrder<T>(vals: seq<T>)
    ensures LevelOrder(Heap(vals, 0)) == vals
  {
    var t := Heap(vals, 0);
    HeapScan(vals, 0);
    SlotsSplit(t, 0, 1);
    assert Slots(t, 0, 1) == [t];
    BfsIsLevelOrder(t);
  }

  /** A tree built by n level-order insertions has n nodes. */
  lemma HeapSize<T>(vals: seq<T>)
    ensures Size(Heap(vals, 0)) == |vals|
  {
    HeapLevelOrder(vals);
    LevelOrderIsPermutation(Heap(vals, 0));
  }

  /** floor(log2 n) for n >= 1. */
  function Log2Floor(n: nat): (r: nat)
    requires n >= 1
    ensures Pow2(r) <= n < Pow2(r + 1)
  {
    if n == 1 then 0 else 1 + Log2Floor(n / 2)
  }

  lemma Log2Unique(n: nat, a: nat, b: nat)
    requires Pow2(a) <= n < Pow2(a + 1) && Pow2(b) <= n < Pow2(b + 1)
    ensures a == b
  {
    if a < b { Pow2Monotone(a + 1, b); }
    if b < a { Pow2Monotone(b + 1, a); }
  }

  lemma MulMonotone(a: nat, b: nat, c: nat)
    requires a <= b
    ensures a * c <= b * c
  {
  }

  /** Going up from a child at heap index 2j (1-based) to its parent j adds
      one to the height bound's exponent. */
  lemma ParentBounds(n: nat, j: nat, hl: nat)
    requires hl >= 1 && 2 * j * Pow2(hl - 1) <= n < 2 * j * Pow2(hl)
    ensures j * Pow2(hl) <= n < j * Pow2(hl + 1)
  {
    var p := Pow2(hl - 1);
    assert Pow2(hl) == 2 * p;
    assert Pow2(hl + 1) == 2 * Pow2(hl);
    assert j * Pow2(hl) == 2 * j * p;
    assert j * Pow2(hl + 1) == 2 * j * Pow2(hl);
  }

  /** The right sibling (1-based index 2j + 1) is never taller than the left. */
  lemma RightNotTaller(n: nat, j: nat, hl: nat, hr: nat)
    requires hl >= 1 && hr >= 1
    requires n < 2 * j * Pow2(hl) && (2 * j + 1) * Pow2(hr - 1) <= n
    ensures hr <= hl
  {
    if hr > hl {
      Pow2Monotone(hl, hr - 1);
      MulMonotone(Pow2(hl), Pow2(hr - 1), 2 * j);
      MulMonotone(2 * j, 2 * j + 1, Pow2(hr - 1));
    }
  }

  /** The subtree at heap position i of the heap-shaped tree of n values has
      the height h with (i + 1) * 2^(h-1) <= n < (i + 1) * 2^h. */
  lemma {:induction false} HeapHeightBounds<T>(vals: seq<T>, i: nat)
    requires i < |vals|
    ensures Height(Heap(vals, i)) >= 1
    ensures (i + 1) * Pow2(Height(Heap(vals, i)) - 1) <= |vals|
    ensures |vals| < (i + 1) * Pow2(Height(Heap(vals, i)))
    decreases |vals| - i
  {
    var n, j := |vals|, i + 1;
    var l, r := Heap(vals, 2 * i + 1), Heap(vals, 2 * i + 2);
    var h := Height(Heap(vals, i));
    assert h == 1 + Max(Height(l), Height(r));
    if 2 * i + 1 < n {
      HeapHeightBounds(vals, 2 * i + 1);
      var hl := Height(l);
      assert 2 * i + 2 == 2 * j;
      if 2 * i + 2 < n {
        HeapHeightBounds(vals, 2 * i + 2);
        assert 2 * i + 3 == 2 * j + 1;
        RightNotTaller(n, j, hl, Height(r));
      }
      assert h == hl + 1;
      ParentBounds(n, j, hl);
    } else {
      assert h == 1;
    }
  }

  /** A tree built by n level-order insertions has height 0 when n = 0 and
      floor(log2 n) + 1 otherwise. */
  lemma HeapHeight<T>(vals: seq<T>)
    ensures Height(Heap(vals, 0)) == if |vals| == 0 then 0 else Log2Floor(|vals|) + 1
  {
    if |vals| > 0 {
      HeapHeightBounds(vals, 0);
      var h := Height(Heap(vals, 0));
      Log2Unique(|vals|, h - 1, Log2Floor(|vals|));
    }
  }

  /** The shape after inserting `vals` one by one into an empty tree. */
  lemma InsertionShape<T>(vals: seq<T>)
    ensures Size(Heap(vals, 0)) == |vals|
    ensures LevelOrder(Heap(vals, 0)) == vals
    ensures Complete(Heap(vals, 0))
    ensures Height(Heap(vals, 0)) == if |vals| == 0 then 0 else Log2Floor(|vals|) + 1
  {
    HeapSize(vals);
    HeapLevelOrder(vals);
    HeapComplete(vals);
    HeapHeight(vals);
  }

  class BinaryTree<T> {
    var data: seq<T>
    var left: seq<int>
    var right: seq<int>
    var root: int

    ghost predicate Valid()
      reads this
    {
      && |left| == |data| && |right| == |data|
      && root == (if |data| == 0 then Absent else 0)
      && HeapLinks(left, right, |data|)
    }

    /** The subtree rooted at arena node `i`, read off the child links. */
    function Subtree(i: nat): Tree<T>
      reads this
      requires Valid() && i < |data|
      decreases |data| - i
    {
      Node(if left[i] == Absent then Nil else Subtree(left[i]),
           data[i],
           if right[i] == Absent then Nil else Subtree(right[i]))
    }

    /** The whole tree, read off the links from `root`. */
    function Root(): Tree<T>
      reads this
      requires Valid()
    {
      if root == Absent then Nil else Subtree(root)
    }

    lemma {:induction false} SubtreeIsHeap(i: nat)
      requires Valid() && i < |data|
      ensures Subtree(i) == Heap(data, i)
      decreases |data| - i
    {
      if 2 * i + 1 < |data| { SubtreeIsHeap(2 * i + 1); }
      if 2 * i + 2 < |data| { SubtreeIsHeap(2 * i + 2); }
    }

    /** The linked structure is the heap-shaped tree of the inserted values. */
    lemma RootIsHeap()
      requires Valid()
      ensures Root() == Heap(data, 0)
    {
      if |data| > 0 { SubtreeIsHeap(0); }
    }

    /** Nodes are listed in level order in the order they were created, and
        the tree is complete. */
    lemma LevelOrderIsInsertionOrder()
      requires Valid()
      ensures LevelOrder(Root()) == data
      ensures Size(Root()) == |data|
      ensures Complete(Root())
    {
      RootIsHeap();
      InsertionShape(data);
    }

    /** BinaryTree(): an empty tree with no root. */
    constructor ()
      ensures Valid() && data == [] && Root() == Nil
    {
      data, left, right, root := [], [], [], Absent;
    }

    /** insert_level_order: a new node becomes the root of an empty tree;
        otherwise a first-in-first-out scan from the root attaches it to the
        first absent child slot, left before right. */
    method InsertLevelOrder(x: T)
      requires Valid()
      modifies this
      ensures Valid()
      ensures data == old(data) + [x]
      ensures Root() == Heap(old(data) + [x], 0)
      // An empty tree: the new node is the root.
      ensures old(|data|) == 0 ==> root == 0 && left == [Absent] && right == [Absent]
      // Otherwise the root stays, and the new node n fills one slot of node
      // p = (n - 1) / 2, which was absent; every node before p (in level
      // order, see LevelOrderIsInsertionOrder) already had both children.
      ensures old(|data|) > 0 ==> root == old(root)
      ensures old(|data|) > 0 ==>
        var n := old(|data|);
        var p := (n - 1) / 2;
        && (forall j :: 0 <= j < p ==> old(left)[j] != Absent && old(right)[j] != Absent)
        && (if n % 2 == 1 then
              && old(left)[p] == Absent
              && left == (old(left) + [Absent])[p := n]
              && right == old(right) + [Absent]
            else
              && old(left)[p] != Absent && old(right)[p] == Absent
              && left == old(left) + [Absent]
              && right == (old(right) + [Absent])[p := n])
    {
      var n := |data|;
      ghost var oldLeft, oldRight := left, right;
      if n > 0 { InsertionSlot(left, right, n); }
      data := data + [x];
      left := left + [Absent];
      right := right + [Absent];
      if root == Absent {
        root := n;
        RootIsHeap();
        return;
      }
      var q := [root];
      ghost var k: nat := 0;  // the arena index of q[0]
      while q != []
        invariant data == old(data) + [x] && root == old(root) == 0
        invariant left == oldLeft + [Absent] && right == oldRight + [Absent]
        invariant 2 * k < n
        invariant q == seq(k + 1, j => k + j)
        decreases n - k
      {
        var node := q[0];
        q := q[1..];
        if left[node] == Absent {
          left := left[node := n];
          RootIsHeap();
          return;
        } else {
          q := q + [left[node]];
        }
        if right[node] == Absent {
          right := right[node := n];
          RootIsHeap();
          return;
        } else {
          q := q + [right[node]];
        }
        k := k + 1;
      }
    }
  }

  /** Builds a tree by inserting `vals` one after another into an empty tree. */
  method Build<T>(vals: seq<T>) returns (t: BinaryTree<T>)
    ensures fresh(t) && t.Valid() && t.data == vals
    ensures t.Root() == Heap(vals, 0)
    ensures Size(t.Root()) == |vals| && LevelOrder(t.Root()) == vals && Complete(t.Root())
    ensures Height(t.Root()) == if |vals| == 0 then 0 else Log2Floor(|vals|) + 1
  {
    t := new BinaryTree();
    for i := 0 to |vals|
      invariant t.Valid() && t.data == vals[..i]
    {
      t.InsertLevelOrder(vals[i]);
      assert vals[..i + 1] == vals[..i] + [vals[i]];
    }
    assert vals[..|vals|] == vals;
    t.RootIsHeap();
    InsertionShape(vals);
  }
}
