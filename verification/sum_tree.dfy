/** The sum-tree: every node holds the sum of the priorities below it.

    updateSumTree walks from a leaf's parent to the root and adds the leaf's change to each
    node on the way, unconditionally: every ancestor's total depends on every leaf below it.
    refreshAllSumTree rebuilds the tree from zeros by the same walk, once per stored priority. */
module SumTree {

  import opened Arith
  import opened Seqs
  import opened Layout

  /** Sum of the leaves that node c at height h covers. */
  function Covered(leaves: seq<real>, n: nat, h: nat, c: nat): real
  {
    Sum(Block(leaves, c, Pow(n, h)))
  }

  /** Every node of level k (height k+1) holds the sum of the leaves it covers. */
  ghost predicate Exact(tree: Levels, leaves: seq<real>, n: nat, depth: nat)
  {
    && Shaped(tree, n, depth)
    && |leaves| == Pow(n, depth)
    && forall k, c :: 0 <= k < depth && 0 <= c < |tree[k]| ==> tree[k][c] == Covered(leaves, n, k + 1, c)
  }

  /** The level one below level k: the leaves for k = 0, else level k-1. */
  function Below(tree: Levels, leaves: seq<real>, k: nat): seq<real>
    requires k <= |tree|
  {
    if k == 0 then leaves else tree[k - 1]
  }

  /** Every node holds the sum of its block of n children one level down. */
  ghost predicate BlockConsistent(tree: Levels, leaves: seq<real>, n: nat, depth: nat)
  {
    && Shaped(tree, n, depth)
    && |leaves| == Pow(n, depth)
    && forall k, c {:trigger Block(Below(tree, leaves, k), c, n)} :: 0 <= k < depth && 0 <= c < |tree[k]| ==>
         tree[k][c] == Sum(Block(Below(tree, leaves, k), c, n))
  }

  // ---------------------------------------------------------------- the ancestor walk

  /** The loop of updateSumTree from level k on: add delta to node p of level k and to each
      of its ancestors, up to the root. */
  function AddAlong(tree: Levels, n: nat, depth: nat, k: nat, p: nat, delta: real): (r: Levels)
    requires n >= 1
    requires Shaped(tree, n, depth)
    requires k <= depth
    requires k < depth ==> p < Pow(n, depth - 1 - k)
    ensures Shaped(r, n, depth)
    ensures forall j, c :: 0 <= j < depth && 0 <= c < |r[j]| ==>
      r[j][c] == tree[j][c] + (if k <= j && c == Ancestor(p, n, j - k) then delta else 0.0)
    decreases depth - k
  {
    if k == depth then tree
    else
      var t' := tree[k := tree[k][p := tree[k][p] + delta]];
      assert Shaped(t', n, depth);
      var q := ParentIndex(p, n);
      assert k + 1 < depth ==> q < Pow(n, depth - 1 - (k + 1)) by {
        if k + 1 < depth {
          ParentInBounds(p, n, depth - 1 - (k + 1));
        }
      }
      assert forall m: nat :: Ancestor(q, n, m) == Ancestor(p, n, m + 1) by {
        forall m: nat
          ensures Ancestor(q, n, m) == Ancestor(p, n, m + 1)
        {
          AncestorOfParent(p, n, m);
        }
      }
      AddAlong(t', n, depth, k + 1, q, delta)
  }

  /** updateSumTree(index, old_priority): the leaf at `idx` changed from oldP to newP. Exactly
      the ancestors of the leaf change, each by newP - oldP. */
  function UpdateSumTree(tree: Levels, n: nat, depth: nat, idx: nat, oldP: real, newP: real): (r: Levels)
    requires n >= 1
    requires Shaped(tree, n, depth)
    requires idx < Pow(n, depth)
    ensures Shaped(r, n, depth)
    ensures forall k, c :: 0 <= k < depth && 0 <= c < |r[k]| ==>
      r[k][c] == tree[k][c] + (if c == Ancestor(idx, n, k + 1) then newP - oldP else 0.0)
  {
    assert depth > 0 ==> ParentIndex(idx, n) < Pow(n, depth - 1) by {
      if depth > 0 {
        ParentInBounds(idx, n, depth - 1);
      }
    }
    assert forall m: nat :: Ancestor(ParentIndex(idx, n), n, m) == Ancestor(idx, n, m + 1) by {
      forall m: nat
        ensures Ancestor(ParentIndex(idx, n), n, m) == Ancestor(idx, n, m + 1)
      {
        AncestorOfParent(idx, n, m);
      }
    }
    AddAlong(tree, n, depth, 0, ParentIndex(idx, n), newP - oldP)
  }

  /** A node's covered sum after one leaf changes: it moves by the change exactly when the
      node is that leaf's ancestor. */
  lemma CoveredAfterUpdate(leaves: seq<real>, n: nat, depth: nat, idx: nat, x: real, h: nat, c: nat)
    requires n >= 1
    requires |leaves| == Pow(n, depth)
    requires idx < |leaves|
    requires h <= depth
    requires c < Pow(n, depth - h)
    ensures Covered(leaves[idx := x], n, h, c)
         == Covered(leaves, n, h, c) + (if c == Ancestor(idx, n, h) then x - leaves[idx] else 0.0)
  {
    var w := Pow(n, h);
    NodeInBounds(n, depth, h, c);
    RangeSumUpdate(leaves, idx, x, c * w, (c + 1) * w);
    if c * w <= idx < (c + 1) * w {
      AncestorUnique(idx, n, h, c);
    } else {
      AncestorCovers(idx, n, h);
    }
  }

  /** updateSumTree keeps every node equal to the sum of the leaves it covers. */
  lemma UpdateSumTreeExact(tree: Levels, leaves: seq<real>, n: nat, depth: nat, idx: nat, newP: real)
    requires n >= 1
    requires Exact(tree, leaves, n, depth)
    requires idx < |leaves|
    ensures Exact(UpdateSumTree(tree, n, depth, idx, leaves[idx], newP), leaves[idx := newP], n, depth)
  {
    var r := UpdateSumTree(tree, n, depth, idx, leaves[idx], newP);
    forall k, c | 0 <= k < depth && 0 <= c < |r[k]|
      ensures r[k][c] == Covered(leaves[idx := newP], n, k + 1, c)
    {
      CoveredAfterUpdate(leaves, n, depth, idx, newP, k + 1, c);
    }
  }

  // ---------------------------------------------------------------- root

  /** The root covers every leaf. */
  lemma RootIsTotal(tree: Levels, leaves: seq<real>, n: nat, depth: nat)
    requires Exact(tree, leaves, n, depth)
    requires depth >= 1
    ensures |tree[depth - 1]| == 1
    ensures tree[depth - 1][0] == Sum(leaves)
  {
    assert |tree[depth - 1]| == Pow(n, 0);
    assert Block(leaves, 0, Pow(n, depth)) == leaves;
  }

  // ---------------------------------------------------------------- full rebuild

  /** The rebuild loop of refreshAllSumTree from stored index `index` on. */
  function RefreshFrom(tree: Levels, priorities: seq<real>, n: nat, depth: nat, index: nat, size: nat): Levels
    requires n >= 1
    requires Shaped(tree, n, depth)
    requires index <= size <= |priorities| <= Pow(n, depth)
    decreases size - index
  {
    if index == size then tree
    else
      assert depth > 0 ==> ParentIndex(index, n) < Pow(n, depth - 1) by {
        if depth > 0 {
          ParentInBounds(index, n, depth - 1);
        }
      }
      RefreshFrom(AddAlong(tree, n, depth, 0, ParentIndex(index, n), priorities[index]),
                  priorities, n, depth, index + 1, size)
  }

  /** refreshAllSumTree: a fresh zero tree, then each of the first `size` priorities added
      along its ancestry. */
  function RefreshAll(priorities: seq<real>, n: nat, depth: nat, size: nat): Levels
    requires n >= 1
    requires size <= |priorities| <= Pow(n, depth)
  {
    RefreshFrom(CreateTree(depth, n), priorities, n, depth, 0, size)
  }

  lemma ZeroTreeExact(n: nat, depth: nat)
    requires n >= 1
    ensures Exact(CreateTree(depth, n), Pad([], n, depth), n, depth)
  {
    var t, leaves := CreateTree(depth, n), Pad([], n, depth);
    forall k, c | 0 <= k < depth && 0 <= c < |t[k]|
      ensures t[k][c] == Covered(leaves, n, k + 1, c)
    {
      NodeInBounds(n, depth, k + 1, c);
      SumAllZero(Block(leaves, c, Pow(n, k + 1)));
    }
  }

  lemma PadPrefixStep(priorities: seq<real>, n: nat, depth: nat, index: nat)
    requires index < |priorities| <= Pow(n, depth)
    ensures Pad(priorities[..index], n, depth)[index] == 0.0
    ensures Pad(priorities[..index + 1], n, depth) == Pad(priorities[..index], n, depth)[index := priorities[index]]
  {
  }

  lemma {:induction false} RefreshFromExact(tree: Levels, priorities: seq<real>, n: nat, depth: nat, index: nat, size: nat)
    requires n >= 1
    requires index <= size <= |priorities| <= Pow(n, depth)
    requires Exact(tree, Pad(priorities[..index], n, depth), n, depth)
    ensures Exact(RefreshFrom(tree, priorities, n, depth, index, size), Pad(priorities[..size], n, depth), n, depth)
    decreases size - index
  {
    if index < size {
      var leaves := Pad(priorities[..index], n, depth);
      PadPrefixStep(priorities, n, depth, index);
      UpdateSumTreeExact(tree, leaves, n, depth, index, priorities[index]);
      assert priorities[index] - 0.0 == priorities[index];
      RefreshFromExact(UpdateSumTree(tree, n, depth, index, 0.0, priorities[index]),
                       priorities, n, depth, index + 1, size);
    }
  }

  /** refreshAllSumTree yields exact sums of the first `size` priorities. */
  lemma RefreshAllExact(priorities: seq<real>, n: nat, depth: nat, size: nat)
    requires n >= 1
    requires size <= |priorities| <= Pow(n, depth)
    ensures Exact(RefreshAll(priorities, n, depth, size), Pad(priorities[..size], n, depth), n, depth)
  {
    assert priorities[..0] == [];
    ZeroTreeExact(n, depth);
    RefreshFromExact(CreateTree(depth, n), priorities, n, depth, 0, size);
  }

  /** Leaves determine an exact tree. */
  lemma ExactUnique(t1: Levels, t2: Levels, leaves: seq<real>, n: nat, depth: nat)
    requires Exact(t1, leaves, n, depth)
    requires Exact(t2, leaves, n, depth)
    ensures t1 == t2
  {
    forall k | 0 <= k < depth
      ensures t1[k] == t2[k]
    {
    }
  }

  /** When the tree is already exact and nothing is stored beyond `size`, the rebuild
      changes nothing. */
  lemma RefreshAllNoOp(tree: Levels, priorities: seq<real>, n: nat, depth: nat, size: nat)
    requires n >= 1
    requires size <= |priorities| <= Pow(n, depth)
    requires forall i :: size <= i < |priorities| ==> priorities[i] == 0.0
    requires Exact(tree, Pad(priorities, n, depth), n, depth)
    ensures RefreshAll(priorities, n, depth, size) == tree
  {
    RefreshAllExact(priorities, n, depth, size);
    assert Pad(priorities[..size], n, depth) == Pad(priorities, n, depth);
    ExactUnique(RefreshAll(priorities, n, depth, size), tree, Pad(priorities, n, depth), n, depth);
  }

  // ---------------------------------------------------------------- block consistency

  /** A node's child block sums to the leaves it covers, given that the level below does. */
  lemma ChildBlockSum(tree: Levels, leaves: seq<real>, n: nat, depth: nat, k: nat, c: nat)
    requires n >= 1
    requires Shaped(tree, n, depth)
    requires |leaves| == Pow(n, depth)
    requires k < depth
    requires c < |tree[k]|
    requires forall j {:trigger Covered(leaves, n, k, j)} :: 0 <= j < |Below(tree, leaves, k)| ==>
               Below(tree, leaves, k)[j] == Covered(leaves, n, k, j)
    ensures Sum(Block(Below(tree, leaves, k), c, n)) == Covered(leaves, n, k + 1, c)
  {
    var below := Below(tree, leaves, k);
    var w, p := Pow(n, k), Pow(n, k + 1);
    var a := c * n;
    assert |below| == Pow(n, depth - k);
    ChildRun(n, depth, k, c);
    forall j | a <= j < a + n
      ensures below[j] == Sum(Block(leaves, j, w))
    {
      assert below[j] == Covered(leaves, n, k, j);
    }
    BlocksPrefix(below, leaves, a, n, w);
    BlockPrefix(below, c, n, a, a + n);
    MulSucc(c, p);
    BlockPrefix(leaves, c, p, c * p, (c + 1) * p);
  }

  /** The leaves themselves are the height-0 nodes. */
  lemma LeavesCovered(leaves: seq<real>, n: nat)
    ensures forall j {:trigger Covered(leaves, n, 0, j)} :: 0 <= j < |leaves| ==> leaves[j] == Covered(leaves, n, 0, j)
  {
    forall j | 0 <= j < |leaves|
      ensures leaves[j] == Covered(leaves, n, 0, j)
    {
      UnitBlock(leaves, j);
    }
  }

  lemma ExactBlockConsistent(tree: Levels, leaves: seq<real>, n: nat, depth: nat)
    requires n >= 1
    requires Exact(tree, leaves, n, depth)
    ensures BlockConsistent(tree, leaves, n, depth)
  {
    LeavesCovered(leaves, n);
    forall k, c | 0 <= k < depth && 0 <= c < |tree[k]|
      ensures tree[k][c] == Sum(Block(Below(tree, leaves, k), c, n))
    {
      ChildBlockSum(tree, leaves, n, depth, k, c);
    }
  }

  lemma {:induction false} BlockConsistentExactUpTo(tree: Levels, leaves: seq<real>, n: nat, depth: nat, m: nat)
    requires n >= 1
    requires BlockConsistent(tree, leaves, n, depth)
    requires m <= depth
    ensures forall k, c :: 0 <= k < m && 0 <= c < |tree[k]| ==> tree[k][c] == Covered(leaves, n, k + 1, c)
  {
    if m > 0 {
      BlockConsistentExactUpTo(tree, leaves, n, depth, m - 1);
      LeavesCovered(leaves, n);
      forall c | 0 <= c < |tree[m - 1]|
        ensures tree[m - 1][c] == Covered(leaves, n, m, c)
      {
        ChildBlockSum(tree, leaves, n, depth, m - 1, c);
      }
    }
  }

  /** Each node equals the sum of its child block exactly when it equals the sum of the
      leaves it covers. */
  lemma ExactIffBlockConsistent(tree: Levels, leaves: seq<real>, n: nat, depth: nat)
    requires n >= 1
    ensures Exact(tree, leaves, n, depth) <==> BlockConsistent(tree, leaves, n, depth)
  {
    if Exact(tree, leaves, n, depth) {
      ExactBlockConsistent(tree, leaves, n, depth);
    }
    if BlockConsistent(tree, leaves, n, depth) {
      BlockConsistentExactUpTo(tree, leaves, n, depth, depth);
    }
  }
}
