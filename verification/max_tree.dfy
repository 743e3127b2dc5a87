/** The max-tree: every node holds the largest priority below it.

    updateMaxTree walks from a leaf's parent towards the root. At each node it distinguishes
    three cases: the node held the replaced priority (recompute it from its children), the new
    priority beats it (take the new priority), or neither (stop: the node and every node above
    already dominate both priorities). The walk therefore ends early, unlike the sum-tree's. */
module MaxTree {

  import opened Arith
  import opened Seqs
  import opened Layout

  /** v is the largest of the leaves that node c at height h covers. */
  ghost predicate IsPeak(v: real, leaves: seq<real>, n: nat, h: nat, c: nat)
  {
    |Block(leaves, c, Pow(n, h))| > 0 && v == MaxOf(Block(leaves, c, Pow(n, h)))
  }

  /** Every node of level k (height k+1) holds the maximum of the leaves it covers. */
  ghost predicate MaxExact(tree: Levels, leaves: seq<real>, n: nat, depth: nat)
  {
    && Shaped(tree, n, depth)
    && |leaves| == Pow(n, depth)
    && forall k, c :: 0 <= k < depth && 0 <= c < |tree[k]| ==> IsPeak(tree[k][c], leaves, n, k + 1, c)
  }

  /** Every node from level lvl up to the root holds the maximum of the leaves it covers. */
  ghost predicate PeaksFrom(tree: Levels, leaves: seq<real>, n: nat, depth: nat, lvl: nat)
  {
    && depth <= |tree|
    && forall k, c :: lvl <= k < depth && 0 <= c < |tree[k]| ==> IsPeak(tree[k][c], leaves, n, k + 1, c)
  }

  /** The walk's invariant: levels below lvl already describe `after`, the others still `before`. */
  ghost predicate ExactBelow(tree: Levels, before: seq<real>, after: seq<real>, n: nat, depth: nat, lvl: nat)
  {
    && Shaped(tree, n, depth)
    && |before| == Pow(n, depth)
    && |after| == Pow(n, depth)
    && forall k, c :: 0 <= k < depth && 0 <= c < |tree[k]| ==>
         IsPeak(tree[k][c], if k < lvl then after else before, n, k + 1, c)
  }

  /** maxChildValue: the largest child of node p of level lvl. The children of a level-0 node
      are priorities, sliced as torch slices, so the slice stops at the end of the array; the
      children of a higher node are the n nodes of the level below. */
  function MaxChildValue(tree: Levels, priorities: seq<real>, n: nat, depth: nat, lvl: nat, p: nat): real
    requires n >= 1
    requires Shaped(tree, n, depth)
    requires lvl < depth && p < |tree[lvl]|
    requires lvl == 0 ==> p * n < |priorities|
  {
    var first := p * n;
    if lvl == 0 then
      var last := if first + n <= |priorities| then first + n else |priorities|;
      MaxOf(priorities[first..last])
    else
      assert first + n <= |tree[lvl - 1]| by {
        assert Pow(n, 1) == n;
        NodeInBounds(n, depth - lvl, 1, p);
        MulSucc(p, n);
      }
      MaxOf(tree[lvl - 1][first..first + n])
  }

  /** The loop of updateMaxTree from level lvl on, at node p of that level. */
  function UpdateMaxFrom(tree: Levels, priorities: seq<real>, n: nat, depth: nat, lvl: nat, p: nat,
                         oldP: real, newP: real): (r: Levels)
    requires n >= 1
    requires Shaped(tree, n, depth)
    requires lvl <= depth
    requires lvl < depth ==> p < |tree[lvl]|
    requires lvl == 0 && depth > 0 ==> p * n < |priorities|
    ensures Shaped(r, n, depth)
    ensures forall k, c :: 0 <= k < depth && 0 <= c < |r[k]| && (k < lvl || c != Ancestor(p, n, k - lvl)) ==>
      r[k][c] == tree[k][c]
    decreases depth - lvl
  {
    if lvl == depth then tree
    else
      var v := tree[lvl][p];
      if v == oldP || v < newP then
        var x := if v == oldP then MaxChildValue(tree, priorities, n, depth, lvl, p) else newP;
        var q := ParentIndex(p, n);
        assert lvl + 1 < depth ==> q < Pow(n, depth - 1 - (lvl + 1)) by {
          if lvl + 1 < depth {
            ParentInBounds(p, n, depth - 1 - (lvl + 1));
          }
        }
        assert forall m: nat :: Ancestor(q, n, m) == Ancestor(p, n, m + 1) by {
          forall m: nat
            ensures Ancestor(q, n, m) == Ancestor(p, n, m + 1)
          {
            AncestorOfParent(p, n, m);
          }
        }
        UpdateMaxFrom(tree[lvl := tree[lvl][p := x]], priorities, n, depth, lvl + 1, q, oldP, newP)
      else
        tree
  }

  /** updateMaxTree(idx, old_priority), once priorities[idx] holds the new priority: only the
      ancestors of the leaf can change. */
  function UpdateMaxTree(tree: Levels, priorities: seq<real>, n: nat, depth: nat, idx: nat, oldP: real): (r: Levels)
    requires n >= 1
    requires Shaped(tree, n, depth)
    requires idx < |priorities| <= Pow(n, depth)
    ensures Shaped(r, n, depth)
    ensures forall k, c :: 0 <= k < depth && 0 <= c < |r[k]| && c != Ancestor(idx, n, k + 1) ==>
      r[k][c] == tree[k][c]
  {
    var p := ParentIndex(idx, n);
    assert depth > 0 ==> p < Pow(n, depth - 1) by {
      if depth > 0 {
        ParentInBounds(idx, n, depth - 1);
      }
    }
    assert forall m: nat :: Ancestor(p, n, m) == Ancestor(idx, n, m + 1) by {
      forall m: nat
        ensures Ancestor(p, n, m) == Ancestor(idx, n, m + 1)
      {
        AncestorOfParent(idx, n, m);
      }
    }
    UpdateMaxFrom(tree, priorities, n, depth, 0, p, oldP, priorities[idx])
  }

  // ---------------------------------------------------------------- node facts

  /** The block of a node after leaf idx changes: the ancestor's block changes at the leaf's
      offset; every other block is untouched. */
  lemma NodeAfterLeafUpdate(leaves: seq<real>, n: nat, depth: nat, idx: nat, x: real, h: nat, c: nat)
    requires n >= 1
    requires |leaves| == Pow(n, depth)
    requires idx < |leaves|
    requires h <= depth
    requires c < Pow(n, depth - h)
    ensures |Block(leaves, c, Pow(n, h))| > 0
    ensures c != Ancestor(idx, n, h) ==> Block(leaves[idx := x], c, Pow(n, h)) == Block(leaves, c, Pow(n, h))
    ensures c == Ancestor(idx, n, h) ==>
      && 0 <= idx - c * Pow(n, h) < |Block(leaves, c, Pow(n, h))|
      && Block(leaves, c, Pow(n, h))[idx - c * Pow(n, h)] == leaves[idx]
      && Block(leaves[idx := x], c, Pow(n, h)) == Block(leaves, c, Pow(n, h))[idx - c * Pow(n, h) := x]
  {
    var w := Pow(n, h);
    NodeInBounds(n, depth, h, c);
    RangeAfterUpdate(leaves, idx, x, c * w, (c + 1) * w);
    if c == Ancestor(idx, n, h) {
      AncestorCovers(idx, n, h);
    } else if c * w <= idx < (c + 1) * w {
      AncestorUnique(idx, n, h, c);
    }
  }

  /** At level 0 the clamped slice of priorities has the maximum of the node's padded block. */
  lemma ChildMaxLeaves(tree: Levels, priorities: seq<real>, n: nat, depth: nat, p: nat)
    requires n >= 1
    requires Shaped(tree, n, depth)
    requires depth >= 1
    requires NonNegative(priorities)
    requires |priorities| <= Pow(n, depth)
    requires p < |tree[0]|
    requires p * n < |priorities|
    ensures IsPeak(MaxChildValue(tree, priorities, n, depth, 0, p), Pad(priorities, n, depth), n, 1, p)
  {
    var leaves := Pad(priorities, n, depth);
    assert |tree[0]| == Pow(n, depth - 1);
    LeafRun(n, depth, p);
    var first: nat, last: nat := p * n, p * n + n;
    assert Block(leaves, p, Pow(n, 1)) == leaves[first..last];
    assert leaves == priorities + Zeros(Pow(n, depth) - |priorities|);
    MaxPaddedWindow(priorities, Pow(n, depth) - |priorities|, first, last);
  }

  /** A run of n exact nodes of level j has the maximum of the leaves their parent covers. */
  lemma RunOfPeaks(below: seq<real>, leaves: seq<real>, n: nat, depth: nat, j: nat, p: nat, a: nat)
    requires n >= 1
    requires |leaves| == Pow(n, depth)
    requires j + 1 < depth
    requires |below| == Pow(n, depth - 1 - j)
    requires p < Pow(n, depth - 1 - (j + 1))
    requires a == p * n
    requires forall c :: 0 <= c < |below| ==> IsPeak(below[c], leaves, n, j + 1, c)
    ensures a + n <= |below|
    ensures IsPeak(MaxOf(below[a .. a + n]), leaves, n, j + 1 + 1, p)
  {
    var h := j + 1;
    assert depth - 1 - j == depth - h && depth - 1 - (j + 1) == depth - (h + 1);
    var w, pw := Pow(n, h), Pow(n, h + 1);
    ChildRun(n, depth, h, p);
    assert Block(leaves, p, pw) == leaves[a * w .. (a + n) * w];
    assert forall c :: a <= c < a + n ==> |Block(leaves, c, w)| > 0 && below[c] == MaxOf(Block(leaves, c, w)) by {
      forall c | a <= c < a + n
        ensures |Block(leaves, c, w)| > 0 && below[c] == MaxOf(Block(leaves, c, w))
      {
        assert IsPeak(below[c], leaves, n, h, c);
      }
    }
    MaxOfBlocks(below, leaves, a, a + n, w);
  }

  /** Above level 0, the children are a run of exact nodes, whose maximum is the maximum of
      every leaf the parent covers. */
  lemma ChildMaxAbove(tree: Levels, priorities: seq<real>, leaves: seq<real>, n: nat, depth: nat, lvl: nat, p: nat)
    requires n >= 1
    requires Shaped(tree, n, depth)
    requires |leaves| == Pow(n, depth)
    requires 0 < lvl < depth
    requires p < |tree[lvl]|
    requires forall k, c :: 0 <= k < lvl && 0 <= c < |tree[k]| ==> IsPeak(tree[k][c], leaves, n, k + 1, c)
    ensures IsPeak(MaxChildValue(tree, priorities, n, depth, lvl, p), leaves, n, lvl + 1, p)
  {
    var j := lvl - 1;
    assert j + 1 == lvl;
    RunOfPeaks(tree[j], leaves, n, depth, j, p, p * n);
    assert MaxChildValue(tree, priorities, n, depth, lvl, p) == MaxOf(tree[j][p * n .. p * n + n]);
  }

  /** The block of leaf idx's ancestor at height k lies inside the block of its ancestor at
      height k + 1, so its maximum is at most the larger block's. */
  lemma AncestorBlockNested(leaves: seq<real>, n: nat, depth: nat, idx: nat, k: nat)
    requires n >= 1
    requires |leaves| == Pow(n, depth)
    requires idx < |leaves|
    requires k < depth
    ensures |Block(leaves, Ancestor(idx, n, k), Pow(n, k))| > 0
    ensures |Block(leaves, Ancestor(idx, n, k + 1), Pow(n, k + 1))| > 0
    ensures MaxOf(Block(leaves, Ancestor(idx, n, k), Pow(n, k)))
         <= MaxOf(Block(leaves, Ancestor(idx, n, k + 1), Pow(n, k + 1)))
  {
    var a, q := Ancestor(idx, n, k), Ancestor(idx, n, k + 1);
    var w, pw := Pow(n, k), Pow(n, k + 1);
    AncestorBound(idx, n, k, depth);
    AncestorBound(idx, n, k + 1, depth);
    NodeInBounds(n, depth, k, a);
    NodeInBounds(n, depth, k + 1, q);
    AncestorNested(idx, n, k);
    assert Block(leaves, a, w) == leaves[a * w .. (a + 1) * w];
    assert Block(leaves, q, pw) == leaves[q * pw .. (q + 1) * pw];
    MaxWithin(leaves, a * w, (a + 1) * w, q * pw, (q + 1) * pw);
  }

  /** A parent on a leaf's ancestry dominates the child on it: its leaf range contains the child's.
      The child sits on level j (height j + 1), the parent on level j + 1. */
  lemma ParentDominates(tree: Levels, before: seq<real>, n: nat, depth: nat, idx: nat, j: nat)
    requires n >= 1
    requires Shaped(tree, n, depth)
    requires |before| == Pow(n, depth)
    requires idx < |before|
    requires j + 1 < depth
    requires PeaksFrom(tree, before, n, depth, j)
    ensures Ancestor(idx, n, j + 1) < |tree[j]| && Ancestor(idx, n, j + 1 + 1) < |tree[j + 1]|
    ensures tree[j][Ancestor(idx, n, j + 1)] <= tree[j + 1][Ancestor(idx, n, j + 1 + 1)]
  {
    AncestorInLevel(idx, n, j, depth);
    AncestorInLevel(idx, n, j + 1, depth);
    AncestorBlockNested(before, n, depth, idx, j + 1);
    assert IsPeak(tree[j][Ancestor(idx, n, j + 1)], before, n, j + 1, Ancestor(idx, n, j + 1));
    assert IsPeak(tree[j + 1][Ancestor(idx, n, j + 1 + 1)], before, n, j + 1 + 1, Ancestor(idx, n, j + 1 + 1));
  }

  /** Every ancestor at or above level lvl dominates the one at level lvl. */
  lemma {:induction false} AncestorsDominate(tree: Levels, before: seq<real>, n: nat, depth: nat, idx: nat, lvl: nat, k: nat)
    requires n >= 1
    requires Shaped(tree, n, depth)
    requires |before| == Pow(n, depth)
    requires idx < |before|
    requires lvl <= k < depth
    requires PeaksFrom(tree, before, n, depth, lvl)
    ensures Ancestor(idx, n, k + 1) < |tree[k]|
    ensures Ancestor(idx, n, lvl + 1) < |tree[lvl]|
    ensures tree[lvl][Ancestor(idx, n, lvl + 1)] <= tree[k][Ancestor(idx, n, k + 1)]
    decreases k - lvl
  {
    AncestorInLevel(idx, n, k, depth);
    AncestorInLevel(idx, n, lvl, depth);
    if lvl < k {
      AncestorsDominate(tree, before, n, depth, idx, lvl + 1, k);
      ParentDominates(tree, before, n, depth, idx, lvl);
    }
  }

  /** An ancestor of leaf idx that is above both the old and the new priority of the leaf
      stays the peak of its block when the leaf changes. */
  lemma PeakAboveUpdate(v: real, before: seq<real>, x: real, n: nat, depth: nat, idx: nat, k: nat, c: nat)
    requires n >= 1
    requires |before| == Pow(n, depth)
    requires idx < |before|
    requires k < depth
    requires c == Ancestor(idx, n, k + 1) && c < Pow(n, depth - 1 - k)
    requires IsPeak(v, before, n, k + 1, c)
    requires before[idx] < v && x <= v
    ensures IsPeak(v, before[idx := x], n, k + 1, c)
  {
    var h := k + 1;
    assert depth - h == depth - 1 - k;
    NodeAfterLeafUpdate(before, n, depth, idx, x, h, c);
    MaxUpdateBelow(Block(before, c, Pow(n, h)), idx - c * Pow(n, h), x);
  }

  /** A node off leaf idx's ancestry keeps its peak when the leaf changes. */
  lemma PeakOffUpdate(v: real, before: seq<real>, x: real, n: nat, depth: nat, idx: nat, k: nat, c: nat)
    requires n >= 1
    requires |before| == Pow(n, depth)
    requires idx < |before|
    requires k < depth
    requires c != Ancestor(idx, n, k + 1) && c < Pow(n, depth - 1 - k)
    requires IsPeak(v, before, n, k + 1, c)
    ensures IsPeak(v, before[idx := x], n, k + 1, c)
  {
    var h := k + 1;
    assert depth - h == depth - 1 - k;
    NodeAfterLeafUpdate(before, n, depth, idx, x, h, c);
  }

  /** A new priority above an ancestor that did not hold the old one becomes its peak. */
  lemma PeakRaised(v: real, before: seq<real>, x: real, n: nat, depth: nat, idx: nat, k: nat, c: nat)
    requires n >= 1
    requires |before| == Pow(n, depth)
    requires idx < |before|
    requires k < depth
    requires c == Ancestor(idx, n, k + 1) && c < Pow(n, depth - 1 - k)
    requires IsPeak(v, before, n, k + 1, c)
    requires before[idx] <= v && before[idx] != v && v < x
    ensures IsPeak(x, before[idx := x], n, k + 1, c)
  {
    var h := k + 1;
    assert depth - h == depth - 1 - k;
    NodeAfterLeafUpdate(before, n, depth, idx, x, h, c);
    MaxUpdateBelow(Block(before, c, Pow(n, h)), idx - c * Pow(n, h), x);
  }

  // ---------------------------------------------------------------- correctness

  /** One step of the walk: writing the right maximum into the ancestor at level lvl moves
      the invariant up by one level. */
  lemma StepExact(tree: Levels, before: seq<real>, after: seq<real>, n: nat, depth: nat, idx: nat, lvl: nat, x: real)
    requires n >= 1
    requires ExactBelow(tree, before, after, n, depth, lvl)
    requires idx < |before|
    requires after == before[idx := after[idx]]
    requires lvl < depth
    requires Ancestor(idx, n, lvl + 1) < |tree[lvl]|
    requires IsPeak(x, after, n, lvl + 1, Ancestor(idx, n, lvl + 1))
    ensures ExactBelow(tree[lvl := tree[lvl][Ancestor(idx, n, lvl + 1) := x]], before, after, n, depth, lvl + 1)
  {
    var p := Ancestor(idx, n, lvl + 1);
    var t' := tree[lvl := tree[lvl][p := x]];
    forall k, c | 0 <= k < depth && 0 <= c < |t'[k]|
      ensures IsPeak(t'[k][c], if k < lvl + 1 then after else before, n, k + 1, c)
    {
      if k == lvl && c != p {
        NodeAfterLeafUpdate(before, n, depth, idx, after[idx], k + 1, c);
      }
    }
  }

  /** Where the walk stops, the remaining levels already describe the new leaves. */
  lemma StopExact(tree: Levels, before: seq<real>, after: seq<real>, n: nat, depth: nat, idx: nat, lvl: nat)
    requires n >= 1
    requires ExactBelow(tree, before, after, n, depth, lvl)
    requires idx < |before|
    requires after == before[idx := after[idx]]
    requires lvl < depth
    requires Ancestor(idx, n, lvl + 1) < |tree[lvl]|
    requires before[idx] < tree[lvl][Ancestor(idx, n, lvl + 1)]
    requires after[idx] <= tree[lvl][Ancestor(idx, n, lvl + 1)]
    ensures MaxExact(tree, after, n, depth)
  {
    assert PeaksFrom(tree, before, n, depth, lvl);
    forall k, c | 0 <= k < depth && 0 <= c < |tree[k]|
      ensures IsPeak(tree[k][c], after, n, k + 1, c)
    {
      if k >= lvl {
        if c == Ancestor(idx, n, k + 1) {
          AncestorAfterStop(tree, before, after, n, depth, idx, lvl, k);
        } else {
          var v := tree[k][c];
          assert IsPeak(v, before, n, k + 1, c);
          PeakOffUpdate(v, before, after[idx], n, depth, idx, k, c);
        }
      }
    }
  }

  /** Above the stop, an ancestor dominates the stopping node, hence both the old and the new
      priority, so it is still the peak of its block. */
  lemma AncestorAfterStop(tree: Levels, before: seq<real>, after: seq<real>, n: nat, depth: nat, idx: nat, lvl: nat, k: nat)
    requires n >= 1
    requires Shaped(tree, n, depth)
    requires |before| == Pow(n, depth)
    requires idx < |before| && |after| == |before|
    requires after == before[idx := after[idx]]
    requires lvl <= k < depth
    requires PeaksFrom(tree, before, n, depth, lvl)
    requires Ancestor(idx, n, lvl + 1) < |tree[lvl]|
    requires before[idx] < tree[lvl][Ancestor(idx, n, lvl + 1)]
    requires after[idx] <= tree[lvl][Ancestor(idx, n, lvl + 1)]
    ensures Ancestor(idx, n, k + 1) < |tree[k]|
    ensures IsPeak(tree[k][Ancestor(idx, n, k + 1)], after, n, k + 1, Ancestor(idx, n, k + 1))
  {
    AncestorsDominate(tree, before, n, depth, idx, lvl, k);
    var c := Ancestor(idx, n, k + 1);
    assert IsPeak(tree[k][c], before, n, k + 1, c);
    PeakAboveUpdate(tree[k][c], before, after[idx], n, depth, idx, k, c);
  }

  /** What the walk knows at level lvl before it looks at the ancestor there. */
  ghost predicate WalkAt(tree: Levels, priorities: seq<real>, before: seq<real>, n: nat, depth: nat,
                         idx: nat, lvl: nat, oldP: real)
  {
    && n >= 1
    && NonNegative(priorities)
    && idx < |priorities| <= Pow(n, depth)
    && before == Pad(priorities, n, depth)[idx := oldP]
    && lvl < depth
    && ExactBelow(tree, before, Pad(priorities, n, depth), n, depth, lvl)
    && Ancestor(idx, n, lvl + 1) < |tree[lvl]|
    && (lvl == 0 ==> Ancestor(idx, n, 1) * n < |priorities|)
  }

  /** The ancestor at level lvl still holds the maximum of the old leaves, which include the
      replaced priority, so the replaced priority is at most the ancestor. */
  lemma OldBelowPeak(tree: Levels, priorities: seq<real>, before: seq<real>, n: nat, depth: nat,
                     idx: nat, lvl: nat, oldP: real)
    requires WalkAt(tree, priorities, before, n, depth, idx, lvl, oldP)
    ensures var p, w := Ancestor(idx, n, lvl + 1), Pow(n, lvl + 1);
      && 0 <= idx - p * w < |Block(before, p, w)|
      && Block(before, p, w)[idx - p * w] == oldP
      && tree[lvl][p] == MaxOf(Block(before, p, w))
      && oldP <= tree[lvl][p]
  {
    var p, w := Ancestor(idx, n, lvl + 1), Pow(n, lvl + 1);
    NodeAfterLeafUpdate(before, n, depth, idx, priorities[idx], lvl + 1, p);
    assert IsPeak(tree[lvl][p], before, n, lvl + 1, p);
    MaxBounds(Block(before, p, w));
  }

  /** One step of the walk that writes: the recomputed or new maximum is the ancestor's peak
      over the new leaves, so the invariant moves up a level. */
  lemma WalkStep(tree: Levels, priorities: seq<real>, before: seq<real>, n: nat, depth: nat,
                 idx: nat, lvl: nat, oldP: real)
    requires WalkAt(tree, priorities, before, n, depth, idx, lvl, oldP)
    requires var v := tree[lvl][Ancestor(idx, n, lvl + 1)]; v == oldP || v < priorities[idx]
    ensures var p := Ancestor(idx, n, lvl + 1);
      var x := if tree[lvl][p] == oldP then MaxChildValue(tree, priorities, n, depth, lvl, p) else priorities[idx];
      ExactBelow(tree[lvl := tree[lvl][p := x]], before, Pad(priorities, n, depth), n, depth, lvl + 1)
  {
    var after := Pad(priorities, n, depth);
    var p, w := Ancestor(idx, n, lvl + 1), Pow(n, lvl + 1);
    var v := tree[lvl][p];
    assert after == before[idx := after[idx]];
    if v == oldP {
      var x := MaxChildValue(tree, priorities, n, depth, lvl, p);
      if lvl == 0 {
        ChildMaxLeaves(tree, priorities, n, depth, p);
      } else {
        ChildMaxAbove(tree, priorities, after, n, depth, lvl, p);
      }
      assert IsPeak(x, after, n, lvl + 1, p);
      StepExact(tree, before, after, n, depth, idx, lvl, x);
    } else {
      var x := priorities[idx];
      OldBelowPeak(tree, priorities, before, n, depth, idx, lvl, oldP);
      assert IsPeak(v, before, n, lvl + 1, p);
      PeakRaised(v, before, x, n, depth, idx, lvl, p);
      StepExact(tree, before, after, n, depth, idx, lvl, x);
    }
  }

  /** Where the walk stops, the tree is exact for the new leaves. */
  lemma WalkStop(tree: Levels, priorities: seq<real>, before: seq<real>, n: nat, depth: nat,
                 idx: nat, lvl: nat, oldP: real)
    requires WalkAt(tree, priorities, before, n, depth, idx, lvl, oldP)
    requires var v := tree[lvl][Ancestor(idx, n, lvl + 1)]; !(v == oldP || v < priorities[idx])
    ensures MaxExact(tree, Pad(priorities, n, depth), n, depth)
  {
    var after := Pad(priorities, n, depth);
    assert after == before[idx := after[idx]];
    OldBelowPeak(tree, priorities, before, n, depth, idx, lvl, oldP);
    StopExact(tree, before, after, n, depth, idx, lvl);
  }

  /** The walk from level lvl turns the invariant into exactness for the new leaves. */
  lemma {:induction false} UpdateMaxFromExact(tree: Levels, priorities: seq<real>, before: seq<real>, n: nat, depth: nat,
                                              idx: nat, lvl: nat, oldP: real)
    requires n >= 1
    requires NonNegative(priorities)
    requires idx < |priorities| <= Pow(n, depth)
    requires before == Pad(priorities, n, depth)[idx := oldP]
    requires lvl <= depth
    requires ExactBelow(tree, before, Pad(priorities, n, depth), n, depth, lvl)
    requires lvl < depth ==> Ancestor(idx, n, lvl + 1) < |tree[lvl]|
    requires lvl == 0 && depth > 0 ==> Ancestor(idx, n, 1) * n < |priorities|
    ensures MaxExact(UpdateMaxFrom(tree, priorities, n, depth, lvl, Ancestor(idx, n, lvl + 1), oldP, priorities[idx]),
                     Pad(priorities, n, depth), n, depth)
    decreases depth - lvl
  {
    if lvl < depth {
      var p := Ancestor(idx, n, lvl + 1);
      var v := tree[lvl][p];
      if v == oldP || v < priorities[idx] {
        WalkStep(tree, priorities, before, n, depth, idx, lvl, oldP);
        var x := if v == oldP then MaxChildValue(tree, priorities, n, depth, lvl, p) else priorities[idx];
        if lvl + 1 < depth {
          AncestorInLevel(idx, n, lvl + 1, depth);
        }
        UpdateMaxFromExact(tree[lvl := tree[lvl][p := x]], priorities, before, n, depth, idx, lvl + 1, oldP);
      } else {
        WalkStop(tree, priorities, before, n, depth, idx, lvl, oldP);
      }
    }
  }

  /** updateMaxTree keeps every node equal to the maximum of the leaves it covers, provided
      the priorities are non-negative (the padding leaves are zeros). */
  lemma UpdateMaxTreeExact(tree: Levels, priorities: seq<real>, n: nat, depth: nat, idx: nat, newP: real)
    requires n >= 1
    requires NonNegative(priorities) && newP >= 0.0
    requires idx < |priorities| <= Pow(n, depth)
    requires MaxExact(tree, Pad(priorities, n, depth), n, depth)
    ensures MaxExact(UpdateMaxTree(tree, priorities[idx := newP], n, depth, idx, priorities[idx]),
                     Pad(priorities[idx := newP], n, depth), n, depth)
  {
    var prios := priorities[idx := newP];
    PadUpdate(priorities, n, depth, idx, newP);
    var before := Pad(priorities, n, depth);
    assert before == Pad(prios, n, depth)[idx := priorities[idx]];
    assert NonNegative(prios);
    if depth > 0 {
      AncestorBound(idx, n, 1, depth);
    }
    UpdateMaxFromExact(tree, prios, before, n, depth, idx, 0, priorities[idx]);
  }

  // ---------------------------------------------------------------- root and zero tree

  /** The root holds the largest leaf. */
  lemma MaxRootIsPeak(tree: Levels, leaves: seq<real>, n: nat, depth: nat)
    requires MaxExact(tree, leaves, n, depth)
    requires depth >= 1
    ensures |tree[depth - 1]| == 1
    ensures |leaves| > 0 && tree[depth - 1][0] == MaxOf(leaves)
  {
    var k := depth - 1;
    assert |tree[k]| == Pow(n, 0);
    assert IsPeak(tree[k][0], leaves, n, k + 1, 0);
    assert Block(leaves, 0, Pow(n, k + 1)) == leaves;
  }

  /** createMaxTree over all-zero priorities is exact. */
  lemma ZeroMaxTreeExact(n: nat, depth: nat)
    requires n >= 1
    ensures MaxExact(CreateTree(depth, n), Pad([], n, depth), n, depth)
  {
    var t, leaves := CreateTree(depth, n), Pad([], n, depth);
    forall k, c | 0 <= k < depth && 0 <= c < |t[k]|
      ensures IsPeak(t[k][c], leaves, n, k + 1, c)
    {
      NodeInBounds(n, depth, k + 1, c);
      var blk := Block(leaves, c, Pow(n, k + 1));
      MaxBounds(blk);
    }
  }
}
