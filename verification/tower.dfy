/** Tower sampling: inverse-transform sampling down the sum-tree.

    From the root, each level scans the children of the current node left to right with a
    running total, moves into the first child at which the total reaches the priority, and
    subtracts what it skipped. At the leaves this selects the slot j whose prefix sums
    bracket the priority: sum(slots before j) < p <= sum(slots up to j). */
module Tower {

  import opened Arith
  import opened Seqs
  import opened Layout
  import opened Wrappers
  import opened SumTree
  import Ring
  import opened PriorityTree

  /** The inner loop of towerSampling from child i on: the first child at which the running
      total (the sum of the children passed so far) reaches p, paired with p minus that sum. */
  function Choose(kids: seq<real>, p: real, i: nat, total: real): (r: Option<(nat, real)>)
    requires i <= |kids|
    ensures r.Some? ==> i <= r.value.0 < |kids|
    decreases |kids| - i
  {
    if i == |kids| then None
    else if p <= total + kids[i] then Some((i, p - total))
    else Choose(kids, p, i + 1, total + kids[i])
  }

  /** The scan stops at the first child whose inclusive prefix reaches p, and finds one
      whenever the children sum to at least p. */
  lemma {:induction false} ChooseSpec(kids: seq<real>, p: real, i: nat, total: real)
    requires i <= |kids|
    requires total == Prefix(kids, i)
    requires i > 0 ==> Prefix(kids, i) < p
    ensures p <= Prefix(kids, |kids|) && i < |kids| ==> Choose(kids, p, i, total).Some?
    ensures var r := Choose(kids, p, i, total);
      r.Some? ==> && p <= Prefix(kids, r.value.0 + 1)
                  && (r.value.0 > 0 ==> Prefix(kids, r.value.0) < p)
                  && r.value.1 == p - Prefix(kids, r.value.0)
    decreases |kids| - i
  {
    if i < |kids| && p > total + kids[i] {
      ChooseSpec(kids, p, i + 1, total + kids[i]);
      if i + 1 == |kids| {
        assert Prefix(kids, |kids|) == total + kids[i];
      }
    }
  }

  /** The n children of node `index` in the row below it. A node whose children would run
      past the row has none; on a consistent tree the descent never meets one (ChildStep). */
  function Children(row: seq<real>, n: nat, index: nat): seq<real>
  {
    var first := index * n;
    if first + n <= |row| then row[first..first + n] else []
  }

  /** The outer loop of towerSampling, at node `index` of the row above row h, down to the
      leaves. Row h is the source's level h-1: sum-tree level h-1 for h >= 1 and the leaves for
      h = 0, so h runs from depth-1 down to 0 as the source's level runs from depth-2 to -1.
      A row whose scan finds nothing keeps index and priority. */
  function Descend(tree: Levels, leaves: seq<real>, n: nat, h: nat, index: nat, p: real): nat
    requires h < |tree|
  {
    match Choose(Children(Below(tree, leaves, h), n, index), p, 0, 0.0)
    case Some((i, rest)) =>
      if h == 0 then index * n + i else Descend(tree, leaves, n, h - 1, index * n + i, rest)
    case None =>
      if h == 0 then index else Descend(tree, leaves, n, h - 1, index, p)
  }

  // ---------------------------------------------------------------- descent proof

  /** Rows 0..h (the leaves and the first h levels) are consistent: each row is n times as
      long as the one above it, and each node of row k holds the sum of its n children in
      row k-1. Stated level by level so that the descent unfolds one level at a time. */
  ghost predicate Consistent(tree: Levels, leaves: seq<real>, n: nat, h: nat)
    requires h <= |tree|
  {
    h == 0 ||
      (&& |Below(tree, leaves, h - 1)| == |Below(tree, leaves, h)| * n
       && (forall c {:trigger Block(Below(tree, leaves, h - 1), c, n)} :: 0 <= c < |Below(tree, leaves, h)| ==>
             Below(tree, leaves, h)[c] == Sum(Block(Below(tree, leaves, h - 1), c, n)))
       && Consistent(tree, leaves, n, h - 1))
  }

  /** A block-consistent tree is consistent up to every level. */
  lemma {:induction false} ConsistentUpTo(tree: Levels, leaves: seq<real>, n: nat, depth: nat, h: nat)
    requires BlockConsistent(tree, leaves, n, depth)
    requires h <= depth
    ensures Consistent(tree, leaves, n, h)
  {
    if h > 0 {
      ConsistentUpTo(tree, leaves, n, depth, h - 1);
      RowLengths(tree, leaves, n, depth, h);
    }
  }

  /** In a shaped tree each row is n times as long as the row above it. */
  lemma RowLengths(tree: Levels, leaves: seq<real>, n: nat, depth: nat, h: nat)
    requires Shaped(tree, n, depth)
    requires |leaves| == Pow(n, depth)
    requires 1 <= h <= depth
    ensures |Below(tree, leaves, h - 1)| == |Below(tree, leaves, h)| * n
  {
    var e := depth - h;
    assert |Below(tree, leaves, h)| == Pow(n, e);
    assert |Below(tree, leaves, h - 1)| == Pow(n, e + 1);
  }

  /** Every row of a consistent tree over non-negative leaves is non-negative. */
  lemma {:induction false} RowsNonNegative(tree: Levels, leaves: seq<real>, n: nat, h: nat)
    requires h <= |tree|
    requires Consistent(tree, leaves, n, h)
    requires NonNegative(leaves)
    ensures NonNegative(Below(tree, leaves, h))
  {
    if h > 0 {
      RowsNonNegative(tree, leaves, n, h - 1);
      var row, below := Below(tree, leaves, h), Below(tree, leaves, h - 1);
      forall c | 0 <= c < |row|
        ensures row[c] >= 0.0
      {
        var b := Block(below, c, n);
        assert NonNegative(b);
        SumNonNegative(b);
      }
    }
  }

  /** The n children of node `index` of a row lie inside the row below. */
  lemma ChildrenInRow(rows: nat, index: nat, n: nat)
    requires index < rows
    ensures index * n + n <= rows * n
    ensures (index + 1) * n == index * n + n
  {
    MulSucc(index, n);
    MulLe(index + 1, rows, n);
  }

  /** Prefix sums carry from a row to the row below: the first m nodes cover the first m * n
      children. */
  lemma {:induction false} PrefixBelow(up: seq<real>, row: seq<real>, n: nat, m: nat)
    requires |row| == |up| * n
    requires forall c {:trigger Block(row, c, n)} :: 0 <= c < |up| ==> up[c] == Sum(Block(row, c, n))
    requires m <= |up|
    ensures m * n <= |row|
    ensures Prefix(up, m) == Prefix(row, m * n)
  {
    MulLe(m, |up|, n);
    if m > 0 {
      PrefixBelow(up, row, n, m - 1);
      ChildrenInRow(|up|, m - 1, n);
      assert Block(row, m - 1, n) == row[(m - 1) * n .. m * n];
      PrefixSplit(row, (m - 1) * n, m * n);
    }
  }

  /** One level of the descent. At node `index` of row `up`, with 0 < q <= that node, and P
      (the priority sampled at the root) equal to q plus the nodes left of it: the scan picks
      child c = index*n + i with 0 < rest <= row[c], and P is rest plus the nodes left of c. */
  lemma ChildStep(up: seq<real>, row: seq<real>, n: nat, index: nat, q: real, P: real)
      returns (i: nat, rest: real)
    requires |row| == |up| * n
    requires forall c {:trigger Block(row, c, n)} :: 0 <= c < |up| ==> up[c] == Sum(Block(row, c, n))
    requires index < |up|
    requires 0.0 < q <= up[index]
    requires P == q + Prefix(up, index)
    ensures Choose(Children(row, n, index), q, 0, 0.0) == Some((i, rest))
    ensures index * n + i < |row|
    ensures 0.0 < rest <= row[index * n + i]
    ensures P == rest + Prefix(row, index * n + i)
    ensures Prefix(row, index * n + i) < P <= Prefix(row, index * n + i + 1)
  {
    var first := index * n;
    ChildrenInRow(|up|, index, n);
    PrefixBelow(up, row, n, index);
    PrefixBelow(up, row, n, index + 1);
    var kids := row[first..first + n];
    PrefixOfSlice(row, first, first + n, n);
    ChooseSpec(kids, q, 0, 0.0);
    i, rest := Choose(kids, q, 0, 0.0).value.0, Choose(kids, q, 0, 0.0).value.1;
    PrefixOfSlice(row, first, first + n, i);
    PrefixOfSlice(row, first, first + n, i + 1);
  }

  /** Prefix sums of a slice are differences of prefix sums of the whole. */
  lemma {:induction false} PrefixOfSlice(s: seq<real>, a: nat, b: nat, m: nat)
    requires a <= b <= |s|
    requires m <= b - a
    ensures Prefix(s[a..b], m) == Prefix(s, a + m) - Prefix(s, a)
  {
    if m > 0 {
      PrefixOfSlice(s, a, b, m - 1);
      assert s[a..b][m - 1] == s[a + m - 1];
    }
  }

  /** Slot j of s brackets p: the prefix sums before and up to j enclose it. */
  predicate Brackets(s: seq<real>, j: nat, p: real)
  {
    j < |s| && Prefix(s, j) < p <= Prefix(s, j + 1)
  }

  /** The descent may start at node `index` of row u with priority q: the rows up to u are
      consistent and 0 < q <= that node. */
  ghost predicate StartsAt(tree: Levels, leaves: seq<real>, n: nat, u: nat, index: nat, q: real)
  {
    && 1 <= u <= |tree|
    && Consistent(tree, leaves, n, u)
    && index < |Below(tree, leaves, u)|
    && 0.0 < q <= Below(tree, leaves, u)[index]
  }

  /** One level of the descent from node `index` of row u: the scan moves to node `next` of
      the row below, whose prefix sums there bracket P = q + the nodes left of `index`, and
      continues from there with the remainder `rest`. */
  lemma DescendLevel(tree: Levels, leaves: seq<real>, n: nat, u: nat, index: nat, q: real)
      returns (next: nat, rest: real)
    requires StartsAt(tree, leaves, n, u, index, q)
    ensures u - 1 == 0 ==> Brackets(leaves, next, q + Prefix(Below(tree, leaves, u), index))
    ensures u - 1 > 0 ==> StartsAt(tree, leaves, n, u - 1, next, rest)
    ensures rest + Prefix(Below(tree, leaves, u - 1), next) == q + Prefix(Below(tree, leaves, u), index)
    ensures Descend(tree, leaves, n, u - 1, index, q)
         == if u - 1 == 0 then next else Descend(tree, leaves, n, u - 1 - 1, next, rest)
  {
    var i;
    i, rest := ChildStep(Below(tree, leaves, u), Below(tree, leaves, u - 1), n, index, q,
                         q + Prefix(Below(tree, leaves, u), index));
    next := index * n + i;
  }

  /** The descent from node `index` of row u with 0 < q <= that node ends at a leaf j whose
      prefix sums bracket P = q + the nodes left of `index`:
      sum(leaves before j) < P <= sum(leaves up to j). */
  lemma {:induction false} DescendFinds(tree: Levels, leaves: seq<real>, n: nat, u: nat, index: nat, q: real)
    requires StartsAt(tree, leaves, n, u, index, q)
    ensures Brackets(leaves, Descend(tree, leaves, n, u - 1, index, q), q + Prefix(Below(tree, leaves, u), index))
    decreases u
  {
    var next, rest := DescendLevel(tree, leaves, n, u, index, q);
    if u - 1 > 0 {
      DescendFinds(tree, leaves, n, u - 1, next, rest);
    }
  }

  /** A non-positive priority descends along the leftmost children to leaf 0. */
  lemma {:induction false} DescendNonPositive(tree: Levels, leaves: seq<real>, n: nat, u: nat, q: real)
    requires 1 <= u <= |tree|
    requires Consistent(tree, leaves, n, u)
    requires NonNegative(leaves)
    requires 0 < |Below(tree, leaves, u)|
    requires n >= 1
    requires q <= 0.0
    ensures Descend(tree, leaves, n, u - 1, 0, q) == 0
  {
    var row := Below(tree, leaves, u - 1);
    ChildrenInRow(|Below(tree, leaves, u)|, 0, n);
    RowsNonNegative(tree, leaves, n, u - 1);
    assert Children(row, n, 0)[0] == row[0];
    if u > 1 {
      DescendNonPositive(tree, leaves, n, u - 1, q);
    }
  }

  /** From the single root of a consistent tree, a priority 0 < p <= root descends to a leaf
      whose prefix sums bracket p. */
  lemma RootDescent(tree: Levels, leaves: seq<real>, n: nat, p: real)
    requires |tree| >= 1
    requires Consistent(tree, leaves, n, |tree|)
    requires |Below(tree, leaves, |tree|)| == 1
    requires 0.0 < p <= Below(tree, leaves, |tree|)[0]
    ensures var j := Descend(tree, leaves, n, |tree| - 1, 0, p);
      j < |leaves| && Prefix(leaves, j) < p <= Prefix(leaves, j + 1)
  {
    DescendFinds(tree, leaves, n, |tree|, 0, p);
  }

  // ---------------------------------------------------------------- towerSampling

  /** towerSampling(priority): past the total, the experience stored in the last occupied slot
      size()-1, the rightmost leaf in descent order (the newest experience only before the ring
      wraps, or when current_id is a multiple of capacity); otherwise the experience index of the
      leaf the descent reaches. */
  function TowerSampling(t: Tree, p: real): (r: int)
    requires Valid(t)
    ensures SizeOf(t) > 0 && p > SumP(t) ==>
      0 <= r < SizeOf(t) && Ring.InternalIndex(t.currentId, t.capacity, r) == SizeOf(t) - 1
  {
    DepthPositive(t.capacity, t.nChildren);
    if p > SumP(t) then
      var last := SizeOf(t) - 1;
      if last >= 0 then
        Ring.InternalOfExternal(t.currentId, t.capacity, last);
        Ring.ExternalIndex(t.currentId, t.capacity, last)
      else Ring.ExternalIndex(t.currentId, t.capacity, last)
    else
      PowPositive(t.nChildren, 0);
      Ring.ExternalIndex(t.currentId, t.capacity, Slot(t, p))
  }

  /** The slot the descent reaches for priority p. */
  function Slot(t: Tree, p: real): nat
    requires t.nChildren >= 2 && t.depth == Depth(t.capacity, t.nChildren) && |t.priorities| == t.capacity
    requires |t.sumTree| >= 1
  {
    Descend(t.sumTree, Leaves(t), t.nChildren, |t.sumTree| - 1, 0, p)
  }

  /** What the descent needs of a valid tree: consistent rows over non-negative leaves, with
      a single root holding sum(). */
  lemma ValidConsistent(t: Tree)
    requires Valid(t)
    ensures t.depth >= 1 && |t.sumTree| == t.depth
    ensures Consistent(t.sumTree, Leaves(t), t.nChildren, t.depth)
    ensures |Below(t.sumTree, Leaves(t), t.depth)| == 1
    ensures Below(t.sumTree, Leaves(t), t.depth)[0] == SumP(t)
    ensures NonNegative(Leaves(t))
    ensures SizeOf(t) <= |t.priorities| && SizeOf(t) <= |Leaves(t)|
    ensures Leaves(t)[..SizeOf(t)] == t.priorities[..SizeOf(t)]
    ensures forall i :: SizeOf(t) <= i < |Leaves(t)| ==> Leaves(t)[i] == 0.0
  {
    var n, depth, leaves := t.nChildren, t.depth, Leaves(t);
    DepthPositive(t.capacity, n);
    ExactBlockConsistent(t.sumTree, leaves, n, depth);
    ConsistentUpTo(t.sumTree, leaves, n, depth, depth);
    RootIsTotal(t.sumTree, leaves, n, depth);
    LeavesOfValid(t);
    forall i | 0 <= i < |leaves|
      ensures leaves[i] >= 0.0
    {
      if i < t.capacity {
        assert leaves[i] == leaves[..t.capacity][i];
      }
    }
    assert leaves[..SizeOf(t)] == t.priorities[..SizeOf(t)];
  }

  /** A priority 0 < p <= root descends to a stored slot: one below size(), where the leaves
      agree with the priorities, whose priority is positive and whose prefix sums bracket p. */
  lemma {:induction false} DescentStored(t: Tree, p: real)
    requires t.nChildren >= 2 && t.depth == Depth(t.capacity, t.nChildren) && |t.priorities| == t.capacity
    requires |t.sumTree| >= 1
    requires Consistent(t.sumTree, Leaves(t), t.nChildren, |t.sumTree|)
    requires |Below(t.sumTree, Leaves(t), |t.sumTree|)| == 1
    requires 0.0 < p <= Below(t.sumTree, Leaves(t), |t.sumTree|)[0]
    requires SizeOf(t) <= |t.priorities| && SizeOf(t) <= |Leaves(t)|
    requires Leaves(t)[..SizeOf(t)] == t.priorities[..SizeOf(t)]
    requires forall i :: SizeOf(t) <= i < |Leaves(t)| ==> Leaves(t)[i] == 0.0
    ensures var j := Slot(t, p);
      && j < SizeOf(t)
      && Sum(t.priorities[..j]) < p <= Sum(t.priorities[..j + 1])
      && t.priorities[j] > 0.0
  {
    var leaves, priorities, size := Leaves(t), t.priorities, SizeOf(t);
    RootDescent(t.sumTree, leaves, t.nChildren, p);
    var j := Slot(t, p);
    assert leaves[j] > 0.0;
    assert leaves[j] == priorities[j] by {
      assert leaves[..size][j] == priorities[..size][j];
    }
    PrefixIsSum(leaves, j);
    PrefixIsSum(leaves, j + 1);
    assert leaves[..j] == priorities[..j] && leaves[..j + 1] == priorities[..j + 1] by {
      assert leaves[..j] == leaves[..size][..j];
      assert leaves[..j + 1] == leaves[..size][..j + 1];
    }
  }

  /** A priority of zero or less descends along the leftmost children to slot 0. */
  lemma SlotNonPositive(t: Tree, p: real)
    requires t.nChildren >= 2 && t.depth == Depth(t.capacity, t.nChildren) && |t.priorities| == t.capacity
    requires |t.sumTree| >= 1
    requires Consistent(t.sumTree, Leaves(t), t.nChildren, |t.sumTree|)
    requires NonNegative(Leaves(t))
    requires |Below(t.sumTree, Leaves(t), |t.sumTree|)| == 1
    requires p <= 0.0
    ensures Slot(t, p) == 0
  {
    DescendNonPositive(t.sumTree, Leaves(t), t.nChildren, |t.sumTree|, p);
  }

  /** For 0 < p <= sum(), the descent reaches a stored slot of positive priority whose prefix
      sums bracket p. */
  lemma SlotBrackets(t: Tree, p: real)
    requires Valid(t)
    requires 0.0 < p <= SumP(t)
    ensures var j := Slot(t, p);
      && j < SizeOf(t)
      && Sum(t.priorities[..j]) < p <= Sum(t.priorities[..j + 1])
      && t.priorities[j] > 0.0
  {
    ValidConsistent(t);
    DescentStored(t, p);
  }

  /** Up to sum(), towerSampling returns the experience index of the slot the descent reaches. */
  lemma TowerSamplingSlot(t: Tree, p: real)
    requires Valid(t)
    requires p <= SumP(t)
    ensures TowerSampling(t, p) == Ring.ExternalIndex(t.currentId, t.capacity, Slot(t, p))
  {
  }

  /** For 0 < p <= sum(), towerSampling(p) names the stored slot j exactly when j's prefix
      sums bracket p: sum(slots before j) < p <= sum(slots up to j). */
  lemma TowerSamplingBrackets(t: Tree, p: real, j: nat)
    requires Valid(t)
    requires 0.0 < p <= SumP(t)
    requires j < SizeOf(t)
    ensures TowerSampling(t, p) == Ring.ExternalIndex(t.currentId, t.capacity, j)
        <==> Sum(t.priorities[..j]) < p <= Sum(t.priorities[..j + 1])
  {
    SlotBrackets(t, p);
    TowerSamplingSlot(t, p);
    BracketUnique(t.priorities, p, j, Slot(t, p));
    Ring.ExternalInjective(t.currentId, t.capacity, j, Slot(t, p));
  }

  /** Over non-negative values, the index whose prefix sums bracket p is unique: once k
      brackets p, j brackets it exactly when j is k. */
  lemma BracketUnique(s: seq<real>, p: real, j: nat, k: nat)
    requires NonNegative(s)
    requires j < |s| && k < |s|
    requires Sum(s[..k]) < p <= Sum(s[..k + 1])
    ensures Sum(s[..j]) < p <= Sum(s[..j + 1]) <==> j == k
  {
    if j < k {
      PrefixMonotone(s, j + 1, k);
    } else if k < j {
      PrefixMonotone(s, k + 1, j);
    }
  }

  /** A sampled priority of zero or less selects the experience in slot 0. */
  lemma TowerSamplingNonPositive(t: Tree, p: real)
    requires Valid(t)
    requires p <= 0.0
    ensures TowerSampling(t, p) == Ring.ExternalIndex(t.currentId, t.capacity, 0)
  {
    ValidConsistent(t);
    SlotNonPositive(t, p);
    SumNonNegative(t.priorities[..SizeOf(t)]);
    TowerSamplingSlot(t, p);
  }

  /** sampleIndices with the sampled priorities supplied by the caller (the source draws them
      uniformly from [0, sum())): each is sampled by towerSampling. */
  function SampleIndices(t: Tree, sampled: seq<real>): (r: seq<int>)
    requires Valid(t)
    ensures |r| == |sampled|
    ensures forall k :: 0 <= k < |sampled| ==> r[k] == TowerSampling(t, sampled[k])
  {
    seq(|sampled|, k requires 0 <= k < |sampled| => TowerSampling(t, sampled[k]))
  }

  /** With at least one stored experience, every sampled index names a stored experience. */
  lemma SampleIndicesInRange(t: Tree, sampled: seq<real>)
    requires Valid(t)
    requires SizeOf(t) > 0
    ensures forall k :: 0 <= k < |sampled| ==> 0 <= SampleIndices(t, sampled)[k] < SizeOf(t)
  {
    forall k | 0 <= k < |sampled|
      ensures 0 <= SampleIndices(t, sampled)[k] < SizeOf(t)
    {
      SampleInRange(t, sampled[k]);
    }
  }

  /** With at least one stored experience, towerSampling names a stored experience whatever
      the priority. */
  lemma SampleInRange(t: Tree, p: real)
    requires Valid(t)
    requires SizeOf(t) > 0
    ensures 0 <= TowerSampling(t, p) < SizeOf(t)
  {
    if p > SumP(t) {
      Ring.InternalOfExternal(t.currentId, t.capacity, SizeOf(t) - 1);
    } else if p > 0.0 {
      SlotBrackets(t, p);
      TowerSamplingSlot(t, p);
      Ring.InternalOfExternal(t.currentId, t.capacity, Slot(t, p));
    } else {
      TowerSamplingNonPositive(t, p);
      Ring.InternalOfExternal(t.currentId, t.capacity, 0);
    }
  }
}
