/** Shape of the two n-ary trees kept over the priority array.

    Both trees are a sequence of levels; level 0 is the level nearest the leaves and the
    root is level depth-1. Counting the leaves as height 0, a node at height h covers the
    n^h consecutive leaves [c * n^h, (c+1) * n^h); sum-tree/max-tree level k is height k+1.
    The leaf array is padded with zeros up to n^depth. */
module Layout {

  import opened Arith
  import opened Seqs

  /** A tree: its levels, nearest the leaves first. */
  type Levels = seq<seq<real>>

  /** The depth the constructor computes: the least d with n^d >= capacity. The source guesses
      floor(log(capacity) / log(n)) and adds one when n^guess < capacity; the search below
      returns the value that correction guarantees. */
  function Depth(capacity: nat, n: nat): (d: nat)
    requires n >= 2
    ensures Pow(n, d) >= capacity
    ensures d == 0 || Pow(n, d - 1) < capacity
  {
    DepthFrom(capacity, n, 0)
  }

  function DepthFrom(capacity: nat, n: nat, d: nat): (r: nat)
    requires n >= 2
    requires d == 0 || Pow(n, d - 1) < capacity
    ensures Pow(n, r) >= capacity
    ensures r == 0 || Pow(n, r - 1) < capacity
    decreases capacity - d
  {
    PowExceeds(n, d);
    if Pow(n, d) >= capacity then d else DepthFrom(capacity, n, d + 1)
  }

  /** Depth is the least such d: no smaller depth covers the capacity. */
  lemma DepthIsLeast(capacity: nat, n: nat, d: nat)
    requires n >= 2
    requires Pow(n, d) >= capacity
    ensures Depth(capacity, n) <= d
  {
    var r := Depth(capacity, n);
    if r > d {
      PowMonotone(n, d, r - 1);
    }
  }

  lemma DepthPositive(capacity: nat, n: nat)
    requires n >= 2 && capacity >= 2
    ensures Depth(capacity, n) >= 1
  {
  }

  /** The node one level up: idx / n, and a negative index is returned unchanged. */
  function ParentIndex(idx: int, n: nat): (r: int)
    requires n >= 1
    ensures idx >= 0 ==> 0 <= r && r * n <= idx < r * n + n
    ensures idx < 0 ==> r == idx
  {
    if idx < 0 then idx else idx / n
  }

  /** The node at height h above leaf idx, reached by h parent steps. */
  function Ancestor(idx: nat, n: nat, h: nat): nat
    requires n >= 1
  {
    if h == 0 then idx else ParentIndex(Ancestor(idx, n, h - 1), n)
  }

  lemma MulAssoc(a: int, b: int, c: int)
    ensures a * (b * c) == (a * b) * c
  {
  }

  /** The ancestor at height h is the node whose leaf range contains idx. */
  lemma {:induction false} AncestorCovers(idx: nat, n: nat, h: nat)
    requires n >= 1
    ensures Ancestor(idx, n, h) * Pow(n, h) <= idx < (Ancestor(idx, n, h) + 1) * Pow(n, h)
  {
    if h > 0 {
      AncestorCovers(idx, n, h - 1);
      AncestorNested(idx, n, h - 1);
    }
  }

  /** Only the ancestor's range contains idx. */
  lemma AncestorUnique(idx: nat, n: nat, h: nat, c: int)
    requires n >= 1
    requires c * Pow(n, h) <= idx < (c + 1) * Pow(n, h)
    ensures c == Ancestor(idx, n, h)
  {
    AncestorCovers(idx, n, h);
    PowPositive(n, h);
    BlockUnique(c, Ancestor(idx, n, h), Pow(n, h), idx);
  }

  /** A leaf inside the padded array has, at each height, an ancestor inside that level. */
  lemma AncestorBound(idx: nat, n: nat, h: nat, depth: nat)
    requires n >= 1
    requires h <= depth
    requires idx < Pow(n, depth)
    ensures Ancestor(idx, n, h) < Pow(n, depth - h)
  {
    AncestorCovers(idx, n, h);
    PowAdd(n, depth - h, h);
    var a := Ancestor(idx, n, h);
    if a >= Pow(n, depth - h) {
      MulLe(Pow(n, depth - h), a, Pow(n, h));
    }
  }

  /** The same bound, for the ancestor on level k, stated as the level's width in Shaped. */
  lemma AncestorInLevel(idx: nat, n: nat, k: nat, depth: nat)
    requires n >= 1
    requires k < depth
    requires idx < Pow(n, depth)
    ensures Ancestor(idx, n, k + 1) < Pow(n, depth - 1 - k)
  {
    AncestorBound(idx, n, k + 1, depth);
    assert depth - (k + 1) == depth - 1 - k;
  }

  /** The range of the ancestor at height h lies within the range of the ancestor at height h+1. */
  lemma AncestorNested(idx: nat, n: nat, h: nat)
    requires n >= 1
    ensures Ancestor(idx, n, h + 1) * Pow(n, h + 1) <= Ancestor(idx, n, h) * Pow(n, h)
    ensures (Ancestor(idx, n, h) + 1) * Pow(n, h) <= (Ancestor(idx, n, h + 1) + 1) * Pow(n, h + 1)
  {
    var a, w := Ancestor(idx, n, h), Pow(n, h);
    var q := Ancestor(idx, n, h + 1);
    assert q * n <= a < q * n + n;
    assert Pow(n, h + 1) == n * w;
    PowPositive(n, h);
    MulAssoc(q, n, w);
    MulAssoc(q + 1, n, w);
    MulLe(q * n, a, w);
    MulLe(a + 1, (q + 1) * n, w);
  }

  /** Level k has n^(depth-1-k) nodes. */
  ghost predicate Shaped(tree: Levels, n: nat, depth: nat)
  {
    |tree| == depth && forall k :: 0 <= k < depth ==> |tree[k]| == Pow(n, depth - 1 - k)
  }

  /** createSumTree / createMaxTree: depth levels of zeros, pushed from n^(depth-1) nodes
      down to a single root node. */
  function CreateTree(depth: nat, n: nat): (t: Levels)
    ensures Shaped(t, n, depth)
    ensures forall k, c :: 0 <= k < depth && 0 <= c < |t[k]| ==> t[k][c] == 0.0
  {
    if depth == 0 then []
    else
      var rest := CreateTree(depth - 1, n);
      var t := [Zeros(Pow(n, depth - 1))] + rest;
      assert forall k :: 1 <= k < depth ==> t[k] == rest[k - 1];
      t
  }

  /** The priorities padded with zeros to n^depth leaves. */
  function Pad(priorities: seq<real>, n: nat, depth: nat): (leaves: seq<real>)
    requires |priorities| <= Pow(n, depth)
    ensures |leaves| == Pow(n, depth)
    ensures leaves[..|priorities|] == priorities
    ensures forall i :: |priorities| <= i < |leaves| ==> leaves[i] == 0.0
  {
    priorities + Zeros(Pow(n, depth) - |priorities|)
  }

  /** Updating a priority updates the same padded leaf. */
  lemma PadUpdate(priorities: seq<real>, n: nat, depth: nat, idx: nat, x: real)
    requires |priorities| <= Pow(n, depth)
    requires idx < |priorities|
    ensures Pad(priorities[idx := x], n, depth) == Pad(priorities, n, depth)[idx := x]
  {
  }

  /** Parent steps compose: the ancestors of a node's parent are its own ancestors one higher. */
  lemma {:induction false} AncestorOfParent(idx: nat, n: nat, m: nat)
    requires n >= 1
    ensures Ancestor(Ancestor(idx, n, 1), n, m) == Ancestor(idx, n, m + 1)
  {
    if m > 0 {
      AncestorOfParent(idx, n, m - 1);
    }
  }

  /** A node of a level of a depth-`depth` tree covers a leaf range inside the padded leaves. */
  lemma NodeInBounds(n: nat, depth: nat, h: nat, c: nat)
    requires n >= 1
    requires h <= depth
    requires c < Pow(n, depth - h)
    ensures c * Pow(n, h) < (c + 1) * Pow(n, h) <= Pow(n, depth)
  {
    PowPositive(n, h);
    PowAdd(n, depth - h, h);
    MulSucc(c, Pow(n, h));
    MulLe(c + 1, Pow(n, depth - h), Pow(n, h));
  }

  /** The parent of a node inside a level lies inside the level above. */
  lemma ParentInBounds(p: nat, n: nat, e: nat)
    requires n >= 1
    requires p < Pow(n, e + 1)
    ensures ParentIndex(p, n) < Pow(n, e)
  {
    var q := ParentIndex(p, n);
    if q >= Pow(n, e) {
      MulLe(Pow(n, e), q, n);
    }
  }

  /** The n children of a level-0 node p are leaves p*n .. p*n+n, inside the padded leaves. */
  lemma LeafRun(n: nat, depth: nat, p: nat)
    requires n >= 1
    requires depth >= 1
    requires p < Pow(n, depth - 1)
    ensures p * Pow(n, 1) == p * n
    ensures (p + 1) * Pow(n, 1) == p * n + n
    ensures p * n + n <= Pow(n, depth)
  {
    ChildRun(n, depth, 0, p);
    assert Pow(n, 0) == 1 && Pow(n, 1) == n;
  }

  /** The children of node p at height h+1 are the run [p*n, p*n + n) at height h, and the
      run's leaves are the parent's. */
  lemma ChildRun(n: nat, depth: nat, h: nat, p: nat)
    requires n >= 1
    requires h < depth
    requires p < Pow(n, depth - (h + 1))
    ensures Pow(n, h) >= 1
    ensures p * n + n <= Pow(n, depth - h)
    ensures p * Pow(n, h + 1) == (p * n) * Pow(n, h)
    ensures (p + 1) * Pow(n, h + 1) == (p * n + n) * Pow(n, h)
    ensures (p * n + n) * Pow(n, h) <= Pow(n, depth)
  {
    var w := Pow(n, h);
    assert Pow(n, h + 1) == n * w;
    assert Pow(n, 1) == n;
    PowPositive(n, h);
    NodeInBounds(n, depth - h, 1, p);
    NodeInBounds(n, depth, h + 1, p);
    MulSucc(p, n);
    MulAssoc(p, n, w);
    MulAssoc(p + 1, n, w);
  }
}
