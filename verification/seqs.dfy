/** Sums and maxima of real sequences, and the slices of a leaf array that a tree node covers. */
module Seqs {

  import opened Arith

  /** Sum of a sequence, accumulated from the back so that prefix sums extend by one term. */
  function Sum(s: seq<real>): real
  {
    if |s| == 0 then 0.0 else Sum(s[..|s| - 1]) + s[|s| - 1]
  }

  /** The larger of two reals. */
  function Max2(a: real, b: real): real
  {
    if a < b then b else a
  }

  /** Largest element of a non-empty sequence. */
  function MaxOf(s: seq<real>): real
    requires |s| > 0
  {
    if |s| == 1 then s[0] else Max2(MaxOf(s[..|s| - 1]), s[|s| - 1])
  }

  /** MaxOf bounds every element and is one of them. */
  lemma {:induction false} MaxBounds(s: seq<real>)
    requires |s| > 0
    ensures forall i :: 0 <= i < |s| ==> s[i] <= MaxOf(s)
    ensures exists i :: 0 <= i < |s| && s[i] == MaxOf(s)
  {
    if |s| > 1 {
      var p := s[..|s| - 1];
      MaxBounds(p);
      assert forall i :: 0 <= i < |s| - 1 ==> p[i] == s[i];
      var w :| 0 <= w < |p| && p[w] == MaxOf(p);
      if s[|s| - 1] <= MaxOf(p) {
        assert s[w] == MaxOf(s);
      } else {
        assert s[|s| - 1] == MaxOf(s);
      }
    } else {
      assert s[0] == MaxOf(s);
    }
  }

  /** k zeros. */
  function Zeros(k: nat): (z: seq<real>)
    ensures |z| == k
    ensures forall i :: 0 <= i < k ==> z[i] == 0.0
  {
    seq(k, _ => 0.0)
  }

  /** The slice s[lo..hi], or empty when those bounds do not fit s. */
  function Range(s: seq<real>, lo: int, hi: int): seq<real>
  {
    if 0 <= lo <= hi <= |s| then s[lo..hi] else []
  }

  /** The w consecutive elements of s that node c covers when every node covers w of them. */
  function Block(s: seq<real>, c: nat, w: nat): seq<real>
  {
    Range(s, c * w, (c + 1) * w)
  }

  predicate NonNegative(s: seq<real>)
  {
    forall i :: 0 <= i < |s| ==> s[i] >= 0.0
  }

  // ---------------------------------------------------------------- sums

  lemma {:induction false} SumAppend(a: seq<real>, b: seq<real>)
    ensures Sum(a + b) == Sum(a) + Sum(b)
  {
    if |b| > 0 {
      assert (a + b)[..|a + b| - 1] == a + b[..|b| - 1];
      SumAppend(a, b[..|b| - 1]);
    } else {
      assert a + b == a;
    }
  }

  lemma SumSplit(s: seq<real>, i: int, j: int, k: int)
    requires 0 <= i <= j <= k <= |s|
    ensures Sum(s[i..k]) == Sum(s[i..j]) + Sum(s[j..k])
  {
    assert s[i..k] == s[i..j] + s[j..k];
    SumAppend(s[i..j], s[j..k]);
  }

  /** A prefix sum grows by the next element. */
  lemma PrefixStep(s: seq<real>, j: int)
    requires 0 <= j < |s|
    ensures Sum(s[..j + 1]) == Sum(s[..j]) + s[j]
  {
    assert s[..j + 1][..j] == s[..j];
  }

  /** The sum of the first j elements, accumulated by index rather than by slicing. */
  function Prefix(s: seq<real>, j: nat): real
    requires j <= |s|
  {
    if j == 0 then 0.0 else Prefix(s, j - 1) + s[j - 1]
  }

  /** A prefix up to b is the prefix up to a plus the elements between. */
  lemma {:induction false} PrefixSplit(s: seq<real>, a: nat, b: nat)
    requires a <= b <= |s|
    ensures Prefix(s, b) == Prefix(s, a) + Sum(s[a..b])
    decreases b
  {
    if b > a {
      PrefixSplit(s, a, b - 1);
      assert s[a..b][..b - 1 - a] == s[a..b - 1];
    }
  }

  /** Prefix agrees with the sum of the prefix slice. */
  lemma PrefixIsSum(s: seq<real>, j: nat)
    requires j <= |s|
    ensures Prefix(s, j) == Sum(s[..j])
  {
    PrefixSplit(s, 0, j);
    assert s[0..j] == s[..j];
  }

  /** Prefix sums of non-negative values never decrease. */
  lemma PrefixMonotone(s: seq<real>, a: int, b: int)
    requires NonNegative(s)
    requires 0 <= a <= b <= |s|
    ensures Sum(s[..a]) <= Sum(s[..b])
  {
    assert s[..a] == s[0..a] && s[..b] == s[0..b];
    SumSplit(s, 0, a, b);
    assert NonNegative(s[a..b]);
    SumNonNegative(s[a..b]);
  }

  /** Replacing one element changes the sum by exactly the difference. */
  lemma SumUpdate(s: seq<real>, j: int, x: real)
    requires 0 <= j < |s|
    ensures Sum(s[j := x]) == Sum(s) - s[j] + x
  {
    var t := s[j := x];
    assert s == s[..j] + [s[j]] + s[j + 1..];
    assert t == s[..j] + [x] + s[j + 1..];
    SumAppend(s[..j] + [s[j]], s[j + 1..]);
    SumAppend(s[..j], [s[j]]);
    SumAppend(s[..j] + [x], s[j + 1..]);
    SumAppend(s[..j], [x]);
    assert Sum([s[j]]) == s[j] by { assert [s[j]][..0] == []; }
    assert Sum([x]) == x by { assert [x][..0] == []; }
  }

  lemma {:induction false} SumNonNegative(s: seq<real>)
    requires NonNegative(s)
    ensures Sum(s) >= 0.0
  {
    if |s| > 0 {
      SumNonNegative(s[..|s| - 1]);
    }
  }

  lemma {:induction false} SumZeros(k: nat)
    ensures Sum(Zeros(k)) == 0.0
  {
    if k > 0 {
      assert Zeros(k)[..k - 1] == Zeros(k - 1);
      SumZeros(k - 1);
    }
  }

  /** If every element of `level` in [a, a+m) is the sum of its block of `leaves`, that run
      of `level` adds up to the leaves it covers (stated in prefix sums). */
  lemma {:induction false} BlocksPrefix(level: seq<real>, leaves: seq<real>, a: nat, m: nat, w: nat)
    requires a + m <= |level|
    requires (a + m) * w <= |leaves|
    requires forall c :: a <= c < a + m ==> level[c] == Sum(Block(leaves, c, w))
    ensures a * w <= (a + m) * w
    ensures Prefix(level, a + m) - Prefix(level, a) == Prefix(leaves, (a + m) * w) - Prefix(leaves, a * w)
  {
    MulLe(a, a + m, w);
    if m > 0 {
      var c := a + m - 1;
      BlocksPrefix(level, leaves, a, m - 1, w);
      MulLe(c, a + m, w);
      MulSucc(c, w);
      BlockPrefix(leaves, c, w, c * w, (a + m) * w);
    }
  }

  /** Prefix sums step over a whole block. */
  lemma BlockPrefix(s: seq<real>, c: nat, w: nat, lo: nat, hi: nat)
    requires lo == c * w && hi == lo + w && hi <= |s|
    ensures Prefix(s, hi) == Prefix(s, lo) + Sum(Block(s, c, w))
  {
    MulSucc(c, w);
    PrefixSplit(s, lo, hi);
  }

  /** Changing one element changes the sum of a range by the difference when the range holds
      that element, and not at all otherwise. */
  lemma RangeSumUpdate(s: seq<real>, idx: int, x: real, lo: int, hi: int)
    requires 0 <= idx < |s|
    requires 0 <= lo <= hi <= |s|
    ensures Sum(Range(s[idx := x], lo, hi))
         == Sum(Range(s, lo, hi)) + (if lo <= idx < hi then x - s[idx] else 0.0)
  {
    var t := s[idx := x];
    if lo <= idx < hi {
      assert t[lo..hi] == s[lo..hi][idx - lo := x];
      SumUpdate(s[lo..hi], idx - lo, x);
    } else {
      assert t[lo..hi] == s[lo..hi];
    }
  }

  /** A run of zeros sums to zero. */
  lemma {:induction false} SumAllZero(s: seq<real>)
    requires forall i :: 0 <= i < |s| ==> s[i] == 0.0
    ensures Sum(s) == 0.0
  {
    if |s| > 0 {
      SumAllZero(s[..|s| - 1]);
    }
  }

  /** A one-element block is that element. */
  lemma UnitBlock(s: seq<real>, j: nat)
    requires j < |s|
    ensures Block(s, j, 1) == [s[j]]
    ensures Sum(Block(s, j, 1)) == s[j]
    ensures MaxOf(Block(s, j, 1)) == s[j]
  {
    assert Block(s, j, 1) == s[j..j + 1];
    assert [s[j]][..0] == [];
  }

  /** Changing one element of s changes a range holding it at the matching offset, and leaves
      any other range as it was. */
  lemma RangeAfterUpdate(s: seq<real>, idx: int, x: real, lo: int, hi: int)
    requires 0 <= idx < |s|
    requires 0 <= lo <= hi <= |s|
    ensures lo <= idx < hi ==> Range(s, lo, hi)[idx - lo] == s[idx]
    ensures lo <= idx < hi ==> Range(s[idx := x], lo, hi) == Range(s, lo, hi)[idx - lo := x]
    ensures !(lo <= idx < hi) ==> Range(s[idx := x], lo, hi) == Range(s, lo, hi)
  {
  }

  // ---------------------------------------------------------------- maxima

  /** An upper bound that is attained is the maximum. */
  lemma MaxIs(s: seq<real>, m: real)
    requires |s| > 0
    requires forall i :: 0 <= i < |s| ==> s[i] <= m
    requires exists i :: 0 <= i < |s| && s[i] == m
    ensures MaxOf(s) == m
  {
    MaxBounds(s);
  }

  lemma MaxSplit(s: seq<real>, i: int, j: int, k: int)
    requires 0 <= i < j < k <= |s|
    ensures MaxOf(s[i..k]) == Max2(MaxOf(s[i..j]), MaxOf(s[j..k]))
  {
    var a, b := s[i..j], s[j..k];
    MaxBounds(a);
    MaxBounds(b);
    assert s[i..k] == a + b;
    var m := Max2(MaxOf(a), MaxOf(b));
    forall x | 0 <= x < k - i
      ensures s[i..k][x] <= m
    {
      if x < j - i { assert s[i..k][x] == a[x]; } else { assert s[i..k][x] == b[x - (j - i)]; }
    }
    if MaxOf(a) >= MaxOf(b) {
      var x :| 0 <= x < |a| && a[x] == MaxOf(a);
      assert s[i..k][x] == m;
    } else {
      var x :| 0 <= x < |b| && b[x] == MaxOf(b);
      assert s[i..k][x + (j - i)] == m;
    }
    MaxIs(s[i..k], m);
  }

  /** When the replaced element is strictly below the maximum, the new maximum
      is the larger of the old maximum and the new element. */
  lemma MaxUpdateBelow(s: seq<real>, j: int, x: real)
    requires 0 <= j < |s|
    requires s[j] < MaxOf(s)
    ensures MaxOf(s[j := x]) == Max2(MaxOf(s), x)
  {
    var t := s[j := x];
    MaxBounds(s);
    var w :| 0 <= w < |s| && s[w] == MaxOf(s);
    assert w != j;
    if x > MaxOf(s) {
      assert t[j] == x;
    } else {
      assert t[w] == MaxOf(s);
    }
    MaxIs(t, Max2(MaxOf(s), x));
  }

  /** The maximum of a slice is at most the maximum of any slice containing it. */
  lemma MaxWithin(s: seq<real>, i: int, j: int, i': int, j': int)
    requires 0 <= i' <= i < j <= j' <= |s|
    ensures MaxOf(s[i..j]) <= MaxOf(s[i'..j'])
  {
    MaxBounds(s[i..j]);
    MaxBounds(s[i'..j']);
    var x :| 0 <= x < j - i && s[i..j][x] == MaxOf(s[i..j]);
    assert s[i'..j'][x + i - i'] == s[i..j][x];
  }

  /** A window of zero-padded non-negative values has the maximum of its unpadded part. */
  lemma MaxPaddedWindow(s: seq<real>, k: nat, first: nat, last: nat)
    requires NonNegative(s)
    requires first < |s| && first < last <= |s| + k
    ensures MaxOf((s + Zeros(k))[first..last]) == MaxOf(s[first..if last <= |s| then last else |s|])
  {
    var t := s + Zeros(k);
    if last <= |s| {
      assert t[first..last] == s[first..last];
    } else {
      var u := s[first..|s|];
      assert t[first..last] == u + Zeros(last - |s|);
      assert NonNegative(u);
      MaxPadZeros(u, last - |s|);
    }
  }

  /** Padding non-negative values with zeros does not change their maximum. */
  lemma MaxPadZeros(s: seq<real>, k: nat)
    requires |s| > 0
    requires NonNegative(s)
    ensures MaxOf(s + Zeros(k)) == MaxOf(s)
  {
    var t := s + Zeros(k);
    MaxBounds(s);
    var w :| 0 <= w < |s| && s[w] == MaxOf(s);
    assert t[w] == MaxOf(s);
    forall x | 0 <= x < |t|
      ensures t[x] <= MaxOf(s)
    {
      if x >= |s| { assert t[x] == 0.0 <= s[0]; }
    }
    MaxIs(t, MaxOf(s));
  }

  /** If every element of `level` in [a, e) is the maximum of its block of `leaves`,
      the maximum of that run of `level` is the maximum of the leaves the run covers. */
  lemma {:induction false} MaxOfBlocks(level: seq<real>, leaves: seq<real>, a: nat, e: nat, w: nat)
    requires a < e <= |level| && w >= 1
    requires e * w <= |leaves|
    requires forall c :: a <= c < e ==> |Block(leaves, c, w)| > 0 && level[c] == MaxOf(Block(leaves, c, w))
    ensures a * w < e * w
    ensures MaxOf(level[a..e]) == MaxOf(leaves[a * w .. e * w])
    decreases e - a
  {
    LastBlock(level, leaves, a, e, w);
    if e == a + 1 {
      MaxRunSingle(level, leaves, a, a * w, e * w);
    } else {
      MaxOfBlocks(level, leaves, a, e - 1, w);
      MaxRunStep(level, leaves, a, e - 1, a * w, (e - 1) * w, e * w);
    }
  }

  /** The last element of such a run is the maximum of the last block. */
  lemma LastBlock(level: seq<real>, leaves: seq<real>, a: nat, e: nat, w: nat)
    requires a < e <= |level| && w >= 1
    requires e * w <= |leaves|
    requires forall c :: a <= c < e ==> |Block(leaves, c, w)| > 0 && level[c] == MaxOf(Block(leaves, c, w))
    ensures a * w <= (e - 1) * w < e * w
    ensures level[e - 1] == MaxOf(leaves[(e - 1) * w .. e * w])
  {
    MulSucc(e - 1, w);
    MulLe(a, e - 1, w);
    assert a <= e - 1 < e;
    assert Block(leaves, e - 1, w) == leaves[(e - 1) * w .. e * w];
  }

  lemma MaxRunSingle(level: seq<real>, leaves: seq<real>, a: int, lo: int, hi: int)
    requires 0 <= a < |level|
    requires 0 <= lo < hi <= |leaves|
    requires level[a] == MaxOf(leaves[lo..hi])
    ensures MaxOf(level[a..a + 1]) == MaxOf(leaves[lo..hi])
  {
    assert level[a..a + 1] == [level[a]];
    MaxIs([level[a]], level[a]);
  }

  /** One step of MaxOfBlocks: extend a run of `level` and its leaf range by one block. */
  lemma MaxRunStep(level: seq<real>, leaves: seq<real>, a: int, c: int, lo: int, mid: int, hi: int)
    requires 0 <= a < c < |level|
    requires 0 <= lo < mid < hi <= |leaves|
    requires MaxOf(level[a..c]) == MaxOf(leaves[lo..mid])
    requires level[c] == MaxOf(leaves[mid..hi])
    ensures MaxOf(level[a..c + 1]) == MaxOf(leaves[lo..hi])
  {
    assert level[c..c + 1] == [level[c]];
    MaxIs([level[c]], level[c]);
    MaxSplit(level, a, c, c + 1);
    MaxSplit(leaves, lo, mid, hi);
  }
}
