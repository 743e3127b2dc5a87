/** The priority tree of a prioritized replay memory: a ring array of priorities with a sum-tree
    and a max-tree over it, so that the total and the largest priority are read at the roots. */
module PriorityTree {

  import opened Arith
  import opened Seqs
  import opened Layout
  import Ring
  import opened SumTree
  import opened MaxTree

  /** The fields the C++ class keeps, in declaration order. */
  datatype Tree = Tree(
    initialPriority: real,
    capacity: nat,
    nChildren: nat,
    depth: nat,
    currentId: nat,
    needRefreshAll: bool,
    priorities: seq<real>,
    sumTree: Levels,
    maxTree: Levels)

  /** Number of stored priorities, min(current_id, capacity). */
  function SizeOf(t: Tree): nat
  {
    Ring.Size(t.currentId, t.capacity)
  }

  /** The tree's leaves: the priority array padded with zeros up to n^depth. */
  function Leaves(t: Tree): seq<real>
    requires t.nChildren >= 2
    requires t.depth == Depth(t.capacity, t.nChildren)
    requires |t.priorities| == t.capacity
  {
    Pad(t.priorities, t.nChildren, t.depth)
  }

  /** The state every public operation starts from and ends in: parameters as the constructor
      sets them, non-negative priorities, zeros in slots never written, and both trees exact. */
  ghost predicate Valid(t: Tree)
  {
    && t.capacity >= 2
    && t.nChildren >= 2
    && t.depth == Depth(t.capacity, t.nChildren)
    && t.initialPriority >= 0.0
    && |t.priorities| == t.capacity
    && NonNegative(t.priorities)
    && (forall i :: SizeOf(t) <= i < t.capacity ==> t.priorities[i] == 0.0)
    && Exact(t.sumTree, Leaves(t), t.nChildren, t.depth)
    && MaxExact(t.maxTree, Leaves(t), t.nChildren, t.depth)
  }

  /** The parameters fixed at construction. */
  predicate SameParameters(t: Tree, u: Tree)
  {
    && u.initialPriority == t.initialPriority
    && u.capacity == t.capacity
    && u.nChildren == t.nChildren
    && u.depth == t.depth
  }

  /** index names a stored experience: 0 the oldest, size()-1 the newest, and, counting back
      from the newest, -1 the newest and -size() the oldest. */
  predicate Names(t: Tree, index: int)
  {
    -(SizeOf(t) as int) <= index < SizeOf(t)
  }

  /** The experience a naming index denotes, counted from the oldest. */
  function Position(t: Tree, index: int): nat
    requires Names(t, index)
  {
    if index < 0 then index + SizeOf(t) else index
  }

  /** The stored priorities in experience order, oldest first. */
  function Stored(t: Tree): seq<real>
    requires |t.priorities| == t.capacity >= 1
  {
    Ring.View(t.priorities, t.currentId, t.capacity)
  }

  /** The padded leaves add nothing to the sum of the stored prefix, or to its maximum. */
  lemma LeavesOfValid(t: Tree)
    requires Valid(t)
    ensures Leaves(t) == t.priorities[..SizeOf(t)] + Zeros(Pow(t.nChildren, t.depth) - SizeOf(t))
    ensures Sum(Leaves(t)) == Sum(t.priorities[..SizeOf(t)])
    ensures SizeOf(t) > 0 ==> MaxOf(Leaves(t)) == MaxOf(t.priorities[..SizeOf(t)])
  {
    var k := Pow(t.nChildren, t.depth) - SizeOf(t);
    var s := t.priorities[..SizeOf(t)];
    assert Leaves(t) == s + Zeros(k);
    SumAppend(s, Zeros(k));
    SumZeros(k);
    if SizeOf(t) > 0 {
      assert NonNegative(s);
      MaxPadZeros(s, k);
    }
  }

  // ---------------------------------------------------------------- construction

  /** A tree with every priority zero and current_id 0. */
  function Empty(initialPriority: real, capacity: nat, nChildren: nat): (t: Tree)
    requires capacity >= 2 && nChildren >= 2 && initialPriority >= 0.0
    ensures Valid(t)
    ensures SizeOf(t) == 0
    ensures t.needRefreshAll
  {
    var depth := Depth(capacity, nChildren);
    var t := Tree(initialPriority, capacity, nChildren, depth, 0, true,
                  Zeros(capacity), CreateTree(depth, nChildren), CreateTree(depth, nChildren));
    assert Leaves(t) == Pad([], nChildren, depth);
    ZeroTreeExact(nChildren, depth);
    ZeroMaxTreeExact(nChildren, depth);
    t
  }

  /** The constructor PriorityTree(capacity, initial_priority, n_children). */
  function New(capacity: nat, initialPriority: real, nChildren: nat): (t: Tree)
    requires capacity >= 2 && nChildren >= 2 && initialPriority >= 0.0
    ensures Valid(t)
    ensures t.capacity == capacity && t.initialPriority == initialPriority && t.nChildren == nChildren
    ensures SizeOf(t) == 0 && SumP(t) == 0.0 && MaxP(t) == initialPriority
    ensures t.needRefreshAll
  {
    Empty(initialPriority, capacity, nChildren)
  }

  /** clear(): back to the empty tree, keeping the parameters. */
  function Clear(t: Tree): (r: Tree)
    requires Valid(t)
    ensures Valid(r)
    ensures SameParameters(t, r)
    ensures SizeOf(r) == 0 && SumP(r) == 0.0 && MaxP(r) == t.initialPriority
    ensures r.needRefreshAll
    ensures forall i :: 0 <= i < r.capacity ==> r.priorities[i] == 0.0
  {
    Empty(t.initialPriority, t.capacity, t.nChildren)
  }

  // ---------------------------------------------------------------- queries

  /** sum(): zero when nothing was ever stored, otherwise the sum-tree's root. */
  function SumP(t: Tree): (r: real)
    requires Valid(t)
    ensures r == Sum(t.priorities[..SizeOf(t)])
  {
    DepthPositive(t.capacity, t.nChildren);
    RootIsTotal(t.sumTree, Leaves(t), t.nChildren, t.depth);
    LeavesOfValid(t);
    if t.currentId == 0 then 0.0 else t.sumTree[t.depth - 1][0]
  }

  /** max(): the initial priority when nothing was ever stored, otherwise the max-tree's root. */
  function MaxP(t: Tree): (r: real)
    requires Valid(t)
    ensures t.currentId == 0 ==> r == t.initialPriority
    ensures t.currentId > 0 ==> SizeOf(t) > 0 && r == MaxOf(t.priorities[..SizeOf(t)])
    ensures r >= 0.0
  {
    DepthPositive(t.capacity, t.nChildren);
    MaxRootIsPeak(t.maxTree, Leaves(t), t.nChildren, t.depth);
    LeavesOfValid(t);
    assert t.currentId > 0 ==> MaxOf(t.priorities[..SizeOf(t)]) >= 0.0 by {
      if t.currentId > 0 {
        MaxBounds(t.priorities[..SizeOf(t)]);
        assert t.priorities[..SizeOf(t)][0] >= 0.0;
      }
    }
    if t.currentId == 0 then t.initialPriority else t.maxTree[t.depth - 1][0]
  }

  /** A naming index denotes an occupied slot. */
  lemma SlotInRange(t: Tree, index: int)
    requires |t.priorities| == t.capacity >= 1
    requires Names(t, index)
    ensures 0 <= Ring.InternalIndex(t.currentId, t.capacity, index) < SizeOf(t)
  {
    if index < 0 {
      Ring.NegativeIndex(t.currentId, t.capacity, index);
    }
    Ring.InternalIsDataIndex(t.currentId, t.capacity, Position(t, index));
  }

  /** The slot a naming index denotes holds the denoted stored priority. */
  lemma StoredSlot(t: Tree, index: int)
    requires |t.priorities| == t.capacity >= 1
    requires Names(t, index)
    ensures 0 <= Ring.InternalIndex(t.currentId, t.capacity, index) < SizeOf(t)
    ensures Ring.InternalIndex(t.currentId, t.capacity, index) == Ring.InternalIndex(t.currentId, t.capacity, Position(t, index))
    ensures t.priorities[Ring.InternalIndex(t.currentId, t.capacity, index)] == Stored(t)[Position(t, index)]
  {
    if index < 0 {
      Ring.NegativeIndex(t.currentId, t.capacity, index);
    }
    Ring.InternalIsDataIndex(t.currentId, t.capacity, Position(t, index));
  }

  /** get(index): the priority at internalIndex(index); a negative slot reads from the end of
      the tensor, as torch indexing does. */
  function Get(t: Tree, index: int): (r: real)
    requires Valid(t)
    ensures Names(t, index) ==> r == Stored(t)[Position(t, index)]
  {
    var i := Ring.InternalIndex(t.currentId, t.capacity, index);
    assert Names(t, index) ==> t.priorities[i] == Stored(t)[Position(t, index)] by {
      if Names(t, index) {
        StoredSlot(t, index);
      }
    }
    if i >= 0 then t.priorities[i] else t.priorities[t.capacity + i]
  }

  // ---------------------------------------------------------------- updates

  /** The part append and set share: write slot idx, then walk the max-tree and the sum-tree. */
  function Write(t: Tree, idx: nat, x: real): (r: Tree)
    requires Valid(t)
    requires idx < t.capacity
    requires x >= 0.0
    ensures r == t.(priorities := r.priorities, sumTree := r.sumTree, maxTree := r.maxTree)
    ensures r.priorities == t.priorities[idx := x]
    ensures NonNegative(r.priorities)
    ensures Exact(r.sumTree, Leaves(r), r.nChildren, r.depth)
    ensures MaxExact(r.maxTree, Leaves(r), r.nChildren, r.depth)
  {
    var n, depth := t.nChildren, t.depth;
    var oldP := t.priorities[idx];
    var prios := t.priorities[idx := x];
    UpdateMaxTreeExact(t.maxTree, t.priorities, n, depth, idx, x);
    UpdateSumTreeExact(t.sumTree, Leaves(t), n, depth, idx, x);
    PadUpdate(t.priorities, n, depth, idx, x);
    t.(priorities := prios,
       maxTree := UpdateMaxTree(t.maxTree, prios, n, depth, idx, oldP),
       sumTree := UpdateSumTree(t.sumTree, n, depth, idx, oldP, x))
  }

  /** The guarded full rebuild after append and set: when max() differs from the initial
      priority and the flag is still set, rebuild the sum-tree and clear the flag. With exact
      sums the rebuild reproduces the tree it replaces. */
  function RefreshIfNeeded(t: Tree): (r: Tree)
    requires Valid(t)
    ensures Valid(r)
    ensures r == t.(needRefreshAll := r.needRefreshAll)
    ensures r.needRefreshAll == (t.needRefreshAll && MaxP(t) == t.initialPriority)
    ensures MaxP(r) == MaxP(t)
  {
    if MaxP(t) != t.initialPriority && t.needRefreshAll then
      RefreshAllNoOp(t.sumTree, t.priorities, t.nChildren, t.depth, SizeOf(t));
      t.(sumTree := RefreshAll(t.priorities, t.nChildren, t.depth, SizeOf(t)), needRefreshAll := false)
    else
      t
  }

  /** append(priority): store the priority in slot current_id mod capacity and count it. */
  function Append(t: Tree, x: real): (r: Tree)
    requires Valid(t)
    requires x >= 0.0
    ensures Valid(r)
    ensures SameParameters(t, r)
    ensures r.currentId == t.currentId + 1
    ensures r.priorities == t.priorities[t.currentId % t.capacity := x]
    ensures r.needRefreshAll == (t.needRefreshAll && MaxP(r) == t.initialPriority)
  {
    var idx := t.currentId % t.capacity;
    var t1 := Write(t, idx, x).(currentId := t.currentId + 1);
    assert forall i :: SizeOf(t1) <= i < t1.capacity ==> t1.priorities[i] == 0.0 by {
      if t.currentId < t.capacity {
        Arith.DivModUnique(t.currentId, t.capacity, 0, t.currentId);
      }
    }
    RefreshIfNeeded(t1)
  }

  /** set(index, priority): replace the priority of a stored experience. */
  function Set(t: Tree, index: int, x: real): (r: Tree)
    requires Valid(t)
    requires Names(t, index)
    requires x >= 0.0
    ensures Valid(r)
    ensures SameParameters(t, r)
    ensures r.currentId == t.currentId
    ensures var i := Ring.InternalIndex(t.currentId, t.capacity, index);
      0 <= i < SizeOf(t) && r.priorities == t.priorities[i := x]
    ensures r.needRefreshAll == (t.needRefreshAll && MaxP(r) == t.initialPriority)
  {
    SlotInRange(t, index);
    var idx := Ring.InternalIndex(t.currentId, t.capacity, index);
    var t1 := Write(t, idx, x);
    assert SizeOf(t1) == SizeOf(t);
    assert forall i :: SizeOf(t1) <= i < t1.capacity ==> t1.priorities[i] == t.priorities[i];
    assert Valid(t1);
    RefreshIfNeeded(t1)
  }

  // ---------------------------------------------------------------- properties

  /** The write append makes: the view loses its oldest entry once full, and gains x. */
  lemma StoredAfterAppend(t: Tree, r: Tree, x: real)
    requires |t.priorities| == t.capacity >= 1
    requires r.capacity == t.capacity && r.currentId == t.currentId + 1
    requires r.priorities == t.priorities[t.currentId % t.capacity := x]
    ensures Stored(r) == (if t.currentId >= t.capacity then Stored(t)[1..] else Stored(t)) + [x]
    ensures SizeOf(r) == if t.currentId >= t.capacity then t.capacity else t.currentId + 1
  {
    Ring.ViewAfterWrite(t.priorities, t.currentId, t.capacity, x);
  }

  /** The write set makes: only the named experience changes in the view. */
  lemma StoredAfterSet(t: Tree, r: Tree, index: int, x: real, e: int)
    requires |t.priorities| == t.capacity >= 1
    requires Names(t, index)
    requires 0 <= Ring.InternalIndex(t.currentId, t.capacity, index) < SizeOf(t)
    requires r.capacity == t.capacity && r.currentId == t.currentId
    requires r.priorities == t.priorities[Ring.InternalIndex(t.currentId, t.capacity, index) := x]
    requires 0 <= e < SizeOf(t)
    ensures Position(t, index) < |Stored(r)| && Stored(r)[Position(t, index)] == x
    ensures e != Position(t, index) ==> Stored(r)[e] == Stored(t)[e]
  {
    var cid, cap := t.currentId, t.capacity;
    var k := Position(t, index);
    StoredSlot(t, index);
    StoredSlot(r, index);
    StoredSlot(t, e);
    StoredSlot(r, e);
    if e != k {
      Ring.ExternalOfInternal(cid, cap, e);
      Ring.ExternalOfInternal(cid, cap, k);
    }
  }

  /** append adds the priority as the newest stored one, dropping the oldest once full. */
  lemma AppendStored(t: Tree, x: real)
    requires Valid(t)
    requires x >= 0.0
    ensures Stored(Append(t, x)) == (if t.currentId >= t.capacity then Stored(t)[1..] else Stored(t)) + [x]
    ensures SizeOf(Append(t, x)) == if t.currentId >= t.capacity then t.capacity else t.currentId + 1
  {
    StoredAfterAppend(t, Append(t, x), x);
  }

  /** After set(index, p), get(index) returns p and every other stored experience keeps its
      priority. */
  lemma SetThenGet(t: Tree, index: int, x: real, e: int)
    requires Valid(t)
    requires Names(t, index)
    requires x >= 0.0
    requires 0 <= e < SizeOf(t)
    ensures Get(Set(t, index, x), index) == x
    ensures e != Position(t, index) ==> Get(Set(t, index, x), e) == Get(t, e)
  {
    StoredAfterSet(t, Set(t, index, x), index, x, e);
  }

  /** Storing the current max() as the next priority leaves max() where it was; from an empty
      tree that value is the initial priority. */
  lemma AppendMaxKeepsMax(t: Tree)
    requires Valid(t)
    ensures MaxP(Append(t, MaxP(t))) == MaxP(t)
  {
    var m := MaxP(t);
    var r := Append(t, m);
    var idx := t.currentId % t.capacity;
    var s := r.priorities[..SizeOf(r)];
    if t.currentId < t.capacity {
      Arith.DivModUnique(t.currentId, t.capacity, 0, t.currentId);
    }
    assert s[idx] == m;
    forall i | 0 <= i < |s|
      ensures s[i] <= m
    {
      if i != idx {
        assert i < SizeOf(t);
        MaxBounds(t.priorities[..SizeOf(t)]);
        assert t.priorities[..SizeOf(t)][i] == s[i];
      }
    }
    MaxIs(s, m);
  }
}
