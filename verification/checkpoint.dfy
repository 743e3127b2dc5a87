/** The checkpoint format of the priority tree and the data buffer.

    A checkpoint is the sequence of values the serialize helpers write, one field per call; the
    byte encoding of each value is not modelled. A save writes its fields in front of whatever
    the stream holds next (`rest`), and a load reads them back, failing with None where the
    stream holds a value of another kind or runs out. */
module Checkpoint {

  import opened Wrappers
  import opened Deques
  import opened NStep
  import PT = PriorityTree
  import DB = DataBuffer

  /** One serialized value: a scalar, a tensor or vector, or a vector of tensors. */
  datatype Field =
    | FInt(n: int)
    | FReal(x: real)
    | FBool(flag: bool)
    | FInts(ints: seq<int>)
    | FReals(reals: seq<real>)
    | FBools(bools: seq<bool>)
    | FLevels(levels: seq<seq<real>>)

  type Stream = seq<Field>

  /** A value read from the front of a stream, and what the stream holds after it. */
  datatype Parsed<T> = Parsed(value: T, rest: Stream)

  // ---------------------------------------------------------------- one field

  /** load_value<int> of a count: the next field must be a non-negative integer. */
  function ReadNat(s: Stream): (r: Option<Parsed<nat>>)
    ensures r.Some? <==> |s| > 0 && s[0].FInt? && s[0].n >= 0
    ensures r.Some? ==> s == [FInt(r.value.value)] + r.value.rest
  {
    if |s| > 0 && s[0].FInt? && s[0].n >= 0 then Some(Parsed(s[0].n, s[1..])) else None
  }

  /** load_value<float>. */
  function ReadReal(s: Stream): (r: Option<Parsed<real>>)
    ensures r.Some? <==> |s| > 0 && s[0].FReal?
    ensures r.Some? ==> s == [FReal(r.value.value)] + r.value.rest
  {
    if |s| > 0 && s[0].FReal? then Some(Parsed(s[0].x, s[1..])) else None
  }

  /** load_value<bool>. */
  function ReadBool(s: Stream): (r: Option<Parsed<bool>>)
    ensures r.Some? <==> |s| > 0 && s[0].FBool?
    ensures r.Some? ==> s == [FBool(r.value.value)] + r.value.rest
  {
    if |s| > 0 && s[0].FBool? then Some(Parsed(s[0].flag, s[1..])) else None
  }

  /** load_tensor<int>. */
  function ReadInts(s: Stream): (r: Option<Parsed<seq<int>>>)
    ensures r.Some? <==> |s| > 0 && s[0].FInts?
    ensures r.Some? ==> s == [FInts(r.value.value)] + r.value.rest
  {
    if |s| > 0 && s[0].FInts? then Some(Parsed(s[0].ints, s[1..])) else None
  }

  /** load_tensor<float> and load_vector<double>. */
  function ReadReals(s: Stream): (r: Option<Parsed<seq<real>>>)
    ensures r.Some? <==> |s| > 0 && s[0].FReals?
    ensures r.Some? ==> s == [FReals(r.value.value)] + r.value.rest
  {
    if |s| > 0 && s[0].FReals? then Some(Parsed(s[0].reals, s[1..])) else None
  }

  /** load_tensor<bool>. */
  function ReadBools(s: Stream): (r: Option<Parsed<seq<bool>>>)
    ensures r.Some? <==> |s| > 0 && s[0].FBools?
    ensures r.Some? ==> s == [FBools(r.value.value)] + r.value.rest
  {
    if |s| > 0 && s[0].FBools? then Some(Parsed(s[0].bools, s[1..])) else None
  }

  /** load_vector<torch::Tensor, float>. */
  function ReadLevels(s: Stream): (r: Option<Parsed<seq<seq<real>>>>)
    ensures r.Some? <==> |s| > 0 && s[0].FLevels?
    ensures r.Some? ==> s == [FLevels(r.value.value)] + r.value.rest
  {
    if |s| > 0 && s[0].FLevels? then Some(Parsed(s[0].levels, s[1..])) else None
  }

  // ---------------------------------------------------------------- the sum-tree's levels

  /** The save loop over the sum-tree: one vector per level, with no count in front. */
  function SaveSums(ls: seq<seq<real>>, rest: Stream): Stream
  {
    if |ls| == 0 then rest else [FReals(ls[0])] + SaveSums(ls[1..], rest)
  }

  /** The load loop over the sum-tree: as many vectors as the depth read before them. */
  function LoadSums(s: Stream, k: nat): Option<Parsed<seq<seq<real>>>>
  {
    if k == 0 then Some(Parsed([], s))
    else
      var head :- ReadReals(s);
      var tail :- LoadSums(head.rest, k - 1);
      Some(Parsed([head.value] + tail.value, tail.rest))
  }

  /** Loading as many levels as were saved gives them back. */
  lemma {:induction false} SumsRoundTrip(ls: seq<seq<real>>, rest: Stream)
    ensures LoadSums(SaveSums(ls, rest), |ls|) == Some(Parsed(ls, rest))
  {
    if |ls| > 0 {
      SumsRoundTrip(ls[1..], rest);
      assert [ls[0]] + ls[1..] == ls;
    }
  }

  /** A successful load of k levels read exactly k saved levels. */
  lemma {:induction false} SumsLoaded(s: Stream, k: nat)
    requires LoadSums(s, k).Some?
    ensures var p := LoadSums(s, k).value;
      |p.value| == k && s == SaveSums(p.value, p.rest)
  {
    if k > 0 {
      var head := ReadReals(s).value;
      SumsLoaded(head.rest, k - 1);
      var ls := LoadSums(s, k).value.value;
      assert ls[1..] == LoadSums(head.rest, k - 1).value.value;
    }
  }

  // ---------------------------------------------------------------- the priority tree

  /** PriorityTree::save: the parameters, current_id, the refresh flag, the priorities, the
      sum-tree level by level, then the max-tree. */
  function SaveTree(t: PT.Tree, rest: Stream): Stream
  {
    [FReal(t.initialPriority)] + ([FInt(t.capacity)] + ([FInt(t.nChildren)] + ([FInt(t.depth)]
    + ([FInt(t.currentId)] + ([FBool(t.needRefreshAll)] + ([FReals(t.priorities)]
    + SaveSums(t.sumTree, [FLevels(t.maxTree)] + rest)))))))
  }

  /** PriorityTree::load: the fields in the order save writes them; the number of sum-tree
      levels is the depth just read. */
  function LoadTree(s: Stream): Option<Parsed<PT.Tree>>
  {
    var initialPriority :- ReadReal(s);
    var capacity :- ReadNat(initialPriority.rest);
    var nChildren :- ReadNat(capacity.rest);
    var depth :- ReadNat(nChildren.rest);
    var currentId :- ReadNat(depth.rest);
    var needRefreshAll :- ReadBool(currentId.rest);
    var priorities :- ReadReals(needRefreshAll.rest);
    var sumTree :- LoadSums(priorities.rest, depth.value);
    var maxTree :- ReadLevels(sumTree.rest);
    Some(Parsed(PT.Tree(initialPriority.value, capacity.value, nChildren.value, depth.value,
                        currentId.value, needRefreshAll.value, priorities.value,
                        sumTree.value, maxTree.value), maxTree.rest))
  }

  /** Loading a saved tree gives back every field, and leaves the stream after it. */
  lemma TreeRoundTrip(t: PT.Tree, rest: Stream)
    requires |t.sumTree| == t.depth
    ensures LoadTree(SaveTree(t, rest)) == Some(Parsed(t, rest))
  {
    var s7 := SaveSums(t.sumTree, [FLevels(t.maxTree)] + rest);
    var s6 := [FReals(t.priorities)] + s7;
    var s5 := [FBool(t.needRefreshAll)] + s6;
    var s4 := [FInt(t.currentId)] + s5;
    var s3 := [FInt(t.depth)] + s4;
    var s2 := [FInt(t.nChildren)] + s3;
    var s1 := [FInt(t.capacity)] + s2;
    assert ReadReal(SaveTree(t, rest)) == Some(Parsed(t.initialPriority, s1));
    assert ReadNat(s1) == Some(Parsed(t.capacity, s2));
    assert ReadNat(s2) == Some(Parsed(t.nChildren, s3));
    assert ReadNat(s3) == Some(Parsed(t.depth, s4));
    assert ReadNat(s4) == Some(Parsed(t.currentId, s5));
    assert ReadBool(s5) == Some(Parsed(t.needRefreshAll, s6));
    assert ReadReals(s6) == Some(Parsed(t.priorities, s7));
    SumsRoundTrip(t.sumTree, [FLevels(t.maxTree)] + rest);
    assert ReadLevels([FLevels(t.maxTree)] + rest) == Some(Parsed(t.maxTree, rest));
  }

  /** Every valid tree survives a save and a load. */
  lemma ValidTreeRoundTrip(t: PT.Tree, rest: Stream)
    requires PT.Valid(t)
    ensures LoadTree(SaveTree(t, rest)) == Some(Parsed(t, rest))
  {
    TreeRoundTrip(t, rest);
  }

  /** A successful load read a saved tree whose sum-tree has one level per unit of depth. */
  lemma TreeLoaded(s: Stream)
    requires LoadTree(s).Some?
    ensures var p := LoadTree(s).value;
      |p.value.sumTree| == p.value.depth && s == SaveTree(p.value, p.rest)
  {
    var s1 := ReadReal(s).value.rest;
    var s2 := ReadNat(s1).value.rest;
    var s3 := ReadNat(s2).value.rest;
    var depth := ReadNat(s3).value;
    var s5 := ReadNat(depth.rest).value.rest;
    var s6 := ReadBool(s5).value.rest;
    var s7 := ReadReals(s6).value.rest;
    SumsLoaded(s7, depth.value);
  }

  // ---------------------------------------------------------------- the pending deques

  /** Deque::save, whose source (helpers/deque.hpp) is not part of this model: assumed to write
      the bound, then the elements from the front. */
  function SaveActions(d: Deque<int>, rest: Stream): Stream
  {
    [FInt(d.bound)] + ([FInts(d.items)] + rest)
  }

  function SaveRewards(d: Deque<real>, rest: Stream): Stream
  {
    [FInt(d.bound)] + ([FReals(d.items)] + rest)
  }

  function SaveDones(d: Deque<bool>, rest: Stream): Stream
  {
    [FInt(d.bound)] + ([FBools(d.items)] + rest)
  }

  /** Deque::load, reading what SaveActions writes. */
  function LoadActions(s: Stream): (r: Option<Parsed<Deque<int>>>)
    ensures r.Some? ==> s == SaveActions(r.value.value, r.value.rest)
  {
    var bound :- ReadNat(s);
    var items :- ReadInts(bound.rest);
    Some(Parsed(Deque(bound.value, items.value), items.rest))
  }

  function LoadRewards(s: Stream): (r: Option<Parsed<Deque<real>>>)
    ensures r.Some? ==> s == SaveRewards(r.value.value, r.value.rest)
  {
    var bound :- ReadNat(s);
    var items :- ReadReals(bound.rest);
    Some(Parsed(Deque(bound.value, items.value), items.rest))
  }

  function LoadDones(s: Stream): (r: Option<Parsed<Deque<bool>>>)
    ensures r.Some? ==> s == SaveDones(r.value.value, r.value.rest)
  {
    var bound :- ReadNat(s);
    var items :- ReadBools(bound.rest);
    Some(Parsed(Deque(bound.value, items.value), items.rest))
  }

  /** The three Deque::save calls of DataBuffer::save. */
  function SavePending(p: Pending, rest: Stream): Stream
  {
    SaveActions(p.actions, SaveRewards(p.rewards, SaveDones(p.dones, rest)))
  }

  /** The three Deque::load calls of DataBuffer::load. */
  function LoadPending(s: Stream): (r: Option<Parsed<Pending>>)
    ensures r.Some? ==> s == SavePending(r.value.value, r.value.rest)
  {
    var actions :- LoadActions(s);
    var rewards :- LoadRewards(actions.rest);
    var dones :- LoadDones(rewards.rest);
    Some(Parsed(Pending(actions.value, rewards.value, dones.value), dones.rest))
  }

  /** The pending deques survive a save and a load. */
  lemma PendingRoundTrip(p: Pending, rest: Stream)
    ensures LoadPending(SavePending(p, rest)) == Some(Parsed(p, rest))
  {
    var s2 := SaveDones(p.dones, rest);
    var s1 := SaveRewards(p.rewards, s2);
    assert ReadNat(SaveActions(p.actions, s1)) == Some(Parsed(p.actions.bound, [FInts(p.actions.items)] + s1));
    assert LoadActions(SavePending(p, rest)) == Some(Parsed(p.actions, s1));
    assert ReadNat(s1) == Some(Parsed(p.rewards.bound, [FReals(p.rewards.items)] + s2));
    assert LoadRewards(s1) == Some(Parsed(p.rewards, s2));
    assert ReadNat(s2) == Some(Parsed(p.dones.bound, [FBools(p.dones.items)] + rest));
    assert LoadDones(s2) == Some(Parsed(p.dones, rest));
  }

  // ---------------------------------------------------------------- the data buffer

  /** DataBuffer::save: the parameters, the three pending deques, the three data tensors, the
      priority tree, then current_id. */
  function SaveBuffer(b: DB.Buffer, rest: Stream): Stream
  {
    [FInt(b.capacity)] + ([FInt(b.nSteps)] + ([FReal(b.gamma)]
    + SavePending(b.pending, [FInts(b.actions)] + ([FReals(b.rewards)] + ([FBools(b.dones)]
    + SaveTree(b.priorities, [FInt(b.currentId)] + rest))))))
  }

  /** DataBuffer::load: the fields in the order save writes them. */
  function LoadBuffer(s: Stream): Option<Parsed<DB.Buffer>>
  {
    var capacity :- ReadNat(s);
    var nSteps :- ReadNat(capacity.rest);
    var gamma :- ReadReal(nSteps.rest);
    var pending :- LoadPending(gamma.rest);
    var actions :- ReadInts(pending.rest);
    var rewards :- ReadReals(actions.rest);
    var dones :- ReadBools(rewards.rest);
    var priorities :- LoadTree(dones.rest);
    var currentId :- ReadNat(priorities.rest);
    Some(Parsed(DB.Buffer(capacity.value, nSteps.value, gamma.value,
                          pending.value,
                          actions.value, rewards.value, dones.value,
                          priorities.value, currentId.value), currentId.rest))
  }

  /** Loading a saved buffer gives back every field, and leaves the stream after it. */
  lemma BufferRoundTrip(b: DB.Buffer, rest: Stream)
    requires |b.priorities.sumTree| == b.priorities.depth
    ensures LoadBuffer(SaveBuffer(b, rest)) == Some(Parsed(b, rest))
  {
    var s11 := [FInt(b.currentId)] + rest;
    var s10 := SaveTree(b.priorities, s11);
    var s9 := [FBools(b.dones)] + s10;
    var s8 := [FReals(b.rewards)] + s9;
    var s7 := [FInts(b.actions)] + s8;
    var s4 := SavePending(b.pending, s7);
    var s3 := [FReal(b.gamma)] + s4;
    var s2 := [FInt(b.nSteps)] + s3;
    assert ReadNat(SaveBuffer(b, rest)) == Some(Parsed(b.capacity, s2));
    assert ReadNat(s2) == Some(Parsed(b.nSteps, s3));
    assert ReadReal(s3) == Some(Parsed(b.gamma, s4));
    PendingRoundTrip(b.pending, s7);
    assert ReadInts(s7) == Some(Parsed(b.actions, s8));
    assert ReadReals(s8) == Some(Parsed(b.rewards, s9));
    assert ReadBools(s9) == Some(Parsed(b.dones, s10));
    TreeRoundTrip(b.priorities, s11);
    assert ReadNat(s11) == Some(Parsed(b.currentId, rest));
  }

  /** Every valid buffer survives a save and a load. */
  lemma ValidBufferRoundTrip(b: DB.Buffer, rest: Stream)
    requires DB.Valid(b)
    ensures LoadBuffer(SaveBuffer(b, rest)) == Some(Parsed(b, rest))
  {
    BufferRoundTrip(b, rest);
  }

  /** A successful load read a saved buffer. */
  lemma BufferLoaded(s: Stream)
    requires LoadBuffer(s).Some?
    ensures var p := LoadBuffer(s).value;
      |p.value.priorities.sumTree| == p.value.priorities.depth && s == SaveBuffer(p.value, p.rest)
  {
    var s2 := ReadNat(s).value.rest;
    var s3 := ReadNat(s2).value.rest;
    var s4 := ReadReal(s3).value.rest;
    var s7 := LoadPending(s4).value.rest;
    var s8 := ReadInts(s7).value.rest;
    var s9 := ReadReals(s8).value.rest;
    var s10 := ReadBools(s9).value.rest;
    TreeLoaded(s10);
  }
}
