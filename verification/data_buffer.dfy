/** The data buffer of the prioritized replay memory.

    It folds each experience into n-step data (see NStep), writes every datum into three ring
    arrays (actions, returns, dones) at slot current_id mod capacity, and gives each new datum
    the priority tree's current maximum as its priority. The torch tensors become sequences. */
module DataBuffer {

  import opened Wrappers
  import opened NStep
  import Arith
  import Ring
  import PT = PriorityTree

  /** The fields the C++ class keeps, in declaration order (the torch device is left out). */
  datatype Buffer = Buffer(
    capacity: nat,
    nSteps: nat,
    gamma: real,
    pending: Pending,
    actions: seq<int>,
    rewards: seq<real>,
    dones: seq<bool>,
    priorities: PT.Tree,
    currentId: nat)

  /** The value of a slot that was never written: the zero action, return and flag. */
  const Blank := Datum(0, 0.0, false)

  /** The three arrays have one slot per unit of capacity. */
  predicate Arrays(b: Buffer)
  {
    b.capacity >= 1 && |b.actions| == b.capacity && |b.rewards| == b.capacity && |b.dones| == b.capacity
  }

  /** The datum held in slot k of the three arrays. */
  function SlotDatum(b: Buffer, k: nat): Datum
    requires Arrays(b) && k < b.capacity
  {
    Datum(b.actions[k], b.rewards[k], b.dones[k])
  }

  /** size(): the number of stored data, min(current_id, capacity). */
  function Size(b: Buffer): nat
  {
    Ring.Size(b.currentId, b.capacity)
  }

  /** The state every operation starts from and ends in: the constructor's parameters, well-formed
      pending deques, blank slots beyond the stored data, and a valid priority tree that counts
      writes in step with the buffer. */
  ghost predicate Valid(b: Buffer)
  {
    && b.capacity >= 2
    && b.nSteps >= 1
    && WellFormed(b.pending, b.nSteps)
    && Arrays(b)
    && (forall k :: Size(b) <= k < b.capacity ==> SlotDatum(b, k) == Blank)
    && PT.Valid(b.priorities)
    && b.priorities.capacity == b.capacity
    && b.priorities.currentId == b.currentId
  }

  /** The slots of the three arrays, in slot order. */
  function Slots(b: Buffer): (r: seq<Datum>)
    requires Arrays(b)
    ensures |r| == b.capacity
  {
    seq(b.capacity, k requires 0 <= k < b.capacity => SlotDatum(b, k))
  }

  /** The stored data in experience order, oldest first. */
  function Contents(b: Buffer): (c: seq<Datum>)
    requires Arrays(b)
  {
    Ring.View(Slots(b), b.currentId, b.capacity)
  }

  /** The last min(|s|, c) elements of s: what a ring of capacity c keeps of the writes s. */
  function Keep<T>(s: seq<T>, c: nat): (r: seq<T>)
    ensures |r| == if |s| <= c then |s| else c
    ensures forall i :: 0 <= i < |r| ==> r[i] == s[|s| - |r| + i]
  {
    if |s| <= c then s else s[|s| - c..]
  }

  /** n copies of x. */
  function Repeat<T>(x: T, n: nat): (r: seq<T>)
    ensures |r| == n
    ensures forall i :: 0 <= i < n ==> r[i] == x
  {
    seq(n, _ => x)
  }

  // ---------------------------------------------------------------- construction and clear

  /** The constructor DataBuffer(capacity, n_steps, gamma, initial_priority, n_children). */
  function New(capacity: nat, nSteps: nat, gamma: real, initialPriority: real, nChildren: nat): (b: Buffer)
    requires capacity >= 2 && nSteps >= 1 && nChildren >= 2 && initialPriority >= 0.0
    ensures Valid(b)
    ensures b.capacity == capacity && b.nSteps == nSteps && b.gamma == gamma
    ensures b.priorities.initialPriority == initialPriority && b.priorities.nChildren == nChildren
    ensures Size(b) == 0 && Contents(b) == []
    ensures Window(b.pending, [], nSteps, gamma)
    ensures PT.MaxP(b.priorities) == initialPriority && PT.SumP(b.priorities) == 0.0
  {
    Buffer(capacity, nSteps, gamma, NoPending(nSteps),
           seq(capacity, _ => 0), seq(capacity, _ => 0.0), seq(capacity, _ => false),
           PT.New(capacity, initialPriority, nChildren), 0)
  }

  /** clear(): the buffer a fresh construction with the same parameters gives. */
  function Clear(b: Buffer): (r: Buffer)
    requires Valid(b)
    ensures r == New(b.capacity, b.nSteps, b.gamma, b.priorities.initialPriority, b.priorities.nChildren)
  {
    Buffer(b.capacity, b.nSteps, b.gamma, ClearPending(b.pending),
           seq(b.capacity, _ => 0), seq(b.capacity, _ => 0.0), seq(b.capacity, _ => false),
           PT.Clear(b.priorities), 0)
  }

  // ---------------------------------------------------------------- addDatum

  /** Appending x to the stored writes s of a ring of capacity c. */
  lemma KeepStep<T>(s: seq<T>, x: T, c: nat)
    requires 1 <= c && |s| <= c
    ensures Keep(s + [x], c) == (if |s| == c then s[1..] else s) + [x]
  {
    if |s| == c {
      assert (s + [x])[1..] == s[1..] + [x];
    }
  }

  /** Keeping the tail of the tail is keeping the tail. */
  lemma KeepKeep<T>(s: seq<T>, t: seq<T>, c: nat)
    ensures Keep(Keep(s, c) + t, c) == Keep(s + t, c)
  {
    var k := Keep(s, c);
    var a, b := Keep(k + t, c), Keep(s + t, c);
    assert |a| == |b|;
    forall i | 0 <= i < |a|
      ensures a[i] == b[i]
    {
      var x := |k + t| - |a| + i;
      var y := |s + t| - |b| + i;
      if x < |k| {
        assert y < |s| && (k + t)[x] == k[x] == s[y];
      } else {
        assert (k + t)[x] == t[x - |k|] == (s + t)[y];
      }
    }
  }

  /** Appending a non-empty t is appending its head, then its tail. */
  lemma HeadTail<T>(s: seq<T>, t: seq<T>)
    requires |t| > 0
    ensures s + [t[0]] + t[1..] == s + t
  {
    assert [t[0]] + t[1..] == t;
  }

  /** One more copy of x, appended before the others. */
  lemma RepeatCons<T>(s: seq<T>, x: T, n: nat)
    ensures s + [x] + Repeat(x, n) == s + Repeat(x, n + 1)
  {
    assert [x] + Repeat(x, n) == Repeat(x, n + 1);
  }

  /** Writing d to slot current_id mod capacity leaves the other slots and puts d in that one. */
  lemma SlotsAfterWrite(b: Buffer, r: Buffer, d: Datum)
    requires Arrays(b) && Arrays(r) && r.capacity == b.capacity
    requires var idx := b.currentId % b.capacity;
      && r.actions == b.actions[idx := d.action]
      && r.rewards == b.rewards[idx := d.ret]
      && r.dones == b.dones[idx := d.done]
    ensures Slots(r) == Slots(b)[b.currentId % b.capacity := d]
  {
  }

  /** addDatum(action, reward, done): write the datum at slot current_id mod capacity, give it
      the tree's current maximum as its priority, and count the write. */
  function AddDatum(b: Buffer, d: Datum): (r: Buffer)
    requires Valid(b)
    ensures Valid(r)
    ensures r.capacity == b.capacity && r.nSteps == b.nSteps && r.gamma == b.gamma && r.pending == b.pending
    ensures r.currentId == b.currentId + 1
    ensures PT.SameParameters(b.priorities, r.priorities)
  {
    var idx := b.currentId % b.capacity;
    var r := b.(actions := b.actions[idx := d.action],
                rewards := b.rewards[idx := d.ret],
                dones := b.dones[idx := d.done],
                priorities := PT.Append(b.priorities, PT.MaxP(b.priorities)),
                currentId := b.currentId + 1);
    assert forall k :: Size(r) <= k < r.capacity ==> SlotDatum(r, k) == SlotDatum(b, k) by {
      if b.currentId < b.capacity {
        Arith.DivModUnique(b.currentId, b.capacity, 0, b.currentId);
      }
    }
    r
  }

  /** addDatum appends the datum as the newest stored one, dropping the oldest once the buffer
      is full. */
  lemma AddDatumContents(b: Buffer, d: Datum)
    requires Valid(b)
    ensures Contents(AddDatum(b, d)) == Keep(Contents(b) + [d], b.capacity)
  {
    SlotsAfterWrite(b, AddDatum(b, d), d);
    Ring.ViewAfterWrite(Slots(b), b.currentId, b.capacity, d);
    KeepStep(Contents(b), d, b.capacity);
  }

  /** The priority addDatum stores is the maximum, which therefore does not move. */
  lemma AddDatumPriority(b: Buffer, d: Datum)
    requires Valid(b)
    ensures PT.Stored(AddDatum(b, d).priorities) == Keep(PT.Stored(b.priorities) + [PT.MaxP(b.priorities)], b.capacity)
    ensures PT.MaxP(AddDatum(b, d).priorities) == PT.MaxP(b.priorities)
  {
    var m := PT.MaxP(b.priorities);
    PT.AppendStored(b.priorities, m);
    KeepStep(PT.Stored(b.priorities), m, b.capacity);
    PT.AppendMaxKeepsMax(b.priorities);
  }

  /** The addDatum calls of one append, in order. */
  function AddAll(b: Buffer, ds: seq<Datum>): (r: Buffer)
    requires Valid(b)
    ensures Valid(r)
    ensures r.capacity == b.capacity && r.nSteps == b.nSteps && r.gamma == b.gamma && r.pending == b.pending
    ensures r.currentId == b.currentId + |ds|
    ensures PT.SameParameters(b.priorities, r.priorities)
    decreases |ds|
  {
    if |ds| == 0 then b else AddAll(AddDatum(b, ds[0]), ds[1..])
  }

  /** Adding several data keeps the newest of them and of the stored ones. */
  lemma {:induction false} AddAllContents(b: Buffer, ds: seq<Datum>)
    requires Valid(b)
    ensures Contents(AddAll(b, ds)) == Keep(Contents(b) + ds, b.capacity)
    decreases |ds|
  {
    var c := Contents(b);
    if |ds| == 0 {
      assert c + ds == c;
    } else {
      AddDatumContents(b, ds[0]);
      AddAllContents(AddDatum(b, ds[0]), ds[1..]);
      KeepKeep(c + [ds[0]], ds[1..], b.capacity);
      HeadTail(c, ds);
    }
  }

  /** Each added datum gets the maximum priority, which therefore does not move. */
  lemma {:induction false} AddAllPriorities(b: Buffer, ds: seq<Datum>)
    requires Valid(b)
    ensures PT.MaxP(AddAll(b, ds).priorities) == PT.MaxP(b.priorities)
    ensures PT.Stored(AddAll(b, ds).priorities)
         == Keep(PT.Stored(b.priorities) + Repeat(PT.MaxP(b.priorities), |ds|), b.capacity)
    decreases |ds|
  {
    var s, m := PT.Stored(b.priorities), PT.MaxP(b.priorities);
    if |ds| == 0 {
      assert s + Repeat(m, 0) == s;
    } else {
      var n := |ds| - 1;
      AddDatumPriority(b, ds[0]);
      AddAllPriorities(AddDatum(b, ds[0]), ds[1..]);
      assert |ds[1..]| == n;
      KeepKeep(s + [m], Repeat(m, n), b.capacity);
      RepeatCons(s, m, n);
    }
  }

  // ---------------------------------------------------------------- append

  /** Replacing the pending deques by well-formed ones touches neither the stored data nor the
      priorities. */
  lemma WithPending(b: Buffer, p: Pending)
    requires Valid(b)
    requires WellFormed(p, b.nSteps)
    ensures Valid(b.(pending := p))
    ensures Contents(b.(pending := p)) == Contents(b)
  {
    var b1 := b.(pending := p);
    forall k | 0 <= k < b.capacity
      ensures SlotDatum(b1, k) == SlotDatum(b, k)
    {
    }
    assert Slots(b1) == Slots(b);
  }

  /** append(experience): the n-step fold, then addDatum for each datum it emits. */
  function Append(b: Buffer, e: Event): (r: Buffer)
    requires Valid(b)
    ensures Valid(r)
    ensures r.capacity == b.capacity && r.nSteps == b.nSteps && r.gamma == b.gamma
  {
    var step := Step(b.pending, b.nSteps, b.gamma, e);
    WithPending(b, step.0);
    AddAll(b.(pending := step.0), step.1)
  }

  /** While the pending deques hold the window of the episode h, append adds to the stored data
      exactly the n-step data of the reference, each with the maximum priority, and the deques
      move on to the window of the next episode. */
  lemma AppendContents(b: Buffer, h: seq<Event>, e: Event)
    requires Valid(b)
    requires Window(b.pending, h, b.nSteps, b.gamma)
    ensures var r, out := Append(b, e), Emitted(h, b.nSteps, b.gamma, e);
      && Window(r.pending, NextEpisode(h, e), b.nSteps, b.gamma)
      && Contents(r) == Keep(Contents(b) + out, b.capacity)
      && PT.Stored(r.priorities) == Keep(PT.Stored(b.priorities) + Repeat(PT.MaxP(b.priorities), |out|), b.capacity)
      && PT.MaxP(r.priorities) == PT.MaxP(b.priorities)
  {
    var step := Step(b.pending, b.nSteps, b.gamma, e);
    StepEmits(b.pending, h, b.nSteps, b.gamma, e);
    WithPending(b, step.0);
    AddAllContents(b.(pending := step.0), step.1);
    AddAllPriorities(b.(pending := step.0), step.1);
  }

  // ---------------------------------------------------------------- operator[]

  /** The slot operator[] reads for index i: once the ring has wrapped, (i + current_id) mod
      capacity with torch's floor remainder; before that, i itself, which torch indexing wraps
      once from the end of the array when negative and rejects outside [-capacity, capacity). */
  function Slot(b: Buffer, i: int): (r: Option<nat>)
    requires Arrays(b)
    ensures r.Some? ==> r.value < b.capacity
    ensures Ring.Wrapped(b.currentId, b.capacity) ==> r.Some?
    ensures r.None? <==> !Ring.Wrapped(b.currentId, b.capacity) && (i < -(b.capacity as int) || i >= b.capacity)
  {
    var k := Ring.DataIndex(b.currentId, b.capacity, i);
    if 0 <= k < b.capacity then Some(k)
    else if -(b.capacity as int) <= k < 0 then Some(k + b.capacity)
    else None
  }

  /** operator[] for one index: the datum in the slot read, or None where torch raises. */
  function Read(b: Buffer, i: int): (r: Option<Datum>)
    requires Arrays(b)
    ensures r.None? <==> Slot(b, i).None?
    ensures r.Some? ==> r.value == SlotDatum(b, Slot(b, i).value)
  {
    match Slot(b, i)
    case None => None
    case Some(k) => Some(SlotDatum(b, k))
  }

  /** The value operator[] leaves in the caller's index tensor, which it takes by reference: once
      the ring has wrapped it overwrites the index with the slot it reads; before that the index
      is left as it was. */
  function ReadIndex(b: Buffer, i: int): (r: int)
    requires Arrays(b)
    ensures !Ring.Wrapped(b.currentId, b.capacity) ==> r == i
    ensures Ring.Wrapped(b.currentId, b.capacity) ==> 0 <= r < b.capacity && Slot(b, i) == Some(r)
  {
    if Ring.Wrapped(b.currentId, b.capacity) then Ring.DataIndex(b.currentId, b.capacity, i) else i
  }

  /** After operator[] on a stored index i, the caller holds a slot rather than an experience
      index: it is the tree's internalIndex(i), and only externalIndex turns it back into i. */
  lemma ReadIndexIsSlot(b: Buffer, i: int)
    requires Valid(b)
    requires 0 <= i < Size(b)
    ensures ReadIndex(b, i) == Ring.InternalIndex(b.currentId, b.capacity, i)
    ensures Ring.ExternalIndex(b.currentId, b.capacity, ReadIndex(b, i)) == i
  {
    Ring.InternalIsDataIndex(b.currentId, b.capacity, i);
    Ring.ExternalOfInternal(b.currentId, b.capacity, i);
  }

  /** Index i of operator[] is the i-th stored datum, oldest first, and sits in the slot whose
      priority the tree reports for the same index. */
  lemma ReadStored(b: Buffer, i: int)
    requires Valid(b)
    requires 0 <= i < Size(b)
    ensures Read(b, i) == Some(Contents(b)[i])
    ensures Slot(b, i) == Some(Ring.InternalIndex(b.currentId, b.capacity, i))
    ensures PT.Get(b.priorities, i) == PT.Stored(b.priorities)[i] == b.priorities.priorities[Slot(b, i).value]
  {
    Ring.InternalIsDataIndex(b.currentId, b.capacity, i);
    PT.StoredSlot(b.priorities, i);
  }

  /** A negative index counts back from the newest datum once the ring has wrapped; before that
      it reads from the end of the arrays, which beyond the stored data hold blank slots. */
  lemma ReadNegative(b: Buffer, i: int)
    requires Valid(b)
    requires -(b.capacity as int) <= i < 0
    ensures Ring.Wrapped(b.currentId, b.capacity) ==> Read(b, i) == Some(Contents(b)[i + Size(b)])
    ensures !Ring.Wrapped(b.currentId, b.capacity) ==> Slot(b, i) == Some(i + b.capacity)
    ensures !Ring.Wrapped(b.currentId, b.capacity) && i + b.capacity >= Size(b) ==> Read(b, i) == Some(Blank)
  {
    if Ring.Wrapped(b.currentId, b.capacity) {
      Arith.ModShift(i + b.currentId, 1, b.capacity);
      assert i + b.currentId + 1 * b.capacity == i + Size(b) + b.currentId;
    }
  }
}
