# Prioritized multi-step replay memory, modelled in Dafny

This project models the core of the C++ replay memory used by the agents of the
ReinforcementLearningBenckmarks repository. It has two coupled components.

**The priority tree** (`PriorityTree`) is a fixed-capacity ring array of non-negative
priorities. Two perfect `n_children`-ary trees sit over that array:

- a **sum-tree**. `sum()` reads the total priority at its root. Tower sampling descends it to
  pick an experience with probability proportional to its priority.
- a **max-tree**. `max()` reads the largest priority at its root.

Level 0 of each tree is the level nearest the leaves. The root is level `depth - 1`. The leaves
are the priority array padded with zeros up to `n_children^depth`.

**The data buffer** (`DataBuffer`) folds a stream of (action, reward, done) experiences into
n-step discounted returns. It does this through three bounded pending deques. Each finished
datum goes into three ring arrays at slot `current_id mod capacity`. Every datum is registered
in the priority tree at the tree's current `max()`.

The model is functional. Every object is an immutable datatype, and every operation is a pure
function from the old state to the new one. Priorities, rewards and the discount are exact
`real`s. The files are:

| file | module | models |
|---|---|---|
| arith.dfy | Arith | powers, block arithmetic, C++ truncating `%` |
| seqs.dfy | Seqs | sums, maxima and prefix sums of real sequences |
| ring.dfy | Ring | `size()`, `internalIndex`, `externalIndex`, the experience-order view of a ring |
| layout.dfy | Layout | depth, `parentIndex`, tree shape, zero-padded leaves |
| sum_tree.dfy | SumTree | `updateSumTree`, `refreshAllSumTree`, the exact-sums invariant |
| max_tree.dfy | MaxTree | `updateMaxTree` with its early stop, `maxChildValue`, the exact-max invariant |
| priority_tree.dfy | PriorityTree | constructor, `sum`, `max`, `clear`, `get`, `append`, `set`, the refresh flag |
| tower.dfy | Tower | `towerSampling`, `sampleIndices` |
| wrappers.dfy | Wrappers | `Option`, used for partial reads |
| deque.dfy | Deques | the bounded deque the buffer relies on |
| nstep.dfy | NStep | the n-step fold of `DataBuffer::append` |
| data_buffer.dfy | DataBuffer | constructor, `append`, `addDatum`, `operator[]`, `size`, `clear` |
| checkpoint.dfy | Checkpoint | the field order of `save` and `load` for both classes |

## How the properties are stated

**Sum-tree.** `SumTree.Exact` says that every node equals the sum of the leaves it covers.
`SumTree.ExactIffBlockConsistent` proves this is the same as "every node equals the sum of its
child block one level down".

**Max-tree.** `MaxTree.MaxExact` says the same of maxima.

**Validity.** `PriorityTree.Valid` is the state every public operation starts from and ends in.
It requires:

- the constructor's parameters;
- non-negative priorities;
- zeros in slots never written;
- both trees exact.

**Ring order.** `PriorityTree.Stored` and `DataBuffer.Contents` list the stored entries in
experience order, oldest first. Updates are stated against these lists.

**N-step fold.** `NStep.Return` is an independent reference for the discounted return: the sum
of `gamma^k * r[t+k]` over `k < m`. `NStep.Window` relates the pending deques to the current
episode. `NStep.Emitted` is the reference for what one `append` hands to `addDatum`.

**Checkpoints.** A checkpoint is a sequence of typed fields. `save` and `load` are proved
mutually inverse in both directions.

**Reading negative indices.** `PriorityTree::get` and the buffer's `operator[]` treat negative
indices differently while the ring has not yet wrapped:

- `get` maps `-1` to the newest stored priority, through `internalIndex`;
- `operator[]` passes `-1` to torch, which reads the last slot of the array. Before the ring
  wraps, that slot may be a blank slot never written.

`DataBuffer.ReadNegative` states this behaviour as the code has it. The wrapped case agrees
with `get`.

## Model

| member | source | states |
|---|---|---|
| Layout.Depth | relab_cpp/src/agents/memory/priority_tree.cpp:18-22 | the depth d satisfies n_children^d >= capacity, and d = 0 or n_children^(d-1) < capacity |
| Layout.DepthIsLeast | relab_cpp/src/agents/memory/priority_tree.cpp:18-22 | every d with n_children^d >= capacity is at least the computed depth, so the depth is the least such d |
| Layout.CreateTree | relab_cpp/src/agents/memory/priority_tree.cpp:32-50 | a new tree has depth levels, level k has n_children^(depth-1-k) nodes so the root level is last and has one node, and every node is zero |
| Layout.ParentIndex | relab_cpp/src/agents/memory/priority_tree.cpp:187-189 | for idx >= 0 the parent p is the node whose child block p*n .. p*n+n-1 contains idx; a negative idx is returned unchanged |
| Layout.Pad | relab_cpp/src/agents/memory/priority_tree.cpp:263-271 | the leaves have n_children^depth entries, begin with the priority array and are zero beyond it, as the clamped torch slice reads them |
| SumTree.UpdateSumTree | relab_cpp/src/agents/memory/priority_tree.cpp:191-208 | the walk changes exactly the ancestors of leaf idx, one per level, each by new - old, and leaves every other node unchanged |
| SumTree.UpdateSumTreeExact | relab_cpp/src/agents/memory/priority_tree.cpp:191-208 | when one leaf changes from its old to a new priority, the walk turns an exact sum-tree for the old leaves into the exact sum-tree for the new leaves |
| SumTree.RootIsTotal | relab_cpp/src/agents/memory/priority_tree.cpp:52-57 | in an exact sum-tree the root level has one node, and that node is the sum of all leaves |
| SumTree.ZeroTreeExact | relab_cpp/src/agents/memory/priority_tree.cpp:32-41 | the all-zero tree built by createSumTree is exact for all-zero leaves |
| SumTree.RefreshAllExact | relab_cpp/src/agents/memory/priority_tree.cpp:210-234 | rebuilding from zeros over the first size() priorities yields the exact sum-tree of those priorities padded with zeros |
| SumTree.RefreshAllNoOp | relab_cpp/src/agents/memory/priority_tree.cpp:210-234 | when the sum-tree is already exact and the slots from size() on are zero, the rebuild returns the same tree |
| SumTree.ExactIffBlockConsistent | relab_cpp/src/agents/memory/priority_tree.cpp:191-234 | every node equals the sum of the leaves it covers if and only if every node equals the sum of its child block one level down |
| MaxTree.UpdateMaxTree | relab_cpp/src/agents/memory/priority_tree.cpp:236-260 | the walk, including its early stop, changes no node other than the ancestors of leaf idx |
| MaxTree.UpdateMaxTreeExact | relab_cpp/src/agents/memory/priority_tree.cpp:236-274 | with non-negative priorities, the walk turns an exact max-tree for the old leaves into the exact max-tree for the new leaves, early stop included |
| MaxTree.MaxRootIsPeak | relab_cpp/src/agents/memory/priority_tree.cpp:59-64 | in an exact max-tree the root level has one node, and that node is the largest leaf |
| MaxTree.ZeroMaxTreeExact | relab_cpp/src/agents/memory/priority_tree.cpp:43-50 | the all-zero tree built by createMaxTree is exact for all-zero leaves |
| Ring.Size | relab_cpp/src/agents/memory/priority_tree.cpp:74-76 | size() is current_id until the ring is full and capacity afterwards, so it never exceeds either |
| Ring.InternalIndex | relab_cpp/src/agents/memory/priority_tree.cpp:117-123 | with C++ truncating %, the internal index lies strictly between -capacity and capacity |
| Ring.ExternalOfInternal | relab_cpp/src/agents/memory/priority_tree.cpp:117-131 | for 0 <= e < size(), externalIndex(internalIndex(e)) == e |
| Ring.InternalOfExternal | benchmarks_cpp/inc/priority_tree.hpp:110-122 | for 0 <= i < size(), externalIndex(i) lies in [0, size()) and internalIndex(externalIndex(i)) == i, so the two maps are mutual inverses on stored experiences |
| Ring.ExternalInjective | relab_cpp/src/agents/memory/priority_tree.cpp:125-131 | externalIndex gives distinct stored slots distinct experience indices |
| Ring.NegativeIndex | relab_cpp/src/agents/memory/priority_tree.cpp:117-123 | an index -size() <= e < 0 counts back from the newest: internalIndex(e) == internalIndex(e + size()) |
| Ring.InternalIsDataIndex | benchmarks_cpp/src/data_buffer.cpp:63-68 | for 0 <= e < size(), the buffer's (e + current_id) mod capacity once full, and e before, agrees with the tree's internalIndex |
| Ring.ViewAfterWrite | benchmarks_cpp/src/data_buffer.cpp:85-92 | writing slot current_id mod capacity and counting it appends the value to the experience-order view, dropping the oldest entry once the ring was full |
| PriorityTree.LeavesOfValid | relab_cpp/src/agents/memory/priority_tree.cpp:263-271 | in a valid tree the padded leaves are the stored priorities followed by zeros, with the same sum and, when non-empty, the same maximum |
| PriorityTree.New | relab_cpp/src/agents/memory/priority_tree.cpp:11-30 | the constructed tree is valid, keeps its parameters, stores nothing, has sum() 0 and max() initial_priority, and has the refresh flag set |
| PriorityTree.Clear | relab_cpp/src/agents/memory/priority_tree.cpp:66-72 | clear keeps the parameters, zeroes every slot, stores nothing, sets the refresh flag, and gives sum() 0 and max() initial_priority |
| PriorityTree.SumP | benchmarks_cpp/inc/priority_tree.hpp:67-71 | sum() is the sum of the stored priorities, and 0 when current_id = 0 |
| PriorityTree.MaxP | relab_cpp/src/agents/memory/priority_tree.cpp:59-64 | max() is initial_priority when current_id = 0, otherwise the largest stored priority; it is never negative |
| PriorityTree.Get | relab_cpp/src/agents/memory/priority_tree.cpp:96-98 | for an index naming a stored experience (0 .. size()-1, or -size() .. -1 from the newest), get returns that experience's priority |
| PriorityTree.Write | relab_cpp/src/agents/memory/priority_tree.cpp:100-108 | the write shared by append and set changes only the priority slot and the two trees, and both trees are exact for the new priorities |
| PriorityTree.RefreshIfNeeded | relab_cpp/src/agents/memory/priority_tree.cpp:89-93 | the guarded rebuild keeps the tree valid, changes nothing but the flag, and the flag ends set only if it was set and max() equals initial_priority |
| PriorityTree.Append | relab_cpp/src/agents/memory/priority_tree.cpp:78-94 | append keeps the tree valid and its parameters, writes only slot current_id mod capacity, adds 1 to current_id, and clears the flag once max() differs from initial_priority; the flag never turns back on |
| PriorityTree.Set | relab_cpp/src/agents/memory/priority_tree.cpp:100-115 | set keeps the tree valid and current_id, writes only the stored slot internalIndex(index), and handles the flag as append does |
| PriorityTree.AppendStored | relab_cpp/src/agents/memory/priority_tree.cpp:74-94 | after append, the stored priorities in experience order are the old ones plus the new one at the end, minus the oldest once full; size() grows by one up to capacity |
| PriorityTree.SetThenGet | relab_cpp/src/agents/memory/priority_tree.cpp:96-115 | get(index) right after set(index, p) returns p, and every other stored experience keeps its priority |
| PriorityTree.AppendMaxKeepsMax | benchmarks_cpp/src/data_buffer.cpp:90 | appending the current max() leaves max() unchanged, initial_priority included |
| Tower.ChooseSpec | relab_cpp/src/agents/memory/priority_tree.cpp:159-180 | the child loop picks the leftmost child whose running total reaches p, finds one whenever p is within the children's total, and leaves p minus the total of the skipped children |
| Tower.TowerSampling | relab_cpp/src/agents/memory/priority_tree.cpp:147-152 | on a non-empty tree a priority above sum() yields a stored experience index whose slot is size() - 1, the last occupied slot and rightmost leaf of the descent; this is the newest experience only before the ring wraps or when current_id is a multiple of capacity |
| Tower.SlotBrackets | relab_cpp/src/agents/memory/priority_tree.cpp:154-181 | for 0 < p <= sum(), the descent reaches a stored slot j of positive priority with sum(slots before j) < p <= sum(slots up to j) |
| Tower.TowerSamplingBrackets | relab_cpp/src/agents/memory/priority_tree.cpp:147-185 | for 0 < p <= sum() and a stored slot j, towerSampling(p) is externalIndex(j) if and only if the prefix sums of the priorities bracket p at j |
| Tower.BracketUnique | relab_cpp/src/agents/memory/priority_tree.cpp:172 | over non-negative priorities at most one slot brackets p, so the slot chosen is the leftmost one |
| Tower.TowerSamplingNonPositive | relab_cpp/src/agents/memory/priority_tree.cpp:155-184 | a priority p <= 0 descends along the first children and yields externalIndex(0) |
| Tower.SampleIndices | relab_cpp/src/agents/memory/priority_tree.cpp:133-145 | sampleIndices maps towerSampling over the drawn priorities, one index per draw, in order |
| Tower.SampleIndicesInRange | benchmarks_cpp/inc/priority_tree.hpp:124-136 | on a non-empty tree every sampled index is an experience index in [0, size()) |
| Tower.SampleInRange | relab_cpp/src/agents/memory/priority_tree.cpp:147-185 | on a non-empty tree towerSampling returns an experience index in [0, size()) for every priority |
| Deques.Empty | benchmarks_cpp/src/data_buffer.cpp:8 | a deque built with bound n_steps is empty and keeps that bound |
| Deques.PushFront | benchmarks_cpp/src/data_buffer.cpp:37-39 | push_front puts the element at the front, shifts the rest back by one, and evicts the back element when the bound is reached |
| Deques.PopBack | benchmarks_cpp/src/data_buffer.cpp:47-48 | pop_back removes exactly the back element and keeps the others in order |
| Deques.Clear | benchmarks_cpp/src/data_buffer.cpp:52-54 | clear empties the deque and keeps its bound |
| NStep.NoPending | benchmarks_cpp/src/data_buffer.cpp:8 | the deques after construction are empty, have bound n_steps, and have equal lengths |
| NStep.Pushed | benchmarks_cpp/src/data_buffer.cpp:32-39 | after the return update and the three pushes, the deques still have equal lengths of at most n_steps |
| NStep.Step | relab_cpp/inc/agents/memory/data_buffer.hpp:24-27 | after each append the three pending deques have equal lengths and their bounds are n_steps |
| NStep.Drain | benchmarks_cpp/src/data_buffer.cpp:45-49 | the flush loop emits one datum per pending entry |
| NStep.DrainAt | benchmarks_cpp/src/data_buffer.cpp:45-49 | the j-th datum of the flush, oldest first, is the j-th pending entry from the back, carrying the single done flag the loop passes (past_dones[0]) |
| NStep.StepCount | benchmarks_cpp/src/data_buffer.cpp:42-60 | a non-terminal event emits exactly one datum if the window has reached n_steps and none otherwise; a terminal event emits one datum per pending entry, all flagged done, and empties the deques; pending length stays at most n_steps |
| NStep.ReturnGrows | benchmarks_cpp/src/data_buffer.cpp:32-34 | adding gamma^(j+1) times the new reward to an m-step return gives the (m+1)-step return over the extended episode |
| NStep.PushedWindow | benchmarks_cpp/src/data_buffer.cpp:32-39 | if the deques held the discounted returns of the current episode's last events, after the update and the pushes they hold those of the episode extended by the new event |
| NStep.StepReturns | benchmarks_cpp/src/data_buffer.cpp:56-60 | a non-terminal event extends the window; once n_steps events are pending it emits the oldest pending action with its n_steps-step return and done flag false |
| NStep.FlushReturns | benchmarks_cpp/src/data_buffer.cpp:42-54 | a terminal event emits, oldest first, every pending action with its return up to the end of the episode and the terminal done flag, and leaves an empty window |
| NStep.StepEmits | benchmarks_cpp/src/data_buffer.cpp:27-61 | one append emits exactly the reference data and moves the window to the next episode |
| NStep.Episode | benchmarks_cpp/src/data_buffer.cpp:42-54 | the current episode is a suffix of the events that contains no terminal event, so a terminal event ends it |
| NStep.RunWindow | benchmarks_cpp/src/data_buffer.cpp:27-61 | after any sequence of appends from empty deques, the deques hold the discounted returns of the current episode's last min(length, n_steps) events |
| DataBuffer.New | benchmarks_cpp/src/data_buffer.cpp:7-25 | the constructed buffer is valid, keeps its parameters, stores nothing, has empty pending deques, and owns a tree with max() initial_priority and sum() 0 |
| DataBuffer.Clear | benchmarks_cpp/src/data_buffer.cpp:74-83 | clear yields exactly a freshly constructed buffer with the same capacity, n_steps, gamma, initial priority and n_children, so size() is 0 |
| DataBuffer.AddDatum | benchmarks_cpp/src/data_buffer.cpp:85-92 | addDatum keeps the buffer valid, adds 1 to current_id and keeps the tree's current_id equal to it, and leaves the parameters and pending deques unchanged |
| DataBuffer.AddDatumContents | relab_cpp/inc/agents/memory/data_buffer.hpp:77-83 | the stored data after addDatum(d) are the last capacity entries of the old data followed by d |
| DataBuffer.AddDatumPriority | benchmarks_cpp/src/data_buffer.cpp:90 | the new datum's priority is the pre-call max(), the stored priorities shift exactly as the data do, and max() is unchanged |
| DataBuffer.AddAll | benchmarks_cpp/src/data_buffer.cpp:45-49 | repeated addDatum keeps the buffer valid and advances current_id by the number of data |
| DataBuffer.AddAllContents | benchmarks_cpp/src/data_buffer.cpp:45-49 | adding data one by one leaves the last capacity entries of the old data followed by the new data |
| DataBuffer.AddAllPriorities | benchmarks_cpp/src/data_buffer.cpp:45-49 | adding k data gives each the unchanged max() as its priority |
| DataBuffer.Append | benchmarks_cpp/src/data_buffer.cpp:27-61 | append keeps the buffer valid and its parameters |
| DataBuffer.AppendContents | benchmarks_cpp/src/data_buffer.cpp:27-61 | append adds exactly the n-step reference data to the stored data, each at the unchanged max() priority, and moves the pending window to the next episode |
| DataBuffer.Slot | benchmarks_cpp/src/data_buffer.cpp:63-68 | operator[] maps i to a slot below capacity: always once the ring is full, and before that only for -capacity <= i < capacity, as torch indexing allows |
| DataBuffer.Read | benchmarks_cpp/src/data_buffer.cpp:63-68 | operator[] reads the action, return and done of the slot the index maps to, and fails exactly where the slot is undefined |
| DataBuffer.ReadIndex | benchmarks_cpp/src/data_buffer.cpp:63-66 | the caller's index after operator[]: unchanged before the ring wraps, and once wrapped overwritten by the slot below capacity that the read used |
| DataBuffer.ReadIndexIsSlot | benchmarks_cpp/src/data_buffer.cpp:63-66 | for a stored index i, the index the caller holds afterwards is the tree's internalIndex(i), a slot, and externalIndex maps it back to i |
| DataBuffer.ReadStored | relab_cpp/inc/agents/memory/data_buffer.hpp:59-64 | for 0 <= i < size(), operator[] returns the i-th stored datum, its slot is the tree's internalIndex(i), and the tree's get(i) is that slot's priority |
| DataBuffer.ReadNegative | benchmarks_cpp/src/data_buffer.cpp:63-68 | for -capacity <= i < 0, a full ring reads the datum i + size(); before it is full, the read is slot i + capacity, blank when that slot was never written |
| Checkpoint.SumsRoundTrip | relab_cpp/src/agents/memory/priority_tree.cpp:358-378 | loading depth sum-tree levels reads back exactly the levels saved, and the rest of the stream |
| Checkpoint.SumsLoaded | relab_cpp/src/agents/memory/priority_tree.cpp:358-362 | whatever k levels load successfully are exactly what saving them writes |
| Checkpoint.TreeRoundTrip | relab_cpp/src/agents/memory/priority_tree.cpp:348-380 | load reads every field save writes, in the same order, so save-then-load restores the tree and leaves the rest of the stream |
| Checkpoint.ValidTreeRoundTrip | relab_cpp/src/agents/memory/priority_tree.cpp:348-380 | every valid tree survives save-then-load |
| Checkpoint.TreeLoaded | relab_cpp/src/agents/memory/priority_tree.cpp:348-364 | a stream that loads as a tree is exactly that tree's save followed by the rest |
| Checkpoint.LoadActions | benchmarks_cpp/src/data_buffer.cpp:104 | a stream that loads as the actions deque is that deque's save followed by the rest |
| Checkpoint.LoadRewards | benchmarks_cpp/src/data_buffer.cpp:105 | a stream that loads as the rewards deque is that deque's save followed by the rest |
| Checkpoint.LoadDones | benchmarks_cpp/src/data_buffer.cpp:106 | a stream that loads as the dones deque is that deque's save followed by the rest |
| Checkpoint.LoadPending | benchmarks_cpp/src/data_buffer.cpp:104-106 | a stream that loads as the three deques is their save followed by the rest |
| Checkpoint.PendingRoundTrip | benchmarks_cpp/src/data_buffer.cpp:120-122 | the three deques survive save-then-load |
| Checkpoint.BufferRoundTrip | benchmarks_cpp/src/data_buffer.cpp:98-128 | load reads every field save writes, in the same order, with the tree before current_id, so save-then-load restores the buffer |
| Checkpoint.ValidBufferRoundTrip | benchmarks_cpp/src/data_buffer.cpp:98-128 | every valid buffer survives save-then-load |
| Checkpoint.BufferLoaded | benchmarks_cpp/src/data_buffer.cpp:98-112 | a stream that loads as a buffer is exactly that buffer's save followed by the rest |

## Left out

- Floating point is not modelled. float, double and long double become exact `real`s, so the model says nothing about:
  - rounding in the sums;
  - the precision motive of the full sum-tree rebuild;
  - the `priority > sum()` fallback's rationale;
  - the child loop of towerSampling matching no child, which only rounding can cause.
- The depth is computed from std::log and std::pow. The model uses the least d with n_children^d >= capacity. The correction step on lines 20-22 makes the code compute that same value.
- int overflow of current_id and of the index arithmetic is not modelled. Indices are unbounded integers.
- Torch tensors and the device field become sequences. The device is neither modelled nor saved.
- The random draws of sampleIndices are left out. `Tower.SampleIndices` takes the drawn priorities as a parameter.
- The byte encoding of helpers/serialize.hpp is not part of this model. A checkpoint is a sequence of typed fields, and only the field order is modelled.
- helpers/deque.hpp is not part of this model. Two behaviours of the deque are assumptions:
  - push_front on a full deque evicts the back element;
  - a deque saves its bound followed by its items.
- print, toString, maxTreeToStr, sumTreeToStr and getPriorities are left out. They are display code and an accessor with no logic.
- `length()` and the long double sum-tree declared in benchmarks_cpp/inc/priority_tree.hpp are not modelled. The model follows relab_cpp/src/agents/memory/priority_tree.cpp, which has `size()` and a double sum-tree.
- PriorityTree.New: requires capacity >= 2, n_children >= 2 and initial_priority >= 0. The code has no checks, but capacity 1 gives depth 0 and empty trees, which sum() and max() would index out of bounds.
- PriorityTree.Append: requires a non-negative priority. The max-tree walk compares every ancestor with the leaf's old priority, which is sound only over non-negative priorities.
- PriorityTree.Set: requires a non-negative priority, for the same reason as PriorityTree.Append.
- PriorityTree.Set: requires the index to name a stored experience (-size() <= index < size()). The code writes any slot internalIndex gives. Before the ring is full that can be a slot beyond size(), which would enter the sum-tree without being stored.
- PriorityTree.Get: states the result only for an index naming a stored experience. For other indices it reads the slot internalIndex gives, as the code does, but no contract describes it.
- DataBuffer.New: requires n_steps >= 1. With n_steps = 0 the deques have bound 0, and the full-window branch would read the back of an empty deque.
- DataBuffer.Read: operator[] takes the index tensor by reference and, once the ring has wrapped, overwrites it with the slots it reads. A pure function cannot write its argument, so Read returns only the data; the overwritten index is `DataBuffer.ReadIndex`, which a caller threads through explicitly.
- Checkpoint.LoadTree: a negative count, and an int or bool field where the other type is stored, are rejected. In the code, load_value reinterprets the bytes instead.
