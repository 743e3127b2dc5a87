/** The n-step fold of the data buffer's append.

    Each event (action, reward, done) is pushed onto three pending deques of bound n_steps.
    Before the push, every pending return gains the new reward discounted by its distance.
    A non-terminal event emits the oldest pending action and return once the window is full.
    A terminal event flushes every pending entry, oldest first, and empties the deques.

    Rewards and the discount are exact reals; std::pow is modelled by Power. */
module NStep {

  import opened Deques

  /** One call of append: the experience's action, reward and done flag. */
  datatype Event = Event(action: int, reward: real, done: bool)

  /** What addDatum stores: the action at time t, its n-step return, and a done flag. */
  datatype Datum = Datum(action: int, ret: real, done: bool)

  /** The three pending deques past_actions, past_rewards and past_dones. */
  datatype Pending = Pending(actions: Deque<int>, rewards: Deque<real>, dones: Deque<bool>)

  /** gamma^k on exact reals. */
  function Power(g: real, k: nat): real
  {
    if k == 0 then 1.0 else Power(g, k - 1) * g
  }

  /** The reference return: the sum over k < m of gamma^k times the reward of event t + k. */
  function Return(h: seq<Event>, gamma: real, t: nat, m: nat): real
    requires t + m <= |h|
  {
    if m == 0 then 0.0 else Return(h, gamma, t, m - 1) + Power(gamma, m - 1) * h[t + m - 1].reward
  }

  /** The deques have the bound they were built with and move in lockstep. */
  predicate WellFormed(p: Pending, nSteps: nat)
  {
    && p.actions.bound == nSteps && p.rewards.bound == nSteps && p.dones.bound == nSteps
    && |p.actions.items| == |p.rewards.items| == |p.dones.items| <= nSteps
  }

  /** The pending deques right after construction or clear. */
  function NoPending(nSteps: nat): (p: Pending)
    ensures WellFormed(p, nSteps) && |p.rewards.items| == 0
  {
    Pending(Empty(nSteps), Empty(nSteps), Empty(nSteps))
  }

  /** The three clear() calls. */
  function ClearPending(p: Pending): Pending
  {
    Pending(Clear(p.actions), Clear(p.rewards), Clear(p.dones))
  }

  /** The loop before the pushes: the i-th pending return from the front gains
      gamma^(i+1) times the new reward. */
  function Accumulate(rs: seq<real>, gamma: real, reward: real): seq<real>
  {
    seq(|rs|, i requires 0 <= i < |rs| => rs[i] + Power(gamma, i + 1) * reward)
  }

  /** The flush loop: emit the back action and return with the done flag at the front of
      the done deque, pop both, until no return is left. The done deque is not popped, so
      every iteration reads the same flag, which is passed here as `done`. */
  function Drain(actions: Deque<int>, rewards: Deque<real>, done: bool): (out: seq<Datum>)
    requires |actions.items| == |rewards.items|
    ensures |out| == |rewards.items|
    decreases |rewards.items|
  {
    if Size(rewards) == 0 then []
    else [Datum(Back(actions), Back(rewards), done)] + Drain(PopBack(actions), PopBack(rewards), done)
  }

  /** The pending deques after the pushes of append, before anything is emitted. */
  function Pushed(p: Pending, nSteps: nat, gamma: real, e: Event): (q: Pending)
    requires WellFormed(p, nSteps)
    ensures WellFormed(q, nSteps)
  {
    var rewards := p.rewards.(items := Accumulate(p.rewards.items, gamma, e.reward));
    Pending(PushFront(p.actions, e.action), PushFront(rewards, e.reward), PushFront(p.dones, e.done))
  }

  /** append's deque part: the new pending deques and the data handed to addDatum, in
      call order. */
  function Step(p: Pending, nSteps: nat, gamma: real, e: Event): (r: (Pending, seq<Datum>))
    requires nSteps >= 1
    requires WellFormed(p, nSteps)
    ensures WellFormed(r.0, nSteps)
  {
    var q := Pushed(p, nSteps, gamma, e);
    if e.done then
      (ClearPending(q), Drain(q.actions, q.rewards, At(q.dones, 0)))
    else if Size(q.rewards) == nSteps then
      (q, [Datum(Back(q.actions), Back(q.rewards), At(q.dones, 0))])
    else
      (q, [])
  }

  // ---------------------------------------------------------------- the flush

  /** The j-th datum of the flush is the j-th oldest pending entry. */
  lemma {:induction false} DrainAt(actions: Deque<int>, rewards: Deque<real>, done: bool, j: nat)
    requires |actions.items| == |rewards.items|
    requires j < |rewards.items|
    ensures var back := |rewards.items| - 1 - j;
      Drain(actions, rewards, done)[j] == Datum(actions.items[back], rewards.items[back], done)
    decreases j
  {
    var a', r' := PopBack(actions), PopBack(rewards);
    assert Drain(actions, rewards, done) == [Datum(Back(actions), Back(rewards), done)] + Drain(a', r', done);
    if j > 0 {
      DrainAt(a', r', done, j - 1);
      var back := |rewards.items| - 1 - j;
      assert |r'.items| - 1 - (j - 1) == back;
      assert Drain(actions, rewards, done)[j] == Drain(a', r', done)[j - 1];
    } else {
      assert |rewards.items| - 1 - j == |actions.items| - 1;
    }
  }

  // ---------------------------------------------------------------- counts

  /** How many data one event emits: a non-terminal event emits one datum exactly when the
      window reaches n_steps, a terminal one flushes everything pending, and the deques are
      empty after a terminal event. The pending length never exceeds n_steps. */
  lemma StepCount(p: Pending, nSteps: nat, gamma: real, e: Event)
    requires nSteps >= 1
    requires WellFormed(p, nSteps)
    ensures var (p', out) := Step(p, nSteps, gamma, e);
      var full := |p.rewards.items| + 1 >= nSteps;
      && |p'.rewards.items| <= nSteps
      && (!e.done ==> (|out| == 1 <==> full) && (|out| == 0 <==> !full))
      && (!e.done ==> |p'.rewards.items| == if full then nSteps else |p.rewards.items| + 1)
      && (e.done ==> |out| == (if full then nSteps else |p.rewards.items| + 1))
      && (e.done ==> |p'.actions.items| == 0 && |p'.rewards.items| == 0 && |p'.dones.items| == 0)
      && (e.done ==> forall j :: 0 <= j < |out| ==> out[j].done)
  {
    var q := Pushed(p, nSteps, gamma, e);
    if e.done {
      var out := Drain(q.actions, q.rewards, At(q.dones, 0));
      forall j | 0 <= j < |out|
        ensures out[j].done
      {
        DrainAt(q.actions, q.rewards, At(q.dones, 0), j);
      }
    }
  }

  // ---------------------------------------------------------------- returns

  /** The window over the current episode h (the events since the last flush, oldest first):
      it holds the last min(|h|, n_steps) events, newest at the front, and the entry i places
      from the front holds the return of its event over the i + 1 events up to now. */
  predicate Window(p: Pending, h: seq<Event>, nSteps: nat, gamma: real)
  {
    && WellFormed(p, nSteps)
    && |p.rewards.items| == (if |h| < nSteps then |h| else nSteps)
    && forall i :: 0 <= i < |p.rewards.items| ==>
         && p.actions.items[i] == h[|h| - 1 - i].action
         && p.rewards.items[i] == Return(h, gamma, |h| - 1 - i, i + 1)
         && p.dones.items[i] == h[|h| - 1 - i].done
  }

  /** Returns over events of h do not change when h grows. */
  lemma {:induction false} ReturnExtend(h: seq<Event>, e: Event, gamma: real, t: nat, m: nat)
    requires t + m <= |h|
    ensures Return(h + [e], gamma, t, m) == Return(h, gamma, t, m)
  {
    if m > 0 {
      ReturnExtend(h, e, gamma, t, m - 1);
      assert (h + [e])[t + m - 1] == h[t + m - 1];
    }
  }

  /** One accumulated entry: the return of event t over the j + 1 events up to now, plus the
      discounted new reward, is its return over j + 2 events. */
  lemma ReturnGrows(h: seq<Event>, e: Event, gamma: real, j: nat)
    requires j < |h|
    ensures Return(h, gamma, |h| - 1 - j, j + 1) + Power(gamma, j + 1) * e.reward
         == Return(h + [e], gamma, |h| - 1 - j, j + 1 + 1)
  {
    ReturnExtend(h, e, gamma, |h| - 1 - j, j + 1);
    assert (h + [e])[|h| - 1 - j + (j + 1 + 1) - 1] == e;
  }

  /** The new event lands at the front of the pushed window, with its one-step return. */
  lemma PushedNewest(p: Pending, h: seq<Event>, nSteps: nat, gamma: real, e: Event)
    requires nSteps >= 1
    requires WellFormed(p, nSteps)
    ensures var q, h' := Pushed(p, nSteps, gamma, e), h + [e];
      && |q.rewards.items| > 0
      && q.actions.items[0] == h'[|h'| - 1].action
      && q.rewards.items[0] == Return(h', gamma, |h'| - 1, 0 + 1)
      && q.dones.items[0] == h'[|h'| - 1].done
  {
    var h' := h + [e];
    assert h'[|h'| - 1] == e;
    assert Return(h', gamma, |h'| - 1, 1) == Power(gamma, 0) * e.reward;
  }

  /** Pushing moves the pending return j to position j + 1 and adds the discounted reward. */
  lemma PushedReward(p: Pending, nSteps: nat, gamma: real, e: Event, j: nat)
    requires WellFormed(p, nSteps)
    requires j + 1 < |Pushed(p, nSteps, gamma, e).rewards.items|
    ensures j < |p.rewards.items|
    ensures Pushed(p, nSteps, gamma, e).rewards.items[j + 1] == p.rewards.items[j] + Power(gamma, j + 1) * e.reward
  {
  }

  /** The entry j of the window moves to position j + 1, its return grown by the new reward. */
  lemma PushedOlder(p: Pending, h: seq<Event>, nSteps: nat, gamma: real, e: Event, j: nat)
    requires nSteps >= 1
    requires WellFormed(p, nSteps)
    requires j + 1 < |Pushed(p, nSteps, gamma, e).rewards.items|
    requires j < |h|
    requires p.actions.items[j] == h[|h| - 1 - j].action
    requires p.rewards.items[j] == Return(h, gamma, |h| - 1 - j, j + 1)
    requires p.dones.items[j] == h[|h| - 1 - j].done
    ensures var q, h' := Pushed(p, nSteps, gamma, e), h + [e];
      && q.actions.items[j + 1] == h'[|h'| - 1 - (j + 1)].action
      && q.rewards.items[j + 1] == Return(h', gamma, |h'| - 1 - (j + 1), j + 1 + 1)
      && q.dones.items[j + 1] == h'[|h'| - 1 - (j + 1)].done
  {
    var q, h' := Pushed(p, nSteps, gamma, e), h + [e];
    var t := |h| - 1 - j;
    assert |h'| - 1 - (j + 1) == t && h'[t] == h[t];
    PushedReward(p, nSteps, gamma, e, j);
    ReturnGrows(h, e, gamma, j);
  }

  /** The entry that lands at position i of the pushed window. */
  lemma PushedEntry(p: Pending, h: seq<Event>, nSteps: nat, gamma: real, e: Event, i: nat)
    requires nSteps >= 1
    requires Window(p, h, nSteps, gamma)
    requires i < |Pushed(p, nSteps, gamma, e).rewards.items|
    ensures var q, h' := Pushed(p, nSteps, gamma, e), h + [e];
      && q.actions.items[i] == h'[|h'| - 1 - i].action
      && q.rewards.items[i] == Return(h', gamma, |h'| - 1 - i, i + 1)
      && q.dones.items[i] == h'[|h'| - 1 - i].done
  {
    if i == 0 {
      PushedNewest(p, h, nSteps, gamma, e);
    } else {
      PushedOlder(p, h, nSteps, gamma, e, i - 1);
    }
  }

  /** The pushes move the window to the episode extended by the new event. */
  lemma PushedWindow(p: Pending, h: seq<Event>, nSteps: nat, gamma: real, e: Event)
    requires nSteps >= 1
    requires Window(p, h, nSteps, gamma)
    ensures Window(Pushed(p, nSteps, gamma, e), h + [e], nSteps, gamma)
  {
    var q := Pushed(p, nSteps, gamma, e);
    forall i | 0 <= i < |q.rewards.items|
      ensures && q.actions.items[i] == (h + [e])[|h + [e]| - 1 - i].action
              && q.rewards.items[i] == Return(h + [e], gamma, |h + [e]| - 1 - i, i + 1)
              && q.dones.items[i] == (h + [e])[|h + [e]| - 1 - i].done
    {
      PushedEntry(p, h, nSteps, gamma, e, i);
    }
  }

  /** The j-th of the last n events of the ended episode h, with its return up to the end. */
  function FlushDatum(h: seq<Event>, gamma: real, n: nat, j: nat): Datum
    requires j < n <= |h|
  {
    Datum(h[|h| - n + j].action, Return(h, gamma, |h| - n + j, n - j), true)
  }

  /** The reference for what append hands to addDatum after the episode h saw event e: on a
      terminal event, every event of the last min(|h| + 1, n_steps) with its return up to the
      end and the done flag set; otherwise, once n_steps events are pending, the oldest of them
      with its n_steps-step return. */
  function Emitted(h: seq<Event>, nSteps: nat, gamma: real, e: Event): seq<Datum>
    requires nSteps >= 1
  {
    var h' := h + [e];
    var n := if |h'| < nSteps then |h'| else nSteps;
    if e.done then
      seq(n, j requires 0 <= j < n => FlushDatum(h', gamma, n, j))
    else if |h'| >= nSteps then
      [Datum(h'[|h'| - nSteps].action, Return(h', gamma, |h'| - nSteps, nSteps), false)]
    else
      []
  }

  /** The episode after e: empty once e ends it, h extended by e otherwise. */
  function NextEpisode(h: seq<Event>, e: Event): seq<Event>
  {
    if e.done then [] else h + [e]
  }

  /** A non-terminal event keeps the window and, once n_steps events are pending, emits the
      action of the oldest of them with its n_steps-step return. */
  lemma StepReturns(p: Pending, h: seq<Event>, nSteps: nat, gamma: real, e: Event)
    requires nSteps >= 1
    requires Window(p, h, nSteps, gamma)
    requires !e.done
    ensures Window(Step(p, nSteps, gamma, e).0, h + [e], nSteps, gamma)
    ensures Step(p, nSteps, gamma, e).1 == Emitted(h, nSteps, gamma, e)
  {
    PushedWindow(p, h, nSteps, gamma, e);
  }

  /** The j-th datum of a flush, counted from the oldest pending entry. */
  lemma FlushEntry(q: Pending, h: seq<Event>, nSteps: nat, gamma: real, j: nat)
    requires Window(q, h, nSteps, gamma)
    requires 0 < |h| && h[|h| - 1].done
    requires j < |q.rewards.items|
    ensures |q.rewards.items| <= |h|
    ensures |Drain(q.actions, q.rewards, At(q.dones, 0))| == |q.rewards.items|
    ensures Drain(q.actions, q.rewards, At(q.dones, 0))[j] == FlushDatum(h, gamma, |q.rewards.items|, j)
  {
    var n := |q.rewards.items|;
    DrainAt(q.actions, q.rewards, At(q.dones, 0), j);
    var i := n - 1 - j;
    assert |h| - 1 - i == |h| - n + j && i + 1 == n - j;
    assert q.dones.items[0] == h[|h| - 1].done;
  }

  /** A terminal event emits, oldest first, every event still pending, each with its return
      up to the end of the episode and the terminal done flag, and leaves an empty window. */
  lemma FlushReturns(p: Pending, h: seq<Event>, nSteps: nat, gamma: real, e: Event)
    requires nSteps >= 1
    requires Window(p, h, nSteps, gamma)
    requires e.done
    ensures Window(Step(p, nSteps, gamma, e).0, [], nSteps, gamma)
    ensures Step(p, nSteps, gamma, e).1 == Emitted(h, nSteps, gamma, e)
  {
    var q := Pushed(p, nSteps, gamma, e);
    var h' := h + [e];
    PushedWindow(p, h, nSteps, gamma, e);
    assert h'[|h'| - 1] == e;
    var out := Drain(q.actions, q.rewards, At(q.dones, 0));
    var ref := Emitted(h, nSteps, gamma, e);
    var n := |q.rewards.items|;
    assert n == if |h'| < nSteps then |h'| else nSteps;
    assert |out| == n == |ref|;
    forall j | 0 <= j < n
      ensures out[j] == ref[j]
    {
      FlushEntry(q, h', nSteps, gamma, j);
      assert out[j] == FlushDatum(h', gamma, n, j);
    }
    assert out == ref;
  }

  /** append's deque part emits exactly the reference data and moves the window to the next
      episode. */
  lemma StepEmits(p: Pending, h: seq<Event>, nSteps: nat, gamma: real, e: Event)
    requires nSteps >= 1
    requires Window(p, h, nSteps, gamma)
    ensures Window(Step(p, nSteps, gamma, e).0, NextEpisode(h, e), nSteps, gamma)
    ensures Step(p, nSteps, gamma, e).1 == Emitted(h, nSteps, gamma, e)
  {
    if e.done {
      FlushReturns(p, h, nSteps, gamma, e);
    } else {
      StepReturns(p, h, nSteps, gamma, e);
    }
  }

  // ---------------------------------------------------------------- whole episodes

  /** The events since the last terminal one, oldest first. */
  function Episode(es: seq<Event>): (h: seq<Event>)
    ensures |h| <= |es|
    ensures forall i :: 0 <= i < |h| ==> !h[i].done
    ensures forall i :: 0 <= i < |h| ==> h[i] == es[|es| - |h| + i]
  {
    if |es| == 0 then [] else NextEpisode(Episode(es[..|es| - 1]), es[|es| - 1])
  }

  /** append applied to every event in turn, from the given deques; the emitted data are
      concatenated in call order. */
  function Run(p: Pending, nSteps: nat, gamma: real, es: seq<Event>): (r: (Pending, seq<Datum>))
    requires nSteps >= 1
    requires WellFormed(p, nSteps)
    ensures WellFormed(r.0, nSteps)
  {
    if |es| == 0 then (p, [])
    else
      var r0 := Run(p, nSteps, gamma, es[..|es| - 1]);
      var r1 := Step(r0.0, nSteps, gamma, es[|es| - 1]);
      (r1.0, r0.1 + r1.1)
  }

  /** From fresh deques, after any sequence of events, the deques hold the window of the
      current episode. */
  lemma {:induction false} RunWindow(nSteps: nat, gamma: real, es: seq<Event>)
    requires nSteps >= 1
    ensures Window(Run(NoPending(nSteps), nSteps, gamma, es).0, Episode(es), nSteps, gamma)
  {
    if |es| > 0 {
      var init, e := es[..|es| - 1], es[|es| - 1];
      RunWindow(nSteps, gamma, init);
      StepEmits(Run(NoPending(nSteps), nSteps, gamma, init).0, Episode(init), nSteps, gamma, e);
    }
  }
}
