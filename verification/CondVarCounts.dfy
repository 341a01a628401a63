/** Every wake-up issued ends exactly one wait: waits begun and ended and wake-ups issued, counted over whole runs. */
module CondVarCounts {
  import opened Sums
  import opened Wrappers
  import opened CondVar
  import opened CondVarTheorems
  import opened CondVarTokens

  /** A sum over the steps of a run. */
  ghost function Total(r: seq<State>, f: (State, State) -> int): int {
    if |r| <= 1 then 0 else Total(r[..|r| - 1], f) + f(r[|r| - 2], r[|r| - 1])
  }

  /** Some thread becomes a waiter. */
  ghost predicate Enters(s: State, s': State) {
    exists t: nat :: t < |s.pcs| && t < |s'.pcs| && !Waiting(s.pcs[t]) && Waiting(s'.pcs[t])
  }

  /** Some waiter retracts. */
  ghost predicate Leaves(s: State, s': State) {
    exists t: nat :: t < |s.pcs| && t < |s'.pcs| && Waiting(s.pcs[t]) && !Waiting(s'.pcs[t])
  }

  /** Some signaller decides to issue wake-ups. */
  ghost predicate Decides(s: State, t: nat, s': State) {
    t < |s.pcs| && t < |s'.pcs| && !s.pcs[t].SigUnlock? && s'.pcs[t].SigUnlock?
  }

  ghost function Entered(r: seq<State>): int { Total(r, (s, s') => if Enters(s, s') then 1 else 0) }

  ghost function Ended(r: seq<State>): int { Total(r, (s, s') => if Leaves(s, s') then 1 else 0) }

  /** The waits that ended while wake-ups were pending, and so took one of them. */
  ghost function Collected(r: seq<State>): int {
    Total(r, (s: State, s': State) => if Leaves(s, s') && s.toUnblock > 0 then 1 else 0)
  }

  ghost function IssuedBy(s: State, s': State): int {
    if t: nat :| Decides(s, t, s') then s'.pcs[t].issue else 0
  }

  ghost function Issued(r: seq<State>): int { Total(r, (s, s') => IssuedBy(s, s')) }

  // ----- one step -----

  /** What thread t does in a step: whether it enters, leaves, and how many wake-ups it issues. */
  ghost predicate Counts(s: State, t: nat, s': State)
    requires t < |s.pcs|
  {
    && |s'.pcs| == |s.pcs| && s'.pcs == s.pcs[t := s'.pcs[t]]
    && s'.toUnblock ==
       s.toUnblock
       + (if !s.pcs[t].SigUnlock? && s'.pcs[t].SigUnlock? then s'.pcs[t].issue else 0)
       - (if Waiting(s.pcs[t]) && !Waiting(s'.pcs[t]) && s.toUnblock > 0 then 1 else 0)
  }

  lemma EnterCounts(s: State, t: nat, s': State)
    requires t < |s.pcs| && EnterStep(s, t) == Some(s')
    ensures Counts(s, t, s')
  {
  }

  lemma LeaveCounts(s: State, t: nat, s': State)
    requires t < |s.pcs| && s.toUnblock >= 0 && LeaveStep(s, t) == Some(s')
    ensures Counts(s, t, s')
  {
  }

  lemma OtherCounts(s: State, t: nat, s': State)
    requires t < |s.pcs| && (FoldStep(s, t) == Some(s') || DestroyStep(s, t) == Some(s'))
    ensures Counts(s, t, s')
  {
  }

  lemma SignalCounts(s: State, t: nat, k: int, s': State)
    requires t < |s.pcs| && LocalInv(s, s.pcs[t]) && SignalStep(s, t, k) == Some(s')
    ensures Counts(s, t, s')
  {
  }

  lemma CallCounts(s: State, t: nat, c: Choice, s': State)
    requires t < |s.pcs| && External(s, t, c) == Some(s')
    ensures Counts(s, t, s')
  {
  }

  lemma NextCounts(s: State, t: nat, c: Choice, s': State)
    requires Inv(s) && t < |s.pcs| && Next(s, t, c) == Some(s')
    ensures Counts(s, t, s')
  {
    hide EnterStep, LeaveStep, FoldStep, SignalStep, DestroyStep, External, Counts;
    var pc := s.pcs[t];
    assert LocalInv(s, pc);
    if !c.Go? {
      CallCounts(s, t, c, s');
    } else if Entering(pc) {
      EnterCounts(s, t, s');
    } else if Folding(pc) || Destroying(pc) {
      OtherCounts(s, t, s');
    } else if Leaving(pc) {
      LeaveCounts(s, t, s');
    } else {
      SignalCounts(s, t, c.k, s');
    }
  }

  lemma StepCounts(s: State, s': State)
    requires Inv(s) && Step(s, s')
    ensures Waiters(s') == Waiters(s) + (if Enters(s, s') then 1 else 0) - (if Leaves(s, s') then 1 else 0)
    ensures s'.toUnblock == s.toUnblock + IssuedBy(s, s') - (if Leaves(s, s') && s.toUnblock > 0 then 1 else 0)
  {
    hide Next, Inv;
    var t: nat, c :| t < |s.pcs| && Next(s, t, c) == Some(s');
    NextCounts(s, t, c, s');
    Moves(s, t, s'.pcs[t]);
    assert forall u: nat :: u < |s.pcs| && u != t ==> s'.pcs[u] == s.pcs[u];
    assert Enters(s, s') <==> !Waiting(s.pcs[t]) && Waiting(s'.pcs[t]);
    assert Leaves(s, s') <==> Waiting(s.pcs[t]) && !Waiting(s'.pcs[t]);
    assert forall u: nat :: Decides(s, u, s') ==> u == t;
    assert IssuedBy(s, s') == if Decides(s, t, s') then s'.pcs[t].issue else 0;
  }

  // ----- whole runs -----

  /** The counters over every run, time-outs included: the waiters are the waits begun and not ended, and what is
      still to be unblocked is what was issued and not collected. */
  lemma {:induction false} RunCounts(r: seq<State>)
    requires Run(r)
    ensures Waiters(r[|r| - 1]) == Entered(r) - Ended(r)
    ensures r[|r| - 1].toUnblock == Issued(r) - Collected(r)
    decreases |r|
  {
    if |r| == 1 {
      SumZero(r[0].pcs, WaitWeight);
    } else {
      var front := r[..|r| - 1];
      forall i | 0 <= i < |front| - 1
        ensures Step(front[i], front[i + 1])
      {
        assert Step(r[i], r[i + 1]);
      }
      RunCounts(front);
      Safety(r, |r| - 2);
      assert Step(r[|r| - 2], r[|r| - 2 + 1]);
      StepCounts(r[|r| - 2], r[|r| - 1]);
    }
  }

  /** In every run that comes to rest: every wake-up issued has ended exactly one wait, and the waits that go on are
      those begun, less those, less the ones that timed out or were cancelled while nothing was pending. */
  lemma WakesEndWaits(r: seq<State>)
    requires Run(r) && !CanMove(r[|r| - 1]) && !r[|r| - 1].freed
    ensures Issued(r) == Collected(r)
    ensures Waiters(r[|r| - 1]) == Entered(r) - Issued(r) - (Ended(r) - Collected(r))
    ensures WaitersBlocked(r[|r| - 1])
  {
    hide Run, CanMove, Waiters, Entered, Ended, Issued, Collected;
    RunNotEmpty(r);
    Safety(r, |r| - 1);
    QuietExactly(r[|r| - 1]);
    RunCounts(r);
    RestersBlocked(r[|r| - 1]);
  }

  /** Every waiter is on the queue. */
  predicate WaitersBlocked(s: State) {
    forall t: nat :: t < |s.pcs| && Waiting(s.pcs[t]) ==> s.pcs[t].Blocked?
  }

  lemma RestersBlocked(s: State)
    requires forall t: nat :: t < |s.pcs| ==> AtRest(s.pcs[t])
    ensures WaitersBlocked(s)
  {
    forall t: nat | t < |s.pcs| && Waiting(s.pcs[t])
      ensures s.pcs[t].Blocked?
    {
      assert AtRest(s.pcs[t]);
    }
  }

  lemma PromptLeaves(s: State, s': State)
    requires Inv(s) && Exact(s) && PromptStep(s, s') && Leaves(s, s')
    ensures s.toUnblock > 0
  {
    hide Inv, Exact;
    var t: nat, c :| t < |s.pcs| && c != TimeOut && Next(s, t, c) == Some(s');
    hide Next;
    NextCounts(s, t, c, s');
    assert Waiting(s.pcs[t]) && !Waiting(s'.pcs[t]);
    OnlyCleaningLeaves(s, t, c, s');
    WokenIsPending(s, t);
  }

  lemma OnlyCleaningLeaves(s: State, t: nat, c: Choice, s': State)
    requires t < |s.pcs| && Next(s, t, c) == Some(s') && |s'.pcs| == |s.pcs|
    requires Waiting(s.pcs[t]) && !Waiting(s'.pcs[t])
    ensures s.pcs[t].Cleaning?
  {
  }

  lemma PromptIsRun(r: seq<State>)
    requires PromptRun(r)
    ensures Run(r)
  {
    forall i | 0 <= i < |r| - 1
      ensures Step(r[i], r[i + 1])
    {
      assert PromptStep(r[i], r[i + 1]);
    }
  }

  lemma PromptFront(r: seq<State>)
    requires PromptRun(r) && |r| > 1
    ensures PromptRun(r[..|r| - 1]) && PromptStep(r[|r| - 2], r[|r| - 1])
  {
    var front := r[..|r| - 1];
    forall i | 0 <= i < |front| - 1
      ensures PromptStep(front[i], front[i + 1])
    {
      assert PromptStep(r[i], r[i + 1]);
    }
    assert PromptStep(r[|r| - 2], r[|r| - 2 + 1]);
  }

  /** Without time-outs no wait ends but by a wake-up. */
  lemma {:induction false} AllCollected(r: seq<State>)
    requires PromptRun(r)
    ensures Ended(r) == Collected(r)
    decreases |r|
  {
    hide PromptRun, PromptStep, Leaves, Inv, Exact;
    if |r| > 1 {
      PromptFront(r);
      AllCollected(r[..|r| - 1]);
      PromptInv(r, |r| - 2);
      if Leaves(r[|r| - 2], r[|r| - 1]) {
        PromptLeaves(r[|r| - 2], r[|r| - 1]);
      }
    }
  }

  /** Without time-outs, when things come to rest: as many waits have ended as wake-ups were issued, and all the
      others go on, on the queue. */
  lemma PromptWakes(r: seq<State>)
    requires PromptRun(r) && !CanMove(r[|r| - 1]) && !r[|r| - 1].freed
    ensures Ended(r) == Issued(r) && Waiters(r[|r| - 1]) == Entered(r) - Issued(r)
    ensures WaitersBlocked(r[|r| - 1])
  {
    PromptIsRun(r);
    AllCollected(r);
    WakesEndWaits(r);
  }
}
