/**
 * Wake-up tokens: how many tokens and posts owed there are beyond the wake-ups still to be collected. Only a
 * time-out or cancellation that collects a wake-up without its token leaves one over.
 */
module CondVarTokens {
  import opened Sums
  import opened Wrappers
  import opened CondVar
  import opened CondVarTheorems

  ghost function Spare(s: State): int { s.queue + Sum(s.pcs, WakeWeight) - s.toUnblock }

  /** What a step leaves over: a waiter without a token that collects a wake-up leaves one, a waiter with a
      token that finds no wake-up pending uses one up. */
  function Shift(s: State, t: nat, c: Choice): int
    requires t < |s.pcs|
  {
    if !c.Go? || !s.pcs[t].Cleaning? then 0
    else if s.pcs[t].token then if s.toUnblock == 0 then -1 else 0
    else if s.toUnblock == 0 then 0 else 1
  }

  predicate Shifts(s: State, t: nat, s': State, d: int)
    requires t < |s.pcs|
  {
    && s'.pcs == s.pcs[t := (if |s'.pcs| == |s.pcs| then s'.pcs[t] else Idle)] && |s'.pcs| == |s.pcs|
    && s'.queue - s'.toUnblock + WakeWeight(s'.pcs[t]) == s.queue - s.toUnblock + WakeWeight(s.pcs[t]) + d
  }

  lemma SignalShifts(s: State, t: nat, k: int, s': State)
    requires t < |s.pcs| && LocalInv(s, s.pcs[t]) && SignalStep(s, t, k) == Some(s')
    ensures Shifts(s, t, s', 0)
  {
  }

  lemma LeaveShifts(s: State, t: nat, s': State)
    requires t < |s.pcs| && LeaveStep(s, t) == Some(s')
    ensures Shifts(s, t, s', Shift(s, t, Go(0)))
  {
  }

  lemma OtherShifts(s: State, t: nat, s': State)
    requires t < |s.pcs| && (EnterStep(s, t) == Some(s') || FoldStep(s, t) == Some(s') || DestroyStep(s, t) == Some(s'))
    ensures Shifts(s, t, s', 0)
  {
  }

  lemma CallShifts(s: State, t: nat, c: Choice, s': State)
    requires t < |s.pcs| && External(s, t, c) == Some(s')
    ensures Shifts(s, t, s', 0)
  {
  }

  /** The exact law of every step, time-outs included. */
  lemma SpareMoves(s: State, t: nat, c: Choice, s': State)
    requires Inv(s) && t < |s.pcs| && Next(s, t, c) == Some(s')
    ensures Spare(s') == Spare(s) + Shift(s, t, c)
    ensures Shifts(s, t, s', Shift(s, t, c))
  {
    var pc := s.pcs[t];
    assert LocalInv(s, pc);
    if !c.Go? {
      CallShifts(s, t, c, s');
    } else if Entering(pc) || Folding(pc) || Destroying(pc) {
      OtherShifts(s, t, s');
    } else if Leaving(pc) {
      LeaveShifts(s, t, s');
    } else {
      SignalShifts(s, t, c.k, s');
    }
    SumUpdate(s.pcs, t, s'.pcs[t], WakeWeight);
  }

  // ----- without time-outs -----

  predicate Tokenless(pc: Pc) { (pc.Woken? || pc.Cleaning?) && !pc.token }

  /** Every wake-up has its token or its owed post, and nobody left the queue without one. */
  ghost predicate Exact(s: State) {
    Spare(s) == 0 && forall t: nat :: t < |s.pcs| ==> !Tokenless(s.pcs[t])
  }

  lemma OneWake(s: State, t: nat)
    requires Inv(s) && t < |s.pcs|
    ensures 0 <= WakeWeight(s.pcs[t]) <= Sum(s.pcs, WakeWeight)
  {
    forall u: nat | u < |s.pcs|
      ensures WakeWeight(s.pcs[u]) >= 0
    {
      assert LocalInv(s, s.pcs[u]);
    }
    SumPair(s.pcs, WakeWeight, t, t);
  }

  lemma WokenIsPending(s: State, t: nat)
    requires Inv(s) && Exact(s) && t < |s.pcs| && (s.pcs[t].Woken? || s.pcs[t].Cleaning?)
    ensures s.toUnblock > 0
  {
    OneWake(s, t);
    assert !Tokenless(s.pcs[t]);
  }

  lemma NobodyTokenless(s: State, t: nat, c: Choice, s': State)
    requires t < |s.pcs| && Next(s, t, c) == Some(s') && c != TimeOut && !Tokenless(s.pcs[t])
    ensures |s'.pcs| == |s.pcs| ==> !Tokenless(s'.pcs[t])
  {
  }

  lemma ExactStep(s: State, t: nat, c: Choice, s': State)
    requires Inv(s) && Exact(s) && t < |s.pcs| && Next(s, t, c) == Some(s') && c != TimeOut
    ensures Exact(s')
  {
    SpareMoves(s, t, c, s');
    NobodyTokenless(s, t, c, s');
    if s.pcs[t].Cleaning? {
      WokenIsPending(s, t);
    }
  }

  ghost predicate PromptStep(s: State, s': State) {
    exists t: nat, c :: t < |s.pcs| && c != TimeOut && Next(s, t, c) == Some(s')
  }

  /** A run in which no wait times out and none is cancelled in the queue. */
  ghost predicate PromptRun(r: seq<State>) {
    && r != []
    && r[0] == Initial(|r[0].pcs|)
    && forall i :: 0 <= i < |r| - 1 ==> PromptStep(r[i], r[i + 1])
  }

  lemma {:induction false} PromptInv(r: seq<State>, i: nat)
    requires PromptRun(r) && i < |r|
    ensures Inv(r[i]) && Exact(r[i])
  {
    if i == 0 {
      InitialInv(|r[0].pcs|);
      SumZero(r[0].pcs, WakeWeight);
    } else {
      PromptInv(r, i - 1);
      assert PromptStep(r[i - 1], r[i - 1 + 1]);
      var t: nat, c :| t < |r[i - 1].pcs| && c != TimeOut && Next(r[i - 1], t, c) == Some(r[i]);
      StepInv(r[i - 1], t, c, r[i]);
      ExactStep(r[i - 1], t, c, r[i]);
    }
  }

  /** Without time-outs tokens, posts owed and wake-ups taken are exactly the wake-ups still to be collected: no
      waiter wakes without one, and when the variable is freed no token is left and no signaller owes a post. */
  lemma TokensExactly(r: seq<State>, i: nat)
    requires PromptRun(r) && i < |r|
    ensures r[i].queue + Sum(r[i].pcs, WakeWeight) == r[i].toUnblock
    ensures forall t: nat :: t < |r[i].pcs| && (r[i].pcs[t].Woken? || r[i].pcs[t].Cleaning?) ==> r[i].toUnblock > 0
    ensures r[i].freed ==> r[i].queue == 0 && forall t: nat :: t < |r[i].pcs| ==> WakeWeight(r[i].pcs[t]) == 0
  {
    PromptInv(r, i);
    var s := r[i];
    forall t: nat | t < |s.pcs| && (s.pcs[t].Woken? || s.pcs[t].Cleaning?)
      ensures s.toUnblock > 0
    {
      WokenIsPending(s, t);
    }
    if s.freed {
      SumNonNegative(s.pcs, GateWeight);
      WakesNonNegative(s);
      forall t: nat | t < |s.pcs|
        ensures WakeWeight(s.pcs[t]) == 0
      {
        OneWake(s, t);
      }
    }
  }

  // ----- with a time-out -----

  lemma Extend(r: seq<State>, s: State, t: nat, c: Choice, s': State) returns (r': seq<State>)
    requires Run(r) && r[|r| - 1] == s && Goes(s, t, c, s')
    ensures Run(r') && r'[|r'| - 1] == s'
  {
    r' := r + [s'];
    forall i | 0 <= i < |r'| - 1
      ensures Step(r'[i], r'[i + 1])
    {
      if i < |r| - 1 {
        assert Step(r[i], r[i + 1]);
      }
    }
  }

  predicate Goes(s: State, t: nat, c: Choice, s': State) {
    && t < |s.pcs| && Next(s, t, c).Some?
    && var n := Next(s, t, c).value; n.pcs == s'.pcs && n.(pcs := []) == s'.(pcs := [])
  }

  /** A state of a run of three threads, with no departures and no tokens. */
  function S(blocked: int, toUnblock: int, gate: int, owner: Option<nat>, waiter: Pc, signaller: Pc,
             destroyer: Pc): State {
    State(blocked, 0, toUnblock, 0, gate, owner, false, [waiter, signaller, destroyer])
  }

  lemma Two(r: seq<State>, s0: State, s1: State, s2: State, t: nat, c: Choice) returns (r': seq<State>)
    requires Run(r) && r[|r| - 1] == s0 && Goes(s0, t, c, s1) && Goes(s1, t, Go(0), s2)
    ensures Run(r') && r'[|r'| - 1] == s2
  {
    hide Run, Goes;
    r' := Extend(r, s0, t, c, s1);
    r' := Extend(r', s1, t, Go(0), s2);
  }

  lemma WaiterComes() returns (r: seq<State>)
    ensures Run(r) && r[|r| - 1] == S(0, 0, 0, None, HasGate, Idle, Idle)
  {
    r := [Initial(3)];
    assert Initial(3).pcs == [Idle, Idle, Idle];
    hide Run, LeaveStep, FoldStep, SignalStep, DestroyStep;
    r := Two(r, S(0, 0, 1, None, Idle, Idle, Idle), S(0, 0, 1, None, WaitGate, Idle, Idle),
             S(0, 0, 0, None, HasGate, Idle, Idle), 0, StartWait);
  }

  lemma WaiterEnters(r0: seq<State>) returns (r: seq<State>)
    requires Run(r0) && r0[|r0| - 1] == S(0, 0, 0, None, HasGate, Idle, Idle)
    ensures Run(r) && r[|r| - 1] == S(1, 0, 0, None, Stored, Idle, Idle)
  {
    hide Run, LeaveStep, FoldStep, SignalStep, DestroyStep, External;
    r := Two(r0, S(0, 0, 0, None, HasGate, Idle, Idle),
             S(0, 0, 0, None, Loaded(0), Idle, Idle),
             S(1, 0, 0, None, Stored, Idle, Idle), 0, Go(0));
  }

  lemma WaiterBlocks(r0: seq<State>) returns (r: seq<State>)
    requires Run(r0) && r0[|r0| - 1] == S(1, 0, 0, None, Stored, Idle, Idle)
    ensures Run(r) && r[|r| - 1] == S(1, 0, 1, None, Blocked, Idle, Idle)
  {
    hide Run, LeaveStep, FoldStep, SignalStep, DestroyStep, External;
    r := Extend(r0, S(1, 0, 0, None, Stored, Idle, Idle), 0, Go(0), S(1, 0, 1, None, Blocked, Idle, Idle));
  }

  lemma SignallerComes(r0: seq<State>) returns (r: seq<State>)
    requires Run(r0) && r0[|r0| - 1] == S(1, 0, 1, None, Blocked, Idle, Idle)
    ensures Run(r) && r[|r| - 1] == S(1, 0, 1, Some(1), Blocked, SigChecking(false), Idle)
  {
    hide Run, EnterStep, LeaveStep, FoldStep, DestroyStep;
    r := Two(r0, S(1, 0, 1, None, Blocked, Idle, Idle),
             S(1, 0, 1, None, Blocked, SigWait(false), Idle),
             S(1, 0, 1, Some(1), Blocked, SigChecking(false), Idle), 1, StartSignal(false));
  }

  lemma SignallerDecides(r0: seq<State>) returns (r: seq<State>)
    requires Run(r0) && r0[|r0| - 1] == S(1, 0, 1, Some(1), Blocked, SigChecking(false), Idle)
    ensures Run(r) && r[|r| - 1] == S(1, 0, 0, Some(1), Blocked, SigHasGate(false), Idle)
  {
    hide Run, EnterStep, LeaveStep, FoldStep, DestroyStep, External;
    r := Two(r0, S(1, 0, 1, Some(1), Blocked, SigChecking(false), Idle),
             S(1, 0, 1, Some(1), Blocked, SigGateWait(false), Idle),
             S(1, 0, 0, Some(1), Blocked, SigHasGate(false), Idle), 1, Go(0));
  }

  lemma Middle(a: Pc, b: Pc, c: Pc, x: Pc)
    ensures [a, b, c][1 := x] == [a, x, c]
  {
  }

  lemma ClosesForOne(s: State, t: nat)
    requires t < |s.pcs| && !s.freed && s.pcs[t] == SigHasGate(false) && s.blocked == 1 && s.gone == 0
    ensures Next(s, t, Go(0)) == Some(At(s, t, SigUnlock(1)).(toUnblock := 1, blocked := 0))
  {
    hide Check, EnterStep, LeaveStep, FoldStep, DestroyStep, External;
  }

  /** The signaller of a run of three closes the gate and moves the one waiter. */
  lemma HasGateMoves(s: State, waiter: Pc, destroyer: Pc, s': State)
    requires s == S(1, 0, 0, Some(1), waiter, SigHasGate(false), destroyer)
    requires s' == S(0, 1, 0, Some(1), waiter, SigUnlock(1), destroyer)
    ensures Goes(s, 1, Go(0), s')
  {
    hide Next;
    ClosesForOne(s, 1);
    Middle(waiter, SigHasGate(false), destroyer, SigUnlock(1));
  }

  lemma SignallerMoves(r0: seq<State>) returns (r: seq<State>)
    requires Run(r0) && r0[|r0| - 1] == S(1, 0, 0, Some(1), Blocked, SigHasGate(false), Idle)
    ensures Run(r) && r[|r| - 1] == S(0, 1, 0, Some(1), Blocked, SigUnlock(1), Idle)
  {
    hide Run, Goes;
    var s := S(1, 0, 0, Some(1), Blocked, SigHasGate(false), Idle);
    var s' := S(0, 1, 0, Some(1), Blocked, SigUnlock(1), Idle);
    HasGateMoves(s, Blocked, Idle, s');
    r := Extend(r0, s, 1, Go(0), s');
  }

  lemma SignallerUnlocks(r0: seq<State>) returns (r: seq<State>)
    requires Run(r0) && r0[|r0| - 1] == S(0, 1, 0, Some(1), Blocked, SigUnlock(1), Idle)
    ensures Run(r) && r[|r| - 1] == S(0, 1, 0, None, Blocked, SigPost(1), Idle)
  {
    hide Run, Check, CloseAndMove, EnterStep, LeaveStep, FoldStep, DestroyStep, External;
    r := Extend(r0, S(0, 1, 0, Some(1), Blocked, SigUnlock(1), Idle), 1, Go(0),
                S(0, 1, 0, None, Blocked, SigPost(1), Idle));
  }

  lemma WaiterTimesOut(r0: seq<State>) returns (r: seq<State>)
    requires Run(r0) && r0[|r0| - 1] == S(0, 1, 0, None, Blocked, SigPost(1), Idle)
    ensures Run(r) && r[|r| - 1] == S(0, 1, 0, Some(0), Cleaning(false), SigPost(1), Idle)
  {
    hide Run, EnterStep, FoldStep, SignalStep, DestroyStep;
    r := Two(r0, S(0, 1, 0, None, Blocked, SigPost(1), Idle),
             S(0, 1, 0, None, Woken(false), SigPost(1), Idle),
             S(0, 1, 0, Some(0), Cleaning(false), SigPost(1), Idle), 0, TimeOut);
  }

  lemma WaiterRetracts(r0: seq<State>) returns (r: seq<State>)
    requires Run(r0) && r0[|r0| - 1] == S(0, 1, 0, Some(0), Cleaning(false), SigPost(1), Idle)
    ensures Run(r) && r[|r| - 1] == S(0, 0, 0, None, PostGate, SigPost(1), Idle)
  {
    hide Run, EnterStep, FoldStep, SignalStep, DestroyStep, External;
    r := Two(r0, S(0, 1, 0, Some(0), Cleaning(false), SigPost(1), Idle),
             S(0, 0, 0, Some(0), CleanUnlock(1), SigPost(1), Idle),
             S(0, 0, 0, None, PostGate, SigPost(1), Idle), 0, Go(0));
  }

  lemma WaiterLeaves(r0: seq<State>) returns (r: seq<State>)
    requires Run(r0) && r0[|r0| - 1] == S(0, 0, 0, None, PostGate, SigPost(1), Idle)
    ensures Run(r) && r[|r| - 1] == S(0, 0, 1, None, Idle, SigPost(1), Idle)
  {
    hide Run, EnterStep, FoldStep, SignalStep, DestroyStep, External;
    r := Extend(r0, S(0, 0, 0, None, PostGate, SigPost(1), Idle), 0, Go(0), S(0, 0, 1, None, Idle, SigPost(1), Idle));
  }

  lemma DestroyerComes(r0: seq<State>) returns (r: seq<State>)
    requires Run(r0) && r0[|r0| - 1] == S(0, 0, 1, None, Idle, SigPost(1), Idle)
    ensures Run(r) && r[|r| - 1] == S(0, 0, 0, None, Idle, SigPost(1), DesTry)
  {
    hide Run, EnterStep, LeaveStep, FoldStep, SignalStep;
    r := Two(r0, S(0, 0, 1, None, Idle, SigPost(1), Idle),
             S(0, 0, 1, None, Idle, SigPost(1), DesWait),
             S(0, 0, 0, None, Idle, SigPost(1), DesTry), 2, StartDestroy);
  }

  lemma DestroyerFrees(r0: seq<State>) returns (r: seq<State>)
    requires Run(r0) && r0[|r0| - 1] == S(0, 0, 0, None, Idle, SigPost(1), DesTry)
    ensures Run(r) && r[|r| - 1] == S(0, 0, 0, None, Idle, SigPost(1), Idle).(freed := true)
  {
    hide Run, EnterStep, LeaveStep, FoldStep, SignalStep, External;
    r := Two(r0, S(0, 0, 0, None, Idle, SigPost(1), DesTry),
             S(0, 0, 0, Some(2), Idle, SigPost(1), DesCheck),
             S(0, 0, 0, None, Idle, SigPost(1), Idle).(freed := true), 2, Go(0));
  }

  /** A wait that times out can collect the wake-up of a signaller that has not posted yet, and destroy then
      frees the variable while the post is still owed. */
  lemma FreedBeforePost() returns (r: seq<State>)
    ensures Run(r) && r[|r| - 1].freed && Waiters(r[|r| - 1]) == 0 && r[|r| - 1].pcs == [Idle, SigPost(1), Idle]
  {
    hide Run;
    r := WaiterComes();
    r := WaiterEnters(r);
    r := WaiterBlocks(r);
    r := SignallerComes(r);
    r := SignallerDecides(r);
    r := SignallerMoves(r);
    r := SignallerUnlocks(r);
    r := WaiterTimesOut(r);
    r := WaiterRetracts(r);
    r := WaiterLeaves(r);
    r := DestroyerComes(r);
    r := DestroyerFrees(r);
    RunNotEmpty(r);
    FreedMeansNoWaiter(r, |r| - 1);
  }

  lemma RunNotEmpty(r: seq<State>)
    requires Run(r)
    ensures r != []
  {
  }
}
