/**
 * What a whole call does that no other thread disturbs: entering and leaving a wait, signal and broadcast, and
 * destroy. A call that has to wait for a lock that never comes does not end, and is not spoken of.
 */
module CondVarCalls {
  import opened Sums
  import opened Wrappers
  import opened CondVar
  import opened CondVarTheorems

  /** Thread t alone takes steps, from r[0] on. */
  ghost predicate Alone(r: seq<State>, t: nat) {
    && r != []
    && (forall i :: 0 <= i < |r| ==> t < |r[i].pcs|)
    && forall i :: 0 <= i < |r| - 1 ==> StepOf(r[i], t, r[i + 1])
  }

  ghost predicate StepOf(s: State, t: nat, s': State) {
    t < |s.pcs| && exists k :: Internal(s, t, k) == Some(s')
  }

  // ----- destroy -----

  /** The try for the mutex fails exactly when another thread owns it. */
  lemma TryExactly(s: State, t: nat, k: int, s': State)
    requires Inv(s) && !s.freed && t < |s.pcs| && s.pcs[t] == DesTry && Internal(s, t, k) == Some(s')
    ensures s'.pcs[t] == DesBusy <==> exists u: nat :: u < |s.pcs| && u != t && OwnsMutex(s.pcs[u])
    ensures s'.pcs[t] == DesBusy || (s'.pcs[t] == DesCheck && s'.owner == Some(t))
  {
    if s.owner.Some? {
      assert OwnsMutex(s.pcs[s.owner.value]);
    }
    assert !OwnsMutex(s.pcs[t]);
  }

  /** How far destroy has got, from s0 on. */
  ghost predicate DestroyPhase(s0: State, s: State, t: nat) {
    && t < |s0.pcs| && |s.pcs| == |s0.pcs| && s.pcs == s0.pcs[t := s.pcs[t]]
    && var near := s.(pcs := s0.pcs);
       match s.pcs[t]
       case DesWait => near == s0
       case DesTry => near == s0.(gate := s0.gate - 1) && s0.gate > 0
       case DesCheck => near == s0.(gate := s0.gate - 1, owner := Some(t)) && s0.gate > 0 && s0.owner == None
       case DesUnlock => near == s0.(owner := Some(t)) && s0.gate > 0 && s0.owner == None && s0.blocked > s0.gone
       case DesBusy => near == s0.(gate := s0.gate - 1) && s0.gate > 0 && s0.owner.Some?
       case Idle =>
         && s0.gate > 0
         && if s0.owner == None && s0.blocked <= s0.gone then near == s0.(gate := s0.gate - 1, freed := true)
            else near == s0
       case _ => false
  }

  lemma DestroyGoesOn(s0: State, s: State, t: nat, k: int, s': State)
    requires !s0.freed && DestroyPhase(s0, s, t) && Internal(s, t, k) == Some(s')
    ensures DestroyPhase(s0, s', t)
  {
  }

  lemma {:induction false} DestroyRuns(r: seq<State>, t: nat, i: nat)
    requires Alone(r, t) && !r[0].freed && i < |r|
    requires r[0].pcs[t] == DesWait
    ensures DestroyPhase(r[0].(pcs := r[0].pcs[t := Idle]), r[i], t)
  {
    if i > 0 {
      DestroyRuns(r, t, i - 1);
      assert StepOf(r[i - 1], t, r[i - 1 + 1]);
      var k :| Internal(r[i - 1], t, k) == Some(r[i]);
      DestroyGoesOn(r[0].(pcs := r[0].pcs[t := Idle]), r[i - 1], t, k, r[i]);
    }
  }

  /** The whole call: it frees the variable exactly when no thread owns the mutex and nobody waits, and otherwise
      leaves everything as it was. */
  lemma DestroyCall(s0: State, r: seq<State>, t: nat)
    requires Alone(r, t) && Inv(s0) && t < |s0.pcs| && Next(s0, t, StartDestroy) == Some(r[0])
    requires r[|r| - 1].pcs[t] == Idle
    ensures var last := r[|r| - 1];
            && (last.freed <==> Waiters(s0) == 0 && forall u: nat :: u < |s0.pcs| ==> !OwnsMutex(s0.pcs[u]))
            && (!last.freed ==> last == s0)
            && (last.freed ==> last == s0.(gate := 0, freed := true))
  {
    assert r[0].(pcs := r[0].pcs[t := Idle]).pcs == s0.pcs;
    DestroyRuns(r, t, |r| - 1);
    SumNonNegative(s0.pcs, GateWeight);
    assert r[|r| - 1].pcs == s0.pcs;
    WaitersBounds(s0);
    if s0.owner.Some? {
      assert OwnsMutex(s0.pcs[s0.owner.value]);
    }
  }

  // ----- signal and broadcast -----

  /** The waiters that no wake-up covers yet. */
  function Uncovered(s: State): int { s.blocked - s.gone }

  function Issues(s: State, all: bool): int {
    if Uncovered(s) <= 0 then 0 else if all then Uncovered(s) else 1
  }

  /** n waiters are covered, and the gate is closed if it was not. */
  function Covered(s: State, n: int): State {
    s.(toUnblock := s.toUnblock + n, blocked := s.blocked - s.gone - n, gone := 0,
       gate := if s.toUnblock == 0 then s.gate - 1 else s.gate)
  }

  ghost predicate SignalPhase(s0: State, s: State, t: nat, all: bool) {
    && t < |s0.pcs| && |s.pcs| == |s0.pcs| && s.pcs == s0.pcs[t := s.pcs[t]]
    && var near, n := s.(pcs := s0.pcs), Issues(s0, all);
       match s.pcs[t]
       case SigWait(a) => a == all && near == s0
       case SigChecking(a) => a == all && s0.owner == None && near == s0.(owner := Some(t))
       case SigGateWait(a) =>
         a == all && s0.owner == None && n > 0 && s0.toUnblock == 0 && near == s0.(owner := Some(t))
       case SigHasGate(a) =>
         && a == all && s0.owner == None && n > 0 && s0.toUnblock == 0
         && near == s0.(owner := Some(t), gate := s0.gate - 1)
       case SigNoop => s0.owner == None && n == 0 && near == s0.(owner := Some(t))
       case SigUnlock(m) => s0.owner == None && m == n > 0 && near == Covered(s0, n).(owner := Some(t))
       case SigPost(m) => s0.owner == None && 1 <= m <= n && near == Covered(s0, n).(queue := s0.queue + n - m)
       case Idle =>
         && s0.owner == None
         && near == if n == 0 then s0 else Covered(s0, n).(queue := s0.queue + n)
       case _ => false
  }

  lemma SignalChecks(s0: State, s: State, t: nat, all: bool, k: int, s': State)
    requires CountInv(s0) && !s0.freed && SignalPhase(s0, s, t, all) && Internal(s, t, k) == Some(s')
    requires s.pcs[t].SigChecking?
    ensures SignalPhase(s0, s', t, all)
  {
    hide EnterStep, LeaveStep, FoldStep, DestroyStep;
  }

  lemma SignalCloses(s0: State, s: State, t: nat, all: bool, k: int, s': State)
    requires CountInv(s0) && !s0.freed && SignalPhase(s0, s, t, all) && Internal(s, t, k) == Some(s')
    requires s.pcs[t].SigHasGate?
    ensures SignalPhase(s0, s', t, all)
  {
    hide EnterStep, LeaveStep, FoldStep, DestroyStep, Check;
  }

  lemma SignalLocks(s0: State, s: State, t: nat, all: bool, k: int, s': State)
    requires CountInv(s0) && !s0.freed && SignalPhase(s0, s, t, all) && Internal(s, t, k) == Some(s')
    requires !s.pcs[t].SigChecking? && !s.pcs[t].SigHasGate?
    ensures SignalPhase(s0, s', t, all)
  {
    hide EnterStep, LeaveStep, FoldStep, DestroyStep, Check, CloseAndMove;
  }

  lemma SignalGoesOn(s0: State, s: State, t: nat, all: bool, k: int, s': State)
    requires CountInv(s0) && !s0.freed && SignalPhase(s0, s, t, all) && Internal(s, t, k) == Some(s')
    ensures SignalPhase(s0, s', t, all)
  {
    if s.pcs[t].SigChecking? {
      SignalChecks(s0, s, t, all, k, s');
    } else if s.pcs[t].SigHasGate? {
      SignalCloses(s0, s, t, all, k, s');
    } else {
      SignalLocks(s0, s, t, all, k, s');
    }
  }

  lemma {:induction false} SignalRuns(s0: State, r: seq<State>, t: nat, all: bool, i: nat)
    requires CountInv(s0) && Alone(r, t) && !s0.freed && i < |r| && SignalPhase(s0, r[0], t, all)
    ensures SignalPhase(s0, r[i], t, all)
  {
    hide CountInv, SignalPhase, Internal;
    if i > 0 {
      SignalRuns(s0, r, t, all, i - 1);
      assert StepOf(r[i - 1], t, r[i - 1 + 1]);
      var k :| Internal(r[i - 1], t, k) == Some(r[i]);
      SignalGoesOn(s0, r[i - 1], t, all, k, r[i]);
    }
  }

  /** The whole call: a broadcast covers every waiter that is not covered yet, a signal one of them, with a token
      for each; if there is none nothing changes. */
  lemma SignalCall(s0: State, r: seq<State>, t: nat, all: bool)
    requires Alone(r, t) && Inv(s0) && t < |s0.pcs| && Next(s0, t, StartSignal(all)) == Some(r[0])
    requires r[|r| - 1].pcs[t] == Idle
    ensures var last, free := r[|r| - 1], Waiters(s0) - s0.toUnblock;
            var n := if free == 0 || all then free else 1;
            && last.toUnblock == s0.toUnblock + n && last.queue == s0.queue + n
            && last.pcs == s0.pcs && last.owner == None && Waiters(last) == Waiters(s0)
            && last.gate == s0.gate - (if n > 0 && s0.toUnblock == 0 then 1 else 0)
            && (n == 0 ==> last == s0)
  {
    SignalRuns(s0, r, t, all, |r| - 1);
    assert r[|r| - 1].pcs == s0.pcs;
    WaitersBounds(s0);
  }

  // ----- wait -----

  ghost predicate EnterPhase(s0: State, s: State, t: nat) {
    && t < |s0.pcs| && |s.pcs| == |s0.pcs| && s.pcs == s0.pcs[t := s.pcs[t]]
    && var near := s.(pcs := s0.pcs);
       match s.pcs[t]
       case WaitGate => near == s0
       case HasGate => near == s0.(gate := s0.gate - 1)
       case Loaded(n) => n == s0.blocked && near == s0.(gate := s0.gate - 1)
       case Stored => near == s0.(gate := s0.gate - 1, blocked := s0.blocked + 1)
       case Blocked => near == s0.(blocked := s0.blocked + 1)
       case _ => false
  }

  lemma EnterGoesOn(s0: State, s: State, t: nat, k: int, s': State)
    requires EnterPhase(s0, s, t) && Entering(s.pcs[t]) && Internal(s, t, k) == Some(s')
    ensures EnterPhase(s0, s', t) && (Entering(s'.pcs[t]) || s'.pcs[t] == Blocked)
  {
  }

  lemma {:induction false} EnterRuns(s0: State, r: seq<State>, t: nat, i: nat)
    requires Alone(r, t) && i < |r| && r[0].pcs[t] == WaitGate && EnterPhase(s0, r[0], t)
    requires forall j :: 0 <= j < i ==> r[j].pcs[t] != Blocked
    ensures EnterPhase(s0, r[i], t) && (Entering(r[i].pcs[t]) || r[i].pcs[t] == Blocked)
  {
    hide EnterPhase, Internal;
    if i > 0 {
      EnterRuns(s0, r, t, i - 1);
      assert StepOf(r[i - 1], t, r[i - 1 + 1]);
      var k :| Internal(r[i - 1], t, k) == Some(r[i]);
      EnterGoesOn(s0, r[i - 1], t, k, r[i]);
    }
  }

  /** Entering a wait makes one more waiter, and nothing else. */
  lemma WaitEntered(s0: State, r: seq<State>, t: nat)
    requires Alone(r, t) && t < |s0.pcs| && Next(s0, t, StartWait) == Some(r[0])
    requires r[|r| - 1].pcs[t] == Blocked && forall j :: 0 <= j < |r| - 1 ==> r[j].pcs[t] != Blocked
    ensures r[|r| - 1] == s0.(blocked := s0.blocked + 1, pcs := s0.pcs[t := Blocked])
    ensures Waiters(r[|r| - 1]) == Waiters(s0) + 1
  {
    EnterRuns(s0, r, t, |r| - 1);
    SumUpdate(s0.pcs, t, Blocked, WaitWeight);
  }

  /** A cancellation at the gate takes the call back. */
  lemma CancelledAtGate(s: State, t: nat, s1: State, s2: State)
    requires t < |s.pcs| && Next(s, t, StartWait) == Some(s1) && Next(s1, t, CancelAtGate) == Some(s2)
    ensures s2 == s
  {
    assert s2.pcs == s.pcs;
  }

  /** What leaving a wait does to the counters and the gate. */
  function Left(s: State): State {
    if s.toUnblock > 0 then s.(toUnblock := s.toUnblock - 1, gate := if s.toUnblock == 1 then s.gate + 1 else s.gate)
    else if s.gone + 1 < 0x3fff_ffff then s.(gone := s.gone + 1)
    else s.(blocked := s.blocked - s.gone - 1, gone := 0)
  }

  ghost predicate LeavePhase(s0: State, s: State, t: nat) {
    && t < |s0.pcs| && |s.pcs| == |s0.pcs| && s.pcs == s0.pcs[t := s.pcs[t]]
    && var near, last := s.(pcs := s0.pcs), Left(s0);
       match s.pcs[t]
       case Woken(_) => near == s0
       case Cleaning(_) => s0.owner == None && near == s0.(owner := Some(t))
       case FoldWait =>
         && s0.owner == None && last.gone == 0 && s0.toUnblock == 0
         && near == s0.(owner := Some(t), gone := INT_MAX / 2)
       case FoldHasGate =>
         && s0.owner == None && last.gone == 0 && s0.toUnblock == 0
         && near == s0.(owner := Some(t), gone := INT_MAX / 2, gate := s0.gate - 1)
       case FoldSubtracted =>
         && s0.owner == None && last.gone == 0 && s0.toUnblock == 0
         && near == last.(owner := Some(t), gone := INT_MAX / 2, gate := s0.gate - 1)
       case FoldPosted =>
         && s0.owner == None && last.gone == 0 && s0.toUnblock == 0
         && near == last.(owner := Some(t), gone := INT_MAX / 2)
       case CleanUnlock(n) => s0.owner == None && n == s0.toUnblock && near == last.(owner := Some(t), gate := s0.gate)
       case PostGate => s0.owner == None && s0.toUnblock == 1 && near == last.(gate := s0.gate)
       case Idle => s0.owner == None && near == last
       case _ => false
  }

  lemma FoldGoesOn(s0: State, s: State, t: nat, k: int, s': State)
    requires CountInv(s0) && s0.gone < INT_MAX / 2 && LeavePhase(s0, s, t) && Internal(s, t, k) == Some(s')
    requires Folding(s.pcs[t])
    ensures LeavePhase(s0, s', t)
  {
    hide EnterStep, LeaveStep, SignalStep, DestroyStep;
  }

  lemma RetractGoesOn(s0: State, s: State, t: nat, k: int, s': State)
    requires CountInv(s0) && s0.gone < INT_MAX / 2 && LeavePhase(s0, s, t) && Internal(s, t, k) == Some(s')
    requires !Folding(s.pcs[t])
    ensures LeavePhase(s0, s', t)
  {
    hide EnterStep, FoldStep, SignalStep, DestroyStep;
  }

  lemma LeaveGoesOn(s0: State, s: State, t: nat, k: int, s': State)
    requires CountInv(s0) && s0.gone < INT_MAX / 2 && LeavePhase(s0, s, t) && Internal(s, t, k) == Some(s')
    ensures LeavePhase(s0, s', t)
  {
    hide Internal;
    if Folding(s.pcs[t]) {
      FoldGoesOn(s0, s, t, k, s');
    } else {
      RetractGoesOn(s0, s, t, k, s');
    }
  }

  lemma {:induction false} LeaveRuns(s0: State, r: seq<State>, t: nat, i: nat)
    requires CountInv(s0) && s0.gone < INT_MAX / 2 && Alone(r, t) && i < |r| && LeavePhase(s0, r[0], t)
    ensures LeavePhase(s0, r[i], t)
  {
    hide CountInv, LeavePhase, Internal;
    if i > 0 {
      LeaveRuns(s0, r, t, i - 1);
      assert StepOf(r[i - 1], t, r[i - 1 + 1]);
      var k :| Internal(r[i - 1], t, k) == Some(r[i]);
      LeaveGoesOn(s0, r[i - 1], t, k, r[i]);
    }
  }

  /** Leaving a wait, woken or timed out: one waiter less; a pending wake-up is collected, and with the last one the
      gate reopens; with none pending the departure is counted, and at the limit settled. */
  lemma WaitLeft(r: seq<State>, t: nat)
    requires Alone(r, t) && Inv(r[0]) && r[0].pcs[t].Woken? && r[|r| - 1].pcs[t] == Idle
    ensures r[|r| - 1] == Left(r[0]).(pcs := r[0].pcs[t := Idle])
    ensures Waiters(r[|r| - 1]) == Waiters(r[0]) - 1
  {
    LeavesBelowLimit(r, t);
    LeaveRuns(r[0], r, t, |r| - 1);
    SumUpdate(r[0].pcs, t, Idle, WaitWeight);
  }

  lemma LeavesBelowLimit(r: seq<State>, t: nat)
    requires Alone(r, t) && Inv(r[0]) && r[0].pcs[t].Woken? && r[|r| - 1].pcs[t] == Idle
    ensures r[0].gone < INT_MAX / 2 && |r| > 1
  {
    assert StepOf(r[0], t, r[0 + 1]);
  }
}
