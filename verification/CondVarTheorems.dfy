/** What the condition variable guarantees over all runs: safety, progress, no overtaking, safe destruction. */
module CondVarTheorems {
  import opened Sums
  import opened Wrappers
  import opened CondVar

  /** Part of a run: each state follows from the one before. */
  ghost predicate Continues(r: seq<State>) {
    r != [] && forall i :: 0 <= i < |r| - 1 ==> Step(r[i], r[i + 1])
  }

  lemma {:induction false} ContinuesInv(r: seq<State>, i: nat)
    requires Continues(r) && Inv(r[0]) && i < |r|
    ensures Inv(r[i]) && |r[i].pcs| == |r[0].pcs|
  {
    if i > 0 {
      ContinuesInv(r, i - 1);
      assert Step(r[i - 1], r[i - 1 + 1]);
      var t: nat, c :| t < |r[i - 1].pcs| && Next(r[i - 1], t, c) == Some(r[i]);
      StepInv(r[i - 1], t, c, r[i]);
    }
  }

  /** The owner of the mutex has subtracted nWaitersGone from nWaitersBlocked and not yet cleared it. */
  predicate BetweenWrites(s: State) {
    && s.owner.Some? && s.owner.value < |s.pcs|
    && (s.pcs[s.owner.value].FoldSubtracted? || s.pcs[s.owner.value].FoldPosted?)
  }

  /** The counters stand for the waiters exactly when no fold is between its two writes. */
  lemma CountsExactly(s: State)
    requires Inv(s)
    ensures s.blocked - s.gone + s.toUnblock == Waiters(s) <==> !BetweenWrites(s)
    ensures BetweenWrites(s) ==> s.blocked + s.toUnblock == Waiters(s)
  {
    if BetweenWrites(s) {
      assert LocalInv(s, s.pcs[s.owner.value]);
    }
  }

  /** Safety in every state of every run of any number of threads. */
  lemma Safety(r: seq<State>, i: nat)
    requires Run(r) && i < |r|
    ensures Inv(r[i])
    ensures r[i].toUnblock > 0 ==> r[i].gone == 0
    ensures r[i].blocked - r[i].gone + r[i].toUnblock == Waiters(r[i]) <==> !BetweenWrites(r[i])
    ensures BetweenWrites(r[i]) ==> r[i].blocked + r[i].toUnblock == Waiters(r[i])
    ensures 0 <= r[i].gone <= GONE_LIMIT && 0 <= r[i].toUnblock <= |r[i].pcs|
    ensures 0 <= r[i].blocked <= |r[i].pcs| + GONE_LIMIT
    ensures r[i].gate == 1 ==> r[i].toUnblock == 0 && forall t: nat :: t < |r[i].pcs| ==> !OwnsGate(r[i].pcs[t])
    ensures forall t: nat, u: nat ::
              t < |r[i].pcs| && u < |r[i].pcs| && t != u ==>
              !(OwnsGate(r[i].pcs[t]) && OwnsGate(r[i].pcs[u])) && !(OwnsMutex(r[i].pcs[t]) && OwnsMutex(r[i].pcs[u]))
    ensures r[i].queue + Sum(r[i].pcs, WakeWeight) >= r[i].toUnblock
  {
    InitialInv(|r[0].pcs|);
    ContinuesInv(r, i);
    CountsExactly(r[i]);
    GateExclusion(r[i]);
    WaitersBounds(r[i]);
  }

  // ----- no deadlock -----

  /** Some thread can take the next step of its call, without a new call and without a time-out. */
  ghost predicate CanMove(s: State) {
    exists t: nat, k :: t < |s.pcs| && Internal(s, t, k).Some?
  }

  predicate AtRest(pc: Pc) { pc.Idle? || pc.Blocked? }

  predicate AtLock(pc: Pc) { pc.Woken? || pc.SigWait? }

  predicate AtGate(pc: Pc) { pc.WaitGate? || pc.FoldWait? || pc.SigGateWait? || pc.DesWait? }

  /** A thread that is at rest, at a closed gate or at a taken lock is the only kind that cannot move. */
  lemma StuckThread(s: State, t: nat)
    requires t < |s.pcs| && !s.freed && LocalInv(s, s.pcs[t])
    requires !AtRest(s.pcs[t]) && (AtLock(s.pcs[t]) ==> s.owner == None) && (AtGate(s.pcs[t]) ==> s.gate > 0)
    ensures Internal(s, t, 1).Some?
  {
  }

  lemma BlockedMoves(s: State, t: nat)
    requires t < |s.pcs| && !s.freed && s.pcs[t].Blocked?
    ensures Internal(s, t, 1).Some? <==> s.queue > 0
  {
  }

  /** The mutex is always handed on: its owner moves, at worst through the gate, which is then open. */
  lemma OwnerMoves(s: State, t: nat)
    requires Inv(s) && !s.freed && s.owner == Some(t)
    requires s.gate == 1 || s.toUnblock > 0
    ensures Internal(s, t, 1).Some?
  {
    assert OwnsMutex(s.pcs[t]) && LocalInv(s, s.pcs[t]);
    StuckThread(s, t);
  }

  lemma GateHolderMoves(s: State) returns (t: nat)
    requires Inv(s) && !s.freed && s.gate == 0 && s.toUnblock == 0
    ensures t < |s.pcs| && Internal(s, t, 1).Some?
  {
    t := SumWitness(s.pcs, GateWeight);
    assert LocalInv(s, s.pcs[t]);
    StuckThread(s, t);
  }

  /** While wake-ups are pending, or any call is under way, some thread can move: there is no deadlock. */
  lemma NoDeadlock(s: State)
    requires Inv(s) && !s.freed
    requires s.toUnblock > 0 || exists t: nat :: t < |s.pcs| && !AtRest(s.pcs[t])
    ensures CanMove(s)
  {
    SumNonNegative(s.pcs, GateWeight);
    if s.gate == 0 && s.toUnblock == 0 {
      var t := GateHolderMoves(s);
    } else if s.owner.Some? {
      OwnerMoves(s, s.owner.value);
    } else if t: nat :| t < |s.pcs| && !AtRest(s.pcs[t]) && !(AtGate(s.pcs[t]) && s.gate == 0) {
      assert LocalInv(s, s.pcs[t]);
      StuckThread(s, t);
    } else {
      WaitingAtClosedGate(s);
    }
  }

  /** With the gate closed for pending wake-ups and everyone else at rest, a token is on its way out. */
  lemma WaitingAtClosedGate(s: State)
    requires Inv(s) && !s.freed && s.toUnblock > 0
    requires forall t: nat :: t < |s.pcs| ==> AtRest(s.pcs[t]) || AtGate(s.pcs[t])
    ensures CanMove(s)
  {
    SumZero(s.pcs, WakeWeight);
    WaitersBounds(s);
    var t := SumWitness(s.pcs, WaitWeight);
    BlockedMoves(s, t);
  }

  lemma RestersOwnNothing(s: State)
    requires MutexInv(s) && forall t: nat :: t < |s.pcs| ==> AtRest(s.pcs[t])
    ensures s.owner == None
  {
    forall t: nat | t < |s.pcs|
      ensures s.owner != Some(t)
    {
      assert AtRest(s.pcs[t]) && !OwnsMutex(s.pcs[t]);
    }
  }

  /** Nothing can move exactly when every issued wake-up has been collected and both locks are free. */
  lemma QuietExactly(s: State)
    requires Inv(s) && !s.freed
    ensures !CanMove(s) <==>
            && s.toUnblock == 0 && s.gate == 1 && s.owner == None
            && (forall t: nat :: t < |s.pcs| ==> AtRest(s.pcs[t]) && (s.queue > 0 ==> s.pcs[t].Idle?))
  {
    if !CanMove(s) {
      if s.toUnblock > 0 || exists t: nat :: t < |s.pcs| && !AtRest(s.pcs[t]) {
        NoDeadlock(s);
      }
      SumZero(s.pcs, GateWeight);
      RestersOwnNothing(s);
      forall t: nat | t < |s.pcs| && s.pcs[t].Blocked?
        ensures s.queue <= 0
      {
        BlockedMoves(s, t);
      }
    }
  }

  // ----- every wake-up arrives: the steps of the calls under way come to an end -----

  /** How many steps a call may still take when n threads take part. */
  function Rank(n: int, pc: Pc): int {
    match pc
    case Idle => 0
    case WaitGate => 13
    case HasGate => 12
    case Loaded(_) => 11
    case Stored => 10
    case Blocked => 9
    case Woken(_) => 8
    case Cleaning(_) => 7
    case FoldWait => 6
    case FoldHasGate => 5
    case FoldSubtracted => 4
    case FoldPosted => 3
    case CleanUnlock(_) => 2
    case PostGate => 1
    case SigWait(_) => n + 5
    case SigChecking(_) => n + 4
    case SigGateWait(_) => n + 3
    case SigHasGate(_) => n + 2
    case SigNoop => 1
    case SigUnlock(k) => k + 1
    case SigPost(k) => k
    case DesWait => 4
    case DesTry => 3
    case DesCheck => 2
    case DesUnlock => 1
    case DesBusy => 1
  }

  ghost function RankWeight(n: int): Pc -> int { pc => Rank(n, pc) }

  ghost function StepsLeft(s: State): int { Sum(s.pcs, RankWeight(|s.pcs|)) }

  predicate Drops(s: State, t: nat, s': State)
    requires t < |s.pcs|
  {
    && |s'.pcs| == |s.pcs| && s'.pcs == s.pcs[t := s'.pcs[t]]
    && Rank(|s.pcs|, s'.pcs[t]) < Rank(|s.pcs|, s.pcs[t])
  }

  lemma EnterDrops(s: State, t: nat, s': State)
    requires t < |s.pcs| && EnterStep(s, t) == Some(s')
    ensures Drops(s, t, s')
  {
  }

  lemma LeaveDrops(s: State, t: nat, s': State)
    requires t < |s.pcs| && LeaveStep(s, t) == Some(s')
    ensures Drops(s, t, s')
  {
  }

  lemma FoldDrops(s: State, t: nat, s': State)
    requires t < |s.pcs| && FoldStep(s, t) == Some(s')
    ensures Drops(s, t, s')
  {
  }

  lemma DecisionDrops(s: State, t: nat, k: int, s': State)
    requires t < |s.pcs| && SignalStep(s, t, k) == Some(s') && (s.pcs[t].SigChecking? || s.pcs[t].SigHasGate?)
    requires s.blocked - s.gone <= |s.pcs| && (s.toUnblock != 0 ==> s.blocked <= |s.pcs|)
    ensures Drops(s, t, s')
  {
  }

  lemma SignalDrops(s: State, t: nat, k: int, s': State)
    requires t < |s.pcs| && SignalStep(s, t, k) == Some(s') && !s.pcs[t].SigChecking? && !s.pcs[t].SigHasGate?
    ensures Drops(s, t, s')
  {
  }

  lemma DestroyDrops(s: State, t: nat, s': State)
    requires t < |s.pcs| && DestroyStep(s, t) == Some(s')
    ensures Drops(s, t, s')
  {
  }

  lemma InternalDrains(s: State, t: nat, k: int, s': State)
    requires Inv(s) && t < |s.pcs| && Internal(s, t, k) == Some(s')
    ensures StepsLeft(s') < StepsLeft(s)
  {
    WaitersBounds(s);
    var pc := s.pcs[t];
    if Entering(pc) {
      EnterDrops(s, t, s');
    } else if Leaving(pc) {
      LeaveDrops(s, t, s');
    } else if Folding(pc) {
      FoldDrops(s, t, s');
    } else if Destroying(pc) {
      DestroyDrops(s, t, s');
    } else if pc.SigChecking? || pc.SigHasGate? {
      DecisionDrops(s, t, k, s');
    } else {
      SignalDrops(s, t, k, s');
    }
    SumUpdate(s.pcs, t, s'.pcs[t], RankWeight(|s.pcs|));
  }

  ghost predicate InternalStep(s: State, s': State) {
    exists t: nat, k :: t < |s.pcs| && Internal(s, t, k) == Some(s')
  }

  /** However the threads are scheduled, calls under way take at most StepsLeft steps in all. With
      QuietExactly: without new calls every issued wake-up is collected and the gate reopens. */
  lemma {:induction false} CallsDrain(r: seq<State>)
    requires r != [] && Inv(r[0])
    requires forall i :: 0 <= i < |r| - 1 ==> InternalStep(r[i], r[i + 1])
    ensures |r| - 1 <= StepsLeft(r[0])
    decreases |r|
  {
    if |r| == 1 {
      forall t: nat | t < |r[0].pcs|
        ensures RankWeight(|r[0].pcs|)(r[0].pcs[t]) >= 0
      {
        assert LocalInv(r[0], r[0].pcs[t]);
      }
      SumNonNegative(r[0].pcs, RankWeight(|r[0].pcs|));
    } else {
      assert InternalStep(r[0], r[0 + 1]);
      var t: nat, k :| t < |r[0].pcs| && Internal(r[0], t, k) == Some(r[1]);
      InternalDrains(r[0], t, k, r[1]);
      assert Next(r[0], t, Go(k)) == Some(r[1]);
      StepInv(r[0], t, Go(k), r[1]);
      forall i | 0 <= i < |r[1..]| - 1
        ensures InternalStep(r[1..][i], r[1..][i + 1])
      {
        assert InternalStep(r[i + 1], r[i + 1 + 1]);
      }
      CallsDrain(r[1..]);
    }
  }

  // ----- signal and broadcast -----

  /** A signaller does nothing exactly when every waiter is already covered by an earlier wake-up. */
  lemma NoOpExactly(s: State, t: nat, all: bool)
    requires Inv(s) && t < |s.pcs| && s.pcs[t] == SigChecking(all)
    ensures Check(s, t, all).pcs[t] == SigNoop <==> Waiters(s) == s.toUnblock
  {
    assert OwnsMutex(s.pcs[t]) && s.owner == Some(t);
    WaitersBounds(s);
  }

  /** The update of a signaller that goes ahead: what it issues is what it newly covers, a broadcast covers
      every waiter, and neither changes who is waiting. */
  lemma SignalCovers(s: State, t: nat, s': State)
    requires Inv(s) && !s.freed && t < |s.pcs| && (s.pcs[t].SigChecking? || s.pcs[t].SigHasGate?)
    requires Internal(s, t, 1) == Some(s') && s'.pcs[t].SigUnlock?
    ensures s'.toUnblock == s.toUnblock + s'.pcs[t].issue && Waiters(s') == Waiters(s)
    ensures s'.pcs[t].issue >= 1 && s'.gone == 0
    ensures s.pcs[t].all ==> s'.blocked == 0 && s'.toUnblock == Waiters(s')
    ensures !s.pcs[t].all ==> s'.pcs[t].issue == 1
  {
    assert OwnsMutex(s.pcs[t]) && s.owner == Some(t) && LocalInv(s, s.pcs[t]);
    assert s'.pcs == s.pcs[t := s'.pcs[t]];
    Moves(s, t, s'.pcs[t]);
    WaitersBounds(s);
    assert Next(s, t, Go(1)) == Some(s');
    StepInv(s, t, Go(1), s');
  }

  /** From its update until it releases the mutex, and in the state that this leads to, a broadcast covers
      exactly the waiters, whatever the other threads do. */
  lemma CoverStays(s: State, t: nat, u: nat, c: Choice, s': State)
    requires Inv(s) && s.toUnblock == Waiters(s) && t < |s.pcs| && s.pcs[t].SigUnlock? && s.toUnblock > 0
    requires u < |s.pcs| && Next(s, u, c) == Some(s')
    ensures s'.toUnblock == Waiters(s') > 0 && |s'.pcs| == |s.pcs|
    ensures u != t ==> s'.pcs[t] == s.pcs[t]
  {
    StepInv(s, u, c, s');
    GateExclusion(s);
    assert OwnsMutex(s.pcs[t]) && s.owner == Some(t);
    assert OwnsMutex(s.pcs[u]) <==> s.owner == Some(u);
    CoverMoves(s, t, u, c, s');
    Moves(s, u, s'.pcs[u]);
  }

  /** Nobody becomes a waiter, and nobody is taken off the counters, without the gate or the mutex. */
  lemma CoverMoves(s: State, t: nat, u: nat, c: Choice, s': State)
    requires t < |s.pcs| && s.pcs[t].SigUnlock? && s.toUnblock > 0
    requires u < |s.pcs| && !OwnsGate(s.pcs[u]) && (u == t || !OwnsMutex(s.pcs[u]))
    requires Next(s, u, c) == Some(s')
    ensures s'.toUnblock == s.toUnblock && s'.pcs == s.pcs[u := s'.pcs[u]]
    ensures WaitWeight(s'.pcs[u]) == WaitWeight(s.pcs[u])
  {
  }

  lemma {:induction false} CoversUntilReleased(r: seq<State>, t: nat, k: nat)
    requires Continues(r) && Inv(r[0]) && k < |r| && t < |r[0].pcs|
    requires r[0].toUnblock == Waiters(r[0]) > 0
    requires forall i :: 0 <= i < k ==> |r[i].pcs| == |r[0].pcs| && r[i].pcs[t].SigUnlock?
    ensures r[k].toUnblock == Waiters(r[k]) > 0 && |r[k].pcs| == |r[0].pcs|
  {
    if k > 0 {
      CoversUntilReleased(r, t, k - 1);
      ContinuesInv(r, k - 1);
      assert Step(r[k - 1], r[k - 1 + 1]);
      var u: nat, c :| u < |r[k - 1].pcs| && Next(r[k - 1], u, c) == Some(r[k]);
      CoverStays(r[k - 1], t, u, c, r[k]);
    }
  }

  /** While wake-ups are pending no thread can become a waiter, and no covered waiter becomes uncovered. */
  lemma GateKeepsOut(s: State, t: nat, c: Choice, s': State)
    requires Inv(s) && s.toUnblock > 0 && t < |s.pcs| && Next(s, t, c) == Some(s')
    ensures forall u: nat :: u < |s'.pcs| && Waiting(s'.pcs[u]) ==> u < |s.pcs| && Waiting(s.pcs[u])
    ensures s'.blocked <= s.blocked
  {
    GateExclusion(s);
    assert !OwnsGate(s.pcs[t]);
  }

  lemma StepKeepsOut(s: State, s': State)
    requires Inv(s) && s.toUnblock > 0 && Step(s, s')
    ensures Inv(s') && |s'.pcs| == |s.pcs|
    ensures forall u: nat :: u < |s'.pcs| && Waiting(s'.pcs[u]) ==> Waiting(s.pcs[u])
    ensures s'.blocked <= s.blocked
  {
    var t: nat, c :| t < |s.pcs| && Next(s, t, c) == Some(s');
    GateKeepsOut(s, t, c, s');
    StepInv(s, t, c, s');
  }

  lemma {:induction false} NoNewcomers(r: seq<State>, k: nat)
    requires Continues(r) && Inv(r[0]) && k < |r|
    requires forall i :: 0 <= i < k ==> r[i].toUnblock > 0
    ensures |r[k].pcs| == |r[0].pcs| && Inv(r[k])
    ensures forall u: nat :: u < |r[k].pcs| && Waiting(r[k].pcs[u]) ==> Waiting(r[0].pcs[u])
    ensures r[k].blocked <= r[0].blocked
  {
    if k > 0 {
      NoNewcomers(r, k - 1);
      assert Step(r[k - 1], r[k - 1 + 1]);
      StepKeepsOut(r[k - 1], r[k]);
    }
  }

  /** No overtaking. From any moment on, and for as long as wake-ups have been pending without a break,
      the waiters are among those who were waiting at that moment; when the last wake-up has been
      collected, at least as many of them have left as there were wake-ups, and after a broadcast all have. */
  lemma NoOvertaking(r: seq<State>, k: nat)
    requires Continues(r) && Inv(r[0]) && 0 < k < |r|
    requires forall i :: 0 <= i < k ==> r[i].toUnblock > 0
    ensures |r[k].pcs| == |r[0].pcs|
    ensures forall u: nat :: u < |r[k].pcs| && Waiting(r[k].pcs[u]) ==> Waiting(r[0].pcs[u])
    ensures r[k].toUnblock == 0 ==> Waiters(r[0]) - Waiters(r[k]) >= r[0].toUnblock
    ensures r[k].toUnblock == 0 && r[0].toUnblock == Waiters(r[0]) ==>
              forall u: nat :: u < |r[k].pcs| ==> !Waiting(r[k].pcs[u])
  {
    NoNewcomers(r, k);
    forall u: nat | u < |r[k].pcs| && Waiting(r[k].pcs[u])
      ensures Waiters(r[k]) >= 1
    {
      SumPair(r[k].pcs, WaitWeight, u, u);
    }
  }

  /** A broadcast wakes everyone: once it has covered all waiters, any run in which things come to rest, with
      whatever calls, time-outs and signals on the way, passes a moment at which all of them have left. */
  lemma BroadcastWakesAll(r: seq<State>) returns (k: nat)
    requires Continues(r) && Inv(r[0]) && r[0].toUnblock == Waiters(r[0]) > 0
    requires !CanMove(r[|r| - 1]) && !r[|r| - 1].freed
    ensures 0 < k < |r| && r[k].toUnblock == 0 && |r[k].pcs| == |r[0].pcs|
    ensures forall u: nat :: u < |r[k].pcs| ==> !Waiting(r[k].pcs[u])
    ensures forall i, u: nat :: 0 <= i < k && u < |r[i].pcs| && u < |r[0].pcs| ==>
                                  Waiting(r[i].pcs[u]) ==> Waiting(r[0].pcs[u])
  {
    hide Step, Inv, Waiters, CanMove, Continues;
    RunHasStart(r);
    ContinuesInv(r, |r| - 1);
    QuietExactly(r[|r| - 1]);
    k := FirstCollected(r);
    NoOvertaking(r, k);
    forall i | 0 <= i < k
      ensures |r[i].pcs| == |r[0].pcs|
      ensures forall u: nat :: u < |r[i].pcs| && Waiting(r[i].pcs[u]) ==> Waiting(r[0].pcs[u])
    {
      NoNewcomers(r, i);
    }
  }

  lemma RunHasStart(r: seq<State>)
    requires Continues(r)
    ensures r != []
  {
  }

  lemma FirstCollected(r: seq<State>) returns (k: nat)
    requires Continues(r) && Inv(r[0]) && r[0].toUnblock > 0 && r[|r| - 1].toUnblock == 0
    ensures 0 < k < |r| && r[k].toUnblock == 0 && forall i :: 0 <= i < k ==> r[i].toUnblock > 0
  {
    k := 0;
    while r[k].toUnblock > 0
      invariant k < |r|
      invariant forall i :: 0 <= i < k ==> r[i].toUnblock > 0
      decreases |r| - k
    {
      k := k + 1;
    }
    ContinuesInv(r, k);
  }

  // ----- destroy -----

  /** Destroy goes through exactly when nobody is waiting; then nobody is inside a locked section either. */
  lemma DestroyExactly(s: State, t: nat, s': State)
    requires Inv(s) && !s.freed && t < |s.pcs| && s.pcs[t] == DesCheck && Internal(s, t, 1) == Some(s')
    ensures s'.freed <==> Waiters(s) == 0
    ensures Waiters(s') == Waiters(s)
    ensures forall u: nat :: u < |s.pcs| && u != t ==> !OwnsGate(s.pcs[u]) && !OwnsMutex(s.pcs[u])
  {
    GateExclusion(s);
    WaitersBounds(s);
    assert OwnsMutex(s.pcs[t]) && s.owner == Some(t);
    Moves(s, t, s'.pcs[t]);
  }

  lemma OnlyDestroyFrees(s: State, t: nat, c: Choice, s': State)
    requires t < |s.pcs| && Next(s, t, c) == Some(s') && s'.freed
    ensures s.pcs[t] == DesCheck && c.Go? && !s.freed
  {
  }

  /** In no run is the variable freed under a waiter. */
  lemma FreedMeansNoWaiter(r: seq<State>, i: nat)
    requires Run(r) && i < |r| && r[i].freed
    ensures Waiters(r[i]) == 0
  {
    Safety(r, i - 1);
    assert Step(r[i - 1], r[i - 1 + 1]);
    var t: nat, c :| t < |r[i - 1].pcs| && Next(r[i - 1], t, c) == Some(r[i]);
    OnlyDestroyFrees(r[i - 1], t, c, r[i]);
    DestroyExactly(r[i - 1], t, r[i]);
  }
}
