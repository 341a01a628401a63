/**
 * The condition variable: every thread runs one of the three operations (wait, signal or broadcast,
 * destroy) one atomic step at a time, in any interleaving, with time-outs and cancellation at any moment.
 * Semaphores are counters, the unblock mutex is an owner.
 */
module CondVar {
  import opened Sums
  import opened Wrappers

  const INT_MAX := 0x7fff_ffff

  /** The number of departures after which a waiter folds nWaitersGone into nWaitersBlocked. */
  const GONE_LIMIT := INT_MAX / 2

  /** Where a thread is. The number or flag is what the thread keeps in a local variable. */
  datatype Pc =
    | Idle
    // wait
    | WaitGate                  // about to take the gate semaphore
    | HasGate                   // about to read nWaitersBlocked
    | Loaded(n: int)            // has read n, about to store n + 1
    | Stored                    // about to post the gate
    | Blocked                   // on the queue semaphore
    | Woken(token: bool)        // left the queue, with a token or by time-out or cancellation
    | Cleaning(token: bool)     // owns the unblock mutex, about to update the counters
    | FoldWait                  // nWaitersGone reached the limit, about to take the gate
    | FoldHasGate
    | FoldSubtracted
    | FoldPosted
    | CleanUnlock(left: int)    // about to release the mutex; left is nSignalsWasLeft
    | PostGate                  // the last signalled waiter, about to reopen the gate
    // signal and broadcast
    | SigWait(all: bool)
    | SigChecking(all: bool)
    | SigGateWait(all: bool)
    | SigHasGate(all: bool)
    | SigNoop
    | SigUnlock(issue: int)
    | SigPost(issue: int)       // still owes that many posts of the queue semaphore
    // destroy
    | DesWait
    | DesTry
    | DesCheck
    | DesUnlock
    | DesBusy

  datatype State = State(
    blocked: int,         // nWaitersBlocked
    gone: int,            // nWaitersGone
    toUnblock: int,       // nWaitersToUnblock
    queue: int,           // semBlockQueue
    gate: int,            // semBlockLock
    owner: Option<nat>,   // mtxUnblockLock
    freed: bool,
    pcs: seq<Pc>)

  /** What the scheduler or the environment picks: the next step of a call (a poster may post any part of
      what it owes), the start of a call, a time-out or cancellation in the queue, a cancellation at the gate. */
  datatype Choice =
    | Go(k: int)
    | StartWait
    | StartSignal(all: bool)
    | StartDestroy
    | TimeOut
    | CancelAtGate

  function Initial(n: nat): State {
    State(0, 0, 0, 0, 1, None, false, seq(n, _ => Idle))
  }

  function At(s: State, t: nat, pc: Pc): State
    requires t < |s.pcs|
  {
    s.(pcs := s.pcs[t := pc])
  }

  /** sem_wait on the gate. */
  function TakeGate(s: State, t: nat, pc: Pc): Option<State>
    requires t < |s.pcs|
  {
    if s.gate > 0 then Some(At(s, t, pc).(gate := s.gate - 1)) else None
  }

  /** sem_post on the gate. */
  function OpenGate(s: State, t: nat, pc: Pc): Option<State>
    requires t < |s.pcs|
  {
    Some(At(s, t, pc).(gate := s.gate + 1))
  }

  function Lock(s: State, t: nat, pc: Pc): Option<State>
    requires t < |s.pcs|
  {
    if s.owner == None then Some(At(s, t, pc).(owner := Some(t))) else None
  }

  function Unlock(s: State, t: nat, pc: Pc): Option<State>
    requires t < |s.pcs|
  {
    Some(At(s, t, pc).(owner := None))
  }

  /** The counter update of the wait cleanup handler. */
  function Retract(s: State, t: nat): State
    requires t < |s.pcs|
  {
    if s.toUnblock != 0 then At(s, t, CleanUnlock(s.toUnblock)).(toUnblock := s.toUnblock - 1)
    else At(s, t, if s.gone + 1 == GONE_LIMIT then FoldWait else CleanUnlock(0)).(gone := s.gone + 1)
  }

  /** The decision of signal and broadcast under the mutex. */
  function Check(s: State, t: nat, all: bool): State
    requires t < |s.pcs|
  {
    if s.toUnblock != 0 then
      if s.blocked == 0 then At(s, t, SigNoop)
      else if all then At(s, t, SigUnlock(s.blocked)).(toUnblock := s.toUnblock + s.blocked, blocked := 0)
      else At(s, t, SigUnlock(1)).(toUnblock := s.toUnblock + 1, blocked := s.blocked - 1)
    else if s.blocked > s.gone then At(s, t, SigGateWait(all))
    else At(s, t, SigNoop)
  }

  /** The update of signal and broadcast once they have closed the gate. */
  function CloseAndMove(s: State, t: nat, all: bool): State
    requires t < |s.pcs|
  {
    var waiting := s.blocked - s.gone;
    if all then At(s, t, SigUnlock(waiting)).(gone := 0, toUnblock := waiting, blocked := 0)
    else At(s, t, SigUnlock(1)).(gone := 0, toUnblock := 1, blocked := waiting - 1)
  }

  function EnterStep(s: State, t: nat): Option<State>
    requires t < |s.pcs|
  {
    match s.pcs[t]
    case WaitGate => TakeGate(s, t, HasGate)
    case HasGate => Some(At(s, t, Loaded(s.blocked)))
    case Loaded(n) => Some(At(s, t, Stored).(blocked := n + 1))
    case Stored => OpenGate(s, t, Blocked)
    case _ => None
  }

  function LeaveStep(s: State, t: nat): Option<State>
    requires t < |s.pcs|
  {
    match s.pcs[t]
    case Blocked => if s.queue > 0 then Some(At(s, t, Woken(true)).(queue := s.queue - 1)) else None
    case Woken(token) => Lock(s, t, Cleaning(token))
    case Cleaning(_) => Some(Retract(s, t))
    case CleanUnlock(left) => Unlock(s, t, if left == 1 then PostGate else Idle)
    case PostGate => OpenGate(s, t, Idle)
    case _ => None
  }

  function FoldStep(s: State, t: nat): Option<State>
    requires t < |s.pcs|
  {
    match s.pcs[t]
    case FoldWait => TakeGate(s, t, FoldHasGate)
    case FoldHasGate => Some(At(s, t, FoldSubtracted).(blocked := s.blocked - s.gone))
    case FoldSubtracted => OpenGate(s, t, FoldPosted)
    case FoldPosted => Some(At(s, t, CleanUnlock(0)).(gone := 0))
    case _ => None
  }

  function SignalStep(s: State, t: nat, k: int): Option<State>
    requires t < |s.pcs|
  {
    match s.pcs[t]
    case SigWait(all) => Lock(s, t, SigChecking(all))
    case SigChecking(all) => Some(Check(s, t, all))
    case SigGateWait(all) => TakeGate(s, t, SigHasGate(all))
    case SigHasGate(all) => Some(CloseAndMove(s, t, all))
    case SigNoop => Unlock(s, t, Idle)
    case SigUnlock(issue) => Unlock(s, t, SigPost(issue))
    case SigPost(issue) =>
      if 1 <= k <= issue then Some(At(s, t, if k == issue then Idle else SigPost(issue - k)).(queue := s.queue + k))
      else None
    case _ => None
  }

  function DestroyStep(s: State, t: nat): Option<State>
    requires t < |s.pcs|
  {
    match s.pcs[t]
    case DesWait => TakeGate(s, t, DesTry)
    case DesTry => if s.owner == None then Lock(s, t, DesCheck) else Some(At(s, t, DesBusy))
    case DesCheck =>
      if s.blocked > s.gone then OpenGate(s, t, DesUnlock)
      else Some(At(s, t, Idle).(owner := None, freed := true))
    case DesUnlock => Unlock(s, t, Idle)
    case DesBusy => OpenGate(s, t, Idle)
    case _ => None
  }

  predicate Entering(pc: Pc) { pc.WaitGate? || pc.HasGate? || pc.Loaded? || pc.Stored? }

  predicate Leaving(pc: Pc) { pc.Blocked? || pc.Woken? || pc.Cleaning? || pc.CleanUnlock? || pc.PostGate? }

  predicate Folding(pc: Pc) { pc.FoldWait? || pc.FoldHasGate? || pc.FoldSubtracted? || pc.FoldPosted? }

  predicate Destroying(pc: Pc) { pc.DesWait? || pc.DesTry? || pc.DesCheck? || pc.DesUnlock? || pc.DesBusy? }

  /** The next step of thread t's current call; None when it has none or must wait. */
  function Internal(s: State, t: nat, k: int): Option<State>
    requires t < |s.pcs|
  {
    var pc := s.pcs[t];
    if s.freed || pc.Idle? then None
    else if Entering(pc) then EnterStep(s, t)
    else if Leaving(pc) then LeaveStep(s, t)
    else if Folding(pc) then FoldStep(s, t)
    else if Destroying(pc) then DestroyStep(s, t)
    else SignalStep(s, t, k)
  }

  /** The start of a call, and the ways out of a wait that no other thread causes. */
  function External(s: State, t: nat, c: Choice): Option<State>
    requires t < |s.pcs|
  {
    match c
    case Go(_) => None
    case StartWait => if s.pcs[t] == Idle then Some(At(s, t, WaitGate)) else None
    case StartSignal(all) => if s.pcs[t] == Idle then Some(At(s, t, SigWait(all))) else None
    case StartDestroy => if s.pcs[t] == Idle then Some(At(s, t, DesWait)) else None
    case TimeOut => if s.pcs[t] == Blocked then Some(At(s, t, Woken(false))) else None
    case CancelAtGate => if s.pcs[t] == WaitGate then Some(At(s, t, Idle)) else None
  }

  function Next(s: State, t: nat, c: Choice): Option<State>
    requires t < |s.pcs|
  {
    if s.freed then None else if c.Go? then Internal(s, t, c.k) else External(s, t, c)
  }

  ghost predicate Step(s: State, s': State) {
    exists t: nat, c :: t < |s.pcs| && Next(s, t, c) == Some(s')
  }

  /** A run: from some number of idle threads, any steps in any order. */
  ghost predicate Run(r: seq<State>) {
    && r != []
    && r[0] == Initial(|r[0].pcs|)
    && forall i :: 0 <= i < |r| - 1 ==> Step(r[i], r[i + 1])
  }

  // ----- the invariant -----

  predicate OwnsMutex(pc: Pc) {
    pc.Cleaning? || pc.FoldWait? || pc.FoldHasGate? || pc.FoldSubtracted? || pc.FoldPosted? || pc.CleanUnlock?
    || pc.SigChecking? || pc.SigGateWait? || pc.SigHasGate? || pc.SigNoop? || pc.SigUnlock?
    || pc.DesCheck? || pc.DesUnlock?
  }

  /** The threads that hold the one gate token; the one that is to reopen the gate holds it already. */
  predicate OwnsGate(pc: Pc) {
    pc.HasGate? || pc.Loaded? || pc.Stored? || pc.FoldHasGate? || pc.FoldSubtracted?
    || pc == CleanUnlock(1) || pc.PostGate? || pc.SigHasGate? || pc.DesTry? || pc.DesCheck? || pc.DesBusy?
  }

  /** The threads that count as waiting: entered in nWaitersBlocked and not yet retracted. */
  predicate Waiting(pc: Pc) {
    pc.Stored? || pc.Blocked? || pc.Woken? || pc.Cleaning?
  }

  function GateWeight(pc: Pc): int { if OwnsGate(pc) then 1 else 0 }

  function WaitWeight(pc: Pc): int { if Waiting(pc) then 1 else 0 }

  /** Wake-ups in flight: posts a signaller still owes, tokens a waiter took and has not yet accounted for. */
  function WakeWeight(pc: Pc): int {
    match pc
    case SigUnlock(n) => n
    case SigPost(n) => n
    case Woken(token) => if token then 1 else 0
    case Cleaning(token) => if token then 1 else 0
    case _ => 0
  }

  ghost function Waiters(s: State): int { Sum(s.pcs, WaitWeight) }

  /** Departures not yet subtracted from nWaitersBlocked. */
  function Unsettled(s: State): int {
    if s.owner.Some? && s.owner.value < |s.pcs| &&
       (s.pcs[s.owner.value].FoldSubtracted? || s.pcs[s.owner.value].FoldPosted?) then 0
    else s.gone
  }

  ghost predicate MutexInv(s: State) {
    && (s.owner.Some? ==> s.owner.value < |s.pcs|)
    && forall t: nat :: t < |s.pcs| ==> (OwnsMutex(s.pcs[t]) <==> s.owner == Some(t))
  }

  ghost predicate GateInv(s: State) {
    && s.gate >= 0
    && s.gate + Sum(s.pcs, GateWeight) + (if s.toUnblock > 0 then 1 else 0) + (if s.freed then 1 else 0) == 1
  }

  ghost predicate CountInv(s: State) {
    && 0 <= s.blocked && 0 <= s.gone <= GONE_LIMIT && 0 <= s.toUnblock && 0 <= s.queue
    && (s.toUnblock > 0 ==> s.gone == 0)
    && s.blocked - Unsettled(s) + s.toUnblock == Waiters(s)
  }

  ghost predicate WakeInv(s: State) {
    s.queue + Sum(s.pcs, WakeWeight) >= s.toUnblock
  }

  /** What a thread knows from its own position. */
  ghost predicate LocalInv(s: State, pc: Pc) {
    match pc
    case Loaded(n) => n == s.blocked
    case SigGateWait(_) => s.toUnblock == 0 && s.blocked > s.gone
    case SigHasGate(_) => s.toUnblock == 0 && s.blocked > s.gone
    case SigUnlock(n) => n >= 1
    case SigPost(n) => n >= 1
    case FoldWait => s.toUnblock == 0 && s.gone == GONE_LIMIT
    case FoldHasGate => s.toUnblock == 0 && s.gone == GONE_LIMIT
    case FoldSubtracted => s.toUnblock == 0 && s.gone == GONE_LIMIT
    case FoldPosted => s.toUnblock == 0 && s.gone == GONE_LIMIT
    case CleanUnlock(left) => left >= 0
    case _ => true
  }

  ghost predicate Inv(s: State) {
    && MutexInv(s)
    && GateInv(s)
    && CountInv(s)
    && WakeInv(s)
    && (forall t: nat :: t < |s.pcs| ==> LocalInv(s, s.pcs[t]))
    && (s.gone == GONE_LIMIT ==> s.owner.Some? && Folding(s.pcs[s.owner.value]))
  }

  lemma InitialInv(n: nat)
    ensures Inv(Initial(n))
  {
    var s := Initial(n);
    SumZero(s.pcs, GateWeight);
    SumZero(s.pcs, WaitWeight);
    SumZero(s.pcs, WakeWeight);
  }

  /** How the three sums move when one thread moves. */
  lemma Moves(s: State, t: nat, pc: Pc)
    requires t < |s.pcs|
    ensures Sum(s.pcs[t := pc], GateWeight) == Sum(s.pcs, GateWeight) - GateWeight(s.pcs[t]) + GateWeight(pc)
    ensures Sum(s.pcs[t := pc], WaitWeight) == Sum(s.pcs, WaitWeight) - WaitWeight(s.pcs[t]) + WaitWeight(pc)
    ensures Sum(s.pcs[t := pc], WakeWeight) == Sum(s.pcs, WakeWeight) - WakeWeight(s.pcs[t]) + WakeWeight(pc)
  {
    SumUpdate(s.pcs, t, pc, GateWeight);
    SumUpdate(s.pcs, t, pc, WaitWeight);
    SumUpdate(s.pcs, t, pc, WakeWeight);
  }

  /** At most one thread holds the gate token, and none does while the gate is open or wake-ups are pending. */
  lemma GateExclusion(s: State)
    requires GateInv(s)
    ensures Sum(s.pcs, GateWeight) >= 0
    ensures forall t: nat, u: nat :: t < |s.pcs| && u < |s.pcs| && OwnsGate(s.pcs[t]) && OwnsGate(s.pcs[u]) ==> t == u
    ensures forall t: nat :: t < |s.pcs| && OwnsGate(s.pcs[t]) ==> s.gate == 0 && s.toUnblock <= 0 && !s.freed
  {
    SumNonNegative(s.pcs, GateWeight);
    forall t: nat, u: nat | t < |s.pcs| && u < |s.pcs| && OwnsGate(s.pcs[t]) && OwnsGate(s.pcs[u])
      ensures t == u
    {
      SumPair(s.pcs, GateWeight, t, u);
    }
    forall t: nat | t < |s.pcs| && OwnsGate(s.pcs[t])
      ensures s.gate == 0 && s.toUnblock <= 0 && !s.freed
    {
      SumPair(s.pcs, GateWeight, t, t);
    }
  }

  lemma WaitersBounds(s: State)
    ensures 0 <= Waiters(s) <= |s.pcs|
  {
    SumBounds(s.pcs, WaitWeight, 1);
  }

  lemma WakesNonNegative(s: State)
    requires forall t: nat :: t < |s.pcs| ==> LocalInv(s, s.pcs[t])
    ensures 0 <= Sum(s.pcs, WakeWeight)
  {
    SumNonNegative(s.pcs, WakeWeight);
  }

  // What one step may do, seen by the thread that takes it (Knows) and by the others (Guarantee).

  ghost predicate Knows(s: State, t: nat) {
    && t < |s.pcs|
    && LocalInv(s, s.pcs[t])
    && (OwnsMutex(s.pcs[t]) <==> s.owner == Some(t))
    && (OwnsGate(s.pcs[t]) ==> s.gate == 0 && s.toUnblock <= 0)
    && (s.gone == GONE_LIMIT ==> Folding(s.pcs[t]) || !OwnsMutex(s.pcs[t]))
    && 0 <= s.blocked && 0 <= s.gone <= GONE_LIMIT && 0 <= s.toUnblock && 0 <= s.queue && 0 <= s.gate
    && (s.toUnblock > 0 ==> s.gone == 0)
  }

  function GateTotal(s: State): int {
    s.gate + (if s.toUnblock > 0 then 1 else 0) + (if s.freed then 1 else 0)
  }

  function CountTotal(s: State): int { s.blocked - Unsettled(s) + s.toUnblock }

  function WakeTotal(s: State): int { s.queue - s.toUnblock }

  ghost predicate Guarantee(s: State, t: nat, s': State)
    requires t < |s.pcs|
  {
    && |s'.pcs| == |s.pcs| && s'.pcs == s.pcs[t := s'.pcs[t]]
    && (s'.owner == s.owner
        || (s.owner == None && s'.owner == Some(t) && OwnsMutex(s'.pcs[t]))
        || (s.owner == Some(t) && s'.owner == None && !OwnsMutex(s'.pcs[t])))
    && (!OwnsMutex(s.pcs[t]) ==> s'.toUnblock == s.toUnblock && s'.gone == s.gone && s'.blocked >= s.blocked)
    && (!OwnsGate(s.pcs[t]) && s.toUnblock <= 0 ==> s'.blocked == s.blocked)
  }

  /** A legal step of t: its frame, its own new knowledge, and the balance of the three totals. */
  ghost predicate Sound(s: State, t: nat, s': State)
    requires t < |s.pcs|
  {
    && Guarantee(s, t, s')
    && (OwnsMutex(s'.pcs[t]) <==> s'.owner == Some(t))
    && LocalInv(s', s'.pcs[t])
    && (s'.gone == GONE_LIMIT ==> Folding(s'.pcs[t]) || !OwnsMutex(s.pcs[t]))
    && 0 <= s'.gone <= GONE_LIMIT && 0 <= s'.toUnblock && 0 <= s'.queue && 0 <= s'.gate
    && (s'.toUnblock > 0 ==> s'.gone == 0 && s'.blocked >= 0)
    && GateTotal(s') + GateWeight(s'.pcs[t]) == GateTotal(s) + GateWeight(s.pcs[t])
    && CountTotal(s') - WaitWeight(s'.pcs[t]) == CountTotal(s) - WaitWeight(s.pcs[t])
    && (s'.toUnblock == 0 || WakeTotal(s') + WakeWeight(s'.pcs[t]) >= WakeTotal(s) + WakeWeight(s.pcs[t]))
  }

  lemma EnterSound(s: State, t: nat, s': State)
    requires Knows(s, t) && !s.freed && EnterStep(s, t) == Some(s')
    ensures Sound(s, t, s')
  {
  }

  lemma RetractSound(s: State, t: nat, s': State)
    requires Knows(s, t) && !s.freed && LeaveStep(s, t) == Some(s') && s.pcs[t].Cleaning?
    ensures Sound(s, t, s')
  {
  }

  lemma LeaveSound(s: State, t: nat, s': State)
    requires Knows(s, t) && !s.freed && LeaveStep(s, t) == Some(s')
    ensures Sound(s, t, s')
  {
    if s.pcs[t].Cleaning? {
      RetractSound(s, t, s');
    } else {
      hide Retract;
    }
  }

  lemma FoldSound(s: State, t: nat, s': State)
    requires Knows(s, t) && !s.freed && FoldStep(s, t) == Some(s')
    ensures Sound(s, t, s')
  {
  }

  lemma DecisionSound(s: State, t: nat, k: int, s': State)
    requires Knows(s, t) && !s.freed && SignalStep(s, t, k) == Some(s')
        && (s.pcs[t].SigChecking? || s.pcs[t].SigHasGate?)
    ensures Sound(s, t, s')
  {
  }

  lemma SignalSound(s: State, t: nat, k: int, s': State)
    requires Knows(s, t) && !s.freed && SignalStep(s, t, k) == Some(s')
    requires !s.pcs[t].SigChecking? && !s.pcs[t].SigHasGate?
    ensures Sound(s, t, s')
  {
  }

  lemma DestroySound(s: State, t: nat, s': State)
    requires Knows(s, t) && !s.freed && DestroyStep(s, t) == Some(s')
    ensures Sound(s, t, s')
  {
  }

  lemma CallSound(s: State, t: nat, c: Choice, s': State)
    requires Knows(s, t) && !s.freed && External(s, t, c) == Some(s') && s.pcs[t].Idle?
    ensures Sound(s, t, s')
  {
  }

  lemma QuitSound(s: State, t: nat, c: Choice, s': State)
    requires Knows(s, t) && !s.freed && External(s, t, c) == Some(s') && !s.pcs[t].Idle?
    ensures Sound(s, t, s')
  {
  }

  lemma ExternalSound(s: State, t: nat, c: Choice, s': State)
    requires Knows(s, t) && !s.freed && External(s, t, c) == Some(s')
    ensures Sound(s, t, s')
  {
    hide External, Sound;
    if s.pcs[t].Idle? {
      CallSound(s, t, c, s');
    } else {
      QuitSound(s, t, c, s');
    }
  }

  lemma NextSound(s: State, t: nat, c: Choice, s': State)
    requires Knows(s, t) && Next(s, t, c) == Some(s')
    ensures Sound(s, t, s')
  {
    var pc := s.pcs[t];
    if !c.Go? {
      ExternalSound(s, t, c, s');
    } else if Entering(pc) {
      EnterSound(s, t, s');
    } else if Leaving(pc) {
      LeaveSound(s, t, s');
    } else if Folding(pc) {
      FoldSound(s, t, s');
    } else if Destroying(pc) {
      DestroySound(s, t, s');
    } else if pc.SigChecking? || pc.SigHasGate? {
      DecisionSound(s, t, c.k, s');
    } else {
      SignalSound(s, t, c.k, s');
    }
  }

  lemma InvKnows(s: State, t: nat)
    requires Inv(s) && t < |s.pcs|
    ensures Knows(s, t)
  {
    GateExclusion(s);
  }

  /** What the others know survives a legal step of t. */
  lemma SoundOthers(s: State, t: nat, s': State)
    requires Inv(s) && t < |s.pcs| && Sound(s, t, s')
    ensures MutexInv(s')
    ensures forall u: nat :: u < |s'.pcs| ==> LocalInv(s', s'.pcs[u])
    ensures s'.gone == GONE_LIMIT ==> s'.owner.Some? && Folding(s'.pcs[s'.owner.value])
  {
    GateExclusion(s);
    forall u: nat | u < |s'.pcs|
      ensures OwnsMutex(s'.pcs[u]) <==> s'.owner == Some(u)
      ensures LocalInv(s', s'.pcs[u])
    {
      if u != t {
        assert s'.pcs[u] == s.pcs[u];
        assert OwnsMutex(s.pcs[u]) <==> s.owner == Some(u);
        assert OwnsMutex(s.pcs[t]) <==> s.owner == Some(t);
        assert LocalInv(s, s.pcs[u]);
        assert OwnsGate(s.pcs[u]) ==> !OwnsGate(s.pcs[t]) && s.toUnblock <= 0;
      }
    }
  }

  lemma SoundTotals(s: State, t: nat, s': State)
    requires Inv(s) && t < |s.pcs| && Sound(s, t, s') && MutexInv(s')
    requires forall u: nat :: u < |s'.pcs| ==> LocalInv(s', s'.pcs[u])
    ensures GateInv(s') && CountInv(s') && WakeInv(s')
  {
    Moves(s, t, s'.pcs[t]);
    WaitersBounds(s');
    WakesNonNegative(s');
  }

  /** Every step of every thread keeps the invariant. */
  lemma StepInv(s: State, t: nat, c: Choice, s': State)
    requires Inv(s) && t < |s.pcs| && Next(s, t, c) == Some(s')
    ensures Inv(s') && |s'.pcs| == |s.pcs|
  {
    InvKnows(s, t);
    NextSound(s, t, c, s');
    SoundOthers(s, t, s');
    SoundTotals(s, t, s');
  }
}
