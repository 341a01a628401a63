/**
 * The barrier: any number of threads arrive and leave, one atomic step at a time, over any number of
 * rounds. The last to arrive parks the lock in the barrier and the last to leave releases it.
 */
module Barrier {
  import opened Sums

  datatype Holder = Free | ByThread(t: nat) | ByBarrier

  datatype Pc =
    | Outside
    | AtLock
    | Arriving            // holds the lock, about to count itself in
    | Releasing           // counted in, not the last, about to release the lock
    | Waiting             // on the semaphore
    | Posting(n: int)     // the last to arrive, still owes n posts
    | Leaving             // about to count itself out
    | LastOut             // counted out as the last, about to release the parked lock
    | DestroyTry
    | DestroyCheck        // destroy holds the lock

  /** What a caller can observe: it arrived, or it left, with or without the serial result. */
  datatype Event = Arrive(t: nat) | Depart(t: nat, serial: bool)

  datatype State = State(
    height: nat,          // nInitialBarrierHeight
    cur: int,             // nCurrentBarrierHeight
    sem: int,             // semBarrierBreeched
    holder: Holder,       // lock and proxynode
    freed: bool,
    pcs: seq<Pc>,
    log: seq<Event>)

  function Initial(height: nat, n: nat): State {
    State(height, height, 0, Free, false, seq(n, _ => Outside), [])
  }

  function At(s: State, t: nat, pc: Pc): State
    requires t < |s.pcs|
  {
    s.(pcs := s.pcs[t := pc])
  }

  /** Count in: the last to arrive parks the lock and posts for the others. */
  function CountIn(s: State, t: nat): State
    requires t < |s.pcs|
  {
    var s1 := s.(cur := s.cur - 1, log := s.log + [Arrive(t)]);
    if s.cur - 1 == 0 then
      At(s1, t, if s.height > 1 then Posting(s.height - 1) else Leaving).(holder := ByBarrier)
    else At(s1, t, Releasing)
  }

  /** Count out: the thread that restores the height is the last one and gets the serial result. */
  function CountOut(s: State, t: nat): State
    requires t < |s.pcs|
  {
    var last := s.cur + 1 == s.height;
    At(s, t, if last then LastOut else Outside).(cur := s.cur + 1, log := s.log + [Depart(t, last)])
  }

  predicate ArriveStep(s: State, t: nat, s': State)
    requires t < |s.pcs|
  {
    match s.pcs[t]
    case AtLock => s.holder == Free && s' == At(s, t, Arriving).(holder := ByThread(t))
    case Arriving => s' == CountIn(s, t)
    case Releasing => s' == At(s, t, Waiting).(holder := Free)
    case _ => false
  }

  predicate LeaveStep(s: State, t: nat, s': State)
    requires t < |s.pcs|
  {
    match s.pcs[t]
    case Waiting => s.sem > 0 && s' == At(s, t, Leaving).(sem := s.sem - 1)
    case Posting(n) =>
      var k := s'.sem - s.sem;
      1 <= k <= n && s' == At(s, t, if k == n then Leaving else Posting(n - k)).(sem := s.sem + k)
    case Leaving => s' == CountOut(s, t)
    case LastOut => s' == At(s, t, Outside).(holder := Free)
    case _ => false
  }

  predicate DestroyStep(s: State, t: nat, s': State)
    requires t < |s.pcs|
  {
    match s.pcs[t]
    case DestroyTry =>
      s' == if s.holder == Free then At(s, t, DestroyCheck).(holder := ByThread(t)) else At(s, t, Outside)
    case DestroyCheck => s' == At(s, t, Outside).(holder := Free, freed := s.cur >= s.height)
    case _ => false
  }

  /** The possible next states of thread t's current call; a poster may post any part of what it owes. */
  predicate Internal(s: State, t: nat, s': State)
    requires t < |s.pcs|
  {
    !s.freed && (ArriveStep(s, t, s') || LeaveStep(s, t, s') || DestroyStep(s, t, s'))
  }

  predicate Call(s: State, t: nat, s': State)
    requires t < |s.pcs|
  {
    !s.freed && s.pcs[t] == Outside && (s' == At(s, t, AtLock) || s' == At(s, t, DestroyTry))
  }

  ghost predicate Step(s: State, s': State) {
    exists t: nat :: t < |s.pcs| && (Internal(s, t, s') || Call(s, t, s'))
  }

  ghost predicate Run(r: seq<State>) {
    && r != []
    && r[0].height > 0
    && r[0] == Initial(r[0].height, |r[0].pcs|)
    && forall i :: 0 <= i < |r| - 1 ==> Step(r[i], r[i + 1])
  }

  // ----- the invariant -----

  predicate HoldsLock(pc: Pc) { pc.Arriving? || pc.Releasing? || pc.DestroyCheck? }

  /** Counted in and not yet counted out. */
  predicate Inside(pc: Pc) { pc.Releasing? || pc.Waiting? || pc.Posting? || pc.Leaving? }

  predicate OnTheWayOut(pc: Pc) { pc.Posting? || pc.Leaving? || pc.LastOut? }

  function InsideWeight(pc: Pc): int { if Inside(pc) then 1 else 0 }

  function WaitWeight(pc: Pc): int { if pc.Waiting? then 1 else 0 }

  function PostWeight(pc: Pc): int { if pc.Posting? then pc.n else 0 }

  function LastWeight(pc: Pc): int { if pc.LastOut? then 1 else 0 }

  /** True from the moment the last thread has arrived until the last one has released the lock. */
  predicate Opening(s: State) { s.holder == ByBarrier }

  ghost predicate ThreadInv(s: State) {
    && (s.holder.ByThread? ==> s.holder.t < |s.pcs|)
    && (forall t: nat :: t < |s.pcs| ==> (HoldsLock(s.pcs[t]) <==> s.holder == ByThread(t)))
    && (forall t: nat :: t < |s.pcs| && OnTheWayOut(s.pcs[t]) ==> Opening(s))
    && (forall t: nat :: t < |s.pcs| && s.pcs[t].Posting? ==> s.pcs[t].n >= 1)
  }

  ghost predicate CountInv(s: State) {
    && s.height > 0 && s.sem >= 0
    && s.cur + Sum(s.pcs, InsideWeight) == s.height
    && (Opening(s) ==> s.sem + Sum(s.pcs, PostWeight) == Sum(s.pcs, WaitWeight))
    && (!Opening(s) ==> s.sem == 0 && s.cur >= 1)
    && Sum(s.pcs, LastWeight) == (if Opening(s) && s.cur == s.height then 1 else 0)
  }

  function Change(e: Event, t: nat): int {
    if e.t != t then 0 else if e.Arrive? then 1 else -1
  }

  /** Arrivals of t minus its departures. */
  function Net(log: seq<Event>, t: nat): int {
    if log == [] then 0
    else
      Net(log[..|log| - 1], t)
      + Change(log[|log| - 1], t)
  }

  /** Event i of a barrier of the given height: rounds of height arrivals followed by height departures,
      the last of which, and only that one, has the serial result. */
  predicate InTurn(height: nat, i: nat, e: Event)
    requires height > 0
  {
    Fits(height, i % (2 * height), e)
  }

  predicate Fits(height: nat, place: int, e: Event) {
    if place < height then e.Arrive? else e.Depart? && (e.serial <==> place == 2 * height - 1)
  }

  /** The place in its round of the next event, read off the counter. */
  function Place(s: State): int {
    if !Opening(s) then s.height - s.cur else if s.cur == s.height then 0 else s.height + s.cur
  }

  ghost predicate LogInv(s: State) {
    && s.height > 0 && 0 <= s.cur <= s.height
    && (forall i: nat :: i < |s.log| ==> InTurn(s.height, i, s.log[i]))
    && |s.log| % (2 * s.height) == Place(s)
    && (forall t: nat :: Net(s.log, t) == (if t < |s.pcs| then InsideWeight(s.pcs[t]) else 0))
  }

  ghost predicate Inv(s: State) {
    ThreadInv(s) && CountInv(s) && LogInv(s)
  }

  lemma InitialInv(height: nat, n: nat)
    requires height > 0
    ensures Inv(Initial(height, n))
  {
    var s := Initial(height, n);
    SumZero(s.pcs, InsideWeight);
    SumZero(s.pcs, WaitWeight);
    SumZero(s.pcs, PostWeight);
    SumZero(s.pcs, LastWeight);
    Remainder(0, 2 * height, 0, 0);
  }

  lemma {:induction false} AtLeastOnce(d: int, m: int)
    requires d >= 1 && m >= 0
    ensures d * m >= m
  {
    if d > 1 {
      AtLeastOnce(d - 1, m);
    }
  }

  lemma DivisionIsUnique(m: int, q: int, r: int, q': int, r': int)
    requires 0 <= r < m && 0 <= r' < m && q * m + r == q' * m + r'
    ensures r == r'
  {
    if q > q' {
      AtLeastOnce(q - q', m);
    } else if q < q' {
      AtLeastOnce(q' - q, m);
    }
  }

  lemma Remainder(x: int, m: int, q: int, r: int)
    requires 0 <= r < m && x == q * m + r
    ensures x % m == r
  {
    DivisionIsUnique(m, q, r, x / m, x % m);
  }

  lemma NextPlace(x: nat, m: nat)
    requires m > 0
    ensures (x + 1) % m == if x % m == m - 1 then 0 else x % m + 1
  {
    var q, p := x / m, x % m;
    if p == m - 1 {
      assert x + 1 == (q + 1) * m;
      Remainder(x + 1, m, q + 1, 0);
    } else {
      Remainder(x + 1, m, q, p + 1);
    }
  }

  lemma Moves(s: State, t: nat, pc: Pc)
    requires t < |s.pcs|
    ensures Sum(s.pcs[t := pc], InsideWeight) == Sum(s.pcs, InsideWeight) - InsideWeight(s.pcs[t]) + InsideWeight(pc)
    ensures Sum(s.pcs[t := pc], WaitWeight) == Sum(s.pcs, WaitWeight) - WaitWeight(s.pcs[t]) + WaitWeight(pc)
    ensures Sum(s.pcs[t := pc], PostWeight) == Sum(s.pcs, PostWeight) - PostWeight(s.pcs[t]) + PostWeight(pc)
    ensures Sum(s.pcs[t := pc], LastWeight) == Sum(s.pcs, LastWeight) - LastWeight(s.pcs[t]) + LastWeight(pc)
  {
    SumUpdate(s.pcs, t, pc, InsideWeight);
    SumUpdate(s.pcs, t, pc, WaitWeight);
    SumUpdate(s.pcs, t, pc, PostWeight);
    SumUpdate(s.pcs, t, pc, LastWeight);
  }

  lemma SumFacts(s: State)
    requires ThreadInv(s)
    ensures 0 <= Sum(s.pcs, PostWeight) && 0 <= Sum(s.pcs, WaitWeight) <= Sum(s.pcs, InsideWeight)
    ensures !Opening(s) ==> Sum(s.pcs, PostWeight) == 0
  {
    SumNonNegative(s.pcs, PostWeight);
    SumNonNegative(s.pcs, WaitWeight);
    SumMonotone(s.pcs, WaitWeight, InsideWeight);
    if !Opening(s) {
      SumZero(s.pcs, PostWeight);
    }
  }

  /** While everyone arrives, those inside are those on the semaphore. */
  lemma InsideIsWaiting(s: State)
    requires ThreadInv(s) && !Opening(s)
    requires forall t: nat :: t < |s.pcs| ==> !s.pcs[t].Releasing?
    ensures Sum(s.pcs, InsideWeight) == Sum(s.pcs, WaitWeight)
  {
    SumMonotone(s.pcs, WaitWeight, InsideWeight);
    SumMonotone(s.pcs, InsideWeight, WaitWeight);
  }

  /** What thread t may rely on when it takes a step. */
  ghost predicate Knows(s: State, t: nat) {
    && t < |s.pcs| && s.height > 0 && 0 <= s.cur && s.cur + InsideWeight(s.pcs[t]) <= s.height && s.sem >= 0
    && (HoldsLock(s.pcs[t]) <==> s.holder == ByThread(t))
    && (OnTheWayOut(s.pcs[t]) ==> Opening(s))
    && (s.pcs[t].Posting? ==> s.pcs[t].n >= 1)
    && (s.pcs[t].LastOut? ==> s.cur == s.height)
    && (!Opening(s) ==> s.cur >= 1)
    && (s.pcs[t].Waiting? && s.sem > 0 ==> Opening(s))
  }

  predicate Flag(s: State) { Opening(s) && s.cur == s.height }

  /** A legal step: who holds the lock, how the counters balance, and what is logged. */
  ghost predicate Sound(s: State, t: nat, s': State)
    requires t < |s.pcs|
  {
    var pc, pc' := s.pcs[t], (if |s'.pcs| == |s.pcs| then s'.pcs[t] else Outside);
    && s'.height == s.height && |s'.pcs| == |s.pcs| && s'.pcs == s.pcs[t := pc']
    && (HoldsLock(pc') <==> s'.holder == ByThread(t))
    && (s'.holder == s.holder || (s.holder == Free && s'.holder == ByThread(t))
        || (s.holder == ByThread(t) && !s'.holder.ByThread?) || (pc.LastOut? && s'.holder == Free))
    && (OnTheWayOut(pc') ==> Opening(s')) && (pc'.Posting? ==> pc'.n >= 1)
    && s'.sem >= 0 && s'.cur + InsideWeight(pc') == s.cur + InsideWeight(pc)
    && (Opening(s) && Opening(s') ==>
          s'.sem + PostWeight(pc') - WaitWeight(pc') == s.sem + PostWeight(pc) - WaitWeight(pc))
    && (!Opening(s) && Opening(s') ==>
          pc.Arriving? && s.cur == 1 && s'.sem == s.sem && PostWeight(pc') == s.height - 1 && WaitWeight(pc') == 0)
    && (Opening(s) && !Opening(s') ==> pc.LastOut? && pc' == Outside && s'.sem == s.sem && s'.cur == s.cur)
    && (!Opening(s) && !Opening(s') ==> s'.sem == s.sem && s'.cur >= 1)
    && LastWeight(pc') - LastWeight(pc) == (if Flag(s') then 1 else 0) - (if Flag(s) then 1 else 0)
    && (s'.log == s.log ==> Place(s') == Place(s) && InsideWeight(pc') == InsideWeight(pc))
    && (s'.log != s.log ==>
          && s.log != s'.log && |s'.log| == |s.log| + 1 && s'.log == s.log + [s'.log[|s.log|]]
          && Fits(s.height, Place(s), s'.log[|s.log|]) && s'.log[|s.log|].t == t
          && Change(s'.log[|s.log|], t) == InsideWeight(pc') - InsideWeight(pc)
          && Place(s') == if Place(s) == 2 * s.height - 1 then 0 else Place(s) + 1)
  }

  lemma ArriveSound(s: State, t: nat, s': State)
    requires Knows(s, t) && ArriveStep(s, t, s')
    ensures Sound(s, t, s')
  {
  }

  lemma LeaveSound(s: State, t: nat, s': State)
    requires Knows(s, t) && LeaveStep(s, t, s')
    ensures Sound(s, t, s')
  {
  }

  lemma DestroySound(s: State, t: nat, s': State)
    requires Knows(s, t) && DestroyStep(s, t, s')
    ensures Sound(s, t, s')
  {
  }

  lemma CallSound(s: State, t: nat, s': State)
    requires Knows(s, t) && Call(s, t, s')
    ensures Sound(s, t, s')
  {
  }

  lemma InvKnows(s: State, t: nat)
    requires Inv(s) && t < |s.pcs|
    ensures Knows(s, t)
  {
    SumPair(s.pcs, InsideWeight, t, t);
    SumPair(s.pcs, LastWeight, t, t);
  }

  lemma SoundThreads(s: State, t: nat, s': State)
    requires Inv(s) && t < |s.pcs| && Sound(s, t, s')
    ensures ThreadInv(s')
  {
    forall u: nat | u < |s.pcs| && u != t
      ensures HoldsLock(s'.pcs[u]) <==> s'.holder == ByThread(u)
      ensures OnTheWayOut(s'.pcs[u]) ==> Opening(s')
      ensures s'.pcs[u].Posting? ==> s'.pcs[u].n >= 1
    {
      assert s'.pcs[u] == s.pcs[u];
      assert HoldsLock(s.pcs[u]) <==> s.holder == ByThread(u);
      if s.pcs[t].LastOut? {
        SumPair(s.pcs, LastWeight, t, u);
        SumPair(s.pcs, InsideWeight, u, u);
      }
    }
  }

  lemma SoundCounts(s: State, t: nat, s': State)
    requires Inv(s) && t < |s.pcs| && Sound(s, t, s')
    ensures CountInv(s')
  {
    Moves(s, t, s'.pcs[t]);
    SumFacts(s);
    assert HoldsLock(s.pcs[t]) <==> s.holder == ByThread(t);
    if s.pcs[t].LastOut? {
      SumPair(s.pcs, LastWeight, t, t);
    }
    if s.pcs[t].Arriving? {
      InsideIsWaiting(s);
    }
  }

  lemma SoundLog(s: State, t: nat, s': State)
    requires Inv(s) && t < |s.pcs| && Sound(s, t, s')
    ensures LogInv(s') && s.log <= s'.log && |s'.log| <= |s.log| + 1
  {
    Moves(s, t, s'.pcs[t]);
    NextPlace(|s.log|, 2 * s.height);
    SumNonNegative(s'.pcs, InsideWeight);
    SumPair(s'.pcs, InsideWeight, t, t);
    if s'.log != s.log {
      assert s'.log[..|s'.log| - 1] == s.log;
      forall u: nat
        ensures Net(s'.log, u) == if u < |s'.pcs| then InsideWeight(s'.pcs[u]) else 0
      {
        assert Net(s.log, u) == if u < |s.pcs| then InsideWeight(s.pcs[u]) else 0;
      }
    }
  }

  /** Every step of every thread keeps the invariant. */
  lemma StepInv(s: State, t: nat, s': State)
    requires Inv(s) && t < |s.pcs| && (Internal(s, t, s') || Call(s, t, s'))
    ensures Inv(s') && |s'.pcs| == |s.pcs| && s'.height == s.height && s.log <= s'.log && |s'.log| <= |s.log| + 1
  {
    InvKnows(s, t);
    if Call(s, t, s') {
      CallSound(s, t, s');
    } else if ArriveStep(s, t, s') {
      ArriveSound(s, t, s');
    } else if LeaveStep(s, t, s') {
      LeaveSound(s, t, s');
    } else {
      DestroySound(s, t, s');
    }
    SoundThreads(s, t, s');
    SoundCounts(s, t, s');
    SoundLog(s, t, s');
  }
}
