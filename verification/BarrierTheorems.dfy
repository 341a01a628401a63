/** What the barrier guarantees over all runs, and its counter updates as the object makes them. */
module BarrierTheorems {
  import opened Sums
  import opened Barrier

  lemma AnyStepInv(s: State, s': State)
    requires Inv(s) && Step(s, s')
    ensures Inv(s') && |s'.pcs| == |s.pcs| && s'.height == s.height
    ensures s.log <= s'.log && |s'.log| <= |s.log| + 1
  {
    hide Internal, Call, Inv;
    var t: nat :| t < |s.pcs| && (Internal(s, t, s') || Call(s, t, s'));
    StepInv(s, t, s');
  }

  lemma {:induction false} RunInv(r: seq<State>, i: nat)
    requires Run(r) && i < |r|
    ensures Inv(r[i]) && |r[i].pcs| == |r[0].pcs| && r[i].height == r[0].height
    ensures i > 0 ==> r[i - 1].log <= r[i].log && |r[i].log| <= |r[i - 1].log| + 1
  {
    if i == 0 {
      InitialInv(r[0].height, |r[0].pcs|);
    } else {
      RunInv(r, i - 1);
      assert Step(r[i - 1], r[i - 1 + 1]);
      AnyStepInv(r[i - 1], r[i]);
    }
  }

  /** The events of every run are whole rounds: height arrivals, then height departures, the last of them,
      and only that one, with the serial result, then the next round. */
  lemma Rounds(r: seq<State>, i: nat, j: nat)
    requires Run(r) && i < |r| && j < |r[i].log|
    ensures r[0].height > 0
    ensures j % (2 * r[0].height) < r[0].height <==> r[i].log[j].Arrive?
    ensures r[i].log[j].Depart? ==> (r[i].log[j].serial <==> j % (2 * r[0].height) == 2 * r[0].height - 1)
  {
    RunInv(r, i);
    assert InTurn(r[i].height, j, r[i].log[j]);
  }

  /** At every point of every run each thread has arrived at most once more than it has left, and at the
      end of each round exactly as often: whoever arrives in a round leaves in that round. */
  lemma {:induction false} RoundsAreClosed(r: seq<State>, i: nat, j: nat, t: nat)
    requires Run(r) && i < |r| && j <= |r[i].log|
    ensures r[0].height > 0
    ensures 0 <= Net(r[i].log[..j], t) <= 1
    ensures j % (2 * r[0].height) == 0 ==> Net(r[i].log[..j], t) == 0
  {
    RunInv(r, i);
    var s := r[i];
    if j == |s.log| {
      assert s.log[..j] == s.log;
      if t < |s.pcs| {
        SumPair(s.pcs, InsideWeight, t, t);
      }
    } else {
      assert i > 0;
      assert s.log[..j] == r[i - 1].log[..j];
      RoundsAreClosed(r, i - 1, j, t);
    }
  }

  /** In every state the posts made and owed are exactly the waiters still to be released, nobody is
      released before all have arrived, and nobody arrives before all have left. */
  lemma Release(r: seq<State>, i: nat)
    requires Run(r) && i < |r|
    ensures Opening(r[i]) ==> r[i].sem + Sum(r[i].pcs, PostWeight) == Sum(r[i].pcs, WaitWeight)
    ensures !Opening(r[i]) ==> r[i].sem == 0 && r[i].cur >= 1
    ensures r[i].cur + Sum(r[i].pcs, InsideWeight) == r[i].height
    ensures forall t: nat :: t < |r[i].pcs| && OnTheWayOut(r[i].pcs[t]) ==> Opening(r[i])
    ensures forall t: nat :: t < |r[i].pcs| && HoldsLock(r[i].pcs[t]) ==> !Opening(r[i])
  {
    RunInv(r, i);
  }

  // ----- progress -----

  ghost predicate CanStep(s: State, t: nat) {
    t < |s.pcs| && exists s' :: Internal(s, t, s')
  }

  ghost predicate CanMove(s: State) {
    exists t: nat :: CanStep(s, t)
  }

  lemma Witness(s: State, t: nat, s': State)
    requires t < |s.pcs| && Internal(s, t, s')
    ensures CanStep(s, t)
  {
  }

  lemma ThreadMoves(s: State, t: nat)
    requires t < |s.pcs| && !s.freed && (s.pcs[t].Posting? ==> s.pcs[t].n >= 1)
    ensures CanStep(s, t) <==>
            && !s.pcs[t].Outside?
            && (s.pcs[t].AtLock? ==> s.holder == Free)
            && (s.pcs[t].Waiting? ==> s.sem > 0)
  {
    match s.pcs[t]
    case AtLock => if s.holder == Free { Witness(s, t, At(s, t, Arriving).(holder := ByThread(t))); }
    case Arriving => Witness(s, t, CountIn(s, t));
    case Releasing => Witness(s, t, At(s, t, Waiting).(holder := Free));
    case Waiting => if s.sem > 0 { Witness(s, t, At(s, t, Leaving).(sem := s.sem - 1)); }
    case Posting(n) => Witness(s, t, At(s, t, Leaving).(sem := s.sem + n));
    case Leaving => Witness(s, t, CountOut(s, t));
    case LastOut => Witness(s, t, At(s, t, Outside).(holder := Free));
    case DestroyTry =>
      Witness(s, t, if s.holder == Free then At(s, t, DestroyCheck).(holder := ByThread(t)) else At(s, t, Outside));
    case DestroyCheck => Witness(s, t, At(s, t, Outside).(holder := Free, freed := s.cur >= s.height));
    case Outside =>
  }

  /** The barrier rests exactly when the lock is free, no token is left, and every thread is outside or
      waiting, and then fewer than the height are waiting. */
  lemma RestsExactly(s: State)
    requires Inv(s) && !s.freed
    ensures !CanMove(s) <==>
            && s.holder == Free && s.sem == 0
            && forall t: nat :: t < |s.pcs| ==> s.pcs[t].Outside? || s.pcs[t].Waiting?
    ensures !CanMove(s) ==> Sum(s.pcs, WaitWeight) < s.height
  {
    forall t: nat | t < |s.pcs|
      ensures CanStep(s, t) <==>
              !s.pcs[t].Outside? && (s.pcs[t].AtLock? ==> s.holder == Free) && (s.pcs[t].Waiting? ==> s.sem > 0)
    {
      ThreadMoves(s, t);
    }
    if s.holder.ByThread? {
      assert HoldsLock(s.pcs[s.holder.t]);
    } else if Opening(s) {
      OpeningMoves(s);
    }
    if !CanMove(s) {
      assert forall t: nat :: t < |s.pcs| ==> !CanStep(s, t);
      SumMonotone(s.pcs, WaitWeight, InsideWeight);
    }
  }

  lemma OpeningMoves(s: State)
    requires Inv(s) && !s.freed && Opening(s)
    ensures CanMove(s)
  {
    if s.cur == s.height {
      var t := SumWitness(s.pcs, LastWeight);
      ThreadMoves(s, t);
    } else {
      var t := SumWitness(s.pcs, InsideWeight);
      if s.pcs[t].Waiting? {
        SumPair(s.pcs, WaitWeight, t, t);
        SumNonNegative(s.pcs, PostWeight);
        if s.sem == 0 {
          var u := SumWitness(s.pcs, PostWeight);
          ThreadMoves(s, u);
        }
      }
      assert HoldsLock(s.pcs[t]) <==> s.holder == ByThread(t);
      ThreadMoves(s, t);
    }
  }

  /** How many steps a call may still take at a barrier of the given height. */
  function Rank(height: int, pc: Pc): int {
    match pc
    case Outside => 0
    case AtLock => height + 5
    case Arriving => height + 4
    case Releasing => 4
    case Waiting => 3
    case Posting(n) => n + 2
    case Leaving => 2
    case LastOut => 1
    case DestroyTry => 2
    case DestroyCheck => 1
  }

  ghost function RankWeight(height: int): Pc -> int { pc => Rank(height, pc) }

  ghost function StepsLeft(s: State): int { Sum(s.pcs, RankWeight(s.height)) }

  lemma RankDrops(s: State, t: nat, s': State)
    requires t < |s.pcs| && s.height > 0 && Internal(s, t, s')
    ensures s'.height == s.height && s'.pcs == s.pcs[t := s'.pcs[t]]
    ensures Rank(s.height, s'.pcs[t]) < Rank(s.height, s.pcs[t])
  {
  }

  ghost predicate InternalStep(s: State, s': State) {
    exists t: nat :: t < |s.pcs| && Internal(s, t, s')
  }

  lemma InternalDrains(s: State, s': State)
    requires Inv(s) && InternalStep(s, s')
    ensures Inv(s') && StepsLeft(s') < StepsLeft(s)
  {
    var t: nat :| t < |s.pcs| && Internal(s, t, s');
    StepInv(s, t, s');
    RankDrops(s, t, s');
    SumUpdate(s.pcs, t, s'.pcs[t], RankWeight(s.height));
  }

  /** However the threads are scheduled, the calls under way take at most StepsLeft steps in all; with
      RestsExactly, a full set of arrivals always gets through. */
  lemma {:induction false} CallsDrain(r: seq<State>)
    requires r != [] && Inv(r[0])
    requires forall i :: 0 <= i < |r| - 1 ==> InternalStep(r[i], r[i + 1])
    ensures |r| - 1 <= StepsLeft(r[0])
    decreases |r|
  {
    if |r| == 1 {
      SumNonNegative(r[0].pcs, RankWeight(r[0].height));
    } else {
      assert InternalStep(r[0], r[0 + 1]);
      InternalDrains(r[0], r[1]);
      forall i | 0 <= i < |r[1..]| - 1
        ensures InternalStep(r[1..][i], r[1..][i + 1])
      {
        assert InternalStep(r[i + 1], r[i + 1 + 1]);
      }
      CallsDrain(r[1..]);
    }
  }

  // ----- destroy -----

  /** Destroy that has got the lock goes through exactly when no thread is inside. */
  lemma DestroyExactly(s: State, t: nat, s': State)
    requires Inv(s) && t < |s.pcs| && s.pcs[t] == DestroyCheck && Internal(s, t, s')
    ensures s'.freed <==> forall u: nat :: u < |s.pcs| ==> !Inside(s.pcs[u]) && !OnTheWayOut(s.pcs[u])
    ensures s'.pcs == s.pcs[t := Outside] && s'.holder == Free
  {
    assert HoldsLock(s.pcs[t]) && !Opening(s);
    SumNonNegative(s.pcs, InsideWeight);
    if s'.freed {
      forall u: nat | u < |s.pcs|
        ensures !Inside(s.pcs[u])
      {
        SumPair(s.pcs, InsideWeight, u, u);
      }
    } else {
      var u := SumWitness(s.pcs, InsideWeight);
    }
  }

  /** Destroy reports busy at once while another thread has the lock or a round is opening. */
  lemma DestroyBusy(s: State, t: nat, s': State)
    requires Inv(s) && t < |s.pcs| && s.pcs[t] == DestroyTry && Internal(s, t, s')
    ensures s'.pcs[t] == Outside <==> s.holder != Free
    ensures (exists u: nat :: u < |s.pcs| && (HoldsLock(s.pcs[u]) || OnTheWayOut(s.pcs[u]))) ==> s'.pcs[t] == Outside
  {
  }

  /** The barrier object: the two counter updates of wait, and destroy once it has the lock. */
  class BarrierObject {
    const nInitialBarrierHeight: nat
    var nCurrentBarrierHeight: int
    var semBarrierBreeched: int
    var holder: Holder
    var freed: bool
    ghost var pcs: seq<Pc>
    ghost var log: seq<Event>

    ghost function View(): State
      reads this
    {
      State(nInitialBarrierHeight, nCurrentBarrierHeight, semBarrierBreeched, holder, freed, pcs, log)
    }

    constructor (count: nat, ghost n: nat)
      requires count > 0
      ensures View() == Initial(count, n) && Inv(View())
    {
      nInitialBarrierHeight := count;
      nCurrentBarrierHeight, semBarrierBreeched, holder, freed := count, 0, Free, false;
      pcs, log := seq(n, _ => Outside), [];
      new;
      InitialInv(count, n);
    }

    /** Under the lock: count in; toPost is how often the semaphore is to be posted, if last. */
    method Arrive(ghost t: nat) returns (last: bool, toPost: nat)
      requires t < |pcs| && pcs[t] == Arriving && !freed && Inv(View())
      modifies this
      ensures Internal(old(View()), t, View()) && Inv(View())
      ensures last <==> Opening(View())
      ensures toPost == if last then nInitialBarrierHeight - 1 else 0
    {
      ghost var s := View();
      nCurrentBarrierHeight := nCurrentBarrierHeight - 1;
      log := log + [Event.Arrive(t)];
      last := nCurrentBarrierHeight == 0;
      toPost := 0;
      if last {
        holder := ByBarrier;
        toPost := if nInitialBarrierHeight > 1 then nInitialBarrierHeight - 1 else 0;
        pcs := pcs[t := if toPost > 0 then Posting(toPost) else Leaving];
      } else {
        pcs := pcs[t := Releasing];
      }
      StepInv(s, t, View());
    }

    /** The closing increment and compare; serial is the result PTHREAD_BARRIER_SERIAL_THREAD. */
    method Depart(ghost t: nat) returns (serial: bool)
      requires t < |pcs| && pcs[t] == Leaving && !freed && Inv(View())
      modifies this
      ensures Internal(old(View()), t, View()) && Inv(View())
      ensures serial <==> |log| % (2 * nInitialBarrierHeight) == 0
    {
      ghost var s := View();
      nCurrentBarrierHeight := nCurrentBarrierHeight + 1;
      serial := nCurrentBarrierHeight == nInitialBarrierHeight;
      log := log + [Event.Depart(t, serial)];
      pcs := pcs[t := if serial then LastOut else Outside];
      StepInv(s, t, View());
    }

    method Destroy(ghost t: nat) returns (busy: bool)
      requires t < |pcs| && pcs[t] == DestroyCheck && !freed && Inv(View())
      modifies this
      ensures Internal(old(View()), t, View())
      ensures busy <==> exists u: nat :: u < |pcs| && Inside(old(pcs)[u])
    {
      ghost var s := View();
      busy := nCurrentBarrierHeight < nInitialBarrierHeight;
      freed := !busy;
      holder := Free;
      pcs := pcs[t := Outside];
      DestroyExactly(s, t, View());
    }
  }
}
