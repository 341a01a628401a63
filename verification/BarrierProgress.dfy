/** The barrier lets whole groups through: of all the calls of wait in a run, exactly the full rounds return. */
module BarrierProgress {
  import opened Sums
  import opened Barrier
  import opened BarrierTheorems

  // ----- the events of a log, counted -----

  function Arrivals(log: seq<Event>): nat {
    if log == [] then 0 else Arrivals(log[..|log| - 1]) + if log[|log| - 1].Arrive? then 1 else 0
  }

  function Departures(log: seq<Event>): nat {
    if log == [] then 0 else Departures(log[..|log| - 1]) + if log[|log| - 1].Depart? then 1 else 0
  }

  /** A log of q whole rounds and p more events. */
  lemma {:induction false} CountedInTurn(height: nat, log: seq<Event>, q: nat, p: nat)
    requires height > 0 && forall i: nat :: i < |log| ==> InTurn(height, i, log[i])
    requires |log| == q * (2 * height) + p && p < 2 * height
    ensures Arrivals(log) == q * height + if p < height then p else height
    ensures Departures(log) == q * height + if p < height then 0 else p - height
    decreases |log|
  {
    if log != [] {
      var front := log[..|log| - 1];
      assert forall i: nat :: i < |front| ==> InTurn(height, i, front[i]);
      assert InTurn(height, |log| - 1, log[|log| - 1]);
      if p > 0 {
        Remainder(|log| - 1, 2 * height, q, p - 1);
        CountedInTurn(height, front, q, p - 1);
      } else {
        OneRoundLess(q, height);
        Remainder(|log| - 1, 2 * height, q - 1, 2 * height - 1);
        CountedInTurn(height, front, q - 1, 2 * height - 1);
      }
    } else {
      NoRounds(q, height, p);
    }
  }

  lemma OneRoundLess(q: nat, height: nat)
    requires height > 0 && q * (2 * height) > 0
    ensures q >= 1 && q * (2 * height) - 1 == (q - 1) * (2 * height) + (2 * height - 1)
    ensures q * height == (q - 1) * height + height
  {
  }

  lemma NoRounds(q: nat, height: nat, p: nat)
    requires height > 0 && q * (2 * height) + p == 0
    ensures p == 0 && q * height == 0
  {
    if q > 0 {
      OneRoundLess(q, height);
    }
  }

  // ----- the calls of wait in a run -----

  /** Some thread begins a call of wait. */
  ghost predicate Begins(s: State, s': State) {
    exists t: nat :: t < |s.pcs| && t < |s'.pcs| && s.pcs[t].Outside? && s'.pcs[t].AtLock?
  }

  ghost function Begun(r: seq<State>): nat {
    if |r| <= 1 then 0 else Begun(r[..|r| - 1]) + if Begins(r[|r| - 2], r[|r| - 1]) then 1 else 0
  }

  /** Not counted in yet. */
  function EntryWeight(pc: Pc): int { if pc.AtLock? || pc.Arriving? then 1 else 0 }

  lemma OneArrival(log: seq<Event>, e: Event)
    ensures Arrivals(log + [e]) == Arrivals(log) + if e.Arrive? then 1 else 0
  {
    assert (log + [e])[..|log|] == log;
  }

  lemma ThreadCounted(s: State, t: nat, s': State)
    requires t < |s.pcs| && (Internal(s, t, s') || Call(s, t, s'))
    ensures s'.pcs == s.pcs[t := s'.pcs[t]]
    ensures Begins(s, s') <==> s.pcs[t].Outside? && s'.pcs[t].AtLock?
    ensures Arrivals(s'.log) + EntryWeight(s'.pcs[t]) ==
            Arrivals(s.log) + EntryWeight(s.pcs[t]) + if Begins(s, s') then 1 else 0
  {
    StepMovesOne(s, t, s');
    ArrivalCounted(s, t, s');
    hide Internal, Call, Arrivals;
    if Begins(s, s') {
      var u: nat :| u < |s.pcs| && s.pcs[u].Outside? && s'.pcs[u].AtLock?;
      assert u == t;
    }
  }

  lemma ArrivalCounted(s: State, t: nat, s': State)
    requires t < |s.pcs| && |s'.pcs| == |s.pcs| && (Internal(s, t, s') || Call(s, t, s'))
    ensures Arrivals(s'.log) + EntryWeight(s'.pcs[t]) ==
            Arrivals(s.log) + EntryWeight(s.pcs[t]) + if s.pcs[t].Outside? && s'.pcs[t].AtLock? then 1 else 0
  {
    hide Arrivals;
    if s.pcs[t].Arriving? {
      OneArrival(s.log, Event.Arrive(t));
    } else if s.pcs[t].Leaving? {
      OneArrival(s.log, Event.Depart(t, s.cur + 1 == s.height));
    }
  }

  lemma StepMovesOne(s: State, t: nat, s': State)
    requires t < |s.pcs| && (Internal(s, t, s') || Call(s, t, s'))
    ensures |s'.pcs| == |s.pcs| && s'.pcs == s.pcs[t := s'.pcs[t]]
  {
  }

  /** Every call begun has arrived or is still on its way in. */
  lemma {:induction false} CallsCounted(r: seq<State>)
    requires Run(r)
    ensures Begun(r) == Arrivals(r[|r| - 1].log) + Sum(r[|r| - 1].pcs, EntryWeight)
    decreases |r|
  {
    if |r| == 1 {
      SumZero(r[0].pcs, EntryWeight);
    } else {
      var front, s, s' := r[..|r| - 1], r[|r| - 2], r[|r| - 1];
      assert forall i :: 0 <= i < |front| - 1 ==> Step(front[i], front[i + 1]) by {
        forall i | 0 <= i < |front| - 1
          ensures Step(front[i], front[i + 1])
        {
          assert Step(r[i], r[i + 1]);
        }
      }
      CallsCounted(front);
      assert Step(r[|r| - 2], r[|r| - 2 + 1]);
      var t: nat :| t < |s.pcs| && (Internal(s, t, s') || Call(s, t, s'));
      ThreadCounted(s, t, s');
      SumUpdate(s.pcs, t, s'.pcs[t], EntryWeight);
    }
  }

  /** In every run, whatever the calls and the schedule: when nothing can move, of the calls begun exactly the full
      groups of height have returned, and the rest wait. */
  lemma GroupsGetThrough(r: seq<State>)
    requires Run(r) && !CanMove(r[|r| - 1]) && !r[|r| - 1].freed
    ensures r[0].height > 0
    ensures var s, h := r[|r| - 1], r[0].height;
            && Arrivals(s.log) == Begun(r)
            && Departures(s.log) == Begun(r) / h * h
            && Sum(s.pcs, WaitWeight) == Begun(r) % h
  {
    hide Run, CanMove, Begun, Inv;
    RunNotEmpty(r);
    var s, h := r[|r| - 1], r[0].height;
    RunInv(r, |r| - 1);
    RestsExactly(s);
    CallsCounted(r);
    RestCounted(s);
  }

  lemma RunNotEmpty(r: seq<State>)
    requires Run(r)
    ensures r != []
  {
  }

  /** At rest the counts follow from the place in the log. */
  lemma RestCounted(s: State)
    requires Inv(s) && s.holder == Free
    requires forall t: nat :: t < |s.pcs| ==> s.pcs[t].Outside? || s.pcs[t].Waiting?
    ensures s.height > 0 && Sum(s.pcs, EntryWeight) == 0
    ensures Departures(s.log) == Arrivals(s.log) / s.height * s.height
    ensures Sum(s.pcs, WaitWeight) == Arrivals(s.log) % s.height
  {
    SumZero(s.pcs, EntryWeight);
    InsideIsWaiting(s);
    SumNonNegative(s.pcs, WaitWeight);
    LogCounted(s.log, s.height, s.height - s.cur);
  }

  lemma LogCounted(log: seq<Event>, h: nat, p: nat)
    requires p < h && |log| % (2 * h) == p && forall i: nat :: i < |log| ==> InTurn(h, i, log[i])
    ensures Departures(log) == Arrivals(log) / h * h && Arrivals(log) % h == p
  {
    var q := |log| / (2 * h);
    CountedInTurn(h, log, q, p);
    QuotientIs(Arrivals(log), h, q, p);
  }

  lemma QuotientIs(x: nat, m: nat, q: nat, r: nat)
    requires r < m && x == q * m + r
    ensures x % m == r && x / m * m == q * m
  {
    Remainder(x, m, q, r);
  }

  // ----- such runs exist -----

  lemma Extends(r: seq<State>, s': State)
    requires Run(r) && Step(r[|r| - 1], s')
    ensures Run(r + [s']) && Begun(r + [s']) == Begun(r) + if Begins(r[|r| - 1], s') then 1 else 0
  {
    var r' := r + [s'];
    forall i | 0 <= i < |r'| - 1
      ensures Step(r'[i], r'[i + 1])
    {
      if i < |r| - 1 {
        assert Step(r[i], r[i + 1]);
      }
    }
    assert r'[..|r'| - 1] == r;
  }

  predicate NobodyDestroys(s: State) {
    !s.freed && forall t: nat :: t < |s.pcs| ==> !s.pcs[t].DestroyTry? && !s.pcs[t].DestroyCheck?
  }

  predicate OutsideFrom(s: State, c: nat) { forall t: nat :: c <= t < |s.pcs| ==> s.pcs[t] == Outside }

  /** c threads call wait, one after the other. */
  lemma {:induction false} Callers(height: nat, n: nat, c: nat) returns (r: seq<State>)
    requires height > 0 && c <= n
    ensures Run(r) && r[0].height == height && Begun(r) == c && NobodyDestroys(r[|r| - 1])
    ensures |r[|r| - 1].pcs| == n && OutsideFrom(r[|r| - 1], c)
    decreases c
  {
    if c == 0 {
      r := [Initial(height, n)];
    } else {
      r := Callers(height, n, c - 1);
      var s := r[|r| - 1];
      var s' := At(s, c - 1, AtLock);
      assert Call(s, c - 1, s');
      assert s.pcs[c - 1].Outside? && s'.pcs[c - 1].AtLock?;
      Extends(r, s');
      r := r + [s'];
    }
  }

  lemma MovesOn(s: State) returns (s': State)
    requires Inv(s) && NobodyDestroys(s) && CanMove(s)
    ensures Step(s, s') && InternalStep(s, s') && NobodyDestroys(s') && !Begins(s, s')
  {
    hide Inv, Internal, Call, NobodyDestroys, Begins;
    var t: nat :| CanStep(s, t);
    s' :| Internal(s, t, s');
    StaysFriendly(s, t, s');
    BeginsNothing(s, t, s');
  }

  lemma BeginsNothing(s: State, t: nat, s': State)
    requires t < |s.pcs| && Internal(s, t, s')
    ensures !Begins(s, s')
  {
    if s.pcs[t].Outside? {
      OutsideStays(s, t, s');
    }
    ThreadCounted(s, t, s');
  }

  lemma OutsideStays(s: State, t: nat, s': State)
    requires t < |s.pcs| && s.pcs[t].Outside?
    ensures !Internal(s, t, s')
  {
  }

  lemma StaysFriendly(s: State, t: nat, s': State)
    requires NobodyDestroys(s) && t < |s.pcs| && Internal(s, t, s')
    ensures NobodyDestroys(s')
  {
    StepMovesOne(s, t, s');
  }

  /** Without new calls every schedule comes to rest. */
  lemma {:induction false} Settles(r: seq<State>) returns (r': seq<State>)
    requires Run(r) && NobodyDestroys(r[|r| - 1])
    ensures Run(r') && r'[0] == r[0] && Begun(r') == Begun(r) && !CanMove(r'[|r'| - 1]) && !r'[|r'| - 1].freed
    decreases StepsLeft(r[|r| - 1])
  {
    var s := r[|r| - 1];
    RunInv(r, |r| - 1);
    SumNonNegative(s.pcs, RankWeight(s.height));
    if CanMove(s) {
      var s' := MovesOn(s);
      InternalDrains(s, s');
      Extends(r, s');
      r' := Settles(r + [s']);
    } else {
      r' := r;
    }
  }

  /** For every height and every number of callers there is a run at rest in which just these have called, and by
      the theorem above the full groups have returned. */
  lemma CallersGetThrough(height: nat, n: nat, c: nat) returns (r: seq<State>)
    requires 0 < height && c <= n
    ensures Run(r) && r[0].height == height && Begun(r) == c && !CanMove(r[|r| - 1])
    ensures Departures(r[|r| - 1].log) == c / height * height
  {
    r := Callers(height, n, c);
    r := Settles(r);
    GroupsGetThrough(r);
  }
}
