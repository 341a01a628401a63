/** Clock synchronisation: offset and delay (section 8 of RFC 5905), and the minimum-delay choice among the
    last eight samples (the selection step of its clock filter, section 10). */
module NtpClock {

  const DATA_COUNT := 8
  const MAX_DISP := 0x10_0000_0000

  datatype Sample = Sample(delay: int, offset: int)

  const INITIAL := Sample(MAX_DISP, 0)

  /** The four times of an exchange: request leaves and reply arrives (local), request arrives and reply leaves
      (remote). */
  datatype Exchange = Exchange(t0: int, t1: int, t2: int, t3: int)

  /** Division by two, truncated towards zero. */
  function Half(x: int): int { if x >= 0 then x / 2 else -(-x / 2) }

  function Measure(e: Exchange): Sample {
    Sample((e.t3 - e.t0) - (e.t2 - e.t1), Half((e.t1 - e.t0) + (e.t2 - e.t3)))
  }

  /** The remote clock is theta ahead and neither packet arrives before it leaves. */
  predicate Plausible(e: Exchange, theta: real) {
    (e.t1 as real) - theta >= e.t0 as real && e.t3 as real >= (e.t2 as real) - theta
  }

  /** x is at most d away from zero. */
  predicate Near(x: real, d: int) { -(d as real) <= x <= d as real }

  /** How long the request and the reply were on their way, for a remote clock that is theta ahead. */
  function Forth(e: Exchange, theta: real): real { e.t1 as real - theta - e.t0 as real }

  function Back(e: Exchange, theta: real): real { e.t3 as real - (e.t2 as real - theta) }

  /** r is x without its fraction. */
  predicate Truncated(x: real, r: int) {
    if x >= 0.0 then 0.0 <= r as real <= x < r as real + 1.0 else r as real - 1.0 < x <= r as real <= 0.0
  }

  /** What is measured, in every exchange and for every true offset: the delay is the sum of the two path delays,
      and the offset is the true one plus half the difference of the path delays, truncated. */
  lemma MeasureExactly(e: Exchange, theta: real)
    ensures Measure(e).delay as real == Forth(e, theta) + Back(e, theta)
    ensures Truncated(theta + (Forth(e, theta) - Back(e, theta)) / 2.0, Measure(e).offset)
  {
    var sum := (e.t1 - e.t0) + (e.t2 - e.t3);
    assert theta + (Forth(e, theta) - Back(e, theta)) / 2.0 == sum as real / 2.0;
    HalfTruncates(sum);
  }

  lemma HalfTruncates(x: int)
    ensures Truncated(x as real / 2.0, Half(x)) && x - x % 2 <= 2 * Half(x) <= x + x % 2
    ensures x >= 0 ==> 2 * Half(x) == x - x % 2
  {
    assert (2 * Half(x)) as real == 2.0 * (Half(x) as real);
  }

  /** The least even number that is not below d. */
  function EvenUp(d: int): int { d + d % 2 }

  /** The error of one sample: twice the offset is off by at most the delay, rounded up to an even number. */
  lemma SampleBound(e: Exchange, theta: real)
    requires Plausible(e, theta)
    ensures Measure(e).delay >= 0
    ensures Near(2.0 * (Measure(e).offset as real - theta), EvenUp(Measure(e).delay))
  {
    var sum, delay := (e.t1 - e.t0) + (e.t2 - e.t3), (e.t3 - e.t0) - (e.t2 - e.t1);
    assert delay == sum + 2 * (e.t3 - e.t2) && delay % 2 == sum % 2;
    HalfTruncates(sum);
    assert (2 * Half(sum)) as real == 2.0 * (Half(sum) as real);
    assert (sum - sum % 2) as real <= (2 * Half(sum)) as real <= (sum + sum % 2) as real;
  }

  /** The bound is met on either side, for every delay: when all of it is on the way back, and with a clock that is
      behind, when all of it is on the way there. */
  lemma BoundAttained(d: nat)
    ensures var e, theta := Exchange(0, d, d, d), d as real;
            && Plausible(e, theta) && Measure(e).delay == d
            && 2.0 * (Measure(e).offset as real - theta) == -(EvenUp(d) as real)
    ensures var e, theta := Exchange(0, 0, 0, d), -(d as real);
            && Plausible(e, theta) && Measure(e).delay == d
            && 2.0 * (Measure(e).offset as real - theta) == EvenUp(d) as real
  {
    HalfIs(d);
    hide Half, EvenUp;
    ErrorIs(Half(d), d, -EvenUp(d));
    ErrorIs(Half(0 - d), 0 - d, EvenUp(d));
  }

  lemma HalfIs(d: nat)
    ensures 2 * Half(d) - 2 * d == -EvenUp(d) && 2 * Half(0 - d) + 2 * d == EvenUp(d)
  {
  }

  lemma ErrorIs(offset: int, theta: int, twice: int)
    requires 2 * offset - 2 * theta == twice
    ensures 2.0 * (offset as real - theta as real) == twice as real
  {
    assert (2 * offset - 2 * theta) as real == 2.0 * (offset as real) - 2.0 * (theta as real);
  }

  function Measured(es: seq<Exchange>): seq<Sample> {
    if es == [] then [] else Measured(es[..|es| - 1]) + [Measure(es[|es| - 1])]
  }

  lemma {:induction false} MeasuredAt(es: seq<Exchange>, i: nat)
    requires i < |es|
    ensures |Measured(es)| == |es| && Measured(es)[i] == Measure(es[i])
  {
    if i < |es| - 1 {
      MeasuredAt(es[..|es| - 1], i);
    } else if i > 0 {
      MeasuredAt(es[..|es| - 1], i - 1);
    }
  }

  /** The last eight samples, counting eight initial ones before the first. */
  function Window(history: seq<Sample>): (w: seq<Sample>)
    ensures |w| == DATA_COUNT
  {
    (seq(DATA_COUNT, _ => INITIAL) + history)[|history|..]
  }

  lemma WindowNext(history: seq<Sample>, s: Sample)
    ensures Window(history + [s]) == Window(history)[1..] + [s]
  {
  }

  predicate IsLeast(s: Sample, w: seq<Sample>) {
    s in w && forall x :: x in w ==> s.delay <= x.delay
  }

  /** The offset of a least-delay sample. */
  ghost predicate OfLeast(offset: int, w: seq<Sample>) {
    exists s :: IsLeast(s, w) && offset == s.offset
  }

  ghost predicate IsGreatest(delay: int, w: seq<Sample>) {
    (exists s :: s in w && delay == s.delay) && forall s :: s in w ==> s.delay <= delay
  }

  /** The least-delay sample of the window is a real one if some real one in it beats the initial delay. */
  lemma LeastIsReal(history: seq<Sample>, s: Sample, i: nat)
    requires IsLeast(s, Window(history)) && i < |history| && i + DATA_COUNT >= |history|
    requires history[i].delay < MAX_DISP
    ensures exists j :: 0 <= j < |history| && j + DATA_COUNT >= |history| && s == history[j]
    ensures forall j :: 0 <= j < |history| && j + DATA_COUNT >= |history| ==> s.delay <= history[j].delay
  {
    var w, pad := Window(history), seq(DATA_COUNT, _ => INITIAL);
    forall j | 0 <= j < |history| && j + DATA_COUNT >= |history|
      ensures history[j] in w && s.delay <= history[j].delay
    {
      assert (pad + history)[DATA_COUNT + j] == history[j] == w[DATA_COUNT + j - |history|];
    }
    var k :| 0 <= k < DATA_COUNT && w[k] == s;
    var at := |history| + k;
    assert s == if at < DATA_COUNT then INITIAL else history[at - DATA_COUNT];
  }

  predicate Sorted(s: seq<Sample>) {
    forall i, j :: 0 <= i < j < |s| ==> s[i].delay <= s[j].delay
  }

  method InsertByDelay(s: seq<Sample>, x: Sample) returns (r: seq<Sample>)
    requires Sorted(s)
    ensures Sorted(r) && multiset(r) == multiset(s) + multiset{x}
  {
    var at := 0;
    while at < |s| && s[at].delay <= x.delay
      invariant at <= |s| && forall i :: 0 <= i < at ==> s[i].delay <= x.delay
    {
      at := at + 1;
    }
    r := s[..at] + [x] + s[at..];
    Inserted(s, x, at);
  }

  lemma SortedJoin(a: seq<Sample>, x: Sample, b: seq<Sample>)
    requires Sorted(a) && Sorted(b)
    requires (forall i :: 0 <= i < |a| ==> a[i].delay <= x.delay) && forall i :: 0 <= i < |b| ==> x.delay <= b[i].delay
    ensures Sorted(a + [x] + b)
  {
  }

  lemma Inserted(s: seq<Sample>, x: Sample, at: nat)
    requires Sorted(s) && at <= |s|
    requires forall i :: 0 <= i < at ==> s[i].delay <= x.delay
    requires at < |s| ==> x.delay < s[at].delay
    ensures Sorted(s[..at] + [x] + s[at..])
    ensures multiset(s[..at] + [x] + s[at..]) == multiset(s) + multiset{x}
  {
    SortedJoin(s[..at], x, s[at..]);
    SameSamples(s, x, at);
    hide *;
  }

  lemma SameSamples(s: seq<Sample>, x: Sample, at: nat)
    requires at <= |s|
    ensures multiset(s[..at] + [x] + s[at..]) == multiset(s) + multiset{x}
  {
    assert s == s[..at] + s[at..];
  }

  /** qsort with the comparison by delay: sorted, and the same samples. */
  method SortByDelay(data: seq<Sample>) returns (sorted: seq<Sample>)
    ensures Sorted(sorted) && multiset(sorted) == multiset(data)
  {
    sorted := [];
    for n := 0 to |data|
      invariant Sorted(sorted) && multiset(sorted) == multiset(data[..n])
    {
      sorted := InsertByDelay(sorted, data[n]);
      assert data[..n + 1] == data[..n] + [data[n]];
    }
    assert data[..|data|] == data;
  }

  lemma Ends(sorted: seq<Sample>, data: seq<Sample>)
    requires Sorted(sorted) && multiset(sorted) == multiset(data) && |data| > 0
    ensures |sorted| == |data| && IsLeast(sorted[0], data) && sorted[|sorted| - 1] in data
    ensures forall x :: x in data ==> x.delay <= sorted[|sorted| - 1].delay
  {
    assert |multiset(sorted)| == |sorted| && |multiset(data)| == |data|;
    forall x
      ensures x in sorted <==> x in data
    {
      assert x in sorted <==> x in multiset(sorted);
      assert x in data <==> x in multiset(data);
    }
  }

  class RaopNtp {
    const data: array<Sample>
    var dataIndex: nat
    var syncOffset: int
    var syncDelay: int
    ghost var history: seq<Sample>

    /** Going round the ring from the slot after the newest gives the last eight samples in order. */
    ghost predicate Valid()
      reads this, data
    {
      && data.Length == DATA_COUNT && dataIndex < DATA_COUNT
      && forall j :: 0 <= j < DATA_COUNT ==> data[(dataIndex + 1 + j) % DATA_COUNT] == Window(history)[j]
    }

    constructor ()
      ensures Valid() && fresh(data) && history == [] && dataIndex == 0 && syncOffset == 0 && syncDelay == 0
    {
      data := new Sample[DATA_COUNT](_ => INITIAL);
      dataIndex, syncOffset, syncDelay := 0, 0, 0;
      history := [];
    }

    lemma RingHoldsWindow()
      requires Valid()
      ensures forall x :: x in data[..] <==> x in Window(history)
    {
      var w := Window(history);
      forall i | 0 <= i < DATA_COUNT
        ensures data[i] in w
      {
        var j := (i + DATA_COUNT - dataIndex - 1) % DATA_COUNT;
        assert (dataIndex + 1 + j) % DATA_COUNT == i;
        assert data[i] == w[j];
      }
      forall j | 0 <= j < DATA_COUNT
        ensures w[j] in data[..]
      {
        assert data[(dataIndex + 1 + j) % DATA_COUNT] == w[j];
      }
    }

    method Put(s: Sample)
      requires Valid()
      modifies this`dataIndex, this`history, data
      ensures Valid() && history == old(history) + [s]
    {
      WindowNext(history, s);
      ghost var w := Window(history);
      dataIndex := (dataIndex + 1) % DATA_COUNT;
      data[dataIndex] := s;
      history := history + [s];
      forall j | 0 <= j < DATA_COUNT
        ensures data[(dataIndex + 1 + j) % DATA_COUNT] == Window(history)[j]
      {
        if j < DATA_COUNT - 1 {
          assert (dataIndex + 1 + j) % DATA_COUNT == (old(dataIndex) + 1 + (j + 1)) % DATA_COUNT;
          assert (dataIndex + 1 + j) % DATA_COUNT != dataIndex;
        }
      }
    }

    /** The choice among the samples in the ring. */
    method Select() returns (offset: int, delay: int)
      requires Valid()
      ensures OfLeast(offset, Window(history)) && IsGreatest(delay, Window(history))
    {
      RingHoldsWindow();
      var sorted := SortByDelay(data[..]);
      Ends(sorted, data[..]);
      assert IsLeast(sorted[0], Window(history));
      offset := sorted[0].offset;
      delay := sorted[|sorted| - 1].delay;
    }

    /** One exchange: the offset comes from a least-delay sample of the last eight. */
    method OnReply(e: Exchange)
      requires Valid()
      modifies this, data
      ensures Valid() && history == old(history) + [Measure(e)]
      ensures OfLeast(syncOffset, Window(history)) && IsGreatest(syncDelay, Window(history))
    {
      hide Window, Measure, OfLeast, IsGreatest;
      Put(Measure(e));
      syncOffset, syncDelay := Select();
    }
  }

  /** Exchange j is one of the last eight, and none of these has a smaller delay. */
  predicate LeastOfLast(es: seq<Exchange>, j: int) {
    && 0 <= j < |es| && j + 8 >= |es|
    && forall m :: 0 <= m < |es| && m + 8 >= |es| ==> Measure(es[j]).delay <= Measure(es[m]).delay
  }

  /** The least-delay sample of the window is that of an exchange among the last eight. */
  lemma LeastIsOfLast(es: seq<Exchange>, i: nat, s: Sample) returns (k: nat)
    requires IsLeast(s, Window(Measured(es)))
    requires i < |es| && i + DATA_COUNT >= |es| && Measure(es[i]).delay < MAX_DISP
    ensures LeastOfLast(es, k) && s == Measure(es[k])
  {
    hide Window, Measure, Measured, IsLeast;
    var history := Measured(es);
    MeasuredAt(es, i);
    LeastIsReal(history, s, i);
    k :| 0 <= k < |es| && k + DATA_COUNT >= |es| && s == history[k];
    MeasuredAt(es, k);
    forall m | 0 <= m < |es| && m + DATA_COUNT >= |es|
      ensures s.delay <= Measure(es[m]).delay
    {
      MeasuredAt(es, m);
    }
  }

  /** The greatest delay in the window is at least that of every exchange among the last eight, and from eight
      exchanges on it is that of one of them. */
  lemma GreatestOfLast(es: seq<Exchange>, delay: int)
    requires IsGreatest(delay, Window(Measured(es)))
    ensures forall j :: 0 <= j < |es| && j + 8 >= |es| ==> Measure(es[j]).delay <= delay
    ensures |es| >= 8 ==> exists j :: 0 <= j < |es| && j + 8 >= |es| && Measure(es[j]).delay == delay
    ensures |es| < 8 ==> delay >= MAX_DISP
  {
    hide Measure, Measured, Window, IsGreatest;
    var w := Window(Measured(es));
    forall j | 0 <= j < |es| && j + 8 >= |es|
      ensures Measure(es[j]).delay <= delay
    {
      SampleInWindow(es, 8 + j - |es|);
      NoneGreater(w, delay, 8 + j - |es|);
    }
    var k := PlaceOf(w, delay);
    if |es| >= 8 {
      SampleInWindow(es, k);
      assert Measure(es[|es| + k - 8]).delay == delay;
    } else {
      SampleInWindow(es, 0);
      NoneGreater(w, delay, 0);
      InitialDelay();
    }
  }

  lemma InitialDelay()
    ensures INITIAL.delay == MAX_DISP
  {
  }

  lemma NoneGreater(w: seq<Sample>, delay: int, k: nat)
    requires IsGreatest(delay, w) && k < |w|
    ensures w[k].delay <= delay
  {
    assert w[k] in w;
  }

  lemma PlaceOf(w: seq<Sample>, delay: int) returns (k: nat)
    requires IsGreatest(delay, w)
    ensures k < |w| && w[k].delay == delay
  {
    k :| 0 <= k < |w| && w[k].delay == delay;
  }

  lemma SampleInWindow(es: seq<Exchange>, k: nat)
    requires k < 8
    ensures Window(Measured(es))[k] == if |es| + k < 8 then INITIAL else Measure(es[|es| + k - 8])
  {
    hide Measure, Measured, Window;
    MeasuredLength(es);
    WindowAt(Measured(es), k);
    if |es| + k >= 8 {
      MeasuredAt(es, |es| + k - 8);
    }
  }

  lemma WindowAt(history: seq<Sample>, k: nat)
    requires k < 8
    ensures Window(history)[k] == if |history| + k < 8 then INITIAL else history[|history| + k - 8]
  {
  }

  lemma {:induction false} MeasuredLength(es: seq<Exchange>)
    ensures |Measured(es)| == |es|
  {
    if es != [] {
      MeasuredLength(es[..|es| - 1]);
    }
  }

  lemma LeastBounds(es: seq<Exchange>, theta: real, k: nat)
    requires LeastOfLast(es, k) && Plausible(es[k], theta)
    ensures forall j :: 0 <= j < |es| && j + DATA_COUNT >= |es| ==>
              Near(2.0 * (Measure(es[k]).offset as real - theta), EvenUp(Measure(es[j]).delay))
  {
    hide Measure;
    SampleBound(es[k], theta);
    forall j | 0 <= j < |es| && j + DATA_COUNT >= |es|
      ensures EvenUp(Measure(es[k]).delay) as real <= EvenUp(Measure(es[j]).delay) as real
    {
      assert Measure(es[k]).delay <= Measure(es[j]).delay;
    }
  }

  /** The clock bound over whole runs: with a constant true offset, after any exchanges of which one of the last
      eight has a delay below the initial one, the clock is that of a minimum-delay sample among these, and its
      error is bounded by that delay. */
  method Synchronise(es: seq<Exchange>, ghost theta: real, ghost i: nat, ntp: RaopNtp)
    requires ntp.Valid() && ntp.history == []
    requires forall e :: e in es ==> Plausible(e, theta)
    requires i < |es| && i + 8 >= |es| && Measure(es[i]).delay < 0x10_0000_0000
    modifies ntp, ntp.data
    ensures ntp.Valid() && ntp.history == Measured(es)
    ensures exists j :: LeastOfLast(es, j) && ntp.syncOffset == Measure(es[j]).offset
    ensures forall j :: 0 <= j < |es| && j + 8 >= |es| ==> Measure(es[j]).delay <= ntp.syncDelay
    ensures |es| >= 8 ==> exists j :: 0 <= j < |es| && j + 8 >= |es| && Measure(es[j]).delay == ntp.syncDelay
    ensures forall j :: 0 <= j < |es| && j + 8 >= |es| ==>
              Near(2.0 * (ntp.syncOffset as real - theta), EvenUp(Measure(es[j]).delay))
  {
    for n := 0 to |es|
      invariant ntp.Valid() && ntp.history == Measured(es[..n])
      invariant n > 0 ==> OfLeast(ntp.syncOffset, Window(ntp.history))
      invariant n > 0 ==> IsGreatest(ntp.syncDelay, Window(ntp.history))
    {
      hide Measure, Window;
      assert es[..n + 1][..n] == es[..n];
      ntp.OnReply(es[n]);
    }
    hide Measure, Window, Near, IsLeast;
    assert es[..|es|] == es;
    ghost var s :| IsLeast(s, Window(ntp.history)) && ntp.syncOffset == s.offset;
    ghost var k := LeastIsOfLast(es, i, s);
    LeastBounds(es, theta, k);
    GreatestOfLast(es, ntp.syncDelay);
  }
}
