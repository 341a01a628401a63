/**
 * The ideal reorder buffer: packets keyed by unbounded sequence numbers, a window of 32 that starts at
 * first. This is the receiver of section 5.1 of RFC 3550 without the 16-bit wrap.
 */
module ReorderBuffer {
  import opened Bytes
  import opened Wrappers

  datatype Packet = Packet(payload: seq<u8>, timestamp: nat)

  /** A packet under its unbounded sequence number. */
  datatype Numbered = Numbered(n: int, p: Packet)

  const WINDOW := 32

  datatype Ideal = Ideal(empty: bool, first: int, last: int, packets: map<int, Packet>)

  ghost predicate Valid(m: Ideal) {
    && m.first - 1 <= m.last < m.first + WINDOW
    && (forall k :: k in m.packets ==> m.first <= k <= m.last)
    && (m.empty ==> m.packets == map[])
    && (!m.empty && m.first <= m.last ==> m.last in m.packets)
  }

  function Flush(m: Ideal, next: Option<int>): Ideal {
    match next
    case None => m.(empty := true, packets := map[])
    case Some(n) => m.(first := n, last := n - 1, packets := map[])
  }

  /** Room for n: a packet at or beyond the end of the window empties the buffer and starts a new window. */
  function MakeRoom(m: Ideal, n: int): Ideal {
    if n >= m.first + WINDOW then Flush(m, Some(n)) else m
  }

  /** The arrival of packet n: too late and already present are ignored. */
  predicate Accepts(m: Ideal, n: int) {
    (m.empty || n >= m.first) && n !in MakeRoom(m, n).packets
  }

  function Arrive(m: Ideal, n: int, p: Packet): Ideal {
    if !Accepts(m, n) then m
    else
      var room := MakeRoom(m, n);
      if m.empty then Ideal(false, n, n, map[n := p])
      else room.(packets := room.packets[n := p], last := if n > room.last then n else room.last)
  }

  function Width(m: Ideal): int { m.last - m.first + 1 }

  /** Whether taking moves the window: the first packet is there, or its place is given up. */
  predicate Moves(m: Ideal, noResend: bool) {
    !m.empty && Width(m) > 0 && (noResend || m.first in m.packets || Width(m) >= WINDOW)
  }

  function Take(m: Ideal, noResend: bool): Ideal {
    if Moves(m, noResend) then m.(first := m.first + 1, packets := m.packets - {m.first}) else m
  }

  function Taken(m: Ideal, noResend: bool): Option<Numbered> {
    if Moves(m, noResend) && m.first in m.packets then Some(Numbered(m.first, m.packets[m.first])) else None
  }

  lemma KeepsValid(m: Ideal, n: int, p: Packet, next: Option<int>, noResend: bool)
    requires Valid(m)
    ensures Valid(Arrive(m, n, p)) && Valid(Flush(m, next)) && Valid(Take(m, noResend))
  {
  }

  // ----- whole runs -----

  /** Ignored is what changes nothing: a packet that is malformed or says that there is no time, a resend request. */
  datatype Event = Arrival(n: int, p: Packet) | Dequeue(noResend: bool) | External(next: Option<int>) | Ignored

  /** The buffer with its history; since is the number of deliveries at the last external flush. */
  datatype History = History(
    m: Ideal,
    accepted: multiset<Numbered>,
    delivered: seq<Numbered>,
    discarded: multiset<Numbered>,
    since: nat)

  function Start(): History {
    History(Ideal(true, 0, 0, map[]), multiset{}, [], multiset{}, 0)
  }

  function Contents(packets: map<int, Packet>): set<Numbered> { set k | k in packets :: Numbered(k, packets[k]) }

  function Held(m: Ideal): multiset<Numbered> { multiset(Contents(m.packets)) }

  function Record(h: History, e: Event): History {
    match e
    case Arrival(n, p) =>
      if !Accepts(h.m, n) then h
      else h.(m := Arrive(h.m, n, p), accepted := h.accepted + multiset{Numbered(n, p)},
              discarded := h.discarded + (if n >= h.m.first + WINDOW then Held(h.m) else multiset{}))
    case Dequeue(noResend) =>
      var taken := Taken(h.m, noResend);
      h.(m := Take(h.m, noResend), delivered := if taken.Some? then h.delivered + [taken.value] else h.delivered)
    case External(next) =>
      h.(m := Flush(h.m, next), discarded := h.discarded + Held(h.m), since := |h.delivered|)
    case Ignored => h
  }

  function Replay(events: seq<Event>): History {
    if events == [] then Start() else Record(Replay(events[..|events| - 1]), events[|events| - 1])
  }

  /** Every accepted packet is delivered, still held, or discarded by a flush, and only once. */
  ghost predicate Conserved(h: History) {
    h.accepted == multiset(h.delivered) + Held(h.m) + h.discarded
  }

  /** Since the last external flush deliveries have strictly increasing numbers, all below the window. */
  ghost predicate Ordered(h: History) {
    && h.since <= |h.delivered|
    && (forall i, j :: h.since <= i < j < |h.delivered| ==> h.delivered[i].n < h.delivered[j].n)
    && (forall i :: h.since <= i < |h.delivered| ==> h.delivered[i].n < h.m.first)
    && (h.m.empty ==> h.since == |h.delivered|)
  }

  lemma AddContents(packets: map<int, Packet>, n: int, p: Packet)
    requires n !in packets
    ensures Contents(packets[n := p]) == Contents(packets) + {Numbered(n, p)} && Numbered(n, p) !in Contents(packets)
  {
    var more := packets[n := p];
    forall x
      ensures x in Contents(more) <==> x in Contents(packets) || x == Numbered(n, p)
    {
      if x in Contents(packets) {
        assert more[x.n] == packets[x.n];
      }
      assert more[n] == p;
    }
  }

  lemma RemoveContents(packets: map<int, Packet>, n: int)
    requires n in packets
    ensures Contents(packets) == Contents(packets - {n}) + {Numbered(n, packets[n])}
    ensures Numbered(n, packets[n]) !in Contents(packets - {n})
  {
    assert packets == (packets - {n})[n := packets[n]];
    AddContents(packets - {n}, n, packets[n]);
  }

  lemma ArrivalConserves(h: History, n: int, p: Packet)
    requires Valid(h.m) && Conserved(h)
    ensures Conserved(Record(h, Arrival(n, p)))
  {
    if Accepts(h.m, n) {
      var room := if h.m.empty then map[] else MakeRoom(h.m, n).packets;
      AddContents(room, n, p);
      assert Record(h, Arrival(n, p)).m.packets == room[n := p];
      assert Contents(map[]) == {};
    }
  }

  lemma ArrivalOrders(h: History, n: int, p: Packet)
    requires Valid(h.m) && Ordered(h)
    ensures Ordered(Record(h, Arrival(n, p)))
  {
  }

  lemma TakeHeld(packets: map<int, Packet>, n: int)
    requires n in packets
    ensures multiset(Contents(packets)) == multiset(Contents(packets - {n})) + multiset{Numbered(n, packets[n])}
  {
    RemoveContents(packets, n);
  }

  lemma DequeueConserves(h: History, noResend: bool)
    requires Conserved(h)
    ensures Conserved(Record(h, Dequeue(noResend)))
  {
    hide Contents;
    if !Moves(h.m, noResend) {
    } else if h.m.first in h.m.packets {
      var x := Numbered(h.m.first, h.m.packets[h.m.first]);
      TakeHeld(h.m.packets, h.m.first);
      assert Held(h.m) == Held(Take(h.m, noResend)) + multiset{x};
      assert multiset(h.delivered + [x]) == multiset(h.delivered) + multiset{x};
    } else {
      assert h.m.packets - {h.m.first} == h.m.packets;
    }
  }

  lemma DequeueOrders(h: History, noResend: bool)
    requires Valid(h.m) && Ordered(h)
    ensures Ordered(Record(h, Dequeue(noResend)))
  {
  }

  lemma FlushKeeps(h: History, next: Option<int>)
    requires Valid(h.m) && Conserved(h) && Ordered(h)
    ensures Conserved(Record(h, External(next))) && Ordered(Record(h, External(next)))
  {
    assert Contents(map[]) == {};
  }

  lemma RecordKeeps(h: History, e: Event)
    requires Valid(h.m) && Conserved(h) && Ordered(h)
    ensures Valid(Record(h, e).m) && Conserved(Record(h, e)) && Ordered(Record(h, e))
  {
    match e
    case Arrival(n, p) =>
      KeepsValid(h.m, n, p, None, false);
      ArrivalConserves(h, n, p);
      ArrivalOrders(h, n, p);
    case Dequeue(noResend) =>
      KeepsValid(h.m, 0, Packet([], 0), None, noResend);
      DequeueConserves(h, noResend);
      DequeueOrders(h, noResend);
    case External(next) =>
      KeepsValid(h.m, 0, Packet([], 0), next, false);
      FlushKeeps(h, next);
    case Ignored =>
  }

  /** Conservation and order over every run. */
  lemma {:induction false} RunsConserveAndOrder(events: seq<Event>)
    ensures Valid(Replay(events).m) && Conserved(Replay(events)) && Ordered(Replay(events))
  {
    if events != [] {
      RunsConserveAndOrder(events[..|events| - 1]);
      RecordKeeps(Replay(events[..|events| - 1]), events[|events| - 1]);
    }
  }
}
