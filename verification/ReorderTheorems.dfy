/**
 * What the ideal buffer does, with the window of 32 written out: which packets are taken in, where the window
 * starts, what is delivered next and when a hole is given up; and the same over runs.
 */
module ReorderTheorems {
  import opened Bytes
  import opened Wrappers
  import opened ReorderBuffer

  // ----- one event -----

  /** A packet is ignored for two reasons only: it is too late, or it is there already. */
  lemma AcceptsExactly(m: Ideal, n: int)
    requires Valid(m)
    ensures Accepts(m, n) <==> (m.empty || n >= m.first) && n !in m.packets
  {
  }

  /** An arrival inside the window of a buffer in use adds the packet and leaves the front where it is. */
  lemma ArriveInside(m: Ideal, n: int, p: Packet)
    requires Valid(m) && !m.empty && n < m.first + 32
    ensures var m' := Arrive(m, n, p);
            && !m'.empty && m'.first == m.first
            && (m'.last == if m.first <= n && m.last < n then n else m.last)
            && m'.packets == if n < m.first || n in m.packets then m.packets else m.packets[n := p]
  {
  }

  /** A packet beyond the window of a buffer in use starts a new window with itself in front, drops what was
      held, and is the next packet out, whether or not holes are waited for. */
  lemma ArriveBeyond(m: Ideal, n: int, p: Packet, noResend: bool)
    requires Valid(m) && !m.empty && n >= m.first + 32
    ensures Arrive(m, n, p).first == n && Arrive(m, n, p).last == n && !Arrive(m, n, p).empty
    ensures Arrive(m, n, p).packets == map[n := p]
    ensures Taken(Arrive(m, n, p), noResend) == Some(Numbered(n, p))
  {
  }

  /** The first packet into a buffer that is not in use is the next one out, whatever its number. */
  lemma ArriveFirst(m: Ideal, n: int, p: Packet, noResend: bool)
    requires Valid(m) && m.empty
    ensures Arrive(m, n, p) == Ideal(false, n, n, map[n := p])
    ensures Taken(Arrive(m, n, p), noResend) == Some(Numbered(n, p))
  {
  }

  /** The window moves on exactly when the buffer is in use, something is in the window, and the front is there,
      or holes are not waited for, or the window is full. */
  lemma TakeExactly(m: Ideal, noResend: bool)
    requires Valid(m)
    ensures Take(m, noResend).first == m.first + 1 <==>
            && !m.empty && m.first <= m.last
            && (noResend || m.first in m.packets || m.last == m.first + 31)
    ensures Take(m, noResend).first == m.first + 1 || Take(m, noResend) == m
    ensures Take(m, noResend).last == m.last && Take(m, noResend).empty == m.empty
    ensures forall k :: k in Take(m, noResend).packets <==> k in m.packets && k >= Take(m, noResend).first
    ensures forall k :: k in Take(m, noResend).packets ==> Take(m, noResend).packets[k] == m.packets[k]
  {
  }

  /** What is taken is the packet in front, if there is one. */
  lemma TakenExactly(m: Ideal, noResend: bool)
    requires Valid(m)
    ensures Taken(m, noResend) ==
            if m.first in m.packets then Some(Numbered(m.first, m.packets[m.first])) else None
  {
  }

  /** After a flush nothing is held. With a next number a buffer in use takes in exactly the packets from that
      number on, and the first it delivers while it waits for holes is that number; without one it takes in any,
      and the numbers of the last window stay, to be named in a resend request. */
  lemma FlushExactly(m: Ideal, next: Option<int>, k: int, p: Packet, noResend: bool)
    requires Valid(m)
    ensures Flush(m, next).packets == map[] && Take(Flush(m, next), noResend) == Flush(m, next)
    ensures next == None ==> Flush(m, next).first == m.first && Flush(m, next).last == m.last
    ensures Accepts(Flush(m, next), k) <==> (next.Some? && !m.empty ==> k >= next.value)
    ensures next.Some? && !m.empty && next.value <= k < next.value + 32 ==>
              (Taken(Arrive(Flush(m, next), k, p), false) == if k == next.value then Some(Numbered(k, p)) else None)
    ensures next == None || m.empty ==> Taken(Arrive(Flush(m, next), k, p), false) == Some(Numbered(k, p))
  {
  }

  // ----- the next packet out -----

  lemma ReplayMore(events: seq<Event>, e: Event)
    ensures Replay(events + [e]) == Record(Replay(events), e)
  {
    assert (events + [e])[..|events|] == events;
  }

  /** Neither a flush nor a dequeue nor a packet at or beyond n. */
  predicate Below(e: Event, n: int) { e.Ignored? || (e.Arrival? && e.n < n) }

  predicate AllBelow(events: seq<Event>, n: int) { forall e :: e in events ==> Below(e, n) }

  lemma AllButLast(init: seq<Event>, e: Event, n: int)
    requires AllBelow(init + [e], n)
    ensures AllBelow(init, n) && Below(e, n)
  {
    assert forall x :: x in init || x == e ==> x in init + [e];
  }

  ghost predicate InFront(h: History, n: int, p: Packet, delivered: seq<Numbered>) {
    && Valid(h.m) && !h.m.empty && h.m.first == n && n in h.m.packets && h.m.packets[n] == p
    && h.delivered == delivered
  }

  lemma StaysInFront(h: History, e: Event, n: int, p: Packet, delivered: seq<Numbered>)
    requires InFront(h, n, p, delivered) && Below(e, n + 32)
    ensures InFront(Record(h, e), n, p, delivered)
  {
    if e.Arrival? {
      KeepsValid(h.m, e.n, e.p, None, false);
    }
  }

  lemma {:induction false} FrontStays(events: seq<Event>, more: seq<Event>, n: int, p: Packet,
                                      delivered: seq<Numbered>)
    requires InFront(Replay(events), n, p, delivered) && AllBelow(more, n + 32)
    ensures InFront(Replay(events + more), n, p, delivered)
  {
    if more == [] {
      assert events + more == events;
    } else {
      hide *;
      var init, e := more[..|more| - 1], more[|more| - 1];
      assert more == init + [e];
      AllButLast(init, e, n + 32);
      FrontStays(events, init, n, p, delivered);
      StaysInFront(Replay(events + init), e, n, p, delivered);
      ReplayMore(events + init, e);
      assert events + more == events + init + [e];
    }
  }

  /** In every run: a packet beyond the window, or the first into a buffer not in use, is the next one delivered,
      whatever arrives within the window that it starts before the next dequeue. */
  lemma JumpIsNext(events: seq<Event>, n: int, p: Packet, more: seq<Event>, noResend: bool)
    requires Replay(events).m.empty || n >= Replay(events).m.first + 32
    requires AllBelow(more, n + 32)
    ensures Replay(events + [Arrival(n, p)] + more + [Dequeue(noResend)]).delivered ==
            Replay(events).delivered + [Numbered(n, p)]
  {
    var h, jump := Replay(events), events + [Arrival(n, p)];
    RunsConserveAndOrder(events);
    ReplayMore(events, Arrival(n, p));
    AcceptsExactly(h.m, n);
    KeepsValid(h.m, n, p, None, false);
    if h.m.empty {
      ArriveFirst(h.m, n, p, noResend);
    } else {
      ArriveBeyond(h.m, n, p, noResend);
    }
    FrontStays(jump, more, n, p, h.delivered);
    ReplayMore(jump + more, Dequeue(noResend));
  }

  // ----- a full window with a hole -----

  function Waits(c: nat): seq<Event> { seq(c, _ => Dequeue(false)) }

  /** The c packets from number n on. */
  function Row(packets: map<int, Packet>, n: int, c: nat): (r: seq<Numbered>)
    requires forall k :: n <= k < n + c ==> k in packets
    ensures |r| == c
  {
    seq(c, i requires 0 <= i < c => Numbered(n + i, packets[n + i]))
  }

  lemma RowNone(packets: map<int, Packet>, n: int)
    ensures Row(packets, n, 0) == []
  {
  }

  lemma RowMore(packets: map<int, Packet>, n: int, c: nat)
    requires forall k :: n <= k <= n + c ==> k in packets
    ensures Row(packets, n, c + 1) == Row(packets, n, c) + [Numbered(n + c, packets[n + c])]
  {
  }

  lemma WaitsNone(events: seq<Event>)
    ensures events + Waits(0) == events
  {
  }

  lemma WaitsMore(events: seq<Event>, c: nat)
    ensures Replay(events + Waits(c + 1)) == Record(Replay(events + Waits(c)), Dequeue(false))
  {
    ReplayMore(events + Waits(c), Dequeue(false));
    assert events + Waits(c + 1) == events + Waits(c) + [Dequeue(false)];
  }

  /** The same numbers and packets from the given number on. */
  ghost predicate FromOn(m: Ideal, m0: Ideal, n: int) {
    && Valid(m) && m.empty == m0.empty && m.first == n && m.last == m0.last
    && forall k :: k >= n ==>
                     (k in m.packets <==> k in m0.packets) && (k in m.packets ==> m.packets[k] == m0.packets[k])
  }

  lemma DequeueFront(m: Ideal, m0: Ideal, n: int)
    requires FromOn(m, m0, n) && n in m0.packets
    ensures FromOn(Take(m, false), m0, n + 1) && Taken(m, false) == Some(Numbered(n, m0.packets[n]))
  {
    KeepsValid(m, n, m0.packets[n], None, false);
  }

  /** Dequeues deliver the packets in front, one by one. */
  lemma {:induction false} DeliversRow(events: seq<Event>, m0: Ideal, n: int, c: nat)
    requires FromOn(Replay(events).m, m0, n) && forall k :: n <= k < n + c ==> k in m0.packets
    ensures FromOn(Replay(events + Waits(c)).m, m0, n + c)
    ensures Replay(events + Waits(c)).delivered == Replay(events).delivered + Row(m0.packets, n, c)
  {
    hide Replay, FromOn, Row, Waits, Take, Taken;
    if c == 0 {
      WaitsNone(events);
      RowNone(m0.packets, n);
    } else {
      DeliversRow(events, m0, n, c - 1);
      DequeueFront(Replay(events + Waits(c - 1)).m, m0, n + c - 1);
      WaitsMore(events, c - 1);
      RowMore(m0.packets, n, c - 1);
    }
  }

  lemma FrontIs(m: Ideal, m0: Ideal, n: int)
    requires FromOn(m, m0, n)
    ensures m.first == n
  {
  }

  lemma GivesUpHole(m: Ideal)
    requires Valid(m) && !m.empty && m.last == m.first + 31 && m.first !in m.packets
    ensures FromOn(Take(m, false), m, m.first + 1) && Taken(m, false) == None
  {
    KeepsValid(m, m.first, Packet([], 0), None, false);
  }

  /** The window has a hole in front, then c packets, then another hole or the end. */
  ghost predicate FullWithHole(m: Ideal, c: nat) {
    && !m.empty && m.last == m.first + 31 && m.first !in m.packets
    && (forall k :: m.first + 1 <= k < m.first + 1 + c ==> k in m.packets)
    && m.first + 1 + c !in m.packets
  }

  /** Progress in every run: when the window is full and its front is missing, one dequeue gives up the hole, the
      next ones deliver every packet up to the next hole, and there, the window no longer full, dequeue waits. */
  lemma HolesEnd(events: seq<Event>, c: nat, idle: nat)
    requires FullWithHole(Replay(events).m, c)
    ensures var h, h' := Replay(events), Replay(events + Waits(1) + Waits(c) + Waits(idle));
            && h'.m.first == h.m.first + 1 + c
            && h'.delivered == h.delivered + Row(h.m.packets, h.m.first + 1, c)
  {
    var h := Replay(events);
    RunsConserveAndOrder(events);
    hide Replay, FromOn, Row, Waits, Take, Taken, Ordered, Conserved;
    GivesUpHole(h.m);
    WaitsNone(events);
    WaitsMore(events, 0);
    DeliversRow(events + Waits(1), h.m, h.m.first + 1, c);
    Idles(events + Waits(1) + Waits(c), h.m, h.m.first + 1 + c, idle);
    FrontIs(Replay(events + Waits(1) + Waits(c)).m, h.m, h.m.first + 1 + c);
  }

  /** Such a window comes about: one packet is delivered, the next is lost, and the one 32 places behind arrives. */
  lemma HolesComeAbout(n: int, p: Packet)
    ensures FullWithHole(Replay([Arrival(n, p), Dequeue(false), Arrival(n + 32, p)]).m, 0)
  {
    var e1, e2, e3 := Arrival(n, p), Dequeue(false), Arrival(n + 32, p);
    assert [] + [e1] == [e1] && [e1] + [e2] == [e1, e2] && [e1, e2] + [e3] == [e1, e2, e3];
    ReplayMore([], e1);
    ReplayMore([e1], e2);
    ReplayMore([e1, e2], e3);
    assert Replay([e1]).m == Ideal(false, n, n, map[n := p]);
    assert Replay([e1, e2]).m == Ideal(false, n + 1, n, map[]);
    assert Replay([e1, e2, e3]).m == Ideal(false, n + 1, n + 32, map[n + 32 := p]);
  }

  lemma {:induction false} Idles(events: seq<Event>, m0: Ideal, n: int, idle: nat)
    requires FromOn(Replay(events).m, m0, n) && n !in m0.packets && m0.last < n + 31
    ensures Replay(events + Waits(idle)) == Replay(events)
  {
    hide Replay;
    if idle == 0 {
      WaitsNone(events);
    } else {
      Idles(events, m0, n, idle - 1);
      WaitsMore(events, idle - 1);
    }
  }
}
