/** The 32-slot ring of audio packets with 16-bit wrapping sequence numbers, against the ideal buffer. */
module RaopBuffer {
  import opened Bytes
  import opened Wrappers
  import opened ReorderBuffer

  const RAOP_BUFFER_LENGTH := 32
  const RAOP_PACKET_LEN := 32768

  datatype Entry = Entry(filled: bool, seqnum: int, packet: Packet)

  /** Conversion to a 16-bit signed integer. */
  function ToShort(x: int): int { (x + 32768) % 65536 - 32768 }

  /** Conversion to a 16-bit unsigned integer. */
  function ToUShort(x: int): int { x % 65536 }

  /** The serial order of section 3.2 of RFC 1982 on 16-bit numbers. */
  function SerialDifference(s1: int, s2: int): int { ToShort(ToUShort(s1) - ToUShort(s2)) }

  lemma UShortTwice(n: int)
    ensures ToUShort(ToUShort(n)) == ToUShort(n) && 0 <= ToUShort(n) <= 0xffff
  {
  }

  lemma UShortNext(s: int, n: int)
    requires ToUShort(s) == ToUShort(n)
    ensures ToUShort(s + 1) == ToUShort(n + 1)
  {
  }

  lemma UShortPlus(s: int, n: int, k: int)
    requires ToUShort(s) == ToUShort(n)
    ensures ToUShort(s + k) == ToUShort(n + k)
  {
    assert s == n + 65536 * (s / 65536 - n / 65536);
    assert s + k == n + k + 65536 * (s / 65536 - n / 65536);
    SameUShort(n + k, s / 65536 - n / 65536);
  }

  lemma SameUShort(x: int, q: int)
    ensures ToUShort(x + 65536 * q) == ToUShort(x)
  {
  }

  predicate InWindow(n: int, first: int) { first - 32768 <= n <= first + 32767 }

  lemma ShortOfCongruent(x: int, d: int, q: int)
    requires x == d + 65536 * q && -32768 <= d <= 32767
    ensures ToShort(x) == d
  {
  }

  /** The serial difference is that of the true numbers exactly when these are less than half the circle apart. */
  lemma DifferenceExactly(s1: int, s2: int, n1: int, n2: int)
    requires ToUShort(s1) == ToUShort(n1) && ToUShort(s2) == ToUShort(n2)
    ensures SerialDifference(s1, s2) == n1 - n2 <==> InWindow(n1, n2)
  {
    if InWindow(n1, n2) {
      ShortOfCongruent(ToUShort(s1) - ToUShort(s2), n1 - n2, n2 / 65536 - n1 / 65536);
    }
  }

  /** seqnum_cmp, for numbers known to stand for n1 and n2. */
  method SeqnumCmp(s1: int, s2: int, ghost n1: int, ghost n2: int) returns (c: int)
    requires ToUShort(s1) == ToUShort(n1) && ToUShort(s2) == ToUShort(n2)
    ensures c == SerialDifference(n1, n2)
    ensures InWindow(n1, n2) ==> c == n1 - n2
  {
    DifferenceExactly(s1, s2, n1, n2);
    c := ToShort(ToUShort(s1) - ToUShort(s2));
  }

  /** The number nearest to first that a 16-bit sequence number can stand for. */
  function Resolve(first: int, seqnum: int): int { first + ToShort(seqnum - first) }

  /** Every arrival stands for exactly one number within the window. */
  lemma ResolveExactly(first: int, seqnum: int, n: int)
    requires 0 <= seqnum < 65536
    ensures InWindow(n, first) && ToUShort(n) == seqnum <==> n == Resolve(first, seqnum)
  {
  }

  /** The number in the window from first on that belongs in slot i. */
  function KeyAt(first: int, i: int): int { first + (i - first) % 32 }

  lemma KeyOfSlot(first: int, k: int)
    requires first <= k < first + 32
    ensures KeyAt(first, k % 32) == k
  {
  }

  lemma SlotOfKey(first: int, i: int)
    requires 0 <= i < 32
    ensures first <= KeyAt(first, i) < first + 32 && KeyAt(first, i) % 32 == i
  {
  }

  lemma KeyAtNext(first: int, i: int)
    requires 0 <= i < 32
    ensures KeyAt(first + 1, i) == if i == first % 32 then first + 32 else KeyAt(first, i)
  {
    OneLess(i - first);
    SameSlot(i, first);
  }

  lemma OneLess(x: int)
    ensures (x - 1) % 32 == if x % 32 == 0 then 31 else x % 32 - 1
  {
  }

  lemma SameSlot(i: int, first: int)
    requires 0 <= i < 32
    ensures (i - first) % 32 == 0 <==> i == first % 32
  {
  }

  lemma SlotOfSeqnum(n: int)
    ensures ToUShort(n) % 32 == n % 32
  {
    assert n == 65536 * (n / 65536) + ToUShort(n);
  }

  /** The ideal buffer after c more deliveries. */
  function After(m: Ideal, c: nat): Ideal {
    m.(first := m.first + c, packets := map k | k in m.packets && k >= m.first + c :: m.packets[k])
  }

  /** Packet p is i places behind the front. */
  predicate IsAt(m: Ideal, i: nat, p: Packet) {
    m.first + i in m.packets && m.packets[m.first + i] == p
  }

  lemma AfterNone(m: Ideal)
    requires ReorderBuffer.Valid(m)
    ensures After(m, 0) == m
  {
    assert After(m, 0).packets == m.packets;
  }

  /** Once something is delivered the window is no longer full, and a hole is waited for. */
  lemma AtEnd(m: Ideal, c: nat, noResend: bool)
    requires ReorderBuffer.Valid(m) && Taken(After(m, c), noResend) == None
    ensures !noResend && c > 0 ==> Take(After(m, c), noResend) == After(m, c)
    ensures m.first + c !in m.packets
  {
  }

  lemma AfterNext(m: Ideal, c: nat, noResend: bool)
    requires ReorderBuffer.Valid(m) && ReorderBuffer.Valid(After(m, c)) && Taken(After(m, c), noResend).Some?
    ensures Take(After(m, c), noResend) == After(m, c + 1) && ReorderBuffer.Valid(After(m, c + 1))
    ensures IsAt(m, c, Taken(After(m, c), noResend).value.p)
  {
    KeepsValid(After(m, c), 0, Packet([], 0), None, noResend);
    assert Take(After(m, c), noResend).packets == After(m, c + 1).packets;
  }

  /** Making room first changes nothing about an arrival. */
  lemma ArriveAfterRoom(m: Ideal, n: int, p: Packet)
    requires ReorderBuffer.Valid(m)
    ensures m.empty ==> Arrive(m, n, p) == Ideal(false, n, n, map[n := p]) && Accepts(m, n)
    ensures !m.empty && n >= m.first ==> Arrive(MakeRoom(m, n), n, p) == Arrive(m, n, p)
    ensures !m.empty && n >= m.first ==> (Accepts(MakeRoom(m, n), n) <==> Accepts(m, n))
  {
  }

  lemma ArriveTooLate(m: Ideal, n: int, p: Packet)
    requires !m.empty && n < m.first
    ensures Arrive(m, n, p) == m && !Accepts(m, n)
  {
  }

  /** The fields of the ring. */
  datatype Ring = Ring(isEmpty: bool, firstSeqnum: int, lastSeqnum: int, entries: seq<Entry>)

  /** Slot i of the ring holds what the ideal buffer holds under the number that belongs there. */
  ghost predicate SlotMatches(e: Entry, m: Ideal, i: int) {
    var k := KeyAt(m.first, i);
    && (e.filled <==> k in m.packets)
    && (e.filled ==> e.seqnum == ToUShort(k) && e.packet == m.packets[k])
  }

  /** The refinement relation. */
  ghost predicate Implements(ring: Ring, m: Ideal) {
    && ReorderBuffer.Valid(m)
    && ring.isEmpty == m.empty
    && ring.firstSeqnum == ToUShort(m.first)
    && ring.lastSeqnum == ToUShort(m.last)
    && |ring.entries| == RAOP_BUFFER_LENGTH
    && forall i :: 0 <= i < RAOP_BUFFER_LENGTH ==> SlotMatches(ring.entries[i], m, i)
  }

  lemma FlushImplements(ring: Ring, m: Ideal, next: Option<int>, ring': Ring)
    requires Implements(ring, m)
    requires |ring'.entries| == RAOP_BUFFER_LENGTH
    requires forall i :: 0 <= i < RAOP_BUFFER_LENGTH ==> !ring'.entries[i].filled
    requires next == None ==> ring' == ring.(isEmpty := true, entries := ring'.entries)
    requires next.Some? ==>
               ring' == ring.(firstSeqnum := ToUShort(next.value), lastSeqnum := ToUShort(next.value - 1),
                   entries := ring'.entries)
    ensures Implements(ring', ReorderBuffer.Flush(m, next))
  {
  }

  /** Before the window there is nothing, so the slot of a number in the window holds it or is free. */
  lemma SlotIsRight(ring: Ring, m: Ideal, n: int)
    requires Implements(ring, m) && (m.empty || m.first <= n < m.first + WINDOW)
    ensures ring.entries[n % 32].filled <==> n in m.packets
    ensures ring.entries[n % 32].filled ==> ring.entries[n % 32].seqnum == ToUShort(n)
  {
    assert SlotMatches(ring.entries[n % 32], m, n % 32);
    if !m.empty {
      KeyOfSlot(m.first, n);
    }
  }

  lemma StoreImplements(ring: Ring, m: Ideal, n: int, p: Packet, ring': Ring)
    requires Implements(ring, m) && (m.empty || m.first <= n < m.first + WINDOW) && n !in m.packets
    requires ring'.entries == ring.entries[n % 32 := Entry(true, ToUShort(n), p)] && !ring'.isEmpty
    requires m.empty ==> ring'.firstSeqnum == ToUShort(n) && ring'.lastSeqnum == ToUShort(n)
    requires !m.empty ==> ring'.firstSeqnum == ring.firstSeqnum
    requires !m.empty ==> ring'.lastSeqnum == if n > m.last then ToUShort(n) else ring.lastSeqnum
    ensures Implements(ring', Arrive(m, n, p))
  {
    var m' := Arrive(m, n, p);
    KeepsValid(m, n, p, None, false);
    KeyOfSlot(m'.first, n);
    forall i | 0 <= i < 32 && i != n % 32
      ensures SlotMatches(ring'.entries[i], m', i)
    {
      SlotOfKey(m'.first, i);
      assert SlotMatches(ring.entries[i], m, i);
    }
  }

  lemma SlotAfterTake(m: Ideal, m': Ideal, e: Entry, e': Entry, i: int)
    requires 0 <= i < 32 && SlotMatches(e, m, i) && (forall k :: k in m.packets ==> k < m.first + WINDOW)
    requires m'.first == m.first + 1 && m'.packets == m.packets - {m.first}
    requires if i == m.first % 32 then !e'.filled else e' == e
    ensures SlotMatches(e', m', i)
  {
    KeyAtNext(m.first, i);
    SlotOfKey(m.first, i);
    hide KeyAt;
  }

  lemma WithinWindow(m: Ideal)
    requires ReorderBuffer.Valid(m)
    ensures forall k :: k in m.packets ==> k < m.first + WINDOW
  {
  }

  lemma TakeImplements(ring: Ring, m: Ideal, noResend: bool, ring': Ring)
    requires Implements(ring, m) && Moves(m, noResend)
    requires |ring'.entries| == RAOP_BUFFER_LENGTH && !ring'.entries[m.first % 32].filled
    requires forall i :: 0 <= i < RAOP_BUFFER_LENGTH && i != m.first % 32 ==> ring'.entries[i] == ring.entries[i]
    requires ring' == ring.(firstSeqnum := ToUShort(ring.firstSeqnum + 1), entries := ring'.entries)
    ensures Implements(ring', Take(m, noResend))
  {
    var m' := Take(m, noResend);
    KeepsValid(m, 0, Packet([], 0), None, noResend);
    UShortTwice(m.first);
    UShortNext(ring.firstSeqnum, m.first);
    hide ToUShort, KeyAt, SlotMatches, ReorderBuffer.Valid;
    WithinWindow(m);
    forall i | 0 <= i < 32
      ensures SlotMatches(ring'.entries[i], m', i)
    {
      assert SlotMatches(ring.entries[i], m, i);
      SlotAfterTake(m, m', ring.entries[i], ring'.entries[i], i);
    }
  }

  class RaopBuffer {
    const decrypt: seq<u8> -> seq<u8>
    var isEmpty: bool
    var firstSeqnum: int
    var lastSeqnum: int
    const entries: array<Entry>
    ghost var ideal: Ideal

    ghost function View(): Ring
      reads this, entries
    {
      Ring(isEmpty, firstSeqnum, lastSeqnum, entries[..])
    }

    ghost predicate Valid()
      reads this, entries
    {
      entries.Length == RAOP_BUFFER_LENGTH && Implements(View(), ideal)
    }

    constructor (decrypt: seq<u8> -> seq<u8>)
      ensures Valid() && fresh(entries) && ideal == Start().m && this.decrypt == decrypt
    {
      this.decrypt := decrypt;
      isEmpty, firstSeqnum, lastSeqnum := true, 0, 0;
      entries := new Entry[32](_ => Entry(false, 0, Packet([], 0)));
      ideal := Start().m;
    }

    /** An external flush, or the internal one for a packet beyond the window. */
    method Flush(nextSeq: int, ghost next: Option<int>)
      requires Valid()
      requires next.Some? <==> 0 <= nextSeq <= 0xffff
      requires next.Some? ==> ToUShort(next.value) == nextSeq
      modifies this`isEmpty, this`firstSeqnum, this`lastSeqnum, this`ideal, entries
      ensures Valid() && ideal == ReorderBuffer.Flush(old(ideal), next)
    {
      ghost var ring := View();
      for i := 0 to entries.Length
        modifies entries
        invariant forall j :: 0 <= j < i ==> !entries[j].filled
      {
        entries[i] := entries[i].(filled := false);
      }
      if nextSeq < 0 || nextSeq > 0xffff {
        isEmpty := true;
      } else {
        firstSeqnum := nextSeq;
        lastSeqnum := ToUShort(nextSeq - 1);
      }
      FlushImplements(ring, ideal, next, View());
      ideal := ReorderBuffer.Flush(ideal, next);
    }

    /** The 16-bit number the packet is filed under. */
    function SeqnumOf(data: seq<u8>, useSeqnum: bool): int
      requires |data| >= 4
      reads this
    {
      if useSeqnum then HighFirst(data[2..4]) else firstSeqnum
    }

    /** The packet length is wrong. */
    static predicate Malformed(data: seq<u8>) { |data| < 12 || |data| > 32768 }

    /** The packet that only says that there is no time. */
    static predicate NoTime(data: seq<u8>) { |data| == 16 && data[12..] == [0x0, 0x68, 0x34, 0x0] }

    /** n is the unbounded number of the packet: any if the buffer is empty, else the one that the window
        leaves open (ResolveExactly: there is always exactly one). */
    method Enqueue(data: seq<u8>, timestamp: nat, useSeqnum: bool, ghost n: int) returns (result: int)
      requires Valid()
      requires !Malformed(data) && !NoTime(data) ==>
                 ToUShort(n) == SeqnumOf(data, useSeqnum) && (isEmpty || InWindow(n, ideal.first))
      modifies this`isEmpty, this`firstSeqnum, this`lastSeqnum, this`ideal, entries
      ensures Valid() && -1 <= result <= 1
      ensures result == -1 <==> Malformed(data)
      ensures result == 1 <==> !Malformed(data) && !NoTime(data) && Accepts(old(ideal), n)
      ensures ideal == if Malformed(data) || NoTime(data) then old(ideal)
                       else Arrive(old(ideal), n, Packet(decrypt(data[12..]), timestamp))
    {
      if |data| < 12 || |data| > RAOP_PACKET_LEN {
        return -1;
      }
      HighFirst2(data[2..4]);
      if |data| == 16 && data[12] == 0x0 && data[13] == 0x68 && data[14] == 0x34 && data[15] == 0x0 {
        return 0;
      }
      var seqnum := if useSeqnum then data[2] * 256 + data[3] else firstSeqnum;
      var stored := File(seqnum, Packet(decrypt(data[12..]), timestamp), n);
      return if stored then 1 else 0;
    }

    /** The numbered part of the enqueue operation: late check, room, duplicate check, store. */
    method File(seqnum: int, packet: Packet, ghost n: int) returns (stored: bool)
      requires Valid() && seqnum == ToUShort(n) && (isEmpty || InWindow(n, ideal.first))
      modifies this`isEmpty, this`firstSeqnum, this`lastSeqnum, this`ideal, entries
      ensures Valid() && ideal == Arrive(old(ideal), n, packet)
      ensures stored <==> Accepts(old(ideal), n)
    {
      hide Arrive, Accepts, MakeRoom, SlotMatches, ToUShort, ToShort, SerialDifference;
      UShortTwice(n);
      UShortTwice(ideal.first);
      var ahead := SeqnumCmp(seqnum, firstSeqnum, n, ideal.first);
      if !isEmpty && ahead < 0 {
        ArriveTooLate(ideal, n, packet);
        return false;
      }
      ArriveAfterRoom(ideal, n, packet);
      Room(seqnum, n);
      ArriveAfterRoom(ideal, n, packet);
      stored := Store(seqnum, packet, n);
    }

    /** Start a new window for a packet beyond the present one. */
    method Room(seqnum: int, ghost n: int)
      requires Valid() && seqnum == ToUShort(n) && (isEmpty || (InWindow(n, ideal.first) && n >= ideal.first))
      modifies this`isEmpty, this`firstSeqnum, this`lastSeqnum, this`ideal, entries
      ensures Valid() && isEmpty == old(isEmpty)
      ensures !isEmpty ==> ideal == MakeRoom(old(ideal), n) && ideal.first <= n < ideal.first + WINDOW
    {
      hide SlotMatches, ToShort, SerialDifference, ToUShort;
      UShortTwice(n);
      UShortTwice(ideal.first);
      UShortPlus(firstSeqnum, ideal.first, RAOP_BUFFER_LENGTH);
      var beyond := SeqnumCmp(seqnum, firstSeqnum + RAOP_BUFFER_LENGTH, n, ideal.first + WINDOW);
      if beyond >= 0 {
        Flush(seqnum, Some(n));
      }
    }

    method Store(seqnum: int, packet: Packet, ghost n: int) returns (stored: bool)
      requires Valid() && seqnum == ToUShort(n) && (isEmpty || ideal.first <= n < ideal.first + WINDOW)
      modifies this`isEmpty, this`firstSeqnum, this`lastSeqnum, this`ideal, entries
      ensures Valid() && ideal == Arrive(old(ideal), n, packet)
      ensures stored <==> Accepts(old(ideal), n)
    {
      ghost var ring := View();
      ArriveAfterRoom(ideal, n, packet);
      SlotIsRight(ring, ideal, n);
      var slot := seqnum % RAOP_BUFFER_LENGTH;
      SlotOfSeqnum(n);
      var same := SeqnumCmp(entries[slot].seqnum, seqnum, entries[slot].seqnum, n);
      if entries[slot].filled && same == 0 {
        return false;
      }
      entries[slot] := Entry(true, seqnum, packet);
      if isEmpty {
        firstSeqnum := seqnum;
        lastSeqnum := seqnum;
        isEmpty := false;
      }
      var newer := SeqnumCmp(seqnum, lastSeqnum, n, if ideal.empty then n else ideal.last);
      if newer > 0 {
        lastSeqnum := seqnum;
      }
      StoreImplements(ring, ideal, n, packet, View());
      ideal := Arrive(ideal, n, packet);
      return true;
    }

    /** The number of places from the front to the last packet. */
    method EntryCount() returns (count: int)
      requires Valid()
      ensures count == Width(ideal)
    {
      var span := SeqnumCmp(lastSeqnum, firstSeqnum, ideal.last, ideal.first);
      count := ToShort(span + 1);
    }

    /** The slot of the packet at the front. */
    method FrontSlot() returns (slot: nat)
      requires Valid()
      ensures slot < RAOP_BUFFER_LENGTH && slot == ideal.first % 32
      ensures entries[slot].filled <==> ideal.first in ideal.packets
      ensures entries[slot].filled ==> entries[slot].packet == ideal.packets[ideal.first]
    {
      slot := firstSeqnum % RAOP_BUFFER_LENGTH;
      SlotOfSeqnum(ideal.first);
      KeyOfSlot(ideal.first, ideal.first);
      assert SlotMatches(View().entries[slot], ideal, slot);
    }

    /** Give up the front slot. */
    method Advance(slot: nat)
      requires Valid() && slot == ideal.first % 32 && slot < RAOP_BUFFER_LENGTH
          && exists noResend :: Moves(ideal, noResend)
      modifies this`firstSeqnum, this`ideal, entries
      ensures Valid() && ideal == Take(old(ideal), true)
    {
      ghost var ring := View();
      firstSeqnum := ToUShort(firstSeqnum + 1);
      entries[slot] := entries[slot].(filled := false);
      TakeImplements(ring, ideal, true, View());
      ideal := Take(ideal, true);
    }

    /** Take the packet at the front, wait for it, or give it up. */
    method Dequeue(noResend: bool) returns (packet: Option<Packet>)
      requires Valid()
      modifies this`firstSeqnum, this`ideal, entries
      ensures Valid() && ideal == Take(old(ideal), noResend)
      ensures packet == if Taken(old(ideal), noResend).Some? then Some(Taken(old(ideal), noResend).value.p) else None
    {
      var entryCount := EntryCount();
      if isEmpty || entryCount <= 0 {
        return None;
      }
      var slot := FrontSlot();
      var entry := entries[slot];
      if !noResend && !entry.filled && entryCount < RAOP_BUFFER_LENGTH {
        return None;
      }
      assert Moves(ideal, noResend);
      Advance(slot);
      packet := if entry.filled then Some(entry.packet) else None;
    }

    /** The drain loop of the receiver: deliver until dequeue returns nothing. */
    method Drain(noResend: bool) returns (out: seq<Packet>)
      requires Valid()
      modifies this`firstSeqnum, this`ideal, entries
      ensures Valid() && |out| <= WINDOW
      ensures forall i :: 0 <= i < |out| ==> IsAt(old(ideal), i, out[i])
      ensures old(ideal).first + |out| !in old(ideal).packets
      ensures ideal == Take(After(old(ideal), |out|), noResend)
      ensures !noResend && |out| > 0 ==> ideal == After(old(ideal), |out|)
    {
      hide Take, Taken, SlotMatches, After;
      out := [];
      ghost var m := ideal;
      AfterNone(m);
      var packet := Dequeue(noResend);
      while packet.Some?
        invariant Valid() && ReorderBuffer.Valid(After(m, |out|))
        invariant 0 <= |out| <= WINDOW && (|out| > 0 ==> m.first + |out| - 1 <= m.last)
        invariant forall i :: 0 <= i < |out| ==> IsAt(m, i, out[i])
        invariant ideal == Take(After(m, |out|), noResend)
        invariant packet == if Taken(After(m, |out|), noResend).Some?
            then Some(Taken(After(m, |out|), noResend).value.p) else None
        decreases Width(m) - |out|
      {
        AfterNext(m, |out|, noResend);
        out := out + [packet.value];
        packet := Dequeue(noResend);
      }
      AtEnd(m, |out|, noResend);
    }

    method IsFilled(seqnum: nat, ghost n: int) returns (filled: bool)
      requires Valid() && ToUShort(seqnum) == ToUShort(n) && (isEmpty || ideal.first <= n < ideal.first + WINDOW)
      ensures filled <==> n in ideal.packets
    {
      SlotIsRight(View(), ideal, n);
      SlotOfSeqnum(n);
      SlotOfSeqnum(seqnum);
      filled := entries[seqnum % RAOP_BUFFER_LENGTH].filled;
    }

    /** The number of the first packet present from the front on. */
    method FirstFilled() returns (seqnum: nat, ghost n: int)
      requires Valid() && ideal.first < ideal.last
      ensures ToUShort(seqnum) == ToUShort(n) && ideal.first <= n <= ideal.last
      ensures forall k :: ideal.first <= k < n ==> k !in ideal.packets
      ensures n < ideal.last ==> n in ideal.packets
    {
      hide SlotMatches, SerialDifference, ToShort, ToUShort;
      UShortTwice(ideal.first);
      UShortTwice(ideal.last);
      seqnum, n := firstSeqnum, ideal.first;
      var left := SeqnumCmp(seqnum, lastSeqnum, n, ideal.last);
      while left < 0
        invariant ideal.first <= n <= ideal.last && ToUShort(seqnum) == ToUShort(n) && left == n - ideal.last
        invariant forall k :: ideal.first <= k < n ==> k !in ideal.packets
        decreases -left
      {
        var filled := IsFilled(seqnum, n);
        if filled {
          return;
        }
        UShortNext(seqnum, n);
        seqnum, n := seqnum + 1, n + 1;
        left := SeqnumCmp(seqnum, lastSeqnum, n, ideal.last);
      }
    }

    /** The resend request. For a buffer that is in use it names exactly the maximal missing run at the
        front; for one that a flush has emptied it names whatever the last window was. */
    method HandleResends() returns (request: Option<(int, int)>)
      requires Valid()
      ensures !isEmpty ==> (request.Some? <==> ideal.first <= ideal.last && ideal.first !in ideal.packets)
      ensures !isEmpty && request.Some? ==>
                && request.value.0 == ToUShort(ideal.first) && 1 <= request.value.1 <= 31
                && (forall k :: ideal.first <= k < ideal.first + request.value.1 ==> k !in ideal.packets)
                && ideal.first + request.value.1 in ideal.packets
      ensures isEmpty ==>
                request == if ideal.first < ideal.last then Some((firstSeqnum, ideal.last - ideal.first)) else None
    {
      hide SlotMatches, SerialDifference, ToShort, ToUShort;
      request := None;
      UShortTwice(ideal.first);
      UShortTwice(ideal.last);
      var behind := SeqnumCmp(firstSeqnum, lastSeqnum, ideal.first, ideal.last);
      if behind < 0 {
        var seqnum;
        ghost var n;
        seqnum, n := FirstFilled();
        var count := SeqnumCmp(seqnum, firstSeqnum, n, ideal.first);
        if count != 0 {
          request := Some((firstSeqnum, count));
        }
      }
    }
  }

  // ----- whole runs of the ring -----

  /** A datagram, a call of dequeue, a flush, or the resend request. */
  datatype Input =
    | Datagram(data: seq<u8>, timestamp: nat, useSeqnum: bool)
    | DequeueCall(noResend: bool)
    | FlushCall(nextSeq: int)
    | ResendCall

  /** The 16-bit input is the unbounded event, whose number the window of a buffer in use does not leave open. */
  ghost predicate StandsFor(i: Input, e: Event, m: Ideal, decrypt: seq<u8> -> seq<u8>) {
    match i
    case Datagram(data, timestamp, useSeqnum) =>
      if RaopBuffer.Malformed(data) || RaopBuffer.NoTime(data) then e == Ignored
      else
        && e.Arrival? && e.p == Packet(decrypt(data[12..]), timestamp)
        && ToUShort(e.n) == (if useSeqnum then HighFirst(data[2..4]) else ToUShort(m.first))
        && (m.empty || InWindow(e.n, m.first))
    case DequeueCall(r) => e == Dequeue(r)
    case FlushCall(next) =>
      e.External? && (e.next.Some? <==> 0 <= next <= 0xffff) && (e.next.Some? ==> ToUShort(e.next.value) == next)
    case ResendCall => e == Ignored
  }

  /** One input, and the packet that a dequeue returns. */
  method Serve(input: Input, ghost e: Event, b: RaopBuffer) returns (packet: Option<Packet>)
    requires b.Valid() && StandsFor(input, e, b.ideal, b.decrypt)
    modifies b, b.entries
    ensures b.Valid()
    ensures b.ideal == match e
                       case Arrival(n, p) => Arrive(old(b.ideal), n, p)
                       case Dequeue(r) => Take(old(b.ideal), r)
                       case External(next) => ReorderBuffer.Flush(old(b.ideal), next)
                       case Ignored => old(b.ideal)
    ensures packet == if e.Dequeue? && Taken(old(b.ideal), e.noResend).Some?
                      then Some(Taken(old(b.ideal), e.noResend).value.p) else None
  {
    hide Arrive, Take, Taken, ReorderBuffer.Flush, SlotMatches, ReorderBuffer.Valid, ToUShort;
    packet := None;
    match input {
      case Datagram(data, timestamp, useSeqnum) =>
        ghost var n := if e.Arrival? then e.n else 0;
        var result := b.Enqueue(data, timestamp, useSeqnum, n);
      case DequeueCall(r) =>
        packet := b.Dequeue(r);
      case FlushCall(next) =>
        b.Flush(next, e.next);
      case ResendCall =>
        var request := b.HandleResends();
    }
  }

  /** Whatever the run, the ring delivers what the ideal buffer delivers. */
  method Session(inputs: seq<Input>, ghost events: seq<Event>, b: RaopBuffer) returns (out: seq<Packet>)
    requires b.Valid() && b.ideal == Start().m && |inputs| == |events|
    requires forall i :: 0 <= i < |inputs| ==> StandsFor(inputs[i], events[i], Replay(events[..i]).m, b.decrypt)
    modifies b, b.entries
    ensures b.Valid() && b.ideal == Replay(events).m
    ensures |out| == |Replay(events).delivered|
    ensures forall i :: 0 <= i < |out| ==> out[i] == Replay(events).delivered[i].p
  {
    out := [];
    for i := 0 to |inputs|
      invariant b.Valid() && b.ideal == Replay(events[..i]).m
      invariant |out| == |Replay(events[..i]).delivered|
      invariant forall j :: 0 <= j < |out| ==> out[j] == Replay(events[..i]).delivered[j].p
    {
      assert events[..i + 1][..i] == events[..i];
      assert StandsFor(inputs[i], events[i], Replay(events[..i]).m, b.decrypt);
      hide StandsFor, Arrive, Take, Implements;
      var packet := Serve(inputs[i], events[i], b);
      if packet.Some? {
        out := out + [packet.value];
      }
    }
    assert events[..|inputs|] == events;
  }
}
