/** Framing of the mirroring stream: 128-byte headers and payloads, read with a resumable receive loop. */
module MirrorFraming {
  import opened Wrappers
  import opened Bytes

  const HEADER_SIZE := 128

  datatype Frame = Frame(header: seq<byte>, payload: seq<byte>)

  /** The frames at the front of a byte stream, and the unfinished rest. */
  function Parse(s: seq<byte>): (r: (seq<Frame>, seq<byte>))
    decreases |s|
  {
    if |s| < HEADER_SIZE || |s| < HEADER_SIZE + LittleEndian32(s) then ([], s)
    else
      var end := HEADER_SIZE + LittleEndian32(s);
      var rest := Parse(s[end..]);
      ([Frame(s[..HEADER_SIZE], s[HEADER_SIZE..end])] + rest.0, rest.1)
  }

  /** A prefix that holds a whole header and payload is cut off alike with and without what follows it. */
  lemma FrontOfJoin(a: seq<byte>, b: seq<byte>)
    requires |a| >= HEADER_SIZE && |a| >= HEADER_SIZE + LittleEndian32(a)
    ensures LittleEndian32(a + b) == LittleEndian32(a)
    ensures (a + b)[..HEADER_SIZE] == a[..HEADER_SIZE]
    ensures var end := HEADER_SIZE + LittleEndian32(a);
            (a + b)[HEADER_SIZE..end] == a[HEADER_SIZE..end] && (a + b)[end..] == a[end..] + b
  {
    LengthInFront(a, b);
    hide LittleEndian32;
    SliceOfJoin(a, b, HEADER_SIZE + LittleEndian32(a));
  }

  lemma LengthInFront(a: seq<byte>, b: seq<byte>)
    requires |a| >= 4
    ensures LittleEndian32(a + b) == LittleEndian32(a)
  {
    assert (a + b)[0] == a[0] && (a + b)[1] == a[1] && (a + b)[2] == a[2] && (a + b)[3] == a[3];
  }

  lemma SliceOfJoin(a: seq<byte>, b: seq<byte>, end: nat)
    requires HEADER_SIZE <= end <= |a|
    ensures (a + b)[..HEADER_SIZE] == a[..HEADER_SIZE]
    ensures (a + b)[HEADER_SIZE..end] == a[HEADER_SIZE..end] && (a + b)[end..] == a[end..] + b
  {
  }

  lemma FramesAssociate(a: seq<Frame>, b: seq<Frame>, c: seq<Frame>)
    ensures a + (b + c) == (a + b) + c && [] + c == c
  {
  }

  /** Parsing can stop after any prefix and go on with what was left over. */
  lemma {:induction false} ParseResumes(a: seq<byte>, b: seq<byte>)
    ensures Parse(a + b).0 == Parse(a).0 + Parse(Parse(a).1 + b).0
    ensures Parse(a + b).1 == Parse(Parse(a).1 + b).1
    decreases |a|
  {
    hide LittleEndian32;
    if |a| < HEADER_SIZE || |a| < HEADER_SIZE + LittleEndian32(a) {
      assert Parse(a).0 == [] && Parse(a).1 == a;
      FramesAssociate([], [], Parse(a + b).0);
    } else {
      ParseStep(a, b);
      ParseResumes(a[HEADER_SIZE + LittleEndian32(a)..], b);
    }
  }

  /** With a whole frame in front, parsing resumes if it does behind that frame. */
  lemma ParseStep(a: seq<byte>, b: seq<byte>)
    requires |a| >= HEADER_SIZE && |a| >= HEADER_SIZE + LittleEndian32(a)
    ensures var rest := a[HEADER_SIZE + LittleEndian32(a)..];
            && Parse(a).1 == Parse(rest).1 && Parse(a + b).1 == Parse(rest + b).1
            && forall more :: Parse(rest + b).0 == Parse(rest).0 + more ==> Parse(a + b).0 == Parse(a).0 + more
  {
    hide LittleEndian32;
    var end := HEADER_SIZE + LittleEndian32(a);
    FrontOfJoin(a, b);
    ParseFirst(a);
    ParseFirst(a + b);
    var frame := [Frame(a[..HEADER_SIZE], a[HEADER_SIZE..end])];
    forall more | Parse(a[end..] + b).0 == Parse(a[end..]).0 + more
      ensures Parse(a + b).0 == Parse(a).0 + more
    {
      FramesAssociate(frame, Parse(a[end..]).0, more);
    }
  }

  lemma Gathered(kept: seq<byte>, got: seq<byte>, piece: seq<byte>, rest: seq<byte>)
    ensures (kept + got) + piece == kept + (got + piece) && got + (piece + rest) == (got + piece) + rest
  {
  }

  lemma ParseGoesOn(kept: seq<byte>, got: seq<byte>, more: seq<byte>)
    ensures Parse(kept + (got + more)) ==
            (Parse(kept + got).0 + Parse(Parse(kept + got).1 + more).0, Parse(Parse(kept + got).1 + more).1)
  {
    ParseResumes(kept + got, more);
    assert kept + (got + more) == (kept + got) + more;
  }

  lemma ParseUnfinished(header: seq<byte>, part: seq<byte>)
    requires |header| == HEADER_SIZE && |part| < LittleEndian32(header)
    ensures Parse(header + part) == ([], header + part)
  {
    hide LittleEndian32;
    LengthInFront(header, part);
  }

  lemma ParseFirst(s: seq<byte>)
    requires |s| >= HEADER_SIZE && |s| >= HEADER_SIZE + LittleEndian32(s)
    ensures var end := HEADER_SIZE + LittleEndian32(s);
            && Parse(s).0 == [Frame(s[..HEADER_SIZE], s[HEADER_SIZE..end])] + Parse(s[end..]).0
            && Parse(s).1 == Parse(s[end..]).1
  {
    hide LittleEndian32;
  }

  lemma ParseOne(header: seq<byte>, body: seq<byte>)
    requires |header| == HEADER_SIZE && |body| == LittleEndian32(header)
    ensures Parse(header + body).0 == [Frame(header, body)] && Parse(header + body).1 == []
  {
    hide LittleEndian32;
    ParseFirstWire(Frame(header, body), []);
    assert header + body + [] == header + body;
  }

  predicate WellFormed(f: Frame) {
    |f.header| == HEADER_SIZE && LittleEndian32(f.header) == |f.payload|
  }

  function Wire(frames: seq<Frame>): seq<byte> {
    if frames == [] then [] else frames[0].header + frames[0].payload + Wire(frames[1..])
  }

  /** What was sent is what is parsed, with nothing left over. */
  lemma {:induction false} ParseInvertsWire(frames: seq<Frame>)
    requires forall f :: f in frames ==> WellFormed(f)
    ensures Parse(Wire(frames)).0 == frames && Parse(Wire(frames)).1 == []
    decreases |frames|
  {
    hide LittleEndian32;
    if frames != [] {
      assert WellFormed(frames[0]);
      ParseInvertsWire(frames[1..]);
      ParseFirstWire(frames[0], Wire(frames[1..]));
      assert frames == [frames[0]] + frames[1..];
    }
  }

  lemma ParseFirstWire(f: Frame, more: seq<byte>)
    requires WellFormed(f)
    ensures Parse(f.header + f.payload + more).0 == [f] + Parse(more).0
    ensures Parse(f.header + f.payload + more).1 == Parse(more).1
  {
    hide LittleEndian32;
    var s, end := f.header + f.payload, HEADER_SIZE + |f.payload|;
    LengthInFront(f.header, f.payload);
    FrontOfJoin(s, more);
    ParseFirst(s + more);
    assert s[..HEADER_SIZE] == f.header && s[HEADER_SIZE..end] == f.payload && s[end..] + more == more;
  }

  /** What a header of 128 bytes says: its first four bytes are the length of the payload, the lowest first. The
      frame is complete as soon as that many bytes are there, and what follows is the next one's. */
  lemma SizeInHeader(header: seq<byte>, rest: seq<byte>, b0: byte, b1: byte, b2: byte, b3: byte)
    requires |header| == 128 && header[..4] == [b0, b1, b2, b3]
    ensures var n := (b0 as int) + 256 * (b1 as int) + 65536 * (b2 as int) + 16777216 * (b3 as int);
            if |rest| < n then Parse(header + rest) == ([], header + rest)
            else
              && Parse(header + rest).0 == [Frame(header, rest[..n])] + Parse(rest[n..]).0
              && Parse(header + rest).1 == Parse(rest[n..]).1
  {
    SizeIs(header, b0, b1, b2, b3);
    hide *;
    SplitBySize(header, rest, LittleEndian32(header));
  }

  lemma SplitBySize(header: seq<byte>, rest: seq<byte>, n: nat)
    requires |header| == HEADER_SIZE && LittleEndian32(header) == n
    ensures |rest| < n ==> Parse(header + rest) == ([], header + rest)
    ensures |rest| >= n ==>
              && Parse(header + rest).0 == [Frame(header, rest[..n])] + Parse(rest[n..]).0
              && Parse(header + rest).1 == Parse(rest[n..]).1
  {
    hide LittleEndian32, Parse;
    if |rest| < n {
      ParseUnfinished(header, rest);
    } else {
      ParseFirstWire(Frame(header, rest[..n]), rest[n..]);
      assert header + rest[..n] + rest[n..] == header + rest;
    }
  }

  lemma SizeIs(header: seq<byte>, b0: byte, b1: byte, b2: byte, b3: byte)
    requires |header| >= 4 && header[..4] == [b0, b1, b2, b3]
    ensures LittleEndian32(header) ==
            (b0 as int) + 256 * (b1 as int) + 65536 * (b2 as int) + 16777216 * (b3 as int)
  {
    assert header[0] == header[..4][0] && header[1] == header[..4][1];
    assert header[2] == header[..4][2] && header[3] == header[..4][3];
  }

  /** The connection: bytes on their way, and how many of them each recv finds (none: it would block). */
  class Connection {
    var incoming: seq<byte>
    var arrivals: seq<nat>

    constructor (incoming: seq<byte>, arrivals: seq<nat>)
      ensures this.incoming == incoming && this.arrivals == arrivals
    {
      this.incoming, this.arrivals := incoming, arrivals;
    }

    /** recv: some of the next bytes, at most len, or -1 when it would block. */
    method Recv(buffer: array<byte>, offset: nat, len: nat) returns (ret: int)
      requires 0 < len && offset + len <= buffer.Length
      modifies this, buffer
      ensures ret == -1 || 0 < ret <= len
      ensures ret == -1 ==> buffer[..] == old(buffer[..]) && incoming == old(incoming)
      ensures ret > 0 ==>
                && buffer[..offset] == old(buffer[..offset]) && buffer[offset + ret..] == old(buffer[offset + ret..])
                && old(incoming) == buffer[offset..offset + ret] + incoming
      ensures old(arrivals) != [] ==> |arrivals| < |old(arrivals)|
      ensures old(arrivals) == [] ==> ret == -1 && arrivals == []
    {
      if arrivals == [] {
        return -1;
      }
      var n := arrivals[0];
      arrivals := arrivals[1..];
      n := if n > len then len else n;
      n := if n > |incoming| then |incoming| else n;
      if n == 0 {
        return -1;
      }
      forall i | 0 <= i < n {
        buffer[offset + i] := incoming[i];
      }
      assert buffer[offset..offset + n] == incoming[..n];
      incoming := incoming[n..];
      return n;
    }
  }

  class Framer {
    const packet: array<byte>
    var payload: array?<byte>
    var readstart: nat

    ghost predicate Valid()
      reads this, packet, payload
    {
      && packet.Length == HEADER_SIZE
      && payload != packet
      && (payload == null ==> readstart < HEADER_SIZE)
      && (payload != null ==> payload.Length == LittleEndian32(packet[..]) && readstart < payload.Length)
    }

    /** The bytes received since the last frame. */
    ghost function Pending(): seq<byte>
      requires Valid()
      reads this, packet, payload
    {
      if payload == null then packet[..readstart] else packet[..] + payload[..readstart]
    }

    constructor ()
      ensures Valid() && fresh(packet) && payload == null && Pending() == []
    {
      packet := new byte[HEADER_SIZE](_ => 0);
      payload := null;
      readstart := 0;
    }

    /** The receive loop, for the header and for the payload alike; complete tells whether the buffer is full. */
    method Fill(buffer: array<byte>, c: Connection) returns (complete: bool, ghost got: seq<byte>)
      requires readstart <= buffer.Length
      modifies this`readstart, buffer, c
      ensures readstart <= buffer.Length && (complete <==> readstart == buffer.Length)
      ensures buffer[..readstart] == old(buffer[..readstart]) + got
      ensures old(c.incoming) == got + c.incoming
      ensures |c.arrivals| <= |old(c.arrivals)|
      ensures old(c.arrivals) != [] && old(readstart) < buffer.Length ==> |c.arrivals| < |old(c.arrivals)|
    {
      got := [];
      ghost var kept, all, begin, turns := buffer[..readstart], c.incoming, readstart, |c.arrivals|;
      while readstart < buffer.Length
        invariant begin <= readstart <= buffer.Length
        invariant buffer[..readstart] == kept + got && all == got + c.incoming
        invariant |c.arrivals| <= turns && (readstart == begin || |c.arrivals| < turns)
        decreases buffer.Length - readstart
      {
        var ret;
        ghost var piece;
        ret, piece := FillSome(buffer, c);
        if ret <= 0 {
          break;
        }
        Gathered(kept, got, piece, c.incoming);
        got := got + piece;
      }
      complete := readstart == buffer.Length;
    }

    /** One receive into the rest of the buffer. */
    method FillSome(buffer: array<byte>, c: Connection) returns (ret: int, ghost piece: seq<byte>)
      requires readstart < buffer.Length
      modifies this`readstart, buffer, c
      ensures ret == -1 || ret > 0
      ensures readstart == old(readstart) + (if ret > 0 then ret else 0) <= buffer.Length
      ensures buffer[..readstart] == old(buffer[..readstart]) + piece && old(c.incoming) == piece + c.incoming
      ensures (ret == -1 ==> piece == []) && (ret > 0 ==> |c.arrivals| < |old(c.arrivals)|)
      ensures |c.arrivals| <= |old(c.arrivals)| && (old(c.arrivals) != [] ==> |c.arrivals| < |old(c.arrivals)|)
    {
      piece := [];
      ret := c.Recv(buffer, readstart, buffer.Length - readstart);
      if ret > 0 {
        piece := buffer[readstart..readstart + ret];
        assert buffer[..readstart + ret] == buffer[..readstart] + piece;
        readstart := readstart + ret;
      }
    }

    /** The payload part of a turn, and the hand-over of a complete frame. */
    method FinishFrame(body: array<byte>, c: Connection, ghost kept: seq<byte>)
      returns (frame: Option<Frame>, ghost got: seq<byte>)
      requires payload == body && body != packet && packet.Length == HEADER_SIZE
      requires body.Length == LittleEndian32(packet[..]) && readstart <= body.Length
      requires kept == packet[..] + body[..readstart]
      modifies this`payload, this`readstart, packet, body, c
      ensures Valid() && (payload == null || payload == body)
      ensures old(c.incoming) == got + c.incoming
      ensures |c.arrivals| <= |old(c.arrivals)|
      ensures old(c.arrivals) != [] && old(readstart) < body.Length ==> |c.arrivals| < |old(c.arrivals)|
      ensures Parse(kept + got) == (if frame.Some? then [frame.value] else [], Pending())
      ensures frame.Some? ==> forall i :: 0 <= i < HEADER_SIZE ==> packet[i] == 0
    {
      hide LittleEndian32, Parse;
      got := [];
      if readstart < body.Length {
        var complete;
        complete, got := Fill(body, c);
        assert kept + got == packet[..] + body[..readstart];
        if !complete {
          ParseUnfinished(packet[..], body[..readstart]);
          return None, got;
        }
      }
      assert kept + got == packet[..] + body[..];
      ParseOne(packet[..], body[..]);
      frame := Some(Frame(packet[..], body[..]));
      payload := null;
      forall i | 0 <= i < HEADER_SIZE {
        packet[i] := 0;
      }
      readstart := 0;
    }

    /** The header part of a turn; a complete header makes room for the payload. */
    method StartFrame(c: Connection) returns (body: array?<byte>, ghost got: seq<byte>)
      requires Valid() && payload == null && c.arrivals != []
      modifies this`payload, this`readstart, packet, c
      ensures packet.Length == HEADER_SIZE && payload == body
      ensures body != null ==>
                && fresh(body) && body.Length == LittleEndian32(packet[..]) && readstart == 0
                && packet[..] == old(Pending()) + got
      ensures body == null ==> Valid() && Pending() == old(Pending()) + got
      ensures old(c.incoming) == got + c.incoming
      ensures |c.arrivals| < |old(c.arrivals)|
    {
      var complete;
      complete, got := Fill(packet, c);
      if complete {
        body := new byte[LittleEndian32(packet[..])];
        payload := body;
        readstart := 0;
      } else {
        body := null;
      }
    }

    /** One turn of the receive thread on a readable connection: at most one frame, and otherwise everything
        received so far is kept for the next turn. */
    method OnReadable(c: Connection) returns (frame: Option<Frame>, ghost got: seq<byte>)
      requires Valid() && c.arrivals != []
      modifies this`payload, this`readstart, packet, payload, c
      ensures Valid() && (payload == null || payload == old(payload) || fresh(payload))
      ensures old(c.incoming) == got + c.incoming
      ensures |c.arrivals| < |old(c.arrivals)|
      ensures Parse(old(Pending()) + got) == (if frame.Some? then [frame.value] else [], Pending())
    {
      if payload == null {
        frame, got := OnNewFrame(c);
      } else {
        frame, got := FinishFrame(payload, c, Pending());
      }
    }

    method OnNewFrame(c: Connection) returns (frame: Option<Frame>, ghost got: seq<byte>)
      requires Valid() && payload == null && c.arrivals != []
      modifies this`payload, this`readstart, packet, c
      ensures Valid() && (payload == null || fresh(payload))
      ensures old(c.incoming) == got + c.incoming
      ensures |c.arrivals| < |old(c.arrivals)|
      ensures Parse(old(Pending()) + got) == (if frame.Some? then [frame.value] else [], Pending())
    {
      ghost var kept := Pending();
      var body;
      body, got := StartFrame(c);
      if body == null {
        ParseOfPending();
        return None, got;
      }
      ghost var more;
      assert body[..readstart] == [];
      frame, more := FinishFrame(body, c, kept + got);
      Associates(kept, got, more);
      Associates(got, more, c.incoming);
      got := got + more;
    }

    /** The receive thread over any arrivals: the frames and the leftover are those of the bytes received,
        however they were split and wherever the connection would have blocked. */
    method Receive(c: Connection) returns (frames: seq<Frame>, ghost got: seq<byte>)
      requires Valid()
      modifies this`payload, this`readstart, packet, payload, c
      ensures Valid()
      ensures Parse(old(Pending()) + got) == (frames, Pending())
      ensures old(c.incoming) == got + c.incoming
    {
      frames, got := [], [];
      ghost var kept := Pending();
      ParseOfPending();
      assert kept + got == kept;
      while c.arrivals != []
        invariant Valid() && (payload == null || payload == old(payload) || fresh(payload))
        invariant Parse(kept + got) == (frames, Pending())
        invariant old(c.incoming) == got + c.incoming
        decreases |c.arrivals|
      {
        hide Parse, LittleEndian32;
        var frame;
        ghost var more;
        frame, more := OnReadable(c);
        Associates(got, more, c.incoming);
        ParseGoesOn(kept, got, more);
        got := got + more;
        frames := frames + if frame.Some? then [frame.value] else [];
      }
    }

    /** What is pending never contains a whole frame. */
    lemma ParseOfPending()
      requires Valid()
      ensures Parse(Pending()) == ([], Pending())
    {
      if payload != null {
        ParseUnfinished(packet[..], payload[..readstart]);
      }
    }
  }
}
