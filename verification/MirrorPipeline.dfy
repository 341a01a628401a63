/** The mirroring receiver end to end: frames off the connection, decryption, rewriting, hand-over. */
module MirrorPipeline {
  import opened Wrappers
  import opened Bytes
  import opened MirrorFraming
  import opened MirrorCrypto
  import opened MirrorNal

  /** What the sender means: video in encrypted length-prefixed units, the parameter sets, anything else. */
  datatype Message = Video(plain: seq<byte>, nals: seq<Nal>) | Config(sps: Nal, pps: Nal) | Other

  /** The payload type: of the two-byte number behind the size, low byte first, the low byte. */
  function PayloadType(f: Frame): byte
    requires |f.header| == HEADER_SIZE
  {
    f.header[4]
  }

  /** The sender puts message m into frame f, at position pos of the keystream. */
  ghost predicate Sends(f: Frame, m: Message, keystream: nat -> byte, pos: nat) {
    && WellFormed(f)
    && match m
       case Video(plain, nals) =>
         && f.header[4] == 0 && f.payload == Xor(plain, keystream, pos)
         && LengthPrefixed(plain, nals) && Carry(pos) <= |plain|
       case Config(sps, pps) => f.header[4] == 1 && Carries(f.payload, sps, pps) && |sps| < 0x8000 && |pps| < 0x100
       case Other => f.header[4] != 0 && f.header[4] != 1
  }

  lemma PayloadTypeIs(f: Frame)
    requires |f.header| == HEADER_SIZE
    ensures PayloadType(f) as int == LowFirst(Numbers(f.header[4..6])) % 256
    ensures PayloadType(f) == f.header[4]
  {
    LowestByte(Numbers(f.header[4..6]));
    hide LowFirst;
    assert Numbers(f.header[4..6])[0] == f.header[4] as int;
  }

  /** The decoder is to get this. */
  function Shown(m: Message): seq<seq<byte>> {
    match m
    case Video(_, nals) => [ByteStream(nals)]
    case Config(sps, pps) => [ByteStream([sps, pps])]
    case Other => []
  }

  function AllShown(ms: seq<Message>): seq<seq<byte>> {
    if ms == [] then [] else AllShown(ms[..|ms| - 1]) + Shown(ms[|ms| - 1])
  }

  /** Only video uses up keystream. */
  function Used(ms: seq<Message>): nat {
    if ms == [] then 0
    else Used(ms[..|ms| - 1]) + (if ms[|ms| - 1].Video? then |ms[|ms| - 1].plain| else 0)
  }

  ghost predicate AllSent(frames: seq<Frame>, ms: seq<Message>, keystream: nat -> byte) {
    |frames| == |ms| && forall i :: 0 <= i < |ms| ==> Sends(frames[i], ms[i], keystream, Used(ms[..i]))
  }

  lemma AllWellFormed(frames: seq<Frame>, ms: seq<Message>, keystream: nat -> byte)
    requires AllSent(frames, ms, keystream)
    ensures forall f :: f in frames ==> WellFormed(f)
  {
    hide Used, WellFormed, Xor;
  }

  /** Decrypt and rewrite one video payload. */
  method ShowVideo(f: Frame, m: MirrorBuffer, ghost plain: seq<byte>, ghost nals: seq<Nal>) returns (out: seq<byte>)
    requires m.Valid() && Sends(f, Video(plain, nals), m.aes.keystream, m.Position())
    modifies m, m.aes, m.og
    ensures m.Valid() && m.Position() == old(m.Position()) + |plain|
    ensures out == ByteStream(nals)
  {
    hide Xor, Carry, LengthPrefixed, ByteStream, Units;
    var clear := DecryptChunk(f.payload, m);
    XorTwice(plain, m.aes.keystream, old(m.Position()));
    var payloadDecrypted := new byte[|clear|](i requires 0 <= i < |clear| => clear[i]);
    assert payloadDecrypted[..] == clear;
    UnitsExactly(plain, nals);
    var whole, count := RewriteNals(payloadDecrypted);
    out := payloadDecrypted[..];
  }

  method ShowConfig(f: Frame, ghost sps: Nal, ghost pps: Nal) returns (out: seq<byte>)
    requires Carries(f.payload, sps, pps) && |sps| < 0x8000
    ensures out == ByteStream([sps, pps]) <==> |pps| < 0x100
  {
    var payload := new byte[|f.payload|](i requires 0 <= i < |f.payload| => f.payload[i]);
    assert payload[..] == f.payload;
    var spsPps := AssembleSpsPps(payload, sps, pps);
    out := spsPps[..];
  }

  /** What the receive thread does with a complete frame. */
  method Handle(f: Frame, m: MirrorBuffer, ghost message: Message) returns (out: seq<seq<byte>>)
    requires m.Valid() && Sends(f, message, m.aes.keystream, m.Position())
    modifies m, m.aes, m.og
    ensures m.Valid() && m.Position() == old(m.Position()) + if message.Video? then |message.plain| else 0
    ensures out == Shown(message)
  {
    if PayloadType(f) == 0 {
      var video := ShowVideo(f, m, message.plain, message.nals);
      out := [video];
    } else if PayloadType(f) == 1 {
      var config := ShowConfig(f, message.sps, message.pps);
      out := [config];
    } else {
      out := [];
    }
  }

  /** Of a part of the stream, the frames parsed are the first ones sent. */
  lemma ParsedIsPrefix(frames: seq<Frame>, part: seq<byte>, rest: seq<byte>)
    requires (forall f :: f in frames ==> WellFormed(f)) && part + rest == Wire(frames)
    ensures Parse(part).0 <= frames
    ensures rest == [] ==> Parse(part).0 == frames
  {
    ParseInvertsWire(frames);
    ParseResumes(part, rest);
    if rest == [] {
      assert part + rest == part;
    }
  }

  lemma NextMessage(ms: seq<Message>, k: nat)
    requires k < |ms|
    ensures AllShown(ms[..k + 1]) == AllShown(ms[..k]) + Shown(ms[k])
    ensures Used(ms[..k + 1]) == Used(ms[..k]) + if ms[k].Video? then |ms[k].plain| else 0
  {
    assert ms[..k + 1][..k] == ms[..k];
  }

  /** The state of the session after got bytes: k messages are through. */
  ghost predicate Through(frames: seq<Frame>, got: seq<byte>, incoming: seq<byte>, k: nat, pending: seq<byte>) {
    && k <= |frames| && got + incoming == Wire(frames) && Parse(got) == (frames[..k], pending)
  }

  lemma OneMore(frames: seq<Frame>, got: seq<byte>, incoming: seq<byte>, k: nat, pending: seq<byte>,
                more: seq<byte>, incoming': seq<byte>, found: seq<Frame>, pending': seq<byte>)
    requires (forall f :: f in frames ==> WellFormed(f)) && Through(frames, got, incoming, k, pending)
    requires incoming == more + incoming' && Parse(pending + more) == (found, pending') && |found| <= 1
    ensures k + |found| <= |frames| && (found != [] ==> found[0] == frames[k])
    ensures Through(frames, got + more, incoming', k + |found|, pending')
  {
    Associates(got, more, incoming');
    ParseResumes(got, more);
    ParsedIsPrefix(frames, got + more, incoming');
    ExtendsPrefix(frames, k, found);
  }

  lemma ExtendsPrefix(frames: seq<Frame>, k: nat, found: seq<Frame>)
    requires k <= |frames| && frames[..k] + found <= frames
    ensures k + |found| <= |frames| && frames[..k] + found == frames[..k + |found|]
    ensures found != [] ==> found[0] == frames[k]
  {
    if found != [] {
      assert (frames[..k] + found)[k] == frames[k];
    }
  }

  /** The receiving half of a turn: if a frame comes through it is the next one sent. */
  method Fetch(c: Connection, framer: Framer, ghost frames: seq<Frame>, ghost got: seq<byte>, ghost k: nat)
    returns (frame: Option<Frame>, ghost more: seq<byte>)
    requires framer.Valid() && c.arrivals != [] && (forall f :: f in frames ==> WellFormed(f))
    requires Through(frames, got, c.incoming, k, framer.Pending())
    modifies framer`payload, framer`readstart, framer.packet, framer.payload, c
    ensures framer.Valid() && (framer.payload == null || framer.payload == old(framer.payload) || fresh(framer.payload))
    ensures |c.arrivals| < |old(c.arrivals)|
    ensures frame.Some? ==> k < |frames| && frame.value == frames[k]
    ensures Through(frames, got + more, c.incoming, if frame.Some? then k + 1 else k, framer.Pending())
  {
    hide *;
    ghost var pending, incoming := framer.Pending(), c.incoming;
    frame, more := framer.OnReadable(c);
    OneMore(frames, got, incoming, k, pending, more, c.incoming, if frame.Some?
        then [frame.value] else [], framer.Pending());
  }

  /** One turn of the receive thread: at most one frame comes through and is handed on. */
  method Turn(c: Connection, framer: Framer, m: MirrorBuffer,
              ghost frames: seq<Frame>, ghost ms: seq<Message>, ghost got: seq<byte>, ghost k: nat)
    returns (out: seq<seq<byte>>, ghost more: seq<byte>, ghost k': nat)
    requires framer.Valid() && c.arrivals != [] && framer.packet != m.og && framer.payload != m.og
    requires AllSent(frames, ms, m.aes.keystream) && Through(frames, got, c.incoming, k, framer.Pending())
    requires m.Valid() && m.Position() == Used(ms[..k])
    modifies framer`payload, framer`readstart, framer.packet, framer.payload, c, m, m.aes, m.og
    ensures framer.Valid() && (framer.payload == null || framer.payload == old(framer.payload) || fresh(framer.payload))
    ensures |c.arrivals| < |old(c.arrivals)|
    ensures k' <= |ms| && Through(frames, got + more, c.incoming, k', framer.Pending())
    ensures m.Valid() && m.Position() == Used(ms[..k'])
    ensures AllShown(ms[..k']) == AllShown(ms[..k]) + out
  {
    hide Parse, Wire, Used, AllShown, Shown;
    var frame;
    AllWellFormed(frames, ms, m.aes.keystream);
    frame, more := Fetch(c, framer, frames, got, k);
    k' := if frame.Some? then k + 1 else k;
    out := [];
    if frame.Some? {
      NextMessage(ms, k);
      assert Sends(frames[k], ms[k], m.aes.keystream, Used(ms[..k]));
      out := Handle(frame.value, m, ms[k]);
    } else {
      assert AllShown(ms[..k]) + [] == AllShown(ms[..k]);
    }
  }

  /** End to end: whatever way the bytes arrive, the decoder gets the byte-stream form of the messages sent,
      in order; all of them once all bytes have arrived. */
  method Run(c: Connection, framer: Framer, m: MirrorBuffer, ghost frames: seq<Frame>, ghost ms: seq<Message>)
    returns (outs: seq<seq<byte>>, ghost k: nat)
    requires framer.Valid() && framer.payload == null && framer.Pending() == [] && framer.packet != m.og
    requires m.Valid() && m.Position() == 0
    requires c.incoming == Wire(frames) && AllSent(frames, ms, m.aes.keystream)
    modifies framer`payload, framer`readstart, framer.packet, c, m, m.aes, m.og
    ensures k <= |ms| && outs == AllShown(ms[..k])
    ensures c.incoming == [] ==> k == |ms|
  {
    outs, k := [], 0;
    ghost var got := [];
    AllWellFormed(frames, ms, m.aes.keystream);
    assert got + c.incoming == c.incoming;
    while c.arrivals != []
      invariant framer.Valid() && (framer.payload == null || fresh(framer.payload))
      invariant k <= |ms| && outs == AllShown(ms[..k])
      invariant m.Valid() && m.Position() == Used(ms[..k])
      invariant Through(frames, got, c.incoming, k, framer.Pending())
      decreases |c.arrivals|
    {
      var out;
      ghost var more;
      out, more, k := Turn(c, framer, m, frames, ms, got, k);
      got := got + more;
      outs := outs + out;
    }
    if c.incoming == [] {
      ParsedIsPrefix(frames, got, c.incoming);
    }
  }
}
