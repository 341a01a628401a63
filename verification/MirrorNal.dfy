/** From length-prefixed NAL units to the byte-stream format of Annex B of ITU-T H.264. */
module MirrorNal {
  import opened Bytes

  type Nal = seq<byte>

  const START_CODE: seq<byte> := [0, 0, 0, 1]

  /** The units, each behind a start code. */
  function ByteStream(nals: seq<Nal>): seq<byte> {
    if nals == [] then [] else START_CODE + nals[0] + ByteStream(nals[1..])
  }

  /** s is exactly the units, each behind its big-endian length, and no unit is empty. */
  predicate LengthPrefixed(s: seq<byte>, nals: seq<Nal>) {
    if nals == [] then s == []
    else
      && 0 < |nals[0]| && |s| >= 4 + |nals[0]| && BigEndian32(s) == |nals[0]|
      && s[4..4 + |nals[0]|] == nals[0]
      && LengthPrefixed(s[4 + |nals[0]|..], nals[1..])
  }

  /** The units a payload spells, if it spells any. */
  function Units(s: seq<byte>): (bool, seq<Nal>)
    decreases |s|
  {
    if s == [] then (true, [])
    else if |s| < 4 || BigEndian32(s) == 0 || |s| < 4 + BigEndian32(s) then (false, [])
    else
      var end := 4 + BigEndian32(s);
      var rest := Units(s[end..]);
      (rest.0, [s[4..end]] + rest.1)
  }

  /** What the first four bytes say: the length n of the unit behind them, the highest byte first. A length of zero
      or beyond the end is no unit. */
  lemma LengthInFront(b0: byte, b1: byte, b2: byte, b3: byte, n: nat, rest: seq<byte>)
    requires n == 16777216 * (b0 as int) + 65536 * (b1 as int) + 256 * (b2 as int) + (b3 as int)
    ensures var units := Units([b0, b1, b2, b3] + rest);
            if n == 0 || |rest| < n then !units.0
            else (units.0 <==> Units(rest[n..]).0) && units.1 == [rest[..n]] + Units(rest[n..]).1
  {
    hide Units;
    LengthIs(b0, b1, b2, b3, n, rest);
    hide *;
    UnitByLength([b0, b1, b2, b3], rest, n);
  }

  lemma LengthIs(b0: byte, b1: byte, b2: byte, b3: byte, n: nat, rest: seq<byte>)
    requires n == 16777216 * (b0 as int) + 65536 * (b1 as int) + 256 * (b2 as int) + (b3 as int)
    ensures BigEndian32([b0, b1, b2, b3] + rest) == n
  {
  }

  lemma UnitByLength(length: seq<byte>, rest: seq<byte>, n: nat)
    requires |length| == 4 && BigEndian32(length + rest) == n
    ensures n == 0 || |rest| < n ==> !Units(length + rest).0
    ensures !(n == 0 || |rest| < n) ==>
              && (Units(length + rest).0 <==> Units(rest[n..]).0)
              && Units(length + rest).1 == [rest[..n]] + Units(rest[n..]).1
  {
    hide BigEndian32, Units;
    var s := length + rest;
    if n == 0 || |rest| < n {
      NoUnits(s);
    } else {
      UnitsFirst(s);
      assert s[4..4 + n] == rest[..n] && s[4 + n..] == rest[n..];
    }
  }

  lemma UnitsFirst(s: seq<byte>)
    requires |s| >= 4 && BigEndian32(s) != 0 && |s| >= 4 + BigEndian32(s)
    ensures var end := 4 + BigEndian32(s);
            Units(s).0 == Units(s[end..]).0 && Units(s).1 == [s[4..end]] + Units(s[end..]).1
  {
    hide BigEndian32;
  }

  lemma NoUnits(s: seq<byte>)
    requires s != [] && (|s| < 4 || BigEndian32(s) == 0 || |s| < 4 + BigEndian32(s))
    ensures !Units(s).0
  {
    hide BigEndian32;
  }

  lemma SameLists(x: Nal, a: seq<Nal>, nals: seq<Nal>)
    requires nals != []
    ensures [x] + a == nals <==> x == nals[0] && a == nals[1..]
  {
    assert ([x] + a)[1..] == a;
    assert nals == [nals[0]] + nals[1..];
  }

  lemma PrefixedFirst(s: seq<byte>, nals: seq<Nal>)
    requires nals != [] && |s| >= 4 && BigEndian32(s) != 0 && |s| >= 4 + BigEndian32(s)
    ensures var end := 4 + BigEndian32(s);
            LengthPrefixed(s, nals) <==> s[4..end] == nals[0] && LengthPrefixed(s[end..], nals[1..])
  {
    hide BigEndian32;
  }

  /** A payload spells at most one list of units, and a list is what it spells exactly when it encodes them. */
  lemma {:induction false} UnitsExactly(s: seq<byte>, nals: seq<Nal>)
    ensures LengthPrefixed(s, nals) <==> Units(s).0 && Units(s).1 == nals
    decreases |s|
  {
    hide BigEndian32;
    if s != [] {
      if |s| < 4 || BigEndian32(s) == 0 || |s| < 4 + BigEndian32(s) {
        NoUnits(s);
      } else {
        UnitsFirst(s);
        if nals != [] {
          var end := 4 + BigEndian32(s);
          UnitsExactly(s[end..], nals[1..]);
          PrefixedFirst(s, nals);
          hide Units, LengthPrefixed;
          SameLists(s[4..end], Units(s[end..]).1, nals);
        }
      }
    }
  }

  lemma {:induction false} ByteStreamAppend(a: seq<Nal>, b: seq<Nal>)
    ensures ByteStream(a + b) == ByteStream(a) + ByteStream(b)
  {
    if a == [] {
      assert a + b == b;
    } else {
      ByteStreamAppend(a[1..], b);
      assert (a + b)[1..] == a[1..] + b;
      Associates(START_CODE + a[0], ByteStream(a[1..]), ByteStream(b));
    }
  }

  lemma ByteStreamNext(done: seq<Nal>, nal: Nal)
    ensures ByteStream(done + [nal]) == ByteStream(done) + START_CODE + nal
  {
    ByteStreamAppend(done, [nal]);
    assert [nal][1..] == [];
    assert ByteStream([nal]) == START_CODE + nal;
    Associates(ByteStream(done), START_CODE, nal);
  }

  /** After the units done, the payload spells the rest of its units from the given place on, if it spells any. */
  ghost predicate GoesOn(was: seq<byte>, at: nat, done: seq<Nal>) {
    && at <= |was| && (Units(was).0 <==> Units(was[at..]).0)
    && (Units(was).0 ==> Units(was).1 == done + Units(was[at..]).1)
  }

  /** The first units are rewritten, up to the given place; the rest is as it was, and spells the other units, if
      the whole spells any. */
  ghost predicate Rewritten(was: seq<byte>, s: seq<byte>, at: nat, done: seq<Nal>) {
    at <= |s| && |s| == |was| && s[..at] == ByteStream(done) && s[at..] == was[at..] && GoesOn(was, at, done)
  }

  lemma RewritingStarts(was: seq<byte>)
    ensures Rewritten(was, was, 0, [])
  {
    assert was[0..] == was && [] + Units(was).1 == Units(was).1;
  }

  /** One turn of the rewrite loop on values. */
  lemma RewriteOne(was: seq<byte>, s: seq<byte>, at: nat, done: seq<Nal>, s': seq<byte>)
    requires Rewritten(was, s, at, done) && at + 4 <= |s|
    requires var len := BigEndian32(was[at..]); len != 0 && at + 4 + len <= |s|
    requires |s'| == |s| && s'[..at + 4] == s[..at] + START_CODE && s'[at + 4..] == s[at + 4..]
    ensures var end := at + 4 + BigEndian32(was[at..]);
            Rewritten(was, s', end, done + [was[at + 4..end]])
  {
    hide BigEndian32, ByteStream, Units;
    var len := BigEndian32(was[at..]);
    var nal := was[at + 4..at + 4 + len];
    UnitsGoOn(was, at, done);
    SpliceUnit(was, s, at, len, s');
    ByteStreamNext(done, nal);
  }

  lemma UnitsGoOn(was: seq<byte>, at: nat, done: seq<Nal>)
    requires GoesOn(was, at, done) && at + 4 <= |was|
    requires var len := BigEndian32(was[at..]); len != 0 && at + 4 + len <= |was|
    ensures var end := at + 4 + BigEndian32(was[at..]); GoesOn(was, end, done + [was[at + 4..end]])
  {
    hide BigEndian32;
    var rest, len := was[at..], BigEndian32(was[at..]);
    var end := at + 4 + len;
    UnitsFirst(rest);
    hide Units;
    assert rest[4 + len..] == was[end..] && rest[4..4 + len] == was[at + 4..end];
    UnitsAssociate(done, was[at + 4..end], Units(was[end..]).1);
  }

  lemma UnitsAssociate(a: seq<Nal>, x: Nal, b: seq<Nal>)
    ensures a + ([x] + b) == (a + [x]) + b
  {
  }

  lemma SpliceUnit(was: seq<byte>, s: seq<byte>, at: nat, len: nat, s': seq<byte>)
    requires at + 4 + len <= |s| == |was| == |s'| && s[at..] == was[at..]
    requires s'[..at + 4] == s[..at] + START_CODE && s'[at + 4..] == s[at + 4..]
    ensures s'[..at + 4 + len] == s[..at] + START_CODE + was[at + 4..at + 4 + len]
    ensures s'[at + 4 + len..] == was[at + 4 + len..]
  {
    assert s[at + 4..] == s[at..][4..] == was[at..][4..] == was[at + 4..];
    assert s'[..at + 4 + len] == s'[..at + 4] + s'[at + 4..][..len];
    assert s'[at + 4 + len..] == s'[at + 4..][len..];
  }

  method WriteStartCode(target: array<byte>, at: nat)
    requires at + 4 <= target.Length
    modifies target
    ensures target[..at + 4] == old(target[..at]) + START_CODE && target[at + 4..] == old(target[at + 4..])
  {
    target[at + 0] := 0;
    target[at + 1] := 0;
    target[at + 2] := 0;
    target[at + 3] := 1;
  }

  /** The in-place rewrite. It reaches the end of the payload, with no length of zero and no length that is cut
      off, exactly when the payload spells units; then every length has become a start code, and no other byte has
      changed. The code relies on the sender for that: it asserts that lengths are positive, and a length that
      runs past the end only ends the loop. */
  method RewriteNals(payload: array<byte>) returns (whole: bool, nalusCount: nat)
    modifies payload
    ensures whole <==> Units(old(payload[..])).0
    ensures whole ==> payload[..] == ByteStream(Units(old(payload[..])).1)
    ensures whole ==> nalusCount == |Units(old(payload[..])).1|
  {
    hide BigEndian32, ByteStream, Units, Rewritten;
    ghost var was, done := payload[..], [];
    var naluSize := 0;
    nalusCount := 0;
    RewritingStarts(was);
    while naluSize < payload.Length
      invariant naluSize <= payload.Length && Rewritten(was, payload[..], naluSize, done) && |done| == nalusCount
      decreases payload.Length - naluSize
    {
      ghost var s := payload[..];
      RestOfPayload(was, s, naluSize, done);
      if naluSize + 4 > payload.Length {
        NoUnits(was[naluSize..]);
        return false, nalusCount;
      }
      var ncLen := BigEndian32(payload[naluSize..]);
      assert payload[naluSize..] == was[naluSize..];
      if ncLen == 0 || naluSize + 4 + ncLen > payload.Length {
        NoUnits(was[naluSize..]);
        return false, nalusCount;
      }
      WriteStartCode(payload, naluSize);
      RewriteOne(was, s, naluSize, done, payload[..]);
      done := done + [was[naluSize + 4..naluSize + 4 + ncLen]];
      naluSize := naluSize + ncLen + 4;
      nalusCount := nalusCount + 1;
    }
    RewritingEnds(was, payload[..], done);
    return true, nalusCount;
  }

  lemma RestOfPayload(was: seq<byte>, s: seq<byte>, at: nat, done: seq<Nal>)
    requires Rewritten(was, s, at, done)
    ensures |was| == |s| && at <= |s| && s[at..] == was[at..]
    ensures Units(was).0 <==> Units(was[at..]).0
  {
  }

  lemma RewritingEnds(was: seq<byte>, s: seq<byte>, done: seq<Nal>)
    requires Rewritten(was, s, |s|, done)
    ensures Units(was).0 && done == Units(was).1 && s == ByteStream(done)
  {
    assert was[|s|..] == [] && s[..|s|] == s && done + [] == done;
  }

  // ----- sequence and picture parameter sets -----

  /** The conversion of the 16-bit length of the sequence parameter set to a signed short. */
  function SpsSize(hi: byte, lo: byte): int {
    ((hi as int) * 0x100 + (lo as int) + 0x8000) % 0x1_0000 - 0x8000
  }

  /** The length of the picture parameter set as the code computes it: the high byte is masked, and added. */
  function PpsSize(hi: byte, lo: byte): int {
    ((hi & 0xF8) as int + (lo as int)) % 0x100
  }

  /** What the mask keeps of a byte. */
  lemma MaskIs(b: byte)
    ensures (b & 0xF8) as int == b as int / 8 * 8
  {
    assert b & 0xF8 == (b / 8) * 8;
    assert (b / 8) as int == b as int / 8;
    assert ((b / 8) * 8) as int == (b / 8) as int * 8;
  }

  /** The computed lengths for every announced one: the first is right below 32768 and negative from there on, the
      second right below 256 and then taken from the wrong bits. */
  lemma SizesExactly(hi: byte, lo: byte, n: nat)
    requires n == BigEndian16([hi, lo])
    ensures SpsSize(hi, lo) == if n < 0x8000 then n else n - 0x1_0000
    ensures PpsSize(hi, lo) == (n / 0x800 * 8 + n % 0x100) % 0x100
    ensures PpsSize(hi, lo) == n <==> n < 0x100
  {
    hide *;
    var h, l, sps, pps := SizesAre(hi, lo, n);
    SizesOf(h, l, n, sps, pps);
  }

  lemma SizesAre(hi: byte, lo: byte, n: nat) returns (h: nat, l: nat, sps: int, pps: int)
    requires n == BigEndian16([hi, lo])
    ensures n == 0x100 * h + l && h < 0x100 && l < 0x100
    ensures sps == SpsSize(hi, lo) == (n + 0x8000) % 0x1_0000 - 0x8000
    ensures pps == PpsSize(hi, lo) == (h / 8 * 8 + l) % 0x100
  {
    h, l, sps, pps := hi as int, lo as int, SpsSize(hi, lo), PpsSize(hi, lo);
    NumberIs(hi, lo, n, h, l);
    PpsSizeIs(hi, lo, h, l);
    hide *;
  }

  lemma NumberIs(hi: byte, lo: byte, n: nat, h: nat, l: nat)
    requires n == BigEndian16([hi, lo]) && h == hi as int && l == lo as int
    ensures n == 0x100 * h + l && h < 0x100 && l < 0x100
    ensures SpsSize(hi, lo) == (n + 0x8000) % 0x1_0000 - 0x8000
  {
    assert [hi, lo][0] == hi && [hi, lo][1] == lo;
  }

  lemma PpsSizeIs(hi: byte, lo: byte, h: nat, l: nat)
    requires h == hi as int && l == lo as int
    ensures PpsSize(hi, lo) == (h / 8 * 8 + l) % 0x100
  {
    MaskIs(hi);
  }

  lemma SizesOf(h: nat, l: nat, n: nat, sps: int, pps: int)
    requires h < 0x100 && l < 0x100 && n == 0x100 * h + l
    requires sps == (n + 0x8000) % 0x1_0000 - 0x8000 && pps == (h / 8 * 8 + l) % 0x100
    ensures sps == if n < 0x8000 then n else n - 0x1_0000
    ensures pps == (n / 0x800 * 8 + n % 0x100) % 0x100 && (pps == n <==> n < 0x100)
  {
    assert n / 0x800 == h / 8 && n % 0x100 == l;
  }

  /** The payload announces and carries the two parameter sets. */
  predicate Carries(payload: seq<byte>, sps: Nal, pps: Nal) {
    && |payload| >= 11 + |sps| + |pps|
    && BigEndian16(payload[6..8]) == |sps| && payload[8..8 + |sps|] == sps
    && BigEndian16(payload[9 + |sps|..11 + |sps|]) == |pps| && payload[11 + |sps|..11 + |sps| + |pps|] == pps
  }

  /** Two bytes that spell n, the high one first. */
  predicate Spell(b: seq<byte>, n: nat) { Numbers(b) == [n / 0x100, n % 0x100] }

  lemma SpellExactly(b: seq<byte>, n: nat)
    requires |b| == 2 && n < 0x1_0000
    ensures BigEndian16(b) == n <==> Spell(b, n)
  {
    TwoDigits(b[0] as int, b[1] as int, n);
    assert Numbers(b) == [b[0] as int, b[1] as int];
  }

  lemma TwoDigits(h: nat, l: nat, n: nat)
    requires h < 0x100 && l < 0x100
    ensures 0x100 * h + l == n <==> h == n / 0x100 && l == n % 0x100
  {
  }

  /** Six bytes of something, the length of the one set and the set, a byte of something, the length of the other
      and the set, and something. */
  predicate Laid(payload: seq<byte>, front: seq<byte>, l1: seq<byte>, sps: Nal, count: byte, l2: seq<byte>, pps: Nal,
                 tail: seq<byte>)
  {
    && payload == front + l1 + sps + [count] + l2 + pps + tail
    && |front| == 6 && |l1| == |l2| == 2 && |sps| < 0x1_0000 && |pps| < 0x1_0000
    && Spell(l1, |sps|) && Spell(l2, |pps|)
  }

  lemma BigEndianIsSmall(b: seq<byte>)
    requires |b| >= 2
    ensures BigEndian16(b) < 0x1_0000
  {
  }

  /** The layout of the payload. */
  lemma CarriesExactly(payload: seq<byte>, sps: Nal, pps: Nal)
    ensures Carries(payload, sps, pps) <==>
            exists front, l1, count, l2, tail :: Laid(payload, front, l1, sps, count, l2, pps, tail)
  {
    hide BigEndian16, Spell;
    if Carries(payload, sps, pps) {
      CarriesIsLaid(payload, sps, pps);
    }
    forall front, l1, count, l2, tail | Laid(payload, front, l1, sps, count, l2, pps, tail)
      ensures Carries(payload, sps, pps)
    {
      LaidCarries(payload, front, l1, sps, count, l2, pps, tail);
    }
  }

  lemma CarriesIsLaid(payload: seq<byte>, sps: Nal, pps: Nal)
    requires Carries(payload, sps, pps)
    ensures Laid(payload, payload[..6], payload[6..8], sps, payload[8 + |sps|], payload[9 + |sps|..11 + |sps|], pps,
                 payload[11 + |sps| + |pps|..])
  {
    hide BigEndian16, Spell;
    BigEndianIsSmall(payload[6..8]);
    BigEndianIsSmall(payload[9 + |sps|..11 + |sps|]);
    SpellExactly(payload[6..8], |sps|);
    SpellExactly(payload[9 + |sps|..11 + |sps|], |pps|);
  }

  lemma LaidCarries(payload: seq<byte>, front: seq<byte>, l1: seq<byte>, sps: Nal, count: byte, l2: seq<byte>, pps: Nal,
                    tail: seq<byte>)
    requires Laid(payload, front, l1, sps, count, l2, pps, tail)
    ensures Carries(payload, sps, pps)
  {
    hide BigEndian16, Spell;
    SpellExactly(l1, |sps|);
    SpellExactly(l2, |pps|);
    assert payload[6..8] == l1 && payload[8..8 + |sps|] == sps;
    assert payload[9 + |sps|..11 + |sps|] == l2 && payload[11 + |sps|..11 + |sps| + |pps|] == pps;
  }

  method CopyInto(source: array<byte>, from: nat, target: array<byte>, to: nat, len: nat)
    requires from + len <= source.Length && to + len <= target.Length && source != target
    modifies target
    ensures target[..to + len] == old(target[..to]) + source[from..from + len]
    ensures target[to + len..] == old(target[to + len..])
  {
    forall i | 0 <= i < len {
      target[to + i] := source[from + i];
    }
  }

  lemma MaskedIsSmaller(b: byte)
    ensures (b & 0xF8) as int <= b as int
  {
  }

  lemma SpsSizeIsRight(payload: seq<byte>, sps: Nal, pps: Nal)
    requires Carries(payload, sps, pps) && |sps| < 0x8000
    ensures SpsSize(payload[6], payload[7]) == |sps|
  {
    assert payload[6..8] == [payload[6], payload[7]];
    SizesExactly(payload[6], payload[7], |sps|);
  }

  /** The computed length of the picture parameter set never exceeds the announced one, and equals it exactly
      below 256. */
  lemma PpsSizeIsRight(payload: seq<byte>, sps: Nal, pps: Nal)
    requires Carries(payload, sps, pps)
    ensures 0 <= PpsSize(payload[9 + |sps|], payload[10 + |sps|]) <= |pps|
    ensures PpsSize(payload[9 + |sps|], payload[10 + |sps|]) == |pps| <==> |pps| < 0x100
  {
    MaskedIsSmaller(payload[9 + |sps|]);
    assert payload[9 + |sps|..11 + |sps|] == [payload[9 + |sps|], payload[10 + |sps|]];
    SizesExactly(payload[9 + |sps|], payload[10 + |sps|], |pps|);
  }

  method ReadSizes(payload: array<byte>, ghost sps: Nal, ghost pps: Nal) returns (spsSize: nat, ppsSize: nat)
    requires Carries(payload[..], sps, pps) && |sps| < 0x8000
    ensures spsSize == |sps| && ppsSize <= |pps| && (ppsSize == |pps| <==> |pps| < 0x100)
    ensures ppsSize == PpsSize(payload[9 + |sps|], payload[10 + |sps|])
  {
    hide SpsSize, PpsSize, BigEndian16;
    SpsSizeIsRight(payload[..], sps, pps);
    PpsSizeIsRight(payload[..], sps, pps);
    spsSize := SpsSize(payload[6], payload[7]);
    ppsSize := PpsSize(payload[spsSize + 9], payload[spsSize + 10]);
  }

  lemma TwoUnits(sps: Nal, pps: Nal)
    ensures ByteStream([sps, pps]) == [0, 0, 0, 1] + sps + [0, 0, 0, 1] + pps
    ensures ByteStream([sps, pps]) == [] + START_CODE + sps + START_CODE + pps
  {
    assert [sps, pps][1..] == [pps] && [pps][1..] == [];
    assert ByteStream([pps]) == START_CODE + pps;
  }

  lemma SetsInPayload(payload: seq<byte>, sps: Nal, pps: Nal, n: nat)
    requires Carries(payload, sps, pps) && n <= |pps|
    ensures |payload| >= 11 + |sps| + |pps|
    ensures payload[8..8 + |sps|] == sps && payload[|sps| + 11..|sps| + 11 + n] == pps[..n]
  {
    hide BigEndian16;
    assert payload[|sps| + 11..|sps| + 11 + n] == payload[11 + |sps|..11 + |sps| + |pps|][..n];
  }

  lemma ShorterUnit(sps: Nal, pps: Nal, n: nat)
    requires n <= |pps|
    ensures ByteStream([sps, pps[..n]]) == ByteStream([sps, pps]) <==> n == |pps|
  {
    TwoUnits(sps, pps);
    TwoUnits(sps, pps[..n]);
    if n == |pps| {
      assert pps[..n] == pps;
    }
  }

  /** The decoder gets both sets behind start codes: the picture parameter set as far as its computed length
      goes, which is the whole of it exactly below 256 bytes. */
  method AssembleSpsPps(payload: array<byte>, ghost sps: Nal, ghost pps: Nal) returns (spsPps: array<byte>)
    requires Carries(payload[..], sps, pps) && |sps| < 0x8000
    ensures fresh(spsPps)
    ensures var n := PpsSize(payload[9 + |sps|], payload[10 + |sps|]);
            0 <= n <= |pps| && spsPps[..] == ByteStream([sps, pps[..n]])
    ensures spsPps[..] == ByteStream([sps, pps]) <==> |pps| < 0x100
  {
    hide Carries, ByteStream, PpsSize;
    var spsSize, ppsSize := ReadSizes(payload, sps, pps);
    SetsInPayload(payload[..], sps, pps, ppsSize);
    spsPps := new byte[spsSize + ppsSize + 8];
    WriteStartCode(spsPps, 0);
    CopyInto(payload, 8, spsPps, 4, spsSize);
    WriteStartCode(spsPps, spsSize + 4);
    CopyInto(payload, spsSize + 11, spsPps, spsSize + 8, ppsSize);
    assert spsPps[..] == spsPps[..spsSize + 8 + ppsSize];
    TwoUnits(sps, pps[..ppsSize]);
    ShorterUnit(sps, pps, ppsSize);
  }
}
