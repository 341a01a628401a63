/** The NTP timestamp format (section 6 of RFC 5905) and microseconds since the Unix epoch. */
module NtpTime {
  import opened Bytes

  const SECONDS_FROM_1900_TO_1970 := 2208988800
  const TWO32 := 0x1_0000_0000
  const TWO64 := 0x1_0000_0000_0000_0000
  const MILLION := 1000000

  /** The first second since 1970 that a 32-bit count from 1900 cannot hold. */
  const LAST_SECOND := 2085978496

  /** ntohl of the 32-bit number at an offset. */
  function GetInt(b: seq<u8>, offset: nat): nat
    requires offset + 4 <= |b|
  {
    (b[offset] as int) * 0x100_0000 + (b[offset + 1] as int) * 0x1_0000 + (b[offset + 2] as int) * 0x100 + b[offset + 3]
  }

  lemma GetIntSmall(b: seq<u8>, offset: nat)
    requires offset + 4 <= |b|
    ensures GetInt(b, offset) < TWO32
  {
  }

  /** The four bytes of htonl of a number, truncated to 32 bits. */
  function PutInt(x: nat): (r: seq<u8>)
    ensures |r| == 4
  {
    [x / 0x100_0000 % 0x100, x / 0x1_0000 % 0x100, x / 0x100 % 0x100, x % 0x100]
  }

  lemma ByteShifts(x: nat)
    ensures x / 0x1_0000 == x / 0x100 / 0x100
    ensures x / 0x100_0000 == x / 0x1_0000 / 0x100
  {
  }

  lemma BytesSpell(x: nat, a: nat, b: nat, c: nat)
    requires a == x / 0x100 && b == a / 0x100 && c == b / 0x100
    ensures x % TWO32 == (c % 0x100) * 0x100_0000 + (b % 0x100) * 0x1_0000 + (a % 0x100) * 0x100 + x % 0x100
  {
    var d := c / 0x100;
    var low := (c % 0x100) * 0x100_0000 + (b % 0x100) * 0x1_0000 + (a % 0x100) * 0x100 + x % 0x100;
    DigitsAddUp(x, a, x % 0x100, b, a % 0x100, c, b % 0x100, d, c % 0x100);
    Wraps32(d, low);
  }

  lemma DigitsAddUp(x: nat, a: nat, r0: nat, b: nat, r1: nat, c: nat, r2: nat, d: nat, r3: nat)
    requires x == 0x100 * a + r0 && a == 0x100 * b + r1 && b == 0x100 * c + r2 && c == 0x100 * d + r3
    ensures x == TWO32 * d + (r3 * 0x100_0000 + r2 * 0x1_0000 + r1 * 0x100 + r0)
  {
  }

  lemma Wraps32(d: nat, low: nat)
    requires low < TWO32
    ensures (TWO32 * d + low) % TWO32 == low
  {
  }

  lemma GetPutInt(x: nat)
    ensures GetInt(PutInt(x), 0) == x % TWO32
  {
    ByteShifts(x);
    BytesSpell(x, x / 0x100, x / 0x1_0000, x / 0x100_0000);
  }

  /** Both put the most significant byte first. */
  lemma NetworkOrder(b: seq<u8>, offset: nat, x: nat)
    requires offset + 4 <= |b|
    ensures GetInt(b, offset) == HighFirst(b[offset..offset + 4])
    ensures HighFirst(PutInt(x)) == x % 0x1_0000_0000
  {
    HighFirst4(b[offset..offset + 4]);
    HighFirst4(PutInt(x));
    GetPutInt(x);
  }

  /** The epoch and half a second after it, byte by byte. */
  lemma EpochBytes()
    ensures Encoded(0) == [0x83, 0xAA, 0x7E, 0x80, 0, 0, 0, 0]
    ensures Encoded(500000) == [0x83, 0xAA, 0x7E, 0x80, 0x80, 0, 0, 0]
  {
  }

  /** Microseconds from seconds since 1900 and a binary fraction, in 64-bit unsigned arithmetic. */
  function Micros(seconds: int, fraction: nat): nat {
    (seconds * MILLION + fraction * MILLION / TWO32) % TWO64
  }

  /** byteutils_get_ntp_timestamp. */
  function GetNtpTimestamp(b: seq<u8>, offset: nat): nat
    requires offset + 8 <= |b|
  {
    Micros(GetInt(b, offset) - SECONDS_FROM_1900_TO_1970, GetInt(b, offset + 4))
  }

  /** raop_ntp_timestamp_to_micro_seconds. */
  function TimestampToMicros(timestamp: nat, accountForEpoch: bool): nat {
    Micros(timestamp / TWO32 % TWO32 - (if accountForEpoch then SECONDS_FROM_1900_TO_1970 else 0), timestamp % TWO32)
  }

  function Encoded(us: nat): seq<u8> {
    PutInt(us / MILLION + SECONDS_FROM_1900_TO_1970) + PutInt(us % MILLION * TWO32 / MILLION)
  }

  /** byteutils_put_ntp_timestamp. */
  method PutNtpTimestamp(b: array<u8>, offset: nat, us: nat)
    requires offset + 8 <= b.Length && us < TWO64
    modifies b
    ensures b[..] == old(b[..offset]) + Encoded(us) + old(b[offset + 8..])
  {
    var seconds := us / MILLION;
    var microseconds := us % MILLION;
    seconds := seconds + SECONDS_FROM_1900_TO_1970;
    var fraction := microseconds * TWO32 / MILLION;
    var high, low := PutInt(seconds), PutInt(fraction);
    b[offset], b[offset + 1], b[offset + 2], b[offset + 3] := high[0], high[1], high[2], high[3];
    b[offset + 4], b[offset + 5], b[offset + 6], b[offset + 7] := low[0], low[1], low[2], low[3];
  }

  /** What the binary fraction loses: nothing for multiples of 15625, else one microsecond. */
  function Loss(us: nat): nat { if us % 15625 == 0 then 0 else 1 }

  lemma MillionDivides(a: nat, b: nat)
    ensures (MILLION * a + b) % MILLION == b % MILLION
  {
  }

  lemma FractionExact(m: nat)
    requires m < MILLION
    ensures m * TWO32 % MILLION == 0 <==> m % 15625 == 0
  {
    var q, r := m / 15625, m % 15625;
    assert m * TWO32 == MILLION * (67108864 * q) + r * TWO32;
    MillionDivides(67108864 * q, r * TWO32);
    RestExact(r);
  }

  /** TWO32 is 64 * 2^26 and MILLION is 64 * 5^6, and 2^26 and 5^6 have no common factor. */
  lemma RestExact(r: nat)
    requires r < 15625
    ensures r * TWO32 % MILLION == 0 <==> r == 0
  {
    if r * TWO32 % MILLION == 0 {
      var k := r * TWO32 / MILLION;
      assert r * 67108864 == 15625 * k;
      NoCommonFactor(r, k);
    }
  }

  lemma NoCommonFactor(r: nat, k: nat)
    requires r < 15625 && r * 67108864 == 15625 * k
    ensures r == 0
  {
  }

  lemma FractionRoundTrip(m: nat)
    requires m < MILLION
    ensures (m * TWO32 / MILLION) * MILLION / TWO32 == m - Loss(m)
    ensures m * TWO32 / MILLION < TWO32
  {
    FractionExact(m);
    var f, r := m * TWO32 / MILLION, m * TWO32 % MILLION;
    assert f * MILLION == m * TWO32 - r;
  }

  lemma EncodedParts(us: nat)
    ensures GetInt(Encoded(us), 0) == (us / MILLION + SECONDS_FROM_1900_TO_1970) % TWO32
    ensures GetInt(Encoded(us), 4) == us % MILLION * TWO32 / MILLION % TWO32
  {
    var high, low := us / MILLION + SECONDS_FROM_1900_TO_1970, us % MILLION * TWO32 / MILLION;
    GetPutInt(high);
    GetPutInt(low);
    assert GetInt(PutInt(high) + PutInt(low), 0) == GetInt(PutInt(high), 0);
    assert GetInt(PutInt(high) + PutInt(low), 4) == GetInt(PutInt(low), 0);
  }

  lemma MicrosOfParts(us: nat, s: nat, m: nat, q: nat, high: nat, fraction: nat, loss: nat)
    requires us == s * MILLION + m && s + SECONDS_FROM_1900_TO_1970 == TWO32 * q + high
    requires fraction * MILLION / TWO32 == m - loss
    ensures Micros(high - SECONDS_FROM_1900_TO_1970, fraction) == (us - loss - TWO32 * MILLION * q) % TWO64
  {
    assert (high - SECONDS_FROM_1900_TO_1970) * MILLION == s * MILLION - TWO32 * MILLION * q;
  }

  /** Decoding what was encoded, for every 64-bit time: the loss, and the wrap of the 32-bit seconds. */
  lemma DecodeEncoded(us: nat)
    requires us < TWO64
    ensures GetNtpTimestamp(Encoded(us), 0) ==
            (us - Loss(us % MILLION) - TWO32 * MILLION * ((us / MILLION + SECONDS_FROM_1900_TO_1970) / TWO32)) % TWO64
  {
    hide GetInt, PutInt, Encoded, Micros, Loss;
    var s, m := us / MILLION, us % MILLION;
    var seconds, fraction := s + SECONDS_FROM_1900_TO_1970, m * TWO32 / MILLION;
    EncodedParts(us);
    FractionRoundTrip(m);
    MicrosOfParts(us, s, m, seconds / TWO32, seconds % TWO32, fraction, Loss(m));
  }

  /** The round trip gives back the time, less at most the one microsecond of the binary fraction, exactly
      for seconds that 32 bits hold. */
  lemma RoundTripExactly(us: nat)
    requires us < TWO64
    ensures GetNtpTimestamp(Encoded(us), 0) == us - Loss(us) <==> us / MILLION < LAST_SECOND
  {
    DecodeEncoded(us);
    LossOfRest(us);
    var q := (us / MILLION + SECONDS_FROM_1900_TO_1970) / TWO32;
    WrapShows(us - Loss(us), q);
  }

  lemma LossOfRest(us: nat)
    ensures Loss(us % MILLION) == Loss(us) && Loss(us) <= us
  {
    assert us == 15625 * (64 * (us / MILLION)) + us % MILLION;
  }

  lemma WrapShows(x: nat, q: nat)
    requires x < TWO64 && q <= 4295
    ensures (x - TWO32 * MILLION * q) % TWO64 == x <==> q == 0
  {
  }

  lemma Halves(high: nat, low: nat)
    requires high < TWO32 && low < TWO32
    ensures (high * TWO32 + low) / TWO32 % TWO32 == high && (high * TWO32 + low) % TWO32 == low
  {
  }

  /** The two decoders agree on the same eight bytes. */
  lemma DecodersAgree(b: seq<u8>, offset: nat)
    requires offset + 8 <= |b|
    ensures GetNtpTimestamp(b, offset) == TimestampToMicros(GetInt(b, offset) * TWO32 + GetInt(b, offset + 4), true)
  {
    hide GetInt, Micros;
    GetIntSmall(b, offset);
    GetIntSmall(b, offset + 4);
    Halves(GetInt(b, offset), GetInt(b, offset + 4));
  }

  /** The converter is a multiplication, rounded down: by a million, over 2^32. With the epoch taken off it is that
      less 2208988800 seconds, in 64 bits. */
  lemma ConverterExactly(t: nat)
    requires t < TWO64
    ensures TimestampToMicros(t, false) == t * MILLION / TWO32
    ensures TimestampToMicros(t, true) == (t * MILLION / TWO32 - 2208988800 * 1000000) % TWO64
  {
    var high, low := t / TWO32, t % TWO32;
    assert high < TWO32 && high % TWO32 == high;
    WholePart(high, low);
    assert 0 <= t * MILLION / TWO32 < TWO64;
    WrapsOnce(t * MILLION / TWO32);
    assert (high - SECONDS_FROM_1900_TO_1970) * MILLION + low * MILLION / TWO32
        == t * MILLION / TWO32 - 2208988800 * 1000000;
  }

  lemma WholePart(high: nat, low: nat)
    ensures (high * TWO32 + low) * MILLION / TWO32 == high * MILLION + low * MILLION / TWO32
  {
    assert (high * TWO32 + low) * MILLION == TWO32 * (high * MILLION) + low * MILLION;
  }

  /** Seconds before the epoch wrap around to the top of the 64-bit range. */
  lemma MicrosValue(s: int, f: nat)
    requires -SECONDS_FROM_1900_TO_1970 <= s < TWO32 && f < TWO32
    ensures Micros(s, f) == s * MILLION + f * MILLION / TWO32 + if s < 0 then TWO64 else 0
    ensures 0 <= f * MILLION / TWO32 < MILLION
  {
    assert 0 <= f * MILLION / TWO32 < MILLION;
    WrapsOnce(s * MILLION + f * MILLION / TWO32);
  }

  lemma WrapsOnce(x: int)
    requires -TWO64 <= x < TWO64
    ensures x % TWO64 == if x < 0 then x + TWO64 else x
  {
  }

  lemma FractionsOrdered(f1: nat, f2: nat)
    requires f1 <= f2
    ensures f1 * MILLION / TWO32 <= f2 * MILLION / TWO32
  {
  }

  /** On the same side of the epoch later seconds and fractions give later times; across it, earlier ones. */
  lemma MicrosOrdered(s1: int, f1: nat, s2: int, f2: nat)
    requires -SECONDS_FROM_1900_TO_1970 <= s1 <= s2 < TWO32 && f1 < TWO32 && f2 < TWO32
    requires s1 == s2 ==> f1 <= f2
    ensures Micros(s1, f1) <= Micros(s2, f2) <==> !(s1 < 0 <= s2)
  {
    hide Micros;
    MicrosValue(s1, f1);
    MicrosValue(s2, f2);
    if s1 == s2 {
      FractionsOrdered(f1, f2);
    }
  }

  /** The epoch as an NTP timestamp. */
  const EPOCH := SECONDS_FROM_1900_TO_1970 * TWO32

  lemma TimestampParts(t1: nat, t2: nat)
    requires t1 <= t2 < TWO64
    ensures t1 / TWO32 % TWO32 == t1 / TWO32 <= t2 / TWO32 == t2 / TWO32 % TWO32
    ensures t1 / TWO32 == t2 / TWO32 ==> t1 % TWO32 <= t2 % TWO32
    ensures t1 < EPOCH <==> t1 / TWO32 - SECONDS_FROM_1900_TO_1970 < 0
    ensures t2 >= EPOCH <==> t2 / TWO32 - SECONDS_FROM_1900_TO_1970 >= 0
  {
  }

  /** The converter is monotone as it stands, and with the epoch taken off exactly for timestamps that do not
      lie on either side of it: those before the epoch wrap around to the top of the range. */
  lemma MonotoneExactly(t1: nat, t2: nat)
    requires t1 <= t2 < TWO64
    ensures TimestampToMicros(t1, false) <= TimestampToMicros(t2, false)
    ensures TimestampToMicros(t1, true) <= TimestampToMicros(t2, true) <==> !(t1 < EPOCH <= t2)
  {
    hide Micros;
    TimestampParts(t1, t2);
    MicrosOrdered(t1 / TWO32, t1 % TWO32, t2 / TWO32, t2 % TWO32);
    MicrosOrdered(t1 / TWO32 - SECONDS_FROM_1900_TO_1970, t1 % TWO32,
                  t2 / TWO32 - SECONDS_FROM_1900_TO_1970, t2 % TWO32);
  }

  /** The step that goes down: the last timestamp before the epoch has the greatest of all results. */
  lemma EpochDrops()
    ensures TimestampToMicros(EPOCH - 1, true) == TWO64 - 1 && TimestampToMicros(EPOCH, true) == 0
  {
    assert (EPOCH - 1) / TWO32 == SECONDS_FROM_1900_TO_1970 - 1 && (EPOCH - 1) % TWO32 == TWO32 - 1;
    MicrosValue(-1, TWO32 - 1);
  }

  /** As a signed number a decoded timestamp is small, so that sums of a few do not overflow 64 bits. */
  function ToInt64(x: int): int { (x + 0x8000_0000_0000_0000) % TWO64 - 0x8000_0000_0000_0000 }

  lemma ToInt64Is(x: int)
    ensures -0x8000_0000_0000_0000 <= ToInt64(x) < 0x8000_0000_0000_0000 && (x - ToInt64(x)) % TWO64 == 0
  {
  }

  lemma DecodedIsSmall(b: seq<u8>, offset: nat)
    requires offset + 8 <= |b|
    ensures -SECONDS_FROM_1900_TO_1970 * MILLION <= ToInt64(GetNtpTimestamp(b, offset)) < TWO32 * MILLION
  {
    hide GetInt;
    GetIntSmall(b, offset);
    GetIntSmall(b, offset + 4);
    var exact := (GetInt(b, offset) - SECONDS_FROM_1900_TO_1970) * MILLION + GetInt(b, offset + 4) * MILLION / TWO32;
    assert 0 <= GetInt(b, offset + 4) * MILLION / TWO32 < MILLION;
    assert ToInt64(GetNtpTimestamp(b, offset)) == exact;
  }
}
