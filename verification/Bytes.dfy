/** Bytes and the numbers they spell. */
module Bytes {
  type byte = bv8

  /** A byte as a number. */
  type u8 = x: int | 0 <= x < 256

  /** The little-endian number in the first four bytes. */
  function LittleEndian32(b: seq<byte>): nat
    requires |b| >= 4
  {
    (b[0] as int) + 0x100 * (b[1] as int) + 0x1_0000 * (b[2] as int) + 0x100_0000 * (b[3] as int)
  }

  /** The big-endian number in the first four bytes. */
  function BigEndian32(b: seq<byte>): nat
    requires |b| >= 4
  {
    0x100_0000 * (b[0] as int) + 0x1_0000 * (b[1] as int) + 0x100 * (b[2] as int) + (b[3] as int)
  }

  /** The big-endian number in the first two bytes. */
  function BigEndian16(b: seq<byte>): nat
    requires |b| >= 2
  {
    0x100 * (b[0] as int) + (b[1] as int)
  }

  // ----- the numbers against their digits -----

  /** The number that any bytes spell, the least significant byte first. */
  function LowFirst(b: seq<u8>): nat {
    if b == [] then 0 else b[0] + 256 * LowFirst(b[1..])
  }

  /** The number that any bytes spell, the most significant byte first. */
  function HighFirst(b: seq<u8>): nat {
    if b == [] then 0 else 256 * HighFirst(b[..|b| - 1]) + b[|b| - 1]
  }

  function Numbers(b: seq<byte>): (r: seq<u8>)
    ensures |r| == |b|
  {
    seq(|b|, i requires 0 <= i < |b| => b[i] as int)
  }

  /** The two orders are each other's reverse. */
  lemma {:induction false} OrdersReversed(b: seq<u8>)
    ensures HighFirst(b) == LowFirst(Reversed(b))
  {
    if b != [] {
      OrdersReversed(b[..|b| - 1]);
      assert Reversed(b) == [b[|b| - 1]] + Reversed(b[..|b| - 1]);
    }
  }

  function Reversed(b: seq<u8>): (r: seq<u8>)
    ensures |r| == |b|
  {
    seq(|b|, i requires 0 <= i < |b| => b[|b| - 1 - i])
  }

  lemma LowestByte(b: seq<u8>)
    requires b != []
    ensures LowFirst(b) % 256 == b[0]
  {
  }

  lemma LowFirst4(b: seq<u8>)
    requires |b| == 4
    ensures LowFirst(b) == (b[0] as int) + 0x100 * (b[1] as int) + 0x1_0000 * (b[2] as int) + 0x100_0000 * (b[3] as int)
  {
    assert b[1..][1..] == b[2..] && b[2..][1..] == b[3..] && b[3..][1..] == [];
    assert b[3..] == [b[3]] && [b[3]][1..] == [] && LowFirst([b[3]]) == b[3];
    assert LowFirst(b[2..]) == (b[2] as int) + 256 * (b[3] as int);
    assert LowFirst(b[1..]) == (b[1] as int) + 256 * LowFirst(b[2..]);
  }

  lemma HighFirst2(b: seq<u8>)
    requires |b| == 2
    ensures HighFirst(b) == (b[0] as int) * 256 + b[1]
  {
    assert b[..1] == [b[0]] && [b[0]][..0] == [];
    assert HighFirst([b[0]]) == b[0];
  }

  lemma HighFirst4(b: seq<u8>)
    requires |b| == 4
    ensures HighFirst(b) == (b[0] as int) * 0x100_0000 + (b[1] as int) * 0x1_0000 + (b[2] as int) * 0x100 + b[3]
  {
    assert b[..3][..2] == b[..2];
    HighFirst2(b[..2]);
  }

  lemma DigitsOf(v: nat, d0: u8, d1: u8, d2: u8, d3: u8)
    requires v == (d0 as int) + 0x100 * (d1 as int) + 0x1_0000 * (d2 as int) + 0x100_0000 * (d3 as int)
    ensures v % 256 == d0 && v / 256 % 256 == d1 && v / 0x1_0000 % 256 == d2 && v / 0x100_0000 == d3
  {
    assert v / 256 == (d1 as int) + 0x100 * (d2 as int) + 0x1_0000 * (d3 as int);
    assert v / 0x1_0000 == (d2 as int) + 0x100 * (d3 as int);
  }

  /** Byte k alone is digit k. */
  lemma LittleEndian32Exactly(b: seq<byte>)
    requires |b| >= 4
    ensures LittleEndian32(b) == LowFirst(Numbers(b[..4]))
    ensures LittleEndian32(b) % 256 == b[0] as int && LittleEndian32(b) / 256 % 256 == b[1] as int
    ensures LittleEndian32(b) / 0x1_0000 % 256 == b[2] as int && LittleEndian32(b) / 0x100_0000 == b[3] as int
  {
    LowFirst4(Numbers(b[..4]));
    DigitsOf(LittleEndian32(b), b[0] as int, b[1] as int, b[2] as int, b[3] as int);
  }

  /** Byte k alone is digit 3 - k. */
  lemma BigEndian32Exactly(b: seq<byte>)
    requires |b| >= 4
    ensures BigEndian32(b) == HighFirst(Numbers(b[..4]))
    ensures BigEndian32(b) % 256 == b[3] as int && BigEndian32(b) / 256 % 256 == b[2] as int
    ensures BigEndian32(b) / 0x1_0000 % 256 == b[1] as int && BigEndian32(b) / 0x100_0000 == b[0] as int
  {
    HighFirst4(Numbers(b[..4]));
    DigitsOf(BigEndian32(b), b[3] as int, b[2] as int, b[1] as int, b[0] as int);
  }

  lemma BigEndian16Exactly(b: seq<byte>)
    requires |b| >= 2
    ensures BigEndian16(b) == HighFirst(Numbers(b[..2]))
    ensures BigEndian16(b) % 256 == b[1] as int && BigEndian16(b) / 256 == b[0] as int
  {
    HighFirst2(Numbers(b[..2]));
  }

  lemma Associates(a: seq<byte>, b: seq<byte>, c: seq<byte>)
    ensures a + (b + c) == (a + b) + c
  {
  }
}
