/** Aligned allocation: a header word just below the aligned address leads back to the block of malloc. */
module AlignedMalloc {
  import opened Bytes

  const WORD_SIZE := 8
  const WORD_BITS := 64
  const WORD_RANGE := 0x1_0000_0000_0000_0000

  function Pow2(n: nat): (r: nat)
    ensures r >= 1
  {
    if n == 0 then 1 else 2 * Pow2(n - 1)
  }

  /** Bitwise conjunction. */
  function BitAnd(a: nat, b: nat): nat {
    if a == 0 || b == 0 then 0
    else 2 * BitAnd(a / 2, b / 2) + if a % 2 == 1 && b % 2 == 1 then 1 else 0
  }

  /** A bit of the conjunction is set exactly when it is set in both. */
  lemma {:induction false} BitAndBits(a: nat, b: nat, k: nat)
    ensures BitAnd(a, b) / Pow2(k) % 2 == 1 <==> a / Pow2(k) % 2 == 1 && b / Pow2(k) % 2 == 1
  {
    hide BitAnd;
    AndHalves(a, b);
    if k > 0 {
      BitAndBits(a / 2, b / 2, k - 1);
      HalfFirst(a, Pow2(k - 1));
      HalfFirst(b, Pow2(k - 1));
      HalfFirst(BitAnd(a, b), Pow2(k - 1));
    }
  }

  lemma HalfFirst(x: nat, p: nat)
    requires p > 0
    ensures x / (2 * p) == x / 2 / p
  {
    var q, r := x / 2 / p, x / 2 % p;
    assert x / 2 == p * q + r;
    TwiceTimes(p, q);
    DivisionIs(x, 2 * p, q, 2 * r + x % 2);
  }

  lemma AndHalves(a: nat, b: nat)
    ensures BitAnd(a, b) / 2 == BitAnd(a / 2, b / 2)
    ensures BitAnd(a, b) % 2 == 1 <==> a % 2 == 1 && b % 2 == 1
  {
  }

  /** The complement of a word. */
  function BitNot(a: nat): nat
    requires a < WORD_RANGE
  {
    WORD_RANGE - 1 - a
  }

  predicate ValidAlignment(alignment: nat) {
    alignment != 0 && BitAnd(alignment, alignment - 1) == 0
  }

  lemma {:induction false} AndSame(a: nat)
    ensures BitAnd(a, a) == a
  {
    if a > 0 {
      AndSame(a / 2);
    }
  }

  lemma HalfValid(half: nat)
    requires half > 0
    ensures ValidAlignment(2 * half) <==> ValidAlignment(half)
  {
    assert (2 * half) / 2 == half && (2 * half - 1) / 2 == half - 1;
  }

  lemma OddValid(alignment: nat)
    requires alignment % 2 == 1
    ensures ValidAlignment(alignment) <==> alignment == 1
  {
    AndSame(alignment / 2);
    assert (alignment - 1) / 2 == alignment / 2;
  }

  lemma {:induction false} PowerIsValid(k: nat)
    ensures ValidAlignment(Pow2(k))
  {
    if k > 0 {
      PowerIsValid(k - 1);
      HalfValid(Pow2(k - 1));
    }
  }

  lemma {:induction false} ValidIsPower(alignment: nat) returns (k: nat)
    requires ValidAlignment(alignment)
    ensures alignment == Pow2(k)
  {
    if alignment % 2 == 1 {
      OddValid(alignment);
      k := 0;
    } else {
      HalfValid(alignment / 2);
      k := ValidIsPower(alignment / 2);
      k := k + 1;
    }
  }

  /** The bit trick accepts exactly the powers of two. */
  lemma ValidExactly(alignment: nat)
    ensures ValidAlignment(alignment) <==> exists k: nat :: alignment == Pow2(k)
  {
    if ValidAlignment(alignment) {
      var k := ValidIsPower(alignment);
    }
    forall k: nat | alignment == Pow2(k)
      ensures ValidAlignment(alignment)
    {
      PowerIsValid(k);
    }
  }

  lemma MultipleSign(d: nat, e: int)
    ensures (e >= 1 ==> d * e >= d) && (e <= -1 ==> d * e <= 0 - d)
  {
  }

  lemma DivisionIs(x: nat, d: nat, q: nat, r: nat)
    requires x == d * q + r && r < d
    ensures x / d == q && x % d == r
  {
    var e := x / d - q;
    assert d * e == r - x % d;
    MultipleSign(d, e);
  }

  lemma {:induction false} AndOnes(x: nat, n: nat)
    requires x < Pow2(n)
    ensures BitAnd(x, Pow2(n) - 1) == x
  {
    if x > 0 {
      AndOnes(x / 2, n - 1);
      assert (Pow2(n) - 1) / 2 == Pow2(n - 1) - 1 && (Pow2(n) - 1) % 2 == 1;
    }
  }

  /** Clearing the low k of n bits rounds down to a multiple q of 2^k. */
  lemma {:induction false} MaskRounds(x: nat, n: nat, k: nat) returns (q: nat)
    requires k <= n && x < Pow2(n)
    ensures Pow2(k) <= Pow2(n) && BitAnd(x, Pow2(n) - Pow2(k)) == Pow2(k) * q <= x < Pow2(k) * q + Pow2(k)
  {
    if k == 0 {
      AndOnes(x, n);
      q := x;
    } else {
      hide BitAnd;
      q := MaskRounds(x / 2, n - 1, k - 1);
      AndEven(x, Pow2(n - 1) - Pow2(k - 1));
      TwiceTimes(Pow2(k - 1), q);
    }
  }

  lemma TwiceTimes(p: nat, q: nat)
    ensures (2 * p) * q == 2 * (p * q)
  {
  }

  lemma AndEven(x: nat, b: nat)
    ensures BitAnd(x, 2 * b) == 2 * BitAnd(x / 2, b)
  {
    assert (2 * b) / 2 == b && (2 * b) % 2 == 0;
  }

  /** The two forms of rounding up, in 64-bit arithmetic. */
  function GetRightAlign(startPos: nat, alignment: nat): nat
    requires 0 < alignment <= WORD_RANGE
  {
    BitAnd((startPos + alignment - 1) % WORD_RANGE, BitNot(alignment - 1))
  }

  function DivisionAlign(startPos: nat, alignment: nat): int
    requires 0 < alignment
  {
    (startPos + alignment - 1) % WORD_RANGE / alignment * alignment
  }

  lemma WordRange()
    ensures WORD_RANGE == Pow2(WORD_BITS)
  {
    hide Pow2;
    ByteOfPower();
    Pow2Sum(8, 8);
    Pow2Sum(16, 16);
    Pow2Sum(32, 32);
  }

  lemma {:induction false} Pow2Sum(a: nat, b: nat)
    ensures Pow2(a + b) == Pow2(a) * Pow2(b)
  {
    if a > 0 {
      Pow2Sum(a - 1, b);
      TwiceTimes(Pow2(a - 1), Pow2(b));
    }
  }

  /** Masking out the low bits of an alignment in full words: the alignment itself is left as it is exactly
      when it is a power of two. */
  lemma {:induction false} LowestBit(a: nat, n: nat)
    requires 0 < a <= Pow2(n)
    ensures BitAnd(a, Pow2(n) - a) == a <==> ValidAlignment(a) && a < Pow2(n)
  {
    if n == 0 {
    } else if a % 2 == 0 {
      LowestBit(a / 2, n - 1);
      AndEven(a, Pow2(n - 1) - a / 2);
      HalfValid(a / 2);
    } else {
      var b := a / 2;
      assert (Pow2(n) - a) / 2 == Pow2(n - 1) - 1 - b && (Pow2(n) - a) % 2 == 1;
      AndComplement(b, n - 1);
      OddValid(a);
    }
  }

  lemma {:induction false} AndComplement(b: nat, n: nat)
    requires b < Pow2(n)
    ensures BitAnd(b, Pow2(n) - 1 - b) == 0
  {
    if n > 0 {
      AndComplement(b / 2, n - 1);
      assert (Pow2(n) - 1 - b) / 2 == Pow2(n - 1) - 1 - b / 2 && (Pow2(n) - 1 - b) % 2 == 1 - b % 2;
    }
  }

  /** The mask form rounds up as the division form does, everywhere, exactly for the valid alignments. */
  lemma AlignFormsExactly(alignment: nat)
    requires 0 < alignment < WORD_RANGE
    ensures ValidAlignment(alignment) <==>
            forall startPos: nat :: GetRightAlign(startPos, alignment) == DivisionAlign(startPos, alignment)
  {
    hide GetRightAlign, DivisionAlign, ValidAlignment;
    if ValidAlignment(alignment) {
      forall startPos: nat
        ensures GetRightAlign(startPos, alignment) == DivisionAlign(startPos, alignment)
      {
        AlignFormsAgree(startPos, alignment);
      }
    } else {
      AlignFormsDiffer(alignment);
    }
  }

  lemma AlignFormsDiffer(alignment: nat)
    requires 0 < alignment < WORD_RANGE && !ValidAlignment(alignment)
    ensures GetRightAlign(1, alignment) != DivisionAlign(1, alignment)
  {
    hide BitAnd, Pow2, ValidAlignment;
    WordRange();
    LowestBit(alignment, WORD_BITS);
    DivisionIs(alignment, alignment, 1, 0);
    SmallStays(alignment);
  }

  lemma SmallStays(x: nat)
    requires x < WORD_RANGE
    ensures x % WORD_RANGE == x
  {
  }

  lemma RoundsDown(x: nat, d: nat, q: nat)
    requires d * q <= x < d * q + d
    ensures x / d * d == d * q
  {
    DivisionIs(x, d, q, x - d * q);
  }

  lemma AlignFormsAgree(startPos: nat, alignment: nat)
    requires 0 < alignment < WORD_RANGE && ValidAlignment(alignment)
    ensures GetRightAlign(startPos, alignment) == DivisionAlign(startPos, alignment)
  {
    hide BitAnd, Pow2;
    WordRange();
    var x := (startPos + alignment - 1) % WORD_RANGE;
    var k := ValidIsPower(alignment);
    PowerBelow(k, WORD_BITS);
    var q := MaskRounds(x, WORD_BITS, k);
    RoundsDown(x, alignment, q);
  }

  lemma {:induction false} PowersGrow(n: nat, k: nat)
    requires n <= k
    ensures Pow2(n) <= Pow2(k)
  {
    if n < k {
      PowersGrow(n, k - 1);
    }
  }

  lemma PowerBelow(k: nat, n: nat)
    requires Pow2(k) < Pow2(n)
    ensures k < n
  {
    hide Pow2;
    if n <= k {
      PowersGrow(n, k);
    }
  }

  // ----- the header word -----

  /** The bytes of a number, low byte first. */
  function Digits(x: nat, n: nat): (r: seq<u8>)
    ensures |r| == n
  {
    if n == 0 then [] else [x % 256] + Digits(x / 256, n - 1)
  }

  lemma {:induction false} ValueOfDigits(x: nat, n: nat)
    requires x < Pow2(8 * n)
    ensures LowFirst(Digits(x, n)) == x
  {
    if n > 0 {
      hide Pow2;
      Pow2Sum(8, 8 * (n - 1));
      ByteOfPower();
      LowByte(x, Pow2(8 * (n - 1)));
      ValueOfDigits(x / 256, n - 1);
      assert Digits(x, n)[1..] == Digits(x / 256, n - 1);
    }
  }

  lemma LowByte(x: nat, p: nat)
    requires x < 256 * p
    ensures x / 256 < p && x == x % 256 + 256 * (x / 256)
  {
  }

  lemma ByteOfPower()
    ensures Pow2(8) == 256
  {
    assert Pow2(4) == 16;
    Pow2Sum(4, 4);
  }

  type Cells = map<nat, u8>

  function ByteAt(bytes: Cells, a: nat): u8 { if a in bytes then bytes[a] else 0 }

  function WordAt(bytes: Cells, at: nat): seq<u8> {
    seq(WORD_SIZE, i requires 0 <= i => if at + i in bytes then bytes[at + i] else 0)
  }

  function Stored(bytes: Cells, at: nat, word: seq<u8>): Cells
    requires |word| == WORD_SIZE
  {
    bytes[at := word[0]][at + 1 := word[1]][at + 2 := word[2]][at + 3 := word[3]]
    [at + 4 := word[4]][at + 5 := word[5]][at + 6 := word[6]][at + 7 := word[7]]
  }

  lemma ReadsWhatIsStored(bytes: Cells, at: nat, word: seq<u8>)
    requires |word| == WORD_SIZE
    ensures WordAt(Stored(bytes, at, word), at) == word
  {
  }

  lemma OnlyTheWord(bytes: Cells, at: nat, word: seq<u8>)
    requires |word| == WORD_SIZE
    ensures forall a: nat :: !(at <= a < at + WORD_SIZE) ==> ByteAt(Stored(bytes, at, word), a) == ByteAt(bytes, a)
  {
  }

  lemma ElsewhereUntouched(bytes: Cells, at: nat, word: seq<u8>, other: nat)
    requires |word| == WORD_SIZE && (other + WORD_SIZE <= at || at + WORD_SIZE <= other)
    ensures WordAt(Stored(bytes, at, word), other) == WordAt(bytes, other)
  {
  }

  /** A block of malloc, and the aligned part of it that the caller has. */
  datatype Block = Block(start: nat, length: nat, size: nat)

  predicate Apart(a: Block, b: Block) {
    a.start + a.length <= b.start || b.start + b.length <= a.start
  }

  /** Header and user part lie in the block. */
  predicate Fits(p: nat, b: Block) {
    b.start + WORD_SIZE <= p && p + b.size <= b.start + b.length && b.start + b.length <= WORD_RANGE
  }

  /** What malloc is asked for, in 64-bit arithmetic. */
  function Request(size: nat, alignment: nat): nat { (size + WORD_SIZE + alignment - 1) % WORD_RANGE }

  /** The aligned address after the header. */
  function AlignedPos(start: nat, alignment: nat): nat
    requires 0 < alignment <= WORD_RANGE
  {
    GetRightAlign((start + WORD_SIZE) % WORD_RANGE, alignment)
  }

  /** Without a block there is an address all the same. */
  lemma NullUnnoticed(alignment: nat)
    requires ValidAlignment(alignment) && alignment < WORD_RANGE
    ensures AlignedPos(0, alignment) != 0
  {
    hide BitAnd, ValidAlignment, GetRightAlign;
    AlignmentPositive(alignment);
    AlignmentBelow(alignment);
    AlignFormsAgree(WORD_SIZE, alignment);
    SmallStays(WORD_SIZE);
    if WORD_SIZE + alignment - 1 < WORD_RANGE {
      SmallStays(WORD_SIZE + alignment - 1);
      RoundedDown(WORD_SIZE + alignment - 1, alignment);
    }
  }

  lemma BehindHeader(p: nat, b: Block)
    requires Fits(p, b)
    ensures WORD_SIZE <= p <= WORD_RANGE
  {
  }

  lemma AlignedInside(start: nat, size: nat, alignment: nat)
    requires 0 < size && ValidAlignment(alignment) && alignment < WORD_RANGE
    requires start + size + WORD_SIZE + alignment - 1 <= WORD_RANGE
    ensures Fits(AlignedPos(start, alignment), Block(start, size + WORD_SIZE + alignment - 1, size))
    ensures AlignedPos(start, alignment) % alignment == 0
  {
    hide BitAnd, ValidAlignment, GetRightAlign;
    AlignmentPositive(alignment);
    AlignFormsAgree(start + WORD_SIZE, alignment);
    SmallStays(start + WORD_SIZE);
    SmallStays(start + WORD_SIZE + alignment - 1);
    RoundedDown(start + WORD_SIZE + alignment - 1, alignment);
  }

  lemma AlignmentPositive(alignment: nat)
    requires ValidAlignment(alignment)
    ensures alignment > 0
  {
  }

  lemma RoundedDown(x: nat, d: nat)
    requires d > 0
    ensures x - d < x / d * d <= x && x / d * d % d == 0
  {
    assert x / d * d == x - x % d;
    MultipleOf(x / d, d);
  }

  lemma MultipleOf(q: nat, d: nat)
    requires d > 0
    ensures q * d % d == 0
  {
    DivisionIs(q * d, d, q, 0);
  }

  /** Header and user part fit the block that malloc returns exactly when the size asked for does not wrap. */
  lemma FitsExactly(start: nat, size: nat, alignment: nat)
    requires 0 < size < WORD_RANGE && ValidAlignment(alignment) && alignment < WORD_RANGE
    requires start + Request(size, alignment) <= WORD_RANGE
    ensures Fits(AlignedPos(start, alignment), Block(start, Request(size, alignment), size))
            <==> size + WORD_SIZE + alignment - 1 < WORD_RANGE
  {
    hide BitAnd, GetRightAlign, ValidAlignment;
    if size + WORD_SIZE + alignment - 1 < WORD_RANGE {
      AlignedInside(start, size, alignment);
    } else {
      AlignmentBelow(alignment);
      assert Request(size, alignment) == size + WORD_SIZE + alignment - 1 - WORD_RANGE < size;
    }
  }

  lemma AlignmentBelow(alignment: nat)
    requires ValidAlignment(alignment) && alignment < WORD_RANGE
    ensures 2 * alignment <= WORD_RANGE
  {
    hide BitAnd, Pow2;
    WordRange();
    var k := ValidIsPower(alignment);
    PowerBelow(k, WORD_BITS);
    Pow2Sum(k + 1, WORD_BITS - k - 1);
    PowerNext(k);
    TimesAtLeast(Pow2(k + 1), Pow2(WORD_BITS - k - 1));
  }

  lemma PowerNext(k: nat)
    ensures Pow2(k + 1) == 2 * Pow2(k)
  {
  }

  lemma TimesAtLeast(a: nat, b: nat)
    requires b >= 1
    ensures a * b >= a
  {
  }

  lemma StartInHeader(start: nat)
    requires start < WORD_RANGE
    ensures LowFirst(Digits(start, WORD_SIZE)) == start
  {
    hide Pow2, LowFirst, Digits;
    WordRange();
    ValueOfDigits(start, WORD_SIZE);
  }

  lemma ByteElsewhere(bytes: Cells, a: nat, v: u8, at: nat)
    requires a < at || at + WORD_SIZE <= a
    ensures WordAt(bytes[a := v], at) == WordAt(bytes, at)
  {
  }

  /** Every header leads back to the start of its block, and no two blocks overlap. */
  ghost predicate Sound(bytes: Cells, live: map<nat, Block>) {
    && (forall p :: p in live ==> Fits(p, live[p]) && LowFirst(WordAt(bytes, p - WORD_SIZE)) == live[p].start)
    && forall p, q :: p in live && q in live && p != q ==> Apart(live[p], live[q])
  }

  lemma MoreIsSound(bytes: Cells, live: map<nat, Block>, p: nat, b: Block)
    requires Sound(bytes, live) && Fits(p, b) && forall q :: q in live ==> Apart(live[q], b)
    ensures p !in live && Sound(Stored(bytes, p - WORD_SIZE, Digits(b.start, WORD_SIZE)), live[p := b])
  {
    hide Stored, WordAt, LowFirst, Digits;
    var headerPos, word := p - WORD_SIZE, Digits(b.start, WORD_SIZE);
    StartInHeader(b.start);
    ReadsWhatIsStored(bytes, headerPos, word);
    forall q | q in live
      ensures q != p && WordAt(Stored(bytes, headerPos, word), q - WORD_SIZE) == WordAt(bytes, q - WORD_SIZE)
    {
      ElsewhereUntouched(bytes, headerPos, word, q - WORD_SIZE);
    }
  }

  class Memory {
    var bytes: Cells
    ghost var live: map<nat, Block>

    ghost predicate Valid()
      reads this
    {
      Sound(bytes, live)
    }

    constructor ()
      ensures Valid() && live == map[]
    {
      bytes, live := map[], map[];
    }

    /** start is the address that malloc returns: null, or a block of the length asked for, apart from all others.
        Null is not noticed, and neither is a size that wraps: the block is then too short for the user part. */
    method AlignedMalloc(size: nat, alignment: nat, start: nat) returns (p: nat)
      requires Valid() && size < WORD_RANGE && alignment < WORD_RANGE
      requires start > 0 ==>
                 && start + Request(size, alignment) <= WORD_RANGE
                 && forall q :: q in live ==> Apart(live[q], Block(start, Request(size, alignment), size))
      modifies this
      ensures size == 0 || !ValidAlignment(alignment) ==> p == 0 && live == old(live) && bytes == old(bytes)
      ensures size > 0 && ValidAlignment(alignment) && start > 0 ==>
                var block := Block(start, Request(size, alignment), size);
                if size + WORD_SIZE + alignment - 1 < WORD_RANGE then
                  && Valid() && p != 0 && p % alignment == 0 && p !in old(live) && live == old(live)[p := block]
                  && forall a: nat :: !(p - WORD_SIZE <= a < p) ==> ByteAt(bytes, a) == old(ByteAt(bytes, a))
                else !Fits(p, block) && live == old(live)
      ensures size > 0 && ValidAlignment(alignment) && start == 0 ==> p != 0
    {
      hide GetRightAlign, ValidAlignment, Sound, Fits, Stored, Digits, ByteAt;
      if size == 0 || !ValidAlignment(alignment) {
        return 0;
      }
      AlignmentPositive(alignment);
      var alignStartPos := (start + WORD_SIZE) % WORD_RANGE;
      p := GetRightAlign(alignStartPos, alignment);
      var headerPos := (p - WORD_SIZE) % WORD_RANGE;
      ghost var block, before := Block(start, Request(size, alignment), size), bytes;
      bytes := Stored(bytes, headerPos, Digits(start, WORD_SIZE));
      if start == 0 {
        NullUnnoticed(alignment);
      } else {
        FitsExactly(start, size, alignment);
        if size + WORD_SIZE + alignment - 1 < WORD_RANGE {
          SmallStays(size + WORD_SIZE + alignment - 1);
          AlignedInside(start, size, alignment);
          BehindHeader(p, block);
          SmallStays(p - WORD_SIZE);
          OnlyTheWord(before, headerPos, Digits(start, WORD_SIZE));
          MoreIsSound(before, live, p, block);
          live := live[p := block];
        }
      }
    }

    /** The caller writes to its part of a block. */
    method Write(p: nat, i: nat, v: u8)
      requires Valid() && p in live && i < live[p].size
      modifies this`bytes
      ensures Valid() && bytes == old(bytes)[p + i := v]
    {
      hide LowFirst, WordAt;
      forall q | q in live
        ensures WordAt(bytes[p + i := v], q - WORD_SIZE) == WordAt(bytes, q - WORD_SIZE)
      {
        ByteElsewhere(bytes, p + i, v, q - WORD_SIZE);
      }
      bytes := bytes[p + i := v];
    }

    /** What is given to free is what malloc returned; all other blocks stay. */
    method AlignedFree(p: nat) returns (freed: nat)
      requires Valid() && (p == 0 || p in live)
      modifies this`live
      ensures Valid() && bytes == old(bytes)
      ensures p == 0 ==> freed == 0 && live == old(live)
      ensures p != 0 ==> freed == old(live)[p].start && live == old(live) - {p}
    {
      if p == 0 {
        return 0;
      }
      var headerPos := p - WORD_SIZE;
      freed := LowFirst(WordAt(bytes, headerPos));
      live := live - {p};
    }
  }
}
