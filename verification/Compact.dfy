/**
 * The compact encoding of difficulty targets: an 8-bit exponent to base 256, a sign bit and a 23-bit
 * mantissa. Encoding rounds down; the lemmas say exactly how much is lost and what round-trips.
 */
module Compact {
  import opened Limbs
  import opened Arith256
  import opened Shifts256
  import opened Division256

  type UInt32 = x: int | 0 <= x < B

  datatype Decoded = Decoded(value: int, negative: bool, overflow: bool)

  const SIGN := 0x80_0000

  /** The mantissa after the shift that a small exponent causes. */
  function Word(n: UInt32): int {
    var size, word := n / 0x100_0000, n % SIGN;
    if size <= 3 then word / Pow2(8 * (3 - size)) else word
  }

  /** SetCompact */
  function Decode(n: UInt32): Decoded {
    var size, word := n / 0x100_0000, Word(n);
    Decoded(
      if size <= 3 then word else Shl(8 * (size - 3), word) % M(),
      word != 0 && (n / SIGN) % 2 == 1,
      word != 0 && (size > 34 || (word > 0xff && size > 33) || (word > 0xffff && size > 32)))
  }

  function BitLength(x: nat): nat {
    if x == 0 then 0 else 1 + BitLength(x / 2)
  }

  lemma {:induction false} BitLengthIs(x: nat)
    ensures IsBitLength(x, BitLength(x))
  {
    if x > 0 { BitLengthIs(x / 2); }
  }

  /** Exponent and mantissa before the sign bit is kept free. */
  function RawSize(x: nat): nat { (BitLength(x) + 7) / 8 }

  function RawWord(x: nat): int {
    var size := RawSize(x);
    if size <= 3 then Shl(8 * (3 - size), x) else x / Pow2(8 * (size - 3))
  }

  function Size(x: nat): nat { if RawWord(x) >= SIGN then RawSize(x) + 1 else RawSize(x) }

  function Mantissa(x: nat): int { if RawWord(x) >= SIGN then RawWord(x) / 0x100 else RawWord(x) }

  /** The number of low bytes that the encoding drops. */
  function Dropped(x: nat): nat { if Size(x) <= 3 then 0 else Size(x) - 3 }

  // ---------------------------------------------------------------- the encoding

  /** The raw mantissa has its top byte in use. */
  lemma RawWordRange(x: nat)
    requires x < M()
    ensures RawSize(x) <= 32
    ensures 0 <= RawWord(x) < 0x100_0000
    ensures RawSize(x) > 3 ==> RawWord(x) >= 0x1_0000
    ensures RawSize(x) <= 3 ==> x < 0x100_0000
  {
    var n, size := BitLength(x), RawSize(x);
    BitLengthIs(x);
    Pow2Small();
    LengthFits(x, n);
    if size <= 3 { SmallWord(x, n, size); } else { BigWord(x, n, 8 * (size - 3)); }
  }

  lemma SmallWord(x: nat, n: nat, size: nat)
    requires IsBitLength(x, n) && n <= 8 * size <= 24
    ensures 0 <= Shl(8 * (3 - size), x) < 0x100_0000 && x < 0x100_0000
  {
    Pow2Small();
    Pow2Monotone(n, 8 * size);
    ShlBound(8 * (3 - size), x, 8 * size);
    assert 8 * (3 - size) + 8 * size == 24;
    Pow2Monotone(n, 24);
  }

  lemma BigWord(x: nat, n: nat, d: nat)
    requires IsBitLength(x, n) && d + 16 < n <= d + 24
    ensures 0x1_0000 <= x / Pow2(d) < 0x100_0000
  {
    Pow2Small();
    Pow2Monotone(n, d + 24);
    Pow2Monotone(d + 16, n - 1);
    QuotientRange(x, d, 16, 24);
  }

  lemma LengthFits(x: nat, n: nat)
    requires x < M() && IsBitLength(x, n)
    ensures n <= 32 * WIDTH
  {
    if n > 32 * WIDTH { Pow2Monotone(32 * WIDTH, n - 1); }
  }

  /** Bounds of a number carry over to its quotient by a power of two. */
  lemma QuotientRange(x: int, d: nat, a: nat, b: nat)
    requires Pow2(d + a) <= x < Pow2(d + b)
    ensures Pow2(a) <= x / Pow2(d) < Pow2(b)
  {
    var q := x / Pow2(d);
    ShlSplit(d, x);
    Pow2Add(d, a);
    Pow2Add(d, b);
    ShlCancel(d, q, Pow2(b));
    ShlAdd(d, q, 1);
    ShlZero(d);
    ShlCancel(d, Pow2(a), q + 1);
  }

  /** No assert of GetCompact fires; with a byte dropped, the mantissa has at least 16 significant bits minus one. */
  lemma EncodeParts(x: nat)
    requires x < M()
    ensures 0 <= Mantissa(x) < SIGN && Size(x) <= 33
    ensures Size(x) <= 3 ==> Mantissa(x) == Shl(8 * (3 - Size(x)), x)
    ensures Size(x) > 3 ==> Mantissa(x) == x / Pow2(8 * Dropped(x)) >= 0x8000
    ensures Size(x) == 33 ==> Mantissa(x) <= 0xffff
  {
    RawWordRange(x);
    Pow2Small();
    if RawWord(x) >= SIGN {
      if RawSize(x) > 3 {
        DivDiv(x, 8 * (RawSize(x) - 3), 8);
      } else if RawSize(x) < 3 {
        var k := 8 * (2 - RawSize(x));
        ShlShl(8, k, x);
        ShlDivMod(8, Shl(8 + k, x), Shl(k, x), 0);
      }
    }
  }

  lemma DivDiv(x: nat, a: nat, b: nat)
    ensures (x / Pow2(a)) / Pow2(b) == x / Pow2(a + b)
  {
    var q, r := x / Pow2(a), x % Pow2(a);
    ShlSplit(a, x);
    ShlSplit(b, q);
    var q2, r2 := q / Pow2(b), q % Pow2(b);
    ShlAdd(a, Shl(b, q2), r2);
    ShlShl(a, b, q2);
    RestFits(r, r2, a, b);
    ShlDivMod(a + b, x, q2, r + Shl(a, r2));
  }

  /** GetCompact */
  function Encode(x: nat, negative: bool): int {
    Mantissa(x) + (if negative && Mantissa(x) != 0 then SIGN else 0) + 0x100_0000 * Size(x)
  }

  /** What an encoded number decodes to: its low bytes are cleared. */
  function Rounded(x: nat): int { Shl(8 * Dropped(x), x / Pow2(8 * Dropped(x))) }

  /** Encoding keeps the exponent, the sign and the mantissa apart. */
  lemma EncodeFields(x: nat, negative: bool)
    requires x < M()
    ensures 0 <= Encode(x, negative) < B
    ensures var n := Encode(x, negative);
      && n / 0x100_0000 == Size(x) && n % SIGN == Mantissa(x)
      && ((n / SIGN) % 2 == 1 <==> negative && Mantissa(x) != 0)
  {
    EncodeParts(x);
    Fields(Mantissa(x), negative && Mantissa(x) != 0, Size(x));
  }

  lemma Fields(mantissa: int, sign: bool, size: int)
    requires 0 <= mantissa < SIGN && 0 <= size < 256
    ensures var n := mantissa + (if sign then SIGN else 0) + 0x100_0000 * size;
      0 <= n < B && n / 0x100_0000 == size && n % SIGN == mantissa && ((n / SIGN) % 2 == 1 <==> sign)
  {
  }

  /** The mantissa of an encoded number is what a decoder reads. */
  lemma WordOfEncode(x: nat, negative: bool)
    requires x < M() && 0 <= Encode(x, negative) < B
    ensures Word(Encode(x, negative)) == if Size(x) <= 3 then x else Mantissa(x)
  {
    EncodeFields(x, negative);
    EncodeParts(x);
    if Size(x) <= 3 {
      Pow2Small();
      ShlDivMod(8 * (3 - Size(x)), Mantissa(x), x, 0);
    }
  }

  /** Decoding what was encoded: never an overflow, the sign is kept, and the value is rounded down. */
  lemma DecodeEncode(x: nat, negative: bool)
    requires x < M()
    ensures 0 <= Encode(x, negative) < B
    ensures Decode(Encode(x, negative)) == Decoded(Rounded(x), negative && Rounded(x) != 0, false)
  {
    EncodeFields(x, negative);
    EncodeParts(x);
    WordOfEncode(x, negative);
    Pow2Small();
    RoundedBounds(x);
    if Size(x) > 3 {
      var d := 8 * Dropped(x);
      DivModUnique(Rounded(x), M(), 0, Rounded(x));
      ShlZero(d);
      ShlMonotone(d, 0, Mantissa(x));
    } else {
      ZeroMantissa(x);
    }
  }

  lemma ZeroMantissa(x: nat)
    requires x < M() && Size(x) <= 3
    ensures Mantissa(x) == 0 <==> x == 0
  {
    EncodeParts(x);
    var k := 8 * (3 - Size(x));
    ShlZero(k);
    if x > 0 { ShlMonotone(k, 0, x); }
  }

  /** Rounding never increases the number and loses less than a 2^15-th of it. */
  lemma RoundedBounds(x: nat)
    requires x < M()
    ensures 0 <= Rounded(x) <= x
    ensures Rounded(x) != x ==> Shl(15, x - Rounded(x)) < x
    ensures Dropped(x) == 0 ==> Rounded(x) == x
  {
    var d := 8 * Dropped(x);
    ShlSplit(d, x);
    EncodeParts(x);
    Pow2Small();
    ShlZero(d);
    if x / Pow2(d) > 0 { ShlMonotone(d, 0, x / Pow2(d)); }
    if Dropped(x) > 0 {
      Pow2Add(d, 15);
      Pow2Add(15, d);
      if 0x8000 < x / Pow2(d) { ShlMonotone(d, 0x8000, x / Pow2(d)); }
      ShlMonotone(15, x % Pow2(d), Pow2(d));
    }
  }

  /** The dropped bytes are determined by the size of the number. */
  lemma DroppedRange(x: nat)
    requires x < M()
    ensures x < Pow2(8 * Dropped(x) + 23)
    ensures Dropped(x) > 0 ==> Pow2(8 * Dropped(x) + 15) <= Rounded(x)
  {
    var d := 8 * Dropped(x);
    EncodeParts(x);
    Pow2Small();
    ShlSplit(d, x);
    if Dropped(x) > 0 {
      RestFits(x % Pow2(d), x / Pow2(d), d, 23);
      Pow2Add(d, 15);
      if 0x8000 < x / Pow2(d) { ShlMonotone(d, 0x8000, x / Pow2(d)); }
    } else {
      SmallNumber(x);
    }
  }

  lemma SmallNumber(x: nat)
    requires x < M() && Size(x) <= 3
    ensures x < SIGN
  {
    EncodeParts(x);
    Pow2Small();
    var k := 8 * (3 - Size(x));
    Pow2Add(k, 23);
    Pow2Monotone(23, k + 23);
    if SIGN < x { ShlMonotone(k, SIGN, x); }
  }

  /** The round trip is monotone. */
  lemma RoundedMonotone(x: nat, y: nat)
    requires x <= y < M()
    ensures Rounded(x) <= Rounded(y)
  {
    DroppedRange(x);
    DroppedRange(y);
    RoundedBounds(x);
    RoundedBounds(y);
    var ex, ey := Dropped(x), Dropped(y);
    if ex > ey {
      Pow2Monotone(8 * ey + 23, 8 * ex + 15);
    } else if ex < ey {
      Pow2Monotone(8 * ex + 23, 8 * ey + 15);
    } else {
      QuotientMonotone(x, y, 8 * ex);
    }
  }

  lemma QuotientMonotone(x: int, y: int, d: nat)
    requires x <= y
    ensures Shl(d, x / Pow2(d)) <= Shl(d, y / Pow2(d))
  {
    ShlSplit(d, x);
    ShlSplit(d, y);
    ShlAdd(d, y / Pow2(d), 1);
    ShlZero(d);
    ShlCancel(d, x / Pow2(d), y / Pow2(d) + 1);
    if x / Pow2(d) < y / Pow2(d) { ShlMonotone(d, x / Pow2(d), y / Pow2(d)); }
  }

  // ---------------------------------------------------------------- decoded numbers

  /** The number a compact value stands for, before it is reduced to 256 bits. */
  function Denoted(n: UInt32): int {
    var size := n / 0x100_0000;
    if size <= 3 then Word(n) else Shl(8 * (size - 3), Word(n))
  }

  /** The overflow flag is exact: it is raised iff the number does not fit into 256 bits. */
  lemma OverflowExact(n: UInt32)
    ensures Decode(n).overflow <==> Denoted(n) >= M()
  {
    var size, word := n / 0x100_0000, Word(n);
    Pow2Small();
    if size <= 3 {
      WordRange(n);
      Pow2Monotone(23, 256);
    } else if word == 0 {
      ShlZero(8 * (size - 3));
    } else if size > 34 {
      BigExponent(8 * (size - 3), word);
    } else if size == 34 {
      Compare(248, word, 8);
    } else if size == 33 {
      Compare(240, word, 16);
    } else {
      ShlBound(8 * (size - 3), word, 23);
      Pow2Monotone(8 * (size - 3) + 23, 256);
    }
  }

  lemma BigExponent(d: nat, word: int)
    requires d >= 256 && word >= 1
    ensures Shl(d, word) >= M()
  {
    ShlZero(d);
    Pow2Monotone(256, d);
    if 1 < word { ShlMonotone(d, 1, word); }
  }

  /** A shifted number reaches 2^(d+k) iff the number reaches 2^k. */
  lemma Compare(d: nat, word: int, k: nat)
    ensures Shl(d, word) >= Pow2(d + k) <==> word >= Pow2(k)
  {
    Pow2Add(d, k);
    if word < Pow2(k) { ShlMonotone(d, word, Pow2(k)); }
    if word > Pow2(k) { ShlMonotone(d, Pow2(k), word); }
  }

  /** The number of a compact value that is not flagged as overflow. */
  lemma DecodeValue(n: UInt32)
    requires !Decode(n).overflow
    ensures Decode(n).value == Denoted(n) && 0 <= Decode(n).value < M()
    ensures 0 <= Word(n) < SIGN
  {
    var size := n / 0x100_0000;
    WordRange(n);
    Pow2Small();
    if size > 3 {
      OverflowExact(n);
      ShlBound(8 * (size - 3), Word(n), 23);
      DivModUnique(Shl(8 * (size - 3), Word(n)), M(), 0, Shl(8 * (size - 3), Word(n)));
    } else {
      Pow2Monotone(23, 256);
    }
  }

  lemma WordRange(n: UInt32)
    ensures 0 <= Word(n) < SIGN
  {
    var size, word := n / 0x100_0000, n % SIGN;
    if size <= 3 {
      Pow2Small();
      TruncatedRange(word, 8 * (3 - size));
    }
  }

  lemma TruncatedRange(x: nat, d: nat)
    ensures 0 <= x / Pow2(d) <= x
  {
    ShlMul(d, x / Pow2(d), 0);
    ShlSplit(d, x);
    ShlAdd(d, x / Pow2(d), 1);
    ShlZero(d);
    ShlCancel(d, 0, x / Pow2(d) + 1);
    ShlGrows(d, x / Pow2(d));
  }

  lemma {:induction false} ShlGrows(d: nat, x: nat)
    ensures Shl(d, x) >= x
  {
    if d > 0 { ShlGrows(d - 1, x); }
  }

  /** Any decoded number survives encoding unchanged. */
  lemma DecodedRoundTrips(n: UInt32)
    requires !Decode(n).overflow
    ensures var v := Decode(n).value; v >= 0 && Rounded(v) == v
  {
    DecodeValue(n);
    var size := n / 0x100_0000;
    ScaledKept(Decode(n).value, if size <= 3 then 0 else size - 3, Word(n));
  }

  /** A number with 23 significant bits loses nothing. */
  lemma ScaledKept(v: nat, bytes: nat, word: nat)
    requires v == Shl(8 * bytes, word) && word < SIGN && v < M()
    ensures Rounded(v) == v
  {
    var d, e := 8 * bytes, Dropped(v);
    RoundedBounds(v);
    if e > 0 {
      DroppedRange(v);
      Pow2Small();
      ShlBound(d, word, 23);
      if e > bytes { Pow2Monotone(d + 23, 8 * e + 15); } else { MultipleKept(v, e, d, word); }
    }
  }

  /** A multiple of a higher power loses nothing. */
  lemma MultipleKept(v: nat, e: nat, d: nat, word: nat)
    requires v == Shl(d, word) && 8 * e <= d
    ensures Shl(8 * e, v / Pow2(8 * e)) == v
  {
    ShlShl(8 * e, d - 8 * e, word);
    ShlDivMod(8 * e, v, Shl(d - 8 * e, word), 0);
  }

  /** The round trip in the source's own terms: a usable target re-encodes and decodes to itself. */
  lemma CompactRoundTrip(n: UInt32)
    requires !Decode(n).overflow && !Decode(n).negative
    ensures var v := Decode(n).value;
      0 <= v < M() && 0 <= Encode(v, false) < B && Decode(Encode(v, false)) == Decoded(v, false, false)
  {
    DecodeValue(n);
    DecodedRoundTrips(n);
    DecodeEncode(Decode(n).value, false);
  }
}
