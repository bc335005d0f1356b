/** Compact targets on limbs, and the work a block proves. */
module BlockProof {
  import opened Limbs
  import opened Arith256
  import opened Shifts256
  import opened Division256
  import opened Compact

  /** A 256-bit number from a 64-bit one. */
  method FromUint64(b: int) returns (r: array<Limb>)
    requires 0 <= b < B * B
    ensures fresh(r) && Wide(r) && Val(r) == b
  {
    r := new Limb[WIDTH];
    SetZero(r);
    ShlLimb(0, b / B);
    ShlZero(32);
    SetLimb(r, 0, b % B);
    SetLimb(r, 1, b / B);
  }

  /** SetCompact */
  method SetCompact(nCompact: UInt32) returns (r: array<Limb>, negative: bool, overflow: bool)
    ensures fresh(r) && Wide(r) && Decoded(Val(r), negative, overflow) == Decode(nCompact)
  {
    var nSize := nCompact / 0x100_0000;
    var nWord := nCompact % SIGN;
    WordRange(nCompact);
    if nSize <= 3 {
      nWord := nWord / Pow2(8 * (3 - nSize));
      r := FromUint64(nWord);
    } else {
      r := FromUint64(nWord);
      ShiftLeft(r, 8 * (nSize - 3));
    }
    negative := nWord != 0 && (nCompact / SIGN) % 2 == 1;
    overflow := nWord != 0 && (nSize > 34 || (nWord > 0xff && nSize > 33) || (nWord > 0xffff && nSize > 32));
  }

  /** GetLow64 */
  method GetLow64(pn: array<Limb>) returns (r: int)
    requires Wide(pn)
    ensures r == Val(pn) % (B * B)
  {
    r := pn[0] + B * pn[1];
    ghost var s := pn[..];
    ValueCut(s, 2);
    assert s[..2] == [pn[0], pn[1]];
    assert Value([pn[0], pn[1]]) == r by {
      assert [pn[0], pn[1]][1..] == [pn[1]];
      assert Value([pn[1]]) == pn[1];
    }
    Pow2Small();
    Pow2Add(32, 32);
    ValueBound(s[..2]);
    ShlDivMod(64, Val(pn), Value(s[2..]), r);
  }

  /** The first half of GetCompact: the size in bytes and the top three bytes. */
  method TopBytes(pn: array<Limb>) returns (nSize: nat, nCompact: int)
    requires Wide(pn)
    ensures Val(pn) >= 0 && nSize == RawSize(Val(pn)) && nCompact == RawWord(Val(pn))
  {
    ghost var x: int := Val(pn);
    ValueBound(pn[..]);
    BitLengthIs(x);
    RawWordRange(x);
    var bits := Bits(pn);
    BitLengthUnique(x, bits, BitLength(x));
    nSize := (bits + 7) / 8;
    if nSize <= 3 {
      var low := GetLow64(pn);
      DivModUnique(x, B * B, 0, x);
      nCompact := Shl(8 * (3 - nSize), low);
    } else {
      var bn := Copy(pn);
      ShiftRight(bn, 8 * (nSize - 3));
      nCompact := GetLow64(bn);
      DivModUnique(RawWord(x), B * B, 0, RawWord(x));
    }
  }

  /** GetCompact: its two asserts hold, and the result is the encoding. */
  method GetCompact(pn: array<Limb>, fNegative: bool) returns (n: int)
    requires Wide(pn)
    ensures Val(pn) >= 0 && n == Encode(Val(pn), fNegative)
  {
    var nSize, nCompact := TopBytes(pn);
    ValueBound(pn[..]);
    RawWordRange(Val(pn));
    EncodeParts(Val(pn));
    if (nCompact / SIGN) % 2 == 1 {
      nCompact := nCompact / 0x100;
      nSize := nSize + 1;
    }
    assert nCompact < SIGN && nSize < 256;
    n := nCompact + 0x100_0000 * nSize + if fNegative && nCompact != 0 then SIGN else 0;
  }

  /** A usable target is smaller than 2^256 - 1. */
  lemma TargetBelowMax(n: UInt32)
    requires !Decode(n).overflow
    ensures 0 <= Decode(n).value < M() - 1
  {
    DecodeValue(n);
    Pow2Small();
    var size := n / 0x100_0000;
    if size > 3 {
      var v := Decode(n).value;
      assert v == 2 * Shl(8 * (size - 3) - 1, Word(n));
      assert M() == 2 * Pow2(32 * WIDTH - 1);
    } else {
      Pow2Monotone(24, 32 * WIDTH);
    }
  }

  /** 2^256 cannot be represented, but its quotient by t + 1 can be computed without it. */
  lemma ProofIdentity(m: int, t: int)
    requires 0 < t < m - 1
    ensures (m - 1 - t) / (t + 1) + 1 == m / (t + 1) && 0 <= (m - 1 - t) / (t + 1) < m - 1
  {
    var d := t + 1;
    var q, r := (m - d) / d, (m - d) % d;
    assert m - d == q * d + r;
    assert m == (q + 1) * d + r by { ScaleSum(d, q, 1); }
    DivModUnique(m, d, q + 1, r);
    QuotientSmall(m - d, d);
  }

  lemma {:induction false} ProductAtLeast(q: nat, d: nat)
    requires d >= 1
    ensures q * d >= q
  {
    if q > 0 {
      ProductAtLeast(q - 1, d);
      ScaleSum(d, q - 1, 1);
    }
  }

  lemma QuotientSmall(x: nat, d: int)
    requires d > 1
    ensures 0 <= x / d <= x
  {
    var q, r := x / d, x % d;
    assert x == q * d + r;
    ProductAtLeast(q, d);
  }

  /** GetBlockProof: floor(2^256 / (target + 1)), or zero for a target that is unusable. */
  method GetBlockProof(nBits: UInt32) returns (r: array<Limb>)
    ensures fresh(r) && Wide(r)
    ensures var t := Decode(nBits);
      Val(r) == if t.negative || t.overflow || t.value == 0 then 0 else M() / (t.value + 1)
  {
    var bnTarget, fNegative, fOverflow := SetCompact(nBits);
    var zero := FromUint64(0);
    var c := CompareTo(bnTarget, zero);
    if fNegative || fOverflow || c == 0 {
      return zero;
    }
    ghost var t := Val(bnTarget);
    TargetBelowMax(nBits);
    ProofIdentity(M(), t);
    r := Complement(bnTarget);
    var one := FromUint64(1);
    AddAssign(bnTarget, one);
    DivModUnique(t + 1, M(), 0, t + 1);
    var ok := DivAssign(r, bnTarget);
    ghost var q := Val(r);
    var one' := FromUint64(1);
    AddAssign(r, one');
    DivModUnique(q + 1, M(), 0, q + 1);
  }
}
