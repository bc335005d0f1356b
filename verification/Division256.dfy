/** Comparison, bit length and shift-subtract division of 256-bit numbers. */
module Division256 {
  import opened Limbs
  import opened Arith256
  import opened Shifts256

  // ---------------------------------------------------------------- comparison

  /** The highest limb that differs decides. */
  lemma HighestDecides(s: seq<Limb>, t: seq<Limb>, i: nat)
    requires |s| == |t| && i < |s| && s[i] < t[i] && s[i + 1..] == t[i + 1..]
    ensures Value(s) < Value(t)
  {
    ValueSplit(s, i);
    ValueSplit(t, i);
    ValueBound(s[..i]);
    ShlAdd(32 * i, s[i], 1);
    ShlZero(32 * i);
    if s[i] as int + 1 < t[i] { ShlMonotone(32 * i, s[i] as int + 1, t[i]); }
  }

  /** CompareTo: the sign tells the order of the numbers. */
  method CompareTo(pn: array<Limb>, b: array<Limb>) returns (c: int)
    requires Wide(pn) && Wide(b)
    ensures (c < 0 <==> Val(pn) < Val(b)) && (c == 0 <==> Val(pn) == Val(b)) && (c > 0 <==> Val(pn) > Val(b))
  {
    var i: int := WIDTH - 1;
    while i >= 0
      invariant -1 <= i < WIDTH && pn[i + 1..] == b[i + 1..]
    {
      if pn[i] < b[i] {
        HighestDecides(pn[..], b[..], i);
        return -1;
      }
      if pn[i] > b[i] {
        HighestDecides(b[..], pn[..], i);
        return 1;
      }
      i := i - 1;
    }
    assert pn[..] == pn[0..] && b[..] == b[0..];
    return 0;
  }

  // ---------------------------------------------------------------- bit length

  /** n is the position of the highest set bit plus one, or zero. */
  predicate IsBitLength(v: int, n: nat) {
    if n == 0 then v == 0 else Pow2(n - 1) <= v < Pow2(n)
  }

  lemma BitLengthUnique(v: int, m: nat, n: nat)
    requires IsBitLength(v, m) && IsBitLength(v, n)
    ensures m == n
  {
    if m < n { Pow2Monotone(m, n - 1); }
    if n < m { Pow2Monotone(n, m - 1); }
  }

  lemma TopBitTest(x: Limb, n: nat)
    requires x < Pow2(n + 1)
    ensures (x / Pow2(n)) % 2 == 1 <==> x >= Pow2(n)
  {
    if x >= Pow2(n) {
      DivModUnique(x, Pow2(n), 1, x - Pow2(n));
    } else {
      DivModUnique(x, Pow2(n), 0, x);
    }
  }

  /** A number whose limbs above a position are zero. */
  lemma TopSplit(s: seq<Limb>, pos: nat)
    requires pos < |s| && forall l :: pos < l < |s| ==> s[l] == 0
    ensures Value(s) == Value(s[..pos]) + Shl(32 * pos, s[pos])
  {
    ValueSplit(s, pos);
    ValueZero(s[pos + 1..]);
    ShlZero(32 * (pos + 1));
  }

  lemma BitLengthOfTop(s: seq<Limb>, pos: nat, n: nat)
    requires pos < |s| && Pow2(n) <= s[pos] < Pow2(n + 1) && forall l :: pos < l < |s| ==> s[l] == 0
    ensures IsBitLength(Value(s), 32 * pos + n + 1)
  {
    TopSplit(s, pos);
    ValueBound(s[..pos]);
    RestFits(Value(s[..pos]), s[pos], 32 * pos, n + 1);
    Pow2Add(32 * pos, n);
    if Pow2(n) < s[pos] { ShlMonotone(32 * pos, Pow2(n), s[pos]); }
  }

  /** bits */
  method Bits(pn: array<Limb>) returns (n: nat)
    requires Wide(pn)
    ensures IsBitLength(Val(pn), n) && n <= 32 * WIDTH
  {
    Pow2Small();
    var pos: int := WIDTH - 1;
    while pos >= 0
      invariant -1 <= pos < WIDTH && forall l :: pos < l < WIDTH ==> pn[l] == 0
    {
      if pn[pos] != 0 {
        var nbits := 31;
        while nbits > 0
          invariant 0 <= nbits <= 31 && pn[pos] < Pow2(nbits + 1)
        {
          TopBitTest(pn[pos], nbits);
          if (pn[pos] / Pow2(nbits)) % 2 == 1 {
            BitLengthOfTop(pn[..], pos, nbits);
            return 32 * pos + nbits + 1;
          }
          nbits := nbits - 1;
        }
        BitLengthOfTop(pn[..], pos, 0);
        return 32 * pos + 1;
      }
      pos := pos - 1;
    }
    ValueZero(pn[..]);
    return 0;
  }

  // ---------------------------------------------------------------- division

  /** The lowest n bits are zero. */
  ghost predicate LowZero(s: seq<Limb>, n: nat) {
    && (forall l :: 0 <= l < n / 32 && l < |s| ==> s[l] == 0)
    && (n % 32 != 0 && n / 32 < |s| ==> s[n / 32] % Pow2(n % 32) == 0)
  }

  lemma EvenPart(x: Limb, t: nat)
    requires t < 32 && (t == 31 ==> x == 0) && (t < 31 ==> x % Pow2(t + 1) == 0)
    ensures x % Pow2(t) == 0
    ensures x as int + Pow2(t) < B && (x as int + Pow2(t)) % Pow2(t) == 0 && Or(x, Pow2(t)) == x as int + Pow2(t)
  {
    Pow2Small();
    var m := x / Pow2(t + 1);
    ShlSplit(t + 1, x);
    Pow2Monotone(t, 31);
    if t == 31 { DivModUnique(x, Pow2(32), 0, 0); }
    assert x == Shl(t + 1, m);
    ShlShl(t, 1, m);
    assert Shl(1, m) == 2 * m;
    ShlDivMod(t, x, 2 * m, 0);
    ShlAdd(t, 2 * m, 1);
    ShlZero(t);
    ShlDivMod(t, x as int + Pow2(t), 2 * m + 1, 0);
    FitsBelow(t, m);
    OrDisjoint(Pow2(t), m, t + 1);
  }

  lemma FitsBelow(t: nat, m: int)
    requires t < 32 && 0 <= Shl(t + 1, m) < B
    ensures m >= 0 && Shl(t + 1, m) + Pow2(t) < B
  {
    Pow2Small();
    ShlZero(t + 1);
    if m < 0 { ShlMonotone(t + 1, m, 0); }
    Pow2Add(t + 1, 31 - t);
    ShlCancel(t + 1, m, Pow2(31 - t));
    ShlAdd(t + 1, m, 1);
    if m + 1 < Pow2(31 - t) { ShlMonotone(t + 1, m + 1, Pow2(31 - t)); }
  }

  /** Sets bit `shift` of a quotient whose bits up to there are still zero. */
  method SetBit(pn: array<Limb>, shift: nat)
    requires Wide(pn) && shift < 32 * WIDTH && LowZero(pn[..], shift + 1)
    modifies pn
    ensures LowZero(pn[..], shift) && Val(pn) == old(Val(pn)) + Pow2(shift)
  {
    var j, t := shift / 32, shift % 32;
    BitFree(pn[..], shift);
    ShlAdd(32 * j, pn[j], Pow2(t));
    Pow2Add(32 * j, t);
    SetLimb(pn, j, Or(pn[j], Pow2(t)));
  }

  lemma BitFree(s: seq<Limb>, shift: nat)
    requires |s| == WIDTH && shift < 32 * WIDTH && LowZero(s, shift + 1)
    ensures var j, t := shift / 32, shift % 32;
      && s[j] as int + Pow2(t) < B && Or(s[j], Pow2(t)) == s[j] as int + Pow2(t)
      && LowZero(s[j := s[j] as int + Pow2(t)], shift)
  {
    EvenPart(s[shift / 32], shift % 32);
  }

  lemma LowZeroLess(s: seq<Limb>, shift: nat)
    requires |s| == WIDTH && shift < 32 * WIDTH && LowZero(s, shift + 1)
    ensures LowZero(s, shift)
  {
    EvenPart(s[shift / 32], shift % 32);
  }

  /** The state of the division loop: shift + 1 quotient bits are still to be decided. */
  ghost predicate DivInv(q: int, r: int, n: int, d: int, bits: nat) {
    n == q * d + r && 0 <= r < Shl(bits, d)
  }

  /** Taking the shifted divisor out of the remainder sets one quotient bit. */
  lemma TakeStep(q: int, r: int, n: int, d: int, shift: nat)
    requires DivInv(q, r, n, d, shift + 1) && r >= Shl(shift, d)
    ensures DivInv(q + Pow2(shift), r - Shl(shift, d), n, d, shift)
  {
    ShlMul(shift, d, 0);
    ScaleSum(d, q, Pow2(shift));
  }

  lemma DivDone(q: int, r: int, n: int, d: int)
    requires DivInv(q, r, n, d, 0)
    ensures d > 0 ==> q == n / d && r == n % d
  {
    if d > 0 { DivModUnique(n, d, q, r); }
  }

  /** Aligning the divisor with the numerator. */
  lemma Aligned(n: int, d: int, nb: nat, db: nat)
    requires IsBitLength(n, nb) && IsBitLength(d, db) && 0 < db <= nb <= 32 * WIDTH
    ensures 0 <= Shl(nb - db, d) < M() && n < Shl(nb - db + 1, d)
  {
    var s := nb - db;
    ShlBound(s, d, db);
    Pow2Monotone(nb, 32 * WIDTH);
    Pow2Add(s + 1, db - 1);
    if Pow2(db - 1) < d { ShlMonotone(s + 1, Pow2(db - 1), d); }
  }

  /**
   * operator/=: the exact quotient, or an exception for a zero divisor. The result is cleared before the
   * exception is raised.
   */
  method DivAssign(pn: array<Limb>, b: array<Limb>) returns (ok: bool)
    requires Wide(pn) && Wide(b)
    modifies pn
    ensures ok <==> old(Val(b)) != 0
    ensures Val(pn) == if ok then old(Val(pn)) / old(Val(b)) else 0
  {
    var div := Copy(b);
    var num := Copy(pn);
    ghost var d, n := Val(b), Val(pn);
    SetZero(pn);
    var numBits := Bits(num);
    var divBits := Bits(div);
    if divBits == 0 { return false; }
    ok := true;
    if divBits > numBits {
      Shorter(n, d, numBits, divBits);
      return;
    }
    var shift := numBits - divBits;
    Aligned(n, d, numBits, divBits);
    ShiftLeft(div, shift);
    DivModUnique(Shl(shift, d), M(), 0, Shl(shift, d));
    DivLoop(pn, num, div, shift, n, d);
  }

  lemma Shorter(n: int, d: int, nb: nat, db: nat)
    requires IsBitLength(n, nb) && IsBitLength(d, db) && nb < db
    ensures d > 0 && n / d == 0
  {
    Pow2Monotone(nb, db - 1);
    DivModUnique(n, d, 0, n);
  }

  method Copy(b: array<Limb>) returns (c: array<Limb>)
    requires Wide(b)
    ensures fresh(c) && Wide(c) && c[..] == b[..]
  {
    c := new Limb[WIDTH];
    for i := 0 to WIDTH
      invariant c[..i] == b[..i]
    {
      c[i] := b[i];
    }
    assert c[..] == c[..WIDTH] == b[..WIDTH] == b[..];
  }

  method DivLoop(pn: array<Limb>, num: array<Limb>, div: array<Limb>, start: nat, ghost n: int, ghost d: int)
    requires Wide(pn) && Wide(num) && Wide(div) && pn != num && pn != div && num != div
    requires start < 32 * WIDTH && forall i :: 0 <= i < WIDTH ==> pn[i] == 0
    requires Val(div) == Shl(start, d) && d > 0 && DivInv(0, Val(num), n, d, start + 1) && Val(pn) == 0
    modifies pn, num, div
    ensures Val(pn) == n / d && Val(num) == n % d
  {
    var shift: int := start;
    while shift >= 0
      invariant -1 <= shift <= start
      invariant LowZero(pn[..], shift + 1)
      invariant shift >= 0 ==> Val(div) == Shl(shift, d)
      invariant DivInv(Val(pn), Val(num), n, d, shift + 1)
    {
      DivStep(pn, num, div, shift, n, d);
      Halve(div, shift, d);
      shift := shift - 1;
    }
    DivDone(Val(pn), Val(num), n, d);
  }

  method Halve(div: array<Limb>, shift: nat, ghost d: int)
    requires Wide(div) && Val(div) == Shl(shift, d)
    modifies div
    ensures shift > 0 ==> Val(div) == Shl(shift - 1, d)
  {
    Pow2Small();
    ShiftRight(div, 1);
  }

  method DivStep(pn: array<Limb>, num: array<Limb>, div: array<Limb>, shift: nat, ghost n: int, ghost d: int)
    requires Wide(pn) && Wide(num) && Wide(div) && pn != num && pn != div && num != div
    requires shift < 32 * WIDTH && LowZero(pn[..], shift + 1)
    requires Val(div) == Shl(shift, d) && DivInv(Val(pn), Val(num), n, d, shift + 1)
    modifies pn, num
    ensures LowZero(pn[..], shift) && DivInv(Val(pn), Val(num), n, d, shift)
  {
    var c := CompareTo(num, div);
    if c >= 0 {
      TakeStep(Val(pn), Val(num), n, d, shift);
      ValueBound(num[..]);
      ValueBound(div[..]);
      DivModUnique(Val(num) - Val(div), M(), 0, Val(num) - Val(div));
      SubAssign(num, div);
      SetBit(pn, shift);
    } else {
      LowZeroLess(pn[..], shift);
    }
  }
}
