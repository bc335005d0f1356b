/**
 * Binary shifts of integers, and numbers as little-endian sequences of 32-bit limbs.
 *
 * Weights are written as shifts, Shl(n, x) = x * 2^n, so that the limb proofs stay linear.
 */
module Limbs {

  const B: int := 0x1_0000_0000

  type Limb = x: int | 0 <= x < B

  /** x times two to the n. */
  function Shl(n: nat, x: int): int {
    if n == 0 then x else 2 * Shl(n - 1, x)
  }

  function Pow2(n: nat): (r: int)
    ensures r > 0
  {
    if n == 0 then 1 else 2 * Pow2(n - 1)
  }

  // ---------------------------------------------------------------- shifts

  lemma {:induction false} ShlAdd(n: nat, x: int, y: int)
    ensures Shl(n, x + y) == Shl(n, x) + Shl(n, y) && Shl(n, x - y) == Shl(n, x) - Shl(n, y)
  {
    if n > 0 { ShlAdd(n - 1, x, y); }
  }

  lemma {:induction false} ShlZero(n: nat)
    ensures Shl(n, 0) == 0 && Shl(n, 1) == Pow2(n)
  {
    if n > 0 { ShlZero(n - 1); }
  }

  lemma {:induction false} ShlShl(m: nat, n: nat, x: int)
    ensures Shl(m + n, x) == Shl(m, Shl(n, x)) == Shl(n, Shl(m, x))
  {
    if m > 0 {
      ShlShl(m - 1, n, x);
      ShlDouble(n, Shl(m - 1, x));
    }
  }

  lemma {:induction false} ShlDouble(n: nat, x: int)
    ensures Shl(n, 2 * x) == 2 * Shl(n, x)
  {
    if n > 0 { ShlDouble(n - 1, x); }
  }

  lemma {:induction false} ShlMonotone(n: nat, x: int, y: int)
    requires x < y
    ensures Shl(n, x) < Shl(n, y)
  {
    if n > 0 { ShlMonotone(n - 1, x, y); }
  }

  lemma ShlCancel(n: nat, x: int, y: int)
    requires Shl(n, x) < Shl(n, y)
    ensures x < y
  {
    if y < x { ShlMonotone(n, y, x); }
  }

  lemma ShlBound(n: nat, x: int, y: nat)
    requires 0 <= x < Pow2(y)
    ensures 0 <= Shl(n, x) && Shl(n, x) < Pow2(n + y)
  {
    ShlZero(n);
    if x > 0 { ShlMonotone(n, 0, x); }
    ShlMonotone(n, x, Pow2(y));
    Pow2Add(n, y);
  }

  /** A shift is a multiplication, also through another factor. */
  lemma {:induction false} ShlMul(n: nat, x: int, y: int)
    ensures x * Shl(n, y) == Shl(n, x * y) && Shl(n, x) == x * Pow2(n)
  {
    if n > 0 {
      ShlMul(n - 1, x, y);
      assert x * (2 * Shl(n - 1, y)) == 2 * (x * Shl(n - 1, y));
      assert x * (2 * Pow2(n - 1)) == 2 * (x * Pow2(n - 1));
    }
  }

  lemma Pow2Add(a: nat, b: nat)
    ensures Shl(a, Pow2(b)) == Pow2(a + b) && Pow2(a) * Pow2(b) == Pow2(a + b)
  {
    ShlShl(a, b, 1);
    ShlZero(b);
    ShlZero(a + b);
    ShlMul(a, Pow2(b), 1);
  }

  lemma {:induction false} Pow2Monotone(a: nat, b: nat)
    requires a <= b
    ensures Pow2(a) <= Pow2(b) && (a < b ==> 2 * Pow2(a) <= Pow2(b))
  {
    if a < b { Pow2Monotone(a, b - 1); }
  }

  lemma Pow2Small()
    ensures Pow2(0) == 1 && Pow2(1) == 2 && Pow2(8) == 0x100 && Pow2(15) == 0x8000 && Pow2(16) == 0x1_0000
    ensures Pow2(23) == 0x80_0000 && Pow2(24) == 0x100_0000 && Pow2(31) == 0x8000_0000 && Pow2(32) == B
  {
    assert Pow2(3) == 8 && Pow2(4) == 16;
    Pow2Add(3, 4);
    Pow2Add(4, 4);
    Pow2Add(7, 8);
    Pow2Add(8, 8);
    Pow2Add(8, 15);
    Pow2Add(8, 16);
    Pow2Add(15, 16);
    Pow2Add(16, 16);
  }

  /** Quotient and remainder are determined by the division equation. */
  lemma DivModUnique(x: int, m: int, q: int, r: int)
    requires m > 0 && 0 <= r < m && x == q * m + r
    ensures x / m == q && x % m == r
  {
    var d := x / m - q;
    assert d * m == r - x % m;
    assert d >= 1 ==> d * m >= m;
    assert d <= -1 ==> d * m <= -m;
  }

  /** The same for a power of two. */
  lemma ShlDivMod(n: nat, x: int, q: int, r: int)
    requires 0 <= r < Pow2(n) && x == Shl(n, q) + r
    ensures x / Pow2(n) == q && x % Pow2(n) == r
  {
    ShlMul(n, q, 0);
    DivModUnique(x, Pow2(n), q, r);
  }

  /** Splitting a number at a bit position. */
  lemma ShlSplit(n: nat, x: int)
    ensures x == Shl(n, x / Pow2(n)) + x % Pow2(n) && 0 <= x % Pow2(n) < Pow2(n)
  {
    ShlMul(n, x / Pow2(n), 0);
  }

  // ---------------------------------------------------------------- limbs

  /** The number a sequence of limbs stands for. */
  function Value(s: seq<Limb>): nat {
    if s == [] then 0 else s[0] + B * Value(s[1..])
  }

  /** One limb up is 32 bits up. */
  lemma ShlLimb(i: nat, x: int)
    ensures Shl(32 * (i + 1), x) == B * Shl(32 * i, x) == Shl(32 * i, B * x)
  {
    Pow2Small();
    ShlShl(32, 32 * i, x);
    ShlMul(32, Shl(32 * i, x), 0);
    ShlMul(32, x, 0);
  }

  /** A limb and its carry recombine to the sum. */
  lemma CarryStep(i: nat, n: int)
    ensures Shl(32 * i, n % B) + Shl(32 * (i + 1), n / B) == Shl(32 * i, n)
  {
    ShlLimb(i, n / B);
    ShlAdd(32 * i, n % B, B * (n / B));
  }

  lemma {:induction false} ValueConcat(a: seq<Limb>, b: seq<Limb>)
    ensures Value(a + b) == Value(a) + Shl(32 * |a|, Value(b))
  {
    if a == [] {
      assert a + b == b;
    } else {
      ValueConcat(a[1..], b);
      assert (a + b)[1..] == a[1..] + b;
      ShlLimb(|a| - 1, Value(b));
    }
  }

  /** Adding one limb at the top of a prefix. */
  lemma ValuePrefix(s: seq<Limb>, i: nat)
    requires i < |s|
    ensures Value(s[..i + 1]) == Value(s[..i]) + Shl(32 * i, s[i])
  {
    ValueConcat(s[..i], [s[i]]);
    assert s[..i + 1] == s[..i] + [s[i]];
    assert Value([s[i]]) == s[i];
  }

  lemma {:induction false} ValueBound(s: seq<Limb>)
    ensures 0 <= Value(s) < Pow2(32 * |s|)
  {
    if s != [] {
      ValueBound(s[1..]);
      ShlLimb(|s| - 1, 1);
      ShlZero(32 * |s|);
      ShlZero(32 * (|s| - 1));
    }
  }

  lemma ValueSplit(s: seq<Limb>, i: nat)
    requires i < |s|
    ensures Value(s) == Value(s[..i]) + Shl(32 * i, s[i]) + Shl(32 * (i + 1), Value(s[i + 1..]))
  {
    ValuePrefix(s, i);
    ValueCut(s, i + 1);
  }

  lemma ValueCut(s: seq<Limb>, k: nat)
    requires k <= |s|
    ensures Value(s) == Value(s[..k]) + Shl(32 * k, Value(s[k..]))
  {
    assert s == s[..k] + s[k..];
    ValueConcat(s[..k], s[k..]);
  }

  /** Changing one limb. */
  lemma ValueUpdate(s: seq<Limb>, i: nat, x: Limb)
    requires i < |s|
    ensures Value(s[i := x]) == Value(s) + Shl(32 * i, x) - Shl(32 * i, s[i])
  {
    var t := s[i := x];
    ValueSplit(s, i);
    ValueSplit(t, i);
    assert t[..i] == s[..i] && t[i + 1..] == s[i + 1..];
  }

  lemma {:induction false} ValueZero(s: seq<Limb>)
    ensures Value(s) == 0 <==> forall i :: 0 <= i < |s| ==> s[i] == 0
  {
    if s != [] {
      ValueZero(s[1..]);
      assert forall i :: 0 <= i < |s| - 1 ==> s[1..][i] == s[i + 1];
      if forall i :: 0 <= i < |s| ==> s[i] == 0 {
        assert forall i :: 0 <= i < |s[1..]| ==> s[1..][i] == 0;
      }
      if Value(s) == 0 {
        forall i | 0 <= i < |s| ensures s[i] == 0 {
          if i > 0 { assert s[1..][i - 1] == s[i]; }
        }
      }
    }
  }

  // ---------------------------------------------------------------- bitwise or

  function Or(x: nat, y: nat): nat {
    if x == 0 && y == 0 then 0
    else (if x % 2 == 1 || y % 2 == 1 then 1 else 0) + 2 * Or(x / 2, y / 2)
  }

  lemma {:induction false} OrZero(x: nat)
    ensures Or(x, 0) == x && Or(0, x) == x
  {
    if x > 0 { OrZero(x / 2); }
  }

  /** On disjoint bit ranges the bitwise or is a sum. */
  lemma {:induction false} OrDisjoint(x: nat, m: nat, k: nat)
    requires x < Pow2(k)
    ensures Shl(k, m) >= 0
    ensures Or(x, Shl(k, m)) == x + Shl(k, m) && Or(Shl(k, m), x) == x + Shl(k, m)
  {
    if k == 0 {
      OrZero(m);
    } else {
      OrDisjoint(x / 2, m, k - 1);
    }
  }
}
