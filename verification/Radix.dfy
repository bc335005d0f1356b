/** Numbers written in a fixed radix, most significant digit first. */
module Radix {
  function Pow(r: nat, n: nat): nat {
    if n == 0 then 1 else r * Pow(r, n - 1)
  }

  predicate IsDigits(r: nat, s: seq<nat>) {
    forall i :: 0 <= i < |s| ==> s[i] < r
  }

  function Value(r: nat, s: seq<nat>): nat {
    if s == [] then 0 else Value(r, s[..|s| - 1]) * r + s[|s| - 1]
  }

  /** The shortest digit string of a number; the empty one for zero. */
  function Digits(r: nat, x: nat): seq<nat>
    requires r >= 2
  {
    if x == 0 then [] else Digits(r, x / r) + [x % r]
  }

  predicate NoLeadingZero(s: seq<nat>) {
    s != [] ==> s[0] != 0
  }

  lemma {:induction false} PowAdd(r: nat, a: nat, b: nat)
    ensures Pow(r, a + b) == Pow(r, a) * Pow(r, b)
  {
    if a > 0 {
      PowAdd(r, a - 1, b);
      calc {
        Pow(r, a + b);
        r * (Pow(r, a - 1) * Pow(r, b));
        (r * Pow(r, a - 1)) * Pow(r, b);
      }
    }
  }

  lemma {:induction false} PowOfPow(r: nat, a: nat, b: nat)
    ensures Pow(Pow(r, a), b) == Pow(r, a * b)
  {
    if b > 0 {
      PowOfPow(r, a, b - 1);
      PowAdd(r, a, a * (b - 1));
      assert a + a * (b - 1) == a * b;
    } else {
      assert a * b == 0;
    }
  }

  lemma {:induction false} PowPositive(r: nat, n: nat)
    requires r >= 1
    ensures Pow(r, n) >= 1
  {
    if n > 0 { PowPositive(r, n - 1); MulMonotone(1, r, 1, Pow(r, n - 1)); }
  }

  lemma MulMonotone(a: nat, b: nat, c: nat, d: nat)
    requires a <= b && c <= d
    ensures a * c <= b * d
  {
    assert a * c <= b * c;
    assert b * c <= b * d;
  }

  lemma {:induction false} PowExponent(r: nat, a: nat, b: nat)
    requires r >= 1 && a <= b
    ensures Pow(r, a) <= Pow(r, b)
  {
    PowAdd(r, a, b - a);
    PowPositive(r, b - a);
    MulMonotone(Pow(r, a), Pow(r, a), 1, Pow(r, b - a));
  }

  lemma {:induction false} PowBase(x: nat, y: nat, k: nat)
    requires x <= y
    ensures Pow(x, k) <= Pow(y, k)
  {
    if k > 0 { PowBase(x, y, k - 1); MulMonotone(x, y, Pow(x, k - 1), Pow(y, k - 1)); }
  }

  lemma {:induction false} PowStrict(x: nat, y: nat, k: nat)
    requires x < y && k > 0
    ensures Pow(x, k) < Pow(y, k)
  {
    var p, q := Pow(x, k - 1), Pow(y, k - 1);
    PowBase(x, y, k - 1);
    PowPositive(y, k - 1);
    MulMonotone(x, x, p, q);
    Distribute(x, 1, q);
    MulMonotone(x + 1, y, q, q);
  }

  /** Taking roots: powers with the same positive exponent compare as their bases do. */
  lemma Root(x: nat, y: nat, k: nat)
    requires k > 0 && Pow(x, k) <= Pow(y, k)
    ensures x <= y
  {
    if y < x { PowStrict(y, x, k); }
  }

  /**
   * From one pair of powers with `r^a <= q^b` to all numbers of digits: `m` digits in radix `r` fit in `n` digits in
   * radix `q` whenever `b * m <= a * n`.
   */
  lemma {:induction false} DigitsSuffice(r: nat, a: nat, q: nat, b: nat, m: nat, n: nat)
    requires q >= 1 && a > 0 && Pow(r, a) <= Pow(q, b)
    requires b * m <= a * n
    ensures Pow(r, m) <= Pow(q, n)
  {
    PowOfPow(r, m, a);
    PowOfPow(r, a, m);
    assert m * a == a * m;
    PowBase(Pow(r, a), Pow(q, b), m);
    PowOfPow(q, b, m);
    PowExponent(q, b * m, a * n);
    PowOfPow(q, n, a);
    assert n * a == a * n;
    Root(Pow(r, m), Pow(q, n), a);
  }

  lemma {:induction false} ValueCons(r: nat, d: nat, s: seq<nat>)
    ensures Value(r, [d] + s) == d * Pow(r, |s|) + Value(r, s)
    decreases |s|
  {
    var ds := [d] + s;
    if s == [] {
      assert ds[..0] == [];
      assert Value(r, ds) == 0 * r + d;
    } else {
      var n := |s| - 1;
      ValueCons(r, d, s[..n]);
      assert ds[..n + 1] == [d] + s[..n];
      calc {
        Value(r, ds);
        Value(r, ds[..n + 1]) * r + s[n];
        (d * Pow(r, n) + Value(r, s[..n])) * r + s[n];
        { Distribute(d * Pow(r, n), Value(r, s[..n]), r); Rearrange(d, Pow(r, n), r); }
        d * (r * Pow(r, n)) + Value(r, s[..n]) * r + s[n];
        d * Pow(r, n + 1) + Value(r, s);
      }
    }
  }

  lemma Distribute(a: nat, b: nat, c: nat)
    ensures (a + b) * c == a * c + b * c
  {
  }

  lemma Rearrange(a: nat, b: nat, c: nat)
    ensures a * b * c == a * (c * b)
  {
  }

  lemma BoundStep(v: nat, p: nat, r: nat, d: nat)
    requires v < p && d < r
    ensures v * r + d < r * p
  {
    MulMonotone(v + 1, p, r, r);
    Distribute(v, 1, r);
  }

  lemma {:induction false} ValueBound(r: nat, s: seq<nat>)
    requires IsDigits(r, s)
    ensures Value(r, s) < Pow(r, |s|)
    decreases |s|
  {
    if s != [] {
      var n := |s| - 1;
      ValueBound(r, s[..n]);
      BoundStep(Value(r, s[..n]), Pow(r, n), r, s[n]);
    }
  }

  /** Leading zeroes do not count. */
  lemma {:induction false} ValueZeroes(r: nat, s: seq<nat>, z: nat)
    requires z <= |s| && forall i :: 0 <= i < z ==> s[i] == 0
    ensures Value(r, s) == Value(r, s[z..])
    decreases z
  {
    if z > 0 {
      ValueZeroes(r, s[1..], z - 1);
      assert s[1..][z - 1..] == s[z..];
      ValueCons(r, 0, s[1..]);
      assert s == [0] + s[1..];
    } else {
      assert s[0..] == s;
    }
  }

  lemma Quotient(r: nat, x: nat)
    requires r >= 2
    ensures x == (x / r) * r + x % r && x % r < r
    ensures x > 0 ==> x / r < x
  {
  }

  lemma {:induction false} DigitsValue(r: nat, x: nat)
    requires r >= 2
    ensures IsDigits(r, Digits(r, x)) && NoLeadingZero(Digits(r, x)) && Value(r, Digits(r, x)) == x
    ensures Digits(r, x) == [] <==> x == 0
  {
    if x > 0 {
      Quotient(r, x);
      var q, e := x / r, x % r;
      DigitsValue(r, q);
      var d := Digits(r, q);
      assert (d + [e])[..|d|] == d;
      assert d == [] ==> e != 0;
    }
  }

  lemma DivMod(r: nat, a: nat, b: nat)
    requires b < r
    ensures (a * r + b) / r == a && (a * r + b) % r == b
  {
    var x := a * r + b;
    assert x == (x / r) * r + x % r;
    if a < x / r {
      MulMonotone(a + 1, x / r, r, r);
      Distribute(a, 1, r);
    } else if x / r < a {
      MulMonotone(x / r + 1, a, r, r);
      Distribute(x / r, 1, r);
    }
  }

  /** Digit strings without a leading zero are the shortest digit strings of their values. */
  lemma {:induction false} ValueDigits(r: nat, s: seq<nat>)
    requires r >= 2 && IsDigits(r, s) && NoLeadingZero(s)
    ensures Digits(r, Value(r, s)) == s
    decreases |s|
  {
    if s != [] {
      var n := |s| - 1;
      var high := Value(r, s[..n]);
      ValueDigits(r, s[..n]);
      DivMod(r, high, s[n]);
      assert s == s[..n] + [s[n]];
      if n > 0 {
        DigitsValue(r, high);
        assert high > 0;
        assert high * r > 0;
      }
    }
  }

  lemma Swap(a: nat, b: nat, c: nat)
    ensures a * (b * c) == (b * a) * c
  {
  }

  lemma Assoc(a: nat, b: nat, c: nat)
    ensures (a * b) * c == a * (b * c)
  {
  }

  /** Multiplication, by repeated addition: the form that keeps the carry loop's reasoning linear. */
  ghost function Times(a: nat, b: nat): nat {
    if b == 0 then 0 else a + Times(a, b - 1)
  }

  lemma {:induction false} TimesIs(a: nat, b: nat)
    ensures Times(a, b) == a * b
  {
    if b > 0 { TimesIs(a, b - 1); }
  }

  /** The last `i` digits times `mul` plus `add`, as digits and a carry. */
  ghost predicate Carried(r: nat, mul: nat, add: nat, was: seq<nat>, now: seq<nat>, i: nat, carry: nat) {
    && i <= |was| == |now|
    && Times(Value(r, was[|was| - i..]), mul) + add == Value(r, now[|now| - i..]) + Times(carry, Pow(r, i))
  }

  /** One digit's turn in the carry loop: the digit to keep and the carry to pass on. */
  function Turn(r: nat, mul: nat, carry: nat, d: nat): (p: (nat, nat))
    requires r >= 2
    ensures p.0 < r && p.0 + p.1 * r == carry + mul * d
  {
    var t: nat := carry + mul * d;
    Quotient(r, t);
    (t % r, t / r)
  }

  /** One step of long multiplication: digit and carry out make up the product of the digit and the carry in. */
  lemma CarryStep(r: nat, mul: nat, add: nat, low: nat, low': nat, p: nat, pr: nat, carry: nat, d: nat, e: nat, c: nat)
    requires pr == r * p && Times(low, mul) + add == low' + Times(carry, p) && e + c * r == carry + mul * d
    ensures Times(Times(d, p) + low, mul) + add == Times(e, p) + low' + Times(c, pr)
  {
    TimesIs(low, mul);
    TimesIs(carry, p);
    TimesIs(d, p);
    TimesIs(e, p);
    TimesIs(d * p + low, mul);
    TimesIs(c, pr);
    calc {
      (d * p + low) * mul + add;
      { Distribute(d * p, low, mul); Rearrange(d, p, mul); Swap(d, mul, p); }
      (mul * d) * p + carry * p + low';
      { Distribute(mul * d, carry, p); }
      (e + c * r) * p + low';
      { Distribute(e, c * r, p); Assoc(c, r, p); }
      e * p + low' + c * (r * p);
    }
  }

  lemma ValueConsTimes(r: nat, d: nat, s: seq<nat>)
    ensures Value(r, [d] + s) == Times(d, Pow(r, |s|)) + Value(r, s)
  {
    ValueCons(r, d, s);
    TimesIs(d, Pow(r, |s|));
  }

  lemma CarryDigits(r: nat, mul: nat, add: nat, low: seq<nat>, low': seq<nat>, carry: nat, d: nat, e: nat, c: nat)
    requires |low| == |low'| && Times(Value(r, low), mul) + add == Value(r, low') + Times(carry, Pow(r, |low|))
    requires e + c * r == carry + mul * d
    ensures Times(Value(r, [d] + low), mul) + add == Value(r, [e] + low') + Times(c, Pow(r, |low| + 1))
  {
    CarryStep(r, mul, add, Value(r, low), Value(r, low'), Pow(r, |low|), Pow(r, |low| + 1), carry, d, e, c);
    ValueConsTimes(r, d, low);
    ValueConsTimes(r, e, low');
  }

  lemma CarriedStep(r: nat, mul: nat, add: nat, was: seq<nat>, now: seq<nat>, i: nat, carry: nat)
    requires r >= 2 && i < |was| && Carried(r, mul, add, was, now, i, carry)
    requires was[|was| - 1 - i] == now[|was| - 1 - i]
    ensures var k := |was| - 1 - i; var (e, c) := Turn(r, mul, carry, now[k]);
      Carried(r, mul, add, was, now[k := e], i + 1, c)
  {
    var k := |was| - 1 - i;
    var d := now[k];
    var (e, c) := Turn(r, mul, carry, d);
    var low, low' := was[k + 1..], now[k + 1..];
    CarryDigits(r, mul, add, low, low', carry, d, e, c);
    assert was[k..] == [d] + low && now[k := e][k..] == [e] + low';
  }

  lemma NoCarry(x: nat, y: nat, carry: nat, p: nat)
    requires x == y + Times(carry, p) && (x < p || carry == 0)
    ensures carry == 0 && x == y
  {
    TimesIs(carry, p);
    if carry > 0 { MulMonotone(1, carry, p, p); }
  }

  /** Where the digits left alone are zero or there are none, nothing is carried out and the whole product is there. */
  lemma CarriedAll(r: nat, mul: nat, add: nat, was: seq<nat>, now: seq<nat>, i: nat, carry: nat)
    requires Carried(r, mul, add, was, now, i, carry)
    requires forall j :: 0 <= j < |was| - i ==> was[j] == now[j] == 0
    requires i < |was| ==> carry == 0
    requires Times(Value(r, was), mul) + add < Pow(r, |was|)
    ensures carry == 0 && Value(r, now) == Times(Value(r, was), mul) + add
  {
    var z := |was| - i;
    ValueZeroes(r, was, z);
    ValueZeroes(r, now, z);
    NoCarry(Times(Value(r, was), mul) + add, Value(r, now), carry, Pow(r, i));
  }

  lemma CarriedNone(r: nat, mul: nat, add: nat, was: seq<nat>)
    ensures Carried(r, mul, add, was, was, 0, add)
  {
    assert was[|was|..] == [];
    TimesIs(0, mul);
    TimesIs(add, 1);
  }

  /** The body of the carry loop. */
  method MulDigit(b: array<nat>, r: nat, mul: nat, ghost add: nat, ghost was: seq<nat>, i: nat, carry: nat)
      returns (carry': nat)
    requires r >= 2 && i < |was| == b.Length && IsDigits(r, b[..]) && Carried(r, mul, add, was, b[..], i, carry)
    requires b[b.Length - 1 - i] == was[b.Length - 1 - i]
    modifies b
    ensures IsDigits(r, b[..]) && Carried(r, mul, add, was, b[..], i + 1, carry')
    ensures forall j :: 0 <= j < b.Length - 1 - i ==> b[j] == old(b[j])
  {
    ghost var now := b[..];
    CarriedStep(r, mul, add, was, now, i, carry);
    var k := b.Length - 1 - i;
    var (digit, c) := Turn(r, mul, carry, b[k]);
    b[k] := digit;
    carry' := c;
    assert b[..] == now[k := digit];
  }

  /**
   * Multiplies a big-endian buffer in place and adds a digit, touching only the `length` digits in use and those the
   * carry reaches. If the result fits, the carry left at the end is zero.
   */
  method MulAdd(b: array<nat>, r: nat, mul: nat, add: nat, length: nat) returns (length': nat)
    requires r >= 2 && IsDigits(r, b[..]) && length <= b.Length
    requires forall j :: 0 <= j < b.Length - length ==> b[j] == 0
    requires Times(Value(r, b[..]), mul) + add < Pow(r, b.Length)
    modifies b
    ensures IsDigits(r, b[..]) && length' <= b.Length
    ensures forall j :: 0 <= j < b.Length - length' ==> b[j] == 0
    ensures Value(r, b[..]) == Times(Value(r, old(b[..])), mul) + add
  {
    var n, i, carry := b.Length, 0, add;
    ghost var was := b[..];
    CarriedNone(r, mul, add, was);
    while (carry != 0 || i < length) && i < n
      invariant 0 <= i <= n && IsDigits(r, b[..])
      invariant forall j :: 0 <= j < n - i ==> b[j] == was[j]
      invariant Carried(r, mul, add, was, b[..], i, carry)
    {
      carry := MulDigit(b, r, mul, add, was, i, carry);
      i := i + 1;
    }
    CarriedAll(r, mul, add, was, b[..], i, carry);
    assert carry == 0;
    return i;
  }
}
