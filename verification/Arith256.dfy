/**
 * Unsigned 256-bit arithmetic on arrays of eight 32-bit limbs, in place.
 *
 * Every loop is proved to compute its operation on the numbers, modulo 2^256. Right operands may be the
 * same array as the left one, as in the source.
 */
module Arith256 {
  import opened Limbs

  const WIDTH: nat := 8

  /** 2^256. */
  function M(): int { Pow2(32 * WIDTH) }

  ghost predicate Wide(a: array<Limb>) { a.Length == WIDTH }

  ghost function Val(a: array<Limb>): int
    reads a
  {
    Value(a[..])
  }

  /** Replaces one limb. */
  method SetLimb(pn: array<Limb>, i: nat, x: Limb)
    requires i < pn.Length
    modifies pn
    ensures pn[..] == old(pn[..])[i := x]
    ensures Val(pn) == old(Val(pn)) + Shl(32 * i, x) - Shl(32 * i, old(pn[i]))
  {
    ghost var s := pn[..];
    ValueUpdate(s, i, x);
    pn[i] := x;
    assert pn[..] == s[i := x];
  }

  /** A limb takes the low part of a sum; the rest is the carry into the next limb. */
  method AddCell(pn: array<Limb>, k: nat, n: int) returns (carry: int)
    requires k < pn.Length && 0 <= n
    modifies pn
    ensures pn[..] == old(pn[..])[k := n % B] && carry == n / B
    ensures Val(pn) + Shl(32 * (k + 1), carry) == old(Val(pn)) + Shl(32 * k, n - old(pn[k]))
  {
    CarryStep(k, n);
    ShlAdd(32 * k, n, pn[k]);
    SetLimb(pn, k, n % B);
    carry := n / B;
  }

  // ---------------------------------------------------------------- addition and negation

  /** operator+= */
  method AddAssign(pn: array<Limb>, b: array<Limb>)
    requires Wide(pn) && Wide(b)
    modifies pn
    ensures Val(pn) == (old(Val(pn)) + old(Val(b))) % M()
  {
    var carry := 0;
    for i := 0 to WIDTH
      invariant 0 <= carry <= 1 && pn[i..] == old(pn[i..]) && b[i..] == old(b[i..])
      invariant Val(pn) + Shl(32 * i, carry) == old(Val(pn)) + Value(old(b[..])[..i])
    {
      assert pn[i] == old(pn[i]) && b[i] == old(b[i]);
      ValuePrefix(old(b[..]), i);
      ShlAdd(32 * i, carry, b[i]);
      carry := AddCell(pn, i, carry + pn[i] + b[i]);
    }
    ValueBound(pn[..]);
    assert old(b[..])[..WIDTH] == old(b[..]);
    ShlDivMod(32 * WIDTH, old(Val(pn)) + old(Val(b)), carry, Val(pn));
  }

  lemma WrapMod(x: Limb)
    ensures (x + 1) % B == if x == B - 1 then 0 else x + 1
    ensures (x - 1) % B == if x == 0 then B - 1 else x - 1
  {
  }

  /** Adds one to a limb, wrapping. */
  method Bump(pn: array<Limb>, i: nat)
    requires i < pn.Length
    modifies pn
    ensures Val(pn) + (if pn[i] == 0 then Shl(32 * (i + 1), 1) else 0) == old(Val(pn)) + Shl(32 * i, 1)
  {
    WrapMod(pn[i]);
    ShlAdd(32 * i, 1, pn[i]);
    ShlLimb(i, 1);
    ShlZero(32 * i);
    SetLimb(pn, i, (pn[i] + 1) % B);
  }

  /** prefix operator++: carries as long as a limb wraps to zero. */
  method Increment(pn: array<Limb>)
    requires Wide(pn)
    modifies pn
    ensures Val(pn) == (old(Val(pn)) + 1) % M()
  {
    var i := 0;
    Bump(pn, 0);
    while pn[i] == 0 && i < WIDTH - 1
      invariant 0 <= i < WIDTH
      invariant Val(pn) + (if pn[i] == 0 then Shl(32 * (i + 1), 1) else 0) == old(Val(pn)) + 1
    {
      i := i + 1;
      Bump(pn, i);
    }
    ValueBound(pn[..]);
    ShlZero(32 * WIDTH);
    ShlDivMod(32 * WIDTH, old(Val(pn)) + 1, if pn[i] == 0 then 1 else 0, Val(pn));
  }

  /** Subtracts one from a limb, wrapping. */
  method Drop(pn: array<Limb>, i: nat)
    requires i < pn.Length
    modifies pn
    ensures Val(pn) - (if pn[i] == B - 1 then Shl(32 * (i + 1), 1) else 0) == old(Val(pn)) - Shl(32 * i, 1)
  {
    WrapMod(pn[i]);
    ShlAdd(32 * i, pn[i], 1);
    ShlLimb(i, 1);
    ShlAdd(32 * i, B, 1);
    ShlZero(32 * i);
    SetLimb(pn, i, (pn[i] - 1) % B);
  }

  /** prefix operator--: borrows as long as a limb wraps to all ones. */
  method Decrement(pn: array<Limb>)
    requires Wide(pn)
    modifies pn
    ensures Val(pn) == (old(Val(pn)) - 1) % M()
  {
    var i := 0;
    Drop(pn, 0);
    while pn[i] == B - 1 && i < WIDTH - 1
      invariant 0 <= i < WIDTH
      invariant Val(pn) - (if pn[i] == B - 1 then Shl(32 * (i + 1), 1) else 0) == old(Val(pn)) - 1
    {
      i := i + 1;
      Drop(pn, i);
    }
    ValueBound(pn[..]);
    ShlZero(32 * WIDTH);
    ShlAdd(32 * WIDTH, 0, 1);
    ShlDivMod(32 * WIDTH, old(Val(pn)) - 1, if pn[i] == B - 1 then -1 else 0, Val(pn));
  }

  lemma {:induction false} ComplementValue(s: seq<Limb>, t: seq<Limb>)
    requires |s| == |t| && forall i :: 0 <= i < |s| ==> t[i] == B - 1 - s[i]
    ensures Value(s) + Value(t) == Pow2(32 * |s|) - 1
  {
    if s != [] {
      ComplementValue(s[1..], t[1..]);
      ShlLimb(|s| - 1, 1);
      ShlZero(32 * |s|);
      ShlZero(32 * (|s| - 1));
    }
  }

  /** operator~ */
  method Complement(b: array<Limb>) returns (ret: array<Limb>)
    requires Wide(b)
    ensures fresh(ret) && Wide(ret) && Val(ret) == M() - 1 - Val(b)
  {
    ret := new Limb[WIDTH];
    for i := 0 to WIDTH
      invariant forall j :: 0 <= j < i ==> ret[j] == B - 1 - b[j]
    {
      ret[i] := B - 1 - b[i];
    }
    ComplementValue(b[..], ret[..]);
  }

  /** Adding a multiple of the modulus does not matter. */
  lemma ModShift(x: int, k: int)
    ensures (x + Shl(32 * WIDTH, k)) % M() == x % M()
  {
    var n := 32 * WIDTH;
    ShlSplit(n, x);
    ShlAdd(n, x / M(), k);
    ShlDivMod(n, x + Shl(n, k), x / M() + k, x % M());
  }

  lemma ModSum(x: int, y: int)
    ensures (x + y % M()) % M() == (x + y) % M()
  {
    ShlSplit(32 * WIDTH, y);
    ModShift(x + y % M(), y / M());
  }

  /** unary operator-: complement plus one. */
  method Negate(b: array<Limb>) returns (ret: array<Limb>)
    requires Wide(b)
    ensures fresh(ret) && Wide(ret) && Val(ret) == (0 - Val(b)) % M()
  {
    ret := Complement(b);
    Increment(ret);
    ShlZero(32 * WIDTH);
    ModShift(0 - Val(b), 1);
  }

  /** operator-= */
  method SubAssign(pn: array<Limb>, b: array<Limb>)
    requires Wide(pn) && Wide(b)
    modifies pn
    ensures Val(pn) == (old(Val(pn)) - old(Val(b))) % M()
  {
    var neg := Negate(b);
    ModSum(Val(pn), 0 - Val(b));
    AddAssign(pn, neg);
  }

  // ---------------------------------------------------------------- multiplication

  lemma MulBounds(x: nat, y: nat, b: nat)
    requires x <= b && y <= b
    ensures 0 <= x * y <= b * b
  {
    assert x * y <= x * b <= b * b;
  }

  /** The 64-bit accumulator of the multiplication loops does not overflow, and the carry is a limb. */
  lemma CarryBound(carry: Limb, p: Limb, x: Limb, y: Limb)
    ensures 0 <= x * y && 0 <= (carry as int + p as int + x * y) / B < B
  {
    MulBounds(x, y, B - 1);
  }

  lemma ScaleSum(x: int, a: int, b: int)
    ensures x * (a + b) == x * a + x * b && (a + b) * x == a * x + b * x
  {
  }

  /** A prefix times a factor grows by one shifted product. */
  lemma PrefixTimes(a: seq<Limb>, j: nat, x: int)
    requires j < |a|
    ensures x * Value(a[..j + 1]) == x * Value(a[..j]) + Shl(32 * j, x * a[j])
  {
    ValuePrefix(a, j);
    ShlMul(32 * j, x, a[j]);
    ScaleSum(x, Value(a[..j]), Shl(32 * j, a[j]));
  }

  /** The books of one step of a multiplication: what is done and what is left add up as before. */
  lemma Balance(v: int, v': int, low: int, low': int, done: int, done': int, whole: int,
                carry: int, carry': int, n: int, x: int, rest: int, product: int)
    requires v + carry + low == whole + done && v' + carry' == v + rest
    requires low' == low + x && done' == done + product && n == carry + product && n == rest + x
    ensures v' + carry' + low' == whole + done'
  {
  }

  /** The limbs below i have been multiplied. */
  ghost predicate Multiplied(pn: seq<Limb>, a: seq<Limb>, b32: Limb, i: nat, carry: Limb) {
    && i <= |pn| == |a| && pn[i..] == a[i..]
    && Value(pn) + Shl(32 * i, carry) + Value(a[..i]) == Value(a) + b32 * Value(a[..i])
  }

  /** The loop body of operator*= with a 32-bit factor. */
  method MulLimb(pn: array<Limb>, ghost a: seq<Limb>, b32: Limb, i: nat, carry: Limb) returns (carry': Limb)
    requires Wide(pn) && i < WIDTH && Multiplied(pn[..], a, b32, i, carry)
    modifies pn
    ensures Multiplied(pn[..], a, b32, i + 1, carry')
  {
    assert pn[i] == pn[..][i..][0] == a[i];
    CarryBound(carry, 0, b32, pn[i]);
    PrefixTimes(a, i, b32);
    ValuePrefix(a, i);
    var n: int := carry as int + b32 * pn[i];
    ShlAdd(32 * i, n, pn[i]);
    ShlAdd(32 * i, carry, b32 * pn[i]);
    ghost var was := pn[..];
    carry' := AddCell(pn, i, n);
    Balance(Value(was), Val(pn), Value(a[..i]), Value(a[..i + 1]), b32 * Value(a[..i]), b32 * Value(a[..i + 1]),
            Value(a), Shl(32 * i, carry), Shl(32 * (i + 1), carry'), Shl(32 * i, n), Shl(32 * i, a[i]),
            Shl(32 * i, n - a[i]), Shl(32 * i, b32 * a[i]));
    assert pn[..][i + 1..] == was[i..][1..] == a[i + 1..];
  }

  /** operator*= with a 32-bit factor. */
  method MulWordAssign(pn: array<Limb>, b32: Limb)
    requires Wide(pn)
    modifies pn
    ensures Val(pn) == (b32 * old(Val(pn))) % M()
  {
    var carry: Limb := 0;
    ghost var a := pn[..];
    ShlZero(0);
    for i := 0 to WIDTH
      invariant Multiplied(pn[..], a, b32, i, carry)
    {
      carry := MulLimb(pn, a, b32, i, carry);
    }
    assert a[..WIDTH] == a;
    ValueBound(pn[..]);
    ShlDivMod(32 * WIDTH, b32 * Value(a), carry, Val(pn));
  }

  /** The inner loop of operator*=: adds x times b, shifted by j limbs, and drops what does not fit. */
  method AddProductRow(pn: array<Limb>, b: array<Limb>, j: nat, x: Limb) returns (carry: Limb)
    requires Wide(pn) && Wide(b) && b != pn && j < WIDTH
    modifies pn
    ensures Val(pn) + Shl(32 * WIDTH, carry) == old(Val(pn)) + Shl(32 * j, x * Value(b[..][..WIDTH - j]))
  {
    carry := 0;
    var i := 0;
    ShlZero(32 * j);
    while i + j < WIDTH
      invariant 0 <= i <= WIDTH - j
      invariant Val(pn) + Shl(32 * (i + j), carry) == old(Val(pn)) + Shl(32 * j, x * Value(b[..][..i]))
    {
      CarryBound(carry, pn[i + j], x, b[i]);
      RowStep(b[..], i, j, x);
      ShlAdd(32 * (i + j), carry, x * b[i]);
      var n: int := carry as int + pn[i + j] as int + x * b[i];
      assert n - pn[i + j] == carry + x * b[i];
      carry := AddCell(pn, i + j, n);
      i := i + 1;
    }
  }

  lemma RowStep(b: seq<Limb>, i: nat, j: nat, x: int)
    requires i < |b|
    ensures Shl(32 * j, x * Value(b[..i + 1])) == Shl(32 * j, x * Value(b[..i])) + Shl(32 * (i + j), x * b[i])
  {
    PrefixTimes(b, i, x);
    ShlAdd(32 * j, x * Value(b[..i]), Shl(32 * i, x * b[i]));
    ShlShl(32 * j, 32 * i, x * b[i]);
    assert 32 * j + 32 * i == 32 * (i + j);
  }

  /** The part of b that a row leaves out only adds multiples of 2^256. */
  lemma RowMod(b: seq<Limb>, j: nat, x: int)
    requires j < WIDTH == |b|
    ensures Shl(32 * j, x * Value(b))
         == Shl(32 * j, x * Value(b[..WIDTH - j])) + Shl(32 * WIDTH, x * Value(b[WIDTH - j..]))
  {
    var k := WIDTH - j;
    TimesCut(b, k, x);
    ShlAdd(32 * j, x * Value(b[..k]), Shl(32 * k, x * Value(b[k..])));
    ShlShl(32 * j, 32 * k, x * Value(b[k..]));
    assert 32 * j + 32 * k == 32 * WIDTH;
  }

  lemma TimesCut(b: seq<Limb>, k: nat, x: int)
    requires k <= |b|
    ensures x * Value(b) == x * Value(b[..k]) + Shl(32 * k, x * Value(b[k..]))
  {
    ValueCut(b, k);
    ScaleSum(x, Value(b[..k]), Shl(32 * k, Value(b[k..])));
    ShlMul(32 * k, x, Value(b[k..]));
  }

  method SetZero(pn: array<Limb>)
    modifies pn
    ensures forall i :: 0 <= i < pn.Length ==> pn[i] == 0
    ensures Val(pn) == 0
  {
    for i := 0 to pn.Length
      invariant forall j :: 0 <= j < i ==> pn[j] == 0
    {
      pn[i] := 0;
    }
    ValueZero(pn[..]);
  }

  /**
   * operator*=: the product modulo 2^256, unless both operands are the same object. Then the left operand is
   * cleared before the right one is read, and the result is zero.
   */
  method MulAssign(pn: array<Limb>, b: array<Limb>)
    requires Wide(pn) && Wide(b)
    modifies pn
    ensures b != pn ==> Val(pn) == (old(Val(b)) * old(Val(pn))) % M()
    ensures b == pn ==> Val(pn) == 0
  {
    var a := pn[..];
    SetZero(pn);
    if b == pn {
      MulAliased(pn, a);
    } else {
      MulDistinct(pn, b, a);
    }
  }

  /** The loops of operator*= when the right operand is another array. */
  method MulDistinct(pn: array<Limb>, b: array<Limb>, a: seq<Limb>)
    requires Wide(pn) && Wide(b) && b != pn && |a| == WIDTH && Val(pn) == 0
    modifies pn
    ensures Val(pn) == (Val(b) * Value(a)) % M()
  {
    assert Val(b) * Value(a[..0]) == 0;
    ShlZero(32 * WIDTH);
    ghost var over := 0;
    for j := 0 to WIDTH
      invariant Val(pn) + Shl(32 * WIDTH, over) == Val(b) * Value(a[..j])
    {
      over := MulRow(pn, b, j, a, over);
    }
    assert a[..WIDTH] == a;
    ValueBound(pn[..]);
    ShlDivMod(32 * WIDTH, Val(b) * Value(a), over, Val(pn));
  }

  /** The body of the outer loop of operator*=. */
  method MulRow(pn: array<Limb>, b: array<Limb>, j: nat, a: seq<Limb>, ghost over: int) returns (ghost over': int)
    requires Wide(pn) && Wide(b) && b != pn && j < WIDTH == |a|
    requires Val(pn) + Shl(32 * WIDTH, over) == Val(b) * Value(a[..j])
    modifies pn
    ensures Val(pn) + Shl(32 * WIDTH, over') == Val(b) * Value(a[..j + 1])
  {
    PrefixTimes(a, j, Val(b));
    RowMod(b[..], j, a[j]);
    assert Val(b) * a[j] == a[j] * Val(b);
    var carry := AddProductRow(pn, b, j, a[j]);
    ghost var rest := a[j] * Value(b[..][WIDTH - j..]);
    over' := over + carry + rest;
    ShlAdd(32 * WIDTH, over, carry);
    ShlAdd(32 * WIDTH, over + carry, rest);
  }

  /** The loops of operator*= when the right operand is the array being computed. */
  method MulAliased(pn: array<Limb>, a: seq<Limb>)
    requires Wide(pn) && |a| == WIDTH && forall i :: 0 <= i < WIDTH ==> pn[i] == 0
    modifies pn
    ensures Val(pn) == 0
  {
    for j := 0 to WIDTH
      invariant forall i :: 0 <= i < WIDTH ==> pn[i] == 0
    {
      var carry := 0;
      var i := 0;
      while i + j < WIDTH
        invariant 0 <= i <= WIDTH - j && carry == 0
        invariant forall i :: 0 <= i < WIDTH ==> pn[i] == 0
      {
        var n := carry + pn[i + j] + a[j] * pn[i];
        pn[i + j] := n % B;
        carry := n / B;
        i := i + 1;
      }
    }
    ValueZero(pn[..]);
  }

  lemma OddSquare(v: int)
    requires v % 2 == 1
    ensures (v * v) % 2 == 1
  {
    var k := v / 2;
    assert v * v == 2 * (2 * (k * k) + 2 * k) + 1;
  }

  lemma {:induction false} SquareDivisible(v: nat, n: nat)
    ensures (v * v) % Pow2(2 * n) == 0 <==> v % Pow2(n) == 0
  {
    if n > 0 {
      SquareDivisible(v / 2, n - 1);
      SquareStep(v, Pow2(n - 1), Pow2(2 * n - 2));
      assert Pow2(2 * n) == 2 * Pow2(2 * n - 1);
    }
  }

  /** One halving: of an odd number nothing even divides the square, of an even one a quarter of the square is left. */
  lemma SquareStep(v: nat, p: int, p2: int)
    requires p > 0 && p2 > 0 && ((v / 2 * (v / 2)) % p2 == 0 <==> (v / 2) % p == 0)
    ensures (v * v) % (4 * p2) == 0 <==> v % (2 * p) == 0
  {
    if v % 2 == 1 {
      OddSquare(v);
      NotEven(v, 2 * p);
      NotEven(v * v, 4 * p2);
    } else {
      var w := v / 2;
      EvenSquare(v, w);
      ScaleMod(w, p, 2);
      ScaleMod(w * w, p2, 4);
    }
  }

  lemma EvenSquare(v: nat, w: nat)
    requires v == 2 * w
    ensures v * v == 4 * (w * w)
  {
  }

  lemma NotEven(x: nat, m: int)
    requires m > 0 && m % 2 == 0 && x % 2 == 1
    ensures x % m != 0
  {
    var k, h := x / m, m / 2;
    assert x == k * m + x % m;
    assert k * m == 2 * (k * h);
  }

  lemma ScaleMod(x: nat, m: int, c: int)
    requires m > 0 && c > 0
    ensures (c * x) % (c * m) == c * (x % m)
  {
    var q, r := x / m, x % m;
    assert c * x == q * (c * m) + c * r by {
      assert x == q * m + r;
      ScaleSum(c, q * m, r);
      assert c * (q * m) == q * (c * m);
    }
    assert 0 <= c * r < c * m;
    DivModUnique(c * x, c * m, q, c * r);
  }

  /** Multiplying a number by itself in place is right exactly when its low 128 bits are zero. */
  lemma SelfProductExact(v: nat)
    ensures 0 == (v * v) % M() <==> v % Pow2(128) == 0
  {
    SquareDivisible(v, 128);
  }
}
