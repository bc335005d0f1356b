/** Shifts of 256-bit numbers, limb by limb with bitwise or. */
module Shifts256 {
  import opened Limbs
  import opened Arith256

  /** A limb shifted left by s bits: its upper s bits belong to the next limb. */
  lemma SplitLimb(a: Limb, s: nat)
    requires s <= 32
    ensures var p := Pow2(32 - s);
      && Shl(s, a) == Shl(s, a % p) + B * (a / p)
      && Shl(s, a) % B == Shl(s, a % p) && 0 <= Shl(s, a % p) < B
      && 0 <= a / p < Pow2(s) && 0 <= a % p < p
  {
    var p := Pow2(32 - s);
    Pow2Small();
    ShlSplit(32 - s, a);
    ShlAdd(s, Shl(32 - s, a / p), a % p);
    ShlShl(s, 32 - s, a / p);
    ShlMul(32, a / p, 0);
    ShlBound(s, a % p, 32 - s);
    TopBits(a, s);
    ShlDivMod(32, Shl(s, a), a / p, Shl(s, a % p));
  }

  lemma TopBits(a: Limb, s: nat)
    requires s <= 32
    ensures 0 <= a / Pow2(32 - s) < Pow2(s)
  {
    var n, q := 32 - s, a / Pow2(32 - s);
    Pow2Small();
    ShlSplit(n, a);
    Pow2Add(n, s);
    ShlCancel(n, q, Pow2(s));
    ShlAdd(n, q, 1);
    ShlZero(n);
    ShlCancel(n, 0, q + 1);
  }

  /** Or-ing bits above the ones already there. */
  method OrInto(pn: array<Limb>, j: nat, x: Limb, ghost t: nat, ghost m: nat)
    requires j < pn.Length && pn[j] < Pow2(t) && x == Shl(t, m) && pn[j] as int + x as int < B
    modifies pn
    ensures pn[..] == old(pn[..])[j := old(pn[j]) + x]
    ensures Val(pn) == old(Val(pn)) + Shl(32 * j, x)
  {
    OrDisjoint(pn[j], m, t);
    ShlAdd(32 * j, pn[j], x);
    SetLimb(pn, j, Or(pn[j], x));
  }

  /** Or-ing into an empty limb. */
  method OrZeroInto(pn: array<Limb>, j: nat, x: Limb)
    requires j < pn.Length && pn[j] == 0
    modifies pn
    ensures pn[..] == old(pn[..])[j := x] && Val(pn) == old(Val(pn)) + Shl(32 * j, x)
  {
    OrZero(x);
    ShlZero(32 * j);
    SetLimb(pn, j, Or(pn[j], x));
  }

  /** The lower bits of one limb and the shifted bits of its neighbour fit side by side. */
  lemma OrFits(y: nat, x: nat, s: nat)
    requires s <= 32 && y < Pow2(s) && x < Pow2(32 - s)
    ensures 0 <= Shl(s, x) && y + Shl(s, x) < B
  {
    Pow2Small();
    ShlBound(s, x, 32 - s);
    if x + 1 < Pow2(32 - s) { ShlMonotone(s, x + 1, Pow2(32 - s)); }
    ShlAdd(s, x, 1);
    ShlZero(s);
    Pow2Add(s, 32 - s);
  }

  // ---------------------------------------------------------------- left

  /** The state of the left shift before limb i is handled. */
  ghost predicate LeftInv(pn: seq<Limb>, a: seq<Limb>, shift: nat, i: nat, dropped: int)
    requires |a| == |pn| == WIDTH && i <= WIDTH
  {
    var k, s := shift / 32, shift % 32;
    && (forall j :: i + k < j < WIDTH ==> pn[j] == 0)
    && (i + k < WIDTH ==> pn[i + k] < Pow2(s))
    && Value(pn) + Shl(32 * WIDTH, dropped) == Shl(shift, Value(a[..i]))
  }

  /** The contribution of limb i to the shifted number. */
  lemma LeftTerm(a: seq<Limb>, i: nat, shift: nat)
    requires i < |a|
    ensures Shl(shift, Value(a[..i + 1]))
         == Shl(shift, Value(a[..i])) + Shl(32 * (i + shift / 32), Shl(shift % 32, a[i]))
  {
    var k, s := shift / 32, shift % 32;
    ValuePrefix(a, i);
    ShlAdd(shift, Value(a[..i]), Shl(32 * i, a[i]));
    ShlShl(shift, 32 * i, a[i]);
    ShlShl(32 * (i + k), s, a[i]);
    assert shift + 32 * i == 32 * (i + k) + s;
  }

  /** operator<<= */
  method ShiftLeft(pn: array<Limb>, shift: nat)
    requires Wide(pn)
    modifies pn
    ensures Val(pn) == Shl(shift, old(Val(pn))) % M()
  {
    var a := pn[..];
    SetZero(pn);
    ghost var dropped := 0;
    ShlZero(shift);
    ShlZero(32 * WIDTH);
    for i := 0 to WIDTH
      invariant LeftInv(pn[..], a, shift, i, dropped)
    {
      dropped := LeftLimb(pn, a, shift, i, dropped);
    }
    assert a[..WIDTH] == a;
    ValueBound(pn[..]);
    ShlDivMod(32 * WIDTH, Shl(shift, Value(a)), dropped, Val(pn));
  }

  method LeftLimb(pn: array<Limb>, a: seq<Limb>, shift: nat, i: nat, ghost dropped: int) returns (ghost dropped': int)
    requires Wide(pn) && i < WIDTH == |a| && LeftInv(pn[..], a, shift, i, dropped)
    modifies pn
    ensures LeftInv(pn[..], a, shift, i + 1, dropped')
  {
    var k, s := shift / 32, shift % 32;
    LeftTerm(a, i, shift);
    if i + k < WIDTH {
      ghost var hi := PlaceLeft(pn, i + k, a[i], s);
      dropped' := if i + k + 1 < WIDTH then dropped else dropped + hi;
      ShlAdd(32 * WIDTH, dropped, hi);
    } else {
      ghost var lost := Shl(32 * (i + k - WIDTH), Shl(s, a[i]));
      dropped' := dropped + lost;
      ShlAdd(32 * WIDTH, dropped, lost);
      ShlShl(32 * WIDTH, 32 * (i + k - WIDTH), Shl(s, a[i]));
      assert 32 * WIDTH + 32 * (i + k - WIDTH) == 32 * (i + k);
    }
  }

  /** Places a limb, shifted by s bits, at index j; the upper part goes to the next index if there is one. */
  method PlaceLeft(pn: array<Limb>, j: nat, a: Limb, s: nat) returns (ghost hi: int)
    requires Wide(pn) && j < WIDTH && s < 32 && pn[j] < Pow2(s) && forall l :: j < l < WIDTH ==> pn[l] == 0
    modifies pn
    ensures Val(pn) + (if j + 1 < WIDTH then 0 else Shl(32 * WIDTH, hi)) == old(Val(pn)) + Shl(32 * j, Shl(s, a))
    ensures forall l :: j + 1 < l < WIDTH ==> pn[l] == 0
    ensures j + 1 < WIDTH ==> pn[j + 1] < Pow2(s)
  {
    SplitLimb(a, s);
    hi := a / Pow2(32 - s);
    ghost var x := a % Pow2(32 - s);
    ShlAdd(32 * j, Shl(s, x), B * hi);
    ShlLimb(j, hi);
    if j + 1 < WIDTH && s != 0 {
      OrZeroInto(pn, j + 1, a / Pow2(32 - s));
    } else if s == 0 {
      ShlZero(32 * (j + 1));
    }
    OrFits(pn[j], x, s);
    OrInto(pn, j, Shl(s, a) % B, s, x);
  }

  // ---------------------------------------------------------------- right

  /** The state of the right shift before limb i is handled; `rest` are the bits shifted out so far. */
  ghost predicate RightInv(pn: seq<Limb>, a: seq<Limb>, shift: nat, i: nat, rest: int)
    requires |a| == |pn| == WIDTH && i <= WIDTH
  {
    var k, s := shift / 32, shift % 32;
    && (forall j :: 0 <= j < WIDTH && i - k <= j ==> pn[j] == 0)
    && (i > k ==> pn[i - k - 1] < Pow2(32 - s))
    && Shl(shift, Value(pn)) + rest == Value(a[..i])
    && 0 <= rest < Pow2(if i <= k then 32 * i else shift)
  }

  /** operator>>= */
  method ShiftRight(pn: array<Limb>, shift: nat)
    requires Wide(pn)
    modifies pn
    ensures Val(pn) == old(Val(pn)) / Pow2(shift)
  {
    var a := pn[..];
    SetZero(pn);
    ghost var rest := 0;
    ShlZero(shift);
    for i := 0 to WIDTH
      invariant RightInv(pn[..], a, shift, i, rest)
    {
      rest := RightLimb(pn, a, shift, i, rest);
    }
    assert a[..WIDTH] == a;
    if WIDTH <= shift / 32 { Pow2Monotone(32 * WIDTH, shift); }
    ShlDivMod(shift, Value(a), Val(pn), rest);
  }

  method RightLimb(pn: array<Limb>, a: seq<Limb>, shift: nat, i: nat, ghost rest: int) returns (ghost rest': int)
    requires Wide(pn) && i < WIDTH == |a| && RightInv(pn[..], a, shift, i, rest)
    modifies pn
    ensures RightInv(pn[..], a, shift, i + 1, rest')
  {
    var k, s := shift / 32, shift % 32;
    ValuePrefix(a, i);
    if i < k {
      rest' := rest + Shl(32 * i, a[i]);
      RestGrows(rest, a[i], i);
    } else {
      ghost var before := Val(pn);
      PlaceRight(pn, i - k, a[i], s);
      rest' := if i == k then rest + Shl(32 * i, a[i] % Pow2(s)) else rest;
      RightTerm(before, Val(pn), a[i], shift, i);
      if i == k { RestFits(rest, a[i] % Pow2(s), 32 * i, s); }
    }
  }

  lemma RestGrows(rest: int, a: Limb, i: nat)
    requires 0 <= rest < Pow2(32 * i)
    ensures 0 <= rest + Shl(32 * i, a) < Pow2(32 * (i + 1))
  {
    Pow2Small();
    RestFits(rest, a, 32 * i, 32);
  }

  lemma RestFits(rest: int, x: int, n: nat, s: nat)
    requires 0 <= rest < Pow2(n) && 0 <= x < Pow2(s)
    ensures 0 <= rest + Shl(n, x) < Pow2(n + s)
  {
    ShlZero(n);
    if x > 0 { ShlMonotone(n, 0, x); }
    ShlAdd(n, x, 1);
    if x + 1 < Pow2(s) { ShlMonotone(n, x + 1, Pow2(s)); }
    Pow2Add(n, s);
  }

  /** Places a limb, shifted right by s bits, at index j; its lower bits go below, or are lost at index 0. */
  method PlaceRight(pn: array<Limb>, j: nat, a: Limb, s: nat)
    requires Wide(pn) && j < WIDTH && s < 32 && forall l :: j <= l < WIDTH ==> pn[l] == 0
    requires j > 0 ==> pn[j - 1] < Pow2(32 - s)
    modifies pn
    ensures forall l :: j + 1 <= l < WIDTH ==> pn[l] == 0
    ensures pn[j] < Pow2(32 - s)
    ensures Val(pn) == old(Val(pn)) + Shl(32 * j, a / Pow2(s))
                       + if j > 0 then Shl(32 * (j - 1), Shl(32 - s, a % Pow2(s))) else 0
  {
    SplitLimb(a, 32 - s);
    if j > 0 && s != 0 {
      OrFits(pn[j - 1], a % Pow2(s), 32 - s);
      OrInto(pn, j - 1, Shl(32 - s, a) % B, 32 - s, a % Pow2(s));
    } else if j > 0 {
      ShlZero(32);
      ShlZero(32 * (j - 1));
    }
    OrZeroInto(pn, j, a / Pow2(s));
  }

  /** What the placed parts of limb i stand for, before the shift. */
  lemma RightTerm(before: int, after: int, a: Limb, shift: nat, i: nat)
    requires i >= shift / 32
    requires var j, s := i - shift / 32, shift % 32;
      after == before + Shl(32 * j, a / Pow2(s)) + if j > 0 then Shl(32 * (j - 1), Shl(32 - s, a % Pow2(s))) else 0
    ensures Shl(shift, after) + (if i == shift / 32 then Shl(32 * i, a % Pow2(shift % 32)) else 0)
         == Shl(shift, before) + Shl(32 * i, a)
  {
    var k, s := shift / 32, shift % 32;
    var j := i - k;
    var hi, lo := a / Pow2(s), a % Pow2(s);
    ShlSplit(s, a);
    ShlAdd(32 * i, Shl(s, hi), lo);
    ShlShl(32 * i, s, hi);
    ShlShl(shift, 32 * j, hi);
    assert shift + 32 * j == 32 * i + s;
    ShlAdd(shift, before, Shl(32 * j, hi));
    if j > 0 {
      var low := Shl(32 * (j - 1), Shl(32 - s, lo));
      ShlAdd(shift, before + Shl(32 * j, hi), low);
      ShlShl(32 * (j - 1), 32 - s, lo);
      ShlShl(shift, 32 * (j - 1) + (32 - s), lo);
      assert shift + (32 * (j - 1) + (32 - s)) == 32 * i;
    }
  }
}
