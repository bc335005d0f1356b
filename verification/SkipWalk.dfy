/** How many turns the walk along skip links takes: at most k * (k + 1) / 2 from a height below 2^k. */
module SkipWalk {
  import opened Limbs
  import opened SkipHeight

  /** The height the walk goes to from h on its way down to t. */
  function NextHeight(h: nat, t: nat): (n: nat)
    requires t < h
    ensures t <= n < h
  {
    SkipHeightBounds(h);
    var skip, skipPrev := GetSkipHeight(h), GetSkipHeight(h - 1);
    if skip == t || (skip > t && !(skipPrev < skip - 2 && skipPrev >= t)) then skip else h - 1
  }

  function Turns(h: nat, t: nat): nat {
    if h <= t then 0 else 1 + Turns(NextHeight(h, t), t)
  }

  // ---------------------------------------------------------------- bits

  /** The number of set bits. */
  function Ones(n: nat): nat {
    if n == 0 then 0 else n % 2 + Ones(n / 2)
  }

  /** The k lowest bits are zero. */
  predicate Aligned(n: nat, k: nat) {
    k == 0 || (n % 2 == 0 && Aligned(n / 2, k - 1))
  }

  /** Clearing the lowest set bit, bit by bit. */
  lemma InvertHalf(n: nat)
    requires n > 0
    ensures InvertLowestOne(n) == if n % 2 == 1 then n - 1 else 2 * InvertLowestOne(n / 2)
  {
    if n % 2 == 1 { AndSelf(n / 2); }
  }

  lemma {:induction false} InvertOnes(n: nat)
    requires n > 0
    ensures Ones(n) == Ones(InvertLowestOne(n)) + 1 && InvertLowestOne(n) % 2 == 0
  {
    InvertHalf(n);
    if n % 2 == 0 { InvertOnes(n / 2); }
  }

  /** Bits above an aligned number's zeros do not matter. */
  lemma {:induction false} InvertAbove(m: nat, x: nat, k: nat)
    requires Aligned(m, k) && 0 < x < Pow2(k)
    ensures InvertLowestOne(m + x) == m + InvertLowestOne(x)
  {
    InvertHalf(m + x);
    InvertHalf(x);
    if x % 2 == 0 {
      assert (m + x) / 2 == m / 2 + x / 2;
      InvertAbove(m / 2, x / 2, k - 1);
    }
  }

  lemma InvertTwice(m: nat, x: nat, k: nat)
    requires Aligned(m, k) && 0 < x < Pow2(k) && InvertLowestOne(x) > 0
    ensures InvertLowestOne(InvertLowestOne(m + x)) == m + InvertLowestOne(InvertLowestOne(x))
  {
    InvertAbove(m, x, k);
    InvertDecreases(x);
    InvertAbove(m, InvertLowestOne(x), k);
  }

  lemma OneBit(x: nat) returns (s: nat)
    requires x > 0
    ensures s == InvertLowestOne(x) && s % 2 == 0 && s < x && Ones(x) == Ones(s) + 1
  {
    s := InvertLowestOne(x);
    InvertDecreases(x);
    InvertOnes(x);
  }

  lemma TwoBits(x: nat) returns (z: nat)
    requires x > 0 && InvertLowestOne(x) > 0
    ensures z == InvertLowestOne(InvertLowestOne(x)) && z % 2 == 0 && z < x && Ones(x) == Ones(z) + 2
  {
    z := InvertLowestOne(InvertLowestOne(x));
    InvertDecreases(x);
    InvertDecreases(InvertLowestOne(x));
    InvertOnes(x);
    InvertOnes(InvertLowestOne(x));
  }

  /** The middle of an aligned block: its lowest set bit is the one that leads into the upper half. */
  lemma {:induction false} InvertMiddle(base: nat, k: nat)
    requires Aligned(base, k + 1)
    ensures InvertLowestOne(base + Pow2(k)) == base && Aligned(base + Pow2(k), k)
  {
    InvertHalf(base + Pow2(k));
    if k > 0 {
      assert (base + Pow2(k)) / 2 == base / 2 + Pow2(k - 1);
      InvertMiddle(base / 2, k - 1);
    }
  }

  /** Between a number and what is left of it without its lowest set bit, clearing a bit does not go further down. */
  lemma {:induction false} InvertBetween(x: nat, y: nat)
    requires InvertLowestOne(x) < y < x
    ensures InvertLowestOne(y) >= InvertLowestOne(x)
  {
    InvertHalf(x);
    InvertHalf(y);
    if x % 2 == 0 && y % 2 == 0 { InvertBetween(x / 2, y / 2); }
  }

  lemma {:induction false} OnesBound(x: nat, k: nat)
    requires x < Pow2(k)
    ensures Ones(x) <= k
  {
    if k > 0 { OnesBound(x / 2, k - 1); }
  }

  lemma {:induction false} AlignedLess(n: nat, k: nat)
    requires Aligned(n, k + 1)
    ensures Aligned(n, k)
  {
    if k > 0 { AlignedLess(n / 2, k - 1); }
  }

  // ---------------------------------------------------------------- walks

  ghost predicate IsTurn(path: seq<nat>, t: nat, i: int)
    requires 0 <= i < |path| - 1
  {
    t < path[i] && path[i + 1] == NextHeight(path[i], t)
  }

  /** The heights of a walk down to t. */
  ghost predicate IsWalk(path: seq<nat>, t: nat) {
    path != [] && path[|path| - 1] == t && forall i :: 0 <= i < |path| - 1 ==> IsTurn(path, t, i)
  }

  /** The walk from h to t takes n turns. */
  ghost predicate Walks(h: nat, t: nat, n: nat) {
    exists path: seq<nat> :: IsWalk(path, t) && |path| == n + 1 && path[0] == h
  }

  /** The walk from h goes on as the one from g, some turns later. */
  ghost predicate Leads(h: nat, g: nat, t: nat, turns: nat) {
    forall n: nat :: Walks(g, t, n) ==> Walks(h, t, n + turns)
  }

  lemma NoTurn(t: nat)
    ensures Walks(t, t, 0)
  {
    assert IsWalk([t], t);
  }

  lemma OneTurn(h: nat, t: nat, g: nat)
    requires t < h && NextHeight(h, t) == g
    ensures Leads(h, g, t, 1)
  {
    forall n: nat | Walks(g, t, n) ensures Walks(h, t, n + 1) {
      var rest: seq<nat> :| IsWalk(rest, t) && |rest| == n + 1 && rest[0] == g;
      var path := [h] + rest;
      forall i | 0 <= i < |path| - 1 ensures IsTurn(path, t, i) {
        if i > 0 { assert IsTurn(rest, t, i - 1); }
      }
      assert IsWalk(path, t);
    }
  }

  lemma LeadsOn(h: nat, g: nat, f: nat, t: nat)
    requires Leads(h, g, t, 1) && Leads(g, f, t, 1)
    ensures Leads(h, f, t, 2)
  {
    forall n: nat | Walks(f, t, n) ensures Walks(h, t, n + 2) {
      assert Walks(g, t, n + 1);
      assert Walks(h, t, (n + 1) + 1);
    }
  }

  /** A walk is as long as counted. */
  lemma {:induction false} WalkTurns(path: seq<nat>, t: nat)
    requires IsWalk(path, t)
    ensures Turns(path[0], t) == |path| - 1
  {
    if |path| > 1 {
      var rest := path[1..];
      assert IsTurn(path, t, 0);
      forall i | 0 <= i < |rest| - 1 ensures IsTurn(rest, t, i) { assert IsTurn(path, t, i + 1); }
      WalkTurns(rest, t);
    }
  }

  /** From an odd height the skip is taken whenever it does not overshoot. */
  lemma OddTurn(h: nat, t: nat, s: nat)
    requires h % 2 == 1 && h >= 3 && t < h && s == GetSkipHeight(h)
    ensures Leads(h, if s >= t then s else h - 1, t, 1)
  {
    InvertDecreases(InvertLowestOne(h - 1));
    OneTurn(h, t, if s >= t then s else h - 1);
  }

  /** From an even height the block before may have the better skip. */
  lemma EvenTurn(h: nat, t: nat, s: nat, sp: nat)
    requires t < s == GetSkipHeight(h) && h % 2 == 0 && h >= 4 && sp == GetSkipHeight(h - 1) && t < h
    ensures Leads(h, if t <= sp < s - 2 then h - 1 else s, t, 1)
  {
    OneTurn(h, t, if t <= sp < s - 2 then h - 1 else s);
  }

  /** A height next to the target is one turn away. */
  lemma Close(h: nat, t: nat) returns (n: nat)
    requires t <= h <= t + 1
    ensures n <= 1 && Walks(h, t, n)
  {
    n := h - t;
    NoTurn(t);
    if n == 1 { OneTurn(h, t, t); }
  }

  /** The block [base, base + 2^(k+1)), its middle m, and a target in its lower half that m walks to in c turns. */
  ghost predicate Split(base: nat, k: nat, m: nat, t: nat, c: nat) {
    k >= 1 && Aligned(base, k + 1) && m == base + Pow2(k) && base <= t < m && c >= 1 && Walks(m, t, c)
  }

  // ---------------------------------------------------------------- from the upper half to the middle

  /** The upper half of a block with its middle. */
  ghost predicate Upper(base: nat, k: nat, m: nat, x: nat) {
    k >= 1 && Aligned(base, k + 1) && m == base + Pow2(k) && x < Pow2(k)
  }

  lemma MiddleEven(base: nat, k: nat, m: nat, x: nat)
    requires Upper(base, k, m, x)
    ensures m % 2 == 0 && m >= 2
  {
  }

  /** The skip of an odd height leads to the start of the block, or stays in the upper half with two bits fewer. */
  lemma OddSkip(base: nat, k: nat, m: nat, x: nat) returns (s: nat, z: nat)
    requires Upper(base, k, m, x) && x % 2 == 1
    ensures s == GetSkipHeight(m + x)
    ensures if x == 1 || InvertLowestOne(x - 1) == 0 then s <= base + 1 && (x > 1 ==> s == base + 1)
            else s == m + (z + 1) && z == InvertLowestOne(InvertLowestOne(x - 1))
  {
    s, z := GetSkipHeight(m + x), 0;
    if x == 1 {
      SkipNext(base, k, m, x);
    } else if InvertLowestOne(x - 1) == 0 {
      SkipPower(base, k, m, x - 1);
    } else {
      SkipTwo(base, k, m, x - 1);
      z := InvertLowestOne(InvertLowestOne(x - 1));
    }
  }

  lemma SkipNext(base: nat, k: nat, m: nat, x: nat)
    requires Upper(base, k, m, x)
    ensures GetSkipHeight(m + 1) <= base + 1
  {
    MiddleEven(base, k, m, x);
    InvertMiddle(base, k);
    InvertDecreases(base);
  }

  lemma SkipPower(base: nat, k: nat, m: nat, x: nat)
    requires Upper(base, k, m, x) && x % 2 == 0 && x >= 2 && InvertLowestOne(x) == 0
    ensures GetSkipHeight(m + (x + 1)) == base + 1
  {
    MiddleEven(base, k, m, x);
    InvertMiddle(base, k);
    InvertAbove(m, x, k);
    OddHeight(m + x, m, base);
  }

  lemma SkipTwo(base: nat, k: nat, m: nat, x: nat)
    requires Upper(base, k, m, x) && x % 2 == 0 && x >= 2 && InvertLowestOne(x) > 0
    ensures GetSkipHeight(m + (x + 1)) == m + (InvertLowestOne(InvertLowestOne(x)) + 1)
  {
    MiddleEven(base, k, m, x);
    InvertMiddle(base, k);
    InvertTwice(m, x, k);
    OddHeight(m + x, InvertLowestOne(m + x), m + InvertLowestOne(InvertLowestOne(x)));
  }

  lemma OddHeight(h: nat, a: nat, b: nat)
    requires h % 2 == 0 && h >= 2 && a == InvertLowestOne(h) && b == InvertLowestOne(a)
    ensures GetSkipHeight(h + 1) == b + 1
  {
  }

  lemma EvenSkip(base: nat, k: nat, m: nat, x: nat)
    requires Upper(base, k, m, x) && x % 2 == 0 && x >= 2
    ensures GetSkipHeight(m + x) == m + InvertLowestOne(x)
  {
    InvertMiddle(base, k);
    InvertAbove(m, x, k);
  }

  /** The turn from an odd height, the one after m + y: far down, or on with two bits fewer. */
  lemma FirstOdd(base: nat, k: nat, m: nat, t: nat, y: nat) returns (s: nat, z: nat, far: bool)
    requires Upper(base, k, m, y + 1) && y % 2 == 0 && base <= t < m
    ensures Leads(m + (y + 1), if s >= t then s else m + y, t, 1)
    ensures far ==> s <= base + 1
    ensures !far ==> s == m + (z + 1) && z % 2 == 0 && z < y && Ones(y) == Ones(z) + 2
    ensures far && y > 0 ==> Ones(y) == 1 && (s < t ==> Leads(m + y, m, t, 1))
  {
    MiddleEven(base, k, m, y + 1);
    s, z := OddSkip(base, k, m, y + 1);
    OddTurn(m + (y + 1), t, s);
    far := y == 0 || InvertLowestOne(y) == 0;
    if !far {
      z := TwoBits(y);
    } else if y > 0 {
      var zero := OneBit(y);
      if s < t { FromPower(base, k, m, t, y); }
    }
  }

  /** With one bit above the middle and a target beyond the start of the block, the skip is taken. */
  lemma FromPower(base: nat, k: nat, m: nat, t: nat, x: nat)
    requires Upper(base, k, m, x) && x % 2 == 0 && x >= 2 && InvertLowestOne(x) == 0 && base + 1 < t < m
    ensures Leads(m + x, m, t, 1)
  {
    MiddleEven(base, k, m, x);
    EvenSkip(base, k, m, x);
    var sp, z := OddSkip(base, k, m, x - 1);
    EvenTurn(m + x, t, m, sp);
  }

  /** From an odd height, the one after m + y: one turn for each two bits, then to the middle. */
  lemma {:induction false} FromOdd(base: nat, k: nat, m: nat, t: nat, c: nat, y: nat) returns (n: nat)
    requires Split(base, k, m, t, c) && y % 2 == 0 && y + 1 < Pow2(k)
    ensures n <= Ones(y) + 1 + c && Walks(m + (y + 1), t, n)
    decreases y
  {
    var s, z, far := FirstOdd(base, k, m, t, y);
    if far {
      n := FromFar(m, t, c, y, s);
    } else {
      n := FromOdd(base, k, m, t, c, z);
      n := n + 1;
    }
  }

  /** The end of the way: past the middle to the target, or to the middle. */
  lemma FromFar(m: nat, t: nat, c: nat, y: nat, s: nat) returns (n: nat)
    requires s <= t + 1 && c >= 1 && Walks(m, t, c) && Leads(m + (y + 1), if s >= t then s else m + y, t, 1)
    requires y > 0 ==> Ones(y) == 1 && (s < t ==> Leads(m + y, m, t, 1))
    ensures n <= Ones(y) + 1 + c && Walks(m + (y + 1), t, n)
  {
    if s >= t {
      n := Close(s, t);
      n := n + 1;
    } else if y == 0 {
      n := 1 + c;
    } else {
      LeadsOn(m + (y + 1), m + y, m, t);
      n := 2 + c;
    }
  }

  /** The turns from an even height: by its skip, or by that of the block before if it saves a bit more. */
  lemma FirstEven(base: nat, k: nat, m: nat, t: nat, x: nat) returns (s: nat, sp: nat, z: nat, far: bool)
    requires Upper(base, k, m, x) && x % 2 == 0 && x >= 2 && base <= t < m
    ensures s % 2 == 0 && s < x && Ones(x) == Ones(s) + 1
    ensures if t <= sp < m + s - 2 then Leads(m + x, sp, t, 2) else Leads(m + x, m + s, t, 1)
    ensures far ==> sp <= base + 1
    ensures !far && sp < m + s - 2 ==> sp == m + (z + 1) && z % 2 == 0 && z + 1 < x && Ones(z) + 2 <= Ones(x)
  {
    s := OneBit(x);
    sp, z := OddSkip(base, k, m, x - 1);
    EvenLeads(base, k, m, t, x, s, sp);
    far := x == 2 || InvertLowestOne(x - 2) == 0;
    if !far && sp < m + s - 2 { z := BitsSaved(x); }
  }

  lemma EvenLeads(base: nat, k: nat, m: nat, t: nat, x: nat, s: nat, sp: nat)
    requires Upper(base, k, m, x) && x % 2 == 0 && x >= 2 && base <= t < m
    requires s == InvertLowestOne(x) && sp == GetSkipHeight(m + x - 1)
    ensures if t <= sp < m + s - 2 then Leads(m + x, sp, t, 2) else Leads(m + x, m + s, t, 1)
  {
    MiddleEven(base, k, m, x);
    EvenSkip(base, k, m, x);
    EvenTurn(m + x, t, m + s, sp);
    if t <= sp < m + s - 2 {
      OddTurn(m + x - 1, t, sp);
      LeadsOn(m + x, m + x - 1, sp, t);
    }
  }

  /** From an even height: one turn for each bit, then to the middle. */
  lemma {:induction false} FromEven(base: nat, k: nat, m: nat, t: nat, c: nat, x: nat) returns (n: nat)
    requires Split(base, k, m, t, c) && x % 2 == 0 && 2 <= x < Pow2(k)
    ensures n <= Ones(x) + 1 + c && Walks(m + x, t, n)
    decreases x
  {
    var s, sp, z, far := FirstEven(base, k, m, t, x);
    if t <= sp < m + s - 2 {
      if far { n := Close(sp, t); } else { n := FromOdd(base, k, m, t, c, z); }
      n := n + 2;
    } else {
      n := c;
      if s > 0 { n := FromEven(base, k, m, t, c, s); }
      n := n + 1;
    }
  }

  /** A detour by the block before is only taken if it clears one more bit. */
  lemma BitsSaved(x: nat) returns (z: nat)
    requires x % 2 == 0 && x > 2 && InvertLowestOne(x - 2) > 0
    requires InvertLowestOne(InvertLowestOne(x - 2)) < InvertLowestOne(x)
    ensures z == InvertLowestOne(InvertLowestOne(x - 2)) && z % 2 == 0 && z < x - 2 && Ones(z) + 2 <= Ones(x)
  {
    var y := InvertLowestOne(x - 2);
    z := InvertLowestOne(y);
    InvertDecreases(x - 2);
    InvertDecreases(y);
    InvertOnes(y);
    InvertOnes(x);
    SameBit(x, y);
    if y == InvertLowestOne(x) {
    } else {
      InvertOnes(x - 2);
    }
  }

  /** Clearing a bit of x - 2 leaves what clearing one of x leaves, or x - 2 is that already. */
  lemma SameBit(x: nat, y: nat)
    requires x % 2 == 0 && x > 2 && y == InvertLowestOne(x - 2) > 0 && InvertLowestOne(y) < InvertLowestOne(x)
    ensures y == InvertLowestOne(x) || x - 2 == InvertLowestOne(x)
  {
    var s := InvertLowestOne(x);
    InvertOnes(x);
    InvertDecreases(x);
    InvertDecreases(x - 2);
    if s < x - 2 {
      InvertBetween(x, x - 2);
      if s < y { InvertBetween(x, y); }
    }
  }

  // ---------------------------------------------------------------- blocks

  /** The bound inside an aligned block of 2^k heights. */
  lemma {:induction false} BlockBound(base: nat, k: nat, h: nat, t: nat) returns (n: nat)
    requires Aligned(base, k) && base <= t <= h < base + Pow2(k)
    ensures n <= k * (k + 1) / 2 && Walks(h, t, n)
    decreases k, 0
  {
    if k == 0 {
      NoTurn(t);
      return 0;
    }
    var j := k - 1;
    var m := base + Pow2(j);
    Triangle(k);
    AlignedLess(base, j);
    InvertMiddle(base, j);
    if h < m {
      n := BlockBound(base, j, h, t);
    } else if m <= t {
      n := BlockBound(m, j, h, t);
    } else if j == 0 {
      n := Close(h, t);
    } else {
      var c := FromMiddle(base, j, m, t);
      n := FromUpper(base, j, m, t, c, h - m);
    }
  }

  lemma Triangle(k: nat)
    requires k > 0
    ensures k * (k + 1) / 2 == k + (k - 1) * k / 2
  {
    assert k * (k + 1) == 2 * k + (k - 1) * k;
  }

  /** From the middle: to the start of the block, or into the lower half. */
  lemma FromMiddle(base: nat, j: nat, m: nat, t: nat) returns (c: nat)
    requires j >= 1 && Aligned(base, j + 1) && m == base + Pow2(j) && base <= t < m
    ensures 1 <= c <= 1 + j * (j + 1) / 2 && Walks(m, t, c)
    decreases j, 1
  {
    InvertMiddle(base, j);
    AlignedLess(base, j);
    assert m % 2 == 0;
    if t == base {
      NoTurn(t);
      OneTurn(m, t, t);
      c := 1;
    } else {
      OneTurn(m, t, m - 1);
      c := BlockBound(base, j, m - 1, t);
      c := c + 1;
    }
  }

  /** From the upper half to the middle, in as many turns as there are lower bits. */
  lemma FromUpper(base: nat, j: nat, m: nat, t: nat, c: nat, x: nat) returns (n: nat)
    requires Split(base, j, m, t, c) && x < Pow2(j)
    ensures n <= j + c && Walks(m + x, t, n)
  {
    if x == 0 {
      n := c;
    } else if x % 2 == 1 {
      EvenOnes(x - 1, j);
      n := FromOdd(base, j, m, t, c, x - 1);
    } else {
      EvenOnes(x, j);
      n := FromEven(base, j, m, t, c, x);
    }
  }

  lemma EvenOnes(x: nat, j: nat)
    requires x % 2 == 0 && x < Pow2(j) && j > 0
    ensures Ones(x) <= j - 1
  {
    OnesBound(x / 2, j - 1);
  }

  lemma {:induction false} ZeroAligned(k: nat)
    ensures Aligned(0, k)
  {
    if k > 0 { ZeroAligned(k - 1); }
  }

  /** The walk from a height below 2^k to any lower height takes at most k * (k + 1) / 2 turns. */
  lemma TurnsBound(h: nat, t: nat, k: nat)
    requires h < Pow2(k)
    ensures Turns(h, t) <= k * (k + 1) / 2
  {
    if t <= h {
      ZeroAligned(k);
      var n := BlockBound(0, k, h, t);
      var path: seq<nat> :| IsWalk(path, t) && |path| == n + 1 && path[0] == h;
      WalkTurns(path, t);
    }
  }

  // ---------------------------------------------------------------- counting turns

  lemma LeadsNext(h: nat, g: nat, t: nat, turns: nat, skip: nat, skipPrev: nat)
    requires Leads(h, g, t, turns) && t < g && skip == GetSkipHeight(g) && skipPrev == GetSkipHeight(g - 1)
    ensures var f := if skip == t || (skip > t && !(skipPrev < skip - 2 && skipPrev >= t)) then skip else g - 1;
      Leads(h, f, t, turns + 1)
  {
    var f := NextHeight(g, t);
    OneTurn(g, t, f);
    forall n: nat | Walks(f, t, n) ensures Walks(h, t, n + (turns + 1)) {
      assert Walks(g, t, n + 1);
      assert Walks(h, t, (n + 1) + turns);
    }
  }

  lemma LeadsHome(h: nat, t: nat, turns: nat)
    requires Leads(h, t, t, turns)
    ensures turns == Turns(h, t) && forall k: nat :: h < Pow2(k) ==> turns <= k * (k + 1) / 2
  {
    NoTurn(t);
    assert Walks(h, t, 0 + turns);
    var path: seq<nat> :| IsWalk(path, t) && |path| == turns + 1 && path[0] == h;
    WalkTurns(path, t);
    forall k: nat | h < Pow2(k) ensures Turns(h, t) <= k * (k + 1) / 2 { TurnsBound(h, t, k); }
  }
}
