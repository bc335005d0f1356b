/**
 * The rolling Bloom filter.
 *
 * Every filter position holds two bits: zero, or the number (1 to 3) of the generation that wrote it
 * last. When a generation is full, the next one reuses the number of the oldest and first wipes it.
 * The filter is proved to report a key exactly when every position of the key was written by one of
 * the keys of the last three generations, so none of the last N keys is ever missed.
 */
module RollingBloom {

  type Key = seq<bv8>

  type Hash32 = x: int | 0 <= x < 0x1_0000_0000

  /** A filter position: a pair of words and a bit in both. */
  datatype Cell = Cell(pair: nat, bit: bv6)

  /** The keyed hash functions and the sizes of one filter. */
  datatype Params = Params(hash: (nat, Key) -> Hash32, hashFuncs: nat, words: nat, perGeneration: nat) {
    predicate WellFormed() { words > 0 && words % 2 == 0 }

    function CellAt(k: Key, n: nat): (c: Cell)
      requires WellFormed()
      ensures c.pair < words / 2
    {
      Cell(FastMod(hash(n, k), words) / 2, LowBits(hash(n, k)))
    }

    ghost predicate Covers(k: Key, c: Cell)
      requires WellFormed()
    {
      exists n: nat :: n < hashFuncs && CellAt(k, n) == c
    }
  }

  function LowBits(h: Hash32): bv6 { (h % 64) as bv6 }

  /** Maps a 32-bit hash evenly to a range, without a division by the range. */
  function FastMod(x: Hash32, n: nat): (r: nat)
    requires n > 0
    ensures r < n
  {
    ScaleBound(x, n);
    x * n / 0x1_0000_0000
  }

  lemma ScaleBound(x: Hash32, n: nat)
    requires n > 0
    ensures 0 <= x * n < 0x1_0000_0000 * n
  {
  }

  // ---------------------------------------------------------------- single bits of a word

  predicate Bit(w: bv64, b: bv6) { (w >> b) & 1 == 1 }

  function Mask(on: bool): bv64 { if on then 0xFFFF_FFFF_FFFF_FFFF else 0 }

  /** The word with one bit replaced. */
  function Mark(w: bv64, b: bv6, on: bool): bv64 {
    (w & !((1 as bv64) << b)) | ((if on then 1 as bv64 else 0) << b)
  }

  lemma AndBit(x: bv64, y: bv64, b: bv6)
    ensures Bit(x & y, b) <==> Bit(x, b) && Bit(y, b)
  {
  }

  lemma OrBit(x: bv64, y: bv64, b: bv6)
    ensures Bit(x | y, b) <==> Bit(x, b) || Bit(y, b)
  {
  }

  lemma XorBit(x: bv64, on: bool, b: bv6)
    ensures Bit(x ^ Mask(on), b) <==> Bit(x, b) != on
  {
  }

  lemma MarkBit(w: bv64, b: bv6, on: bool, c: bv6)
    ensures Bit(Mark(w, b, on), c) <==> if b == c then on else Bit(w, c)
  {
  }

  lemma ZeroBit(b: bv6)
    ensures !Bit(0, b)
  {
  }

  /** The generation number stored in two words at one bit. */
  function Stored(w1: bv64, w2: bv64, b: bv6): int {
    (if Bit(w1, b) then 1 else 0) + (if Bit(w2, b) then 2 else 0)
  }

  predicate IsGeneration(g: int) { 1 <= g <= 3 }

  /** The mask that keeps every position except those of the given generation. */
  function WipeMask(w1: bv64, w2: bv64, g: int): bv64
    requires IsGeneration(g)
  {
    (w1 ^ Mask(g % 2 == 1)) | (w2 ^ Mask(g / 2 == 1))
  }

  lemma WipeMaskBit(w1: bv64, w2: bv64, g: int, b: bv6)
    requires IsGeneration(g)
    ensures Bit(WipeMask(w1, w2, g), b) <==> Stored(w1, w2, b) != g
  {
    var on1, on2 := g % 2 == 1, g / 2 == 1;
    var x1, x2 := w1 ^ Mask(on1), w2 ^ Mask(on2);
    XorBit(w1, on1, b);
    XorBit(w2, on2, b);
    OrBit(x1, x2, b);
    Differs(Bit(w1, b), Bit(w2, b), Bit(x1, b), Bit(x2, b), Bit(x1 | x2, b), g);
  }

  /** A stored number is not the given one exactly if one of its two bits differs. */
  lemma Differs(b1: bool, b2: bool, x1: bool, x2: bool, either: bool, g: int)
    requires IsGeneration(g) && (x1 <==> b1 != (g % 2 == 1)) && (x2 <==> b2 != (g / 2 == 1)) && (either <==> x1 || x2)
    ensures either <==> (if b1 then 1 else 0) + (if b2 then 2 else 0) != g
  {
  }

  /** The wipe clears exactly the positions of the reused generation. */
  lemma WipeExact(w1: bv64, w2: bv64, mask: bv64, g: int, b: bv6)
    requires IsGeneration(g) && mask == WipeMask(w1, w2, g)
    ensures Stored(w1 & mask, w2 & mask, b) == if Stored(w1, w2, b) == g then 0 else Stored(w1, w2, b)
  {
    WipeMaskBit(w1, w2, g, b);
    KeepMasked(w1, w2, mask, b);
  }

  lemma KeepMasked(w1: bv64, w2: bv64, mask: bv64, b: bv6)
    ensures Stored(w1 & mask, w2 & mask, b) == if Bit(mask, b) then Stored(w1, w2, b) else 0
  {
    AndBit(w1, mask, b);
    AndBit(w2, mask, b);
  }

  /** Marking a position stores the generation there and nowhere else. */
  lemma MarkStored(w1: bv64, w2: bv64, g: int, b: bv6, c: bv6)
    requires IsGeneration(g)
    ensures Stored(Mark(w1, b, g % 2 == 1), Mark(w2, b, g / 2 == 1), c) == if b == c then g else Stored(w1, w2, c)
  {
    MarkBit(w1, b, g % 2 == 1, c);
    MarkBit(w2, b, g / 2 == 1, c);
  }

  // ---------------------------------------------------------------- what the filter should hold

  /** Entries in the current generation, its number, and how many generations were started before it. */
  datatype Clock = Clock(count: nat, gen: int, epoch: nat)

  function Tick(perGeneration: nat, c: Clock): Clock {
    if c.count == perGeneration then Clock(1, if c.gen == 3 then 1 else c.gen + 1, c.epoch + 1)
    else c.(count := c.count + 1)
  }

  function ClockAfter(perGeneration: nat, n: nat): (c: Clock)
    ensures c.gen == c.epoch % 3 + 1
  {
    if n == 0 then Clock(0, 1, 0) else Tick(perGeneration, ClockAfter(perGeneration, n - 1))
  }

  /** The epoch of the last key that covers the cell; -3 if there is none. */
  ghost function LastEpoch(p: Params, history: seq<Key>, c: Cell): int
    requires p.WellFormed()
  {
    if history == [] then -3
    else if p.Covers(history[|history| - 1], c) then ClockAfter(p.perGeneration, |history|).epoch
    else LastEpoch(p, history[..|history| - 1], c)
  }

  /** What a position holds when `epoch` is current: three generations are remembered. */
  ghost function Stamp(p: Params, history: seq<Key>, c: Cell, epoch: int): int
    requires p.WellFormed()
  {
    var last := LastEpoch(p, history, c);
    if last < epoch - 2 then 0 else last % 3 + 1
  }

  /** The filter reports the key. */
  ghost predicate Reported(p: Params, history: seq<Key>, k: Key)
    requires p.WellFormed()
  {
    forall n: nat :: n < p.hashFuncs ==>
      Stamp(p, history, p.CellAt(k, n), ClockAfter(p.perGeneration, |history|).epoch) != 0
  }

  lemma {:induction false} LastEpochBounds(p: Params, history: seq<Key>, c: Cell)
    requires p.WellFormed()
    ensures -3 <= LastEpoch(p, history, c) <= ClockAfter(p.perGeneration, |history|).epoch
    ensures LastEpoch(p, history, c) == -3 || LastEpoch(p, history, c) >= 0
  {
    if history != [] { LastEpochBounds(p, history[..|history| - 1], c); }
  }

  /** Starting a generation: wiping its number is exactly forgetting the oldest generation. */
  lemma WipeForgets(p: Params, history: seq<Key>, c: Cell)
    requires p.WellFormed()
    ensures var e := ClockAfter(p.perGeneration, |history|).epoch;
      var s := Stamp(p, history, c, e);
      Stamp(p, history, c, e + 1) == if s == (e + 1) % 3 + 1 then 0 else s
  {
    LastEpochBounds(p, history, c);
  }

  lemma {:induction false} EpochMonotone(perGeneration: nat, i: nat, j: nat)
    requires i <= j
    ensures ClockAfter(perGeneration, i).epoch <= ClockAfter(perGeneration, j).epoch
    decreases j
  {
    if i < j { EpochMonotone(perGeneration, i, j - 1); }
  }

  /** The last writer of a cell is at least as recent as any writer of it. */
  lemma {:induction false} LastEpochIsLatest(p: Params, history: seq<Key>, j: nat, c: Cell)
    requires p.WellFormed() && j < |history| && p.Covers(history[j], c)
    ensures LastEpoch(p, history, c) >= ClockAfter(p.perGeneration, j + 1).epoch
    decreases |history|
  {
    var n := |history|;
    if p.Covers(history[n - 1], c) {
      EpochMonotone(p.perGeneration, j + 1, n);
    } else {
      LastEpochIsLatest(p, history[..n - 1], j, c);
    }
  }

  /** The epoch of the last writer is the epoch of some key that covers the cell. */
  lemma {:induction false} LastEpochIsAttained(p: Params, history: seq<Key>, c: Cell)
    requires p.WellFormed() && LastEpoch(p, history, c) >= 0
    ensures exists j: nat :: j < |history| && p.Covers(history[j], c)
                             && ClockAfter(p.perGeneration, j + 1).epoch == LastEpoch(p, history, c)
    decreases |history|
  {
    var n := |history|;
    if p.Covers(history[n - 1], c) {
      assert n - 1 < |history|;
    } else {
      LastEpochIsAttained(p, history[..n - 1], c);
      var j: nat :| j < n - 1 && p.Covers(history[..n - 1][j], c)
                    && ClockAfter(p.perGeneration, j + 1).epoch == LastEpoch(p, history[..n - 1], c);
      assert p.Covers(history[j], c);
    }
  }

  /** Key j belongs to one of the last three generations. */
  ghost predicate InWindow(p: Params, history: seq<Key>, j: nat) {
    j < |history| && ClockAfter(p.perGeneration, j + 1).epoch >= ClockAfter(p.perGeneration, |history|).epoch - 2
  }

  /** The exact law: a key is reported iff every position of it was written by a key of the last three generations. */
  lemma ReportedIff(p: Params, history: seq<Key>, k: Key)
    requires p.WellFormed()
    ensures Reported(p, history, k) <==> forall n: nat :: n < p.hashFuncs ==> Recent(p, history, p.CellAt(k, n))
  {
    forall n: nat | n < p.hashFuncs
      ensures Stamp(p, history, p.CellAt(k, n), ClockAfter(p.perGeneration, |history|).epoch) != 0
         <==> Recent(p, history, p.CellAt(k, n))
    {
      StampIff(p, history, p.CellAt(k, n));
    }
  }

  /** Some key of the last three generations covers the cell. */
  ghost predicate Recent(p: Params, history: seq<Key>, c: Cell)
    requires p.WellFormed()
  {
    exists j: nat :: InWindow(p, history, j) && p.Covers(history[j], c)
  }

  lemma StampIff(p: Params, history: seq<Key>, c: Cell)
    requires p.WellFormed()
    ensures Stamp(p, history, c, ClockAfter(p.perGeneration, |history|).epoch) != 0 <==> Recent(p, history, c)
  {
    var e: int := ClockAfter(p.perGeneration, |history|).epoch;
    LastEpochBounds(p, history, c);
    if LastEpoch(p, history, c) >= e - 2 && LastEpoch(p, history, c) >= 0 {
      LastEpochIsAttained(p, history, c);
      var j: nat :| j < |history| && p.Covers(history[j], c)
                    && ClockAfter(p.perGeneration, j + 1).epoch == LastEpoch(p, history, c);
      assert InWindow(p, history, j);
    }
    forall j: nat | InWindow(p, history, j) && p.Covers(history[j], c) ensures LastEpoch(p, history, c) >= e - 2 {
      LastEpochIsLatest(p, history, j, c);
    }
  }

  /** No false negatives: every key of the last three generations is reported. */
  lemma RecentIsReported(p: Params, history: seq<Key>, j: nat)
    requires p.WellFormed() && InWindow(p, history, j)
    ensures Reported(p, history, history[j])
  {
    forall n: nat | n < p.hashFuncs
      ensures Stamp(p, history, p.CellAt(history[j], n), ClockAfter(p.perGeneration, |history|).epoch) != 0
    {
      assert p.Covers(history[j], p.CellAt(history[j], n));
      StampIff(p, history, p.CellAt(history[j], n));
    }
  }

  lemma {:induction false} EpochIsQuotient(perGeneration: nat, n: nat)
    requires perGeneration > 0 && n > 0
    ensures var c := ClockAfter(perGeneration, n);
      c.epoch * perGeneration + c.count == n && 1 <= c.count <= perGeneration
  {
    if n > 1 { EpochIsQuotient(perGeneration, n - 1); }
  }

  lemma WindowWidth(g: nat, ea: nat, ca: nat, eb: nat, cb: nat)
    requires 1 <= ca <= g && 1 <= cb <= g && eb * g + cb <= ea * g + ca - 1 + 2 * g
    ensures ea >= eb - 2
  {
    assert eb >= ea + 3 ==> eb * g >= (ea + 3) * g;
  }

  /** The advertised guarantee: each of the last N keys is reported, when a generation holds half of N rounded up. */
  lemma LastKeysAreReported(p: Params, history: seq<Key>, nElements: nat, j: nat)
    requires p.WellFormed() && p.perGeneration == (nElements + 1) / 2
    requires j < |history| && j >= |history| - nElements
    ensures Reported(p, history, history[j])
  {
    var g := p.perGeneration;
    EpochIsQuotient(g, j + 1);
    EpochIsQuotient(g, |history|);
    var a, b := ClockAfter(g, j + 1), ClockAfter(g, |history|);
    WindowWidth(g, a.epoch, a.count, b.epoch, b.count);
    RecentIsReported(p, history, j);
  }
}
