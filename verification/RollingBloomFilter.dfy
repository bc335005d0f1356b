/** The rolling Bloom filter's words and counters, updated in place and proved to follow the history of keys. */
module RollingBloomFilter {
  import opened RollingBloom

  /** Clears all positions of a pair of words that hold the given generation. */
  method WipeWords(p1: bv64, p2: bv64, g: int) returns (w1: bv64, w2: bv64)
    requires IsGeneration(g)
    ensures forall b: bv6 :: Stored(w1, w2, b) == if Stored(p1, p2, b) == g then 0 else Stored(p1, p2, b)
  {
    var mask := WipeMask(p1, p2, g);
    w1, w2 := p1 & mask, p2 & mask;
    forall b: bv6 ensures Stored(w1, w2, b) == if Stored(p1, p2, b) == g then 0 else Stored(p1, p2, b) {
      WipeExact(p1, p2, mask, g, b);
    }
  }

  /** A position of a pair of words is not empty. */
  method EitherBit(w1: bv64, w2: bv64, b: bv6) returns (r: bool)
    ensures r <==> Stored(w1, w2, b) != 0
  {
    OrBit(w1, w2, b);
    r := Bit(w1 | w2, b);
  }

  /** All positions of a pair of words after a mark. */
  lemma MarkWord(w1: bv64, w2: bv64, v1: bv64, v2: bv64, g: int, bit: bv6)
    requires IsGeneration(g) && v1 == Mark(w1, bit, g % 2 == 1) && v2 == Mark(w2, bit, g / 2 == 1)
    ensures forall b: bv6 :: Stored(v1, v2, b) == if bit == b then g else Stored(w1, w2, b)
  {
    forall b: bv6 ensures Stored(v1, v2, b) == if bit == b then g else Stored(w1, w2, b) {
      MarkStored(w1, w2, g, bit, b);
    }
  }

  /** One of the first n hash functions takes the key to the position. */
  ghost predicate HitsBefore(p: Params, k: Key, c: Cell, n: int)
    requires p.WellFormed()
  {
    exists m: nat :: m < n && p.CellAt(k, m) == c
  }

  lemma HitsNext(p: Params, k: Key, c: Cell, n: nat)
    requires p.WellFormed()
    ensures HitsBefore(p, k, c, n + 1) <==> HitsBefore(p, k, c, n) || p.CellAt(k, n) == c
  {
    if HitsBefore(p, k, c, n + 1) {
      var m: nat :| m < n + 1 && p.CellAt(k, m) == c;
      assert m == n || m < n;
    }
  }

  class Filter {
    const nEntriesPerGeneration: nat
    const nHashFuncs: nat
    const data: array<bv64>
    var nEntriesThisGeneration: nat
    var nGeneration: int
    var hash: (nat, Key) -> Hash32
    /** The keys inserted since the last reset. */
    ghost var history: seq<Key>

    function P(): Params
      reads this
    {
      Params(hash, nHashFuncs, data.Length, nEntriesPerGeneration)
    }

    ghost function StoredAt(c: Cell): int
      requires data.Length % 2 == 0 && c.pair < data.Length / 2
      reads data
    {
      Stored(data[2 * c.pair], data[2 * c.pair + 1], c.bit)
    }

    /** Every position holds its stamp. */
    ghost predicate Stamped(p: Params, keys: seq<Key>, epoch: int)
      requires p.WellFormed() && data.Length % 2 == 0
      reads data
    {
      forall c: Cell :: c.pair < data.Length / 2 ==> StoredAt(c) == Stamp(p, keys, c, epoch)
    }

    ghost predicate Valid()
      reads this, data
    {
      && P().WellFormed()
      && var clock := ClockAfter(nEntriesPerGeneration, |history|);
         && nEntriesThisGeneration == clock.count && nGeneration == clock.gen
         && Stamped(P(), history, clock.epoch)
    }

    constructor (words: nat, hashFuncs: nat, entriesPerGeneration: nat, hash: (nat, Key) -> Hash32)
      requires words > 0 && words % 2 == 0
      ensures Valid() && history == [] && fresh(data)
      ensures P() == Params(hash, hashFuncs, words, entriesPerGeneration)
    {
      nEntriesPerGeneration, nHashFuncs, this.hash := entriesPerGeneration, hashFuncs, hash;
      data := new bv64[words];
      nEntriesThisGeneration, nGeneration, history := 0, 1, [];
      new;
      Reset(hash);
    }

    /** Forgets everything and changes the hash functions. */
    method Reset(newHash: (nat, Key) -> Hash32)
      requires data.Length > 0 && data.Length % 2 == 0
      modifies this, data
      ensures Valid() && history == [] && hash == newHash
    {
      hash := newHash;
      nEntriesThisGeneration, nGeneration, history := 0, 1, [];
      for i := 0 to data.Length
        modifies data
        invariant forall j :: 0 <= j < i ==> data[j] == 0
      {
        data[i] := 0;
      }
      forall c: Cell | c.pair < data.Length / 2 ensures StoredAt(c) == Stamp(P(), history, c, 0) {
        ZeroBit(c.bit);
      }
    }

    /** Clears the positions of the generation number that is about to be reused. */
    method Wipe(g: int)
      requires data.Length % 2 == 0 && IsGeneration(g)
      modifies data
      ensures forall c: Cell :: c.pair < data.Length / 2 ==> StoredAt(c) == if old(StoredAt(c)) == g then 0
        else old(StoredAt(c))
    {
      var p := 0;
      while p < data.Length
        invariant 0 <= p <= data.Length && p % 2 == 0
        invariant forall c: Cell :: p <= 2 * c.pair < data.Length ==> StoredAt(c) == old(StoredAt(c))
        invariant forall c: Cell :: 2 * c.pair < p ==> StoredAt(c) == if old(StoredAt(c)) == g then 0
          else old(StoredAt(c))
      {
        WipePair(p / 2, g);
        p := p + 2;
      }
    }

    /** The body of the wipe loop. */
    method WipePair(i: nat, g: int)
      requires data.Length % 2 == 0 && i < data.Length / 2 && IsGeneration(g)
      modifies data
      ensures forall c: Cell :: c.pair < data.Length / 2 ==>
        StoredAt(c) == if c.pair == i && old(StoredAt(c)) == g then 0 else old(StoredAt(c))
    {
      var p1, p2 := data[2 * i], data[2 * i + 1];
      var w1, w2 := WipeWords(p1, p2, g);
      SetPair(i, w1, w2);
    }

    method SetPair(i: nat, w1: bv64, w2: bv64)
      requires data.Length % 2 == 0 && i < data.Length / 2
      modifies data
      ensures forall c: Cell :: c.pair < data.Length / 2 ==>
        StoredAt(c) == if c.pair == i then Stored(w1, w2, c.bit) else old(StoredAt(c))
    {
      data[2 * i] := w1;
      data[2 * i + 1] := w2;
    }

    /** Writes the current generation number into one position. */
    method MarkCell(pos: nat, bit: bv6, g: int)
      requires data.Length % 2 == 0 && pos < data.Length && IsGeneration(g)
      modifies data
      ensures forall c: Cell :: c.pair < data.Length / 2 ==>
        StoredAt(c) == if c == Cell(pos / 2, bit) then g else old(StoredAt(c))
    {
      var i := pos / 2;
      var w1, w2 := data[2 * i], data[2 * i + 1];
      var v1, v2 := Mark(w1, bit, g % 2 == 1), Mark(w2, bit, g / 2 == 1);
      MarkWord(w1, w2, v1, v2, g, bit);
      SetPair(i, v1, v2);
    }

    /** insert: starts a new generation when the current one is full, then marks all positions of the key. */
    method Insert(vKey: Key)
      requires Valid()
      modifies this, data
      ensures Valid() && history == old(history) + [vKey] && hash == old(hash)
    {
      ghost var after := ClockAfter(nEntriesPerGeneration, |history| + 1);
      if nEntriesThisGeneration == nEntriesPerGeneration {
        StartGeneration();
      }
      nEntriesThisGeneration := nEntriesThisGeneration + 1;
      MarkKey(vKey, after.epoch);
      history := history + [vKey];
    }

    /** The positions then hold what they would have held had the next generation already begun. */
    method StartGeneration()
      requires Valid() && nEntriesThisGeneration == nEntriesPerGeneration
      modifies this`nEntriesThisGeneration, this`nGeneration, data
      ensures nEntriesThisGeneration == 0
      ensures var after := ClockAfter(nEntriesPerGeneration, |history| + 1);
        nGeneration == after.gen == after.epoch % 3 + 1 && after.count == 1 && Stamped(P(), history, after.epoch)
    {
      ghost var p, after := P(), ClockAfter(nEntriesPerGeneration, |history| + 1);
      nEntriesThisGeneration := 0;
      nGeneration := nGeneration + 1;
      if nGeneration == 4 { nGeneration := 1; }
      Wipe(nGeneration);
      forall c: Cell | c.pair < data.Length / 2 ensures StoredAt(c) == Stamp(p, history, c, after.epoch) {
        WipeForgets(p, history, c);
      }
    }

    /** The first n positions of the key are marked, every other position holds its stamp. */
    ghost predicate Marked(p: Params, vKey: Key, n: int, epoch: int)
      requires p.WellFormed() && data.Length % 2 == 0
      reads this, data
    {
      forall c: Cell :: c.pair < data.Length / 2 ==>
        StoredAt(c) == if HitsBefore(p, vKey, c, n) then nGeneration else Stamp(p, history, c, epoch)
    }

    /** The loop over the hash functions. */
    method MarkKey(vKey: Key, ghost epoch: nat)
      requires P().WellFormed() && Stamped(P(), history, epoch) && nGeneration == epoch % 3 + 1
      requires epoch == ClockAfter(nEntriesPerGeneration, |history| + 1).epoch
      modifies data
      ensures Stamped(P(), history + [vKey], epoch)
    {
      ghost var p := P();
      for n := 0 to nHashFuncs
        invariant Marked(p, vKey, n, epoch)
      {
        MarkNext(vKey, n, epoch);
      }
      forall c: Cell | c.pair < data.Length / 2 ensures StoredAt(c) == Stamp(p, history + [vKey], c, epoch) {
        assert (history + [vKey])[..|history|] == history;
        assert p.Covers(vKey, c) <==> HitsBefore(p, vKey, c, nHashFuncs);
      }
    }

    /** Marks the position given by one hash function. */
    method MarkNext(vKey: Key, n: nat, ghost epoch: nat)
      requires P().WellFormed() && Marked(P(), vKey, n, epoch) && n < nHashFuncs && IsGeneration(nGeneration)
      modifies data
      ensures Marked(P(), vKey, n + 1, epoch)
    {
      ghost var p := P();
      var h := hash(n, vKey);
      var bit := LowBits(h);
      var pos := FastMod(h, data.Length);
      assert p.CellAt(vKey, n) == Cell(pos / 2, bit);
      MarkCell(pos, bit, nGeneration);
      forall c: Cell | c.pair < data.Length / 2
        ensures StoredAt(c) == if HitsBefore(p, vKey, c, n + 1) then nGeneration else Stamp(p, history, c, epoch)
      {
        HitsNext(p, vKey, c, n);
      }
    }

    /** contains: false as soon as one position is empty. */
    method Contains(vKey: Key) returns (found: bool)
      requires Valid()
      ensures found <==> Reported(P(), history, vKey)
    {
      ghost var epoch := ClockAfter(nEntriesPerGeneration, |history|).epoch;
      for n := 0 to nHashFuncs
        invariant forall m: nat :: m < n ==> Stamp(P(), history, P().CellAt(vKey, m), epoch) != 0
      {
        var used := InUse(vKey, n, epoch);
        if !used { return false; }
      }
      return true;
    }

    /** The position given by one hash function is not empty. */
    method InUse(vKey: Key, n: nat, ghost epoch: int) returns (used: bool)
      requires P().WellFormed() && Stamped(P(), history, epoch) && n < nHashFuncs
      ensures used <==> Stamp(P(), history, P().CellAt(vKey, n), epoch) != 0
    {
      var h := hash(n, vKey);
      var bit := LowBits(h);
      var pos := FastMod(h, data.Length);
      var lo := pos - pos % 2;
      ghost var c := P().CellAt(vKey, n);
      assert c == Cell(pos / 2, bit) && StoredAt(c) == Stamp(P(), history, c, epoch) && lo == 2 * c.pair;
      used := EitherBit(data[lo], data[lo + 1], bit);
    }
  }
}
