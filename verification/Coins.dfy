/**
 * The layered UTXO cache, as values.
 *
 * A store is a database with any number of write-back caches stacked on it. Every level
 * shows a view: its own entry if it caches one (a spent coin counts as absent), otherwise
 * what the level below shows. The operations below are the ones of CCoinsViewCache; the
 * lemmas show that a whole stack behaves like a stack of flat maps from outpoint to coin.
 */
module Coins {
  import opened Common

  datatype OutPoint = OutPoint(hash: nat, n: nat)

  /** A block hash; zero is the null hash. */
  type Hash = nat

  datatype Coin = Coin(value: int, script: seq<nat>, coinBase: bool, height: nat) {
    predicate IsSpent() { value == -1 }

    /** OP_RETURN scripts and oversized scripts can never be spent. */
    predicate IsUnspendable() {
      (|script| > 0 && script[0] == 0x6a) || |script| > 10000
    }

    /** Heap bytes of the script: none up to 28 bytes, otherwise a malloc block. */
    function DynamicMemoryUsage(): nat {
      if |script| <= 28 then 0 else (|script| + 31) / 16 * 16
    }

    /** What a view shows for a cached coin. */
    function Visible(): Option<UnspentCoin> {
      if IsSpent() then None else Some(this)
    }
  }

  /** Only unspent coins can be serialized, so a database holds no others. */
  type UnspentCoin = c: Coin | !c.IsSpent() witness Coin(0, [], false, 0)

  const EMPTY_COIN := Coin(-1, [], false, 0)

  datatype Entry = Entry(coin: Coin, dirty: bool, isFresh: bool)

  type CoinsMap = map<OutPoint, Entry>

  datatype Store =
    | Db(coins: map<OutPoint, UnspentCoin>, best: Hash)
    | Cache(cache: CoinsMap, usage: int, hash: Hash, base: Store)

  /** The abstract view: the unspent coin a level shows for an outpoint, if any. */
  function Lookup(s: Store, k: OutPoint): Option<UnspentCoin> {
    match s
    case Db(coins, _) => Get(coins, k)
    case Cache(cache, _, _, base) =>
      if k in cache then cache[k].coin.Visible() else Lookup(base, k)
  }

  function Depth(s: Store): nat {
    if s.Db? then 0 else 1 + Depth(s.base)
  }

  ghost function UsageSum(m: CoinsMap): int {
    Sum(map k | k in m :: m[k].coin.DynamicMemoryUsage())
  }

  /** What the flags of an entry promise about the view below. */
  ghost predicate EntrySound(e: Entry, below: Option<UnspentCoin>) {
    && (e.isFresh ==> below.None? && e.dirty)
    && (!e.dirty ==> e.coin.Visible() == below && !e.coin.IsSpent())
  }

  ghost predicate CacheSound(m: CoinsMap, base: Store) {
    forall k :: k in m ==> EntrySound(m[k], Lookup(base, k))
  }

  /** The stack invariant that makes the FRESH optimisation sound. */
  ghost predicate Inv(s: Store) {
    match s
    case Db(_, _) => true
    case Cache(cache, usage, _, base) =>
      Inv(base) && CacheSound(cache, base) && usage == UsageSum(cache)
  }

  // ---------------------------------------------------------------- operations

  /** FetchCoin: a miss pulls the coin up through every level below. */
  function Fetch(s: Store, k: OutPoint): Store {
    if s.Db? || k in s.cache then s
    else
      var below := Fetch(s.base, k);
      match Lookup(s.base, k)
      case None => s.(base := below)
      case Some(c) => s.(cache := s.cache[k := Entry(c, false, c.IsSpent())],
                         usage := s.usage + c.DynamicMemoryUsage(), base := below)
  }

  /** The result of AddCoin; the flag tells whether it returned normally or threw. */
  function AddCoin(s: Store, k: OutPoint, c: Coin, possibleOverwrite: bool): (Store, bool)
    requires s.Cache?
  {
    if c.IsUnspendable() then (s, true)
    else
      var e := if k in s.cache then s.cache[k] else Entry(EMPTY_COIN, false, false);
      var usage := if k in s.cache then s.usage - e.coin.DynamicMemoryUsage() else s.usage;
      if !possibleOverwrite && !e.coin.IsSpent() then (s.(usage := usage), false)
      else
        var unseen := !possibleOverwrite && !e.dirty;
        (s.(cache := s.cache[k := Entry(c, true, e.isFresh || unseen)],
            usage := usage + c.DynamicMemoryUsage()), true)
  }

  /** Spending a coin this level caches: a FRESH entry is dropped, any other is cleared and kept dirty. */
  function SpendCached(s: Store, k: OutPoint): Store
    requires s.Cache? && k in s.cache
  {
    var e := s.cache[k];
    s.(cache := if e.isFresh then s.cache - {k} else s.cache[k := Entry(EMPTY_COIN, true, false)],
       usage := s.usage - e.coin.DynamicMemoryUsage())
  }

  /** SpendCoin: the new store, the return value, and the coin moved out. */
  function SpendCoin(s: Store, k: OutPoint): (Store, bool, Coin)
    requires s.Cache?
  {
    var f := Fetch(s, k);
    if k !in f.cache then (f, false, EMPTY_COIN)
    else (SpendCached(f, k), true, f.cache[k].coin)
  }

  function Uncache(s: Store, k: OutPoint): Store
    requires s.Cache?
  {
    if k in s.cache && !s.cache[k].dirty && !s.cache[k].isFresh
    then s.(cache := s.cache - {k}, usage := s.usage - s.cache[k].coin.DynamicMemoryUsage())
    else s
  }

  /** How a child's entry is merged into what the parent caches for the same outpoint. */
  function Merge(own: Option<Entry>, e: Entry): Option<Entry> {
    if !e.dirty then own
    else match own
      case None => if e.isFresh && e.coin.IsSpent() then None else Some(Entry(e.coin, true, e.isFresh))
      case Some(u) => if u.isFresh && e.coin.IsSpent() then None else Some(Entry(e.coin, true, u.isFresh))
  }

  /** The child says FRESH although the parent caches an unspent coin. */
  predicate Misapplied(own: Option<Entry>, e: Entry) {
    e.dirty && e.isFresh && own.Some? && !own.value.coin.IsSpent()
  }

  function MergeAt(own: CoinsMap, child: CoinsMap, k: OutPoint): Option<Entry> {
    if k in child then Merge(Get(own, k), child[k]) else Get(own, k)
  }

  function MergeAll(own: CoinsMap, child: CoinsMap): CoinsMap {
    map k | k in own.Keys + child.Keys && MergeAt(own, child, k).Some? :: MergeAt(own, child, k).value
  }

  function DbAt(coins: map<OutPoint, UnspentCoin>, child: CoinsMap, k: OutPoint): Option<UnspentCoin> {
    if k in child && child[k].dirty then child[k].coin.Visible() else Get(coins, k)
  }

  function DbAll(coins: map<OutPoint, UnspentCoin>, child: CoinsMap): map<OutPoint, UnspentCoin> {
    map k | k in coins.Keys + child.Keys && DbAt(coins, child, k).Some? :: DbAt(coins, child, k).value
  }

  ghost predicate BatchThrows(s: Store, child: CoinsMap) {
    s.Cache? && exists k :: k in child && Misapplied(Get(s.cache, k), child[k])
  }

  /** BatchWrite when it does not throw. */
  ghost function BatchWrite(s: Store, child: CoinsMap, hash: Hash): Store {
    match s
    case Db(coins, best) => Db(DbAll(coins, child), if hash == 0 then best else hash)
    case Cache(cache, usage, _, base) =>
      var merged := MergeAll(cache, child);
      Cache(merged, usage + UsageSum(merged) - UsageSum(cache), hash, base)
  }

  ghost function Flush(s: Store): Store
    requires s.Cache?
  {
    s.(cache := map[], usage := 0, base := BatchWrite(s.base, s.cache, s.hash))
  }

  function BestBlock(s: Store): Hash {
    match s
    case Db(_, best) => best
    case Cache(_, _, hash, base) => if hash == 0 then BestBlock(base) else hash
  }

  /** GetBestBlock: a level that knows no best block asks the one below and remembers the answer. */
  function Remember(s: Store): Store {
    if s.Db? || s.hash != 0 then s else s.(hash := BestBlock(s.base), base := Remember(s.base))
  }

  // ---------------------------------------------------------------- usage counting

  lemma UsageUpdate(m: CoinsMap, k: OutPoint, e: Entry)
    ensures UsageSum(m[k := e]) == UsageSum(m) + e.coin.DynamicMemoryUsage()
                                   - (if k in m then m[k].coin.DynamicMemoryUsage() else 0)
  {
    var u := map j | j in m :: m[j].coin.DynamicMemoryUsage();
    SumUpdate(u, k, e.coin.DynamicMemoryUsage());
    var m' := m[k := e];
    assert u[k := e.coin.DynamicMemoryUsage()] == map j | j in m' :: m'[j].coin.DynamicMemoryUsage();
  }

  lemma UsageRemove(m: CoinsMap, k: OutPoint)
    requires k in m
    ensures UsageSum(m - {k}) == UsageSum(m) - m[k].coin.DynamicMemoryUsage()
  {
    var u := map j | j in m :: m[j].coin.DynamicMemoryUsage();
    SumRemove(u, k);
    var m' := m - {k};
    assert u - {k} == map j | j in m' :: m'[j].coin.DynamicMemoryUsage();
  }

  // ---------------------------------------------------------------- reads

  /** Reading fills the caches of the whole stack but changes no view at any outpoint. */
  lemma {:induction false} FetchKeepsView(s: Store, k: OutPoint)
    requires Inv(s)
    ensures Inv(Fetch(s, k)) && Depth(Fetch(s, k)) == Depth(s)
    ensures Fetch(s, k).Cache? == s.Cache?
    ensures forall j :: Lookup(Fetch(s, k), j) == Lookup(s, j)
  {
    if s.Cache? && k !in s.cache {
      FetchKeepsView(s.base, k);
      if Lookup(s.base, k).Some? {
        UsageUpdate(s.cache, k, Entry(Lookup(s.base, k).value, false, false));
      }
    }
  }

  // ---------------------------------------------------------------- writes

  /**
   * AddCoin throws exactly when an overwrite is not announced and this level caches an
   * unspent coin there; otherwise the new coin is shown and nothing else changes.
   */
  lemma AddCoinMeaning(s: Store, k: OutPoint, c: Coin, ow: bool)
    requires s.Cache? && Inv(s) && !c.IsSpent() && !c.IsUnspendable()
    requires ow || Lookup(s, k).None?
    ensures AddCoin(s, k, c, ow).1
    ensures var t := AddCoin(s, k, c, ow).0;
      t.Cache? && t.base == s.base && Inv(t) && Lookup(t, k) == Some(c) && forall j :: j != k ==>
        Lookup(t, j) == Lookup(s, j)
  {
    UsageUpdate(s.cache, k, AddCoin(s, k, c, ow).0.cache[k]);
  }

  /**
   * Without the caller's promise AddCoin can throw, or can silently break the invariant:
   * it keeps the invariant exactly when the overwrite was announced, or nothing unspent was
   * shown, or the shown coin is cached and its script owns no heap memory.
   */
  lemma AddCoinExact(s: Store, k: OutPoint, c: Coin, ow: bool)
    requires s.Cache? && Inv(s) && !c.IsSpent() && !c.IsUnspendable()
    ensures AddCoin(s, k, c, ow).1 <==> ow || k !in s.cache || s.cache[k].coin.IsSpent()
    ensures Inv(AddCoin(s, k, c, ow).0)
       <==> ow || Lookup(s, k).None? || (k in s.cache && s.cache[k].coin.DynamicMemoryUsage() == 0)
  {
    var t := AddCoin(s, k, c, ow).0;
    if k in t.cache { UsageUpdate(s.cache, k, t.cache[k]); }
    if !ow && Lookup(s, k).Some? {
      if k !in s.cache {
        assert t.cache[k].isFresh;
        assert !EntrySound(t.cache[k], Lookup(s.base, k));
      }
    }
  }

  lemma SpendCachedMeaning(s: Store, k: OutPoint)
    requires s.Cache? && Inv(s) && k in s.cache
    ensures var t := SpendCached(s, k);
      t.base == s.base && Inv(t) && Lookup(t, k).None? && forall j :: j != k ==> Lookup(t, j) == Lookup(s, j)
  {
    var t := SpendCached(s, k);
    assert EntrySound(s.cache[k], Lookup(s.base, k));
    assert t.usage == UsageSum(t.cache) by {
      if s.cache[k].isFresh {
        UsageRemove(s.cache, k);
      } else {
        UsageUpdate(s.cache, k, Entry(EMPTY_COIN, true, false));
      }
    }
    assert CacheSound(t.cache, s.base);
  }

  /**
   * SpendCoin removes the coin from the view and nothing else. It returns true exactly when a
   * coin was shown or this level still caches the spent coin, and hands out what was shown.
   */
  lemma SpendCoinMeaning(s: Store, k: OutPoint)
    requires s.Cache? && Inv(s)
    ensures var (t, ok, moved) := SpendCoin(s, k);
      && t.Cache? && t.base == Fetch(s, k).base && Inv(t)
      && Lookup(t, k).None?
      && (forall j :: j != k ==> Lookup(t, j) == Lookup(s, j))
      && (ok <==> Lookup(s, k).Some? || k in s.cache)
      && (ok ==> moved.Visible() == Lookup(s, k))
  {
    FetchKeepsView(s, k);
    var f := Fetch(s, k);
    assert Lookup(f, k) == Lookup(s, k);
    if k in f.cache { SpendCachedMeaning(f, k); }
  }

  lemma UncacheKeepsView(s: Store, k: OutPoint)
    requires s.Cache? && Inv(s)
    ensures var t := Uncache(s, k);
      t.Cache? && t.base == s.base && Inv(t) && forall j :: Lookup(t, j) == Lookup(s, j)
  {
    if k in s.cache { UsageRemove(s.cache, k); }
  }

  // ---------------------------------------------------------------- flush

  /** A sound child never triggers the FRESH check, wherever the parent sits. */
  lemma FlushNeverThrows(s: Store)
    requires s.Cache? && Inv(s)
    ensures !BatchThrows(s.base, s.cache)
  {
  }

  /** After the write the parent shows exactly what the child showed, and is sound against the grandparent. */
  lemma BatchWriteMeaning(s: Store)
    requires s.Cache? && Inv(s)
    ensures var p := BatchWrite(s.base, s.cache, s.hash);
      && Inv(p) && p.Cache? == s.base.Cache? && Depth(p) == Depth(s.base)
      && (forall j :: Lookup(p, j) == Lookup(s, j))
      && (p.Cache? ==> p.base == s.base.base)
  {
    var p := BatchWrite(s.base, s.cache, s.hash);
    forall j ensures Lookup(p, j) == Lookup(s, j) {
      assert j in s.cache ==> EntrySound(s.cache[j], Lookup(s.base, j));
    }
    if p.Cache? {
      forall k | k in p.cache ensures EntrySound(p.cache[k], Lookup(p.base, k)) {
        assert p.cache[k] == MergeAt(s.base.cache, s.cache, k).value;
        assert k in s.cache ==> EntrySound(s.cache[k], Lookup(s.base, k));
      }
    }
  }

  /** Flush moves the view down one level; the flushed level itself shows the same coins as before. */
  lemma FlushMeaning(s: Store)
    requires s.Cache? && Inv(s)
    ensures var t := Flush(s);
      && Inv(t) && t.Cache? && Depth(t) == Depth(s)
      && (forall j :: Lookup(t, j) == Lookup(s, j))
      && (forall j :: Lookup(t.base, j) == Lookup(s, j))
  {
    BatchWriteMeaning(s);
    assert UsageSum(map[]) == 0;
  }

  /**
   * The best block survives a flush exactly when the flushed cache knows one, or the level below
   * does not lose its own: flushing a cache that never asked for the best block erases the parent's.
   */
  lemma FlushBestBlock(s: Store)
    requires s.Cache?
    ensures BestBlock(Flush(s)) == BestBlock(s)
       <==> s.hash != 0 || s.base.Db? || s.base.hash == 0 || s.base.hash == BestBlock(s.base.base)
  {
  }

  /** Asking for the best block changes no view and no cache; after that a flush does not lose it. */
  lemma {:induction false} RememberMeaning(s: Store)
    ensures BestBlock(Remember(s)) == BestBlock(s) && forall k :: Lookup(Remember(s), k) == Lookup(s, k)
    ensures Inv(s) ==> Inv(Remember(s))
    ensures s.Cache? ==>
      Remember(s).cache == s.cache && Remember(s).usage == s.usage && Remember(s).hash == BestBlock(s)
    ensures s.Cache? ==> BestBlock(Flush(Remember(s))) == BestBlock(s)
  {
    if s.Cache? {
      RememberMeaning(s.base);
      FlushBestBlock(Remember(s));
    }
  }
}
