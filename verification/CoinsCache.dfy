/**
 * The layered UTXO cache, as objects updated in place.
 *
 * Each method is proved against the value model: `Value()` is the store an object stands for.
 */
module CoinsCache {
  import opened Common
  import opened Coins

  /** `now` is `was` with every dirty entry of the batch written, apart from those still waiting in `rest`. */
  ghost predicate WrittenExcept(was: map<OutPoint, UnspentCoin>, now: map<OutPoint, UnspentCoin>, batch: CoinsMap,
    rest: set<OutPoint>) {
    forall k :: Get(now, k) == if k in rest then Get(was, k) else DbAt(was, batch, k)
  }

  lemma WriteNext(was: map<OutPoint, UnspentCoin>, now: map<OutPoint, UnspentCoin>, batch: CoinsMap,
    rest: set<OutPoint>, k: OutPoint)
    requires rest <= batch.Keys && k in rest && WrittenExcept(was, now, batch, rest)
    ensures var next := if !batch[k].dirty then now else if batch[k].coin.IsSpent() then now - {k}
      else now[k := batch[k].coin];
      WrittenExcept(was, next, batch, rest - {k})
  {
    assert Get(now, k) == Get(was, k);
  }

  class CoinsViewDb {
    var coins: map<OutPoint, UnspentCoin>
    var best: Hash

    constructor (coins: map<OutPoint, UnspentCoin>, best: Hash)
      ensures this.coins == coins && this.best == best
    {
      this.coins, this.best := coins, best;
    }

    /** Writes the dirty entries, erasing the batch as it goes. */
    method BatchWrite(batch: CoinsMap, hash: Hash)
      modifies this
      ensures Db(coins, best) == Coins.BatchWrite(Db(old(coins), old(best)), batch, hash)
    {
      var rest := batch.Keys;
      ghost var was := coins;
      while rest != {}
        modifies this`coins
        invariant rest <= batch.Keys && WrittenExcept(was, coins, batch, rest)
        decreases |rest|
      {
        var k :| k in rest;
        WriteNext(was, coins, batch, rest, k);
        if batch[k].dirty {
          if batch[k].coin.IsSpent() {
            coins := coins - {k};
          } else {
            coins := coins[k := batch[k].coin];
          }
        }
        rest := rest - {k};
      }
      if hash != 0 { best := hash; }
      SameMap(coins, DbAll(old(coins), batch));
    }
  }

  lemma SameMap<K, V>(a: map<K, V>, b: map<K, V>)
    requires forall k :: Get(a, k) == Get(b, k)
    ensures a == b
  {
    forall k ensures k in a <==> k in b {
      assert Get(a, k) == Get(b, k);
    }
    forall k | k in a ensures a[k] == b[k] {
      assert Get(a, k) == Get(b, k);
    }
  }

  /** `now` is `own` with every entry of the batch merged, apart from those still waiting in `rest`. */
  ghost predicate MergedExcept(own: CoinsMap, now: CoinsMap, batch: CoinsMap, rest: CoinsMap) {
    && rest.Keys <= batch.Keys && (forall k :: k in rest ==> rest[k] == batch[k])
    && forall k :: Get(now, k) == if k in rest then Get(own, k) else MergeAt(own, batch, k)
  }

  class CoinsViewCache {
    var cacheCoins: CoinsMap
    var cachedCoinsUsage: int
    var hashBlock: Hash
    /** The cache below, or null when this cache sits directly on the database. */
    const parent: CoinsViewCache?
    const db: CoinsViewDb
    ghost const Repr: set<object>

    /** The objects below this cache form a chain that ends in the database. */
    ghost predicate Linked()
      decreases Repr
    {
      && this in Repr && db in Repr
      && if parent == null then Repr == {this, db}
         else && this !in parent.Repr && Repr == {this} + parent.Repr
              && parent.db == db && parent.Linked()
    }

    /** The store this object stands for. */
    ghost function Value(): Store
      requires Linked()
      reads Repr
      decreases Repr
    {
      Cache(cacheCoins, cachedCoinsUsage, hashBlock, BaseValue())
    }

    ghost function BaseValue(): Store
      requires Linked()
      reads Repr
      decreases Repr, 0
    {
      if parent == null then Db(db.coins, db.best) else parent.Value()
    }

    constructor (parent: CoinsViewCache?, db: CoinsViewDb)
      requires parent != null ==> parent.Linked() && parent.db == db
      ensures Linked() && this.parent == parent && this.db == db
      ensures Value() == Cache(map[], 0, 0, if parent == null then Db(db.coins, db.best) else parent.Value())
    {
      cacheCoins, cachedCoinsUsage, hashBlock := map[], 0, 0;
      this.parent := parent;
      this.db := db;
      Repr := {this, db} + if parent == null then {} else parent.Repr;
      new;
    }

    /** FetchCoin: pulls a missing coin up from below. */
    method FetchCoin(k: OutPoint) returns (found: bool)
      requires Linked()
      modifies Repr
      ensures Value() == Fetch(old(Value()), k)
      ensures found <==> k in cacheCoins
      decreases Repr, 0
    {
      if k in cacheCoins { return true; }
      var ok, tmp;
      if parent == null {
        ok, tmp := k in db.coins, if k in db.coins then db.coins[k] else EMPTY_COIN;
      } else {
        ok, tmp := parent.GetCoin(k);
      }
      if !ok { return false; }
      cacheCoins := cacheCoins[k := Entry(tmp, false, tmp.IsSpent())];
      cachedCoinsUsage := cachedCoinsUsage + tmp.DynamicMemoryUsage();
      return true;
    }

    /** GetCoin: true only when an unspent coin was found, which is returned. */
    method GetCoin(k: OutPoint) returns (ok: bool, coin: Coin)
      requires Linked()
      modifies Repr
      ensures Value() == Fetch(old(Value()), k)
      ensures ok <==> Lookup(old(Value()), k).Some?
      ensures ok ==> Lookup(old(Value()), k) == Some(coin)
      decreases Repr, 1
    {
      var found := FetchCoin(k);
      if found {
        return !cacheCoins[k].coin.IsSpent(), cacheCoins[k].coin;
      }
      return false, EMPTY_COIN;
    }

    /** AddCoin: false stands for the exception about replacing a non-pruned entry. */
    method AddCoin(k: OutPoint, coin: Coin, possibleOverwrite: bool) returns (ok: bool)
      requires Linked() && !coin.IsSpent()
      modifies this
      ensures (Value(), ok) == Coins.AddCoin(old(Value()), k, coin, possibleOverwrite)
    {
      if coin.IsUnspendable() { return true; }
      var inserted := k !in cacheCoins;
      if inserted {
        cacheCoins := cacheCoins[k := Entry(EMPTY_COIN, false, false)];
      }
      var e := cacheCoins[k];
      var unseen := false;
      if !inserted {
        cachedCoinsUsage := cachedCoinsUsage - e.coin.DynamicMemoryUsage();
      }
      if !possibleOverwrite {
        if !e.coin.IsSpent() { return false; }
        unseen := !e.dirty;
      }
      cacheCoins := cacheCoins[k := Entry(coin, true, e.isFresh || unseen)];
      cachedCoinsUsage := cachedCoinsUsage + coin.DynamicMemoryUsage();
      assert cacheCoins == old(cacheCoins)[k := cacheCoins[k]];
      return true;
    }

    method SpendCoin(k: OutPoint) returns (ok: bool, moved: Coin)
      requires Linked()
      modifies Repr
      ensures (Value(), ok, moved) == Coins.SpendCoin(old(Value()), k)
    {
      ok := FetchCoin(k);
      if !ok { return false, EMPTY_COIN; }
      var e := cacheCoins[k];
      cachedCoinsUsage := cachedCoinsUsage - e.coin.DynamicMemoryUsage();
      moved := e.coin;
      if e.isFresh {
        cacheCoins := cacheCoins - {k};
      } else {
        cacheCoins := cacheCoins[k := Entry(EMPTY_COIN, true, false)];
      }
    }

    method Uncache(k: OutPoint)
      requires Linked()
      modifies this
      ensures Value() == Coins.Uncache(old(Value()), k)
    {
      if k in cacheCoins && !cacheCoins[k].dirty && !cacheCoins[k].isFresh {
        cachedCoinsUsage := cachedCoinsUsage - cacheCoins[k].coin.DynamicMemoryUsage();
        cacheCoins := cacheCoins - {k};
      }
    }

    /** GetBestBlock remembers what the level below answered. */
    method GetBestBlock() returns (h: Hash)
      requires Linked()
      modifies Repr
      ensures h == BestBlock(old(Value())) && Value() == Remember(old(Value()))
      decreases Repr
    {
      if hashBlock == 0 {
        if parent == null { hashBlock := db.best; } else { hashBlock := parent.GetBestBlock(); }
      }
      return hashBlock;
    }

    /** The body of the BatchWrite loop: merges one entry of a child, or throws and changes nothing. */
    method MergeEntry(k: OutPoint, e: Entry) returns (ok: bool)
      modifies this`cacheCoins, this`cachedCoinsUsage
      ensures ok <==> !Misapplied(Get(old(cacheCoins), k), e)
      ensures Get(cacheCoins, k) == if ok then Merge(Get(old(cacheCoins), k), e) else Get(old(cacheCoins), k)
      ensures forall j :: j != k ==> Get(cacheCoins, j) == Get(old(cacheCoins), j)
      ensures cachedCoinsUsage - UsageSum(cacheCoins) == old(cachedCoinsUsage - UsageSum(cacheCoins))
    {
      if !e.dirty { return true; }
      if k !in cacheCoins {
        if !(e.isFresh && e.coin.IsSpent()) {
          UsageUpdate(cacheCoins, k, Entry(e.coin, true, e.isFresh));
          cacheCoins := cacheCoins[k := Entry(e.coin, true, e.isFresh)];
          cachedCoinsUsage := cachedCoinsUsage + e.coin.DynamicMemoryUsage();
        }
        return true;
      }
      var u := cacheCoins[k];
      if e.isFresh && !u.coin.IsSpent() { return false; }
      cachedCoinsUsage := cachedCoinsUsage - u.coin.DynamicMemoryUsage();
      if u.isFresh && e.coin.IsSpent() {
        UsageRemove(cacheCoins, k);
        cacheCoins := cacheCoins - {k};
      } else {
        UsageUpdate(cacheCoins, k, Entry(e.coin, true, u.isFresh));
        cacheCoins := cacheCoins[k := Entry(e.coin, true, u.isFresh)];
        cachedCoinsUsage := cachedCoinsUsage + e.coin.DynamicMemoryUsage();
      }
      return true;
    }

    /** The loop of BatchWrite: every entry is merged, until one is found whose FRESH flag is misapplied. */
    method MergeEntries(batch: CoinsMap) returns (ok: bool, rest: CoinsMap)
      modifies this`cacheCoins, this`cachedCoinsUsage
      ensures MergedExcept(old(cacheCoins), cacheCoins, batch, rest)
      ensures ok ==> rest == map[]
      ensures ok <==> forall k :: k in batch ==> !Misapplied(Get(old(cacheCoins), k), batch[k])
      ensures cachedCoinsUsage - UsageSum(cacheCoins) == old(cachedCoinsUsage - UsageSum(cacheCoins))
    {
      rest := batch;
      while rest != map[]
        invariant MergedExcept(old(cacheCoins), cacheCoins, batch, rest)
        invariant forall k :: k in batch && k !in rest ==> !Misapplied(Get(old(cacheCoins), k), batch[k])
        invariant cachedCoinsUsage - UsageSum(cacheCoins) == old(cachedCoinsUsage - UsageSum(cacheCoins))
        decreases |rest|
      {
        var k :| k in rest;
        ok := MergeEntry(k, rest[k]);
        if !ok {
          return;
        }
        rest := rest - {k};
      }
      ok := true;
    }

    /**
     * BatchWrite throws exactly when some FRESH flag of the child is misapplied. Otherwise the whole
     * batch is merged and used up. The levels below are not touched.
     */
    method BatchWrite(batch: CoinsMap, hash: Hash) returns (ok: bool, rest: CoinsMap)
      requires Linked()
      modifies this
      ensures ok <==> !BatchThrows(old(Value()), batch)
      ensures ok ==> rest == map[] && Value() == Coins.BatchWrite(old(Value()), batch, hash)
      ensures BaseValue() == old(BaseValue())
      ensures MergedExcept(old(cacheCoins), cacheCoins, batch, rest)
      ensures cachedCoinsUsage - UsageSum(cacheCoins) == old(cachedCoinsUsage - UsageSum(cacheCoins))
      ensures !ok ==> hashBlock == old(hashBlock)
    {
      ok, rest := MergeEntries(batch);
      if ok {
        hashBlock := hash;
        SameMap(cacheCoins, MergeAll(old(cacheCoins), batch));
      }
    }

    /**
     * Flush: false stands for the exception of the level below. It leaves this cache with the entries that were not
     * merged yet but with its old usage counter, the others merged one level down, and nothing else changed.
     */
    method Flush() returns (ok: bool)
      requires Linked()
      modifies Repr
      ensures ok <==> !BatchThrows(old(BaseValue()), old(cacheCoins))
      ensures ok ==> Value() == Coins.Flush(old(Value()))
      ensures !ok ==> cachedCoinsUsage == old(cachedCoinsUsage) && hashBlock == old(hashBlock) && parent != null
      ensures !ok ==> MergedExcept(old(parent.cacheCoins), parent.cacheCoins, old(cacheCoins), cacheCoins)
      ensures !ok ==> parent.cachedCoinsUsage - UsageSum(parent.cacheCoins)
                      == old(parent.cachedCoinsUsage - UsageSum(parent.cacheCoins))
      ensures !ok ==> parent.hashBlock == old(parent.hashBlock) && parent.BaseValue() == old(parent.BaseValue())
    {
      if parent == null {
        db.BatchWrite(cacheCoins, hashBlock);
        ok := true;
      } else {
        ok, cacheCoins := parent.BatchWrite(cacheCoins, hashBlock);
        if !ok { return; }
      }
      cacheCoins, cachedCoinsUsage := map[], 0;
    }
  }
}
