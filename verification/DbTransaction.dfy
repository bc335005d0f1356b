/** Transactions over a database or over each other (src/dbwrapper.h), as objects updated in place. */
module DbTransaction {
  import opened Common
  import opened DbOverlay

  class Database {
    var data: map<Key, Value>

    constructor (data: map<Key, Value>)
      ensures this.data == data
    {
      this.data := data;
    }

    method Write(k: Key, v: Value)
      modifies this
      ensures Db(data) == DbOverlay.Write(Db(old(data)), k, v)
    {
      data := data[k := v];
    }

    method Erase(k: Key)
      modifies this
      ensures Db(data) == DbOverlay.Erase(Db(old(data)), k)
    {
      data := data - {k};
    }
  }

  lemma EraseMaps(w: map<Key, Value>, d: set<Key>, erased: set<Key>, k: Key)
    ensures ((w - erased) + map[]) - {k} == (w - (erased + {k})) + map[]
    ensures var none: map<Key, Value> := map[]; ((d + erased) - none.Keys) + {k} == (d + (erased + {k})) - none.Keys
  {
  }

  lemma WriteMaps(w: map<Key, Value>, d: set<Key>, written: map<Key, Value>, erased: set<Key>, k: Key, v: Value)
    ensures ((w - erased) + written)[k := v] == (w - erased) + written[k := v]
    ensures ((d + erased) - written.Keys) - {k} == (d + erased) - written[k := v].Keys
  {
  }

  /** Erasing one more key. */
  lemma ApplyErase(s: Store, erased: set<Key>, k: Key)
    requires Inv(s)
    ensures Erase(Apply(s, map[], erased), k) == Apply(s, map[], erased + {k})
  {
    if s.Db? {
      EraseMaps(s.data, {}, erased, k);
    } else {
      ApplyMeaning(s, map[], erased);
      EraseMeaning(Apply(s, map[], erased), k);
      EraseMaps(s.writes, s.deletes, erased, k);
    }
  }

  /** Writing one more key that is not among the erased ones. */
  lemma ApplyWrite(s: Store, written: map<Key, Value>, erased: set<Key>, k: Key, v: Value)
    requires Inv(s) && written.Keys !! erased && k !in erased
    ensures Write(Apply(s, written, erased), k, v) == Apply(s, written[k := v], erased)
  {
    if s.Db? {
      WriteMaps(s.data, {}, written, erased, k, v);
    } else {
      ApplyMeaning(s, written, erased);
      WriteMeaning(Apply(s, written, erased), k, v);
      WriteMaps(s.writes, s.deletes, written, erased, k, v);
    }
  }

  lemma ApplyNothing(s: Store)
    requires Inv(s)
    ensures Apply(s, map[], {}) == s
  {
    match s
    case Db(data) =>
      assert (data - {}) + map[] == data;
    case Tx(w, d, _, _) =>
      var none: map<Key, Value> := map[];
      assert (w - {}) + none == w && (d + {}) - none.Keys == d;
  }

  /** One more write that was still to be made. */
  lemma ApplyNext(s: Store, writes: map<Key, Value>, rest: set<Key>, deletes: set<Key>, k: Key)
    requires Inv(s) && writes.Keys !! deletes && k in rest && k in writes
    ensures Write(Apply(s, writes - rest, deletes), k, writes[k]) == Apply(s, writes - (rest - {k}), deletes)
  {
    ApplyWrite(s, writes - rest, deletes, k, writes[k]);
    assert (writes - rest)[k := writes[k]] == writes - (rest - {k});
  }

  class Transaction {
    var writes: map<Key, Value>
    var deletes: set<Key>
    var memoryUsage: int
    /** The transaction below, or null when this one sits directly on the database. */
    const parent: Transaction?
    const db: Database
    ghost const Repr: set<object>

    ghost predicate Linked()
      decreases Repr
    {
      && this in Repr && db in Repr
      && if parent == null then Repr == {this, db}
         else && this !in parent.Repr && Repr == {this} + parent.Repr
              && parent.db == db && parent.Linked()
    }

    /** The store this object stands for. */
    ghost function Value(): (s: Store)
      requires Linked()
      reads Repr
      ensures s.Tx?
      decreases Repr
    {
      Tx(writes, deletes, memoryUsage, BaseValue())
    }

    ghost function BaseValue(): Store
      requires Linked()
      reads Repr - {this}
      decreases Repr, 0
    {
      if parent == null then Db(db.data) else parent.Value()
    }

    constructor (parent: Transaction?, db: Database)
      requires parent != null ==> parent.Linked() && parent.db == db && Inv(parent.Value())
      ensures Linked() && this.parent == parent && this.db == db && Inv(Value())
      ensures Value() == Tx(map[], {}, 0, if parent == null then Db(db.data) else parent.Value())
    {
      writes, deletes, memoryUsage := map[], {}, 0;
      this.parent := parent;
      this.db := db;
      Repr := {this, db} + if parent == null then {} else parent.Repr;
      new;
      EmptyUsage();
    }

    method Write(k: Key, v: Value)
      requires Linked()
      modifies this
      ensures Value() == DbOverlay.Write(old(Value()), k, v)
    {
      if k in deletes {
        deletes := deletes - {k};
        memoryUsage := memoryUsage - |k|;
      }
      if k in writes {
        memoryUsage := memoryUsage - (|k| + |writes[k]|);
      }
      writes := writes[k := v];
      memoryUsage := memoryUsage + |k| + |v|;
      assert old(deletes) - {k} == deletes;
    }

    method ReadValue(k: Key) returns (r: Option<Value>)
      requires Linked() && Inv(Value())
      ensures r == Get(View(Value()), k)
      decreases Repr
    {
      ReadMeaning(Value(), k);
      if k in deletes {
        return None;
      }
      if k in writes {
        return Some(writes[k]);
      }
      if parent == null {
        r := Get(db.data, k);
      } else {
        assert Inv(BaseValue());
        ReadMeaning(BaseValue(), k);
        r := parent.ReadValue(k);
      }
    }

    method Exists(k: Key) returns (r: bool)
      requires Linked() && Inv(Value())
      ensures r <==> k in View(Value())
      decreases Repr
    {
      if k in deletes {
        return false;
      }
      if k in writes {
        return true;
      }
      if parent == null {
        r := k in db.data;
      } else {
        assert Inv(BaseValue());
        r := parent.Exists(k);
      }
    }

    method Erase(k: Key)
      requires Linked()
      modifies this
      ensures Value() == DbOverlay.Erase(old(Value()), k)
    {
      if k in writes {
        memoryUsage := memoryUsage - (|k| + |writes[k]|);
        writes := writes - {k};
      }
      if k !in deletes {
        deletes := deletes + {k};
        memoryUsage := memoryUsage + |k|;
      }
      assert writes == old(writes) - {k} && deletes == old(deletes) + {k};
    }

    method Clear()
      requires Linked()
      modifies this
      ensures Value() == DbOverlay.Clear(old(Value()))
    {
      writes, deletes, memoryUsage := map[], {}, 0;
    }

    /** Erase or write in the store below. */
    method EraseBelow(k: Key)
      requires Linked()
      modifies Repr - {this}
      ensures BaseValue() == DbOverlay.Erase(old(BaseValue()), k)
    {
      if parent == null { db.Erase(k); } else { parent.Erase(k); }
    }

    method WriteBelow(k: Key, v: Value)
      requires Linked()
      modifies Repr - {this}
      ensures BaseValue() == DbOverlay.Write(old(BaseValue()), k, v)
    {
      if parent == null { db.Write(k, v); } else { parent.Write(k, v); }
    }

    /** Commit into the store below: first every delete, then every write, in any order, then a clear. */
    method Commit()
      requires Linked() && Inv(Value())
      modifies Repr
      ensures Value() == DbOverlay.Commit(old(Value()))
    {
      ghost var base := BaseValue();
      ApplyNothing(base);
      CommitDeletes(base);
      CommitWrites(base);
      Clear();
    }

    method EraseNext(ghost base: Store, ghost done: set<Key>, k: Key)
      requires Linked() && Inv(base) && BaseValue() == Apply(base, map[], done)
      modifies Repr - {this}
      ensures BaseValue() == Apply(base, map[], done + {k})
    {
      ApplyErase(base, done, k);
      EraseBelow(k);
    }

    /** The first loop of Commit. */
    method CommitDeletes(ghost base: Store)
      requires Linked() && Inv(base) && BaseValue() == Apply(base, map[], {})
      modifies Repr - {this}
      ensures BaseValue() == Apply(base, map[], deletes)
    {
      var rest := deletes;
      ghost var done: set<Key> := {};
      while rest != {}
        modifies Repr - {this}
        invariant done + rest == deletes && BaseValue() == Apply(base, map[], done)
        decreases |rest|
      {
        var k :| k in rest;
        EraseNext(base, done, k);
        done, rest := done + {k}, rest - {k};
      }
      assert done == deletes;
    }

    /** The second loop of Commit. */
    method CommitWrites(ghost base: Store)
      requires Linked() && Inv(base) && writes.Keys !! deletes && BaseValue() == Apply(base, map[], deletes)
      modifies Repr - {this}
      ensures BaseValue() == Apply(base, writes, deletes)
    {
      var rest := writes.Keys;
      assert writes - rest == map[];
      while rest != {}
        modifies Repr - {this}
        invariant rest <= writes.Keys && BaseValue() == Apply(base, writes - rest, deletes)
        decreases |rest|
      {
        var k :| k in rest;
        ApplyNext(base, writes, rest, deletes, k);
        WriteBelow(k, writes[k]);
        rest := rest - {k};
      }
      assert writes - {} == writes;
    }

    /** IsClean: whether any store below would be shown as it is; then a commit is idle and the counter zero. */
    method IsClean() returns (r: bool)
      requires Linked() && Inv(Value())
      ensures r <==> forall base :: View(Tx(writes, deletes, memoryUsage, base)) == View(base)
      ensures r ==> View(Value()) == View(BaseValue()) && DbOverlay.Commit(Value()) == Value() && memoryUsage == 0
    {
      CleanExact(writes, deletes, memoryUsage);
      r := writes == map[] && deletes == {};
      if r {
        EmptyUsage();
        CleanCommit(Value());
      }
    }

    /** GetMemoryUsage: the exact size of the pending changes; the guard against a negative counter never fires. */
    method GetMemoryUsage() returns (n: int)
      requires Linked() && Inv(Value())
      ensures n == Usage(writes, deletes) >= 0
    {
      UsageNonNegative(Value());
      n := if memoryUsage < 0 then 0 else memoryUsage;
    }
  }
}
