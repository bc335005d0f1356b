/** Pending changes laid over a key-value store (src/dbwrapper.h): the transaction as a value. */
module DbOverlay {
  import opened Common

  /** Serialized keys and values. */
  type Key = seq<nat>
  type Value = seq<nat>

  /** A database, or a transaction over another store with its writes, deletes and memory counter. */
  datatype Store = Db(data: map<Key, Value>)
                 | Tx(writes: map<Key, Value>, deletes: set<Key>, usage: int, base: Store)

  /** What a store shows: below, less the deletes, overridden by the writes. */
  ghost function View(s: Store): map<Key, Value> {
    match s
    case Db(data) => data
    case Tx(writes, deletes, _, base) => (View(base) - deletes) + writes
  }

  ghost function WriteSizes(writes: map<Key, Value>): map<Key, int> {
    map k | k in writes :: |k| + |writes[k]|
  }

  ghost function DeleteSizes(deletes: set<Key>): map<Key, int> {
    map k | k in deletes :: |k|
  }

  /** The memory all pending changes take. */
  ghost function Usage(writes: map<Key, Value>, deletes: set<Key>): int {
    Sum(WriteSizes(writes)) + Sum(DeleteSizes(deletes))
  }

  ghost predicate Inv(s: Store) {
    s.Tx? ==> s.writes.Keys !! s.deletes && s.usage == Usage(s.writes, s.deletes) && Inv(s.base)
  }

  /** Read, or Exists: the deletes first, then the writes, then the store below. */
  function Read(s: Store, k: Key): Option<Value> {
    match s
    case Db(data) => Get(data, k)
    case Tx(writes, deletes, _, base) =>
      if k in deletes then None else if k in writes then Some(writes[k]) else Read(base, k)
  }

  function Write(s: Store, k: Key, v: Value): Store {
    match s
    case Db(data) => Db(data[k := v])
    case Tx(writes, deletes, usage, base) =>
      var u := if k in deletes then usage - |k| else usage;
      var w := if k in writes then u - (|k| + |writes[k]|) else u;
      Tx(writes[k := v], deletes - {k}, w + |k| + |v|, base)
  }

  function Erase(s: Store, k: Key): Store {
    match s
    case Db(data) => Db(data - {k})
    case Tx(writes, deletes, usage, base) =>
      var w := if k in writes then usage - (|k| + |writes[k]|) else usage;
      Tx(writes - {k}, deletes + {k}, if k in deletes then w else w + |k|, base)
  }

  function Clear(s: Store): Store {
    match s
    case Db(data) => s
    case Tx(_, _, _, base) => Tx(map[], {}, 0, base)
  }

  /** A store with a batch of changes made to it. */
  ghost function Apply(s: Store, writes: map<Key, Value>, deletes: set<Key>): Store {
    match s
    case Db(data) => Db((data - deletes) + writes)
    case Tx(w, d, _, base) =>
      var w', d' := (w - deletes) + writes, (d + deletes) - writes.Keys;
      Tx(w', d', Usage(w', d'), base)
  }

  /** Commit into the store below, which is also the one read from. */
  ghost function Commit(s: Store): Store
    requires s.Tx?
  {
    Tx(map[], {}, 0, Apply(s.base, s.writes, s.deletes))
  }

  lemma UsageWrite(writes: map<Key, Value>, deletes: set<Key>, k: Key, v: Value)
    ensures Usage(writes[k := v], deletes) ==
      Usage(writes, deletes) + |k| + |v| - (if k in writes then |k| + |writes[k]| else 0)
  {
    assert WriteSizes(writes[k := v]) == WriteSizes(writes)[k := |k| + |v|];
    SumUpdate(WriteSizes(writes), k, |k| + |v|);
  }

  lemma UsageUnwrite(writes: map<Key, Value>, deletes: set<Key>, k: Key)
    ensures Usage(writes - {k}, deletes) == Usage(writes, deletes) - (if k in writes then |k| + |writes[k]| else 0)
  {
    if k in writes {
      assert WriteSizes(writes - {k}) == WriteSizes(writes) - {k};
      SumRemove(WriteSizes(writes), k);
    } else {
      assert writes - {k} == writes;
    }
  }

  lemma UsageDelete(writes: map<Key, Value>, deletes: set<Key>, k: Key)
    ensures Usage(writes, deletes + {k}) == Usage(writes, deletes) + (if k in deletes then 0 else |k|)
    ensures Usage(writes, deletes - {k}) == Usage(writes, deletes) - (if k in deletes then |k| else 0)
  {
    if k in deletes {
      assert deletes + {k} == deletes;
      assert DeleteSizes(deletes - {k}) == DeleteSizes(deletes) - {k};
      SumRemove(DeleteSizes(deletes), k);
    } else {
      assert deletes - {k} == deletes;
      assert DeleteSizes(deletes + {k}) == DeleteSizes(deletes)[k := |k|];
      SumUpdate(DeleteSizes(deletes), k, |k|);
    }
  }

  /** A write keeps the memory counter exact and changes what is shown at its key only. */
  lemma WriteMeaning(s: Store, k: Key, v: Value)
    requires Inv(s)
    ensures Inv(Write(s, k, v)) && View(Write(s, k, v)) == View(s)[k := v]
  {
    if s.Tx? {
      UsageDelete(s.writes, s.deletes, k);
      UsageWrite(s.writes, s.deletes - {k}, k, v);
      OverlayWrite(View(s.base), s.writes, s.deletes, k, v);
    }
  }

  /** One more write over a map. */
  lemma OverlayWrite(below: map<Key, Value>, writes: map<Key, Value>, deletes: set<Key>, k: Key, v: Value)
    ensures (below - (deletes - {k})) + writes[k := v] == ((below - deletes) + writes)[k := v]
  {
  }

  lemma EraseMeaning(s: Store, k: Key)
    requires Inv(s)
    ensures Inv(Erase(s, k)) && View(Erase(s, k)) == View(s) - {k}
  {
    if s.Tx? {
      UsageUnwrite(s.writes, s.deletes, k);
      UsageDelete(s.writes - {k}, s.deletes, k);
    }
  }

  /** Reading is looking at what is shown. */
  lemma {:induction false} ReadMeaning(s: Store, k: Key)
    requires Inv(s)
    ensures Read(s, k) == Get(View(s), k)
  {
    if s.Tx? { ReadMeaning(s.base, k); }
  }

  lemma ApplyMeaning(s: Store, writes: map<Key, Value>, deletes: set<Key>)
    requires Inv(s) && writes.Keys !! deletes
    ensures Inv(Apply(s, writes, deletes)) && View(Apply(s, writes, deletes)) == (View(s) - deletes) + writes
  {
    if s.Tx? {
      var w', d' := (s.writes - deletes) + writes, (s.deletes + deletes) - writes.Keys;
      assert w'.Keys !! d';
    }
  }

  lemma EmptyUsage()
    ensures Usage(map[], {}) == 0
  {
    assert WriteSizes(map[]) == map[] && DeleteSizes({}) == map[];
  }

  /** Committing changes nothing that is shown, and makes the store below show the same. */
  lemma CommitMeaning(s: Store)
    requires Inv(s) && s.Tx?
    ensures Inv(Commit(s)) && View(Commit(s)) == View(s) && View(Commit(s).base) == View(s)
    ensures forall k :: Read(Commit(s), k) == Read(s, k)
  {
    ApplyMeaning(s.base, s.writes, s.deletes);
    EmptyUsage();
    assert View(Commit(s)) == View(s);
    forall k ensures Read(Commit(s), k) == Read(s, k) {
      ReadMeaning(s, k);
      ReadMeaning(Commit(s), k);
    }
  }

  lemma ClearMeaning(s: Store)
    requires Inv(s) && s.Tx?
    ensures Inv(Clear(s)) && View(Clear(s)) == View(s.base)
  {
    EmptyUsage();
  }

  /** The memory counter is never negative, so its guard never fires. */
  lemma UsageNonNegative(s: Store)
    requires Inv(s) && s.Tx?
    ensures s.usage >= 0 && (s.usage == 0 <== s.writes == map[] && s.deletes == {})
  {
    SumNonNegative(WriteSizes(s.writes));
    SumNonNegative(DeleteSizes(s.deletes));
    if s.writes == map[] && s.deletes == {} { EmptyUsage(); }
  }

  /** There are no pending changes exactly if every store below would be shown as it is. */
  lemma CleanExact(writes: map<Key, Value>, deletes: set<Key>, usage: int)
    ensures writes == map[] && deletes == {} <==> forall base :: View(Tx(writes, deletes, usage, base)) == View(base)
  {
    if deletes != {} {
      var k := Member(deletes);
      var base := Db(map[k := if k in writes then writes[k] + [0] else []]);
      assert k in View(base) && View(Tx(writes, deletes, usage, base)) != View(base);
    } else if writes != map[] {
      var k := Member(writes.Keys);
      assert k !in View(Db(map[])) && k in View(Tx(writes, deletes, usage, Db(map[])));
    }
  }

  /** Without pending changes a commit does nothing. */
  lemma CleanCommit(s: Store)
    requires Inv(s) && s.Tx? && s.writes == map[] && s.deletes == {}
    ensures Commit(s) == s
  {
    EmptyUsage();
    var base := s.base;
    assert s.writes.Keys == {};
    if base.Tx? {
      assert (base.writes - s.deletes) + s.writes == base.writes;
      assert (base.deletes + s.deletes) - s.writes.Keys == base.deletes;
    } else {
      assert (base.data - s.deletes) + s.writes == base.data;
    }
  }

  // ----- Runs -----

  datatype Op = OpWrite(key: Key, value: Value) | OpErase(key: Key) | OpCommit | OpClear

  ghost function Step(s: Store, op: Op): Store
    requires s.Tx?
  {
    match op
    case OpWrite(k, v) => Write(s, k, v)
    case OpErase(k) => Erase(s, k)
    case OpCommit => Commit(s)
    case OpClear => Clear(s)
  }

  /** The simple form: what is committed, and what is current. */
  datatype Plain = Plain(committed: map<Key, Value>, current: map<Key, Value>)

  ghost function PlainStep(p: Plain, op: Op): Plain {
    match op
    case OpWrite(k, v) => p.(current := p.current[k := v])
    case OpErase(k) => p.(current := p.current - {k})
    case OpCommit => p.(committed := p.current)
    case OpClear => p.(current := p.committed)
  }

  ghost function Run(s: Store, ops: seq<Op>): (s': Store)
    requires s.Tx?
    ensures s'.Tx?
  {
    if ops == [] then s else Step(Run(s, ops[..|ops| - 1]), ops[|ops| - 1])
  }

  ghost function PlainRun(p: Plain, ops: seq<Op>): Plain {
    if ops == [] then p else PlainStep(PlainRun(p, ops[..|ops| - 1]), ops[|ops| - 1])
  }

  ghost predicate Refines(s: Store, p: Plain) {
    s.Tx? && Inv(s) && View(s.base) == p.committed && View(s) == p.current
  }

  /** Over every run, a transaction over a store of any depth behaves as a current and a committed map. */
  lemma {:induction false} RunRefines(s: Store, p: Plain, ops: seq<Op>)
    requires Refines(s, p)
    ensures Refines(Run(s, ops), PlainRun(p, ops))
    decreases |ops|
  {
    if ops != [] {
      var n := |ops| - 1;
      RunRefines(s, p, ops[..n]);
      var t := Run(s, ops[..n]);
      match ops[n]
      case OpWrite(k, v) => WriteMeaning(t, k, v);
      case OpErase(k) => EraseMeaning(t, k);
      case OpCommit => CommitMeaning(t);
      case OpClear => ClearMeaning(t);
    }
  }
}
