/** The iterator that merges pending changes with the store below (src/dbwrapper.h). */
module DbIterator {
  import opened Common
  import opened DbOverlay
  import opened DbTransaction

  /** Keys compare byte by byte, a prefix before what it begins. */
  predicate Less(a: Key, b: Key) {
    b != [] && (a == [] || a[0] < b[0] || (a[0] == b[0] && Less(a[1..], b[1..])))
  }

  lemma {:induction false} LessTotal(a: Key, b: Key)
    ensures Less(a, b) || Less(b, a) || a == b
    ensures !(Less(a, b) && Less(b, a)) && !Less(a, a)
  {
    if a != [] && b != [] && a[0] == b[0] {
      LessTotal(a[1..], b[1..]);
      assert a[1..] == b[1..] ==> a == [a[0]] + a[1..] == [b[0]] + b[1..] == b;
    }
    if a != [] { LessTotal(a[1..], a[1..]); }
  }

  lemma {:induction false} LessTrans(a: Key, b: Key, c: Key)
    requires Less(a, b) && Less(b, c)
    ensures Less(a, c)
  {
    if a != [] && a[0] == b[0] && b[0] == c[0] { LessTrans(a[1..], b[1..], c[1..]); }
  }

  predicate IsLeast(keys: set<Key>, k: Key) {
    k in keys && forall j :: j in keys && j != k ==> Less(k, j)
  }

  lemma {:induction false} LeastExists(keys: set<Key>)
    requires keys != {}
    ensures exists k :: IsLeast(keys, k)
    decreases keys
  {
    var a :| a in keys;
    var rest := keys - {a};
    if rest == {} {
      assert keys == {a};
      assert IsLeast(keys, a);
    } else {
      LeastExists(rest);
      var b :| IsLeast(rest, b);
      LessTotal(a, b);
      if Less(a, b) {
        forall j | j in keys && j != a ensures Less(a, j) {
          if j != b { LessTrans(a, b, j); }
        }
        assert IsLeast(keys, a);
      } else {
        assert IsLeast(keys, b);
      }
    }
  }

  lemma LeastUnique(keys: set<Key>, a: Key, b: Key)
    requires IsLeast(keys, a) && IsLeast(keys, b)
    ensures a == b
  {
    LessTotal(a, b);
  }

  /** The first key of an ordered container; none if it is empty. */
  function Least(keys: set<Key>): (r: Option<Key>)
    ensures r.None? <==> keys == {}
    ensures r.Some? ==> IsLeast(keys, r.value)
  {
    if keys == {} then None
    else
      LeastExists(keys);
      assert forall a, b :: IsLeast(keys, a) && IsLeast(keys, b) ==> a == b by {
        forall a, b | IsLeast(keys, a) && IsLeast(keys, b) ensures a == b { LeastUnique(keys, a, b); }
      }
      var k :| k in keys && IsLeast(keys, k);
      Some(k)
  }

  /** The keys at or after a key. */
  function From(keys: set<Key>, k: Key): set<Key> {
    set j | j in keys && !Less(j, k)
  }

  /** The keys after a key. */
  function After(keys: set<Key>, k: Key): set<Key> {
    set j | j in keys && Less(k, j)
  }

  /** A database iterator: it stands at a key, or past the end. */
  datatype Cursor = Cursor(keys: set<Key>, at: Option<Key>)

  predicate Stands(c: Cursor) {
    c.at.Some? ==> c.at.value in c.keys
  }

  function ToFirst(c: Cursor): Cursor { c.(at := Least(c.keys)) }

  function ToKey(c: Cursor, k: Key): Cursor { c.(at := Least(From(c.keys, k))) }

  function Advance(c: Cursor): Cursor {
    if c.at.None? then c else c.(at := Least(After(c.keys, c.at.value)))
  }

  /** The keys an iterator will still show. */
  function Rest(c: Cursor): set<Key> {
    if c.at.None? then {} else From(c.keys, c.at.value)
  }

  /** What a position means: the keys from it on, of which it is the least. */
  lemma RestLeast(c: Cursor)
    requires Stands(c)
    ensures c.at == Least(Rest(c))
  {
    if c.at.Some? {
      var k := c.at.value;
      LessTotal(k, k);
      assert k in Rest(c);
      forall j | j in Rest(c) && j != k ensures Less(k, j) { LessTotal(j, k); }
      LeastUnique(Rest(c), k, Least(Rest(c)).value);
    }
  }

  /** A position at the least of an upward closed set of keys leaves exactly that set. */
  lemma RestIs(c: Cursor, keys: set<Key>)
    requires keys <= c.keys && c.at == Least(keys)
    requires forall j, k :: j in keys && k in c.keys && Less(j, k) ==> k in keys
    ensures Stands(c) && Rest(c) == keys
  {
    if c.at.Some? {
      var a := c.at.value;
      forall k ensures k in Rest(c) <==> k in keys {
        LessTotal(a, k);
      }
    }
  }

  lemma SeekRest(c: Cursor, k: Key)
    ensures Stands(ToKey(c, k)) && Rest(ToKey(c, k)) == From(c.keys, k)
    ensures Stands(ToFirst(c)) && Rest(ToFirst(c)) == c.keys
  {
    var keys := From(c.keys, k);
    forall i, j | i in keys && j in c.keys && Less(i, j) ensures j in keys {
      LessTotal(i, k);
      if Less(j, k) { LessTrans(i, j, k); }
    }
    RestIs(ToKey(c, k), keys);
    RestIs(ToFirst(c), c.keys);
  }

  /** A step leaves out exactly the key it was at. */
  lemma NextRest(c: Cursor)
    requires Stands(c)
    ensures Stands(Advance(c)) && Advance(c).keys == c.keys
    ensures c.at.Some? ==> Rest(Advance(c)) == Rest(c) - {c.at.value} && c.at.value in Rest(c)
  {
    if c.at.Some? {
      var a := c.at.value;
      var keys := After(c.keys, a);
      forall i, j | i in keys && j in c.keys && Less(i, j) ensures j in keys { LessTrans(a, i, j); }
      RestIs(Advance(c), keys);
      forall k ensures k in keys <==> k in Rest(c) - {a} {
        LessTotal(a, k);
        LessTotal(a, a);
      }
    }
  }

  /**
   * The merging iterator as a value: a position in the writes, an iterator below, its key, and which one is
   * current.
   */
  datatype Merge = Merge(writes: set<Key>, deletes: set<Key>, it: Option<Key>, below: Cursor, belowKey: Key,
    curIsParent: bool)

  /** The keys below that shine through. */
  function Through(m: Merge, keys: set<Key>): set<Key> { keys - m.deletes - m.writes }

  /** All keys the transaction shows. */
  function Shown(m: Merge): set<Key> { Through(m, m.below.keys) + m.writes }

  function Current(m: Merge): Option<Key> {
    if m.it.None? && m.below.at.None? then None
    else if m.curIsParent then Some(m.belowKey)
    else m.it
  }

  /** Deleted and overwritten keys below have been skipped. */
  predicate Skipped(m: Merge) {
    && Stands(m.below) && Stands(Cursor(m.writes, m.it))
    && (m.below.at.Some? ==> m.belowKey == m.below.at.value && m.belowKey !in m.deletes && m.belowKey !in m.writes)
  }

  /** The smaller of the two positions is the current one. */
  predicate Ready(m: Merge) {
    && Skipped(m)
    && (m.it.Some? && m.below.at.None? ==> !m.curIsParent)
    && (m.it.None? && m.below.at.Some? ==> m.curIsParent)
    && (m.it.Some? && m.below.at.Some? ==> (m.curIsParent <==> !Less(m.it.value, m.belowKey)))
  }

  function MergeRest(m: Merge): set<Key> {
    Through(m, Rest(m.below)) + Rest(Cursor(m.writes, m.it))
  }

  /** The plain iterator over all shown keys that the merging one stands for. */
  function Abs(m: Merge): Cursor { Cursor(Shown(m), Current(m)) }

  /** The current key is the least of those still to come. */
  lemma CurrentLeast(m: Merge)
    requires Ready(m)
    ensures Current(m) == Least(MergeRest(m)) && Stands(Abs(m))
  {
    var w := Cursor(m.writes, m.it);
    RestLeast(m.below);
    RestLeast(w);
    var rest := MergeRest(m);
    if Current(m).Some? {
      var k := Current(m).value;
      if m.it.Some? && m.below.at.Some? { LessTotal(m.it.value, m.belowKey); }
      assert k in rest;
      forall j | j in rest && j != k ensures Less(k, j) {
        var a := if j in m.writes then m.it.value else m.belowKey;
        assert j == a || Less(a, j);
        assert a == k || Less(k, a);
        if a != k && a != j { LessTrans(k, a, j); }
      }
      LeastUnique(rest, k, Least(rest).value);
    } else {
      assert rest == {};
    }
  }

  /** What is left to show is what a plain iterator at the current key has left. */
  ghost predicate Synced(m: Merge) {
    Ready(m) && Rest(Abs(m)) == MergeRest(m)
  }

  /** Once what is left is the part of the shown keys that starts somewhere, the iterator is in step. */
  lemma InStep(m: Merge, c: Cursor)
    requires Ready(m) && Stands(c) && c.keys == Shown(m) && Rest(c) == MergeRest(m)
    ensures Synced(m) && Abs(m) == c
  {
    CurrentLeast(m);
    RestLeast(c);
  }

  /** Moving on one side takes the current key, and no other, out of what is left. */
  lemma MergeNext(m: Merge, below: Cursor, it: Option<Key>)
    requires Synced(m) && Current(m).Some?
    requires below == if m.curIsParent then Advance(m.below) else m.below
    requires it == if m.curIsParent then m.it else Advance(Cursor(m.writes, m.it)).at
    ensures Through(m, Rest(below)) + Rest(Cursor(m.writes, it)) == MergeRest(m) - {Current(m).value}
    ensures Stands(below) && below.keys == m.below.keys && Stands(Cursor(m.writes, it))
  {
    NextRest(m.below);
    NextRest(Cursor(m.writes, m.it));
    var k := Current(m).value;
    if m.curIsParent {
      assert k !in Rest(Cursor(m.writes, m.it));
    } else {
      assert k !in Through(m, Rest(m.below));
    }
  }

  // ----- Enumeration -----

  /** The keys an iterator shows, one after the other. */
  ghost function Trace(c: Cursor): seq<Key>
    requires Stands(c)
    decreases |Rest(c)|
  {
    if c.at.None? then []
    else
      NextRest(c);
      [c.at.value] + Trace(Advance(c))
  }

  predicate Ascending(s: seq<Key>) {
    forall i, j :: 0 <= i < j < |s| ==> Less(s[i], s[j])
  }

  /** Each of the keys left is shown once, in byte order, and no other. */
  lemma {:induction false} TraceExact(c: Cursor)
    requires Stands(c)
    ensures Ascending(Trace(c)) && forall k :: k in Trace(c) <==> k in Rest(c)
    decreases |Rest(c)|
  {
    if c.at.Some? {
      NextRest(c);
      TraceExact(Advance(c));
      RestLeast(c);
      var k, t := c.at.value, Trace(Advance(c));
      forall j | 0 <= j < |t| ensures Less(k, t[j]) {
        assert t[j] in Rest(Advance(c));
      }
    }
  }

  class TransactionIterator {
    const transaction: Transaction
    /** The iterator over the writes stands at this key, or past the end. */
    var transactionIt: Option<Key>
    var parentIt: Cursor
    var parentKey: Key
    var curIsParent: bool

    function Value(): Merge
      reads this, transaction
    {
      Merge(transaction.writes.Keys, transaction.deletes, transactionIt, parentIt, parentKey, curIsParent)
    }

    constructor (transaction: Transaction, parentIt: Cursor)
      requires parentIt.at.None?
      ensures this.transaction == transaction && Synced(Value()) && Value().below.keys == parentIt.keys
      ensures Abs(Value()).at.None?
    {
      this.transaction := transaction;
      this.parentIt := parentIt;
      transactionIt, parentKey, curIsParent := None, [], false;
    }

    predicate Valid()
      reads this
    {
      transactionIt.Some? || parentIt.at.Some?
    }

    /** Passes over the keys below that the transaction deletes or overwrites. */
    method SkipDeletedAndOverwritten()
      requires Stands(parentIt) && Stands(Cursor(transaction.writes.Keys, transactionIt))
      modifies this`parentIt, this`parentKey
      ensures Skipped(Value()) && parentIt.keys == old(parentIt.keys)
      ensures MergeRest(Value()) == old(MergeRest(Value()))
    {
      while parentIt.at.Some?
        invariant Stands(parentIt) && parentIt.keys == old(parentIt.keys)
        invariant Through(Value(), Rest(parentIt)) == old(Through(Value(), Rest(parentIt)))
        decreases |Rest(parentIt)|
      {
        parentKey := parentIt.at.value;
        if parentKey !in transaction.deletes && parentKey !in transaction.writes {
          break;
        }
        NextRest(parentIt);
        parentIt := Advance(parentIt);
      }
    }

    method DecideCur()
      requires Skipped(Value())
      modifies this`curIsParent
      ensures Ready(Value())
    {
      if transactionIt.Some? && parentIt.at.None? {
        curIsParent := false;
      } else if transactionIt.None? && parentIt.at.Some? {
        curIsParent := true;
      } else if transactionIt.Some? && parentIt.at.Some? {
        curIsParent := !Less(transactionIt.value, parentKey);
      }
    }

    method SeekToFirst()
      modifies this
      ensures Synced(Value()) && Abs(Value()) == ToFirst(old(Abs(Value()))) && parentIt.keys == old(parentIt.keys)
    {
      var w := Cursor(transaction.writes.Keys, transactionIt);
      SeekRest(w, []);
      SeekRest(parentIt, []);
      SeekRest(Abs(Value()), []);
      transactionIt := Least(transaction.writes.Keys);
      parentIt := ToFirst(parentIt);
      SkipDeletedAndOverwritten();
      DecideCur();
      InStep(Value(), ToFirst(old(Abs(Value()))));
    }

    method Seek(k: Key)
      modifies this
      ensures Synced(Value()) && Abs(Value()) == ToKey(old(Abs(Value())), k) && parentIt.keys == old(parentIt.keys)
    {
      var w := Cursor(transaction.writes.Keys, transactionIt);
      SeekRest(w, k);
      SeekRest(parentIt, k);
      SeekRest(Abs(Value()), k);
      transactionIt := Least(From(transaction.writes.Keys, k));
      parentIt := ToKey(parentIt, k);
      SkipDeletedAndOverwritten();
      DecideCur();
      InStep(Value(), ToKey(old(Abs(Value())), k));
    }

    method Next()
      requires Synced(Value())
      modifies this
      ensures Synced(Value()) && Abs(Value()) == Advance(old(Abs(Value()))) && parentIt.keys == old(parentIt.keys)
    {
      if transactionIt.None? && parentIt.at.None? {
        return;
      }
      ghost var m := Value();
      CurrentLeast(m);
      NextRest(Abs(m));
      if curIsParent {
        assert parentIt.at.Some?;
        MergeNext(m, Advance(parentIt), transactionIt);
        parentIt := Advance(parentIt);
        SkipDeletedAndOverwritten();
      } else {
        assert transactionIt.Some?;
        MergeNext(m, parentIt, Least(After(transaction.writes.Keys, transactionIt.value)));
        transactionIt := Least(After(transaction.writes.Keys, transactionIt.value));
      }
      DecideCur();
      InStep(Value(), Advance(Abs(m)));
    }

    method GetKey() returns (k: Key)
      requires Synced(Value())
      ensures k == if Abs(Value()).at.Some? then Abs(Value()).at.value else []
      ensures Valid() ==> IsLeast(Rest(Abs(Value())), k)
    {
      CurrentLeast(Value());
      if !Valid() {
        return [];
      }
      k := if curIsParent then parentKey else transactionIt.value;
    }

    /** The value at the current key is the one the transaction shows there. */
    method GetValue() returns (v: Option<DbOverlay.Value>)
      requires Synced(Value()) && transaction.Linked() && Inv(transaction.Value())
      requires parentIt.keys == View(transaction.BaseValue()).Keys
      ensures v.Some? <==> Valid()
      ensures v.Some? ==> Abs(Value()).at.Some? && v == Get(View(transaction.Value()), Abs(Value()).at.value)
    {
      CurrentLeast(Value());
      if !Valid() {
        return None;
      }
      v := transaction.ReadValue(if curIsParent then parentKey else transactionIt.value);
    }
  }

  /** The keys a merging iterator over the store below shows are those the transaction shows. */
  lemma ShownIsView(s: Store, m: Merge)
    requires s.Tx? && Inv(s) && m.writes == s.writes.Keys && m.deletes == s.deletes && m.below.keys == View(s.base).Keys
    ensures Shown(m) == View(s).Keys
  {
    assert View(s).Keys == (View(s.base).Keys - s.deletes) + s.writes.Keys;
  }

  /** The pairs are exactly the keys of the view from k on, in byte order, each with its value. */
  ghost predicate Listed(view: map<Key, DbOverlay.Value>, k: Key, keys: seq<Key>, values: seq<DbOverlay.Value>) {
    && Ascending(keys) && (forall j :: j in keys <==> j in From(view.Keys, k))
    && |keys| == |values| && forall i :: 0 <= i < |keys| ==> keys[i] in view && values[i] == view[keys[i]]
  }

  /** What has been walked over so far, and what is still to come, are the keys of a trace, with their values. */
  ghost predicate Walked(view: map<Key, DbOverlay.Value>, trace: seq<Key>, keys: seq<Key>, values: seq<DbOverlay.Value>,
                         c: Cursor)
  {
    && Stands(c) && keys + Trace(c) == trace && |keys| == |values|
    && forall i :: 0 <= i < |keys| ==> keys[i] in view && values[i] == view[keys[i]]
  }

  lemma WalkedNext(view: map<Key, DbOverlay.Value>, trace: seq<Key>, keys: seq<Key>, values: seq<DbOverlay.Value>,
                   c: Cursor, v: DbOverlay.Value)
    requires Walked(view, trace, keys, values, c) && c.at.Some? && Get(view, c.at.value) == Some(v)
    ensures Walked(view, trace, keys + [c.at.value], values + [v], Advance(c)) && |Rest(Advance(c))| < |Rest(c)|
  {
    NextRest(c);
    assert keys + ([c.at.value] + Trace(Advance(c))) == keys + [c.at.value] + Trace(Advance(c));
  }

  lemma WalkedAll(view: map<Key, DbOverlay.Value>, k: Key, start: Cursor, keys: seq<Key>, values: seq<DbOverlay.Value>,
                  c: Cursor)
    requires Stands(start) && Rest(start) == From(view.Keys, k)
    requires Walked(view, Trace(start), keys, values, c) && c.at.None?
    ensures Listed(view, k, keys, values)
  {
    TraceExact(start);
    assert keys == Trace(start);
  }

  /** The iterator stands for the plain one, and goes over the store below its transaction, which shows the view. */
  ghost predicate Fits(it: TransactionIterator, view: map<Key, DbOverlay.Value>, c: Cursor)
    reads it, it.transaction, it.transaction.Repr
  {
    && it.transaction.Linked() && it !in it.transaction.Repr && Inv(it.transaction.Value())
    && view == View(it.transaction.Value()) && it.parentIt.keys == View(it.transaction.BaseValue()).Keys
    && Synced(it.Value()) && Abs(it.Value()) == c && (it.Valid() <==> c.at.Some?)
  }

  /** Going to the start of a walk. */
  method WalkFrom(it: TransactionIterator, k: Key, ghost view: map<Key, DbOverlay.Value>) returns (ghost c: Cursor)
    requires it.transaction.Linked() && it !in it.transaction.Repr && Inv(it.transaction.Value())
    requires it.parentIt.keys == View(it.transaction.BaseValue()).Keys && view == View(it.transaction.Value())
    modifies it
    ensures Fits(it, view, c) && Stands(c) && Rest(c) == From(view.Keys, k)
  {
    ShownIsView(it.transaction.Value(), it.Value());
    SeekRest(Abs(it.Value()), k);
    it.Seek(k);
    c := Abs(it.Value());
  }

  /** One step of a walk. */
  method WalkOn(it: TransactionIterator, ghost view: map<Key, DbOverlay.Value>, ghost c: Cursor)
      returns (key: Key, value: DbOverlay.Value)
    requires Fits(it, view, c) && c.at.Some?
    modifies it
    ensures Fits(it, view, Advance(c)) && c.at == Some(key) && Get(view, key) == Some(value)
  {
    key := it.GetKey();
    var v := it.GetValue();
    value := v.value;
    it.Next();
  }

  /**
   * Walking from a key to the end yields exactly the keys the transaction shows from there on, once each in byte order,
   * each with the value the transaction shows.
   */
  method Walk(it: TransactionIterator, k: Key) returns (keys: seq<Key>, values: seq<DbOverlay.Value>)
    requires it.transaction.Linked() && it !in it.transaction.Repr && Inv(it.transaction.Value())
    requires it.parentIt.keys == View(it.transaction.BaseValue()).Keys
    modifies it
    ensures Listed(old(View(it.transaction.Value())), k, keys, values)
  {
    ghost var view := View(it.transaction.Value());
    ghost var start := WalkFrom(it, k, view);
    ghost var end;
    keys, values, end := WalkRest(it, view, start, Trace(start));
    WalkedAll(view, k, start, keys, values, end);
  }

  /** The loop of a walk. */
  method WalkRest(it: TransactionIterator, ghost view: map<Key, DbOverlay.Value>, ghost start: Cursor,
                  ghost trace: seq<Key>) returns (keys: seq<Key>, values: seq<DbOverlay.Value>, ghost c: Cursor)
    requires Fits(it, view, start) && Stands(start) && trace == Trace(start)
    modifies it
    ensures Walked(view, trace, keys, values, c) && c.at.None?
  {
    keys, values, c := [], [], start;
    assert [] + trace == trace;
    while it.Valid()
      invariant Fits(it, view, c) && Walked(view, trace, keys, values, c)
      decreases |Rest(c)|
    {
      var key, value := WalkOn(it, view, c);
      WalkedNext(view, trace, keys, values, c, value);
      keys, values, c := keys + [key], values + [value], Advance(c);
    }
  }
}
