/** Rebuilding a block from a compact block, the memory pool and extra transactions (src/blockencodings.cpp). */
module PartialBlock {
  import opened Common
  import opened CompactBlocks

  datatype Status = Ok | Invalid | Failed | CheckBlockFailed

  /** A transaction offered for the block, with the hash it is listed under. */
  datatype Entry = Entry(hash: nat, tx: Tx)

  /** The transactions offered, first those of the pool and then the extra ones, and the positions of the short ids. */
  datatype Offers = Offers(pos: map<nat, nat>, short: nat -> nat, pool: seq<Entry>, extra: seq<Entry>) {
    /** Where an offered transaction would go. */
    function Spot(e: Entry): Option<nat> {
      Get(pos, short(e.hash))
    }

    /** The first transaction of a list that goes to a position. */
    function FirstIn(entries: seq<Entry>, p: nat): Option<Tx> {
      if entries == [] then None
      else if Spot(entries[0]) == Some(p) then Some(entries[0].tx)
      else FirstIn(entries[1..], p)
    }

    function First(p: nat): Option<Tx> {
      var first := FirstIn(pool, p);
      if first.Some? then first else FirstIn(extra, p)
    }

    /** Two transactions of the pool go to the position, or an extra one that has another hash than the first. */
    ghost predicate Clash(p: nat) {
      || (exists i, j :: 0 <= i < j < |pool| && Spot(pool[i]) == Spot(pool[j]) == Some(p))
      || (exists e :: e in extra && Differs(e, p))
    }

    ghost predicate Differs(e: Entry, p: nat) {
      Spot(e) == Some(p) && First(p).Some? && e.tx.hash != First(p).value.hash
    }

    ghost predicate Stands(p: nat) { First(p).Some? && !Clash(p) }

    /** What the offers make of a slot: nothing if there are none, an open slot if they clash, else the first. */
    ghost function SlotAt(base: Slots, p: nat): Option<Tx>
      requires p < |base|
    {
      if First(p).None? then base[p] else if Clash(p) then None else First(p)
    }

    ghost function Standing(n: nat): set<nat> {
      set p: nat | p < n && Stands(p)
    }

    /** How many of n positions hold an offered transaction. */
    ghost function Filled(n: nat): nat { |Standing(n)| }

    /** The first k offers of the pool and the first m extra ones. */
    function Prefix(k: nat, m: nat): Offers
      requires k <= |pool| && m <= |extra|
    {
      this.(pool := pool[..k], extra := extra[..m])
    }

    function Add(e: Entry, isExtra: bool): Offers {
      if isExtra then this.(extra := extra + [e]) else this.(pool := pool + [e])
    }
  }

  lemma {:induction false} FirstInEnd(o: Offers, entries: seq<Entry>, e: Entry, p: nat)
    ensures o.FirstIn(entries + [e], p) ==
      if o.FirstIn(entries, p).Some? then o.FirstIn(entries, p)
      else if o.Spot(e) == Some(p) then Some(e.tx) else None
    decreases |entries|
  {
    if entries == [] {
      assert entries + [e] == [e];
    } else {
      FirstInEnd(o, entries[1..], e, p);
      assert (entries + [e])[1..] == entries[1..] + [e];
    }
  }

  /** There is a first transaction exactly if there is one at all. */
  lemma {:induction false} FirstInHas(o: Offers, entries: seq<Entry>, p: nat)
    ensures o.FirstIn(entries, p).Some? <==> exists e :: e in entries && o.Spot(e) == Some(p)
    ensures o.FirstIn(entries, p).Some? ==>
      exists e :: e in entries && o.Spot(e) == Some(p) && e.tx == o.FirstIn(entries, p).value
  {
    if entries != [] {
      FirstInHas(o, entries[1..], p);
      assert entries == [entries[0]] + entries[1..];
    }
  }

  /** More entries behind do not change the first one. */
  lemma {:induction false} FirstInPrefix(o: Offers, entries: seq<Entry>, k: nat, p: nat)
    requires k <= |entries| && o.FirstIn(entries[..k], p).Some?
    ensures o.FirstIn(entries, p) == o.FirstIn(entries[..k], p)
  {
    if o.Spot(entries[0]) != Some(p) {
      assert entries[..k][1..] == entries[1..][..k - 1];
      FirstInPrefix(o, entries[1..], k - 1, p);
    }
  }

  /** The first transaction depends on where entries go, not on what else is offered. */
  lemma {:induction false} FirstInSame(o: Offers, o': Offers, entries: seq<Entry>, p: nat)
    requires o.pos == o'.pos && o.short == o'.short
    ensures o.FirstIn(entries, p) == o'.FirstIn(entries, p)
  {
    if entries != [] { FirstInSame(o, o', entries[1..], p); }
  }

  lemma FirstHas(o: Offers, p: nat)
    ensures o.First(p).Some? <==> exists e :: (e in o.pool || e in o.extra) && o.Spot(e) == Some(p)
    ensures o.First(p).Some? ==>
      exists e :: (e in o.pool || e in o.extra) && o.Spot(e) == Some(p) && e.tx == o.First(p).value
  {
    FirstInHas(o, o.pool, p);
    FirstInHas(o, o.extra, p);
  }

  /** One more offer, at each position. */
  lemma AddFirst(o: Offers, e: Entry, isExtra: bool, p: nat)
    requires !isExtra ==> o.extra == []
    ensures o.Add(e, isExtra).First(p) ==
      if o.First(p).Some? then o.First(p) else if o.Spot(e) == Some(p) then Some(e.tx) else None
  {
    var o' := o.Add(e, isExtra);
    FirstInSame(o, o', o'.pool, p);
    FirstInSame(o, o', o'.extra, p);
    if isExtra { FirstInEnd(o, o.extra, e, p); } else { FirstInEnd(o, o.pool, e, p); }
  }

  lemma AddClash(o: Offers, e: Entry, isExtra: bool, p: nat)
    requires !isExtra ==> o.extra == []
    ensures o.Spot(e) != Some(p) ==> (o.Add(e, isExtra).Clash(p) <==> o.Clash(p))
    ensures o.Spot(e) == Some(p) && o.First(p).None? ==> !o.Add(e, isExtra).Clash(p)
    ensures o.Spot(e) == Some(p) && o.First(p).Some? ==>
      (o.Add(e, isExtra).Clash(p) <==> o.Clash(p) || !isExtra || e.tx.hash != o.First(p).value.hash)
  {
    AddFirst(o, e, isExtra, p);
    FirstInHas(o, o.pool, p);
    FirstInHas(o, o.extra, p);
    if isExtra { AddExtraClash(o, e, p); } else { AddPoolClash(o, e, p); }
  }

  lemma AddPoolClash(o: Offers, e: Entry, p: nat)
    requires o.extra == []
    ensures o.Add(e, false).Clash(p) <==>
      o.Clash(p) || (o.Spot(e) == Some(p) && o.FirstIn(o.pool, p).Some?)
  {
    var o' := o.Add(e, false);
    FirstInHas(o, o.pool, p);
    if i, j :| 0 <= i < j < |o.pool| && o.Spot(o.pool[i]) == o.Spot(o.pool[j]) == Some(p) {
      assert o'.pool[i] == o.pool[i] && o'.pool[j] == o.pool[j];
    }
    if o.Spot(e) == Some(p) && o.FirstIn(o.pool, p).Some? {
      var i :| 0 <= i < |o.pool| && o.Spot(o.pool[i]) == Some(p);
      assert o'.pool[i] == o.pool[i] && o'.pool[|o.pool|] == e;
    }
    if i, j :| 0 <= i < j < |o'.pool| && o'.Spot(o'.pool[i]) == o'.Spot(o'.pool[j]) == Some(p) {
      assert o'.pool[i] == o.pool[i];
      assert j < |o.pool| ==> o'.pool[j] == o.pool[j];
    }
  }

  lemma AddExtraClash(o: Offers, e: Entry, p: nat)
    ensures o.First(p).Some? ==> (o.Add(e, true).Clash(p) <==>
      o.Clash(p) || (o.Spot(e) == Some(p) && e.tx.hash != o.First(p).value.hash))
    ensures o.First(p).None? ==> !o.Add(e, true).Clash(p)
  {
    var o' := o.Add(e, true);
    AddFirstExtra(o, e, p);
    FirstHas(o, p);
    forall x ensures x in o'.extra <==> x in o.extra || x == e { }
    if o.First(p).Some? {
      forall x ensures o'.Differs(x, p) <==> o.Differs(x, p) { }
      if o.Clash(p) {
        if x :| x in o.extra && o.Differs(x, p) { assert x in o'.extra && o'.Differs(x, p); }
      }
      if o.Differs(e, p) { assert e in o'.extra && o'.Differs(e, p); }
      if o'.Clash(p) && !o.Clash(p) {
        var x :| x in o'.extra && o'.Differs(x, p);
        assert x == e;
      }
    } else {
      FirstInHas(o, o.pool, p);
      assert forall i :: 0 <= i < |o.pool| ==> o.Spot(o.pool[i]) != Some(p);
      assert forall x :: x in o'.extra && o'.Spot(x) == Some(p) ==> x == e;
    }
  }

  lemma AddFirstExtra(o: Offers, e: Entry, p: nat)
    ensures o.Add(e, true).First(p) ==
      if o.First(p).Some? then o.First(p) else if o.Spot(e) == Some(p) then Some(e.tx) else None
  {
    AddFirst(o, e, true, p);
  }

  // ----- Filling the slots -----

  /** The slots being filled, which of them were ever offered a transaction, and how many offers stand. */
  datatype Fill = Fill(slots: Slots, have: seq<bool>, count: nat)

  /** The slots, flags and count are exactly what the offers made so far make of them. */
  ghost predicate Inv(f: Fill, base: Slots, o: Offers) {
    && |f.slots| == |f.have| == |base|
    && (forall id :: id in o.pos ==> o.pos[id] < |base|)
    && (forall p :: 0 <= p < |base| ==> SlotOk(f, base, o, p))
    && f.count == o.Filled(|base|)
  }

  ghost predicate SlotOk(f: Fill, base: Slots, o: Offers, p: nat)
    requires p < |base| == |f.slots| == |f.have|
  {
    (f.have[p] <==> o.First(p).Some?) && f.slots[p] == o.SlotAt(base, p)
  }

  /** One offer to a position: taken if it is the first, else it may clash with the one that stands. */
  function Offer(f: Fill, p: nat, tx: Tx, isExtra: bool): Fill
    requires p < |f.slots| == |f.have|
    requires f.have[p] && f.slots[p].Some? ==> f.count > 0
  {
    if !f.have[p] then Fill(f.slots[p := Some(tx)], f.have[p := true], f.count + 1)
    else if f.slots[p].Some? && (!isExtra || f.slots[p].value.hash != tx.hash) then
      Fill(f.slots[p := None], f.have, f.count - 1)
    else f
  }

  function One(b: bool): nat { if b then 1 else 0 }

  lemma SizeAround(s: set<nat>, s': set<nat>, p: nat)
    requires s - {p} == s' - {p}
    ensures |s'| + One(p in s) == |s| + One(p in s')
  {
    assert p in s ==> s == (s - {p}) + {p};
    assert p in s' ==> s' == (s' - {p}) + {p};
    assert p !in s ==> s == s - {p};
    assert p !in s' ==> s' == s' - {p};
  }

  /** How an offer changes the number of positions that hold an offered transaction. */
  lemma FilledNext(o: Offers, e: Entry, isExtra: bool, n: nat)
    requires !isExtra ==> o.extra == []
    ensures var o' := o.Add(e, isExtra);
      if o.Spot(e).None? then o'.Filled(n) == o.Filled(n)
      else
        var p := o.Spot(e).value;
        o'.Filled(n) + One(p < n && o.Stands(p)) == o.Filled(n) + One(p < n && o'.Stands(p))
  {
    var o' := o.Add(e, isExtra);
    var s, s' := o.Standing(n), o'.Standing(n);
    forall p: nat ensures o.Spot(e) != Some(p) ==> (o'.Stands(p) <==> o.Stands(p)) {
      AddFirst(o, e, isExtra, p);
      AddClash(o, e, isExtra, p);
    }
    if o.Spot(e).Some? {
      var p := o.Spot(e).value;
      assert s - {p} == s' - {p};
      SizeAround(s, s', p);
    } else {
      assert s == s';
    }
  }

  /** An offer leaves exactly the slots that one more offer makes. */
  lemma OfferInv(f: Fill, base: Slots, o: Offers, e: Entry, p: nat, isExtra: bool)
    requires Inv(f, base, o) && o.Spot(e) == Some(p) && (!isExtra ==> o.extra == [])
    ensures f.have[p] && f.slots[p].Some? ==> f.count > 0
    ensures Inv(Offer(f, p, e.tx, isExtra), base, o.Add(e, isExtra))
  {
    FilledNext(o, e, isExtra, |base|);
    assert SlotOk(f, base, o, p);
    if o.Stands(p) { assert p in o.Standing(|base|); }
    AddFirst(o, e, isExtra, p);
    AddClash(o, e, isExtra, p);
    var f', o' := Offer(f, p, e.tx, isExtra), o.Add(e, isExtra);
    forall q | 0 <= q < |base| ensures SlotOk(f', base, o', q) {
      assert SlotOk(f, base, o, q);
      AddFirst(o, e, isExtra, q);
      AddClash(o, e, isExtra, q);
    }
  }

  /** An entry that has no place changes nothing. */
  lemma PassInv(f: Fill, base: Slots, o: Offers, e: Entry, isExtra: bool)
    requires Inv(f, base, o) && o.Spot(e).None? && (!isExtra ==> o.extra == [])
    ensures Inv(f, base, o.Add(e, isExtra))
  {
    FilledNext(o, e, isExtra, |base|);
    var o' := o.Add(e, isExtra);
    forall q | 0 <= q < |base| ensures SlotOk(f, base, o', q) {
      assert SlotOk(f, base, o, q);
      AddFirst(o, e, isExtra, q);
      AddClash(o, e, isExtra, q);
    }
  }

  lemma {:induction false} ValuesSize(m: map<nat, nat>)
    ensures |m.Values| <= |m|
    decreases |m|
  {
    if k :| k in m {
      var rest := m - {k};
      assert rest.Keys == m.Keys - {k};
      assert |rest| == |rest.Keys| && |m| == |m.Keys|;
      ValuesSize(rest);
      assert m.Values <= rest.Values + {m[k]} by {
        forall v | v in m.Values ensures v in rest.Values + {m[k]} {
          var j :| j in m && m[j] == v;
          if j != k { assert rest[j] == v; }
        }
      }
      SubsetSize(m.Values, rest.Values + {m[k]});
    }
  }

  /** Every position of a short id has been offered something. */
  ghost predicate AllOffered(o: Offers) {
    forall id :: id in o.pos ==> o.First(o.pos[id]).Some?
  }

  /** When the count reaches the number of short ids, all their positions are filled. */
  lemma FullMeansOffered(o: Offers, n: nat)
    requires o.Filled(n) == |o.pos|
    ensures AllOffered(o)
  {
    var s := o.Standing(n);
    assert s <= o.pos.Values by {
      forall p | p in s ensures p in o.pos.Values {
        FirstHas(o, p);
        var e :| (e in o.pool || e in o.extra) && o.Spot(e) == Some(p);
        assert o.pos[o.short(e.hash)] == p;
      }
    }
    ValuesSize(o.pos);
    SubsetSize(s, o.pos.Values);
    forall id | id in o.pos ensures o.First(o.pos[id]).Some? {
      assert o.pos[id] in o.pos.Values;
      assert o.pos[id] in s;
    }
  }

  /** Offers one entry, if it has a place. */
  method OfferEntry(f: Fill, ghost base: Slots, ghost o: Offers, pos: map<nat, nat>, short: nat -> nat, e: Entry,
                    isExtra: bool) returns (f': Fill)
    requires Inv(f, base, o) && pos == o.pos && short == o.short && (!isExtra ==> o.extra == [])
    ensures Inv(f', base, o.Add(e, isExtra))
  {
    f' := f;
    if short(e.hash) in pos {
      var p := pos[short(e.hash)];
      OfferInv(f, base, o, e, p, isExtra);
      if !f.have[p] {
        f' := Fill(f.slots[p := Some(e.tx)], f.have[p := true], f.count + 1);
      } else if f.slots[p].Some? && (!isExtra || f.slots[p].value.hash != e.tx.hash) {
        f' := Fill(f.slots[p := None], f.have, f.count - 1);
      }
    } else {
      PassInv(f, base, o, e, isExtra);
    }
  }

  /** Before the k-th entry of the pool there is always an open position left. */
  ghost predicate PoolGoesOn(o: Offers, n: nat, k: nat)
    requires k <= |o.pool|
  {
    forall i :: 0 < i < k ==> o.Prefix(i, 0).Filled(n) != |o.pos|
  }

  /** The loop over the pool stops after the k-th entry: the first after which all positions are filled, or the last. */
  ghost predicate PoolStop(o: Offers, n: nat, k: nat) {
    && k <= |o.pool| && PoolGoesOn(o, n, k)
    && (k < |o.pool| ==> k > 0 && o.Prefix(k, 0).Filled(n) == |o.pos|)
  }

  ghost predicate ExtraGoesOn(o: Offers, n: nat, k: nat, m: nat)
    requires k <= |o.pool| && m <= |o.extra|
  {
    forall i :: 0 < i < m ==> o.Prefix(k, i).Filled(n) != |o.pos|
  }

  /** Likewise the loop over the extra transactions, after the k first entries of the pool. */
  ghost predicate ExtraStop(o: Offers, n: nat, k: nat, m: nat)
    requires k <= |o.pool|
  {
    && m <= |o.extra| && ExtraGoesOn(o, n, k, m)
    && (m < |o.extra| ==> m > 0 && o.Prefix(k, m).Filled(n) == |o.pos|)
  }

  /** The loop over the memory pool. */
  method MatchPool(base: Slots, ghost o: Offers, pos: map<nat, nat>, short: nat -> nat, pool: seq<Entry>)
      returns (f: Fill, ghost k: nat)
    requires pos == o.pos && short == o.short && pool == o.pool && forall id :: id in pos ==> pos[id] < |base|
    ensures PoolStop(o, |base|, k) && Inv(f, base, o.Prefix(k, 0))
  {
    f := Fill(base, seq(|base|, _ => false), 0);
    NothingOffered(f, base, o.Prefix(0, 0));
    for i := 0 to |pool|
      invariant Inv(f, base, o.Prefix(i, 0))
      invariant PoolGoesOn(o, |base|, i) && (i > 0 ==> f.count != |pos|)
    {
      f := OfferEntry(f, base, o.Prefix(i, 0), pos, short, pool[i], false);
      PrefixNext(o, i, 0, false);
      if f.count == |pos| {
        return f, i + 1;
      }
    }
    k := |pool|;
  }

  lemma PrefixNext(o: Offers, k: nat, m: nat, isExtra: bool)
    requires k <= |o.pool| && m <= |o.extra|
    ensures !isExtra && k < |o.pool| ==> o.Prefix(k, m).Add(o.pool[k], false) == o.Prefix(k + 1, m)
    ensures isExtra && m < |o.extra| ==> o.Prefix(k, m).Add(o.extra[m], true) == o.Prefix(k, m + 1)
  {
    assert k < |o.pool| ==> o.pool[..k + 1] == o.pool[..k] + [o.pool[k]];
    assert m < |o.extra| ==> o.extra[..m + 1] == o.extra[..m] + [o.extra[m]];
  }

  lemma NothingOffered(f: Fill, base: Slots, o: Offers)
    requires o.pool == [] && o.extra == [] && forall id :: id in o.pos ==> o.pos[id] < |base|
    requires f.slots == base && |f.have| == |base| && (forall p :: 0 <= p < |base| ==> !f.have[p]) && f.count == 0
    ensures Inv(f, base, o)
  {
    assert o.Standing(|base|) == {};
  }

  /** The loop over the extra transactions. */
  method MatchExtra(f0: Fill, ghost base: Slots, ghost o: Offers, pos: map<nat, nat>, short: nat -> nat, ghost k: nat,
                    extra: seq<Entry>) returns (f: Fill, ghost m: nat)
    requires pos == o.pos && short == o.short && extra == o.extra && k <= |o.pool| && Inv(f0, base, o.Prefix(k, 0))
    ensures ExtraStop(o, |base|, k, m) && Inv(f, base, o.Prefix(k, m))
  {
    f := f0;
    for i := 0 to |extra|
      invariant Inv(f, base, o.Prefix(k, i))
      invariant ExtraGoesOn(o, |base|, k, i) && (i > 0 ==> f.count != |pos|)
    {
      f := OfferEntry(f, base, o.Prefix(k, i), pos, short, extra[i], true);
      PrefixNext(o, k, i, true);
      if f.count == |pos| {
        return f, i + 1;
      }
    }
    m := |extra|;
  }

  // ----- Stopping early -----

  /** An entry that was not offered any more and would have emptied a slot that holds a transaction. */
  ghost predicate LateClash(o: Offers, k: nat, m: nat, p: nat)
    requires k <= |o.pool| && m <= |o.extra|
  {
    var q := o.Prefix(k, m);
    && q.Stands(p)
    && ( || (exists i :: k <= i < |o.pool| && o.Spot(o.pool[i]) == Some(p))
         || (exists i :: m <= i < |o.extra| && q.Differs(o.extra[i], p)))
  }

  /** Whoever has a place finds it offered to before the loops stop. */
  lemma StopMeansOffered(o: Offers, n: nat, k: nat, m: nat)
    requires PoolStop(o, n, k) && ExtraStop(o, n, k, m)
    ensures k < |o.pool| ==> AllOffered(o.Prefix(k, 0))
    ensures m < |o.extra| ==> AllOffered(o.Prefix(k, m))
  {
    if k < |o.pool| { FullMeansOffered(o.Prefix(k, 0), n); }
    if m < |o.extra| { FullMeansOffered(o.Prefix(k, m), n); }
  }

  /** Leaving out the end of the lists changes no first offer. */
  lemma StopFirst(o: Offers, n: nat, k: nat, m: nat, p: nat)
    requires PoolStop(o, n, k) && ExtraStop(o, n, k, m)
    ensures o.Prefix(k, m).First(p) == o.First(p)
    ensures k < |o.pool| && o.First(p).Some? ==> o.FirstIn(o.pool[..k], p).Some?
  {
    var q, q0 := o.Prefix(k, m), o.Prefix(k, 0);
    StopMeansOffered(o, n, k, m);
    FirstInSame(o, q, o.pool[..k], p);
    FirstInSame(o, q, o.extra[..m], p);
    FirstInSame(o, q0, o.pool[..k], p);
    FirstHas(o, p);
    assert o.First(p).Some? ==> exists id :: id in o.pos && o.pos[id] == p;
    if o.FirstIn(o.pool[..k], p).Some? {
      FirstInPrefix(o, o.pool, k, p);
    } else {
      assert k < |o.pool| ==> o.First(p).None?;
      if k == |o.pool| {
        assert o.pool[..k] == o.pool;
        if o.FirstIn(o.extra[..m], p).Some? {
          FirstInPrefix(o, o.extra, m, p);
        } else if m == |o.extra| {
          assert o.extra[..m] == o.extra;
        }
      } else {
        FirstInHas(o, o.extra[..m], p);
      }
    }
  }

  /** A slot clashes with all offers exactly if it does with those made, or a later one clashes. */
  lemma StopClash(o: Offers, n: nat, k: nat, m: nat, p: nat)
    requires PoolStop(o, n, k) && ExtraStop(o, n, k, m) && o.First(p).Some?
    ensures o.Clash(p) <==> o.Prefix(k, m).Clash(p) || LateClash(o, k, m, p)
  {
    var q := o.Prefix(k, m);
    StopFirst(o, n, k, m, p);
    forall e ensures q.Differs(e, p) <==> o.Differs(e, p) { }
    if q.Clash(p) {
      if i, j :| 0 <= i < j < k && q.Spot(q.pool[i]) == q.Spot(q.pool[j]) == Some(p) {
        assert q.pool[i] == o.pool[i] && q.pool[j] == o.pool[j];
      } else {
        var e :| e in q.extra && q.Differs(e, p);
        assert e in o.extra;
      }
      assert o.Clash(p);
    }
    if LateClash(o, k, m, p) { LateMeansClash(o, n, k, m, p); }
    if o.Clash(p) && !q.Clash(p) { ClashMeansLate(o, n, k, m, p); }
  }

  lemma LateMeansClash(o: Offers, n: nat, k: nat, m: nat, p: nat)
    requires PoolStop(o, n, k) && ExtraStop(o, n, k, m) && LateClash(o, k, m, p)
    ensures o.Clash(p)
  {
    var q := o.Prefix(k, m);
    StopFirst(o, n, k, m, p);
    if j :| k <= j < |o.pool| && o.Spot(o.pool[j]) == Some(p) {
      FirstInHas(o, o.pool[..k], p);
      var e :| e in o.pool[..k] && o.Spot(e) == Some(p);
      var i :| 0 <= i < k && o.pool[..k][i] == e;
      assert o.pool[i] == e;
    } else {
      var i :| m <= i < |o.extra| && q.Differs(o.extra[i], p);
      assert o.Differs(o.extra[i], p);
    }
  }

  lemma ClashMeansLate(o: Offers, n: nat, k: nat, m: nat, p: nat)
    requires PoolStop(o, n, k) && ExtraStop(o, n, k, m) && o.First(p).Some?
    requires o.Clash(p) && !o.Prefix(k, m).Clash(p)
    ensures LateClash(o, k, m, p)
  {
    var q := o.Prefix(k, m);
    StopFirst(o, n, k, m, p);
    forall i, j | 0 <= i < j < k ensures !(o.Spot(o.pool[i]) == o.Spot(o.pool[j]) == Some(p)) {
      assert q.pool[i] == o.pool[i] && q.pool[j] == o.pool[j];
    }
    forall i | 0 <= i < m ensures !q.Differs(o.extra[i], p) {
      assert q.extra[i] == o.extra[i];
    }
    if i, j :| 0 <= i < j < |o.pool| && o.Spot(o.pool[i]) == o.Spot(o.pool[j]) == Some(p) {
      assert j >= k;
    } else {
      var e :| e in o.extra && o.Differs(e, p);
      var i :| 0 <= i < |o.extra| && o.extra[i] == e;
      assert q.Differs(e, p);
    }
  }

  /**
   * Stopping early leaves the slots that offering everything would leave if and only if no entry that was not offered
   * any more clashes at a slot that holds a transaction.
   */
  lemma EarlyStopExact(o: Offers, base: Slots, k: nat, m: nat)
    requires PoolStop(o, |base|, k) && ExtraStop(o, |base|, k, m)
    ensures (forall p :: 0 <= p < |base| ==> o.Prefix(k, m).SlotAt(base, p) == o.SlotAt(base, p))
       <==> (forall p :: 0 <= p < |base| ==> !LateClash(o, k, m, p))
  {
    forall p | 0 <= p < |base|
      ensures o.Prefix(k, m).SlotAt(base, p) == o.SlotAt(base, p) <==> !LateClash(o, k, m, p)
    {
      StopFirst(o, |base|, k, m, p);
      if o.First(p).Some? { StopClash(o, |base|, k, m, p); }
    }
  }

  /** The failing input: one short id, and two transactions of the pool that have it. */
  lemma EarlyStopDiffers(a: Tx, b: Tx) returns (o: Offers)
    ensures o.pos == map[7 := 0] && o.pool == [Entry(a.hash, a), Entry(b.hash, b)] && o.extra == []
    ensures PoolStop(o, 1, 1) && ExtraStop(o, 1, 1, 0)
    ensures o.Prefix(1, 0).SlotAt([None], 0) == Some(a) && o.SlotAt([None], 0) == None
  {
    o := Offers(map[7 := 0], _ => 7, [Entry(a.hash, a), Entry(b.hash, b)], []);
    var q := o.Prefix(1, 0);
    assert q.pool == [Entry(a.hash, a)];
    assert q.First(0) == Some(a) && !q.Clash(0);
    assert q.Standing(1) == {0};
    assert o.Spot(o.pool[0]) == o.Spot(o.pool[1]) == Some(0);
  }

  // ----- The message of a block, and what comes of it -----

  /** A message describes a block: its prefilled transactions are the block's, its short ids those of the others. */
  ghost predicate Describes(msg: Message, base: Slots, vtx: seq<Tx>) {
    && |vtx| == |base| == |msg.ids| + |msg.prefilled| && Placed(base, msg.prefilled)
    && (forall p :: 0 <= p < |base| && base[p].Some? ==> base[p].value == vtx[p])
    && Named(msg, Free(base), vtx)
  }

  /** The short ids are those of the transactions at the given positions. */
  ghost predicate Named(msg: Message, free: seq<nat>, vtx: seq<Tx>) {
    && |free| == |msg.ids|
    && (forall i :: 0 <= i < |free| ==> free[i] < |vtx| && msg.ids[i] == msg.short(vtx[free[i]].hash))
  }

  /** Nothing on offer has the short id of a block's transaction without being it. */
  ghost predicate CollisionFree(short: nat -> nat, vtx: seq<Tx>, entries: seq<Entry>) {
    forall e, i :: e in entries && 0 <= i < |vtx| && short(e.hash) == short(vtx[i].hash) ==> e.tx == vtx[i]
  }

  /** The pool lists each transaction once, under its own hash. */
  ghost predicate PoolListed(pool: seq<Entry>) {
    && (forall i :: 0 <= i < |pool| ==> pool[i].hash == pool[i].tx.hash)
    && (forall i, j :: 0 <= i < j < |pool| ==> pool[i].hash != pool[j].hash)
  }

  /** Every transaction of the block that is on offer is held. */
  ghost predicate Held(short: nat -> nat, vtx: seq<Tx>, slots: Slots, entries: seq<Entry>)
    requires |slots| == |vtx|
  {
    forall e, p :: e in entries && 0 <= p < |vtx| && short(e.hash) == short(vtx[p].hash) ==> slots[p].Some?
  }

  /** Each short id stands for the open position of the same rank. */
  ghost predicate InRange(pos: map<nat, nat>, ids: seq<nat>, free: seq<nat>) {
    && |free| == |ids|
    && (forall i :: 0 <= i < |ids| ==> ids[i] in pos && pos[ids[i]] == free[i])
    && (forall id :: id in pos ==> id in ids)
  }

  lemma SmallBlock(base: Slots, ids: seq<nat>, pos: map<nat, nat>)
    requires |Free(base)| == |ids| && Maps(pos, ids, |ids|, Free(base)) && (forall id :: id in pos ==> id in ids)
    requires |base| <= MAX16 + 1
    ensures InRange(pos, ids, Free(base))
  {
    var free := Free(base);
    forall i | 0 <= i < |ids| ensures ids[i] in pos && pos[ids[i]] == free[i] {
      assert 0 <= free[i] < |base|;
    }
  }

  /** What stands for the positions of a message's short ids: its map, in a block that 16 bits can number. */
  ghost predicate Serves(o: Offers, msg: Message, base: Slots) {
    o.short == msg.short && InRange(o.pos, msg.ids, Free(base))
  }

  /** Who is offered a position shares the short id of the block's transaction there. */
  lemma SpotIsShort(msg: Message, base: Slots, vtx: seq<Tx>, o: Offers, e: Entry, p: nat)
    requires Describes(msg, base, vtx) && Serves(o, msg, base)
    ensures o.Spot(e) == Some(p) ==> p < |base| && base[p].None? && msg.short(e.hash) == msg.short(vtx[p].hash)
  {
    var id, free := msg.short(e.hash), Free(base);
    if id in o.pos {
      var i :| 0 <= i < |msg.ids| && msg.ids[i] == id;
      assert o.pos[id] == free[i];
      assert base[free[i]].None? && msg.ids[i] == msg.short(vtx[free[i]].hash);
    }
  }

  lemma ShortIsSpot(msg: Message, base: Slots, vtx: seq<Tx>, o: Offers, e: Entry, p: nat)
    requires Describes(msg, base, vtx) && Serves(o, msg, base)
    requires p < |base| && base[p].None? && msg.short(e.hash) == msg.short(vtx[p].hash)
    ensures o.Spot(e) == Some(p)
  {
    FreeHas(base, 0, p);
    var free := Free(base);
    var i :| 0 <= i < |free| && free[i] == p;
    assert msg.ids[i] == msg.short(vtx[free[i]].hash);
  }

  /** Without short id collisions, what is offered to a position is the block's transaction there. */
  lemma FirstIsRight(msg: Message, base: Slots, vtx: seq<Tx>, o: Offers, p: nat)
    requires Describes(msg, base, vtx) && Serves(o, msg, base)
    requires CollisionFree(msg.short, vtx, o.pool) && CollisionFree(msg.short, vtx, o.extra)
    ensures o.First(p).Some? ==> p < |vtx| && o.First(p).value == vtx[p]
  {
    FirstHas(o, p);
    if o.First(p).Some? {
      var e :| (e in o.pool || e in o.extra) && o.Spot(e) == Some(p) && e.tx == o.First(p).value;
      SpotIsShort(msg, base, vtx, o, e, p);
    }
  }

  /** Nothing clashes where nothing collides. */
  lemma NoClash(msg: Message, base: Slots, vtx: seq<Tx>, o: Offers, p: nat)
    requires Describes(msg, base, vtx) && Serves(o, msg, base)
    requires CollisionFree(msg.short, vtx, o.pool) && CollisionFree(msg.short, vtx, o.extra) && PoolListed(o.pool)
    ensures !o.Clash(p)
  {
    FirstIsRight(msg, base, vtx, o, p);
    forall i, j | 0 <= i < j < |o.pool| ensures !(o.Spot(o.pool[i]) == o.Spot(o.pool[j]) == Some(p)) {
      SpotIsShort(msg, base, vtx, o, o.pool[i], p);
      SpotIsShort(msg, base, vtx, o, o.pool[j], p);
    }
    forall e | e in o.extra ensures !o.Differs(e, p) {
      SpotIsShort(msg, base, vtx, o, e, p);
    }
  }

  lemma PrefixListed(msg: Message, vtx: seq<Tx>, o: Offers, k: nat, m: nat)
    requires k <= |o.pool| && m <= |o.extra|
    requires CollisionFree(msg.short, vtx, o.pool) && CollisionFree(msg.short, vtx, o.extra)
    ensures var q := o.Prefix(k, m);
      && CollisionFree(msg.short, vtx, q.pool) && CollisionFree(msg.short, vtx, q.extra)
      && (PoolListed(o.pool) ==> PoolListed(q.pool))
  {
    var q := o.Prefix(k, m);
    assert forall i :: 0 <= i < k ==> q.pool[i] == o.pool[i];
  }

  /** Without short id collisions, what a slot holds after the loops is the block's transaction. */
  lemma SlotsRight(msg: Message, base: Slots, vtx: seq<Tx>, o: Offers, k: nat, m: nat, f: Fill)
    requires Describes(msg, base, vtx) && Serves(o, msg, base) && k <= |o.pool| && m <= |o.extra|
    requires Inv(f, base, o.Prefix(k, m))
    requires CollisionFree(msg.short, vtx, o.pool) && CollisionFree(msg.short, vtx, o.extra)
    ensures forall p :: 0 <= p < |vtx| && f.slots[p].Some? ==> f.slots[p].value == vtx[p]
  {
    PrefixListed(msg, vtx, o, k, m);
    forall p | 0 <= p < |vtx| && f.slots[p].Some? ensures f.slots[p].value == vtx[p] {
      assert SlotOk(f, base, o.Prefix(k, m), p);
      FirstIsRight(msg, base, vtx, o.Prefix(k, m), p);
    }
  }

  /** And every transaction of the block that is on offer is held, although the loops may stop early. */
  lemma OfferedIsHeld(msg: Message, base: Slots, vtx: seq<Tx>, o: Offers, k: nat, m: nat, f: Fill)
    requires Describes(msg, base, vtx) && Serves(o, msg, base)
    requires PoolStop(o, |base|, k) && ExtraStop(o, |base|, k, m) && Inv(f, base, o.Prefix(k, m))
    requires CollisionFree(msg.short, vtx, o.pool) && CollisionFree(msg.short, vtx, o.extra) && PoolListed(o.pool)
    ensures Held(msg.short, vtx, f.slots, o.pool) && Held(msg.short, vtx, f.slots, o.extra)
  {
    var q := o.Prefix(k, m);
    PrefixListed(msg, vtx, o, k, m);
    forall e, p | (e in o.pool || e in o.extra) && 0 <= p < |vtx| && msg.short(e.hash) == msg.short(vtx[p].hash)
      ensures f.slots[p].Some?
    {
      assert SlotOk(f, base, q, p);
      if base[p].None? {
        ShortIsSpot(msg, base, vtx, o, e, p);
        FirstHas(o, p);
        StopFirst(o, |base|, k, m, p);
        NoClash(msg, base, vtx, q, p);
      } else {
        NoClash(msg, base, vtx, q, p);
      }
    }
  }

  /** The first n slots are filled, with that many of the given transactions. */
  ghost predicate CompletedTo(vtx: seq<Tx>, slots: Slots, missing: seq<Tx>, n: nat, offset: nat) {
    && |vtx| == n <= |slots| && offset <= |missing| && offset <= |Free(slots)|
    && FreeFrom(slots, n) == Free(slots)[offset..]
    && (forall p :: 0 <= p < n && slots[p].Some? ==> vtx[p] == slots[p].value)
    && (forall k :: 0 <= k < offset ==> Free(slots)[k] < n && vtx[Free(slots)[k]] == missing[k])
  }

  lemma CompletedNext(vtx: seq<Tx>, slots: Slots, missing: seq<Tx>, n: nat, offset: nat)
    requires CompletedTo(vtx, slots, missing, n, offset) && n < |slots|
    ensures slots[n].Some? ==> CompletedTo(vtx + [slots[n].value], slots, missing, n + 1, offset)
    ensures slots[n].None? ==> offset < |Free(slots)| && Free(slots)[offset] == n
    ensures slots[n].None? && offset < |missing| ==>
      CompletedTo(vtx + [missing[offset]], slots, missing, n + 1, offset + 1)
  {
    if slots[n].None? { OpenAt(slots, offset, n); }
  }

  /** A block with its open slots filled, in order, with the given transactions. */
  ghost predicate Completed(vtx: seq<Tx>, slots: Slots, missing: seq<Tx>) {
    && |vtx| == |slots| && |missing| == |Free(slots)|
    && (forall p :: 0 <= p < |slots| && slots[p].Some? ==> vtx[p] == slots[p].value)
    && (forall i :: 0 <= i < |missing| ==> vtx[Free(slots)[i]] == missing[i])
  }

  /**
   * Reconstruction: without short id collisions, in a block of at most 65536 transactions, the slots completed with the
   * block's own transactions at the open positions are the block.
   */
  lemma Reconstruct(msg: Message, base: Slots, vtx: seq<Tx>, o: Offers, k: nat, m: nat, f: Fill,
                    missing: seq<Tx>, rebuilt: seq<Tx>)
    requires Describes(msg, base, vtx) && Serves(o, msg, base) && k <= |o.pool| && m <= |o.extra|
    requires Inv(f, base, o.Prefix(k, m))
    requires CollisionFree(msg.short, vtx, o.pool) && CollisionFree(msg.short, vtx, o.extra)
    requires Completed(rebuilt, f.slots, missing)
    requires forall i :: 0 <= i < |missing| ==> missing[i] == vtx[Free(f.slots)[i]]
    ensures rebuilt == vtx
  {
    SlotsRight(msg, base, vtx, o, k, m, f);
    forall p | 0 <= p < |vtx| ensures rebuilt[p] == vtx[p] {
      if f.slots[p].None? {
        FreeHas(f.slots, 0, p);
        var i :| 0 <= i < |Free(f.slots)| && Free(f.slots)[i] == p;
        assert missing[i] == vtx[p];
      }
    }
  }

  /** The message a block is announced with: the first transaction whole, the others by their short ids. */
  method Announce(header: nat, vtx: seq<Tx>, short: nat -> nat) returns (msg: Message)
    requires |vtx| >= 1
    ensures msg.header == Some(header) && msg.short == short && Announces(msg, vtx)
  {
    var ids: seq<nat> := [];
    for i := 1 to |vtx|
      invariant |ids| == i - 1 && forall k :: 1 <= k < i ==> ids[k - 1] == short(vtx[k].hash)
    {
      ids := ids + [short(vtx[i].hash)];
    }
    msg := Message(Some(header), ids, [Prefilled(0, vtx[0])], short);
  }

  /** The message announces the block. */
  ghost predicate Announces(msg: Message, vtx: seq<Tx>) {
    && |vtx| >= 1 && |msg.prefilled| == 1 && msg.prefilled[0] == Prefilled(0, vtx[0]) && |msg.ids| == |vtx| - 1
    && forall i :: 1 <= i < |vtx| ==> msg.ids[i - 1] == msg.short(vtx[i].hash)
  }

  /** The announced message is accepted exactly if its first transaction is not null. */
  lemma AnnounceAccepted(msg: Message, vtx: seq<Tx>)
    requires Announces(msg, vtx)
    ensures Accepted(msg.prefilled, |msg.ids|) <==> !vtx[0].empty
  {
    PlacesNext(msg.prefilled, 0);
    assert Places(msg.prefilled)[..0] == [];
  }

  lemma AnnounceDistinct(msg: Message, vtx: seq<Tx>)
    requires Announces(msg, vtx)
    ensures Distinct(msg.ids, |msg.ids|) <==>
      forall i, j :: 1 <= i < j < |vtx| ==> msg.short(vtx[i].hash) != msg.short(vtx[j].hash)
  {
    var ids := msg.ids;
    if Distinct(ids, |ids|) {
      forall i, j | 1 <= i < j < |vtx| ensures msg.short(vtx[i].hash) != msg.short(vtx[j].hash) {
        assert ids[i - 1] != ids[j - 1];
      }
    } else {
      var i, j :| 0 <= i < j < |ids| && ids[i] == ids[j];
      assert ids[i + 1 - 1] == msg.short(vtx[i + 1].hash) && ids[j + 1 - 1] == msg.short(vtx[j + 1].hash);
    }
  }

  /** The announced message describes the block. */
  lemma AnnounceDescribes(msg: Message, vtx: seq<Tx>, base: Slots)
    requires Announces(msg, vtx) && |base| == |vtx| && Placed(base, msg.prefilled)
    ensures Describes(msg, base, vtx)
  {
    var ps := Places(msg.prefilled);
    PlacesNext(msg.prefilled, 0);
    assert ps[..0] == [] && ps == [0];
    assert base[0] == Some(vtx[0]);
    AllFreeFrom(base, 1);
    assert Free(base) == FreeFrom(base, 1);
  }

  lemma {:induction false} AllFreeFrom(slots: Slots, p: nat)
    requires p <= |slots| && forall q :: p <= q < |slots| ==> slots[q].None?
    ensures |FreeFrom(slots, p)| == |slots| - p && forall i :: 0 <= i < |slots| - p ==> FreeFrom(slots, p)[i] == p + i
    decreases |slots| - p
  {
    if p < |slots| { AllFreeFrom(slots, p + 1); }
  }

  /** The checks on a message before anything of it is used. */
  predicate Plausible(msg: Message, maxCount: nat) {
    msg.header.Some? && (msg.ids != [] || msg.prefilled != []) && |msg.ids| + |msg.prefilled| <= maxCount
  }

  /** A message that is accepted and whose scan never ends. */
  lemma EndlessMessage(header: nat, tx: Tx, short: nat -> nat) returns (msg: Message)
    requires !tx.empty
    ensures Plausible(msg, MAX16 + 2) && Accepted(msg.prefilled, |msg.ids|) && msg.ids != []
    ensures forall slots, n: nat :: Placed(slots, msg.prefilled) && |slots| == |msg.ids| + |msg.prefilled| ==>
      PassesTest(slots, n)
  {
    msg := Message(Some(header), [0], seq(MAX16 + 1, _ => Prefilled(0, tx)), short);
    forall i | 0 <= i < |msg.prefilled| ensures Places(msg.prefilled)[i] == i {
      PlacesInRow(msg.prefilled, i);
    }
    forall slots, n: nat | Placed(slots, msg.prefilled) && |slots| == |msg.ids| + |msg.prefilled|
      ensures PassesTest(slots, n)
    {
      EndlessExact(slots, msg.prefilled, 1);
    }
  }

  class PartiallyDownloadedBlock {
    var header: Option<nat>
    var txnAvailable: Slots
    var prefilledCount: nat
    var mempoolCount: nat

    constructor ()
      ensures header.None? && txnAvailable == [] && prefilledCount == mempoolCount == 0
    {
      header, txnAvailable, prefilledCount, mempoolCount := None, [], 0, 0;
    }

    /**
     * InitData. `maxCount` is the limit on transactions, `crowded` the outcome of the bucket checks. On success the
     * slots and the count are exactly what the prefilled transactions and the offers made so far leave: those of the
     * first k entries of the pool and the first m extra transactions, after which the loops stop.
     */
    method InitData(msg: Message, maxCount: nat, crowded: seq<bool>, pool: seq<Entry>, extra: seq<Entry>)
        returns (status: Status, ghost base: Slots, ghost o: Offers, ghost k: nat, ghost m: nat, ghost f: Fill)
      requires header.None? && txnAvailable == [] && mempoolCount == 0 && |crowded| == |msg.ids|
      requires msg.ids != [] ==> |msg.prefilled| != MAX16 + 1
      modifies this
      ensures status == Invalid <==> !Plausible(msg, maxCount) || !Accepted(msg.prefilled, |msg.ids|)
      ensures status == Failed <==>
        && Plausible(msg, maxCount) && Accepted(msg.prefilled, |msg.ids|)
        && !(Distinct(msg.ids, |msg.ids|) && forall i :: 0 <= i < |msg.ids| ==> !crowded[i])
      ensures status != CheckBlockFailed
      ensures header == if Plausible(msg, maxCount) then msg.header else None
      ensures status == Ok ==>
        && |base| == |msg.ids| + |msg.prefilled| && Placed(base, msg.prefilled)
        && |Free(base)| == |msg.ids| && Maps(o.pos, msg.ids, |msg.ids|, Free(base))
        && (forall id :: id in o.pos ==> id in msg.ids)
        && o == Offers(o.pos, msg.short, pool, extra)
        && PoolStop(o, |base|, k) && ExtraStop(o, |base|, k, m) && Inv(f, base, o.Prefix(k, m))
        && txnAvailable == f.slots && mempoolCount == f.count && prefilledCount == |msg.prefilled|
    {
      base, o, k, m, f := [], Offers(map[], msg.short, pool, extra), 0, 0, Fill([], [], 0);
      if msg.header.None? || (msg.ids == [] && msg.prefilled == []) {
        return Invalid, base, o, k, m, f;
      }
      if |msg.ids| + |msg.prefilled| > maxCount {
        return Invalid, base, o, k, m, f;
      }
      header := msg.header;
      var placed := Place(msg.prefilled, |msg.ids|);
      if placed.None? {
        return Invalid, base, o, k, m, f;
      }
      txnAvailable := placed.value;
      prefilledCount := |msg.prefilled|;
      base := txnAvailable;
      OpenCount(base, msg.prefilled, |msg.ids|);
      AcceptedLow(base, msg.prefilled, |msg.ids|);
      var positions := Scan(txnAvailable, msg.ids, crowded);
      if positions.None? {
        return Failed, base, o, k, m, f;
      }
      var pos := positions.value;
      o := Offers(pos, msg.short, pool, extra);
      PositionsInRange(base, msg.ids, pos);
      var filled;
      filled, k := MatchPool(txnAvailable, o, pos, msg.short, pool);
      filled, m := MatchExtra(filled, base, o, pos, msg.short, k, extra);
      f := filled;
      txnAvailable, mempoolCount := filled.slots, filled.count;
      status := Ok;
    }

    method IsTxAvailable(index: nat) returns (b: bool)
      requires header.Some? && index < |txnAvailable|
      ensures b <==> index !in Free(txnAvailable)
    {
      b := txnAvailable[index].Some?;
      if !b { FreeHas(txnAvailable, 0, index); }
    }

    /**
     * FillBlock. `check` stands for CheckBlock: whether it accepts the block, and whether the block may be corrupted.
     * With too few transactions the slots up to the first one that could not be filled have been moved out; otherwise
     * the object is spent.
     */
    method FillBlock(missing: seq<Tx>, check: seq<Tx> -> (bool, bool)) returns (status: Status, vtx: seq<Tx>)
      requires header.Some?
      modifies this
      ensures status == Invalid <==> |missing| != |old(Free(txnAvailable))|
      ensures status != Invalid ==> Completed(vtx, old(txnAvailable), missing)
      ensures status == Ok ==> check(vtx).0
      ensures status == Failed ==> check(vtx) == (false, true)
      ensures status == CheckBlockFailed ==> check(vtx) == (false, false)
      ensures |missing| >= |old(Free(txnAvailable))| ==> header.None? && txnAvailable == []
      ensures |missing| < |old(Free(txnAvailable))| ==>
        header == old(header) && |txnAvailable| == |old(txnAvailable)| && forall p :: 0 <= p < |txnAvailable| ==>
          txnAvailable[p] == if p <= old(Free(txnAvailable))[|missing|] then None else old(txnAvailable[p])
    {
      vtx := [];
      var offset: nat := 0;
      ghost var slots := txnAvailable;
      for i := 0 to |txnAvailable|
        modifies this`txnAvailable
        invariant CompletedTo(vtx, slots, missing, i, offset)
        invariant |txnAvailable| == |slots|
        invariant forall p :: 0 <= p < |slots| ==> txnAvailable[p] == if p < i then None else slots[p]
      {
        CompletedNext(vtx, slots, missing, i, offset);
        if txnAvailable[i].None? {
          if |missing| <= offset {
            return Invalid, vtx;
          }
          vtx := vtx + [missing[offset]];
          offset := offset + 1;
        } else {
          vtx := vtx + [txnAvailable[i].value];
          txnAvailable := txnAvailable[i := None];
        }
      }
      assert |Free(slots)| == offset;
      header, txnAvailable := None, [];
      if |missing| != offset {
        return Invalid, vtx;
      }
      var (ok, corrupt) := check(vtx);
      status := if ok then Ok else if corrupt then Failed else CheckBlockFailed;
    }
  }

  lemma AcceptedLow(slots: Slots, pre: seq<Prefilled>, ids: nat)
    requires Placed(slots, pre) && Accepted(pre, ids) && |slots| == ids + |pre|
    requires ids > 0 ==> |pre| != MAX16 + 1
    ensures Low(slots) && (ids > 0 ==> Ends(slots))
  {
    if ids > 0 {
      EndsExact(slots, pre, ids);
    } else {
      forall p | 0 <= p < |slots| && slots[p].Some? ensures p <= MAX16 {
        var i :| 0 <= i < |pre| && Places(pre)[i] == p;
      }
    }
  }

  lemma PositionsInRange(slots: Slots, ids: seq<nat>, pos: map<nat, nat>)
    requires |Free(slots)| == |ids| && Maps(pos, ids, |ids|, Free(slots)) && forall id :: id in pos ==> id in ids
    ensures forall id :: id in pos ==> pos[id] < |slots|
  {
    forall id | id in pos ensures pos[id] < |slots| {
      var i :| 0 <= i < |ids| && ids[i] == id;
      assert Free(slots)[i] < |slots|;
    }
  }

  /** The indexes of the positions that are not available, in order, as far as 16 bits can tell. */
  method MissingIndexes(block: PartiallyDownloadedBlock) returns (indexes: seq<int>)
    requires block.header.Some?
    ensures |indexes| == |Free(block.txnAvailable)|
    ensures forall i :: 0 <= i < |indexes| ==> indexes[i] == Free(block.txnAvailable)[i] % 0x1_0000
  {
    indexes := [];
    ghost var slots := block.txnAvailable;
    for p := 0 to |block.txnAvailable|
      invariant |indexes| <= |Free(slots)| && FreeFrom(slots, p) == Free(slots)[|indexes|..]
      invariant forall i :: 0 <= i < |indexes| ==> indexes[i] == Free(slots)[i] % 0x1_0000
    {
      OpenIff(slots, p);
      var available := block.IsTxAvailable(p);
      if !available {
        OpenAt(slots, |indexes|, p);
        indexes := indexes + [p % 0x1_0000];
      }
    }
  }

  lemma OpenIff(slots: Slots, p: nat)
    requires p < |slots|
    ensures p in Free(slots) <==> slots[p].None?
  {
    if slots[p].None? { FreeHas(slots, 0, p); }
  }

  /** What a peer answers: the transactions at the indexes, or nothing if one is out of range. */
  method SendBlockTransactions(vtx: seq<Tx>, indexes: seq<int>) returns (txn: Option<seq<Tx>>)
    requires All16(indexes)
    ensures txn.Some? <==> forall i :: 0 <= i < |indexes| ==> indexes[i] < |vtx|
    ensures txn.Some? ==>
      |txn.value| == |indexes| && forall i :: 0 <= i < |indexes| ==> txn.value[i] == vtx[indexes[i]]
  {
    var resp: seq<Tx> := [];
    for i := 0 to |indexes|
      invariant |resp| == i && forall k :: 0 <= k < i ==> indexes[k] < |vtx| && resp[k] == vtx[indexes[k]]
    {
      if indexes[i] >= |vtx| {
        return None;
      }
      resp := resp + [vtx[indexes[i]]];
    }
    txn := Some(resp);
  }

  /** Open positions come in increasing order. */
  lemma {:induction false} FreeIncreases(slots: Slots, p: nat)
    requires p <= |slots|
    ensures forall i, j :: 0 <= i < j < |FreeFrom(slots, p)| ==> FreeFrom(slots, p)[i] < FreeFrom(slots, p)[j]
    decreases |slots| - p
  {
    if p < |slots| { FreeIncreases(slots, p + 1); }
  }

  /**
   * The request for what is missing, over the wire and back: in a block of at most 65536 transactions the peer reads
   * the indexes that were meant, and answers with the block's transactions at the open positions.
   */
  method AskFor(block: PartiallyDownloadedBlock, vtx: seq<Tx>) returns (missing: seq<Tx>)
    requires block.header.Some? && |vtx| == |block.txnAvailable| <= MAX16 + 1
    ensures |missing| == |Free(block.txnAvailable)|
    ensures forall i :: 0 <= i < |missing| ==> missing[i] == vtx[Free(block.txnAvailable)[i]]
  {
    ghost var free := Free(block.txnAvailable);
    var indexes := MissingIndexes(block);
    forall i | 0 <= i < |indexes| ensures indexes[i] == free[i] {
      assert 0 <= free[i] < |vtx|;
    }
    FreeIncreases(block.txnAvailable, 0);
    var wire := WriteIndexes(indexes);
    var read := ReadIndexes(wire);
    RequestRoundTrip(indexes);
    var txn := SendBlockTransactions(vtx, read.value);
    missing := txn.value;
  }

  /**
   * A whole exchange: the block is announced, the receiver fills what it can and asks for the rest. Without short id
   * collisions, in a block of at most 65536 transactions, every announcement that gets past the tests ends with exactly
   * the announced transactions.
   */
  method Exchange(header: nat, vtx: seq<Tx>, short: nat -> nat, maxCount: nat, crowded: seq<bool>,
                  pool: seq<Entry>, extra: seq<Entry>, check: seq<Tx> -> (bool, bool))
      returns (first: Status, status: Status, rebuilt: seq<Tx>)
    requires 1 <= |vtx| == |crowded| + 1 && |vtx| <= MAX16 + 1
    requires CollisionFree(short, vtx, pool) && CollisionFree(short, vtx, extra)
    ensures first == Ok <==>
      && |vtx| <= maxCount && !vtx[0].empty && (forall i :: 0 <= i < |crowded| ==> !crowded[i])
      && (forall i, j :: 1 <= i < j < |vtx| ==> short(vtx[i].hash) != short(vtx[j].hash))
    ensures first == Ok ==> rebuilt == vtx
    ensures first == Ok ==> status == match check(vtx) {
      case (true, _) => Ok
      case (false, corrupt) => if corrupt then Failed else CheckBlockFailed
    }
  {
    var msg := Announce(header, vtx, short);
    AnnounceAccepted(msg, vtx);
    AnnounceDistinct(msg, vtx);
    var block := new PartiallyDownloadedBlock();
    ghost var base, o, k, m, f;
    first, base, o, k, m, f := block.InitData(msg, maxCount, crowded, pool, extra);
    if first != Ok {
      return first, first, [];
    }
    AnnounceDescribes(msg, vtx, base);
    SmallBlock(base, msg.ids, o.pos);
    var missing := AskFor(block, vtx);
    status, rebuilt := block.FillBlock(missing, check);
    Reconstruct(msg, base, vtx, o, k, m, f, missing, rebuilt);
  }
}
