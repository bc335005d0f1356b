/**
 * The address manager's own consistency check, as values.
 *
 * `Passes` is what the check looks for, clause by clause. It is compared here with the invariant that the operations
 * keep; the check itself, with its loops, is a method of the manager and decides exactly this.
 */
module AddrManCheck {
  import opened Common
  import opened AddrMan
  import opened AddrManRuns

  /** How the check looks an entry up: by its address as stored; a missing key reads as 0. */
  function CheckedId(addrs: map<Service, int>, a: Service): int {
    if a in addrs then addrs[a] else 0
  }

  /** What the check demands of an entry besides its place in the index, with the code it gives up with. */
  function EntryCode(info: Info, id: int, random: seq<int>): int {
    if info.inTried && info.stats.lastSuccess == 0 then -1
    else if info.inTried && info.refCount != 0 then -2
    else if !info.inTried && (info.refCount < 0 || info.refCount > NEW_BUCKETS_PER_ADDRESS) then -3
    else if !info.inTried && info.refCount == 0 then -4
    else if info.randomPos < 0 || info.randomPos >= |random| || random[info.randomPos] != id then -14
    else if info.stats.lastTry < 0 then -6
    else if info.stats.lastSuccess < 0 then -8
    else 0
  }

  ghost predicate EntriesPass(s: State) {
    forall id :: id in s.infos ==> EntryCode(s.infos[id], id, s.random) == 0
  }

  /** Every entry is found under its address as stored. */
  ghost predicate IndexPasses(s: State) {
    forall id :: id in s.infos ==> CheckedId(s.addrs, s.infos[id].addr) == id
  }

  /** The entries that are not left to look at pass, index included. */
  ghost predicate FrontPasses(s: State, rest: set<int>) {
    forall id :: id in s.infos && id !in rest ==>
      EntryCode(s.infos[id], id, s.random) == 0 && CheckedId(s.addrs, s.infos[id].addr) == id
  }

  ghost predicate SizesPass(s: State) {
    && |s.random| == s.nTried + s.nNew && |TriedIds(s.infos)| == s.nTried && |NewIds(s.infos)| == s.nNew
  }

  /** The occupied tried slot holds a tried entry that belongs there. */
  ghost predicate TriedFits(cfg: Config, infos: Infos, tried: Table, slot: Slot) {
    slot in tried ==>
      tried[slot] in infos && infos[tried[slot]].inTried && slot == cfg.TriedSlot(infos[tried[slot]].addr)
  }

  /** The occupied new slot holds a new entry, at the position its bucket gives it. */
  ghost predicate NewFits(cfg: Config, infos: Infos, news: Table, slot: Slot) {
    slot in news ==>
      && 0 <= slot.bucket < NEW_BUCKET_COUNT && news[slot] in infos && !infos[news[slot]].inTried
      && slot == cfg.NewSlot(infos[news[slot]].addr, slot.bucket)
  }

  ghost predicate TablesPass(cfg: Config, s: State) {
    && (forall slot :: TriedFits(cfg, s.infos, s.tried, slot))
    && (forall id :: id in TriedIds(s.infos) ==> id in s.tried.Values)
    && (forall slot :: NewFits(cfg, s.infos, s.news, slot))
    && (forall id :: id in NewIds(s.infos) ==> s.infos[id].refCount == |Slots(s.news, id)|)
  }

  /** Everything the check looks at, except the index by address. */
  ghost predicate Passes(cfg: Config, s: State) {
    SizesPass(s) && EntriesPass(s) && TablesPass(cfg, s)
  }

  /** The index by address does not matter for it. */
  lemma AddrsIrrelevant(cfg: Config, s: State, addrs: map<Service, int>)
    ensures var t := s.(addrs := addrs);
      && (EntriesPass(t) <==> EntriesPass(s)) && (SizesPass(t) <==> SizesPass(s))
      && (TablesPass(cfg, t) <==> TablesPass(cfg, s))
  {
  }

  /** Looking entries up may have added missing addresses of entries, with the value 0. */
  ghost predicate Padded(infos: Infos, before: map<Service, int>, after: map<Service, int>) {
    && (forall a :: CheckedId(after, a) == CheckedId(before, a))
    && (forall a :: a in before ==> a in after)
    && (forall a :: a in after ==> a in before || exists id :: id in infos && infos[id].addr == a)
  }

  /** The check gets as far as looking the entry up. */
  predicate LooksUp(info: Info) {
    if info.inTried then info.stats.lastSuccess != 0 && info.refCount == 0
    else 0 < info.refCount <= NEW_BUCKETS_PER_ADDRESS
  }

  /** The index after an address has been looked up. */
  function Touched(addrs: map<Service, int>, a: Service): map<Service, int> {
    if a in addrs then addrs else addrs[a := 0]
  }

  /** The addresses of the given entries are keys of the index. */
  ghost predicate AllKnown(infos: Infos, ids: set<int>, addrs: map<Service, int>) {
    forall id :: id in ids && id in infos ==> infos[id].addr in addrs
  }

  /** The entry has been looked up, and was not found under its address as stored. */
  ghost predicate MissedAt(infos: Infos, before: map<Service, int>, after: map<Service, int>, n: int) {
    n in infos && infos[n].addr in after && CheckedId(before, infos[n].addr) != n
  }

  /** What the check does to the index, by its result. */
  ghost predicate IndexEffect(infos: Infos, before: map<Service, int>, after: map<Service, int>, code: int) {
    && (AllKnown(infos, infos.Keys, before) ==> after == before)
    && (code == 0 ==> AllKnown(infos, infos.Keys, after))
    && (code == -5 ==> exists n :: MissedAt(infos, before, after, n))
  }

  /** The slot comes before the given bucket and position. */
  predicate Before(slot: Slot, bucket: int, pos: int) {
    slot.bucket < bucket || (slot.bucket == bucket && slot.pos < pos)
  }

  /** Which tried entries the scan of the tried table has not met yet. */
  ghost predicate TriedScanned(cfg: Config, infos: Infos, tried: Table, bucket: int, pos: int, unseen: set<int>) {
    && (forall slot :: Before(slot, bucket, pos) ==> TriedFits(cfg, infos, tried, slot))
    && (forall id :: id in unseen <==>
          id in TriedIds(infos) && forall slot :: slot in tried && tried[slot] == id ==> !Before(slot, bucket, pos))
  }

  /** One more slot of the tried table. */
  lemma TriedScanNext(cfg: Config, infos: Infos, tried: Table, bucket: int, pos: int, unseen: set<int>)
    requires TriedScanned(cfg, infos, tried, bucket, pos, unseen)
    ensures var slot := Slot(bucket, pos);
      if slot !in tried then TriedScanned(cfg, infos, tried, bucket, pos + 1, unseen)
      else
        && (tried[slot] in unseen ==> tried[slot] in infos)
        && (TriedFits(cfg, infos, tried, slot) ==> tried[slot] in unseen)
        && (TriedFits(cfg, infos, tried, slot) ==>
              TriedScanned(cfg, infos, tried, bucket, pos + 1, unseen - {tried[slot]}))
  {
    var slot := Slot(bucket, pos);
    forall x ensures Before(x, bucket, pos + 1) <==> Before(x, bucket, pos) || x == slot { }
    if slot in tried {
      var id := tried[slot];
      assert id in unseen ==> id in TriedIds(infos);
    }
    if slot in tried && TriedFits(cfg, infos, tried, slot) {
      var id := tried[slot];
      forall x | x in tried && tried[x] == id && Before(x, bucket, pos) ensures x == slot {
        assert TriedFits(cfg, infos, tried, x);
      }
    }
  }

  /** The slots of an entry that come before the given bucket and position. */
  ghost function SlotsBefore(news: Table, id: int, bucket: int, pos: int): set<Slot> {
    set s | s in news && news[s] == id && Before(s, bucket, pos)
  }

  /** How many slots of each new entry the scan of the new table is still to meet. */
  ghost predicate NewScanned(cfg: Config, infos: Infos, news: Table, bucket: int, pos: int, due: map<int, int>) {
    && (forall slot :: Before(slot, bucket, pos) ==> NewFits(cfg, infos, news, slot))
    && (forall id :: id in due ==> id in NewIds(infos))
    && (forall id :: id in NewIds(infos) ==> Due(infos, news, bucket, pos, due, id))
  }

  ghost predicate Due(infos: Infos, news: Table, bucket: int, pos: int, due: map<int, int>, id: int)
    requires id in infos
  {
    var left := infos[id].refCount - |SlotsBefore(news, id, bucket, pos)|;
    left >= 0 && (id in due <==> left > 0) && (id in due ==> due[id] == left)
  }

  lemma SlotsBeforeNext(news: Table, id: int, bucket: int, pos: int)
    ensures var slot := Slot(bucket, pos);
      && slot !in SlotsBefore(news, id, bucket, pos)
      && SlotsBefore(news, id, bucket, pos + 1) ==
         SlotsBefore(news, id, bucket, pos) + if slot in news && news[slot] == id then {slot} else {}
  {
    var slot := Slot(bucket, pos);
    forall x ensures Before(x, bucket, pos + 1) <==> Before(x, bucket, pos) || x == slot { }
  }

  /** The count of slots still to come, after one more slot of the entry. */
  function Less(due: map<int, int>, id: int): map<int, int>
    requires id in due
  {
    if due[id] == 1 then due - {id} else due[id := due[id] - 1]
  }

  lemma NewScanSkip(cfg: Config, infos: Infos, news: Table, bucket: int, pos: int, due: map<int, int>)
    requires NewScanned(cfg, infos, news, bucket, pos, due) && Slot(bucket, pos) !in news
    ensures NewScanned(cfg, infos, news, bucket, pos + 1, due)
  {
    var slot := Slot(bucket, pos);
    forall x ensures Before(x, bucket, pos + 1) <==> Before(x, bucket, pos) || x == slot { }
    forall id | id in NewIds(infos) ensures Due(infos, news, bucket, pos + 1, due, id) {
      SlotsBeforeNext(news, id, bucket, pos);
      assert Due(infos, news, bucket, pos, due, id);
    }
  }

  lemma NewScanNext(cfg: Config, infos: Infos, news: Table, bucket: int, pos: int, due: map<int, int>)
    requires NewScanned(cfg, infos, news, bucket, pos, due) && Slot(bucket, pos) in news
    requires NewFits(cfg, infos, news, Slot(bucket, pos)) && news[Slot(bucket, pos)] in due
    ensures NewScanned(cfg, infos, news, bucket, pos + 1, Less(due, news[Slot(bucket, pos)]))
  {
    var slot := Slot(bucket, pos);
    forall x ensures Before(x, bucket, pos + 1) <==> Before(x, bucket, pos) || x == slot { }
    forall id | id in NewIds(infos) ensures Due(infos, news, bucket, pos + 1, Less(due, news[slot]), id) {
      SlotsBeforeNext(news, id, bucket, pos);
      assert Due(infos, news, bucket, pos, due, id);
    }
  }

  /** A slot of an entry that has had all its slots is one too many. */
  lemma NewScanOver(cfg: Config, infos: Infos, news: Table, bucket: int, pos: int, due: map<int, int>)
    requires NewScanned(cfg, infos, news, bucket, pos, due) && Slot(bucket, pos) in news
    requires news[Slot(bucket, pos)] !in due && news[Slot(bucket, pos)] in NewIds(infos)
    ensures infos[news[Slot(bucket, pos)]].refCount != |Slots(news, news[Slot(bucket, pos)])|
  {
    var slot := Slot(bucket, pos);
    var id := news[slot];
    assert Due(infos, news, bucket, pos, due, id);
    SlotsBeforeNext(news, id, bucket, pos);
    var some := SlotsBefore(news, id, bucket, pos + 1);
    assert some <= Slots(news, id);
    SubsetSize(some, Slots(news, id));
  }

  /** After the last slot nothing is due exactly if all counts are right. */
  lemma NewScanEnds(cfg: Config, infos: Infos, news: Table, due: map<int, int>)
    requires NewScanned(cfg, infos, news, NEW_BUCKET_COUNT, 0, due)
    requires forall slot :: slot in news ==> slot.bucket < NEW_BUCKET_COUNT
    ensures forall slot :: NewFits(cfg, infos, news, slot)
    ensures due == map[] <==> forall id :: id in NewIds(infos) ==> infos[id].refCount == |Slots(news, id)|
  {
    forall slot ensures NewFits(cfg, infos, news, slot) {
      if slot in news { assert Before(slot, NEW_BUCKET_COUNT, 0); }
    }
    forall id | id in NewIds(infos) ensures id !in due <==> infos[id].refCount == |Slots(news, id)| {
      assert Due(infos, news, NEW_BUCKET_COUNT, 0, due, id);
      assert SlotsBefore(news, id, NEW_BUCKET_COUNT, 0) == Slots(news, id);
    }
    if due != map[] {
      var id := Member(due.Keys);
      assert id in NewIds(infos);
    }
  }

  lemma TriedScanEnds(cfg: Config, infos: Infos, tried: Table, unseen: set<int>)
    requires TriedScanned(cfg, infos, tried, TRIED_BUCKET_COUNT, 0, unseen)
    requires forall slot :: slot in tried ==> slot.bucket < TRIED_BUCKET_COUNT
    ensures forall slot :: TriedFits(cfg, infos, tried, slot)
    ensures unseen == {} <==> forall id :: id in TriedIds(infos) ==> id in tried.Values
  {
    forall slot ensures TriedFits(cfg, infos, tried, slot) {
      if slot in tried { assert Before(slot, TRIED_BUCKET_COUNT, 0); }
    }
    forall id | id in TriedIds(infos) ensures id !in unseen <==> id in tried.Values {
      if id in tried.Values {
        var slot :| slot in tried && tried[slot] == id;
        assert Before(slot, TRIED_BUCKET_COUNT, 0);
      }
    }
    if unseen != {} {
      var id := Member(unseen);
      assert id in TriedIds(infos);
    }
  }

  // ---------------------------------------------------------------- the check accepts what the operations leave

  /** A consistent manager with plausible times passes. */
  lemma ConsistentPasses(cfg: Config, s: State)
    requires Inv(cfg, s) && TimesOk(s.infos)
    ensures Passes(cfg, s)
  {
    IdsSplit(s.infos);
    forall id | id in s.infos ensures EntryCode(s.infos[id], id, s.random) == 0 { }
    forall slot ensures TriedFits(cfg, s.infos, s.tried, slot) && NewFits(cfg, s.infos, s.news, slot) { }
    forall id | id in TriedIds(s.infos) ensures id in s.tried.Values {
      assert s.tried[cfg.TriedSlot(s.infos[id].addr)] == id;
    }
  }

  lemma IdsSplit(infos: Infos)
    ensures |TriedIds(infos)| + |NewIds(infos)| == |infos|
  {
    var a, b := TriedIds(infos), NewIds(infos);
    forall id ensures id in a + b <==> id in infos.Keys { }
    assert a + b == infos.Keys && a * b == {};
    assert |a + b| == |a| + |b|;
  }

  // ---------------------------------------------------------------- and nothing else

  /** The positions of all entries in the random order. */
  ghost function Positions(infos: Infos): set<int> { set id | id in infos :: infos[id].randomPos }

  lemma {:induction false} PositionsSize(infos: Infos)
    requires forall x, y :: x in infos && y in infos && infos[x].randomPos == infos[y].randomPos ==> x == y
    ensures |Positions(infos)| == |infos|
    decreases |infos|
  {
    if infos != map[] {
      var id := Member(infos.Keys);
      var rest := infos - {id};
      PositionsSize(rest);
      forall p ensures p in Positions(infos) <==> p in Positions(rest) + {infos[id].randomPos} {
        if p in Positions(infos) {
          var x :| x in infos && infos[x].randomPos == p;
          assert x != id ==> x in rest && rest[x].randomPos == p;
        }
        if p in Positions(rest) {
          var x :| x in rest && rest[x].randomPos == p;
          assert x in infos && infos[x].randomPos == p;
        }
      }
      assert Positions(infos) == Positions(rest) + {infos[id].randomPos};
      assert infos[id].randomPos !in Positions(rest);
      assert infos.Keys == rest.Keys + {id} && |infos.Keys| == |infos| && |rest.Keys| == |rest|;
    } else if Positions(infos) != {} {
      var p := Member(Positions(infos));
    }
  }

  /** The first n numbers. */
  ghost function Below(n: nat): (all: set<int>)
    ensures |all| == n && forall i :: i in all <==> 0 <= i < n
  {
    if n == 0 then {} else Below(n - 1) + {n - 1}
  }

  /** Entries that know their places fill the whole order if there are as many of them as places. */
  lemma OrderFilled(infos: Infos, random: seq<int>)
    requires |random| == |infos|
    requires forall id :: id in infos ==> 0 <= infos[id].randomPos < |random| && random[infos[id].randomPos] == id
    ensures RandomOk(infos, random)
  {
    PositionsSize(infos);
    var all := Below(|random|);
    assert Positions(infos) <= all;
    SubsetSize(Positions(infos), all);
    forall i | 0 <= i < |random| ensures random[i] in infos && infos[random[i]].randomPos == i {
      assert i in Positions(infos);
      var id :| id in infos && infos[id].randomPos == i;
    }
  }

  lemma TriedTable(cfg: Config, infos: Infos, tried: Table)
    requires forall slot :: TriedFits(cfg, infos, tried, slot)
    requires forall id :: id in TriedIds(infos) ==> id in tried.Values
    ensures TriedOk(cfg, infos, tried)
  {
    forall slot | slot in tried
      ensures tried[slot] in infos && infos[tried[slot]].inTried && slot == cfg.TriedSlot(infos[tried[slot]].addr)
    {
      assert TriedFits(cfg, infos, tried, slot);
    }
    forall id | id in infos && infos[id].inTried
      ensures cfg.TriedSlot(infos[id].addr) in tried && tried[cfg.TriedSlot(infos[id].addr)] == id
    {
      assert id in TriedIds(infos);
      var slot :| slot in tried && tried[slot] == id;
      assert TriedFits(cfg, infos, tried, slot);
    }
  }

  lemma NewTable(cfg: Config, infos: Infos, news: Table)
    requires forall slot :: NewFits(cfg, infos, news, slot)
    ensures NewOk(cfg, infos, news)
  {
    forall slot | slot in news
      ensures 0 <= slot.bucket < NEW_BUCKET_COUNT && news[slot] in infos && !infos[news[slot]].inTried
      ensures slot == cfg.NewSlot(infos[news[slot]].addr, slot.bucket)
    {
      assert NewFits(cfg, infos, news, slot);
    }
  }

  lemma References(s: State)
    requires EntriesPass(s) && (forall id :: id in NewIds(s.infos) ==> s.infos[id].refCount == |Slots(s.news, id)|)
    requires forall slot :: slot in s.news ==> s.news[slot] in s.infos && !s.infos[s.news[slot]].inTried
    ensures RefsOk(s.infos, s.news, {})
  {
    forall id | id in s.infos
      ensures s.infos[id].refCount == |Slots(s.news, id)|
      ensures if s.infos[id].inTried then s.infos[id].refCount == 0
              else 1 <= s.infos[id].refCount <= NEW_BUCKETS_PER_ADDRESS
    {
      assert EntryCode(s.infos[id], id, s.random) == 0;
      if s.infos[id].inTried {
        assert Slots(s.news, id) == {};
      } else {
        assert id in NewIds(s.infos);
      }
    }
  }

  /**
   * The check overlooks nothing but superfluous keys of the index and the counter of ids: what passes, is indexed
   * exactly and has ids below the counter is consistent.
   */
  lemma PassingIsConsistent(cfg: Config, s: State)
    requires Passes(cfg, s) && AddrsOk(cfg, s.infos, s.addrs)
    requires s.idCount >= 0 && forall id :: id in s.infos ==> 0 <= id < s.idCount
    ensures Inv(cfg, s) && TimesOk(s.infos)
  {
    IdsSplit(s.infos);
    forall id | id in s.infos
      ensures 0 <= s.infos[id].randomPos < |s.random| && s.random[s.infos[id].randomPos] == id
      ensures s.infos[id].stats.lastTry >= 0 && s.infos[id].stats.lastSuccess >= 0
      ensures s.infos[id].inTried ==> s.infos[id].stats.lastSuccess != 0
    {
      assert EntryCode(s.infos[id], id, s.random) == 0;
    }
    OrderFilled(s.infos, s.random);
    TriedTable(cfg, s.infos, s.tried);
    NewTable(cfg, s.infos, s.news);
    References(s);
  }

  // ---------------------------------------------------------------- the index

  /**
   * The check accepts the index of a consistent manager exactly if ports are discriminated, or every entry has port 0
   * or is entry 0: it does not normalise the key it looks up.
   */
  lemma IndexExact(cfg: Config, s: State)
    requires Inv(cfg, s)
    ensures IndexPasses(s) <==>
      cfg.discriminatePorts || forall id :: id in s.infos ==> s.infos[id].addr.port == 0 || id == 0
  {
    forall id | id in s.infos
      ensures CheckedId(s.addrs, s.infos[id].addr) == id <==>
        cfg.discriminatePorts || s.infos[id].addr.port == 0 || id == 0
    {
      EntryIndexed(cfg, s, id);
    }
  }

  lemma EntryIndexed(cfg: Config, s: State, id: int)
    requires Inv(cfg, s) && id in s.infos
    ensures CheckedId(s.addrs, s.infos[id].addr) == id <==>
      cfg.discriminatePorts || s.infos[id].addr.port == 0 || id == 0
  {
    var a := s.infos[id].addr;
    if !cfg.discriminatePorts && a.port != 0 {
      assert a !in s.addrs;
    } else {
      assert cfg.Key(a) == a;
    }
  }

  /** The stored addresses of a consistent manager are all keys exactly if ports are discriminated or all 0. */
  lemma KnownExact(cfg: Config, s: State)
    requires Inv(cfg, s)
    ensures AllKnown(s.infos, s.infos.Keys, s.addrs) <==>
      cfg.discriminatePorts || forall id :: id in s.infos ==> s.infos[id].addr.port == 0
  {
    forall id | id in s.infos
      ensures s.infos[id].addr in s.addrs <==> cfg.discriminatePorts || s.infos[id].addr.port == 0
    {
      var a := s.infos[id].addr;
      if cfg.discriminatePorts || a.port == 0 { assert cfg.Key(a) == a; }
    }
  }

  /** An entry of a consistent manager is only missed if its address is not a key, and then it becomes one. */
  lemma MissedChanges(cfg: Config, s: State, after: map<Service, int>, n: int)
    requires Inv(cfg, s) && MissedAt(s.infos, s.addrs, after, n)
    ensures after != s.addrs
  {
    var a := s.infos[n].addr;
    if a in s.addrs { EntryIndexed(cfg, s, n); }
  }

  /** The result of the check on a consistent manager, and when the index is left as it was. */
  lemma SoundVerdict(cfg: Config, s: State, after: map<Service, int>, code: int)
    requires Inv(cfg, s) && TimesOk(s.infos) && IndexEffect(s.infos, s.addrs, after, code)
    requires code == 0 <==> Passes(cfg, s) && IndexPasses(s)
    requires code != 0 && code != -5 ==> !Passes(cfg, s)
    ensures code == if cfg.discriminatePorts || forall id :: id in s.infos ==> s.infos[id].addr.port == 0 || id == 0
                    then 0 else -5
    ensures after == s.addrs <==>
      cfg.discriminatePorts || forall id :: id in s.infos ==> s.infos[id].addr.port == 0
  {
    ConsistentPasses(cfg, s);
    IndexExact(cfg, s);
    KnownExact(cfg, s);
    if code == -5 {
      var n :| MissedAt(s.infos, s.addrs, after, n);
      MissedChanges(cfg, s, after, n);
    }
  }

  lemma Verdict(cfg: Config, s: State, after: map<Service, int>, keyIsNull: bool, code: int)
    requires IndexEffect(s.infos, s.addrs, after, code)
    requires code == 0 <==> Passes(cfg, s) && IndexPasses(s) && !keyIsNull
    requires code != 0 && code != -5 ==> !Passes(cfg, s) || keyIsNull
    ensures Inv(cfg, s) && TimesOk(s.infos) && !keyIsNull ==>
      code == if cfg.discriminatePorts || forall id :: id in s.infos ==> s.infos[id].addr.port == 0 || id == 0
              then 0 else -5
    ensures Inv(cfg, s) && TimesOk(s.infos) && !keyIsNull ==>
      (after == s.addrs <==> cfg.discriminatePorts || forall id :: id in s.infos ==> s.infos[id].addr.port == 0)
  {
    if Inv(cfg, s) && TimesOk(s.infos) && !keyIsNull { SoundVerdict(cfg, s, after, code); }
  }

  /** Every timely run that starts empty ends in a state that passes, under normalised keys. */
  lemma RunPasses(cfg: Config, ops: seq<Op>)
    requires AllTimely(cfg, EMPTY, ops)
    ensures Passes(cfg, Run(cfg, EMPTY, ops)) && AddrsOk(cfg, Run(cfg, EMPTY, ops).infos, Run(cfg, EMPTY, ops).addrs)
  {
    RunInv(cfg, EMPTY, ops);
    ConsistentPasses(cfg, Run(cfg, EMPTY, ops));
  }
}
