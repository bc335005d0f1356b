/**
 * The stochastic address manager, as values.
 *
 * Five structures are kept in step: the entries, the index by address, the random order, and the slots of
 * the new and the tried table. The bucket and position hashes are arbitrary functions with bounded
 * results. The lemmas show that every operation keeps all of them consistent, which is what the
 * manager's own consistency check looks for.
 */
module AddrMan {
  import opened Common

  const TRIED_BUCKET_COUNT := 256
  const NEW_BUCKET_COUNT := 1024
  const BUCKET_SIZE := 64
  const NEW_BUCKETS_PER_ADDRESS := 8

  type TriedBucket = b: int | 0 <= b < TRIED_BUCKET_COUNT
  type NewBucket = b: int | 0 <= b < NEW_BUCKET_COUNT
  type Position = p: int | 0 <= p < BUCKET_SIZE

  datatype Service = Service(ip: nat, port: nat)

  type Source = nat

  /** What is known about an address besides its place in the tables. */
  datatype Stats = Stats(
    services: set<nat>, time: int, lastTry: int, lastCountAttempt: int, lastSuccess: int, attempts: int)
  {
    /** After an attempt to connect; a failure is counted once per success anywhere. */
    function Attempted(countFailure: bool, now: int, lastGood: int): Stats {
      var st := this.(lastTry := now);
      if countFailure && lastCountAttempt < lastGood then st.(lastCountAttempt := now, attempts := attempts + 1) else st
    }

    /** While connected, the time is renewed every twenty minutes. */
    function Seen(now: int): Stats { if now - time > 20 * 60 then this.(time := now) else this }

    function Succeeded(now: int): Stats { this.(lastSuccess := now, lastTry := now, attempts := 0) }

    /** Bad enough to be overwritten. */
    predicate IsTerrible(now: int) {
      && !(lastTry != 0 && lastTry >= now - 60)
      && (|| time > now + 10 * 60
          || time == 0 || now - time > 30 * 24 * 60 * 60
          || (lastSuccess == 0 && attempts >= 3)
          || (now - lastSuccess > 7 * 24 * 60 * 60 && attempts >= 10))
    }
  }

  datatype Info = Info(addr: Service, source: Source, stats: Stats, refCount: int, inTried: bool, randomPos: int)

  /** The keyed hashes of one manager, and whether ports tell entries apart. */
  datatype Config = Config(
    triedBucket: Service -> TriedBucket,
    newBucket: (Service, Source) -> NewBucket,
    position: (Service, bool, int) -> Position,
    discriminatePorts: bool)
  {
    /** The key under which an address is indexed. */
    function Key(a: Service): Service { if discriminatePorts then a else a.(port := 0) }

    function TriedSlot(a: Service): Slot {
      Slot(triedBucket(a), position(a, false, triedBucket(a)))
    }

    function NewSlot(a: Service, bucket: NewBucket): Slot {
      Slot(bucket, position(a, true, bucket))
    }
  }

  datatype Slot = Slot(bucket: int, pos: int)

  type Table = map<Slot, int>

  type Infos = map<int, Info>

  /** A slot missing from a table is an empty slot. */
  datatype State = State(
    idCount: int, infos: Infos, addrs: map<Service, int>, random: seq<int>,
    nTried: int, tried: Table, nNew: int, news: Table, lastGood: int)

  const EMPTY := State(0, map[], map[], [], 0, map[], 0, map[], 1)

  // ---------------------------------------------------------------- consistency

  function Slots(t: Table, id: int): set<Slot> { set s | s in t && t[s] == id }

  function TriedIds(infos: Infos): set<int> { set id | id in infos && infos[id].inTried }

  function NewIds(infos: Infos): set<int> { set id | id in infos && !infos[id].inTried }

  /** The random order lists every entry once, and every entry knows its place in it. */
  ghost predicate RandomOk(infos: Infos, random: seq<int>) {
    && (forall id :: id in infos ==> 0 <= infos[id].randomPos < |random| && random[infos[id].randomPos] == id)
    && (forall i :: 0 <= i < |random| ==> random[i] in infos && infos[random[i]].randomPos == i)
  }

  /** The index by address is exact. */
  ghost predicate AddrsOk(cfg: Config, infos: Infos, addrs: map<Service, int>) {
    && (forall id :: id in infos ==> cfg.Key(infos[id].addr) in addrs && addrs[cfg.Key(infos[id].addr)] == id)
    && (forall a :: a in addrs ==> addrs[a] in infos && cfg.Key(infos[addrs[a]].addr) == a)
  }

  /** Tried entries sit in exactly their own slot, and nothing else sits in the tried table. */
  ghost predicate TriedOk(cfg: Config, infos: Infos, tried: Table) {
    && (forall id :: id in infos && infos[id].inTried ==>
          cfg.TriedSlot(infos[id].addr) in tried && tried[cfg.TriedSlot(infos[id].addr)] == id)
    && (forall s :: s in tried ==>
          tried[s] in infos && infos[tried[s]].inTried && s == cfg.TriedSlot(infos[tried[s]].addr))
  }

  /** Entries of the new table sit at the position their bucket gives them. */
  ghost predicate NewOk(cfg: Config, infos: Infos, news: Table) {
    forall s :: s in news ==>
      && 0 <= s.bucket < NEW_BUCKET_COUNT
      && news[s] in infos && !infos[news[s]].inTried && s == cfg.NewSlot(infos[news[s]].addr, s.bucket)
  }

  /** Reference counts are the number of slots held; only entries in `loose` may hold none. */
  ghost predicate RefsOk(infos: Infos, news: Table, loose: set<int>) {
    forall id :: id in infos ==>
      && infos[id].refCount == |Slots(news, id)|
      && if infos[id].inTried then infos[id].refCount == 0
         else infos[id].refCount <= NEW_BUCKETS_PER_ADDRESS && (id in loose || infos[id].refCount >= 1)
  }

  ghost predicate CountsOk(s: State) {
    && s.nTried == |TriedIds(s.infos)| && s.nNew == |NewIds(s.infos)|
    && |s.random| == |s.infos| && forall id :: id in s.infos ==> 0 <= id < s.idCount
  }

  /** Consistent except that the entries in `loose` may be in no table. */
  ghost predicate LooseInv(cfg: Config, s: State, loose: set<int>) {
    && RandomOk(s.infos, s.random) && AddrsOk(cfg, s.infos, s.addrs) && TriedOk(cfg, s.infos, s.tried)
    && NewOk(cfg, s.infos, s.news) && RefsOk(s.infos, s.news, loose) && CountsOk(s)
    && s.idCount >= 0
  }

  ghost predicate Inv(cfg: Config, s: State) { LooseInv(cfg, s, {}) }

  /** The times the consistency check looks at. */
  ghost predicate TimesOk(infos: Infos) {
    forall id :: id in infos ==>
      && infos[id].stats.lastTry >= 0 && infos[id].stats.lastSuccess >= 0
      && (infos[id].inTried ==> infos[id].stats.lastSuccess != 0)
  }

  // ---------------------------------------------------------------- operations

  function Find(cfg: Config, s: State, a: Service): Option<int> {
    match Get(s.addrs, cfg.Key(a))
    case None => None
    case Some(id) => if id in s.infos then Some(id) else None
  }

  /** The entry of exactly this address, its port included. */
  function Known(cfg: Config, s: State, a: Service): (id: Option<int>)
    ensures id.Some? ==> id.value in s.infos && s.infos[id.value].addr == a
  {
    var id := Find(cfg, s, a);
    if id.Some? && s.infos[id.value].addr == a then id else None
  }

  /** Create, together with the time penalty and the count of new entries its only caller adds. */
  function Create(cfg: Config, s: State, a: Service, source: Source, services: set<nat>, time: int): State {
    var info := Info(a, source, Stats(services, time, 0, 0, 0, 0), 0, false, |s.random|);
    s.(idCount := s.idCount + 1, infos := s.infos[s.idCount := info], addrs := s.addrs[cfg.Key(a) := s.idCount],
       random := s.random + [s.idCount], nNew := s.nNew + 1)
  }

  predicate InRange(s: State, i: int) { 0 <= i < |s.random| && s.random[i] in s.infos }

  /** The asserts of SwapRandom are its precondition. */
  function SwapRandom(s: State, i: int, j: int): State
    requires i != j ==> InRange(s, i) && InRange(s, j)
  {
    if i == j then s
    else
      var a, b := s.random[i], s.random[j];
      var infos := s.infos[a := s.infos[a].(randomPos := j)];
      s.(infos := infos[b := infos[b].(randomPos := i)], random := s.random[i := b][j := a])
  }

  /** What Delete asserts, and what its swap asserts. */
  predicate Deletable(s: State, id: int) {
    && id in s.infos && !s.infos[id].inTried && s.infos[id].refCount == 0
    && InRange(s, s.infos[id].randomPos) && InRange(s, |s.random| - 1)
  }

  /** The last entry of the random order is forgotten. */
  function DropLast(cfg: Config, s: State, id: int): State
    requires id in s.infos && |s.random| > 0
  {
    s.(random := s.random[..|s.random| - 1], addrs := s.addrs - {cfg.Key(s.infos[id].addr)},
       infos := s.infos - {id}, nNew := s.nNew - 1)
  }

  function Delete(cfg: Config, s: State, id: int): State
    requires Deletable(s, id)
  {
    DropLast(cfg, SwapRandom(s, s.infos[id].randomPos, |s.random| - 1), id)
  }

  /** What ClearNew asserts, including the asserts of the deletion it may cause. */
  predicate Clearable(s: State, slot: Slot) {
    slot in s.news ==>
      var id := s.news[slot];
      && id in s.infos && s.infos[id].refCount > 0
      && (s.infos[id].refCount == 1 ==>
        !s.infos[id].inTried && InRange(s, s.infos[id].randomPos) && InRange(s, |s.random| - 1))
  }

  /** One slot fewer for its entry. */
  function Release(s: State, slot: Slot): State
    requires slot in s.news && s.news[slot] in s.infos
  {
    var id := s.news[slot];
    s.(infos := s.infos[id := s.infos[id].(refCount := s.infos[id].refCount - 1)], news := s.news - {slot})
  }

  function ClearNew(cfg: Config, s: State, slot: Slot): State
    requires Clearable(s, slot)
  {
    if slot !in s.news then s
    else
      var id := s.news[slot];
      var t := Release(s, slot);
      if t.infos[id].refCount == 0 then Delete(cfg, t, id) else t
  }

  /** The entry takes an empty slot of the new table. */
  function Occupy(s: State, slot: Slot, id: int): State
    requires id in s.infos
  {
    s.(infos := s.infos[id := s.infos[id].(refCount := s.infos[id].refCount + 1)], news := s.news[slot := id])
  }

  /** The entry leaves all its new buckets. */
  function LeaveNew(cfg: Config, s: State, id: int): State
    requires id in s.infos
  {
    var held := OwnSlots(cfg, s.infos[id].addr, s.news, id);
    s.(infos := s.infos[id := s.infos[id].(refCount := s.infos[id].refCount - |held|)], news := s.news - held)
  }

  /** The slots of an entry at the positions its buckets give it. */
  function OwnSlots(cfg: Config, a: Service, news: Table, id: int): set<Slot> {
    set s | s in news && news[s] == id && 0 <= s.bucket < NEW_BUCKET_COUNT && s == cfg.NewSlot(a, s.bucket)
  }

  /** The tried entry gives up its slot and waits to re-enter the new table. */
  function Untry(s: State, slot: Slot): State
    requires slot in s.tried && s.tried[slot] in s.infos
  {
    var id := s.tried[slot];
    s.(infos := s.infos[id := s.infos[id].(inTried := false)], tried := s.tried - {slot},
       nTried := s.nTried - 1, nNew := s.nNew + 1)
  }

  function Try(s: State, slot: Slot, id: int): State
    requires id in s.infos
  {
    s.(infos := s.infos[id := s.infos[id].(inTried := true)], tried := s.tried[slot := id],
       nTried := s.nTried + 1, nNew := s.nNew - 1)
  }

  function HomeSlot(cfg: Config, info: Info): Slot {
    cfg.NewSlot(info.addr, cfg.newBucket(info.addr, info.source))
  }

  /** What making room in a tried slot looks up and asserts. */
  predicate Evictable(cfg: Config, s: State, slot: Slot) {
    slot in s.tried ==>
      && s.tried[slot] in s.infos
      && var u, home := Untry(s, slot), HomeSlot(cfg, s.infos[s.tried[slot]]);
         Clearable(u, home) && s.tried[slot] in ClearNew(cfg, u, home).infos
  }

  /** The tried entry in the slot, if any, moves back to its home slot of the new table. */
  function Evict(cfg: Config, s: State, slot: Slot): State
    requires Evictable(cfg, s, slot)
  {
    if slot !in s.tried then s
    else
      var home := HomeSlot(cfg, s.infos[s.tried[slot]]);
      Occupy(ClearNew(cfg, Untry(s, slot), home), home, s.tried[slot])
  }

  predicate MakeTriable(cfg: Config, s: State, id: int) {
    && id in s.infos
    && var t, slot := LeaveNew(cfg, s, id), cfg.TriedSlot(s.infos[id].addr);
       Evictable(cfg, t, slot) && id in Evict(cfg, t, slot).infos
  }

  function MakeTried(cfg: Config, s: State, id: int): State
    requires MakeTriable(cfg, s, id)
  {
    var slot := cfg.TriedSlot(s.infos[id].addr);
    Try(Evict(cfg, LeaveNew(cfg, s, id), slot), slot, id)
  }

  function SetStats(s: State, id: int, stats: Stats): State
    requires id in s.infos
  {
    s.(infos := s.infos[id := s.infos[id].(stats := stats)])
  }

  /** Good_: a connection to the address succeeded. */
  ghost function Good(cfg: Config, s: State, a: Service, time: int): State {
    var (t, id) := Marked(cfg, s, a, time);
    if id.None? then t else Advance(cfg, t, id.value)
  }

  /** The first part of Good_: the times are recorded, if the entry is found under this very address. */
  function Marked(cfg: Config, s: State, a: Service, time: int): (r: (State, Option<int>))
    ensures r.1.Some? ==> r.1.value in r.0.infos
  {
    var t, id := s.(lastGood := time), Known(cfg, s, a);
    if id.None? then (t, id) else (SetStats(t, id.value, s.infos[id.value].stats.Succeeded(time)), id)
  }

  /** Attempt_ */
  function Attempt(cfg: Config, s: State, a: Service, countFailure: bool, time: int): State {
    var id := Known(cfg, s, a);
    if id.None? then s
    else SetStats(s, id.value, s.infos[id.value].stats.Attempted(countFailure, time, s.lastGood))
  }

  /** Connected_ */
  function Connected(cfg: Config, s: State, a: Service, time: int): State {
    var id := Known(cfg, s, a);
    if id.None? then s else SetStats(s, id.value, s.infos[id.value].stats.Seen(time))
  }

  /** SetServices_ */
  function SetServices(cfg: Config, s: State, a: Service, services: set<nat>): State {
    var id := Known(cfg, s, a);
    if id.None? then s else SetStats(s, id.value, s.infos[id.value].stats.(services := services))
  }

  ghost function Advance(cfg: Config, s: State, id: int): State
    requires id in s.infos
  {
    if s.infos[id].inTried then s else Promote(cfg, s, id)
  }

  /** The rest of Good_: an entry that is found in some bucket becomes tried. */
  ghost function Promote(cfg: Config, s: State, id: int): State
    requires id in s.infos
  {
    if OwnSlots(cfg, s.infos[id].addr, s.news, id) == {} || !MakeTriable(cfg, s, id) then s else MakeTried(cfg, s, id)
  }

  /** An announced address, and everything Add_ asks from outside. */
  datatype Announcement = Announcement(
    addr: Service, services: set<nat>, time: int, source: Source, penalty: int, routable: bool, now: int, lucky: bool)
  {
    /** A source is not penalised for announcing itself. */
    function Penalty(): int { if addr.ip == source then 0 else penalty }

    function Refreshed(st: Stats): Stats {
      var interval := if now - time < 24 * 60 * 60 then 60 * 60 else 24 * 60 * 60;
      var stale := time != 0 && (st.time == 0 || st.time < time - interval - Penalty());
      st.(time := if stale then NonNegative(time - Penalty()) else st.time, services := st.services + services)
    }
  }

  function NonNegative(x: int): int { if x < 0 then 0 else x }

  /** A known address is only worth another slot under these conditions. */
  predicate WorthAnother(n: Announcement, info: Info) {
    && !(n.time == 0 || (info.stats.time != 0 && n.time <= info.stats.time))
    && !info.inTried && info.refCount != NEW_BUCKETS_PER_ADDRESS
    && (info.refCount > 0 ==> n.lucky)
  }

  /** The entry in the slot may be overwritten by the given one. */
  predicate Overwrites(s: State, slot: Slot, id: int, now: int)
    requires id in s.infos && (slot in s.news ==> s.news[slot] in s.infos)
  {
    slot in s.news ==>
      var existing := s.infos[s.news[slot]];
      existing.stats.IsTerrible(now) || (existing.refCount > 1 && s.infos[id].refCount == 0)
  }

  /** What placing an entry looks up and asserts. */
  predicate Placeable(cfg: Config, s: State, slot: Slot, id: int, now: int) {
    && id in s.infos
    && (slot in s.news ==> s.news[slot] in s.infos)
    && if slot in s.news && s.news[slot] == id then true
       else if Overwrites(s, slot, id, now) then Clearable(s, slot) && id in ClearNew(cfg, s, slot).infos
       else s.infos[id].refCount == 0 ==> Deletable(s, id)
  }

  /** Puts the entry into the slot if it may, or drops it if it has no slot at all. */
  function Place(cfg: Config, s: State, slot: Slot, id: int, now: int): State
    requires Placeable(cfg, s, slot, id, now)
  {
    if slot in s.news && s.news[slot] == id then s
    else if Overwrites(s, slot, id, now) then Occupy(ClearNew(cfg, s, slot), slot, id)
    else if s.infos[id].refCount == 0 then Delete(cfg, s, id)
    else s
  }

  /** The state in which Add_ has found or created the entry, and whether it goes on to place it. */
  function Prepared(cfg: Config, s: State, n: Announcement): (State, int, bool) {
    match Find(cfg, s, n.addr)
    case Some(id) =>
      var t := SetStats(s, id, n.Refreshed(s.infos[id].stats));
      (t, id, WorthAnother(n, t.infos[id]))
    case None => (Create(cfg, s, n.addr, n.source, n.services, NonNegative(n.time - n.Penalty())), s.idCount, true)
  }

  function SlotFor(cfg: Config, info: Info, source: Source): Slot {
    cfg.NewSlot(info.addr, cfg.newBucket(info.addr, source))
  }

  /** Add_: the new state and the return value. */
  ghost function Add(cfg: Config, s: State, n: Announcement): (State, bool) {
    if !n.routable then (s, false)
    else
      var (t, id, go) := Prepared(cfg, s, n);
      var isNew := Find(cfg, s, n.addr).None?;
      if !go || id !in t.infos || !Placeable(cfg, t, SlotFor(cfg, t.infos[id], n.source), id, n.now) then (t, false)
      else (Place(cfg, t, SlotFor(cfg, t.infos[id], n.source), id, n.now), isNew)
  }

  // ---------------------------------------------------------------- small steps keep the invariant

  lemma EmptyInv(cfg: Config)
    ensures Inv(cfg, EMPTY) && TimesOk(EMPTY.infos)
  {
  }

  /** The same entries, at the same addresses and in the same table. */
  ghost predicate Alike(a: Infos, b: Infos) {
    && a.Keys == b.Keys
    && forall id :: id in a ==> a[id].addr == b[id].addr && a[id].inTried == b[id].inTried
  }

  /** The tables and counters only depend on which entries there are, where they belong and which are tried. */
  lemma AlikeAddrs(cfg: Config, a: Infos, b: Infos, addrs: map<Service, int>)
    requires Alike(a, b) && AddrsOk(cfg, a, addrs)
    ensures AddrsOk(cfg, b, addrs)
  {
  }

  lemma AlikeTried(cfg: Config, a: Infos, b: Infos, tried: Table)
    requires Alike(a, b) && TriedOk(cfg, a, tried)
    ensures TriedOk(cfg, b, tried)
  {
    forall s | s in tried ensures tried[s] in b && b[tried[s]].inTried && s == cfg.TriedSlot(b[tried[s]].addr) {
      var id := tried[s];
      assert id in a && a[id].inTried;
      assert a[id].addr == b[id].addr && a[id].inTried == b[id].inTried;
    }
  }

  lemma AlikeNew(cfg: Config, a: Infos, b: Infos, news: Table)
    requires Alike(a, b) && NewOk(cfg, a, news)
    ensures NewOk(cfg, b, news)
  {
    forall s | s in news ensures news[s] in b && !b[news[s]].inTried && s == cfg.NewSlot(b[news[s]].addr, s.bucket) {
      var id := news[s];
      assert id in a && !a[id].inTried;
      assert a[id].addr == b[id].addr && a[id].inTried == b[id].inTried;
    }
  }

  lemma AlikeSets(a: Infos, b: Infos)
    requires Alike(a, b)
    ensures TriedIds(a) == TriedIds(b) && NewIds(a) == NewIds(b) && |a| == |b|
  {
    forall id ensures id in TriedIds(a) <==> id in TriedIds(b) {}
    forall id ensures id in NewIds(a) <==> id in NewIds(b) {}
    assert |a.Keys| == |b.Keys|;
  }

  lemma AlikeCounts(s: State, t: State)
    requires Alike(s.infos, t.infos) && CountsOk(s)
    requires t.nTried == s.nTried && t.nNew == s.nNew && |t.random| == |s.random| && t.idCount == s.idCount
    ensures CountsOk(t)
  {
    AlikeSets(s.infos, t.infos);
  }

  lemma AlikeOk(cfg: Config, s: State, t: State)
    requires Alike(s.infos, t.infos)
    requires t.nTried == s.nTried && t.nNew == s.nNew && |t.random| == |s.random| && t.idCount == s.idCount
    requires t.addrs == s.addrs && t.tried == s.tried
    requires AddrsOk(cfg, s.infos, s.addrs) && TriedOk(cfg, s.infos, s.tried) && NewOk(cfg, s.infos, s.news)
      && CountsOk(s)
    ensures AddrsOk(cfg, t.infos, t.addrs) && TriedOk(cfg, t.infos, t.tried) && NewOk(cfg, t.infos, s.news)
      && CountsOk(t)
  {
    AlikeAddrs(cfg, s.infos, t.infos, s.addrs);
    AlikeTried(cfg, s.infos, t.infos, s.tried);
    AlikeNew(cfg, s.infos, t.infos, s.news);
    AlikeCounts(s, t);
  }

  lemma CreateTables(cfg: Config, infos: Infos, id: int, info: Info, tried: Table, news: Table)
    requires id !in infos && !info.inTried && TriedOk(cfg, infos, tried) && NewOk(cfg, infos, news)
    ensures TriedOk(cfg, infos[id := info], tried) && NewOk(cfg, infos[id := info], news)
    ensures Slots(news, id) == {}
  {
  }

  lemma CreateInv(cfg: Config, s: State, a: Service, source: Source, services: set<nat>, time: int)
    requires Inv(cfg, s) && cfg.Key(a) !in s.addrs
    ensures LooseInv(cfg, Create(cfg, s, a, source, services, time), {s.idCount})
  {
    var t := Create(cfg, s, a, source, services, time);
    CreateTables(cfg, s.infos, s.idCount, t.infos[s.idCount], s.tried, s.news);
    CreateCounts(s, t);
    CreateAddrs(cfg, s.infos, s.addrs, s.idCount, t.infos[s.idCount]);
    assert RandomOk(t.infos, t.random);
    assert RefsOk(t.infos, t.news, {s.idCount});
  }

  lemma CreateAddrs(cfg: Config, infos: Infos, addrs: map<Service, int>, id: int, info: Info)
    requires AddrsOk(cfg, infos, addrs) && id !in infos && cfg.Key(info.addr) !in addrs
    ensures AddrsOk(cfg, infos[id := info], addrs[cfg.Key(info.addr) := id])
  {
  }

  lemma CreateCounts(s: State, t: State)
    requires CountsOk(s) && s.idCount >= 0 && s.idCount in t.infos && !t.infos[s.idCount].inTried
    requires t.infos == s.infos[s.idCount := t.infos[s.idCount]]
    requires t.nTried == s.nTried && t.nNew == s.nNew + 1 && |t.random| == |s.random| + 1 && t.idCount == s.idCount + 1
    ensures CountsOk(t)
  {
    CreateSets(s.infos, s.idCount, t.infos[s.idCount]);
  }

  lemma CreateSets(infos: Infos, id: int, info: Info)
    requires id !in infos && !info.inTried
    ensures TriedIds(infos[id := info]) == TriedIds(infos) && |infos[id := info]| == |infos| + 1
    ensures |NewIds(infos[id := info])| == |NewIds(infos)| + 1
  {
    var infos' := infos[id := info];
    assert infos'.Keys == infos.Keys + {id};
    forall x ensures x in TriedIds(infos') <==> x in TriedIds(infos) {
      assert x != id ==> (x in infos' <==> x in infos);
    }
    forall x ensures x in NewIds(infos') <==> x in NewIds(infos) + {id} {
      assert x != id ==> (x in infos' <==> x in infos);
    }
    assert NewIds(infos') == NewIds(infos) + {id};
  }

  /** Only positions in the random order change. */
  ghost predicate SameButOrder(a: Infos, b: Infos) {
    && a.Keys == b.Keys
    && forall id :: id in a ==> a[id] == b[id].(randomPos := a[id].randomPos)
  }

  lemma ReorderInv(cfg: Config, s: State, t: State, loose: set<int>)
    requires LooseInv(cfg, s, loose) && SameButOrder(t.infos, s.infos)
    requires t == s.(infos := t.infos, random := t.random) && |t.random| == |s.random| && RandomOk(t.infos, t.random)
    ensures LooseInv(cfg, t, loose)
  {
    assert Alike(s.infos, t.infos);
    AlikeOk(cfg, s, t);
  }

  lemma SwapOk(s: State, i: int, j: int)
    requires RandomOk(s.infos, s.random) && 0 <= i < |s.random| && 0 <= j < |s.random| && i != j
    ensures InRange(s, i) && InRange(s, j)
    ensures var t := SwapRandom(s, i, j); SameButOrder(t.infos, s.infos) && RandomOk(t.infos, t.random)
  {
    var t := SwapRandom(s, i, j);
    var a, b := s.random[i], s.random[j];
    assert a != b;
    forall id | id in t.infos
      ensures 0 <= t.infos[id].randomPos < |t.random| && t.random[t.infos[id].randomPos] == id
    {
      assert id != a && id != b ==> t.infos[id] == s.infos[id];
    }
    forall k | 0 <= k < |t.random| ensures t.random[k] in t.infos && t.infos[t.random[k]].randomPos == k {
      assert k != i && k != j ==> t.random[k] == s.random[k];
    }
  }

  lemma SwapInv(cfg: Config, s: State, i: int, j: int, loose: set<int>)
    requires LooseInv(cfg, s, loose) && 0 <= i < |s.random| && 0 <= j < |s.random|
    ensures InRange(s, i) && InRange(s, j)
    ensures LooseInv(cfg, SwapRandom(s, i, j), loose) && SameButOrder(SwapRandom(s, i, j).infos, s.infos)
  {
    if i != j {
      SwapOk(s, i, j);
      ReorderInv(cfg, s, SwapRandom(s, i, j), loose);
    }
  }

  lemma DeleteInv(cfg: Config, s: State, id: int, loose: set<int>)
    requires LooseInv(cfg, s, loose) && id in s.infos && !s.infos[id].inTried && s.infos[id].refCount == 0
    ensures Deletable(s, id)
    ensures LooseInv(cfg, Delete(cfg, s, id), loose - {id})
  {
    var t := SwapToEnd(cfg, s, id, loose);
    DropLastInv(cfg, t, id, loose);
  }

  /** The first half of a deletion. */
  lemma SwapToEnd(cfg: Config, s: State, id: int, loose: set<int>) returns (t: State)
    requires LooseInv(cfg, s, loose) && id in s.infos && !s.infos[id].inTried && s.infos[id].refCount == 0
    ensures LooseInv(cfg, t, loose) && AtEnd(cfg, s, t, id)
  {
    var i := s.infos[id].randomPos;
    SwapInv(cfg, s, i, |s.random| - 1, loose);
    t := SwapRandom(s, i, |s.random| - 1);
    assert AtEnd(cfg, s, t, id) by { DeleteParts(cfg, s, id); }
  }

  /** The entry is last in the random order, and is deleted by dropping it there. */
  ghost predicate AtEnd(cfg: Config, s: State, t: State, id: int) {
    && Deletable(s, id) && id in t.infos && !t.infos[id].inTried && t.infos[id].refCount == 0
    && |t.random| > 0 && t.random[|t.random| - 1] == id && Delete(cfg, s, id) == DropLast(cfg, t, id)
  }

  /** A deletion swaps the entry to the end of the random order and drops it there. */
  lemma DeleteParts(cfg: Config, s: State, id: int)
    requires RandomOk(s.infos, s.random) && id in s.infos && !s.infos[id].inTried && s.infos[id].refCount == 0
    ensures InRange(s, s.infos[id].randomPos) && InRange(s, |s.random| - 1)
    ensures AtEnd(cfg, s, SwapRandom(s, s.infos[id].randomPos, |s.random| - 1), id)
  {
    SwapLast(s, id);
  }

  lemma SwapLast(s: State, id: int)
    requires id in s.infos && RandomOk(s.infos, s.random)
    ensures |s.random| > 0 && InRange(s, s.infos[id].randomPos) && InRange(s, |s.random| - 1)
    ensures var t := SwapRandom(s, s.infos[id].randomPos, |s.random| - 1);
      && |t.random| == |s.random| && t.random[|t.random| - 1] == id
      && SameButOrder(t.infos, s.infos)
  {
  }

  /** Deletion leaves all other entries and the tables alone. */
  lemma DeleteFrame(cfg: Config, s: State, id: int)
    requires RandomOk(s.infos, s.random) && Deletable(s, id)
    ensures var t := Delete(cfg, s, id);
      && t.news == s.news && t.tried == s.tried && t.nTried == s.nTried && id !in t.infos
      && forall x :: x in s.infos && x != id ==>
           x in t.infos && t.infos[x] == s.infos[x].(randomPos := t.infos[x].randomPos)
  {
    SwapLast(s, id);
    DeleteParts(cfg, s, id);
  }

  lemma HoldsNone(news: Table, id: int)
    requires |Slots(news, id)| == 0
    ensures forall slot :: slot in news ==> news[slot] != id
  {
    assert forall slot :: slot in news && news[slot] == id ==> slot in Slots(news, id);
  }

  lemma DropLastInv(cfg: Config, s: State, id: int, loose: set<int>)
    requires LooseInv(cfg, s, loose) && id in s.infos && !s.infos[id].inTried && s.infos[id].refCount == 0
    requires |s.random| > 0 && s.random[|s.random| - 1] == id
    ensures LooseInv(cfg, DropLast(cfg, s, id), loose - {id})
  {
    HoldsNone(s.news, id);
    DropRandom(s.infos, s.random, id);
    DropAddrs(cfg, s.infos, s.addrs, id);
    DropTried(cfg, s.infos, s.tried, id);
    DropNew(cfg, s.infos, s.news, id);
    DropRefs(s.infos, s.news, loose, id);
    DropCounts(cfg, s, id);
  }

  lemma DropRandom(infos: Infos, random: seq<int>, id: int)
    requires RandomOk(infos, random) && |random| > 0 && random[|random| - 1] == id
    ensures RandomOk(infos - {id}, random[..|random| - 1])
  {
  }

  lemma DropAddrs(cfg: Config, infos: Infos, addrs: map<Service, int>, id: int)
    requires AddrsOk(cfg, infos, addrs) && id in infos
    ensures AddrsOk(cfg, infos - {id}, addrs - {cfg.Key(infos[id].addr)})
  {
  }

  lemma DropTried(cfg: Config, infos: Infos, tried: Table, id: int)
    requires TriedOk(cfg, infos, tried) && id in infos && !infos[id].inTried
    ensures TriedOk(cfg, infos - {id}, tried)
  {
  }

  lemma DropNew(cfg: Config, infos: Infos, news: Table, id: int)
    requires NewOk(cfg, infos, news) && forall slot :: slot in news ==> news[slot] != id
    ensures NewOk(cfg, infos - {id}, news)
  {
  }

  lemma DropRefs(infos: Infos, news: Table, loose: set<int>, id: int)
    requires RefsOk(infos, news, loose)
    ensures RefsOk(infos - {id}, news, loose - {id})
  {
  }

  lemma DropCounts(cfg: Config, s: State, id: int)
    requires CountsOk(s) && id in s.infos && !s.infos[id].inTried && |s.random| > 0
    ensures CountsOk(DropLast(cfg, s, id))
  {
    var t := DropLast(cfg, s, id);
    assert TriedIds(t.infos) == TriedIds(s.infos);
    assert NewIds(t.infos) == NewIds(s.infos) - {id};
    assert t.infos.Keys == s.infos.Keys - {id};
  }

  lemma ReleaseInv(cfg: Config, s: State, slot: Slot, loose: set<int>)
    requires LooseInv(cfg, s, loose) && slot in s.news
    ensures s.news[slot] in s.infos && s.infos[s.news[slot]].refCount >= 1
    ensures LooseInv(cfg, Release(s, slot), loose + {s.news[slot]})
  {
    var id := s.news[slot];
    assert slot in Slots(s.news, id);
    var t := Release(s, slot);
    RefUpdateOk(cfg, s, id, t.infos);
    ReleaseNew(cfg, t.infos, s.news, {slot});
    ReleaseRefs(s.infos, s.news, loose, slot);
  }

  /** Emptying slots leaves the others where they belong. */
  lemma ReleaseNew(cfg: Config, infos: Infos, news: Table, slots: set<Slot>)
    requires NewOk(cfg, infos, news)
    ensures NewOk(cfg, infos, news - slots)
  {
  }

  lemma ReleaseRefs(infos: Infos, news: Table, loose: set<int>, slot: Slot)
    requires RefsOk(infos, news, loose) && slot in news && news[slot] in infos && !infos[news[slot]].inTried
    ensures var id := news[slot];
      RefsOk(infos[id := infos[id].(refCount := infos[id].refCount - 1)], news - {slot}, loose + {id})
  {
    SlotsRemove(news, slot);
    assert slot in Slots(news, news[slot]);
  }

  lemma SlotsRemove(t: Table, slot: Slot)
    requires slot in t
    ensures Slots(t - {slot}, t[slot]) == Slots(t, t[slot]) - {slot}
    ensures forall id :: id != t[slot] ==> Slots(t - {slot}, id) == Slots(t, id)
  {
  }

  lemma SlotsAdd(t: Table, slot: Slot, id: int)
    requires slot !in t
    ensures Slots(t[slot := id], id) == Slots(t, id) + {slot}
    ensures forall id' :: id' != id ==> Slots(t[slot := id], id') == Slots(t, id')
  {
  }

  lemma RefUpdateRandom(infos: Infos, id: int, infos': Infos, random: seq<int>)
    requires id in infos && id in infos' && infos' == infos[id := infos[id].(refCount := infos'[id].refCount)]
    requires RandomOk(infos, random)
    ensures RandomOk(infos', random)
  {
  }

  /** Changing a reference count touches nothing but the reference counts. */
  lemma RefUpdateOk(cfg: Config, s: State, id: int, infos: Infos)
    requires id in s.infos && id in infos && infos == s.infos[id := s.infos[id].(refCount := infos[id].refCount)]
    requires RandomOk(s.infos, s.random) && AddrsOk(cfg, s.infos, s.addrs) && TriedOk(cfg, s.infos, s.tried)
    requires NewOk(cfg, s.infos, s.news) && CountsOk(s)
    ensures RandomOk(infos, s.random) && AddrsOk(cfg, infos, s.addrs) && TriedOk(cfg, infos, s.tried)
    ensures NewOk(cfg, infos, s.news) && CountsOk(s.(infos := infos))
  {
    RefUpdateRandom(s.infos, id, infos, s.random);
    assert Alike(s.infos, infos);
    AlikeOk(cfg, s, s.(infos := infos));
  }

  lemma OccupyInv(cfg: Config, s: State, bucket: NewBucket, id: int, loose: set<int>)
    requires LooseInv(cfg, s, loose) && id in s.infos && !s.infos[id].inTried
    requires s.infos[id].refCount < NEW_BUCKETS_PER_ADDRESS && cfg.NewSlot(s.infos[id].addr, bucket) !in s.news
    ensures LooseInv(cfg, Occupy(s, cfg.NewSlot(s.infos[id].addr, bucket), id), loose - {id})
  {
    var slot := cfg.NewSlot(s.infos[id].addr, bucket);
    var t := Occupy(s, slot, id);
    RefUpdateOk(cfg, s, id, t.infos);
    OccupyNew(cfg, t.infos, s.news, bucket, id);
    OccupyRefs(s.infos, s.news, loose, slot, id);
  }

  lemma OccupyNew(cfg: Config, infos: Infos, news: Table, bucket: NewBucket, id: int)
    requires NewOk(cfg, infos, news) && id in infos && !infos[id].inTried
    ensures NewOk(cfg, infos, news[cfg.NewSlot(infos[id].addr, bucket) := id])
  {
  }

  lemma OccupyRefs(infos: Infos, news: Table, loose: set<int>, slot: Slot, id: int)
    requires RefsOk(infos, news, loose) && slot !in news && id in infos && !infos[id].inTried
    requires infos[id].refCount < NEW_BUCKETS_PER_ADDRESS
    ensures RefsOk(infos[id := infos[id].(refCount := infos[id].refCount + 1)], news[slot := id], loose - {id})
  {
    SlotsAdd(news, slot, id);
  }

  lemma LeaveNewInv(cfg: Config, s: State, id: int, loose: set<int>)
    requires LooseInv(cfg, s, loose) && id in s.infos && !s.infos[id].inTried
    ensures LooseInv(cfg, LeaveNew(cfg, s, id), loose + {id})
    ensures LeaveNew(cfg, s, id).infos[id].refCount == 0
  {
    var held := OwnSlots(cfg, s.infos[id].addr, s.news, id);
    OwnIsAll(cfg, s.infos, s.news, id);
    var t := LeaveNew(cfg, s, id);
    RefUpdateOk(cfg, s, id, t.infos);
    ReleaseNew(cfg, t.infos, s.news, held);
    LeaveRefs(s.infos, s.news, loose, id);
  }

  /** An entry of the new table holds slots only at the positions its buckets give it. */
  lemma OwnIsAll(cfg: Config, infos: Infos, news: Table, id: int)
    requires NewOk(cfg, infos, news) && id in infos
    ensures OwnSlots(cfg, infos[id].addr, news, id) == Slots(news, id)
  {
    forall slot ensures slot in OwnSlots(cfg, infos[id].addr, news, id) <==> slot in Slots(news, id) {
    }
  }

  lemma LeaveRefs(infos: Infos, news: Table, loose: set<int>, id: int)
    requires RefsOk(infos, news, loose) && id in infos && !infos[id].inTried
    ensures RefsOk(infos[id := infos[id].(refCount := 0)], news - Slots(news, id), loose + {id})
  {
    var rest := news - Slots(news, id);
    assert Slots(rest, id) == {};
    forall other | other != id ensures Slots(rest, other) == Slots(news, other) {
    }
  }

  lemma UntryTables(cfg: Config, s: State, slot: Slot)
    requires slot in s.tried && TriedOk(cfg, s.infos, s.tried) && NewOk(cfg, s.infos, s.news)
    ensures s.tried[slot] in s.infos
    ensures TriedOk(cfg, Untry(s, slot).infos, Untry(s, slot).tried) && NewOk(cfg, Untry(s, slot).infos, s.news)
  {
  }

  lemma UntryCounts(s: State, slot: Slot)
    requires slot in s.tried && s.tried[slot] in s.infos && s.infos[s.tried[slot]].inTried && CountsOk(s)
    ensures CountsOk(Untry(s, slot))
  {
    var id := s.tried[slot];
    var t := Untry(s, slot);
    assert TriedIds(t.infos) == TriedIds(s.infos) - {id};
    assert NewIds(t.infos) == NewIds(s.infos) + {id};
    assert t.infos.Keys == s.infos.Keys;
  }

  lemma UntryInv(cfg: Config, s: State, slot: Slot, loose: set<int>)
    requires LooseInv(cfg, s, loose) && slot in s.tried
    ensures s.tried[slot] in s.infos && LooseInv(cfg, Untry(s, slot), loose + {s.tried[slot]})
    ensures Untry(s, slot).infos[s.tried[slot]].refCount == 0
  {
    UntryTables(cfg, s, slot);
    UntryCounts(s, slot);
    var id := s.tried[slot];
    MoveAddrs(cfg, s.infos, s.addrs, id, false);
    MoveRandom(s.infos, s.random, id, false);
    MoveRefs(s.infos, s.news, loose, id, false);
  }

  /** Moving an entry between the tables touches neither the index nor the random order. */
  lemma MoveAddrs(cfg: Config, infos: Infos, addrs: map<Service, int>, id: int, inTried: bool)
    requires AddrsOk(cfg, infos, addrs) && id in infos
    ensures AddrsOk(cfg, infos[id := infos[id].(inTried := inTried)], addrs)
  {
  }

  lemma MoveRandom(infos: Infos, random: seq<int>, id: int, inTried: bool)
    requires RandomOk(infos, random) && id in infos
    ensures RandomOk(infos[id := infos[id].(inTried := inTried)], random)
  {
  }

  lemma MoveRefs(infos: Infos, news: Table, loose: set<int>, id: int, inTried: bool)
    requires RefsOk(infos, news, loose) && id in infos && infos[id].refCount == 0
    ensures RefsOk(infos[id := infos[id].(inTried := inTried)], news, if inTried then loose - {id} else loose + {id})
  {
  }

  lemma TryTables(cfg: Config, s: State, id: int)
    requires id in s.infos && !s.infos[id].inTried && |Slots(s.news, id)| == 0
    requires TriedOk(cfg, s.infos, s.tried) && NewOk(cfg, s.infos, s.news)
      && cfg.TriedSlot(s.infos[id].addr) !in s.tried
    ensures var t := Try(s, cfg.TriedSlot(s.infos[id].addr), id);
      TriedOk(cfg, t.infos, t.tried) && NewOk(cfg, t.infos, t.news)
  {
    HoldsNone(s.news, id);
  }

  lemma TryCounts(s: State, slot: Slot, id: int)
    requires id in s.infos && !s.infos[id].inTried && CountsOk(s)
    ensures CountsOk(Try(s, slot, id))
  {
    var t := Try(s, slot, id);
    assert TriedIds(t.infos) == TriedIds(s.infos) + {id};
    assert NewIds(t.infos) == NewIds(s.infos) - {id};
    assert t.infos.Keys == s.infos.Keys;
  }

  lemma TryInv(cfg: Config, s: State, id: int, loose: set<int>)
    requires LooseInv(cfg, s, loose) && id in s.infos && !s.infos[id].inTried && s.infos[id].refCount == 0
    requires cfg.TriedSlot(s.infos[id].addr) !in s.tried
    ensures LooseInv(cfg, Try(s, cfg.TriedSlot(s.infos[id].addr), id), loose - {id})
  {
    var slot := cfg.TriedSlot(s.infos[id].addr);
    TryTables(cfg, s, id);
    TryCounts(s, slot, id);
    MoveAddrs(cfg, s.infos, s.addrs, id, true);
    MoveRandom(s.infos, s.random, id, true);
    MoveRefs(s.infos, s.news, loose, id, true);
  }

  /** Clearing a slot frees it, deletes at most the entry that held it, and keeps everything consistent. */
  lemma ClearNewInv(cfg: Config, s: State, slot: Slot, loose: set<int>)
    requires LooseInv(cfg, s, loose) && (forall id :: id in loose && id in s.infos ==> s.infos[id].refCount == 0)
    ensures Clearable(s, slot)
    ensures var t := ClearNew(cfg, s, slot);
      && LooseInv(cfg, t, loose) && slot !in t.news && t.tried == s.tried
      && forall id :: id in s.infos && (slot !in s.news || s.news[slot] != id) ==>
           id in t.infos && t.infos[id] == s.infos[id].(randomPos := t.infos[id].randomPos)
  {
    if slot in s.news {
      var id := s.news[slot];
      ReleaseInv(cfg, s, slot, loose);
      assert id !in loose;
      ClearReleased(cfg, Release(s, slot), id, loose);
    }
  }

  /** What remains to be done after a slot has been released. */
  lemma ClearReleased(cfg: Config, t: State, id: int, loose: set<int>)
    requires LooseInv(cfg, t, loose + {id}) && id in t.infos && !t.infos[id].inTried && id !in loose
    requires t.infos[id].refCount >= 0
    ensures t.infos[id].refCount == 0 ==> Deletable(t, id)
    ensures var u := if t.infos[id].refCount == 0 then Delete(cfg, t, id) else t;
      && LooseInv(cfg, u, loose) && u.news == t.news && u.tried == t.tried
      && forall x :: x in t.infos && x != id ==>
           x in u.infos && u.infos[x] == t.infos[x].(randomPos := u.infos[x].randomPos)
  {
    if t.infos[id].refCount == 0 {
      DeleteInv(cfg, t, id, loose + {id});
      DeleteFrame(cfg, t, id);
      assert loose + {id} - {id} == loose;
    } else {
      TightenInv(cfg, t, loose + {id}, loose, id);
    }
  }

  /** An entry that holds a slot need not be excused. */
  lemma TightenInv(cfg: Config, s: State, loose: set<int>, tight: set<int>, id: int)
    requires LooseInv(cfg, s, loose) && loose == tight + {id} && id in s.infos && s.infos[id].refCount >= 1
    ensures LooseInv(cfg, s, tight)
  {
  }

  // ---------------------------------------------------------------- moving to the tried table

  /** The evicted entry is out of the tried table and its home slot has been cleared. */
  lemma EvictClears(cfg: Config, s: State, slot: Slot, id: int)
    requires LooseInv(cfg, s, {id}) && id in s.infos && !s.infos[id].inTried && s.infos[id].refCount == 0
    requires slot in s.tried
    ensures s.tried[slot] in s.infos && s.tried[slot] != id
    ensures var e := s.tried[slot];
      var u, home := Untry(s, slot), HomeSlot(cfg, s.infos[e]);
      && Clearable(u, home)
      && var v := ClearNew(cfg, u, home);
         && LooseInv(cfg, v, {id, e}) && home !in v.news && v.tried == s.tried - {slot}
         && id in v.infos && v.infos[id] == s.infos[id].(randomPos := v.infos[id].randomPos)
         && e in v.infos && v.infos[e] == u.infos[e].(randomPos := v.infos[e].randomPos) && u.infos[e].refCount == 0
  {
    var e := s.tried[slot];
    UntryInv(cfg, s, slot, {id});
    var u := Untry(s, slot);
    assert {id} + {e} == {id, e};
    HoldsNone(u.news, id);
    HoldsNone(u.news, e);
    ClearNewInv(cfg, u, HomeSlot(cfg, s.infos[e]), {id, e});
  }

  /** Making room: whatever is in the way loses one slot, and nobody else is touched. */
  lemma EvictInv(cfg: Config, s: State, slot: Slot, id: int)
    requires LooseInv(cfg, s, {id}) && id in s.infos && !s.infos[id].inTried && s.infos[id].refCount == 0
    ensures Evictable(cfg, s, slot)
    ensures var t := Evict(cfg, s, slot);
      && LooseInv(cfg, t, {id}) && slot !in t.tried
      && id in t.infos && t.infos[id] == s.infos[id].(randomPos := t.infos[id].randomPos)
      && (slot in s.tried ==>
        s.tried[slot] in t.infos && !t.infos[s.tried[slot]].inTried && t.infos[s.tried[slot]].refCount == 1)
  {
    if slot in s.tried {
      EvictClears(cfg, s, slot, id);
      var e := s.tried[slot];
      var v := ClearNew(cfg, Untry(s, slot), HomeSlot(cfg, s.infos[e]));
      OccupyInv(cfg, v, cfg.newBucket(s.infos[e].addr, s.infos[e].source), e, {id, e});
      assert {id, e} - {e} == {id};
    }
  }

  /** No assert of MakeTried fires, and afterwards the entry is tried. */
  lemma MakeTriedInv(cfg: Config, s: State, id: int)
    requires Inv(cfg, s) && id in s.infos && !s.infos[id].inTried
    ensures LeaveNew(cfg, s, id).infos[id].refCount == 0
    ensures MakeTriable(cfg, s, id)
    ensures cfg.TriedSlot(s.infos[id].addr) !in Evict(cfg, LeaveNew(cfg, s, id), cfg.TriedSlot(s.infos[id].addr)).tried
    ensures var t := MakeTried(cfg, s, id);
      Inv(cfg, t) && id in t.infos && t.infos[id].inTried && t.infos[id].stats == s.infos[id].stats
  {
    LeaveNewInv(cfg, s, id, {});
    assert {} + {id} == {id};
    var t, slot := LeaveNew(cfg, s, id), cfg.TriedSlot(s.infos[id].addr);
    EvictInv(cfg, t, slot, id);
    TryInv(cfg, Evict(cfg, t, slot), id, {id});
    assert {id} - {id} == {};
  }

  lemma SetStatsInv(cfg: Config, s: State, id: int, stats: Stats)
    requires Inv(cfg, s) && id in s.infos
    ensures Inv(cfg, SetStats(s, id, stats))
  {
    var t := SetStats(s, id, stats);
    assert Alike(s.infos, t.infos);
    AlikeOk(cfg, s, t);
    StatsRest(s.infos, s.random, s.news, id, stats);
  }

  lemma StatsRest(infos: Infos, random: seq<int>, news: Table, id: int, stats: Stats)
    requires RandomOk(infos, random) && RefsOk(infos, news, {}) && id in infos
    ensures RandomOk(infos[id := infos[id].(stats := stats)], random)
    ensures RefsOk(infos[id := infos[id].(stats := stats)], news, {})
  {
  }

  /** An entry of the new table is always found in one of its buckets: the exit for bad luck is dead. */
  lemma NewEntryIsFound(cfg: Config, s: State, id: int)
    requires Inv(cfg, s) && id in s.infos && !s.infos[id].inTried
    ensures OwnSlots(cfg, s.infos[id].addr, s.news, id) == Slots(s.news, id) != {}
  {
    OwnIsAll(cfg, s.infos, s.news, id);
  }

  /** Good_ keeps everything consistent; a known address becomes tried unless it is known under another port. */
  lemma GoodInv(cfg: Config, s: State, a: Service, time: int)
    requires Inv(cfg, s)
    ensures Inv(cfg, Good(cfg, s, a, time))
    ensures var t := Good(cfg, s, a, time);
      match Known(cfg, s, a)
      case None => t == s.(lastGood := time)
      case Some(id) => id in t.infos && t.infos[id].inTried && t.infos[id].stats == s.infos[id].stats.Succeeded(time)
  {
    MarkedInv(cfg, s, a, time);
    var (t, id) := Marked(cfg, s, a, time);
    if id.Some? && !t.infos[id.value].inTried { PromoteInv(cfg, t, id.value); }
  }

  /** Recording a success keeps the manager consistent. */
  lemma MarkedInv(cfg: Config, s: State, a: Service, time: int)
    requires Inv(cfg, s)
    ensures Inv(cfg, Marked(cfg, s, a, time).0)
  {
    var t := s.(lastGood := time);
    assert Inv(cfg, t);
    var id := Known(cfg, s, a);
    if id.Some? { SetStatsInv(cfg, t, id.value, s.infos[id.value].stats.Succeeded(time)); }
  }

  lemma PromoteInv(cfg: Config, s: State, id: int)
    requires Inv(cfg, s) && id in s.infos && !s.infos[id].inTried
    ensures MakeTriable(cfg, s, id) && Promote(cfg, s, id) == MakeTried(cfg, s, id)
    ensures var t := Promote(cfg, s, id);
      Inv(cfg, t) && id in t.infos && t.infos[id].inTried && t.infos[id].stats == s.infos[id].stats
  {
    NewEntryIsFound(cfg, s, id);
    MakeTriedInv(cfg, s, id);
  }

  // ---------------------------------------------------------------- adding addresses

  lemma FindExact(cfg: Config, s: State, a: Service)
    requires Inv(cfg, s)
    ensures Find(cfg, s, a).None? <==> cfg.Key(a) !in s.addrs
    ensures Find(cfg, s, a).None? <==> forall id :: id in s.infos ==> cfg.Key(s.infos[id].addr) != cfg.Key(a)
    ensures forall id :: Find(cfg, s, a) == Some(id) ==> id in s.infos && cfg.Key(s.infos[id].addr) == cfg.Key(a)
  {
  }

  /** Placing the entry, which may be one that has no slot yet, ends in a consistent state; no assert fires. */
  lemma PlaceInv(cfg: Config, s: State, source: Source, id: int, now: int)
    requires LooseInv(cfg, s, {id}) && id in s.infos && !s.infos[id].inTried
    requires s.infos[id].refCount < NEW_BUCKETS_PER_ADDRESS
    ensures var slot := SlotFor(cfg, s.infos[id], source);
      Placeable(cfg, s, slot, id, now) && Inv(cfg, Place(cfg, s, slot, id, now))
  {
    var slot := SlotFor(cfg, s.infos[id], source);
    assert {id} - {id} == {};
    if slot in s.news && s.news[slot] == id {
      assert slot in Slots(s.news, id);
      TightenInv(cfg, s, {id}, {}, id);
    } else if Overwrites(s, slot, id, now) {
      PlaceOver(cfg, s, source, id);
    } else if s.infos[id].refCount == 0 {
      DeleteInv(cfg, s, id, {id});
    } else {
      TightenInv(cfg, s, {id}, {}, id);
    }
  }

  lemma PlaceOver(cfg: Config, s: State, source: Source, id: int)
    requires LooseInv(cfg, s, {id}) && id in s.infos && !s.infos[id].inTried
    requires s.infos[id].refCount < NEW_BUCKETS_PER_ADDRESS
    requires var slot := SlotFor(cfg, s.infos[id], source); slot in s.news ==> s.news[slot] != id
    ensures var slot := SlotFor(cfg, s.infos[id], source);
      && Clearable(s, slot) && id in ClearNew(cfg, s, slot).infos
      && Inv(cfg, Occupy(ClearNew(cfg, s, slot), slot, id))
  {
    var slot := SlotFor(cfg, s.infos[id], source);
    if s.infos[id].refCount == 0 {
      ClearNewInv(cfg, s, slot, {id});
      OccupyInv(cfg, ClearNew(cfg, s, slot), cfg.newBucket(s.infos[id].addr, source), id, {id});
      assert {id} - {id} == {};
    } else {
      TightenInv(cfg, s, {id}, {}, id);
      ClearNewInv(cfg, s, slot, {});
      OccupyInv(cfg, ClearNew(cfg, s, slot), cfg.newBucket(s.infos[id].addr, source), id, {});
      assert {} - {id} == {};
    }
  }

  lemma LoosenInv(cfg: Config, s: State, id: int)
    requires Inv(cfg, s)
    ensures LooseInv(cfg, s, {id})
  {
  }

  /** Every announcement, from any source and at any time, keeps the manager consistent. */
  lemma AddInv(cfg: Config, s: State, n: Announcement)
    requires Inv(cfg, s)
    ensures Inv(cfg, Add(cfg, s, n).0)
    ensures Add(cfg, s, n).1 <==> n.routable && Find(cfg, s, n.addr).None?
  {
    if n.routable {
      var (t, id, go) := Prepared(cfg, s, n);
      FindExact(cfg, s, n.addr);
      match Find(cfg, s, n.addr) {
        case None =>
          CreateInv(cfg, s, n.addr, n.source, n.services, NonNegative(n.time - n.Penalty()));
          PlaceInv(cfg, t, n.source, id, n.now);
        case Some(_) =>
          SetStatsInv(cfg, s, id, n.Refreshed(s.infos[id].stats));
          if go {
            LoosenInv(cfg, t, id);
            PlaceInv(cfg, t, n.source, id, n.now);
          }
      }
    }
  }
}
