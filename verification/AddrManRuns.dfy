/**
 * Whole runs of the address manager: what its operations leave alone, when the recorded times stay plausible, and the
 * invariant over all runs.
 */
module AddrManRuns {
  import opened Common
  import opened AddrMan

  /** The entry is the same up to its position in the random order. */
  ghost predicate Kept(a: Infos, b: Infos, x: int) {
    x in a && x in b && b[x] == a[x].(randomPos := b[x].randomPos)
  }

  /** A cleared slot costs its holder one reference, and the last reference costs it its place. */
  lemma ClearNewFrame(cfg: Config, s: State, slot: Slot)
    requires RandomOk(s.infos, s.random) && Clearable(s, slot) && slot in s.news
    ensures var (t, y) := (ClearNew(cfg, s, slot), s.news[slot]);
      && t.news == s.news - {slot}
      && (forall x :: x in s.infos && x != y ==> Kept(s.infos, t.infos, x))
      && (y in t.infos <==> s.infos[y].refCount > 1)
      && (y in t.infos ==> Kept(s.infos[y := s.infos[y].(refCount := s.infos[y].refCount - 1)], t.infos, y))
  {
    var u, y := Release(s, slot), s.news[slot];
    assert RandomOk(u.infos, u.random);
    if u.infos[y].refCount == 0 { DeleteFrame(cfg, u, y); }
  }

  /** Who loses a reference when the tried entry in the slot is evicted. */
  ghost predicate Displaced(cfg: Config, s: State, slot: Slot, x: int) {
    && slot in s.tried && s.tried[slot] in s.infos
    && var home := HomeSlot(cfg, s.infos[s.tried[slot]]); home in s.news && s.news[home] == x
  }

  lemma EvictFrame(cfg: Config, s: State, slot: Slot, x: int)
    requires RandomOk(s.infos, s.random) && Evictable(cfg, s, slot) && x in s.infos
    requires !Displaced(cfg, s, slot, x) && (slot in s.tried ==> x != s.tried[slot])
    ensures Kept(s.infos, Evict(cfg, s, slot).infos, x)
  {
    if slot in s.tried {
      var v, home := Untry(s, slot), HomeSlot(cfg, s.infos[s.tried[slot]]);
      assert RandomOk(v.infos, v.random);
      if home in v.news { ClearNewFrame(cfg, v, home); }
    }
  }

  /** Conservation: a successful connection moves one entry, sends at most one back, and drops at most one reference. */
  lemma MakeTriedFrame(cfg: Config, s: State, id: int, x: int)
    requires Inv(cfg, s) && id in s.infos && !s.infos[id].inTried && x in s.infos && x != id
    requires var slot := cfg.TriedSlot(s.infos[id].addr);
      !Displaced(cfg, s, slot, x) && (slot in s.tried ==> x != s.tried[slot])
    ensures MakeTriable(cfg, s, id) && Kept(s.infos, MakeTried(cfg, s, id).infos, x)
  {
    MakeTriedInv(cfg, s, id);
    var u, slot := LeaveNew(cfg, s, id), cfg.TriedSlot(s.infos[id].addr);
    LeaveNewInv(cfg, s, id, {});
    EvictFrame(cfg, u, slot, x);
  }

  /**
   * What a successful connection changes besides the entry itself: the one it evicts, and the one that is
   * displaced.
   */
  lemma GoodFrame(cfg: Config, s: State, a: Service, time: int, x: int)
    requires Inv(cfg, s) && x in s.infos && Known(cfg, s, a) != Some(x)
    requires var slot := cfg.TriedSlot(a); !Displaced(cfg, s, slot, x) && (slot in s.tried ==> x != s.tried[slot])
    ensures Kept(s.infos, Good(cfg, s, a, time).infos, x)
  {
    var (t, id) := Marked(cfg, s, a, time);
    MarkedInv(cfg, s, a, time);
    if id.Some? && !t.infos[id.value].inTried {
      PromoteInv(cfg, t, id.value);
      MakeTriedFrame(cfg, t, id.value, x);
    }
  }

  // ---------------------------------------------------------------- times

  /** Statistics are only carried over, and no entry becomes tried. */
  ghost predicate Calmer(a: Infos, b: Infos) {
    forall id :: id in b ==> id in a && b[id].stats == a[id].stats && (b[id].inTried ==> a[id].inTried)
  }

  lemma ClearNewCalm(cfg: Config, s: State, slot: Slot)
    requires Clearable(s, slot)
    ensures Calmer(s.infos, ClearNew(cfg, s, slot).infos)
  {
  }

  lemma EvictCalm(cfg: Config, s: State, slot: Slot)
    requires Evictable(cfg, s, slot)
    ensures Calmer(s.infos, Evict(cfg, s, slot).infos)
  {
    if slot in s.tried {
      ClearNewCalm(cfg, Untry(s, slot), HomeSlot(cfg, s.infos[s.tried[slot]]));
    }
  }

  lemma PlaceCalm(cfg: Config, s: State, slot: Slot, id: int, now: int)
    requires Placeable(cfg, s, slot, id, now)
    ensures Calmer(s.infos, Place(cfg, s, slot, id, now).infos)
  {
    if !(slot in s.news && s.news[slot] == id) && Overwrites(s, slot, id, now) {
      ClearNewCalm(cfg, s, slot);
    }
  }

  lemma AddTimes(cfg: Config, s: State, n: Announcement)
    requires TimesOk(s.infos)
    ensures TimesOk(Add(cfg, s, n).0.infos)
  {
    var (t, id, go) := Prepared(cfg, s, n);
    assert TimesOk(t.infos);
    if id in t.infos {
      var slot := SlotFor(cfg, t.infos[id], n.source);
      if Placeable(cfg, t, slot, id, n.now) { PlaceCalm(cfg, t, slot, id, n.now); }
    }
  }

  /** A reported success keeps the times plausible if and only if its time is positive or the address is not known. */
  lemma GoodTimes(cfg: Config, s: State, a: Service, time: int)
    requires Inv(cfg, s) && TimesOk(s.infos)
    ensures TimesOk(Good(cfg, s, a, time).infos) <==> (Known(cfg, s, a).Some? ==> time > 0)
  {
    GoodInv(cfg, s, a, time);
    var (t, id) := Marked(cfg, s, a, time);
    if id.Some? && time > 0 { AdvanceTimes(cfg, t, id.value); }
  }

  lemma AdvanceTimes(cfg: Config, s: State, id: int)
    requires TimesOk(s.infos) && id in s.infos && s.infos[id].stats.lastSuccess > 0
    ensures TimesOk(Advance(cfg, s, id).infos)
  {
    if MakeTriable(cfg, s, id) {
      var left, slot := LeaveNew(cfg, s, id), cfg.TriedSlot(s.infos[id].addr);
      EvictCalm(cfg, left, slot);
      assert Calmer(s.infos, Evict(cfg, left, slot).infos);
    }
  }

  lemma SetStatsTimes(s: State, id: int, stats: Stats)
    requires TimesOk(s.infos) && id in s.infos
    ensures TimesOk(SetStats(s, id, stats).infos) <==>
      stats.lastTry >= 0 && stats.lastSuccess >= 0 && (s.infos[id].inTried ==> stats.lastSuccess != 0)
  {
    var t := SetStats(s, id, stats);
    assert t.infos[id].stats == stats;
  }

  // ---------------------------------------------------------------- whole runs

  /** What callers can do. Shuffle is one exchange made while addresses are handed out. */
  datatype Op =
    | Succeed(a: Service, time: int)
    | Announce(n: Announcement)
    | Try(a: Service, countFailure: bool, time: int)
    | Meet(a: Service, time: int)
    | Serve(a: Service, services: set<nat>)
    | Shuffle(i: nat, j: nat)

  ghost function Apply(cfg: Config, s: State, op: Op): State {
    match op
    case Succeed(a, time) => Good(cfg, s, a, time)
    case Announce(n) => Add(cfg, s, n).0
    case Try(a, countFailure, time) => Attempt(cfg, s, a, countFailure, time)
    case Meet(a, time) => Connected(cfg, s, a, time)
    case Serve(a, services) => SetServices(cfg, s, a, services)
    case Shuffle(i, j) => if InRange(s, i) && InRange(s, j) then SwapRandom(s, i, j) else s
  }

  ghost function Run(cfg: Config, s: State, ops: seq<Op>): State
    decreases |ops|
  {
    if ops == [] then s else Run(cfg, Apply(cfg, s, ops[0]), ops[1..])
  }

  lemma ApplyInv(cfg: Config, s: State, op: Op)
    requires Inv(cfg, s)
    ensures Inv(cfg, Apply(cfg, s, op))
  {
    match op
    case Succeed(a, time) => GoodInv(cfg, s, a, time);
    case Announce(n) => AddInv(cfg, s, n);
    case Try(a, _, _) => TouchInv(cfg, s, a);
    case Meet(a, _) => TouchInv(cfg, s, a);
    case Serve(a, _) => TouchInv(cfg, s, a);
    case Shuffle(i, j) =>
      if InRange(s, i) && InRange(s, j) { SwapInv(cfg, s, i, j, {}); }
  }

  lemma TouchInv(cfg: Config, s: State, a: Service)
    requires Inv(cfg, s)
    ensures Known(cfg, s, a).Some? ==> forall stats :: Inv(cfg, SetStats(s, Known(cfg, s, a).value, stats))
  {
    if Known(cfg, s, a).Some? {
      forall stats ensures Inv(cfg, SetStats(s, Known(cfg, s, a).value, stats)) {
        SetStatsInv(cfg, s, Known(cfg, s, a).value, stats);
      }
    }
  }

  /** The operation does not record an impossible time. */
  ghost predicate Timely(cfg: Config, s: State, op: Op) {
    match op
    case Succeed(a, time) => Known(cfg, s, a).Some? ==> time > 0
    case Try(a, _, time) => Known(cfg, s, a).Some? ==> time >= 0
    case _ => true
  }

  /** The times stay plausible exactly under timely operations. */
  lemma ApplyTimes(cfg: Config, s: State, op: Op)
    requires Inv(cfg, s) && TimesOk(s.infos)
    ensures TimesOk(Apply(cfg, s, op).infos) <==> Timely(cfg, s, op)
  {
    match op
    case Succeed(a, time) => GoodTimes(cfg, s, a, time);
    case Announce(n) => AddTimes(cfg, s, n);
    case Try(a, countFailure, time) =>
      var id := Known(cfg, s, a);
      if id.Some? { SetStatsTimes(s, id.value, s.infos[id.value].stats.Attempted(countFailure, time, s.lastGood)); }
    case Meet(a, time) =>
      var id := Known(cfg, s, a);
      if id.Some? { SetStatsTimes(s, id.value, s.infos[id.value].stats.Seen(time)); }
    case Serve(a, services) =>
      var id := Known(cfg, s, a);
      if id.Some? { SetStatsTimes(s, id.value, s.infos[id.value].stats.(services := services)); }
    case Shuffle(i, j) =>
      if InRange(s, i) && InRange(s, j) { SwapInv(cfg, s, i, j, {}); }
  }

  /** Every operation of the run is timely when it is made. */
  ghost predicate AllTimely(cfg: Config, s: State, ops: seq<Op>)
    decreases |ops|
  {
    ops == [] || (Timely(cfg, s, ops[0]) && AllTimely(cfg, Apply(cfg, s, ops[0]), ops[1..]))
  }

  /**
   * A manager that starts empty is consistent after every run, and the times it recorded are plausible if the run
   * was timely.
   */
  lemma {:induction false} RunInv(cfg: Config, s: State, ops: seq<Op>)
    requires s == EMPTY || Inv(cfg, s)
    ensures Inv(cfg, Run(cfg, s, ops))
    ensures (s == EMPTY || TimesOk(s.infos)) && AllTimely(cfg, s, ops) ==> TimesOk(Run(cfg, s, ops).infos)
    decreases |ops|
  {
    EmptyInv(cfg);
    if ops != [] {
      ApplyInv(cfg, s, ops[0]);
      if TimesOk(s.infos) { ApplyTimes(cfg, s, ops[0]); }
      RunInv(cfg, Apply(cfg, s, ops[0]), ops[1..]);
    }
  }

  // ---------------------------------------------------------------- clearing

  /** Clear resets the tables, the order and the counters, but neither the entries nor the index. */
  function Cleared(s: State): State { EMPTY.(infos := s.infos, addrs := s.addrs) }

  /** So a cleared manager is consistent, under any key, exactly if there was nothing to clear. */
  lemma ClearedExact(cfg: Config, s: State)
    ensures Inv(cfg, Cleared(s)) <==> s.infos == map[] && s.addrs == map[]
  {
    EmptyInv(cfg);
    if Inv(cfg, Cleared(s)) {
      assert s.infos == map[];
      assert s.addrs == map[];
    }
  }
}
