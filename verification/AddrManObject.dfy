/**
 * The address manager's fields, updated in place.
 *
 * The two bucket tables are arrays in which -1 marks an empty slot; ghost maps mirror them. Each method
 * is proved against the operation on values; what the source asserts is a precondition here, and the
 * public operations meet all of them.
 */
module AddrManObject {
  import opened Common
  import opened AddrMan
  import opened AddrManCheck

  /** The map holds exactly the occupied slots of the array. */
  ghost predicate Mirrors(a: array2<int>, t: Table)
    reads a
  {
    && (forall b, p :: 0 <= b < a.Length0 && 0 <= p < a.Length1 ==> (Slot(b, p) in t <==> a[b, p] != -1))
    && (forall b, p :: 0 <= b < a.Length0 && 0 <= p < a.Length1 && Slot(b, p) in t ==> t[Slot(b, p)] == a[b, p])
    && (forall s :: s in t ==> 0 <= s.bucket < a.Length0 && 0 <= s.pos < a.Length1)
  }

  /** ClearNew does not look at the count of new entries; it only lowers it. */
  lemma ClearNewShift(cfg: Config, s: State, slot: Slot, d: int)
    requires Clearable(s, slot)
    ensures Clearable(s.(nNew := s.nNew + d), slot)
    ensures var t := ClearNew(cfg, s, slot); ClearNew(cfg, s.(nNew := s.nNew + d), slot) == t.(nNew := t.nNew + d)
  {
    if slot in s.news {
      var id, u := s.news[slot], s.(nNew := s.nNew + d);
      var r := Release(s, slot);
      assert Release(u, slot) == r.(nNew := r.nNew + d);
      if r.infos[id].refCount == 0 { DeleteShift(cfg, r, id, d); }
    }
  }

  /** Nor does taking a slot. */
  lemma OccupyShift(s: State, slot: Slot, id: int)
    requires id in s.infos
    ensures var t, r := Occupy(s.(nNew := s.nNew - 2), slot, id), Occupy(s, slot, id);
      t.(nNew := t.nNew + 1) == r.(nNew := r.nNew - 1)
  {
  }

  lemma DeleteShift(cfg: Config, s: State, id: int, d: int)
    requires Deletable(s, id)
    ensures var u := s.(nNew := s.nNew + d);
      Deletable(u, id) && var t := Delete(cfg, s, id); Delete(cfg, u, id) == t.(nNew := t.nNew + d)
  {
  }

  /** Sets every slot to empty. */
  method ClearTable(a: array2<int>)
    modifies a
    ensures Mirrors(a, map[])
  {
    for bucket := 0 to a.Length0
      invariant forall b, p :: 0 <= b < bucket && 0 <= p < a.Length1 ==> a[b, p] == -1
    {
      for entry := 0 to a.Length1
        invariant forall b, p :: 0 <= b < bucket && 0 <= p < a.Length1 ==> a[b, p] == -1
        invariant forall p :: 0 <= p < entry ==> a[bucket, p] == -1
      {
        a[bucket, entry] := -1;
      }
    }
  }

  class Manager {
    const cfg: Config
    var nIdCount: int
    var mapInfo: Infos
    var mapAddr: map<Service, int>
    var vRandom: seq<int>
    var nTried: int
    const vvTried: array2<int>
    var nNew: int
    const vvNew: array2<int>
    var nLastGood: int
    ghost var tried: Table
    ghost var news: Table

    ghost predicate Valid()
      reads this, vvTried, vvNew
    {
      && vvTried != vvNew
      && vvTried.Length0 == TRIED_BUCKET_COUNT && vvTried.Length1 == BUCKET_SIZE && Mirrors(vvTried, tried)
      && vvNew.Length0 == NEW_BUCKET_COUNT && vvNew.Length1 == BUCKET_SIZE && Mirrors(vvNew, news)
    }

    ghost function Now(): State
      reads this
    {
      State(nIdCount, mapInfo, mapAddr, vRandom, nTried, tried, nNew, news, nLastGood)
    }

    constructor (cfg: Config)
      ensures Valid() && Now() == EMPTY && this.cfg == cfg && Inv(cfg, Now())
      ensures fresh(vvNew) && fresh(vvTried)
    {
      this.cfg := cfg;
      nIdCount, mapInfo, mapAddr, vRandom, nTried, nNew, nLastGood := 0, map[], map[], [], 0, 0, 1;
      vvTried, vvNew := new int[TRIED_BUCKET_COUNT, BUCKET_SIZE], new int[NEW_BUCKET_COUNT, BUCKET_SIZE];
      tried, news := map[], map[];
      new;
      ClearTable(vvNew);
      ClearTable(vvTried);
      EmptyInv(cfg);
    }

    method SetNew(slot: Slot, id: int)
      requires Valid() && 0 <= slot.bucket < NEW_BUCKET_COUNT && 0 <= slot.pos < BUCKET_SIZE && id != -1
      modifies this`news, vvNew
      ensures Valid() && news == old(news)[slot := id]
    {
      vvNew[slot.bucket, slot.pos] := id;
      news := news[slot := id];
    }

    method ResetNew(slot: Slot)
      requires Valid() && 0 <= slot.bucket < NEW_BUCKET_COUNT && 0 <= slot.pos < BUCKET_SIZE
      modifies this`news, vvNew
      ensures Valid() && news == old(news) - {slot}
    {
      vvNew[slot.bucket, slot.pos] := -1;
      news := news - {slot};
    }

    method FindEntry(a: Service) returns (id: Option<int>)
      ensures id == Find(cfg, Now(), a)
    {
      var key := if cfg.discriminatePorts then a else a.(port := 0);
      if key !in mapAddr || mapAddr[key] !in mapInfo { return None; }
      return Some(mapAddr[key]);
    }

    method CreateEntry(a: Service, source: Source, services: set<nat>, time: int) returns (nId: int)
      requires Valid()
      modifies this
      ensures Valid() && Now() == Create(cfg, old(Now()), a, source, services, time) && nId == old(nIdCount)
    {
      nId := nIdCount;
      nIdCount := nIdCount + 1;
      mapInfo := mapInfo[nId := Info(a, source, Stats(services, time, 0, 0, 0, 0), 0, false, |vRandom|)];
      mapAddr := mapAddr[cfg.Key(a) := nId];
      vRandom := vRandom + [nId];
      nNew := nNew + 1;
    }

    method Swap(i: int, j: int)
      requires i != j ==> InRange(Now(), i) && InRange(Now(), j)
      modifies this`mapInfo, this`vRandom
      ensures Now() == SwapRandom(old(Now()), i, j)
    {
      if i == j { return; }
      var nId1, nId2 := vRandom[i], vRandom[j];
      mapInfo := mapInfo[nId1 := mapInfo[nId1].(randomPos := j)];
      mapInfo := mapInfo[nId2 := mapInfo[nId2].(randomPos := i)];
      vRandom := vRandom[i := nId2];
      vRandom := vRandom[j := nId1];
    }

    method DeleteEntry(nId: int)
      requires Valid() && Deletable(Now(), nId)
      modifies this`mapInfo, this`vRandom, this`mapAddr, this`nNew
      ensures Valid() && Now() == Delete(cfg, old(Now()), nId)
    {
      Swap(mapInfo[nId].randomPos, |vRandom| - 1);
      ForgetLast(nId);
    }

    /** The end of Delete, once the entry is the last of the random order. */
    method ForgetLast(nId: int)
      requires nId in mapInfo && |vRandom| > 0
      modifies this`mapInfo, this`vRandom, this`mapAddr, this`nNew
      ensures Now() == DropLast(cfg, old(Now()), nId)
    {
      vRandom := vRandom[..|vRandom| - 1];
      mapAddr := mapAddr - {cfg.Key(mapInfo[nId].addr)};
      mapInfo := mapInfo - {nId};
      nNew := nNew - 1;
    }

    method ClearNewSlot(slot: Slot)
      requires Valid() && Clearable(Now(), slot) && 0 <= slot.bucket < NEW_BUCKET_COUNT && 0 <= slot.pos < BUCKET_SIZE
      modifies this`mapInfo, this`vRandom, this`mapAddr, this`nNew, this`news, vvNew
      ensures Valid() && Now() == ClearNew(cfg, old(Now()), slot)
    {
      if vvNew[slot.bucket, slot.pos] != -1 {
        var nIdDelete := vvNew[slot.bucket, slot.pos];
        assert Slot(slot.bucket, slot.pos) == slot;
        mapInfo := mapInfo[nIdDelete := mapInfo[nIdDelete].(refCount := mapInfo[nIdDelete].refCount - 1)];
        ResetNew(slot);
        assert Now() == Release(old(Now()), slot);
        if mapInfo[nIdDelete].refCount == 0 {
          DeleteEntry(nIdDelete);
        }
      } else {
        assert Slot(slot.bucket, slot.pos) == slot;
      }
    }

    /** The first loop of MakeTried: looks at one position per bucket. */
    method LeaveAllNew(nId: int)
      requires Valid() && nId in mapInfo && nId != -1
      modifies this`mapInfo, this`news, vvNew
      ensures Valid() && Now() == LeaveNew(cfg, old(Now()), nId)
    {
      ghost var start := Now();
      LeaveBelowEnds(cfg, start, nId);
      for bucket := 0 to NEW_BUCKET_COUNT
        modifies this`mapInfo, this`news, vvNew
        invariant Valid() && Now() == LeaveBelow(cfg, start, nId, bucket)
      {
        LeaveNext(start, nId, bucket);
      }
    }

    method LeaveNext(ghost start: State, nId: int, bucket: NewBucket)
      requires Valid() && nId in start.infos && nId != -1 && Now() == LeaveBelow(cfg, start, nId, bucket)
      modifies this`mapInfo, this`news, vvNew
      ensures Valid() && Now() == LeaveBelow(cfg, start, nId, bucket + 1)
    {
      LeaveBelowStep(cfg, start, nId, bucket);
      LeaveOneNew(nId, bucket);
    }

    /** The body of that loop. */
    method LeaveOneNew(nId: int, bucket: NewBucket)
      requires Valid() && nId in mapInfo && nId != -1
      modifies this`mapInfo, this`news, vvNew
      ensures Valid() && Now() == LeaveOne(cfg, old(Now()), nId, bucket)
    {
      var pos: int := cfg.position(mapInfo[nId].addr, true, bucket);
      assert Slot(bucket, pos) == cfg.NewSlot(mapInfo[nId].addr, bucket);
      if vvNew[bucket, pos] == nId {
        ResetNew(Slot(bucket, pos));
        mapInfo := mapInfo[nId := mapInfo[nId].(refCount := mapInfo[nId].refCount - 1)];
      }
    }

    /** MakeTried; `room` is the state in which the entry has left the new table and its tried slot is free. */
    method MakeEntryTried(nId: int, ghost left: State, ghost room: State)
      requires Valid() && nId != -1 && nId in mapInfo && left == LeaveNew(cfg, Now(), nId)
      requires Evictable(cfg, left, cfg.TriedSlot(mapInfo[nId].addr))
        && Unreferenced(left, cfg.TriedSlot(mapInfo[nId].addr))
      requires room == Evict(cfg, left, cfg.TriedSlot(mapInfo[nId].addr)) && nId in room.infos
      modifies this`mapInfo, this`vRandom, this`mapAddr, this`nNew, this`nTried, this`news, this`tried, vvNew, vvTried
      ensures Valid() && Now() == Try(room, cfg.TriedSlot(old(mapInfo)[nId].addr), nId)
    {
      var slot := cfg.TriedSlot(mapInfo[nId].addr);
      MakeRoom(nId, slot, left);
      EnterTried(slot, nId, room);
    }

    /** The parts of MakeTried before the entry takes its slot. */
    method MakeRoom(nId: int, slot: Slot, ghost left: State)
      requires Valid() && 0 <= slot.bucket < TRIED_BUCKET_COUNT && 0 <= slot.pos < BUCKET_SIZE
      requires nId != -1 && nId in mapInfo && left == LeaveNew(cfg, Now(), nId)
      requires Evictable(cfg, left, slot) && Unreferenced(left, slot)
      modifies this`mapInfo, this`vRandom, this`mapAddr, this`nNew, this`nTried, this`news, this`tried, vvNew, vvTried
      ensures Valid() && Now() == Evict(cfg, left, slot).(nNew := Evict(cfg, left, slot).nNew - 1)
    {
      LeaveAllNew(nId);
      nNew := nNew - 1;
      EvictTried(slot, left);
    }

    method EnterTried(slot: Slot, nId: int, ghost room: State)
      requires Valid() && 0 <= slot.bucket < TRIED_BUCKET_COUNT && 0 <= slot.pos < BUCKET_SIZE
      requires nId in mapInfo && nId != -1 && Now() == room.(nNew := room.nNew - 1)
      modifies this`mapInfo, this`nTried, this`tried, vvTried
      ensures Valid() && Now() == Try(room, slot, nId)
    {
      vvTried[slot.bucket, slot.pos] := nId;
      tried := tried[slot := nId];
      nTried := nTried + 1;
      mapInfo := mapInfo[nId := mapInfo[nId].(inTried := true)];
    }

    method LeaveTried(slot: Slot)
      requires Valid() && slot in tried && tried[slot] in mapInfo
      modifies this`mapInfo, this`nTried, this`tried, vvTried
      ensures Valid() && Now() == Untry(old(Now()), slot).(nNew := old(nNew))
    {
      assert Slot(slot.bucket, slot.pos) == slot;
      var nIdEvict := vvTried[slot.bucket, slot.pos];
      mapInfo := mapInfo[nIdEvict := mapInfo[nIdEvict].(inTried := false)];
      vvTried[slot.bucket, slot.pos] := -1;
      tried := tried - {slot};
      nTried := nTried - 1;
    }

    method TriedAt(slot: Slot) returns (id: int)
      requires Valid() && 0 <= slot.bucket < TRIED_BUCKET_COUNT && 0 <= slot.pos < BUCKET_SIZE
      ensures if slot in tried then id == tried[slot] && id != -1 else id == -1
    {
      assert Slot(slot.bucket, slot.pos) == slot;
      id := vvTried[slot.bucket, slot.pos];
    }

    /** The middle part of MakeTried: what sits in the tried slot goes back to its home slot. */
    method EvictTried(slot: Slot, ghost left: State)
      requires Valid() && 0 <= slot.bucket < TRIED_BUCKET_COUNT && 0 <= slot.pos < BUCKET_SIZE
      requires Now() == left.(nNew := left.nNew - 1) && Evictable(cfg, left, slot) && Unreferenced(left, slot)
      modifies this`mapInfo, this`vRandom, this`mapAddr, this`nNew, this`nTried, this`news, this`tried, vvNew, vvTried
      ensures Valid() && Now() == Evict(cfg, left, slot).(nNew := Evict(cfg, left, slot).nNew - 1)
    {
      var nIdEvict := TriedAt(slot);
      if nIdEvict != -1 {
        ghost var u := Untry(left, slot);
        var home := HomeSlot(cfg, mapInfo[nIdEvict]);
        LeaveTried(slot);
        assert Now() == u.(nNew := u.nNew - 2);
        ReenterNew(nIdEvict, home, u, ClearNew(cfg, u, home));
      }
    }

    /** The end of that part: the evicted entry overwrites whatever is in its home slot. */
    method ReenterNew(nIdEvict: int, home: Slot, ghost u: State, ghost v: State)
      requires Valid() && 0 <= home.bucket < NEW_BUCKET_COUNT && 0 <= home.pos < BUCKET_SIZE && nIdEvict != -1
      requires Now() == u.(nNew := u.nNew - 2) && Clearable(u, home) && v == ClearNew(cfg, u, home)
      requires nIdEvict in v.infos && v.infos[nIdEvict].refCount == 0
      modifies this`mapInfo, this`vRandom, this`mapAddr, this`nNew, this`news, vvNew
      ensures Valid() && var t := Occupy(v, home, nIdEvict); Now() == t.(nNew := t.nNew - 1)
    {
      ClearHome(home, u, v);
      OccupyShift(v, home, nIdEvict);
      ReturnTo(home, nIdEvict);
    }

    method ClearHome(home: Slot, ghost u: State, ghost v: State)
      requires Valid() && 0 <= home.bucket < NEW_BUCKET_COUNT && 0 <= home.pos < BUCKET_SIZE
      requires Now() == u.(nNew := u.nNew - 2) && Clearable(u, home) && v == ClearNew(cfg, u, home)
      modifies this`mapInfo, this`vRandom, this`mapAddr, this`nNew, this`news, vvNew
      ensures Valid() && Now() == v.(nNew := v.nNew - 2)
    {
      ClearNewShift(cfg, u, home, -2);
      ClearNewSlot(home);
    }

    method ReturnTo(home: Slot, nIdEvict: int)
      requires Valid() && 0 <= home.bucket < NEW_BUCKET_COUNT && 0 <= home.pos < BUCKET_SIZE && nIdEvict != -1
      requires nIdEvict in mapInfo && mapInfo[nIdEvict].refCount == 0
      modifies this`mapInfo, this`nNew, this`news, vvNew
      ensures Valid()
      ensures var t := Occupy(old(Now()), home, nIdEvict); Now() == t.(nNew := t.nNew + 1)
    {
      mapInfo := mapInfo[nIdEvict := mapInfo[nIdEvict].(refCount := 1)];
      SetNew(home, nIdEvict);
      nNew := nNew + 1;
    }

    /** The evicted entry holds no slot of the new table, also after its home slot has been cleared. */
    ghost predicate Unreferenced(left: State, slot: Slot)
      requires Evictable(cfg, left, slot)
    {
      slot in left.tried ==>
        && left.tried[slot] != -1
        && var home := HomeSlot(cfg, left.infos[left.tried[slot]]);
           ClearNew(cfg, Untry(left, slot), home).infos[left.tried[slot]].refCount == 0
    }

    /** Good_: the search for a bucket starts at a random one and always succeeds for an untried entry. */
    method Good_(a: Service, time: int, nRnd: nat)
      requires Valid() && Inv(cfg, Now())
      modifies this, vvNew, vvTried
      ensures Valid() && Now() == Good(cfg, old(Now()), a, time)
    {
      MarkedInv(cfg, Now(), a, time);
      var found := MarkGood(a, time);
      if found.None? { return; }
      AdvanceEntry(found.value, nRnd);
    }

    /** The first part of Good_. */
    method MarkGood(a: Service, time: int) returns (found: Option<int>)
      requires Valid()
      modifies this`nLastGood, this`mapInfo
      ensures Valid() && (Now(), found) == Marked(cfg, old(Now()), a, time)
    {
      nLastGood := time;
      found := FindEntry(a);
      if found.None? { return; }
      var nId := found.value;
      if mapInfo[nId].addr != a { return None; }
      mapInfo := mapInfo[nId := mapInfo[nId].(stats := mapInfo[nId].stats.Succeeded(time))];
    }

    method Attempt_(a: Service, fCountFailure: bool, time: int)
      requires Valid()
      modifies this`mapInfo
      ensures Valid() && Now() == Attempt(cfg, old(Now()), a, fCountFailure, time)
    {
      var found := FindEntry(a);
      if found.None? || mapInfo[found.value].addr != a { return; }
      var info := mapInfo[found.value];
      info := info.(stats := info.stats.(lastTry := time));
      if fCountFailure && info.stats.lastCountAttempt < nLastGood {
        info := info.(stats := info.stats.(lastCountAttempt := time, attempts := info.stats.attempts + 1));
      }
      mapInfo := mapInfo[found.value := info];
    }

    method Connected_(a: Service, time: int)
      requires Valid()
      modifies this`mapInfo
      ensures Valid() && Now() == Connected(cfg, old(Now()), a, time)
    {
      var found := FindEntry(a);
      if found.None? || mapInfo[found.value].addr != a { return; }
      var info := mapInfo[found.value];
      if time - info.stats.time > 20 * 60 { info := info.(stats := info.stats.(time := time)); }
      mapInfo := mapInfo[found.value := info];
    }

    method SetServices_(a: Service, services: set<nat>)
      requires Valid()
      modifies this`mapInfo
      ensures Valid() && Now() == SetServices(cfg, old(Now()), a, services)
    {
      var found := FindEntry(a);
      if found.None? || mapInfo[found.value].addr != a { return; }
      var info := mapInfo[found.value];
      mapInfo := mapInfo[found.value := info.(stats := info.stats.(services := services))];
    }

    method AdvanceEntry(nId: int, nRnd: nat)
      requires Valid() && Inv(cfg, Now()) && nId in mapInfo
      modifies this`mapInfo, this`vRandom, this`mapAddr, this`nNew, this`nTried, this`news, this`tried, vvNew, vvTried
      ensures Valid() && Now() == Advance(cfg, old(Now()), nId)
    {
      if mapInfo[nId].inTried { return; }
      TryFound(nId, nRnd);
    }

    /** The rest of Good_: the entry is found in a bucket, and made tried. */
    method TryFound(nId: int, nRnd: nat)
      requires Valid() && Inv(cfg, Now()) && nId in mapInfo && !mapInfo[nId].inTried
      modifies this`mapInfo, this`vRandom, this`mapAddr, this`nNew, this`nTried, this`news, this`tried, vvNew, vvTried
      ensures Valid() && Now() == Promote(cfg, old(Now()), nId)
    {
      ReadyToTry(cfg, Now(), nId);
      var nUBucket := FindBucket(nId, nRnd);
      if nUBucket == -1 { return; }
      ghost var left := LeaveNew(cfg, Now(), nId);
      MakeEntryTried(nId, left, Evict(cfg, left, cfg.TriedSlot(mapInfo[nId].addr)));
    }

    /** A bucket that holds the entry, or -1 if there is none. */
    method FindBucket(nId: int, nRnd: nat) returns (nUBucket: int)
      requires Valid() && nId in mapInfo && nId != -1
      ensures nUBucket == -1 <==> OwnSlots(cfg, mapInfo[nId].addr, news, nId) == {}
    {
      var addr := mapInfo[nId].addr;
      for n := 0 to NEW_BUCKET_COUNT
        invariant forall m :: 0 <= m < n ==> !HeldAt(cfg, addr, news, nId, Rotate(m, nRnd))
      {
        var nB := Rotate(n, nRnd);
        var nBpos: int := cfg.position(addr, true, nB);
        assert cfg.NewSlot(addr, nB) == Slot(nB, nBpos);
        if vvNew[nB, nBpos] == nId {
          assert Slot(nB, nBpos) in OwnSlots(cfg, addr, news, nId);
          return nB;
        }
      }
      forall slot ensures slot !in OwnSlots(cfg, addr, news, nId) {
        if slot in OwnSlots(cfg, addr, news, nId) {
          RotateCovers(slot.bucket, nRnd);
          assert HeldAt(cfg, addr, news, nId, slot.bucket);
        }
      }
      return -1;
    }

    /** The first part of Add_: finds or creates the entry. */
    method Prepare(n: Announcement) returns (nId: int, go: bool, fNew: bool)
      requires Valid()
      modifies this
      ensures Valid() && (Now(), nId, go) == Prepared(cfg, old(Now()), n)
        && (fNew <==> Find(cfg, old(Now()), n.addr).None?)
    {
      var found := FindEntry(n.addr);
      if found.Some? {
        nId := found.value;
        mapInfo := mapInfo[nId := mapInfo[nId].(stats := n.Refreshed(mapInfo[nId].stats))];
        return nId, WorthAnother(n, mapInfo[nId]), false;
      }
      nId := CreateEntry(n.addr, n.source, n.services, NonNegative(n.time - n.Penalty()));
      return nId, true, true;
    }

    /** Add_: finds or creates the entry and places it. */
    method Add_(n: Announcement) returns (fNew: bool)
      requires Valid() && Inv(cfg, Now())
      modifies this, vvNew
      ensures Valid() && (Now(), fNew) == Add(cfg, old(Now()), n)
    {
      if !n.routable { return false; }
      AddReady(cfg, Now(), n);
      var nId, go;
      nId, go, fNew := Prepare(n);
      if !go { return false; }
      PlaceEntry(nId, SlotFor(cfg, mapInfo[nId], n.source), n.now);
    }

    /** Overwrites a slot of the new table. */
    method TakeSlot(slot: Slot, nId: int)
      requires Valid() && 0 <= slot.bucket < NEW_BUCKET_COUNT && 0 <= slot.pos < BUCKET_SIZE
      requires Clearable(Now(), slot) && nId != -1 && nId in ClearNew(cfg, Now(), slot).infos
      modifies this`mapInfo, this`vRandom, this`mapAddr, this`nNew, this`news, vvNew
      ensures Valid() && Now() == Occupy(ClearNew(cfg, old(Now()), slot), slot, nId)
    {
      ClearNewSlot(slot);
      mapInfo := mapInfo[nId := mapInfo[nId].(refCount := mapInfo[nId].refCount + 1)];
      SetNew(slot, nId);
    }

    /** The placing part of Add_, with its look-ups and asserts as preconditions. */
    method PlaceEntry(nId: int, slot: Slot, now: int)
      requires Valid() && 0 <= slot.bucket < NEW_BUCKET_COUNT && 0 <= slot.pos < BUCKET_SIZE
      requires nId != -1 && Placeable(cfg, Now(), slot, nId, now)
      modifies this, vvNew
      ensures Valid() && Now() == Place(cfg, old(Now()), slot, nId, now)
    {
      assert Slot(slot.bucket, slot.pos) == slot;
      var existing := vvNew[slot.bucket, slot.pos];
      if existing == nId { return; }
      var fInsert := existing == -1;
      if !fInsert {
        if mapInfo[existing].stats.IsTerrible(now) || (mapInfo[existing].refCount > 1 && mapInfo[nId].refCount == 0) {
          fInsert := true;
        }
      }
      if fInsert {
        TakeSlot(slot, nId);
      } else if mapInfo[nId].refCount == 0 {
        DeleteEntry(nId);
      }
    }

    /**
     * GetAddr_: shuffles the front of the random order and hands out the addresses of distinct entries that are not
     * terrible: as many as there are, up to the limit.
     */
    method GetAddr_(now: int) returns (vAddr: seq<Service>)
      requires Valid() && Inv(cfg, Now())
      modifies this`mapInfo, this`vRandom
      ensures Valid() && Inv(cfg, Now()) && Now() == old(Now()).(infos := mapInfo, random := vRandom)
      ensures SameButOrder(mapInfo, old(mapInfo))
      ensures |vAddr| == Min(Min(23 * |old(vRandom)| / 100, 2500), |Fine(old(mapInfo), now)|)
      ensures HandsOut(old(mapInfo), vAddr, now)
    {
      var nNodes := 23 * |vRandom| / 100;
      if nNodes > 2500 { nNodes := 2500; }
      vAddr := PickConsistently(nNodes, now);
    }

    method PickConsistently(nNodes: nat, now: int) returns (vAddr: seq<Service>)
      requires Valid() && Inv(cfg, Now())
      modifies this`mapInfo, this`vRandom
      ensures Valid() && Inv(cfg, Now()) && SameButOrder(mapInfo, old(mapInfo))
      ensures |vAddr| == Min(nNodes, |Fine(old(mapInfo), now)|) && HandsOut(old(mapInfo), vAddr, now)
    {
      vAddr := PickAddrs(nNodes, now);
      Reordered(cfg, old(Now()), mapInfo, vRandom);
    }

    method PickAddrs(nNodes: nat, now: int) returns (vAddr: seq<Service>)
      requires RandomOk(mapInfo, vRandom)
      modifies this`mapInfo, this`vRandom
      ensures RandomOk(mapInfo, vRandom) && |vRandom| == |old(vRandom)| && SameButOrder(mapInfo, old(mapInfo))
      ensures |vAddr| == Min(nNodes, |Fine(old(mapInfo), now)|)
      ensures HandsOut(old(mapInfo), vAddr, now)
    {
      vAddr := [];
      ghost var ids: seq<int> := [];
      var n := 0;
      while n < |vRandom| && |vAddr| < nNodes
        invariant RandomOk(mapInfo, vRandom) && |vRandom| == |old(vRandom)| && SameButOrder(mapInfo, old(mapInfo))
        invariant n <= |vRandom| && |vAddr| <= nNodes
        invariant Picked(old(mapInfo), vRandom[..n], ids, vAddr, now)
      {
        var nRndPos :| n <= nRndPos < |vRandom|;
        ghost var front := vRandom[..n];
        ShuffleAt(n, nRndPos);
        var id := vRandom[n];
        PickedMore(old(mapInfo), front, ids, vAddr, now, id);
        if !mapInfo[id].stats.IsTerrible(now) {
          vAddr := vAddr + [mapInfo[id].addr];
          ids := ids + [id];
        }
        n := n + 1;
      }
      PickedCount(old(mapInfo), vRandom[..n], ids, vAddr, now);
      if n == |vRandom| {
        assert vRandom[..n] == vRandom;
        PickedAll(old(mapInfo), mapInfo, vRandom, ids, vAddr, now);
      }
    }

    /** One exchange: the front stays, and the entry that comes next is a new one. */
    method ShuffleAt(n: nat, nRndPos: nat)
      requires RandomOk(mapInfo, vRandom) && n <= nRndPos < |vRandom|
      modifies this`mapInfo, this`vRandom
      ensures RandomOk(mapInfo, vRandom) && |vRandom| == |old(vRandom)| && SameButOrder(mapInfo, old(mapInfo))
      ensures vRandom[..n] == old(vRandom)[..n] && vRandom[..n + 1] == vRandom[..n] + [vRandom[n]]
      ensures vRandom[n] in mapInfo && vRandom[n] !in vRandom[..n]
    {
      if n != nRndPos { SwapOk(Now(), n, nRndPos); }
      Swap(n, nRndPos);
    }

    // -------------------------------------------------------------- the consistency check

    /**
     * The part of the check about one entry. If it gets as far as looking it up, that adds the entry's address to the
     * index if it is missing.
     */
    method CheckEntry(n: int) returns (code: int)
      requires n in mapInfo
      modifies this`mapAddr
      ensures mapAddr == if LooksUp(mapInfo[n]) then Touched(old(mapAddr), mapInfo[n].addr) else old(mapAddr)
      ensures Padded(mapInfo, old(mapAddr), mapAddr)
      ensures code == 0 <==>
        EntryCode(mapInfo[n], n, vRandom) == 0 && CheckedId(old(mapAddr), mapInfo[n].addr) == n
      ensures code == -5 ==> LooksUp(mapInfo[n]) && CheckedId(old(mapAddr), mapInfo[n].addr) != n
      ensures code == 0 ==> LooksUp(mapInfo[n])
      ensures code != -5 ==> code == EntryCode(mapInfo[n], n, vRandom)
    {
      var info := mapInfo[n];
      if info.inTried {
        if info.stats.lastSuccess == 0 { return -1; }
        if info.refCount != 0 { return -2; }
      } else {
        if info.refCount < 0 || info.refCount > NEW_BUCKETS_PER_ADDRESS { return -3; }
        if info.refCount == 0 { return -4; }
      }
      if info.addr !in mapAddr { mapAddr := mapAddr[info.addr := 0]; }
      if mapAddr[info.addr] != n { return -5; }
      if info.randomPos < 0 || info.randomPos >= |vRandom| || vRandom[info.randomPos] != n { return -14; }
      if info.stats.lastTry < 0 { return -6; }
      if info.stats.lastSuccess < 0 { return -8; }
      return 0;
    }

    /** The loop over the entries, in any order; on success it has sorted them. */
    method CheckEntries() returns (code: int, setTried: set<int>, mapNew: map<int, int>)
      modifies this`mapAddr
      ensures Padded(mapInfo, old(mapAddr), mapAddr)
      ensures code == 0 <==> EntriesPass(Now()) && IndexPasses(old(Now()))
      ensures code == -5 ==> !IndexPasses(old(Now()))
      ensures code != 0 && code != -5 ==> !EntriesPass(Now())
      ensures code == 0 ==> Sorted(mapInfo, mapInfo.Keys, setTried, mapNew)
      ensures IndexEffect(mapInfo, old(mapAddr), mapAddr, code)
    {
      setTried, mapNew := {}, map[];
      var rest := mapInfo.Keys;
      while rest != {}
        invariant rest <= mapInfo.Keys && Grown(mapInfo, old(mapAddr), mapAddr, mapInfo.Keys - rest)
        invariant FrontPasses(old(Now()), rest)
        invariant Sorted(mapInfo, mapInfo.Keys - rest, setTried, mapNew)
        decreases |rest|
      {
        ghost var some := Member(rest);
        var n :| n in rest;
        code := CheckNextEntry(n, old(mapAddr), mapInfo.Keys - rest);
        if code != 0 { return; }
        SortedMore(mapInfo, mapInfo.Keys - rest, setTried, mapNew, n);
        if mapInfo[n].inTried { setTried := setTried + {n}; } else { mapNew := mapNew[n := mapInfo[n].refCount]; }
        assert mapInfo.Keys - (rest - {n}) == (mapInfo.Keys - rest) + {n};
        rest := rest - {n};
      }
      assert mapInfo.Keys - rest == mapInfo.Keys;
      code := 0;
    }

    /** The check of an entry, after others have been looked up. */
    method CheckNextEntry(n: int, ghost before: map<Service, int>, ghost done: set<int>) returns (code: int)
      requires n in mapInfo && Grown(mapInfo, before, mapAddr, done)
      modifies this`mapAddr
      ensures Grown(mapInfo, before, mapAddr, done) && (code == 0 ==> Grown(mapInfo, before, mapAddr, done + {n}))
      ensures code == 0 <==> EntryCode(mapInfo[n], n, vRandom) == 0 && CheckedId(before, mapInfo[n].addr) == n
      ensures code == -5 ==> MissedAt(mapInfo, before, mapAddr, n)
      ensures code != -5 ==> code == EntryCode(mapInfo[n], n, vRandom)
    {
      GrowsBy(mapInfo, before, mapAddr, done, n);
      code := CheckEntry(n);
    }

    /** The loop over the tried table. */
    method CheckTried(setTried: set<int>) returns (code: int, unseen: set<int>)
      requires Valid() && setTried == TriedIds(mapInfo)
      ensures code == 0 <==> forall slot :: TriedFits(cfg, mapInfo, tried, slot)
      ensures code in {0, -11, -17, -18}
      ensures code == 0 ==> (unseen == {} <==> forall id :: id in TriedIds(mapInfo) ==> id in tried.Values)
    {
      unseen := setTried;
      for n := 0 to TRIED_BUCKET_COUNT
        invariant TriedScanned(cfg, mapInfo, tried, n, 0, unseen)
      {
        for i := 0 to BUCKET_SIZE
          invariant TriedScanned(cfg, mapInfo, tried, n, i, unseen)
        {
          TriedScanNext(cfg, mapInfo, tried, n, i, unseen);
          var id := vvTried[n, i];
          assert Slot(n, i) in tried <==> id != -1;
          if id != -1 {
            assert tried[Slot(n, i)] == id;
            if id !in unseen { code := -11; return; }
            if cfg.triedBucket(mapInfo[id].addr) != n { code := -17; return; }
            if cfg.position(mapInfo[id].addr, false, n) != i { code := -18; return; }
            assert id in TriedIds(mapInfo);
            unseen := unseen - {id};
          }
        }
        TriedRowDone(cfg, mapInfo, tried, n, unseen);
      }
      TriedScanEnds(cfg, mapInfo, tried, unseen);
      code := 0;
    }

    /** The loop over the new table. */
    method CheckNew(mapNew: map<int, int>) returns (code: int, due: map<int, int>)
      requires Valid() && mapNew.Keys == NewIds(mapInfo)
      requires forall id :: id in mapNew ==> mapNew[id] == mapInfo[id].refCount >= 1
      ensures code in {0, -12, -19}
      ensures code == 0 ==> forall slot :: NewFits(cfg, mapInfo, news, slot)
      ensures code == 0 ==>
        (due == map[] <==> forall id :: id in NewIds(mapInfo) ==> mapInfo[id].refCount == |Slots(news, id)|)
      ensures code != 0 ==>
        || (exists slot :: !NewFits(cfg, mapInfo, news, slot))
        || (exists id :: id in NewIds(mapInfo) && mapInfo[id].refCount != |Slots(news, id)|)
    {
      due := mapNew;
      NewScanStarts(cfg, mapInfo, news, due);
      for n := 0 to NEW_BUCKET_COUNT
        invariant NewScanned(cfg, mapInfo, news, n, 0, due)
      {
        for i := 0 to BUCKET_SIZE
          invariant NewScanned(cfg, mapInfo, news, n, i, due)
        {
          code, due := CheckNewSlot(n, i, due);
          if code != 0 { return; }
        }
        NewRowDone(cfg, mapInfo, news, n, due);
      }
      NewScanEnds(cfg, mapInfo, news, due);
      code := 0;
    }

    method CheckNewSlot(n: NewBucket, i: Position, mapNew: map<int, int>) returns (code: int, due: map<int, int>)
      requires Valid() && NewScanned(cfg, mapInfo, news, n, i, mapNew)
      ensures code in {0, -12, -19}
      ensures code == 0 ==> NewScanned(cfg, mapInfo, news, n, i + 1, due)
      ensures code != 0 ==>
        || !NewFits(cfg, mapInfo, news, Slot(n, i))
        || (exists id :: id in NewIds(mapInfo) && mapInfo[id].refCount != |Slots(news, id)|)
    {
      code, due := 0, mapNew;
      var id := vvNew[n, i];
      assert Slot(n, i) in news <==> id != -1;
      if id == -1 {
        NewScanSkip(cfg, mapInfo, news, n, i, due);
        return;
      }
      assert news[Slot(n, i)] == id;
      if id !in due {
        if id in NewIds(mapInfo) { NewScanOver(cfg, mapInfo, news, n, i, due); }
        return -12, due;
      }
      assert id in NewIds(mapInfo);
      if cfg.position(mapInfo[id].addr, true, n) != i { return -19, due; }
      NewScanNext(cfg, mapInfo, news, n, i, due);
      if due[id] == 1 { due := due - {id}; } else { due := due[id := due[id] - 1]; }
    }

    /**
     * Check_: returns zero exactly for a state that passes, with the index as it stands. A consistent manager with
     * plausible times and a key only ever fails with -5, and exactly because the index is not looked up by normalised
     * keys.
     */
    method Check_(keyIsNull: bool) returns (code: int)
      requires Valid()
      modifies this`mapAddr
      ensures Valid() && Now() == old(Now()).(addrs := mapAddr) && Padded(mapInfo, old(mapAddr), mapAddr)
      ensures code == 0 <==> Passes(cfg, old(Now())) && IndexPasses(old(Now())) && !keyIsNull
      ensures code == -5 ==> !IndexPasses(old(Now()))
      ensures code != 0 && code != -5 ==> !Passes(cfg, old(Now())) || keyIsNull
      ensures Inv(cfg, old(Now())) && TimesOk(mapInfo) && !keyIsNull ==>
        code == if cfg.discriminatePorts || forall id :: id in mapInfo ==> mapInfo[id].addr.port == 0 || id == 0
                then 0 else -5
      ensures Inv(cfg, old(Now())) && TimesOk(mapInfo) && !keyIsNull ==>
        (mapAddr == old(mapAddr) <==>
           cfg.discriminatePorts || forall id :: id in mapInfo ==> mapInfo[id].addr.port == 0)
    {
      ghost var s := Now();
      code := CheckAll(keyIsNull);
      Verdict(cfg, s, mapAddr, keyIsNull, code);
    }

    method CheckAll(keyIsNull: bool) returns (code: int)
      requires Valid()
      modifies this`mapAddr
      ensures Valid() && Padded(mapInfo, old(mapAddr), mapAddr)
      ensures IndexEffect(mapInfo, old(mapAddr), mapAddr, code)
      ensures code == 0 <==> Passes(cfg, old(Now())) && IndexPasses(old(Now())) && !keyIsNull
      ensures code == -5 ==> !IndexPasses(old(Now()))
      ensures code != 0 && code != -5 ==> !Passes(cfg, old(Now())) || keyIsNull
    {
      PaddedSelf(mapInfo, mapAddr);
      if |vRandom| != nTried + nNew { return -7; }
      var setTried, mapNew;
      code, setTried, mapNew := CheckEntries();
      AddrsIrrelevant(cfg, old(Now()), mapAddr);
      if code != 0 { return; }
      code := CheckCounts(setTried, mapNew, keyIsNull);
    }

    /** What follows once all entries have passed. */
    method CheckCounts(setTried: set<int>, mapNew: map<int, int>, keyIsNull: bool) returns (code: int)
      requires Valid() && EntriesPass(Now()) && Sorted(mapInfo, mapInfo.Keys, setTried, mapNew)
      requires |vRandom| == nTried + nNew
      ensures code != -5 && (code == 0 <==> SizesPass(Now()) && TablesPass(cfg, Now()) && !keyIsNull)
    {
      SortedAll(mapInfo, setTried, mapNew, vRandom);
      if |setTried| != nTried { return -9; }
      if |mapNew| != nNew { return -10; }
      code := CheckTables(setTried, mapNew);
      if code != 0 { return; }
      if keyIsNull { return -16; }
      return 0;
    }

    /** The loops over both tables, and what they must not leave over. */
    method CheckTables(setTried: set<int>, mapNew: map<int, int>) returns (code: int)
      requires Valid() && setTried == TriedIds(mapInfo) && mapNew.Keys == NewIds(mapInfo)
      requires forall id :: id in mapNew ==> mapNew[id] == mapInfo[id].refCount >= 1
      ensures code != -5 && (code == 0 <==> TablesPass(cfg, Now()))
    {
      var unseen, due;
      code, unseen := CheckTried(setTried);
      if code != 0 { return; }
      code, due := CheckNew(mapNew);
      if code != 0 { return; }
      if |unseen| != 0 { return -13; }
      if |due| != 0 { return -15; }
      return 0;
    }
  }

  lemma Reordered(cfg: Config, s: State, infos: Infos, random: seq<int>)
    requires Inv(cfg, s) && SameButOrder(infos, s.infos) && RandomOk(infos, random) && |random| == |s.random|
    ensures Inv(cfg, s.(infos := infos, random := random))
  {
    ReorderInv(cfg, s, s.(infos := infos, random := random), {});
  }

  /** The entries that are not terrible. */
  ghost function Fine(infos: Infos, now: int): set<int> { set id | id in infos && !infos[id].stats.IsTerrible(now) }

  /** Handed out so far: exactly the entries of the front that are not terrible. */
  ghost predicate Picked(infos: Infos, front: seq<int>, ids: seq<int>, addrs: seq<Service>, now: int) {
    && Handed(infos, ids, addrs, now)
    && (forall id :: id in ids ==> id in front)
    && (forall id :: id in front && id in infos && !infos[id].stats.IsTerrible(now) ==> id in ids)
  }

  lemma PickedMore(infos: Infos, front: seq<int>, ids: seq<int>, addrs: seq<Service>, now: int, id: int)
    requires Picked(infos, front, ids, addrs, now) && id in infos && id !in front
    ensures if infos[id].stats.IsTerrible(now) then Picked(infos, front + [id], ids, addrs, now)
            else Picked(infos, front + [id], ids + [id], addrs + [infos[id].addr], now)
  {
  }

  lemma {:induction false} DistinctSize(ids: seq<int>)
    requires forall j, k :: 0 <= j < k < |ids| ==> ids[j] != ids[k]
    ensures |set id | id in ids| == |ids|
  {
    var all := set id | id in ids;
    if ids == [] {
      if all != {} { var x := Member(all); }
    } else {
      var n := |ids| - 1;
      var rest := set id | id in ids[..n];
      DistinctSize(ids[..n]);
      forall id ensures id in all <==> id in rest + {ids[n]} {
        assert ids == ids[..n] + [ids[n]];
      }
      assert all == rest + {ids[n]} && ids[n] !in rest;
    }
  }

  lemma PickedCount(infos: Infos, front: seq<int>, ids: seq<int>, addrs: seq<Service>, now: int)
    requires Picked(infos, front, ids, addrs, now)
    ensures |addrs| <= |Fine(infos, now)|
  {
    DistinctSize(ids);
    var all := set id | id in ids;
    SubsetSize(all, Fine(infos, now));
  }

  lemma PickedAll(infos: Infos, infos': Infos, random: seq<int>, ids: seq<int>, addrs: seq<Service>, now: int)
    requires Picked(infos, random, ids, addrs, now) && infos'.Keys == infos.Keys && RandomOk(infos', random)
    ensures |addrs| == |Fine(infos, now)|
  {
    DistinctSize(ids);
    var all := set id | id in ids;
    forall id ensures id in all <==> id in Fine(infos, now) {
      if id in infos { assert random[infos'[id].randomPos] == id; }
    }
    assert all == Fine(infos, now);
  }

  // ---------------------------------------------------------------- about the check

  /** The entries looked at so far, sorted into tried and new ones. */
  ghost predicate Sorted(infos: Infos, done: set<int>, tried: set<int>, news: map<int, int>) {
    && (forall id :: id in tried <==> id in done && id in infos && infos[id].inTried)
    && (forall id :: id in news <==> id in done && id in infos && !infos[id].inTried)
    && (forall id :: id in news ==> id in infos && news[id] == infos[id].refCount)
  }

  lemma SortedMore(infos: Infos, done: set<int>, tried: set<int>, news: map<int, int>, n: int)
    requires Sorted(infos, done, tried, news) && n in infos
    ensures if infos[n].inTried then Sorted(infos, done + {n}, tried + {n}, news)
            else Sorted(infos, done + {n}, tried, news[n := infos[n].refCount])
  {
  }

  lemma SortedAll(infos: Infos, tried: set<int>, news: map<int, int>, random: seq<int>)
    requires Sorted(infos, infos.Keys, tried, news)
    requires forall id :: id in infos ==> EntryCode(infos[id], id, random) == 0
    ensures tried == TriedIds(infos) && news.Keys == NewIds(infos) && |news| == |NewIds(infos)|
    ensures forall id :: id in news ==> news[id] == infos[id].refCount >= 1
  {
    forall id ensures id in tried <==> id in TriedIds(infos) { }
    forall id ensures id in news.Keys <==> id in NewIds(infos) { }
    assert |news| == |news.Keys|;
  }

  lemma PaddedSelf(infos: Infos, addrs: map<Service, int>)
    ensures Padded(infos, addrs, addrs)
  {
  }

  /** The index after the given entries have been looked up. */
  ghost predicate Grown(infos: Infos, before: map<Service, int>, after: map<Service, int>, done: set<int>) {
    && Padded(infos, before, after) && AllKnown(infos, done, after)
    && (AllKnown(infos, infos.Keys, before) ==> after == before)
  }

  /** One more look-up. */
  lemma GrowsBy(infos: Infos, before: map<Service, int>, mid: map<Service, int>, done: set<int>, n: int)
    requires Grown(infos, before, mid, done) && n in infos
    ensures Grown(infos, before, Touched(mid, infos[n].addr), done + {n})
  {
    var after := Touched(mid, infos[n].addr);
    forall a | a in after ensures a in before || exists id :: id in infos && infos[id].addr == a { }
  }

  /** The end of one bucket is the start of the next. */
  lemma TriedRowDone(cfg: Config, infos: Infos, tried: Table, n: int, unseen: set<int>)
    requires forall slot :: slot in tried ==> 0 <= slot.pos < BUCKET_SIZE
    requires TriedScanned(cfg, infos, tried, n, BUCKET_SIZE, unseen)
    ensures TriedScanned(cfg, infos, tried, n + 1, 0, unseen)
  {
    forall slot | slot in tried ensures Before(slot, n + 1, 0) <==> Before(slot, n, BUCKET_SIZE) { }
  }

  lemma NewRowDone(cfg: Config, infos: Infos, news: Table, n: int, due: map<int, int>)
    requires forall slot :: slot in news ==> 0 <= slot.pos < BUCKET_SIZE
    requires NewScanned(cfg, infos, news, n, BUCKET_SIZE, due)
    ensures NewScanned(cfg, infos, news, n + 1, 0, due)
  {
    forall slot | slot in news ensures Before(slot, n + 1, 0) <==> Before(slot, n, BUCKET_SIZE) { }
    forall id | id in NewIds(infos) ensures Due(infos, news, n + 1, 0, due, id) {
      assert SlotsBefore(news, id, n + 1, 0) == SlotsBefore(news, id, n, BUCKET_SIZE);
      assert Due(infos, news, n, BUCKET_SIZE, due, id);
    }
  }

  lemma NewScanStarts(cfg: Config, infos: Infos, news: Table, due: map<int, int>)
    requires due.Keys == NewIds(infos) && forall id :: id in due ==> due[id] == infos[id].refCount >= 1
    requires forall slot :: slot in news ==> slot.bucket >= 0 && slot.pos >= 0
    ensures NewScanned(cfg, infos, news, 0, 0, due)
  {
    forall id | id in NewIds(infos) ensures Due(infos, news, 0, 0, due, id) {
      assert id in due.Keys;
      if SlotsBefore(news, id, 0, 0) != {} { var x := Member(SlotsBefore(news, id, 0, 0)); }
    }
  }

  function Rotate(n: int, nRnd: nat): NewBucket { (n + nRnd) % NEW_BUCKET_COUNT }

  lemma RotateCovers(b: NewBucket, nRnd: nat)
    ensures exists m :: 0 <= m < NEW_BUCKET_COUNT && Rotate(m, nRnd) == b
  {
    var m := (b - nRnd) % NEW_BUCKET_COUNT;
    assert Rotate(m, nRnd) == b;
  }

  ghost predicate HeldAt(cfg: Config, addr: Service, news: Table, id: int, b: NewBucket) {
    cfg.NewSlot(addr, b) in news && news[cfg.NewSlot(addr, b)] == id
  }

  /** The own slots of an entry in the first buckets. */
  ghost function OwnBelow(cfg: Config, a: Service, news: Table, id: int, k: int): set<Slot> {
    set s | s in OwnSlots(cfg, a, news, id) && s.bucket < k
  }

  lemma OwnBelowStep(cfg: Config, a: Service, news: Table, id: int, b: NewBucket)
    ensures var slot := cfg.NewSlot(a, b);
      && slot !in OwnBelow(cfg, a, news, id, b)
      && OwnBelow(cfg, a, news, id, b + 1)
         == OwnBelow(cfg, a, news, id, b) + if slot in news && news[slot] == id then {slot} else {}
  {
  }

  /** The entry has left its buckets below k. */
  ghost function LeaveBelow(cfg: Config, s: State, id: int, k: int): State
    requires id in s.infos
  {
    Leave(s, id, OwnBelow(cfg, s.infos[id].addr, s.news, id, k))
  }

  ghost function Leave(s: State, id: int, held: set<Slot>): State
    requires id in s.infos
  {
    s.(infos := s.infos[id := s.infos[id].(refCount := s.infos[id].refCount - |held|)], news := s.news - held)
  }

  ghost function LeaveOne(cfg: Config, s: State, id: int, b: NewBucket): State
    requires id in s.infos
  {
    var slot := cfg.NewSlot(s.infos[id].addr, b);
    if slot in s.news && s.news[slot] == id then Release(s, slot) else s
  }

  lemma LeaveBelowEnds(cfg: Config, s: State, id: int)
    requires id in s.infos
    ensures LeaveBelow(cfg, s, id, 0) == s && LeaveBelow(cfg, s, id, NEW_BUCKET_COUNT) == LeaveNew(cfg, s, id)
  {
    var a := s.infos[id].addr;
    assert OwnBelow(cfg, a, s.news, id, 0) == {};
    assert LeaveBelow(cfg, s, id, 0).infos == s.infos;
    forall slot ensures slot in OwnBelow(cfg, a, s.news, id, NEW_BUCKET_COUNT) <==>
      slot in OwnSlots(cfg, a, s.news, id) {}
    assert OwnBelow(cfg, a, s.news, id, NEW_BUCKET_COUNT) == OwnSlots(cfg, a, s.news, id);
  }

  lemma LeaveBelowStep(cfg: Config, s: State, id: int, b: NewBucket)
    requires id in s.infos
    ensures id in LeaveBelow(cfg, s, id, b).infos
    ensures LeaveOne(cfg, LeaveBelow(cfg, s, id, b), id, b) == LeaveBelow(cfg, s, id, b + 1)
  {
    var a, t := s.infos[id].addr, LeaveBelow(cfg, s, id, b);
    OwnBelowStep(cfg, a, s.news, id, b);
    var slot := cfg.NewSlot(a, b);
    if slot in s.news && s.news[slot] == id {
      var held := OwnBelow(cfg, a, s.news, id, b);
      LeaveTwice(s, id, held, slot);
    }
  }

  /** Leaving some slots and then one more. */
  lemma LeaveTwice(s: State, id: int, held: set<Slot>, slot: Slot)
    requires id in s.infos && slot !in held && slot in s.news && s.news[slot] == id
    ensures var t := Leave(s, id, held); slot in t.news && t.news[slot] == id && id in t.infos
    ensures Release(Leave(s, id, held), slot) == Leave(s, id, held + {slot})
  {
    RemoveTwice(s.news, held, slot);
    assert |held + {slot}| == |held| + 1;
    CountTwice(s.infos, id, s.infos[id].refCount - |held|);
  }

  lemma CountTwice(infos: Infos, id: int, n: int)
    requires id in infos
    ensures infos[id := infos[id].(refCount := n)][id := infos[id].(refCount := n - 1)]
      == infos[id := infos[id].(refCount := n - 1)]
  {
  }

  lemma RemoveTwice(t: Table, held: set<Slot>, slot: Slot)
    ensures (t - held) - {slot} == t - (held + {slot})
  {
  }

  /** In a consistent manager an untried entry meets everything MakeTried asserts. */
  lemma ReadyToTry(cfg: Config, s: State, id: int)
    requires Inv(cfg, s) && id in s.infos && !s.infos[id].inTried
    ensures id != -1 && MakeTriable(cfg, s, id)
    ensures var left, slot := LeaveNew(cfg, s, id), cfg.TriedSlot(s.infos[id].addr);
      slot in left.tried ==>
        && left.tried[slot] != -1
        && var home := HomeSlot(cfg, left.infos[left.tried[slot]]);
           ClearNew(cfg, Untry(left, slot), home).infos[left.tried[slot]].refCount == 0
  {
    MakeTriedInv(cfg, s, id);
    LeaveNewInv(cfg, s, id, {});
    assert {} + {id} == {id};
    var left, slot := LeaveNew(cfg, s, id), cfg.TriedSlot(s.infos[id].addr);
    if slot in left.tried { EvictClears(cfg, left, slot, id); }
  }

  /** In a consistent manager every announcement meets everything Add_ asserts. */
  lemma AddReady(cfg: Config, s: State, n: Announcement)
    requires Inv(cfg, s)
    ensures var (t, id, go) := Prepared(cfg, s, n);
      id != -1 && id in t.infos && (go ==> Placeable(cfg, t, SlotFor(cfg, t.infos[id], n.source), id, n.now))
  {
    var (t, id, go) := Prepared(cfg, s, n);
    FindExact(cfg, s, n.addr);
    if Find(cfg, s, n.addr).None? {
      CreateInv(cfg, s, n.addr, n.source, n.services, NonNegative(n.time - n.Penalty()));
      PlaceInv(cfg, t, n.source, id, n.now);
    } else if go {
      SetStatsInv(cfg, s, id, n.Refreshed(s.infos[id].stats));
      LoosenInv(cfg, t, id);
      PlaceInv(cfg, t, n.source, id, n.now);
    }
  }

  /** The addresses belong to pairwise different entries, none of them terrible. */
  ghost predicate Handed(infos: Infos, ids: seq<int>, addrs: seq<Service>, now: int) {
    && |ids| == |addrs|
    && (forall k :: 0 <= k < |ids| ==>
      ids[k] in infos && infos[ids[k]].addr == addrs[k] && !infos[ids[k]].stats.IsTerrible(now))
    && (forall j, k :: 0 <= j < k < |ids| ==> ids[j] != ids[k])
  }

  ghost predicate HandsOut(infos: Infos, addrs: seq<Service>, now: int) {
    exists ids: seq<int> :: Handed(infos, ids, addrs, now)
  }
}
