/**
 * The quorum condition of InstantSend is exact.
 *
 * When two sets of required voters can be disjoint, one camp locks a transaction, another camp makes a conflicting one
 * ready, and the node drops both. From there the lock is lost, and a third transaction can lock the same outpoint. Each
 * safety property of the protocol therefore holds in all runs if and only if voter sets overlap.
 */
module InstantSendThreshold {
  import opened Common
  import opened InstantSend

  // ---------------------------------------------------------------- runs put together

  /** A run from one state to another. */
  ghost predicate IsPath(p: Params, states: seq<State>, ms: seq<Msg>, s: State, t: State) {
    IsRun(p, states, ms) && states[0] == s && states[|ms|] == t
  }

  ghost predicate Reaches(p: Params, s: State, t: State) {
    exists states, ms :: IsPath(p, states, ms, s, t)
  }

  lemma ReachesSelf(p: Params, s: State)
    ensures Reaches(p, s, s)
  {
    assert IsPath(p, [s], [], s, s);
  }

  lemma ReachesNext(p: Params, s: State, m: Msg, t: State)
    requires Next(p, s, m, t)
    ensures Reaches(p, s, t)
  {
    assert IsPath(p, [s, t], [m], s, t);
  }

  lemma Joined(p: Params, a: seq<State>, ma: seq<Msg>, b: seq<State>, mb: seq<Msg>, s: State, t: State, u: State)
    requires IsPath(p, a, ma, s, t) && IsPath(p, b, mb, t, u)
    ensures IsPath(p, a + b[1..], ma + mb, s, u) && (a + b[1..])[|ma|] == t
  {
    var states, ms := a + b[1..], ma + mb;
    forall i | 0 <= i < |ms| ensures Next(p, states[i], ms[i], states[i + 1]) {
      if i < |ma| {
        assert Next(p, a[i], ma[i], a[i + 1]);
      } else {
        assert Next(p, b[i - |ma|], mb[i - |ma|], b[i - |ma| + 1]);
        assert states[i + 1] == b[i - |ma| + 1];
      }
    }
  }

  lemma ReachesJoin(p: Params, s: State, t: State, u: State)
    requires Reaches(p, s, t) && Reaches(p, t, u)
    ensures Reaches(p, s, u)
  {
    var a, ma :| IsPath(p, a, ma, s, t);
    var b, mb :| IsPath(p, b, mb, t, u);
    Joined(p, a, ma, b, mb, s, t, u);
  }

  /** One run through two states, in this order. */
  lemma RunThrough(p: Params, s: State, t: State) returns (states: seq<State>, ms: seq<Msg>, i: nat)
    requires Reaches(p, INITIAL, s) && Reaches(p, s, t)
    ensures IsRun(p, states, ms) && states[0] == INITIAL && i <= |ms| && states[i] == s && states[|ms|] == t
  {
    var a, ma :| IsPath(p, a, ma, INITIAL, s);
    var b, mb :| IsPath(p, b, mb, s, t);
    Joined(p, a, ma, b, mb, INITIAL, s, t);
    states, ms, i := a + b[1..], ma + mb, |ma|;
  }

  // ---------------------------------------------------------------- one camp locks a transaction

  function Calm(c: Cleanup): World { World(true, true, {}, false, true, c) }

  const THOROUGH := Cleanup(true, {})

  const LAZY := Cleanup(false, {})

  function Spender(h: TxHash, o: OutPoint): Tx { Tx(h, [o]) }

  function Announce(h: TxHash, o: OutPoint, c: Cleanup): Msg { Request(Spender(h, o), true, {}, [], Calm(c)) }

  function Cast(h: TxHash, o: OutPoint, m: Masternode, c: Cleanup): Msg { Ballot(Vote(h, o, m, 0), {}, Calm(c)) }

  /** The candidate spends o only, and has the given voters. */
  ghost predicate SideOk(c: Candidate, h: TxHash, o: OutPoint, voters: set<Masternode>) {
    && c.request == Some(Spender(h, o)) && !c.expired
    && c.locks.Keys == {o} && c.locks[o].votes.Keys == voters && !c.locks[o].attacked
  }

  lemma SizeOfVotes(c: Candidate, o: OutPoint, voters: set<Masternode>)
    requires c.locks.Keys == {o} && c.locks[o].votes.Keys == voters && !c.locks[o].attacked
    ensures forall r: nat :: c.AllReady(r) <==> |voters| >= r
  {
    assert |c.locks[o].votes.Keys| == |voters|;
    assert o in c.locks;
  }

  lemma ResolveSpender(s: State, h: TxHash, o: OutPoint, c: Cleanup)
    ensures Resolve(s, h, Spender(h, o).inputs, Calm(c)) ==
      if o in s.locked && s.locked[o] != h then ConflictingLock(s.locked[o]) else Locked
  {
    assert [o][1..] == [];
  }

  function Locks(p: Params, h: TxHash, o: OutPoint, voters: set<Masternode>): map<OutPoint, TxHash> {
    if |voters| >= p.required then map[o := h] else map[]
  }

  /** Only one candidate is known. */
  ghost predicate Sole(p: Params, s: State, h: TxHash, o: OutPoint, voters: set<Masternode>) {
    s.candidates.Keys == {h} && SideOk(s.candidates[h], h, o, voters) && s.locked == Locks(p, h, o, voters)
    && s.orphans == {}
  }

  ghost predicate Vacant(s: State) { s.candidates == map[] && s.locked == map[] && s.orphans == {} }

  /** A candidate without a rival is locked as soon as it has enough votes. */
  lemma SoleFinalize(p: Params, u: State, h: TxHash, o: OutPoint, voters: set<Masternode>, c: Cleanup)
    requires u.candidates.Keys == {h} && SideOk(u.candidates[h], h, o, voters) && u.locked == map[] && u.orphans == {}
    ensures HasRequest(u, h) && Sole(p, Finalize(p, u, h, Calm(c)).0, h, o, voters)
  {
    SizeOfVotes(u.candidates[h], o, voters);
    ResolveSpender(u, h, o, c);
    assert o in u.candidates[h].locks && !IsLocked(u, h);
    assert (map x | x in u.candidates[h].locks :: h) + u.locked == map[o := h];
  }

  function Announced(h: TxHash, o: OutPoint): Candidate {
    Candidate(Some(Spender(h, o)), map[], false).AddOutPointLocks(Spender(h, o).Spends())
  }

  lemma AnnounceSole(p: Params, s: State, h: TxHash, o: OutPoint) returns (t: State)
    requires Vacant(s)
    ensures Reaches(p, s, t) && Sole(p, t, h, o, {})
  {
    var m := Announce(h, o, THOROUGH);
    var u := CreateCandidate(s, Spender(h, o), {}).0;
    assert u.candidates == map[h := Announced(h, o)];
    SoleFinalize(p, u, h, o, {}, THOROUGH);
    t := Step(p, s, m).0;
    assert t == Finalize(p, u, h, Calm(THOROUGH)).0;
    ReachesNext(p, s, m, t);
  }

  lemma SoleVote(p: Params, s: State, h: TxHash, o: OutPoint, voters: set<Masternode>, m: Masternode) returns (t: State)
    requires Sole(p, s, h, o, voters) && |voters| < p.required && m !in voters && p.IsValid(Vote(h, o, m, 0))
    ensures Reaches(p, s, t) && Sole(p, t, h, o, voters + {m})
  {
    var v := Vote(h, o, m, 0);
    assert Rivals(s, v) == {};
    var u := RecordVote(s, v);
    assert SideOk(u.candidates[h], h, o, voters + {m});
    SoleFinalize(p, u, h, o, voters + {m}, THOROUGH);
    t := Step(p, s, Cast(h, o, m, THOROUGH)).0;
    assert t == Finalize(p, u, h, Calm(THOROUGH)).0;
    ReachesNext(p, s, Cast(h, o, m, THOROUGH), t);
  }

  /** The ballots of a camp lock the only candidate. */
  lemma {:induction false} LockUp(p: Params, s: State, h: TxHash, o: OutPoint, voters: set<Masternode>,
                                  todo: set<Masternode>) returns (t: State)
    requires Sole(p, s, h, o, voters) && (todo == {} || (o in p.quorum && todo <= p.quorum[o]))
    requires voters !! todo && |voters| + |todo| == p.required
    ensures Reaches(p, s, t) && Sole(p, t, h, o, voters + todo)
    decreases |todo|
  {
    if todo == {} {
      ReachesSelf(p, s);
      assert voters + todo == voters;
      t := s;
    } else {
      var m := Member(todo);
      var u := SoleVote(p, s, h, o, voters, m);
      t := LockUp(p, u, h, o, voters + {m}, todo - {m});
      assert voters + {m} + (todo - {m}) == voters + todo;
      ReachesJoin(p, s, u, t);
    }
  }

  lemma SoleIsLocked(p: Params, s: State, h: TxHash, o: OutPoint, voters: set<Masternode>)
    requires Sole(p, s, h, o, voters) && |voters| >= p.required
    ensures IsLocked(s, h) && o in s.candidates[h].locks && s.locked == map[o := h]
  {
    assert o in s.candidates[h].locks;
  }

  // ---------------------------------------------------------------- another camp makes a rival ready

  /** The first transaction is locked, and a second one that spends the same outpoint has some votes. */
  ghost predicate Split(s: State, o: OutPoint, va: set<Masternode>, vb: set<Masternode>) {
    && s.candidates.Keys == {1, 2} && SideOk(s.candidates[1], 1, o, va) && SideOk(s.candidates[2], 2, o, vb)
    && s.locked == map[o := 1] && s.orphans == {}
  }

  /** Finalizing the second transaction: nothing happens while votes are missing, and then both are dropped. */
  lemma SplitFinalize(p: Params, u: State, o: OutPoint, va: set<Masternode>, vb: set<Masternode>, c: Cleanup)
    requires Split(u, o, va, vb)
    ensures HasRequest(u, 2)
    ensures Finalize(p, u, 2, Calm(c)) ==
      if |vb| < p.required then (u, NotReady) else (DropBoth(u, 2, 1, c), ConflictingLock(1))
  {
    SizeOfVotes(u.candidates[2], o, vb);
    ResolveSpender(u, 2, o, c);
    assert o in u.candidates[2].locks && !IsLocked(u, 2);
  }

  /** The second transaction is announced. */
  lemma AnnounceRival(p: Params, s: State, o: OutPoint, va: set<Masternode>, c: Cleanup) returns (u: State)
    requires Sole(p, s, 1, o, va) && |va| >= p.required
    ensures Split(u, o, va, {}) && Step(p, s, Announce(2, o, c)) == Finalize(p, u, 2, Calm(c))
    ensures u == CreateCandidate(s, Spender(2, o), {}).0
  {
    u := CreateCandidate(s, Spender(2, o), {}).0;
    assert u.candidates == s.candidates[2 := Announced(2, o)];
    assert SideOk(u.candidates[2], 2, o, {});
  }

  /** One more vote for it, by somebody who has not voted yet. */
  lemma RivalVote(p: Params, s: State, o: OutPoint, va: set<Masternode>, vb: set<Masternode>, m: Masternode, c: Cleanup)
    requires Split(s, o, va, vb) && m !in va && m !in vb && p.IsValid(Vote(2, o, m, 0))
    ensures HasRequest(s, 2) && Split(RecordVote(s, Vote(2, o, m, 0)), o, va, vb + {m})
    ensures Step(p, s, Cast(2, o, m, c)) == Finalize(p, RecordVote(s, Vote(2, o, m, 0)), 2, Calm(c))
  {
    var v := Vote(2, o, m, 0);
    assert Rivals(s, v) == {};
    assert SideOk(RecordVote(s, v).candidates[2], 2, o, vb + {m});
  }

  /** The message that makes the second transaction ready: a last ballot, or the announcement if no votes are needed. */
  function Final(o: OutPoint, last: Option<Masternode>, c: Cleanup): Msg {
    if last.None? then Announce(2, o, c) else Cast(2, o, last.value, c)
  }

  /** The first transaction is locked in s, and the final message leads through u, in which both are ready. */
  ghost predicate OnEve(p: Params, s: State, o: OutPoint, last: Option<Masternode>, u: State) {
    && 1 in s.candidates && s.candidates[1].locks.Keys == {o} && s.candidates[1].AllReady(p.required)
    && s.locked == map[o := 1] && s.orphans == {} && Brink(p, u, o)
    && forall c :: Step(p, s, Final(o, last, c)) == (DropBoth(u, 2, 1, c), ConflictingLock(1))
  }

  ghost predicate Brink(p: Params, u: State, o: OutPoint) {
    && u.candidates.Keys == {1, 2} && u.locked == map[o := 1] && u.orphans == {}
    && forall h :: h in u.candidates ==>
         u.candidates[h].locks.Keys == {o} && u.candidates[h].AllReady(p.required) && !u.candidates[h].expired
  }

  lemma SplitBrink(p: Params, u: State, o: OutPoint, va: set<Masternode>, vb: set<Masternode>)
    requires Split(u, o, va, vb) && |va| >= p.required && |vb| >= p.required
    ensures Brink(p, u, o)
  {
    SizeOfVotes(u.candidates[1], o, va);
    SizeOfVotes(u.candidates[2], o, vb);
  }

  /** The last vote of the second camp leads through the brink. */
  lemma LastVote(p: Params, s: State, o: OutPoint, va: set<Masternode>, vb: set<Masternode>, m: Masternode)
    requires Split(s, o, va, vb) && m !in va && m !in vb && p.IsValid(Vote(2, o, m, 0))
    requires |va| >= p.required && |vb| + 1 >= p.required
    ensures HasRequest(s, 2) && OnEve(p, s, o, Some(m), RecordVote(s, Vote(2, o, m, 0)))
  {
    RivalVote(p, s, o, va, vb, m, THOROUGH);
    var u := RecordVote(s, Vote(2, o, m, 0));
    forall c ensures Step(p, s, Final(o, Some(m), c)) == (DropBoth(u, 2, 1, c), ConflictingLock(1)) {
      RivalVote(p, s, o, va, vb, m, c);
      SplitFinalize(p, u, o, va, vb + {m}, c);
    }
    SplitBrink(p, u, o, va, vb + {m});
    SizeOfVotes(s.candidates[1], o, va);
  }

  /** The ballots of a disjoint second camp, except for the last one. */
  lemma {:induction false} SecondCamp(p: Params, s: State, o: OutPoint, va: set<Masternode>, vb: set<Masternode>,
                                      todo: set<Masternode>) returns (t: State, last: Option<Masternode>, u: State)
    requires Split(s, o, va, vb) && o in p.quorum && todo <= p.quorum[o]
    requires va !! todo && vb !! todo && todo != {}
    requires |va| >= p.required && |vb| + |todo| == p.required
    ensures Reaches(p, s, t) && OnEve(p, t, o, last, u)
    decreases |todo|
  {
    var m := Member(todo);
    var v, rest := Vote(2, o, m, 0), todo - {m};
    RivalVote(p, s, o, va, vb, m, THOROUGH);
    u := RecordVote(s, v);
    if rest == {} {
      t, last := s, Some(m);
      ReachesSelf(p, s);
      LastVote(p, s, o, va, vb, m);
    } else {
      var next := u;
      SplitFinalize(p, u, o, va, vb + {m}, THOROUGH);
      assert |vb + {m}| < p.required by { assert |rest| > 0; }
      ReachesNext(p, s, Cast(2, o, m, THOROUGH), next);
      t, last, u := SecondCamp(p, next, o, va, vb + {m}, rest);
      ReachesJoin(p, s, next, t);
    }
  }

  /** From a locked transaction to the eve of the conflict. */
  lemma RivalCamp(p: Params, s: State, o: OutPoint, va: set<Masternode>, rivals: set<Masternode>)
    returns (t: State, last: Option<Masternode>, u: State)
    requires Sole(p, s, 1, o, va) && |va| == p.required == |rivals| && va !! rivals
    requires rivals == {} || (o in p.quorum && rivals <= p.quorum[o])
    ensures Reaches(p, s, t) && OnEve(p, t, o, last, u)
  {
    u := AnnounceRival(p, s, o, va, THOROUGH);
    if rivals == {} {
      t, last := s, None;
      ReachesSelf(p, s);
      forall c ensures Step(p, s, Final(o, last, c)) == (DropBoth(u, 2, 1, c), ConflictingLock(1)) {
        var u' := AnnounceRival(p, s, o, va, c);
        SplitFinalize(p, u, o, va, {}, c);
      }
      SplitBrink(p, u, o, va, {});
      SizeOfVotes(s.candidates[1], o, va);
    } else {
      SplitFinalize(p, u, o, va, {}, THOROUGH);
      ReachesNext(p, s, Announce(2, o, THOROUGH), u);
      var next := u;
      t, last, u := SecondCamp(p, next, o, va, {}, rivals);
      ReachesJoin(p, s, next, t);
    }
  }

  lemma {:induction false} TakeSubset(q: set<Masternode>, n: nat) returns (a: set<Masternode>)
    requires n <= |q|
    ensures a <= q && |a| == n
  {
    if n == 0 { return {}; }
    var m := Member(q);
    a := TakeSubset(q - {m}, n - 1);
    a := a + {m};
  }

  /** Two camps that do not overlap. */
  lemma Camps(p: Params) returns (o: OutPoint, a: set<Masternode>, b: set<Masternode>)
    requires !p.Overlapping()
    ensures |a| == |b| == p.required && a !! b
    ensures p.required == 0 || (o in p.quorum && a <= p.quorum[o] && b <= p.quorum[o])
  {
    o, a, b := 0, {}, {};
    if p.required > 0 {
      o :| o in p.quorum && 2 * p.required <= |p.quorum[o]|;
      a := TakeSubset(p.quorum[o], p.required);
      assert |p.quorum[o] - a| == |p.quorum[o]| - |a|;
      b := TakeSubset(p.quorum[o] - a, p.required);
    }
  }

  lemma LockFor(p: Params, s: State, h: TxHash, o: OutPoint, a: set<Masternode>) returns (t: State)
    requires Vacant(s) && |a| == p.required && (p.required == 0 || (o in p.quorum && a <= p.quorum[o]))
    ensures Reaches(p, s, t) && Sole(p, t, h, o, a)
  {
    var u := AnnounceSole(p, s, h, o);
    t := LockUp(p, u, h, o, {}, a);
    assert {} + a == a;
    ReachesJoin(p, s, u, t);
  }

  /** When voter sets can be disjoint, a run leads to the eve of a conflict. */
  lemma EveReached(p: Params) returns (s: State, o: OutPoint, a: set<Masternode>, last: Option<Masternode>, u: State)
    requires !p.Overlapping()
    ensures Reaches(p, INITIAL, s) && OnEve(p, s, o, last, u)
    ensures |a| == p.required && (p.required == 0 || (o in p.quorum && a <= p.quorum[o]))
  {
    var b;
    o, a, b := Camps(p);
    var t := LockFor(p, INITIAL, 1, o, a);
    s, last, u := RivalCamp(p, t, o, a, b);
    ReachesJoin(p, INITIAL, t, s);
  }

  // ---------------------------------------------------------------- what the conflict leaves

  lemma DroppedBoth(p: Params, u: State, o: OutPoint)
    requires Brink(p, u, o)
    ensures Vacant(DropBoth(u, 2, 1, THOROUGH))
  {
    BothExpired(u.candidates);
    assert o in u.candidates[1].locks;
    RemoveAll(u.(candidates := Expire(Expire(u.candidates, 2), 1)), o);
  }

  lemma BothExpired(cs: map<TxHash, Candidate>)
    requires cs.Keys == {1, 2}
    ensures var cs' := Expire(Expire(cs, 2), 1);
      cs'.Keys == {1, 2} && ExpiredOnes(cs') == {1, 2} && cs'[1].locks == cs[1].locks
  {
    var cs' := Expire(Expire(cs, 2), 1);
    assert cs'.Keys == {1, 2};
    forall h ensures h in ExpiredOnes(cs') <==> h in {1, 2} {
      assert h in cs' <==> h in cs'.Keys;
    }
  }

  lemma RemoveAll(t: State, o: OutPoint)
    requires t.candidates.Keys == {1, 2} == ExpiredOnes(t.candidates)
    requires t.locked == map[o := 1] && o in t.candidates[1].locks && t.orphans == {}
    ensures Vacant(CheckAndRemove(t, THOROUGH))
  {
    assert o in OutPointsOf(t.candidates, {1, 2});
    var r := Remove(t, {1, 2});
    assert r.candidates.Keys == {} && r.locked.Keys == {};
  }

  lemma KeptBoth(p: Params, u: State, o: OutPoint)
    requires Brink(p, u, o)
    ensures var t := DropBoth(u, 2, 1, LAZY); ReadyAt(p, t, 1, o) && ReadyAt(p, t, 2, o)
  {
    var t := DropBoth(u, 2, 1, LAZY);
    forall h | h == 1 || h == 2 ensures ReadyAt(p, t, h, o) {
      assert t.candidates[h].locks == u.candidates[h].locks;
      assert o in u.candidates[h].locks;
    }
  }

  /** After the run, the message makes a candidate ready that conflicts with a completed lock. */
  ghost predicate Collides(p: Params, states: seq<State>, ms: seq<Msg>, last: Msg) {
    && IsRun(p, states, ms) && states[0] == INITIAL
    && Acceptable(p, states[|ms|], last) && Step(p, states[|ms|], last).1.ConflictingLock?
  }

  /**
   * Some run takes the branch for conflicting completed locks if and only if two sets of required voters can be
   * disjoint.
   */
  lemma ConflictReachableIff(p: Params)
    ensures (exists states, ms, last :: Collides(p, states, ms, last)) <==> !p.Overlapping()
  {
    if p.Overlapping() {
      forall states: seq<State>, ms: seq<Msg>, last: Msg ensures !Collides(p, states, ms, last) {
        NeverCollides(p, states, ms, last);
      }
    } else {
      var states, ms, last := Collision(p);
    }
  }

  lemma NeverCollides(p: Params, states: seq<State>, ms: seq<Msg>, last: Msg)
    requires p.Overlapping()
    ensures !Collides(p, states, ms, last)
  {
    if IsRun(p, states, ms) && states[0] == INITIAL && Acceptable(p, states[|ms|], last) {
      RunInv(p, states, ms, |ms|);
      StepInv(p, states[|ms|], last);
    }
  }

  lemma Collision(p: Params) returns (states: seq<State>, ms: seq<Msg>, last: Msg)
    requires !p.Overlapping()
    ensures Collides(p, states, ms, last)
  {
    var s, o, a, voter, u := EveReached(p);
    last := Final(o, voter, THOROUGH);
    ReachesSelf(p, s);
    var i;
    states, ms, i := RunThrough(p, s, s);
    FinalAcceptable(p, s, o, voter, THOROUGH);
    assert Step(p, s, last) == (DropBoth(u, 2, 1, THOROUGH), ConflictingLock(1));
  }

  lemma FinalAcceptable(p: Params, s: State, o: OutPoint, voter: Option<Masternode>, c: Cleanup)
    requires s.orphans == {}
    ensures Acceptable(p, s, Final(o, voter, c))
  {
  }

  /** Two different candidates that share an outpoint are ready at two moments of a run. */
  ghost predicate BothReady(
    p: Params, states: seq<State>, ms: seq<Msg>, i: nat, j: nat, h: TxHash, g: TxHash, o: OutPoint)
  {
    && IsRun(p, states, ms) && states[0] == INITIAL && i <= j <= |ms|
    && ReadyAt(p, states[i], h, o) && ReadyAt(p, states[j], g, o) && h != g
  }

  /** Conflicting candidates are never both ready, in any run, if and only if voter sets overlap. */
  lemma QuorumSafetyIff(p: Params)
    ensures (exists states, ms, i, j, h, g, o :: BothReady(p, states, ms, i, j, h, g, o)) <==> !p.Overlapping()
  {
    if p.Overlapping() {
      forall states: seq<State>, ms: seq<Msg>, i: nat, j: nat, h, g, o
        ensures !BothReady(p, states, ms, i, j, h, g, o)
      {
        if IsRun(p, states, ms) && states[0] == INITIAL && i <= j <= |ms| && ReadyAt(p, states[i], h, o)
          && ReadyAt(p, states[j], g, o)
        {
          QuorumSafety(p, states, ms, i, j, h, g, o);
        }
      }
    } else {
      var t, o := Stalemate(p);
      ReachesSelf(p, t);
      var states, ms, i := RunThrough(p, t, t);
      assert BothReady(p, states, ms, i, i, 1, 2, o);
    }
  }

  /** A state in which two conflicting candidates are ready, because the clean-up does not remove them yet. */
  lemma Stalemate(p: Params) returns (t: State, o: OutPoint)
    requires !p.Overlapping()
    ensures Reaches(p, INITIAL, t) && ReadyAt(p, t, 1, o) && ReadyAt(p, t, 2, o)
  {
    var s, a, last, u;
    s, o, a, last, u := EveReached(p);
    t := DropBoth(u, 2, 1, LAZY);
    KeptBoth(p, u, o);
    FinalAcceptable(p, s, o, last, LAZY);
    assert Step(p, s, Final(o, last, LAZY)).0 == t;
    ReachesNext(p, s, Final(o, last, LAZY), t);
    ReachesJoin(p, INITIAL, s, t);
  }

  /** An outpoint is locked at one moment of a run and is not, or by another transaction, at a later one. */
  ghost predicate LockGivenUp(p: Params, states: seq<State>, ms: seq<Msg>, i: nat, j: nat, o: OutPoint) {
    && IsRun(p, states, ms) && states[0] == INITIAL && i <= j <= |ms|
    && o in states[i].locked && !(o in states[j].locked && states[j].locked[o] == states[i].locked[o])
  }

  /** Completed locks are permanent in all runs if and only if voter sets overlap. */
  lemma LocksPermanentIff(p: Params)
    ensures (exists states, ms, i, j, o :: LockGivenUp(p, states, ms, i, j, o)) <==> !p.Overlapping()
  {
    if p.Overlapping() {
      forall states: seq<State>, ms: seq<Msg>, i: nat, j: nat, o ensures !LockGivenUp(p, states, ms, i, j, o) {
        if IsRun(p, states, ms) && states[0] == INITIAL && i <= j <= |ms| && o in states[i].locked {
          LocksPermanent(p, states, ms, i, j, o);
        }
      }
    } else {
      var s, o, a, t := Dropped(p);
      var states, ms, i := RunThrough(p, s, t);
      assert LockGivenUp(p, states, ms, i, |ms|, o);
    }
  }

  /** A locked transaction, and the node after it has been dropped. */
  lemma Dropped(p: Params) returns (s: State, o: OutPoint, a: set<Masternode>, t: State)
    requires !p.Overlapping()
    ensures Reaches(p, INITIAL, s) && Reaches(p, s, t) && Vacant(t)
    ensures s.locked == map[o := 1] && IsLocked(s, 1) && o in s.candidates[1].locks
    ensures |a| == p.required && (p.required == 0 || (o in p.quorum && a <= p.quorum[o]))
  {
    var last, u;
    s, o, a, last, u := EveReached(p);
    t := DropBoth(u, 2, 1, THOROUGH);
    DroppedBoth(p, u, o);
    FinalAcceptable(p, s, o, last, THOROUGH);
    assert Step(p, s, Final(o, last, THOROUGH)).0 == t;
    ReachesNext(p, s, Final(o, last, THOROUGH), t);
    assert o in s.candidates[1].locks;
  }

  /** Two different transactions that share an outpoint are locked at two moments of a run. */
  ghost predicate BothLocked(
    p: Params, states: seq<State>, ms: seq<Msg>, i: nat, j: nat, h: TxHash, g: TxHash, o: OutPoint)
  {
    && IsRun(p, states, ms) && states[0] == INITIAL && i <= j <= |ms| && h != g
    && IsLocked(states[i], h) && o in states[i].candidates[h].locks
    && IsLocked(states[j], g) && o in states[j].candidates[g].locks
  }

  /** No two transactions locked at any moments of a run share an outpoint if and only if voter sets overlap. */
  lemma LockSafetyIff(p: Params)
    ensures (exists states, ms, i, j, h, g, o :: BothLocked(p, states, ms, i, j, h, g, o)) <==> !p.Overlapping()
  {
    if p.Overlapping() {
      forall states: seq<State>, ms: seq<Msg>, i: nat, j: nat, h, g, o
        ensures !BothLocked(p, states, ms, i, j, h, g, o)
      {
        if IsRun(p, states, ms) && states[0] == INITIAL && i <= j <= |ms|
          && IsLocked(states[i], h) && o in states[i].candidates[h].locks
          && IsLocked(states[j], g) && o in states[j].candidates[g].locks
        {
          NoConflictingLocks(p, states, ms, i, j, h, g, o);
        }
      }
    } else {
      var s, o, a, t := Dropped(p);
      var u := LockFor(p, t, 3, o, a);
      SoleIsLocked(p, u, 3, o, a);
      ReachesJoin(p, s, t, u);
      var states, ms, i := RunThrough(p, s, u);
      assert BothLocked(p, states, ms, i, |ms|, 1, 3, o);
    }
  }
}
