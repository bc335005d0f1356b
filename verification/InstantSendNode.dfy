/**
 * A node's InstantSend tables, updated in place.
 *
 * Each method is proved against the protocol on values; `Now()` is the state the tables stand for.
 */
module InstantSendNode {
  import opened Common
  import opened InstantSend

  /** IsAllOutPointsReady: stops at the first outpoint that is not ready. */
  method AllOutPointsReady(c: Candidate, required: nat) returns (r: bool)
    ensures r <==> c.AllReady(required)
  {
    if c.locks == map[] { return false; }
    var rest := c.locks.Keys;
    while rest != {}
      invariant rest <= c.locks.Keys
      invariant forall o :: o in c.locks && o !in rest ==> c.locks[o].IsReady(required)
      decreases rest
    {
      var o :| o in rest;
      if !c.locks[o].IsReady(required) { return false; }
      rest := rest - {o};
    }
    return true;
  }

  /** The candidates after the rivals seen so far have been marked, together with the current candidate. */
  ghost function Marked(cs: map<TxHash, Candidate>, seen: set<TxHash>, v: Vote): map<TxHash, Candidate> {
    if seen == {} then cs else MarkAll(cs, seen + {v.txHash}, v.outpoint)
  }

  lemma MarkedOneMore(cs: map<TxHash, Candidate>, seen: set<TxHash>, v: Vote, h: TxHash)
    requires v.txHash in cs && h in cs && h != v.txHash && h !in seen
    ensures v.txHash in Marked(cs, seen, v) && h in Marked(cs, seen, v)
    ensures var one := Marked(cs, seen, v)[v.txHash := Marked(cs, seen, v)[v.txHash].MarkAttacked(v.outpoint)];
      one[h := one[h].MarkAttacked(v.outpoint)] == Marked(cs, seen + {h}, v)
  {
    MarkedTwice(cs[v.txHash], v.outpoint);
  }

  lemma MarkedTwice(c: Candidate, o: OutPoint)
    ensures c.MarkAttacked(o).MarkAttacked(o) == c.MarkAttacked(o)
  {
    if o in c.locks {
      assert c.MarkAttacked(o).MarkAttacked(o).locks == c.MarkAttacked(o).locks;
    }
  }

  class Node {
    const params: Params
    var candidates: map<TxHash, Candidate>
    var voted: map<OutPoint, set<TxHash>>
    var locked: map<OutPoint, TxHash>
    var orphans: set<Vote>

    ghost function Now(): State
      reads this
    {
      State(candidates, voted, locked, orphans)
    }

    constructor (params: Params)
      ensures this.params == params && Now() == INITIAL
    {
      this.params := params;
      candidates, voted, locked, orphans := map[], map[], map[], {};
    }

    method CreateTxLockCandidate(tx: Tx, late: set<TxHash>) returns (ok: bool)
      modifies this`candidates
      ensures (Now(), ok) == CreateCandidate(old(Now()), tx, late)
    {
      if tx.hash !in candidates {
        var c := AddOutPointLocks(Candidate(Some(tx), map[], false), tx);
        candidates := candidates[tx.hash := c];
      } else if candidates[tx.hash].request.None? {
        candidates := candidates[tx.hash := candidates[tx.hash].(request := Some(tx))];
        if tx.hash in late { return false; }
        var c := AddOutPointLocks(candidates[tx.hash], tx);
        candidates := candidates[tx.hash := c];
        assert candidates == old(candidates)[tx.hash := c];
      }
      return true;
    }

    /** Adds a lock record per input; an input that already has one keeps it. */
    static method AddOutPointLocks(c: Candidate, tx: Tx) returns (r: Candidate)
      ensures r == c.AddOutPointLocks(tx.Spends())
    {
      r := c;
      for i := 0 to |tx.inputs|
        invariant r.request == c.request && r.expired == c.expired
        invariant forall o :: o in r.locks <==> o in c.locks || o in tx.inputs[..i]
        invariant forall o :: o in r.locks ==> r.locks[o] == if o in c.locks then c.locks[o]
          else OutPointLock(map[], false)
      {
        if tx.inputs[i] !in r.locks {
          r := r.(locks := r.locks[tx.inputs[i] := OutPointLock(map[], false)]);
        }
      }
      assert r.locks == c.AddOutPointLocks(tx.Spends()).locks;
    }

    /** Marks the current candidate and every rival attacked, then indexes the vote. */
    method UpdateVotedOutpoints(v: Vote)
      requires v.txHash in candidates
      modifies this`candidates, this`voted
      ensures Now() == UpdateVoted(old(Now()), v)
    {
      var o := v.outpoint;
      if o !in voted {
        voted := voted[o := {v.txHash}];
        assert {} + {v.txHash} == {v.txHash};
        return;
      }
      ghost var rivals := Rivals(Now(), v);
      var rest := voted[o];
      ghost var seen: set<TxHash> := {};
      while rest != {}
        invariant seen <= rivals <= seen + rest && seen !! rest && voted == old(voted)
        invariant rivals == Rivals(old(Now()), v) && forall h :: h in rest ==> h in old(voted[o])
        invariant candidates == Marked(old(candidates), seen, v)
        decreases rest
      {
        var h :| h in rest;
        if h != v.txHash && h in candidates && candidates[h].HasVoted(o, v.masternode) {
          assert h in rivals;
          MarkedOneMore(old(candidates), seen, v, h);
          candidates := candidates[v.txHash := candidates[v.txHash].MarkAttacked(o)];
          candidates := candidates[h := candidates[h].MarkAttacked(o)];
          seen := seen + {h};
        } else {
          assert h !in rivals;
        }
        rest := rest - {h};
      }
      voted := voted[o := voted[o] + {v.txHash}];
    }

    /** Records a vote for an open candidate; false when the candidate refuses it. */
    method RecordVoteFor(v: Vote) returns (taken: bool)
      requires HasRequest(Now(), v.txHash)
      modifies this`candidates, this`voted
      ensures Now() == RecordVote(old(Now()), v)
      ensures v.txHash in UpdateVoted(old(Now()), v).candidates
      ensures taken == UpdateVoted(old(Now()), v).candidates[v.txHash].Accepts(v)
    {
      UpdateVotedOutpoints(v);
      taken := candidates[v.txHash].Accepts(v);
      candidates := candidates[v.txHash := candidates[v.txHash].AddVote(v)];
    }

    /** Replays every waiting vote once, in some order; recorded votes stop waiting. */
    method ProcessOrphanTxLockVotes(late: set<TxHash>) returns (ghost order: seq<Vote>)
      modifies this`candidates, this`voted, this`orphans
      ensures EachOnce(order, old(orphans))
      ensures Now() == Replay(old(Now()), order, late)
    {
      var rest := orphans;
      order := [];
      while rest != {}
        invariant EachOnce(order, old(orphans) - rest) && rest <= old(orphans)
        invariant locked == old(locked)
        invariant Now() == Replay(old(Now()), order, late)
        decreases rest
      {
        var v :| v in rest;
        ReplayLast(old(Now()), order, v, late);
        if v.txHash in candidates && candidates[v.txHash].request.Some? && v.txHash !in late {
          var taken := RecordVoteFor(v);
          if taken { orphans := orphans - {v}; }
        }
        OnceMore(order, old(orphans), rest, v);
        order := order + [v];
        rest := rest - {v};
      }
    }

    /** The outpoints of one candidate are forgotten, whoever is recorded there. */
    method Forget(outs: set<OutPoint>)
      modifies this`voted, this`locked
      ensures voted == old(voted) - outs && locked == old(locked) - outs
    {
      var rest := outs;
      while rest != {}
        invariant rest <= outs && voted == old(voted) - (outs - rest) && locked == old(locked) - (outs - rest)
        decreases rest
      {
        var o :| o in rest;
        locked := locked - {o};
        voted := voted - {o};
        assert outs - (rest - {o}) == (outs - rest) + {o};
        rest := rest - {o};
      }
      assert outs - rest == outs;
    }

    /** The loop that removes the candidates marked expired, erasing while it goes through them. */
    method RemoveExpired()
      modifies this`candidates, this`voted, this`locked
      ensures Now() == Remove(old(Now()), ExpiredOnes(old(candidates)))
    {
      ghost var start := Now();
      ghost var gone: set<TxHash> := {};
      RemoveNone(start);
      var rest := candidates.Keys;
      while rest != {}
        invariant rest <= candidates.Keys && orphans == old(orphans)
        invariant forall h :: h in gone <==> h in start.candidates && h !in rest && start.candidates[h].expired
        invariant Now() == Remove(start, gone)
        decreases rest
      {
        var h :| h in rest;
        if candidates[h].expired {
          RemoveOne(start, gone, h);
          Forget(candidates[h].locks.Keys);
          candidates := candidates - {h};
          gone := gone + {h};
        }
        rest := rest - {h};
      }
      assert gone == ExpiredOnes(start.candidates);
    }

    /** CheckAndRemove, as far as candidates and orphan votes are concerned. */
    method CleanUp(c: Cleanup)
      modifies this`candidates, this`voted, this`locked, this`orphans
      ensures Now() == CheckAndRemove(old(Now()), c)
    {
      if c.removes { RemoveExpired(); }
      orphans := orphans - c.lost;
    }

    /**
     * Goes through the inputs in order, until one is locked by another transaction or spent in the memory pool. In the
     * first case both candidates are marked expired and cleaned up, if both are known.
     */
    method ResolveConflicts(h: TxHash, w: World) returns (out: Outcome)
      requires HasRequest(Now(), h)
      modifies this`candidates, this`voted, this`locked, this`orphans
      ensures (Now(), out) == InstantSend.ResolveConflicts(params, old(Now()), h, w)
    {
      var ready := AllOutPointsReady(candidates[h], params.required);
      if !ready { return NotReady; }
      var inputs := candidates[h].request.value.inputs;
      for i := 0 to |inputs|
        invariant Now() == old(Now()) && Resolve(Now(), h, inputs, w) == Resolve(Now(), h, inputs[i..], w)
      {
        assert inputs[i..][0] == inputs[i] && inputs[i..][1..] == inputs[i + 1..];
        if inputs[i] in locked && locked[inputs[i]] != h {
          var rival := locked[inputs[i]];
          DropCandidates(h, rival, w.cleanup);
          return ConflictingLock(rival);
        } else if inputs[i] in w.rivals {
          return Refused;
        }
      }
      if w.inBlock { return Locked; }
      if !w.allUnspent { return Refused; }
      return Locked;
    }

    method DropCandidates(h: TxHash, rival: TxHash, c: Cleanup)
      modifies this`candidates, this`voted, this`locked, this`orphans
      ensures Now() == DropBoth(old(Now()), h, rival, c)
    {
      if h !in candidates || rival !in candidates { return; }
      candidates := candidates[h := candidates[h].(expired := true)];
      candidates := candidates[rival := candidates[rival].(expired := true)];
      CleanUp(c);
    }

    /** Inserts a lock per outpoint; an outpoint that is already locked keeps its lock. */
    method LockTransactionInputs(h: TxHash)
      requires h in candidates
      modifies this`locked
      ensures locked == (map o | o in candidates[h].locks :: h) + old(locked)
    {
      var rest := candidates[h].locks.Keys;
      while rest != {}
        invariant rest <= candidates[h].locks.Keys
        invariant locked == (map o | o in candidates[h].locks && o !in rest :: h) + old(locked)
        decreases rest
      {
        var o :| o in rest;
        if o !in locked { locked := locked[o := h]; }
        rest := rest - {o};
      }
    }

    method TryToFinalizeLockCandidate(h: TxHash, w: World) returns (out: Outcome)
      requires HasRequest(Now(), h)
      modifies this`candidates, this`voted, this`locked, this`orphans
      ensures (Now(), out) == Finalize(params, old(Now()), h, w)
    {
      if !w.active { return NotReady; }
      var ready := AllOutPointsReady(candidates[h], params.required);
      if !ready { return NotReady; }
      if w.enabled && IsLocked(State(candidates, voted, locked, orphans), h) { return AlreadyLocked; }
      out := ResolveConflicts(h, w);
      if out == Locked { LockTransactionInputs(h); }
    }

    /** A lock request arrives. */
    method ProcessTxLockRequest(tx: Tx, isValid: bool, late: set<TxHash>, w: World)
      returns (out: Outcome, ghost order: seq<Vote>)
      modifies this
      ensures Acceptable(params, old(Now()), Request(tx, isValid, late, order, w))
      ensures (Now(), out) == Step(params, old(Now()), Request(tx, isValid, late, order, w))
    {
      out, order := NotReady, [];
      if !isValid { return; }
      var ok := CreateTxLockCandidate(tx, late);
      if !ok { return; }
      ghost var created := Now();
      order := ProcessOrphanTxLockVotes(late);
      ReplayKeeps(created, order, late);
      out := TryToFinalizeLockCandidate(tx.hash, w);
    }

    /** A vote arrives. */
    method ProcessNewTxLockVote(v: Vote, late: set<TxHash>, w: World) returns (out: Outcome)
      modifies this
      ensures (Now(), out) == Step(params, old(Now()), Ballot(v, late, w))
    {
      out := NotReady;
      if !params.IsValid(v) { return; }
      if v.txHash !in candidates || candidates[v.txHash].request.None? {
        if v.txHash !in candidates {
          candidates := candidates[v.txHash := Candidate(None, map[], false)];
        }
        orphans := orphans + {v};
        return;
      }
      if v.txHash in late { return; }
      var taken := RecordVoteFor(v);
      if !taken { return; }
      RecordKeeps(old(Now()), v);
      out := TryToFinalizeLockCandidate(v.txHash, w);
    }
  }

  lemma OnceMore(order: seq<Vote>, all: set<Vote>, rest: set<Vote>, v: Vote)
    requires EachOnce(order, all - rest) && v in rest && rest <= all
    ensures EachOnce(order + [v], all - (rest - {v}))
  {
    forall u ensures u in order + [v] <==> u in all - (rest - {v}) { }
  }

  lemma RemoveNone(s: State)
    ensures Remove(s, {}) == s
  {
    if OutPointsOf(s.candidates, {}) != {} { var o := Member(OutPointsOf(s.candidates, {})); }
    assert s.candidates - {} == s.candidates && s.voted - {} == s.voted && s.locked - {} == s.locked;
  }

  /** Removing one more candidate after the others. */
  lemma RemoveOne(s: State, gone: set<TxHash>, h: TxHash)
    requires h in s.candidates && h !in gone
    ensures var t, outs := Remove(s, gone), s.candidates[h].locks.Keys;
      Remove(s, gone + {h}) == t.(candidates := t.candidates - {h}, voted := t.voted - outs, locked := t.locked - outs)
  {
    var cs, outs := s.candidates, s.candidates[h].locks.Keys;
    forall o ensures o in OutPointsOf(cs, gone + {h}) <==> o in OutPointsOf(cs, gone) + outs { }
    assert OutPointsOf(cs, gone + {h}) == OutPointsOf(cs, gone) + outs;
    assert cs - (gone + {h}) == cs - gone - {h};
    assert s.voted - (OutPointsOf(cs, gone) + outs) == s.voted - OutPointsOf(cs, gone) - outs;
    assert s.locked - (OutPointsOf(cs, gone) + outs) == s.locked - OutPointsOf(cs, gone) - outs;
  }

  /** Replaying one more vote after the others. */
  lemma {:induction false} ReplayLast(s: State, order: seq<Vote>, v: Vote, late: set<TxHash>)
    ensures Replay(s, order + [v], late) == Replay(Replay(s, order, late), [v], late)
    decreases |order|
  {
    if order == [] {
      assert [] + [v] == [v];
    } else {
      assert (order + [v])[1..] == order[1..] + [v];
      var u := order[0];
      if !Open(s, late, u.txHash) {
        ReplayLast(s, order[1..], v, late);
      } else {
        var taken := UpdateVoted(s, u).candidates[u.txHash].Accepts(u);
        var t := RecordVote(s, u);
        ReplayLast(if taken then t.(orphans := t.orphans - {u}) else t, order[1..], v, late);
      }
    }
  }
}
