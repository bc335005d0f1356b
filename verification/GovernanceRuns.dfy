/**
 * Every run of a governance object: votes with or without rate checks and under changing conditions, departed
 * masternodes cleared, the index of the vote file rebuilt. Records and vote file keep telling the same.
 */
module GovernanceRuns {
  import opened Common
  import opened Governance
  import opened GovernanceObject

  datatype Event = Ballot(w: World, v: Vote, now: Option<int>) | Clearing(known: set<Masternode>) | Rebuilding

  ghost predicate Next(o: Votes, e: Event, o': Votes) {
    match e
    case Ballot(w, v, now) => o' == Process(o, w, v, now).0
    case Clearing(known) => Cleared(o, o', known)
    case Rebuilding => o' == o.(file := Distinct(o.file))
  }

  ghost predicate IsRun(states: seq<Votes>, events: seq<Event>) {
    && |states| == |events| + 1
    && forall i :: 0 <= i < |events| ==> Next(states[i], events[i], states[i + 1])
  }

  /** No vote in the file outranks the record of its masternode and signal. */
  ghost predicate Capped(o: Votes) {
    forall u :: u in o.file ==>
      InstanceOf(o.records, u.mn, u.signal).Some? &&
      AtMost(u.Rank(), InstanceOf(o.records, u.mn, u.signal).value.Rank())
  }

  ghost predicate Held(file: seq<Vote>, mn: Masternode, signal: int, rank: (int, int)) {
    exists u :: u in file && u.mn == mn && u.signal == signal && u.Rank() == rank
  }

  /** Every record beyond the start is that of a vote in the file. */
  ghost predicate Backed(o: Votes) {
    forall mn, signal :: InstanceOf(o.records, mn, signal).Some? ==>
      var rank := InstanceOf(o.records, mn, signal).value.Rank();
      AtMost((0, OUTCOME_NONE), rank) && (rank == (0, OUTCOME_NONE) || Held(o.file, mn, signal, rank))
  }

  /**
   * Records and file tell the same: each record beyond the start is the highest ranking vote in the file of its
   * masternode and signal, and all their votes in the file carry its timestamp, once each.
   */
  ghost predicate Matches(o: Votes) {
    Fits(o) && Capped(o) && Backed(o)
  }

  lemma BallotCapped(o: Votes, w: World, v: Vote, now: Option<int>)
    requires Matches(o)
    ensures Capped(Process(o, w, v, now).0)
  {
    var (o', outcome) := Process(o, w, v, now);
    if outcome == Accepted { AddVoteFile(o.file, v); }
    forall u | u in o'.file
      ensures InstanceOf(o'.records, u.mn, u.signal).Some? &&
              AtMost(u.Rank(), InstanceOf(o'.records, u.mn, u.signal).value.Rank())
    {
      BallotRecord(o, w, v, now, u.mn, u.signal);
    }
  }

  /** A vote leaves a record alone, starts it, or is accepted as one of at least its rank. */
  lemma BallotRecord(o: Votes, w: World, v: Vote, now: Option<int>, mn: Masternode, signal: int)
    ensures var (o', outcome) := Process(o, w, v, now);
      var i, i' := InstanceOf(o.records, mn, signal), InstanceOf(o'.records, mn, signal);
      if outcome == Accepted && mn == v.mn && signal == v.signal
      then i'.Some? && i'.value.Rank() == v.Rank() &&
           AtMost(if i.Some? then i.value.Rank() else (0, OUTCOME_NONE), v.Rank())
      else i' == i || (i.None? && i' == Some(NEW_INSTANCE))
  {
    var i := InstanceOf(o.records, v.mn, v.signal);
    var current := if i.Some? then i.value else NEW_INSTANCE;
    var time := if now.Some? then now.value else current.time;
    PutAt(o.records, v.mn, v.signal, current, mn, signal);
    PutAt(o.records, v.mn, v.signal, Instance(v.outcome, time, v.created), mn, signal);
  }

  lemma BallotBacked(o: Votes, w: World, v: Vote, now: Option<int>)
    requires Matches(o)
    ensures Backed(Process(o, w, v, now).0)
  {
    var (o', outcome) := Process(o, w, v, now);
    if outcome == Accepted { AddVoteFile(o.file, v); }
    forall mn, signal | InstanceOf(o'.records, mn, signal).Some?
      ensures var rank := InstanceOf(o'.records, mn, signal).value.Rank();
        AtMost((0, OUTCOME_NONE), rank) && (rank == (0, OUTCOME_NONE) || Held(o'.file, mn, signal, rank))
    {
      BallotRecord(o, w, v, now, mn, signal);
      var rank := InstanceOf(o'.records, mn, signal).value.Rank();
      if outcome == Accepted && mn == v.mn && signal == v.signal {
        assert v in o'.file;
      } else if Held(o.file, mn, signal, rank) {
        var u :| u in o.file && u.mn == mn && u.signal == signal && u.Rank() == rank;
        assert u in o'.file;
      }
    }
  }

  lemma ClearMatches(o: Votes, o': Votes, known: set<Masternode>)
    requires Matches(o) && Cleared(o, o', known)
    ensures Matches(o')
  {
    ClearFits(o, o', known);
    forall mn, signal | InstanceOf(o'.records, mn, signal).Some?
      ensures InstanceOf(o'.records, mn, signal) == InstanceOf(o.records, mn, signal)
      ensures var rank := InstanceOf(o.records, mn, signal).value.Rank();
        rank == (0, OUTCOME_NONE) || Held(o'.file, mn, signal, rank)
    {
      assert mn in known;
      var rank := InstanceOf(o.records, mn, signal).value.Rank();
      if Held(o.file, mn, signal, rank) {
        var u :| u in o.file && u.mn == mn && u.signal == signal && u.Rank() == rank;
        assert u in o'.file;
      }
    }
  }

  lemma LastIsNew(file: seq<Vote>, n: nat)
    requires NoRepeats(file) && n < |file|
    ensures NoRepeats(file[..n]) && !HasVote(file[..n], file[n])
  {
    var front := file[..n];
    forall i | 0 <= i < n ensures front[i].Hash() != file[n].Hash() { assert front[i] == file[i]; }
  }

  /** A file without repeated hashes is left as it is. */
  lemma {:induction false} DistinctIdle(file: seq<Vote>, n: nat)
    requires NoRepeats(file) && n <= |file|
    ensures Distinct(file[..n]) == file[..n]
  {
    if n > 0 {
      var front := file[..n];
      DistinctIdle(file, n - 1);
      LastIsNew(file, n - 1);
      assert front[..n - 1] == file[..n - 1] && front == file[..n - 1] + [file[n - 1]];
    }
  }

  lemma RebuildIdle(file: seq<Vote>)
    requires NoRepeats(file)
    ensures Distinct(file) == file
  {
    DistinctIdle(file, |file|);
    assert file[..|file|] == file;
  }

  lemma NextMatches(o: Votes, e: Event, o': Votes)
    requires Matches(o) && Next(o, e, o')
    ensures Matches(o')
  {
    match e
    case Ballot(w, v, now) =>
      ProcessFits(o, w, v, now);
      BallotCapped(o, w, v, now);
      BallotBacked(o, w, v, now);
    case Clearing(known) => ClearMatches(o, o', known);
    case Rebuilding => RebuildIdle(o.file);
  }

  /** In every state of every run records and vote file match, and rebuilding the index would lose no vote. */
  lemma {:induction false} RunMatches(states: seq<Votes>, events: seq<Event>, i: nat)
    requires IsRun(states, events) && states[0] == EMPTY && i <= |events|
    ensures Matches(states[i]) && Distinct(states[i].file) == states[i].file
  {
    if i > 0 {
      RunMatches(states, events, i - 1);
      NextMatches(states[i - 1], events[i - 1], states[i]);
    }
    RebuildIdle(states[i].file);
  }
}
