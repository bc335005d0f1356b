/** A governance object's votes (src/governance-object.cpp, src/governance-votedb.cpp), updated in place. */
module GovernanceObject {
  import opened Common
  import opened Governance

  type Hash = (Masternode, int, int, int)

  ghost predicate Indexes(index: map<Hash, Vote>, file: seq<Vote>) {
    && (forall u :: u in file ==> u.Hash() in index)
    && (forall h :: h in index ==> index[h] in file && index[h].Hash() == h)
  }

  lemma {:induction false} DropEnd(file: seq<Vote>, u: Vote, c: Cut)
    ensures Drop(file + [u], c) == Drop(file, c) + if Hit(u, c) then [] else [u]
  {
    if file == [] {
      assert file + [u] == [u];
    } else {
      DropEnd(file[1..], u, c);
      assert (file + [u])[1..] == file[1..] + [u];
    }
  }

  /** The first of each group of votes with the same hash. */
  function Distinct(votes: seq<Vote>): seq<Vote> {
    if votes == [] then []
    else
      var rest, u := Distinct(votes[..|votes| - 1]), votes[|votes| - 1];
      if HasVote(rest, u) then rest else rest + [u]
  }

  lemma {:induction false} DistinctKeeps(votes: seq<Vote>)
    ensures NoRepeats(Distinct(votes)) && forall u :: u in Distinct(votes) ==> u in votes
    decreases |votes|
  {
    if votes != [] {
      var n := |votes| - 1;
      DistinctKeeps(votes[..n]);
      assert votes == votes[..n] + [votes[n]];
    }
  }

  /** Every hash of the list is still there. */
  lemma {:induction false} DistinctHas(votes: seq<Vote>, v: Vote)
    requires v in votes
    ensures HasVote(Distinct(votes), v)
    decreases |votes|
  {
    var n := |votes| - 1;
    var rest, u := Distinct(votes[..n]), votes[n];
    assert votes == votes[..n] + [u];
    HasIn(rest, v);
    HasIn(rest + [u], v);
    if v in votes[..n] {
      DistinctHas(votes[..n], v);
    } else if !HasVote(rest, u) {
      assert u in rest + [u];
    }
  }

  /** A walk along a list of which the part before the walker may have been thinned out. */
  ghost predicate Thinned(list: seq<Vote>, done: seq<Vote>, was: seq<Vote>, k: nat) {
    k <= |was| && list == done + was[k..]
  }

  lemma ThinnedNext(list: seq<Vote>, done: seq<Vote>, was: seq<Vote>, k: nat)
    requires Thinned(list, done, was, k) && |done| < |list|
    ensures k < |was| && list[|done|] == was[k]
    ensures Thinned(list, done + [was[k]], was, k + 1)
    ensures Thinned(list[..|done|] + list[|done| + 1..], done, was, k + 1)
  {
  }

  lemma DropNext(was: seq<Vote>, k: nat, c: Cut)
    requires k < |was|
    ensures Drop(was[..k + 1], c) == if Hit(was[k], c) then Drop(was[..k], c) else Drop(was[..k], c) + [was[k]]
  {
    DropEnd(was[..k], was[k], c);
    assert was[..k + 1] == was[..k] + [was[k]];
  }

  /** A walk that erases what is hit, from the list `was`, has come to position `it` of what is left. */
  ghost predicate Walked(list: seq<Vote>, was: seq<Vote>, k: nat, it: nat, c: Cut) {
    k <= |was| && it == |Drop(was[..k], c)| && Thinned(list, Drop(was[..k], c), was, k)
  }

  lemma WalkedNext(list: seq<Vote>, was: seq<Vote>, k: nat, it: nat, c: Cut)
    requires Walked(list, was, k, it, c) && it < |list|
    ensures k < |was|
    ensures if Hit(list[it], c) then Walked(list[..it] + list[it + 1..], was, k + 1, it, c)
            else Walked(list, was, k + 1, it + 1, c)
  {
    ThinnedNext(list, Drop(was[..k], c), was, k);
    DropNext(was, k, c);
  }

  lemma WalkedEnd(list: seq<Vote>, was: seq<Vote>, k: nat, it: nat, c: Cut)
    requires Walked(list, was, k, it, c) && it >= |list|
    ensures list == Drop(was, c)
  {
    assert was[..k] == was;
  }

  lemma DistinctNext(was: seq<Vote>, k: nat)
    requires k < |was|
    ensures var done := Distinct(was[..k]);
      Distinct(was[..k + 1]) == if HasVote(done, was[k]) then done else done + [was[k]]
  {
    assert was[..k + 1][..k] == was[..k];
  }

  class VoteFile {
    var listVotes: seq<Vote>
    var voteIndex: map<Hash, Vote>
    var memoryVotes: int

    ghost predicate Valid()
      reads this
    {
      NoRepeats(listVotes) && memoryVotes == |listVotes| && Indexes(voteIndex, listVotes)
    }

    constructor ()
      ensures Valid() && listVotes == []
    {
      listVotes, voteIndex, memoryVotes := [], map[], 0;
    }

    method HasVote(v: Vote) returns (b: bool)
      requires Valid()
      ensures b <==> Governance.HasVote(listVotes, v)
    {
      HasIn(listVotes, v);
      b := v.Hash() in voteIndex;
    }

    method AddVote(v: Vote)
      requires Valid()
      modifies this
      ensures Valid() && listVotes == Governance.AddVote(old(listVotes), v)
    {
      var has := HasVote(v);
      if has {
        return;
      }
      ghost var was := listVotes;
      HasIn(was, v);
      listVotes := [v] + listVotes;
      voteIndex := voteIndex[v.Hash() := v];
      memoryVotes := memoryVotes + 1;
      PushIndexes(old(voteIndex), was, v);
      RemoveVotes(OlderThan(v));
    }

    /** The loop of RemoveOldVotes and of RemoveVotesFromMasternode: erases entries of the list while walking it. */
    method RemoveVotes(c: Cut)
      requires Valid()
      modifies this
      ensures Valid() && listVotes == Drop(old(listVotes), c)
    {
      var it: nat := 0;
      ghost var was, k := listVotes, 0;
      while it < |listVotes|
        invariant Valid() && Walked(listVotes, was, k, it, c)
        decreases |was| - k
      {
        it := RemoveOrPass(was, k, it, c);
        k := k + 1;
      }
      WalkedEnd(listVotes, was, k, it, c);
    }

    /** One turn of the walk. */
    method RemoveOrPass(ghost was: seq<Vote>, ghost k: nat, it: nat, c: Cut) returns (it': nat)
      requires Valid() && Walked(listVotes, was, k, it, c) && it < |listVotes|
      modifies this
      ensures Valid() && k < |was| && Walked(listVotes, was, k + 1, it', c)
    {
      WalkedNext(listVotes, was, k, it, c);
      it' := it;
      if Hit(listVotes[it], c) {
        EraseAt(it);
      } else {
        it' := it + 1;
      }
    }

    method EraseAt(it: nat)
      requires Valid() && it < |listVotes|
      modifies this
      ensures Valid() && listVotes == old(listVotes)[..it] + old(listVotes)[it + 1..]
    {
      EraseIndexes(voteIndex, listVotes, it);
      memoryVotes := memoryVotes - 1;
      voteIndex := voteIndex - {listVotes[it].Hash()};
      listVotes := listVotes[..it] + listVotes[it + 1..];
    }

    /** RebuildIndex: of any list of votes, the first with each hash stay. */
    method RebuildIndex()
      modifies this
      ensures Valid() && listVotes == Distinct(old(listVotes))
    {
      voteIndex, memoryVotes := map[], 0;
      var it := 0;
      ghost var was, k, done := listVotes, 0, [];
      while it < |listVotes|
        invariant it == |done| == memoryVotes && Thinned(listVotes, done, was, k) && done == Distinct(was[..k])
        invariant Indexes(voteIndex, done)
        decreases |was| - k
      {
        ThinnedNext(listVotes, done, was, k);
        DistinctNext(was, k);
        HasIn(done, was[k]);
        if listVotes[it].Hash() !in voteIndex {
          PushBackIndexes(voteIndex, done, was[k]);
          voteIndex := voteIndex[listVotes[it].Hash() := listVotes[it]];
          memoryVotes := memoryVotes + 1;
          it := it + 1;
          done := done + [was[k]];
        } else {
          listVotes := listVotes[..it] + listVotes[it + 1..];
        }
        k := k + 1;
      }
      assert was[..k] == was;
      DistinctKeeps(was);
    }
  }

  lemma PushIndexes(index: map<Hash, Vote>, file: seq<Vote>, v: Vote)
    requires Indexes(index, file) && NoRepeats(file) && v.Hash() !in index
    ensures Indexes(index[v.Hash() := v], [v] + file) && NoRepeats([v] + file)
  {
    var all := [v] + file;
    forall i, j | 0 <= i < j < |all| ensures all[i].Hash() != all[j].Hash() {
      assert all[j] == file[j - 1];
      if i > 0 { assert all[i] == file[i - 1]; }
    }
  }

  lemma PushBackIndexes(index: map<Hash, Vote>, file: seq<Vote>, v: Vote)
    requires Indexes(index, file) && v.Hash() !in index
    ensures Indexes(index[v.Hash() := v], file + [v])
  {
  }

  /** A list without one of its entries, and where each of the others is. */
  lemma Erased(file: seq<Vote>, it: nat)
    requires it < |file|
    ensures var file' := file[..it] + file[it + 1..];
      && |file'| == |file| - 1
      && (forall k :: 0 <= k < it ==> file'[k] == file[k])
      && (forall k :: it <= k < |file'| ==> file'[k] == file[k + 1])
      && (forall u :: u in file' ==> u in file)
  {
  }

  lemma ErasedNoRepeats(file: seq<Vote>, it: nat)
    requires NoRepeats(file) && it < |file|
    ensures var file' := file[..it] + file[it + 1..];
      NoRepeats(file') && forall u :: u in file' <==> u in file && u.Hash() != file[it].Hash()
  {
    Erased(file, it);
    var file' := file[..it] + file[it + 1..];
    forall u | u in file && u.Hash() != file[it].Hash() ensures u in file' {
      var k :| 0 <= k < |file| && file[k] == u;
      if k < it { assert file'[k] == u; } else { assert file'[k - 1] == u; }
    }
    forall k | 0 <= k < |file'| ensures file'[k].Hash() != file[it].Hash() {
      if k < it { assert file'[k] == file[k]; } else { assert file'[k] == file[k + 1]; }
    }
    forall i, j | 0 <= i < j < |file'| ensures file'[i].Hash() != file'[j].Hash() {
      var i', j' := if i < it then i else i + 1, if j < it then j else j + 1;
      assert file'[i] == file[i'] && file'[j] == file[j'];
    }
  }

  lemma EraseIndexes(index: map<Hash, Vote>, file: seq<Vote>, it: nat)
    requires Indexes(index, file) && NoRepeats(file) && it < |file|
    ensures var file' := file[..it] + file[it + 1..]; Indexes(index - {file[it].Hash()}, file') && NoRepeats(file')
  {
    ErasedNoRepeats(file, it);
  }

  lemma PutTwice(r: Records, mn: Masternode, signal: int, i: Instance, j: Instance)
    ensures var q := Put(r, mn, signal, i); q[mn := q[mn][signal := j]] == Put(r, mn, signal, j)
  {
    var q := Put(r, mn, signal, i);
    assert q[mn][signal := j] == RecordOf(r, mn)[signal := j];
  }

  class Object {
    var currentVotes: Records
    const fileVotes: VoteFile

    ghost predicate Valid()
      reads this, fileVotes
    {
      fileVotes.Valid()
    }

    ghost function Value(): Votes
      reads this, fileVotes
    {
      Votes(currentVotes, fileVotes.listVotes)
    }

    constructor ()
      ensures Valid() && Value() == EMPTY && fresh(fileVotes)
    {
      currentVotes := map[];
      fileVotes := new VoteFile();
    }

    /** Makes sure the masternode has a record. */
    method OpenRecord(mn: Masternode)
      modifies this
      ensures currentVotes == old(currentVotes)[mn := RecordOf(old(currentVotes), mn)]
    {
      if mn !in currentVotes {
        currentVotes := currentVotes[mn := map[]];
      }
    }

    /** Makes sure the masternode has a record and an instance for the signal. */
    method OpenInstance(mn: Masternode, signal: int) returns (current: Instance)
      modifies this
      ensures var i := InstanceOf(old(currentVotes), mn, signal); current == if i.Some? then i.value else NEW_INSTANCE
      ensures currentVotes == Put(old(currentVotes), mn, signal, current)
    {
      OpenRecord(mn);
      ghost var rec := currentVotes[mn];
      if signal !in currentVotes[mn] {
        currentVotes := currentVotes[mn := currentVotes[mn][signal := NEW_INSTANCE]];
      }
      current := currentVotes[mn][signal];
      assert currentVotes[mn] == rec[signal := current];
    }

    /** ProcessVote; `now` is the time if rate checks are enabled. */
    method ProcessVote(w: World, v: Vote, now: Option<int>) returns (outcome: Outcome)
      requires Valid()
      modifies this, fileVotes
      ensures Valid() && (Value(), outcome) == Process(old(Value()), w, v, now)
    {
      var has := fileVotes.HasVote(v);
      if has {
        return Known;
      }
      if v.mn !in w.known {
        return UnknownMasternode;
      }
      if v.signal == SIGNAL_NONE || v.signal > MAX_SUPPORTED_VOTE_SIGNAL {
        OpenRecord(v.mn);
        return if v.signal == SIGNAL_NONE then NoSignal else BadSignal;
      }
      ghost var r := currentVotes;
      var current := OpenInstance(v.mn, v.signal);
      if v.created < current.created {
        return Obsolete;
      } else if v.created == current.created {
        if v.outcome < current.outcome {
          return Outranked;
        }
      }
      var time := current.time;
      if now.Some? {
        if now.value - current.time < GOVERNANCE_UPDATE_MIN {
          return TooOften;
        }
        time := now.value;
      }
      if !w.accepts(v) {
        return NotAccepted;
      }
      currentVotes := currentVotes[v.mn := currentVotes[v.mn][v.signal := Instance(v.outcome, time, v.created)]];
      PutTwice(r, v.mn, v.signal, current, Instance(v.outcome, time, v.created));
      fileVotes.AddVote(v);
      outcome := Accepted;
    }

    /** ClearMasternodeVotes, in any order of the masternodes. */
    method ClearMasternodeVotes(known: set<Masternode>)
      requires Valid()
      modifies this, fileVotes
      ensures Valid() && Cleared(old(Value()), Value(), known)
    {
      var rest := currentVotes.Keys;
      ghost var r, file := currentVotes, fileVotes.listVotes;
      while rest != {}
        invariant Valid() && rest <= r.Keys
        invariant forall mn :: mn in currentVotes <==> mn in r && (mn in rest || mn in known)
        invariant forall mn :: mn in currentVotes ==> currentVotes[mn] == r[mn]
        invariant forall u :: u in fileVotes.listVotes <==> u in file && !(u.mn in r && u.mn !in known && u.mn !in rest)
        decreases |rest|
      {
        var mn :| mn in rest;
        if mn !in known {
          DropKeeps(fileVotes.listVotes, Of(mn));
          fileVotes.RemoveVotes(Of(mn));
          currentVotes := currentVotes - {mn};
        }
        rest := rest - {mn};
      }
      assert currentVotes == map mn | mn in r && mn in known :: r[mn];
    }

    method CountMatchingVotes(signal: int, outcome: int) returns (count: nat)
      ensures count == |Matching(currentVotes, signal, outcome)|
    {
      count := 0;
      var rest := currentVotes.Keys;
      ghost var found: set<Masternode> := {};
      while rest != {}
        invariant rest <= currentVotes.Keys && count == |found|
        invariant forall mn :: mn in found <==> mn in Matching(currentVotes, signal, outcome) && mn !in rest
        decreases |rest|
      {
        var mn :| mn in rest;
        var rec := currentVotes[mn];
        if signal in rec && rec[signal].outcome == outcome {
          count := count + 1;
          found := found + {mn};
        }
        rest := rest - {mn};
      }
      assert found == Matching(currentVotes, signal, outcome);
    }

    /** Yes votes less no votes. */
    method GetAbsoluteYesCount(signal: int) returns (n: int)
      ensures n == |Matching(currentVotes, signal, OUTCOME_YES)| - |Matching(currentVotes, signal, OUTCOME_NO)|
    {
      var yes := CountMatchingVotes(signal, OUTCOME_YES);
      var no := CountMatchingVotes(signal, OUTCOME_NO);
      n := yes;
      n := n - no;
    }
  }
}
