/** Recording governance votes (src/governance-object.cpp, src/governance-votedb.cpp), on values. */
module Governance {
  import opened Common

  type Masternode = nat

  const OUTCOME_NONE: int := 0
  const OUTCOME_YES: int := 1
  const OUTCOME_NO: int := 2
  const SIGNAL_NONE: int := 0
  const MAX_SUPPORTED_VOTE_SIGNAL: int := 4
  const GOVERNANCE_UPDATE_MIN: int := 60 * 60

  /** A vote on one object; everything but the signature goes into its hash. */
  datatype Vote = Vote(mn: Masternode, signal: int, outcome: int, created: int, signature: nat) {
    function Hash(): (Masternode, int, int, int) { (mn, signal, outcome, created) }
    function Rank(): (int, int) { (created, outcome) }
  }

  /** What is recorded for a masternode and a signal. */
  datatype Instance = Instance(outcome: int, time: int, created: int) {
    function Rank(): (int, int) { (created, outcome) }
  }

  type Records = map<Masternode, map<int, Instance>>

  /** The votes of an object: the current record and the vote file, newest first. */
  datatype Votes = Votes(records: Records, file: seq<Vote>)

  /** What is fixed during a run: the masternodes, and which votes are valid and accepted by the metadata manager. */
  datatype World = World(known: set<Masternode>, accepts: Vote -> bool)

  const NEW_INSTANCE: Instance := Instance(OUTCOME_NONE, 0, 0)

  /** Order by timestamp, then by outcome. */
  predicate AtMost(a: (int, int), b: (int, int)) {
    a.0 < b.0 || (a.0 == b.0 && a.1 <= b.1)
  }

  predicate HasVote(file: seq<Vote>, v: Vote) {
    exists i :: 0 <= i < |file| && file[i].Hash() == v.Hash()
  }

  function RecordOf(r: Records, mn: Masternode): map<int, Instance> {
    if mn in r then r[mn] else map[]
  }

  function InstanceOf(r: Records, mn: Masternode, signal: int): Option<Instance> {
    Get(RecordOf(r, mn), signal)
  }

  function Put(r: Records, mn: Masternode, signal: int, i: Instance): Records {
    r[mn := RecordOf(r, mn)[signal := i]]
  }

  predicate Supported(signal: int) {
    signal != SIGNAL_NONE && signal <= MAX_SUPPORTED_VOTE_SIGNAL
  }

  /** Which votes to remove from a file: those a vote makes obsolete, or those of a masternode. */
  datatype Cut = OlderThan(vote: Vote) | Of(mn: Masternode)

  predicate Hit(u: Vote, c: Cut) {
    match c
    case OlderThan(v) => IsOld(u, v)
    case Of(mn) => u.mn == mn
  }

  function Drop(file: seq<Vote>, c: Cut): seq<Vote> {
    if file == [] then []
    else (if Hit(file[0], c) then [] else [file[0]]) + Drop(file[1..], c)
  }

  predicate IsOld(u: Vote, v: Vote) {
    u.mn == v.mn && u.signal == v.signal && u.created < v.created
  }

  function AddVote(file: seq<Vote>, v: Vote): seq<Vote> {
    if HasVote(file, v) then file else Drop([v] + file, OlderThan(v))
  }

  datatype Outcome =
    | Accepted | Known | UnknownMasternode | NoSignal | BadSignal | Obsolete | Outranked | TooOften | NotAccepted

  /** ProcessVote; `now` is the time if rate checks are enabled. */
  function Process(o: Votes, w: World, v: Vote, now: Option<int>): (Votes, Outcome) {
    if HasVote(o.file, v) then (o, Known)
    else if v.mn !in w.known then (o, UnknownMasternode)
    else if v.signal == SIGNAL_NONE then (o.(records := o.records[v.mn := RecordOf(o.records, v.mn)]), NoSignal)
    else if v.signal > MAX_SUPPORTED_VOTE_SIGNAL then (o.(records := o.records[v.mn := RecordOf(o.records, v.mn)]),
      BadSignal)
    else
      var i := InstanceOf(o.records, v.mn, v.signal);
      var current := if i.Some? then i.value else NEW_INSTANCE;
      var touched := o.(records := Put(o.records, v.mn, v.signal, current));
      if v.created < current.created then (touched, Obsolete)
      else if v.created == current.created && v.outcome < current.outcome then (touched, Outranked)
      else if now.Some? && now.value - current.time < GOVERNANCE_UPDATE_MIN then (touched, TooOften)
      else if !w.accepts(v) then (touched, NotAccepted)
      else
        var time := if now.Some? then now.value else current.time;
        (Votes(Put(o.records, v.mn, v.signal, Instance(v.outcome, time, v.created)), AddVote(o.file, v)), Accepted)
  }

  // ----- The simple form: the highest ranking vote -----

  predicate Counts(w: World, v: Vote, mn: Masternode, signal: int) {
    v.mn == mn && v.signal == signal && mn in w.known && Supported(signal)
  }

  /** The highest rank among the accepted votes and the rank everyone starts with. */
  function Best(w: World, vs: seq<Vote>, mn: Masternode, signal: int): (int, int) {
    if vs == [] then (0, OUTCOME_NONE)
    else
      var b, v := Best(w, vs[..|vs| - 1], mn, signal), vs[|vs| - 1];
      if Counts(w, v, mn, signal) && w.accepts(v) && AtMost(b, v.Rank()) then v.Rank() else b
  }

  ghost predicate Touched(w: World, vs: seq<Vote>, mn: Masternode, signal: int) {
    exists v :: v in vs && Counts(w, v, mn, signal)
  }

  /** Every accepted vote ranks at most as high as the best, which is one of them or the start. */
  lemma {:induction false} BestIsMax(w: World, vs: seq<Vote>, mn: Masternode, signal: int)
    ensures AtMost((0, OUTCOME_NONE), Best(w, vs, mn, signal))
    ensures forall v :: v in vs && Counts(w, v, mn, signal) && w.accepts(v) ==>
      AtMost(v.Rank(), Best(w, vs, mn, signal))
    ensures Best(w, vs, mn, signal) == (0, OUTCOME_NONE) ||
      exists v :: v in vs && Counts(w, v, mn, signal) && w.accepts(v) && v.Rank() == Best(w, vs, mn, signal)
    decreases |vs|
  {
    if vs != [] {
      var n := |vs| - 1;
      BestIsMax(w, vs[..n], mn, signal);
      assert vs == vs[..n] + [vs[n]];
    }
  }

  /** The best rank depends on which votes there are, not on their order or number. */
  lemma BestOfSame(w: World, vs: seq<Vote>, us: seq<Vote>, mn: Masternode, signal: int)
    requires forall v :: v in vs <==> v in us
    ensures Best(w, vs, mn, signal) == Best(w, us, mn, signal)
  {
    BestIsMax(w, vs, mn, signal);
    BestIsMax(w, us, mn, signal);
  }

  function Run(o: Votes, w: World, vs: seq<Vote>): Votes {
    if vs == [] then o else Process(Run(o, w, vs[..|vs| - 1]), w, vs[|vs| - 1], None).0
  }

  const EMPTY: Votes := Votes(map[], [])

  /** The record is the best rank of the votes seen. */
  ghost predicate RecordRight(r: Records, w: World, vs: seq<Vote>) {
    forall mn, signal :: InstanceOf(r, mn, signal) == Expected(w, vs, mn, signal)
  }

  ghost function Expected(w: World, vs: seq<Vote>, mn: Masternode, signal: int): Option<Instance> {
    if Touched(w, vs, mn, signal) then
      var b := Best(w, vs, mn, signal);
      Some(Instance(b.1, 0, b.0))
    else None
  }

  /** A vote that may be in the file: accepted, with the timestamp recorded for its masternode and signal. */
  ghost predicate Top(w: World, vs: seq<Vote>, u: Vote) {
    && u in vs && Counts(w, u, u.mn, u.signal) && w.accepts(u)
    && u.created == Best(w, vs, u.mn, u.signal).0 && AtMost((0, OUTCOME_NONE), u.Rank())
  }

  /** A vote that has to be in the file: one with the best rank. */
  ghost predicate Winner(w: World, vs: seq<Vote>, u: Vote) {
    u in vs && Counts(w, u, u.mn, u.signal) && w.accepts(u) && u.Rank() == Best(w, vs, u.mn, u.signal)
  }

  ghost predicate FileRight(file: seq<Vote>, w: World, vs: seq<Vote>) {
    && (forall u :: u in file ==> Top(w, vs, u))
    && (forall u :: Winner(w, vs, u) ==> HasVote(file, u))
    && NoRepeats(file)
  }

  ghost predicate NoRepeats(file: seq<Vote>) {
    forall i, j :: 0 <= i < j < |file| ==> file[i].Hash() != file[j].Hash()
  }

  lemma BestNext(w: World, vs: seq<Vote>, v: Vote, mn: Masternode, signal: int)
    ensures var b := Best(w, vs, mn, signal);
      Best(w, vs + [v], mn, signal) ==
        if Counts(w, v, mn, signal) && w.accepts(v) && AtMost(b, v.Rank()) then v.Rank() else b
    ensures Touched(w, vs + [v], mn, signal) <==> Touched(w, vs, mn, signal) || Counts(w, v, mn, signal)
  {
    assert (vs + [v])[..|vs|] == vs;
    if Counts(w, v, mn, signal) { assert v in vs + [v]; }
  }

  lemma UntouchedBest(w: World, vs: seq<Vote>, mn: Masternode, signal: int)
    requires !Touched(w, vs, mn, signal)
    ensures Best(w, vs, mn, signal) == (0, OUTCOME_NONE)
  {
    BestIsMax(w, vs, mn, signal);
  }

  lemma PutAt(r: Records, mn: Masternode, signal: int, i: Instance, mn': Masternode, signal': int)
    ensures InstanceOf(Put(r, mn, signal, i), mn', signal') ==
      if mn' == mn && signal' == signal then Some(i) else InstanceOf(r, mn', signal')
    ensures InstanceOf(r[mn := RecordOf(r, mn)], mn', signal') == InstanceOf(r, mn', signal')
  {
  }

  /** The record and the outcome of a vote, from the best rank before it. */
  lemma ProcessRecord(o: Votes, w: World, vs: seq<Vote>, v: Vote, mn: Masternode, signal: int)
    requires RecordRight(o.records, w, vs) && FileRight(o.file, w, vs)
    ensures InstanceOf(Process(o, w, v, None).0.records, mn, signal) == Expected(w, vs + [v], mn, signal)
    ensures Process(o, w, v, None).1 == Accepted <==>
      && !HasVote(o.file, v) && Counts(w, v, v.mn, v.signal) && w.accepts(v)
      && AtMost(Best(w, vs, v.mn, v.signal), v.Rank())
  {
    BestNext(w, vs, v, mn, signal);
    assert InstanceOf(o.records, mn, signal) == Expected(w, vs, mn, signal);
    assert InstanceOf(o.records, v.mn, v.signal) == Expected(w, vs, v.mn, v.signal);
    if !Touched(w, vs, v.mn, v.signal) { UntouchedBest(w, vs, v.mn, v.signal); }
    if HasVote(o.file, v) {
      KnownVote(o.file, w, vs, v);
    } else {
      var i := InstanceOf(o.records, v.mn, v.signal);
      var current := if i.Some? then i.value else NEW_INSTANCE;
      assert current.Rank() == Best(w, vs, v.mn, v.signal) && current.time == 0;
      PutAt(o.records, v.mn, v.signal, current, mn, signal);
      PutAt(o.records, v.mn, v.signal, Instance(v.outcome, 0, v.created), mn, signal);
    }
  }

  /** A vote already in the file changes nothing. */
  lemma KnownVote(file: seq<Vote>, w: World, vs: seq<Vote>, v: Vote)
    requires FileRight(file, w, vs) && HasVote(file, v)
    ensures Counts(w, v, v.mn, v.signal) && Touched(w, vs, v.mn, v.signal)
    ensures AtMost(v.Rank(), Best(w, vs, v.mn, v.signal))
  {
    var k :| 0 <= k < |file| && file[k].Hash() == v.Hash();
    var u := file[k];
    assert Top(w, vs, u);
    BestIsMax(w, vs, v.mn, v.signal);
  }

  lemma {:induction false} DropKeeps(file: seq<Vote>, c: Cut)
    ensures forall u :: u in Drop(file, c) <==> u in file && !Hit(u, c)
    ensures NoRepeats(file) ==> NoRepeats(Drop(file, c))
  {
    if file != [] {
      var rest := file[1..];
      DropKeeps(rest, c);
      assert file == [file[0]] + rest;
      if NoRepeats(file) {
        assert NoRepeats(rest) by {
          forall i, j | 0 <= i < j < |rest| ensures rest[i].Hash() != rest[j].Hash() {
            assert file[i + 1].Hash() != file[j + 1].Hash();
          }
        }
        forall u | u in rest ensures u.Hash() != file[0].Hash() {
          var i :| 0 <= i < |rest| && rest[i] == u;
          assert file[i + 1] == u;
        }
        var d := Drop(rest, c);
        assert forall i :: 0 <= i < |d| ==> d[i] in rest;
      }
    }
  }

  lemma HasIn(file: seq<Vote>, v: Vote)
    ensures HasVote(file, v) <==> exists u :: u in file && u.Hash() == v.Hash()
  {
    if HasVote(file, v) {
      var i :| 0 <= i < |file| && file[i].Hash() == v.Hash();
      assert file[i] in file;
    }
  }

  /** What an accepted vote makes of the file. */
  lemma AddVoteFile(file: seq<Vote>, v: Vote)
    requires !HasVote(file, v) && NoRepeats(file)
    ensures NoRepeats(AddVote(file, v))
    ensures forall u :: u in AddVote(file, v) <==> u == v || (u in file && !IsOld(u, v))
  {
    var all := [v] + file;
    assert NoRepeats(all) by {
      forall i, j | 0 <= i < j < |all| ensures all[i].Hash() != all[j].Hash() {
        assert all[j] == file[j - 1];
        if i > 0 { assert all[i] == file[i - 1]; }
      }
    }
    DropKeeps(all, OlderThan(v));
  }

  /** Being on top, and winning, after one more vote. */
  lemma TopNext(w: World, vs: seq<Vote>, v: Vote, u: Vote)
    ensures var raised := Counts(w, v, u.mn, u.signal) && w.accepts(v) && AtMost(Best(w, vs, u.mn, u.signal), v.Rank());
      && (Top(w, vs, u) && !(raised && IsOld(u, v)) ==> Top(w, vs + [v], u))
      && (raised && u == v ==> Top(w, vs + [v], u))
      && (Winner(w, vs + [v], u) && u in vs && u.Hash() != v.Hash() ==> Winner(w, vs, u) && !(raised && IsOld(u, v)))
      && (Winner(w, vs + [v], u) && u !in vs ==> u == v && raised)
  {
    BestNext(w, vs, v, u.mn, u.signal);
    BestIsMax(w, vs, u.mn, u.signal);
  }

  /** A winner after one more vote that was accepted is in the file. */
  lemma WinnerKept(file: seq<Vote>, w: World, vs: seq<Vote>, v: Vote, u: Vote)
    requires FileRight(file, w, vs) && !HasVote(file, v) && Winner(w, vs + [v], u)
    requires Counts(w, v, v.mn, v.signal) && w.accepts(v) && AtMost(Best(w, vs, v.mn, v.signal), v.Rank())
    ensures HasVote(AddVote(file, v), u)
  {
    AddVoteFile(file, v);
    TopNext(w, vs, v, u);
    HasIn(AddVote(file, v), u);
    if u.Hash() == v.Hash() {
      assert v in AddVote(file, v);
    } else {
      HasIn(file, u);
      var k :| k in file && k.Hash() == u.Hash();
      assert k in AddVote(file, v);
    }
  }

  /** A winner after one more vote that was not accepted was one before, or its hash is in the file. */
  lemma WinnerStays(file: seq<Vote>, w: World, vs: seq<Vote>, v: Vote, u: Vote)
    requires FileRight(file, w, vs) && Winner(w, vs + [v], u)
    requires HasVote(file, v) ||
      !(Counts(w, v, v.mn, v.signal) && w.accepts(v) && AtMost(Best(w, vs, v.mn, v.signal), v.Rank()))
    ensures HasVote(file, u)
  {
    TopNext(w, vs, v, u);
    BestNext(w, vs, v, u.mn, u.signal);
    if HasVote(file, v) { KnownVote(file, w, vs, v); }
    if u in vs {
      assert Winner(w, vs, u);
    }
  }

  /** The file after a vote. */
  lemma ProcessFile(o: Votes, w: World, vs: seq<Vote>, v: Vote)
    requires RecordRight(o.records, w, vs) && FileRight(o.file, w, vs)
    ensures FileRight(Process(o, w, v, None).0.file, w, vs + [v])
  {
    var (o', outcome) := Process(o, w, v, None);
    ProcessRecord(o, w, vs, v, v.mn, v.signal);
    if outcome == Accepted {
      assert o'.file == AddVote(o.file, v);
      AddVoteFile(o.file, v);
      forall u | u in o'.file ensures Top(w, vs + [v], u) { TopNext(w, vs, v, u); }
      forall u | Winner(w, vs + [v], u) ensures HasVote(o'.file, u) { WinnerKept(o.file, w, vs, v, u); }
    } else {
      assert o'.file == o.file;
      if HasVote(o.file, v) { KnownVote(o.file, w, vs, v); }
      forall u | u in o'.file ensures Top(w, vs + [v], u) {
        assert Top(w, vs, u);
        TopNext(w, vs, v, u);
      }
      forall u | Winner(w, vs + [v], u) ensures HasVote(o'.file, u) { WinnerStays(o.file, w, vs, v, u); }
    }
  }

  /** After every run of votes the record is the best rank of each masternode and signal, and the file fits it. */
  lemma {:induction false} RunRight(w: World, vs: seq<Vote>)
    ensures RecordRight(Run(EMPTY, w, vs).records, w, vs) && FileRight(Run(EMPTY, w, vs).file, w, vs)
    decreases |vs|
  {
    if vs == [] {
      assert forall mn, signal :: InstanceOf(EMPTY.records, mn, signal) == Expected(w, [], mn, signal);
    } else {
      var n := |vs| - 1;
      RunRight(w, vs[..n]);
      var o := Run(EMPTY, w, vs[..n]);
      assert vs == vs[..n] + [vs[n]];
      ProcessFile(o, w, vs[..n], vs[n]);
      forall mn, signal ensures InstanceOf(Run(EMPTY, w, vs).records, mn, signal) == Expected(w, vs, mn, signal) {
        ProcessRecord(o, w, vs[..n], vs[n], mn, signal);
      }
    }
  }

  ghost predicate SameVotes(vs: seq<Vote>, us: seq<Vote>) {
    forall v :: v in vs <==> v in us
  }

  /** The masternodes whose recorded outcome on a signal is the given one. */
  function Matching(r: Records, signal: int, outcome: int): set<Masternode> {
    set mn | mn in r && signal in r[mn] && r[mn][signal].outcome == outcome
  }

  /** Any two arrivals of the same votes, in any order and with any repetitions, give the same records and tallies. */
  lemma VotesConverge(w: World, vs: seq<Vote>, us: seq<Vote>)
    requires SameVotes(vs, us)
    ensures var r, q := Run(EMPTY, w, vs).records, Run(EMPTY, w, us).records;
      && (forall mn, signal :: InstanceOf(r, mn, signal) == InstanceOf(q, mn, signal))
      && (forall signal, outcome :: Matching(r, signal, outcome) == Matching(q, signal, outcome))
  {
    var r, q := Run(EMPTY, w, vs).records, Run(EMPTY, w, us).records;
    RunRight(w, vs);
    RunRight(w, us);
    forall mn, signal ensures InstanceOf(r, mn, signal) == InstanceOf(q, mn, signal) {
      assert Expected(w, vs, mn, signal) == Expected(w, us, mn, signal) by {
        BestOfSame(w, vs, us, mn, signal);
      }
    }
    forall signal, outcome ensures Matching(r, signal, outcome) == Matching(q, signal, outcome) {
      forall mn ensures mn in Matching(r, signal, outcome) <==> mn in Matching(q, signal, outcome) {
        assert InstanceOf(r, mn, signal) == InstanceOf(q, mn, signal);
      }
    }
  }

  // ----- The vote file does depend on the order -----

  ghost predicate SameFile(w: World, vs: seq<Vote>, us: seq<Vote>) {
    forall v :: HasVote(Run(EMPTY, w, vs).file, v) <==> HasVote(Run(EMPTY, w, us).file, v)
  }

  /** No masternode has two accepted votes with its last timestamp on a signal and different outcomes. */
  ghost predicate OneTop(w: World, vs: seq<Vote>) {
    forall u, v :: Top(w, vs, u) && Top(w, vs, v) && u.mn == v.mn && u.signal == v.signal ==> u.outcome == v.outcome
  }

  lemma {:induction false} BestGrows(w: World, vs: seq<Vote>, us: seq<Vote>, mn: Masternode, signal: int)
    ensures AtMost(Best(w, vs, mn, signal), Best(w, vs + us, mn, signal))
    decreases |us|
  {
    if us == [] {
      assert vs + us == vs;
    } else {
      var n := |us| - 1;
      BestGrows(w, vs, us[..n], mn, signal);
      assert vs + us == (vs + us[..n]) + [us[n]];
      BestNext(w, vs + us[..n], us[n], mn, signal);
    }
  }

  lemma RunNext(w: World, vs: seq<Vote>, v: Vote)
    ensures Run(EMPTY, w, vs + [v]) == Process(Run(EMPTY, w, vs), w, v, None).0
  {
    assert (vs + [v])[..|vs|] == vs;
  }

  /** What one vote does to the file. */
  lemma RunFileNext(w: World, vs: seq<Vote>, v: Vote)
    ensures var file, file' := Run(EMPTY, w, vs).file, Run(EMPTY, w, vs + [v]).file;
      file' == file ||
      (Best(w, vs + [v], v.mn, v.signal) == v.Rank() && AtMost(Best(w, vs, v.mn, v.signal), v.Rank()) &&
       forall u :: u in file' <==> u == v || (u in file && !IsOld(u, v)))
  {
    RunNext(w, vs, v);
    RunRight(w, vs);
    var o := Run(EMPTY, w, vs);
    ProcessRecord(o, w, vs, v, v.mn, v.signal);
    BestNext(w, vs, v, v.mn, v.signal);
    if Process(o, w, v, None).1 == Accepted { AddVoteFile(o.file, v); }
  }

  /** A vote stays in the file while its timestamp is the last one. */
  lemma {:induction false} KeptIn(w: World, vs: seq<Vote>, us: seq<Vote>, v: Vote)
    requires HasVote(Run(EMPTY, w, vs).file, v)
    requires v.created == Best(w, vs + us, v.mn, v.signal).0 == Best(w, vs, v.mn, v.signal).0
    ensures HasVote(Run(EMPTY, w, vs + us).file, v)
    decreases |us|
  {
    if us == [] {
      assert vs + us == vs;
    } else {
      var n := |us| - 1;
      var ps := vs + us[..n];
      assert vs + us == ps + [us[n]];
      BestGrows(w, vs, us[..n], v.mn, v.signal);
      BestGrows(w, ps, [us[n]], v.mn, v.signal);
      KeptIn(w, vs, us[..n], v);
      RunFileNext(w, ps, us[n]);
      var file, file' := Run(EMPTY, w, ps).file, Run(EMPTY, w, ps + [us[n]]).file;
      HasIn(file, v);
      HasIn(file', v);
      var k :| k in file && k.Hash() == v.Hash();
      assert k in file';
    }
  }

  /** A vote that every arrival of finds outranked is not in the file. */
  lemma {:induction false} NeverIn(w: World, vs: seq<Vote>, us: seq<Vote>, v: Vote)
    requires !HasVote(Run(EMPTY, w, vs).file, v)
    requires forall u :: u in us && u.Hash() == v.Hash() ==> !AtMost(Best(w, vs, v.mn, v.signal), v.Rank())
    ensures !HasVote(Run(EMPTY, w, vs + us).file, v)
    decreases |us|
  {
    if us == [] {
      assert vs + us == vs;
    } else {
      var n := |us| - 1;
      var ps := vs + us[..n];
      assert vs + us == ps + [us[n]];
      NeverIn(w, vs, us[..n], v);
      BestGrows(w, vs, us[..n], v.mn, v.signal);
      RunFileNext(w, ps, us[n]);
      HasIn(Run(EMPTY, w, ps).file, v);
      HasIn(Run(EMPTY, w, ps + [us[n]]).file, v);
    }
  }

  /** The votes with, or without, the hash of a given one. */
  function Pick(vs: seq<Vote>, v: Vote, same: bool): seq<Vote> {
    if vs == [] then []
    else (if (vs[0].Hash() == v.Hash()) == same then [vs[0]] else []) + Pick(vs[1..], v, same)
  }

  lemma {:induction false} PickHas(vs: seq<Vote>, v: Vote, same: bool)
    ensures forall u :: u in Pick(vs, v, same) <==> u in vs && (u.Hash() == v.Hash()) == same
  {
    if vs != [] {
      PickHas(vs[1..], v, same);
      assert vs == [vs[0]] + vs[1..];
    }
  }

  /** A top vote that arrives before all others stays in the file. */
  lemma FirstKept(w: World, same: seq<Vote>, rest: seq<Vote>, v: Vote)
    requires Top(w, same + rest, v) && v in same && forall u :: u in same ==> u.Hash() == v.Hash()
    ensures HasVote(Run(EMPTY, w, same + rest).file, v)
  {
    BestIsMax(w, same, v.mn, v.signal);
    RunRight(w, same);
    assert Winner(w, same, v);
    KeptIn(w, same, rest, v);
  }

  /** A vote that arrives after one that outranks it never gets into the file. */
  lemma LastOut(w: World, rest: seq<Vote>, same: seq<Vote>, v: Vote, u: Vote)
    requires u in rest && Counts(w, u, v.mn, v.signal) && w.accepts(u) && !AtMost(u.Rank(), v.Rank())
    requires forall x :: x in rest ==> x.Hash() != v.Hash()
    ensures !HasVote(Run(EMPTY, w, rest + same).file, v)
  {
    BestIsMax(w, rest, v.mn, v.signal);
    assert [] + rest == rest;
    NeverIn(w, [], rest, v);
    NeverIn(w, rest, same, v);
  }

  /** Two votes on top with different outcomes: first, the lower one stays in the file; last, it never gets there. */
  lemma OrderMatters(w: World, vs: seq<Vote>, v: Vote, u: Vote)
    requires Top(w, vs, u) && Top(w, vs, v) && u.mn == v.mn && u.signal == v.signal && v.outcome < u.outcome
    ensures var same, rest := Pick(vs, v, true), Pick(vs, v, false);
      && SameVotes(vs, same + rest) && SameVotes(vs, rest + same)
      && HasVote(Run(EMPTY, w, same + rest).file, v) && !HasVote(Run(EMPTY, w, rest + same).file, v)
  {
    var same, rest := Pick(vs, v, true), Pick(vs, v, false);
    PickHas(vs, v, true);
    PickHas(vs, v, false);
    BestOfSame(w, vs, same + rest, v.mn, v.signal);
    FirstKept(w, same, rest, v);
    LastOut(w, rest, same, v, u);
  }

  /** Where no two votes are on top, the file holds exactly the winners. */
  lemma FileIsWinners(w: World, vs: seq<Vote>, us: seq<Vote>, x: Vote)
    requires OneTop(w, vs) && SameVotes(vs, us) && HasVote(Run(EMPTY, w, vs).file, x)
    ensures HasVote(Run(EMPTY, w, us).file, x)
  {
    RunRight(w, vs);
    RunRight(w, us);
    HasIn(Run(EMPTY, w, vs).file, x);
    var u :| u in Run(EMPTY, w, vs).file && u.Hash() == x.Hash();
    assert Top(w, vs, u);
    BestIsMax(w, vs, u.mn, u.signal);
    BestOfSame(w, vs, us, u.mn, u.signal);
    if u.Rank() != Best(w, vs, u.mn, u.signal) {
      var v :| v in vs && Counts(w, v, u.mn, u.signal) && w.accepts(v) && v.Rank() == Best(w, vs, u.mn, u.signal);
      assert Top(w, vs, v);
    }
    assert Winner(w, us, u);
  }

  lemma OneTopSame(w: World, vs: seq<Vote>, us: seq<Vote>)
    requires OneTop(w, vs) && SameVotes(vs, us)
    ensures OneTop(w, us)
  {
    forall u, v | Top(w, us, u) && Top(w, us, v) && u.mn == v.mn && u.signal == v.signal
      ensures u.outcome == v.outcome
    {
      BestOfSame(w, vs, us, u.mn, u.signal);
      assert Top(w, vs, u) && Top(w, vs, v);
    }
  }

  /** Unlike the tallies, the vote file is the same for every order of arrival exactly if no two votes are on top. */
  lemma FilesConverge(w: World, vs: seq<Vote>)
    ensures (forall us :: SameVotes(vs, us) ==> SameFile(w, vs, us)) <==> OneTop(w, vs)
  {
    if OneTop(w, vs) {
      forall us | SameVotes(vs, us) ensures SameFile(w, vs, us) {
        OneTopSame(w, vs, us);
        forall x ensures HasVote(Run(EMPTY, w, vs).file, x) <==> HasVote(Run(EMPTY, w, us).file, x) {
          if HasVote(Run(EMPTY, w, vs).file, x) { FileIsWinners(w, vs, us, x); }
          if HasVote(Run(EMPTY, w, us).file, x) { FileIsWinners(w, us, vs, x); }
        }
      }
    } else {
      var u, v :| Top(w, vs, u) && Top(w, vs, v) && u.mn == v.mn && u.signal == v.signal && u.outcome != v.outcome;
      var lo, hi := if u.outcome < v.outcome then u else v, if u.outcome < v.outcome then v else u;
      OrderMatters(w, vs, lo, hi);
      var first, last := Pick(vs, lo, true) + Pick(vs, lo, false), Pick(vs, lo, false) + Pick(vs, lo, true);
      assert SameVotes(vs, first) && SameVotes(vs, last);
      assert !(SameFile(w, vs, first) && SameFile(w, vs, last));
    }
  }

  // ----- Every run, with or without rate checks, with masternodes coming and going -----

  /** Each vote in the file carries the timestamp recorded for its masternode and signal. */
  ghost predicate Fits(o: Votes) {
    && NoRepeats(o.file)
    && forall u :: u in o.file ==> RecordedAt(o.records, u)
  }

  ghost predicate RecordedAt(r: Records, u: Vote) {
    InstanceOf(r, u.mn, u.signal).Some? && InstanceOf(r, u.mn, u.signal).value.created == u.created
  }

  lemma ProcessFits(o: Votes, w: World, v: Vote, now: Option<int>)
    requires Fits(o)
    ensures Fits(Process(o, w, v, now).0)
  {
    var (o', outcome) := Process(o, w, v, now);
    if outcome == Accepted { AddVoteFile(o.file, v); }
    forall u | u in o'.file ensures RecordedAt(o'.records, u) {
      assert u != v ==> u in o.file && RecordedAt(o.records, u);
      var i := InstanceOf(o.records, v.mn, v.signal);
      var current := if i.Some? then i.value else NEW_INSTANCE;
      PutAt(o.records, v.mn, v.signal, current, u.mn, u.signal);
      var time := if now.Some? then now.value else current.time;
      PutAt(o.records, v.mn, v.signal, Instance(v.outcome, time, v.created), u.mn, u.signal);
    }
  }

  /** ClearMasternodeVotes: the records of unknown masternodes go, and their votes with them. */
  ghost predicate Cleared(o: Votes, o': Votes, known: set<Masternode>) {
    && o'.records == (map mn | mn in o.records && mn in known :: o.records[mn])
    && (forall u :: u in o'.file <==> u in o.file && !(u.mn in o.records && u.mn !in known))
    && (NoRepeats(o.file) ==> NoRepeats(o'.file))
  }

  lemma ClearFits(o: Votes, o': Votes, known: set<Masternode>)
    requires Fits(o) && Cleared(o, o', known)
    ensures Fits(o') && forall u :: u in o'.file ==> u.mn in known
  {
    forall u | u in o'.file ensures RecordedAt(o'.records, u) && u.mn in known {
      assert RecordedAt(o.records, u);
    }
  }
}
