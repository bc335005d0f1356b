/**
 * InstantSend vote locking, as a protocol over values.
 *
 * Masternodes vote to lock the outpoints a transaction spends. A node records votes per candidate
 * transaction and outpoint; a candidate whose outpoints all have enough votes is locked. Conflicting
 * votes of one masternode mark both candidates attacked, which is what makes two conflicting locks
 * impossible whenever two sets of required voters must overlap.
 */
module InstantSend {
  import opened Common

  type TxHash = nat
  type OutPoint = nat
  type Masternode = nat

  datatype Tx = Tx(hash: TxHash, inputs: seq<OutPoint>) {
    function Spends(): set<OutPoint> { set o | o in inputs }
  }

  datatype Vote = Vote(txHash: TxHash, outpoint: OutPoint, masternode: Masternode, quorumModifier: nat)

  /** Thresholds, and the masternodes whose votes are valid for each outpoint. */
  datatype Params = Params(required: nat, total: nat, quorum: map<OutPoint, set<Masternode>>) {
    predicate IsValid(v: Vote) {
      v.outpoint in quorum && v.masternode in quorum[v.outpoint]
    }

    /** Any two sets of required voters for the same outpoint have a member in common. */
    predicate Overlapping() {
      required > 0 && forall o :: o in quorum ==> 2 * required > |quorum[o]|
    }

    /** At most `total` masternodes rank high enough to vote on an outpoint. */
    predicate Ranked() {
      forall o :: o in quorum ==> |quorum[o]| <= total
    }
  }

  /** The votes for one outpoint of one candidate. */
  datatype OutPointLock = OutPointLock(votes: map<Masternode, Vote>, attacked: bool) {
    function CountVotes(): nat { if attacked then 0 else |votes| }
    predicate IsReady(required: nat) { !attacked && CountVotes() >= required }
  }

  /** A candidate; the request is missing while only votes have arrived. A dropped one is marked expired. */
  datatype Candidate = Candidate(request: Option<Tx>, locks: map<OutPoint, OutPointLock>, expired: bool) {
    predicate HasVoted(o: OutPoint, m: Masternode) { o in locks && m in locks[o].votes }

    predicate IsAttacked(o: OutPoint) { o in locks && locks[o].attacked }

    predicate AllReady(required: nat) {
      locks != map[] && forall o :: o in locks ==> locks[o].IsReady(required)
    }

    function MarkAttacked(o: OutPoint): Candidate {
      if o in locks then this.(locks := locks[o := locks[o].(attacked := true)]) else this
    }

    /** A masternode's first vote for an outpoint is kept; later ones are refused. */
    predicate Accepts(v: Vote) { v.outpoint in locks && v.masternode !in locks[v.outpoint].votes }

    function AddVote(v: Vote): Candidate {
      if !Accepts(v) then this
      else this.(locks := locks[v.outpoint := locks[v.outpoint].(votes := locks[v.outpoint].votes[v.masternode := v])])
    }

    function AddOutPointLocks(outs: set<OutPoint>): Candidate {
      this.(locks := map o | o in outs + locks.Keys :: if o in locks then locks[o] else OutPointLock(map[], false))
    }
  }

  datatype State = State(
    candidates: map<TxHash, Candidate>,
    voted: map<OutPoint, set<TxHash>>,
    locked: map<OutPoint, TxHash>,
    orphans: set<Vote>)

  const INITIAL := State(map[], map[], map[], {})

  // ---------------------------------------------------------------- operations

  /** The other candidates that record a vote of the same masternode for the same outpoint. */
  function Rivals(s: State, v: Vote): set<TxHash> {
    if v.outpoint !in s.voted then {}
    else set h | h in s.voted[v.outpoint] && h != v.txHash && h in s.candidates
                 && s.candidates[h].HasVoted(v.outpoint, v.masternode)
  }

  function MarkAll(cs: map<TxHash, Candidate>, hs: set<TxHash>, o: OutPoint): map<TxHash, Candidate> {
    map h | h in cs :: if h in hs then cs[h].MarkAttacked(o) else cs[h]
  }

  /** UpdateVotedOutpoints: the current candidate and all its rivals are marked attacked. */
  function UpdateVoted(s: State, v: Vote): State {
    var rivals := Rivals(s, v);
    s.(candidates := if rivals == {} then s.candidates else MarkAll(s.candidates, rivals + {v.txHash}, v.outpoint),
       voted := s.voted[v.outpoint := (if v.outpoint in s.voted then s.voted[v.outpoint] else {}) + {v.txHash}])
  }

  predicate HasRequest(s: State, h: TxHash) {
    h in s.candidates && s.candidates[h].request.Some?
  }

  /** The candidate can take the vote now: its request is known and it has not timed out. */
  predicate Open(s: State, late: set<TxHash>, h: TxHash) {
    HasRequest(s, h) && h !in late
  }

  /** Records a vote for an open candidate. */
  function RecordVote(s: State, v: Vote): State
    requires HasRequest(s, v.txHash)
  {
    var t := UpdateVoted(s, v);
    t.(candidates := t.candidates[v.txHash := t.candidates[v.txHash].AddVote(v)])
  }

  /** CreateTxLockCandidate for a valid request; the flag is its return value. */
  function CreateCandidate(s: State, tx: Tx, late: set<TxHash>): (State, bool) {
    if tx.hash !in s.candidates then
      (s.(candidates := s.candidates[tx.hash := Candidate(Some(tx), map[], false).AddOutPointLocks(tx.Spends())]), true)
    else
      var c := s.candidates[tx.hash];
      if c.request.Some? then (s, true)
      else if tx.hash in late then (s.(candidates := s.candidates[tx.hash := c.(request := Some(tx))]), false)
      else (s.(candidates := s.candidates[tx.hash := c.(request := Some(tx)).AddOutPointLocks(tx.Spends())]), true)
  }

  /** ProcessOrphanTxLockVotes, visiting the waiting votes in the given order. */
  function Replay(s: State, order: seq<Vote>, late: set<TxHash>): State
    decreases |order|
  {
    if order == [] then s
    else
      var v := order[0];
      if !Open(s, late, v.txHash) then Replay(s, order[1..], late)
      else
        var taken := UpdateVoted(s, v).candidates[v.txHash].Accepts(v);
        var t := RecordVote(s, v);
        Replay(if taken then t.(orphans := t.orphans - {v}) else t, order[1..], late)
  }

  /** Every outpoint of the candidate is recorded as locked by it. */
  predicate IsLocked(s: State, h: TxHash) {
    && h in s.candidates && s.candidates[h].locks != map[]
    && forall o :: o in s.candidates[h].locks ==> o in s.locked && s.locked[o] == h
  }

  /** What ResolveConflicts and the caller see. */
  datatype Outcome = NotReady | AlreadyLocked | ConflictingLock(rival: TxHash) | Refused | Locked

  /** What a clean-up finds: whether candidates marked expired are due for removal, and which orphan votes timed out. */
  datatype Cleanup = Cleanup(removes: bool, lost: set<Vote>)

  /**
   * What the world outside decides in TryToFinalizeLockCandidate: whether locks are made and told at all, which
   * outpoints another transaction of the memory pool spends, the fate of the transaction and its inputs, and the
   * clean-up that follows a conflict.
   */
  datatype World = World(
    active: bool, enabled: bool, rivals: set<OutPoint>, inBlock: bool, allUnspent: bool, cleanup: Cleanup)

  function ExpiredOnes(cs: map<TxHash, Candidate>): set<TxHash> { set h | h in cs && cs[h].expired }

  /** All outpoints of some candidates. */
  function OutPointsOf(cs: map<TxHash, Candidate>, hs: set<TxHash>): set<OutPoint> {
    set h, o | h in hs && h in cs && o in cs[h].locks :: o
  }

  /** Candidates go, and with them whatever is recorded for their outpoints, for whomever it is recorded. */
  function Remove(s: State, hs: set<TxHash>): State {
    var outs := OutPointsOf(s.candidates, hs);
    s.(candidates := s.candidates - hs, voted := s.voted - outs, locked := s.locked - outs)
  }

  function CheckAndRemove(s: State, c: Cleanup): State {
    var t := if c.removes then Remove(s, ExpiredOnes(s.candidates)) else s;
    t.(orphans := t.orphans - c.lost)
  }

  /** A ready candidate meets a completed lock of a known rival: both are marked expired, and a clean-up follows. */
  function DropBoth(s: State, h: TxHash, rival: TxHash, c: Cleanup): State {
    if h !in s.candidates || rival !in s.candidates then s
    else CheckAndRemove(s.(candidates := Expire(Expire(s.candidates, h), rival)), c)
  }

  function Expire(cs: map<TxHash, Candidate>, h: TxHash): map<TxHash, Candidate>
    requires h in cs
  {
    cs[h := cs[h].(expired := true)]
  }

  /**
   * ResolveConflicts goes through the inputs in order: a lock of another transaction, or a rival in the pool,
   * stops it.
   */
  function Resolve(s: State, h: TxHash, inputs: seq<OutPoint>, w: World): Outcome {
    if inputs == [] then if w.inBlock || w.allUnspent then Locked else Refused
    else if inputs[0] in s.locked && s.locked[inputs[0]] != h then ConflictingLock(s.locked[inputs[0]])
    else if inputs[0] in w.rivals then Refused
    else Resolve(s, h, inputs[1..], w)
  }

  /** The inputs before i are neither locked by another transaction nor spent by a rival. */
  ghost predicate ClearTo(s: State, h: TxHash, inputs: seq<OutPoint>, w: World, i: nat) {
    i <= |inputs| &&
    forall k :: 0 <= k < i ==> !(inputs[k] in s.locked && s.locked[inputs[k]] != h) && inputs[k] !in w.rivals
  }

  /** The first input that is not clear is locked by the rival. */
  ghost predicate MeetsLock(s: State, h: TxHash, inputs: seq<OutPoint>, w: World, i: nat, rival: TxHash) {
    && i < |inputs| && ClearTo(s, h, inputs, w, i)
    && inputs[i] in s.locked && s.locked[inputs[i]] == rival != h
  }

  /** The conflict branch is taken exactly if the first input that is not clear is locked by another transaction. */
  lemma {:induction false} ResolveExact(s: State, h: TxHash, inputs: seq<OutPoint>, w: World)
    ensures forall rival :: Resolve(s, h, inputs, w) == ConflictingLock(rival) <==>
      exists i :: MeetsLock(s, h, inputs, w, i, rival)
    ensures Resolve(s, h, inputs, w) == Locked <==> ClearTo(s, h, inputs, w, |inputs|) && (w.inBlock || w.allUnspent)
  {
    if inputs != [] {
      var rest := inputs[1..];
      ResolveExact(s, h, rest, w);
      forall rival
        ensures Resolve(s, h, inputs, w) == ConflictingLock(rival) <==> exists i :: MeetsLock(s, h, inputs, w, i, rival)
      {
        if ClearTo(s, h, inputs, w, 1) {
          ResolveRest(s, h, inputs, w, rival);
        } else if Resolve(s, h, inputs, w) == ConflictingLock(rival) {
          assert MeetsLock(s, h, inputs, w, 0, rival);
        } else {
          forall i | MeetsLock(s, h, inputs, w, i, rival) ensures i == 0 { }
        }
      }
      if ClearTo(s, h, inputs, w, 1) { ClearRest(s, h, inputs, w, |inputs|); }
    }
  }

  lemma ClearRest(s: State, h: TxHash, inputs: seq<OutPoint>, w: World, i: nat)
    requires ClearTo(s, h, inputs, w, 1) && 1 <= i <= |inputs|
    ensures ClearTo(s, h, inputs, w, i) <==> ClearTo(s, h, inputs[1..], w, i - 1)
  {
    var rest := inputs[1..];
    forall k | 1 <= k < i ensures inputs[k] == rest[k - 1] { }
    forall k | 0 <= k < i - 1 ensures rest[k] == inputs[k + 1] { }
  }

  lemma ResolveRest(s: State, h: TxHash, inputs: seq<OutPoint>, w: World, rival: TxHash)
    requires ClearTo(s, h, inputs, w, 1)
    ensures (exists i :: MeetsLock(s, h, inputs, w, i, rival)) <==>
      exists i :: MeetsLock(s, h, inputs[1..], w, i, rival)
  {
    if i: nat :| MeetsLock(s, h, inputs[1..], w, i, rival) {
      ClearRest(s, h, inputs, w, i + 1);
      assert MeetsLock(s, h, inputs, w, i + 1, rival);
    }
    if i: nat :| MeetsLock(s, h, inputs, w, i, rival) {
      ClearRest(s, h, inputs, w, i);
      assert MeetsLock(s, h, inputs[1..], w, i - 1, rival);
    }
  }

  /** ResolveConflicts: the state it leaves, and what it found. */
  function ResolveConflicts(p: Params, s: State, h: TxHash, w: World): (State, Outcome)
    requires HasRequest(s, h)
  {
    if !s.candidates[h].AllReady(p.required) then (s, NotReady)
    else
      var out := Resolve(s, h, s.candidates[h].request.value.inputs, w);
      (if out.ConflictingLock? then DropBoth(s, h, out.rival, w.cleanup) else s, out)
  }

  function Finalize(p: Params, s: State, h: TxHash, w: World): (State, Outcome)
    requires HasRequest(s, h)
  {
    var c := s.candidates[h];
    if !w.active || !c.AllReady(p.required) then (s, NotReady)
    else if w.enabled && IsLocked(s, h) then (s, AlreadyLocked)
    else
      var (t, out) := ResolveConflicts(p, s, h, w);
      (if out == Locked then t.(locked := (map o | o in c.locks :: h) + t.locked) else t, out)
  }

  /** The messages a node reacts to, with everything it asks the outside world. */
  datatype Msg =
    | Request(tx: Tx, isValid: bool, late: set<TxHash>, order: seq<Vote>, world: World)
    | Ballot(vote: Vote, late: set<TxHash>, world: World)
    | Clean(cleanup: Cleanup)

  /** The waiting votes in some order, each once. */
  ghost predicate EachOnce(order: seq<Vote>, votes: set<Vote>) {
    && (forall v :: v in order <==> v in votes)
    && forall i, j :: 0 <= i < j < |order| ==> order[i] != order[j]
  }

  /** A request that gets as far as replaying waiting votes replays all of them. */
  ghost predicate Acceptable(p: Params, s: State, m: Msg) {
    match m
    case Request(tx, isValid, late, order, _) =>
      isValid && CreateCandidate(s, tx, late).1 ==> EachOnce(order, s.orphans)
    case Ballot(_, _, _) => true
    case Clean(_) => true
  }

  function Step(p: Params, s: State, m: Msg): (State, Outcome) {
    match m
    case Request(tx, isValid, late, order, w) =>
      if !isValid then (s, NotReady)
      else
        var (t, ok) := CreateCandidate(s, tx, late);
        if !ok then (t, NotReady)
        else
          var u := Replay(t, order, late);
          ReplayKeeps(t, order, late);
          Finalize(p, u, tx.hash, w)
    case Ballot(v, late, w) =>
      if !p.IsValid(v) then (s, NotReady)
      else if !HasRequest(s, v.txHash) then
        var empty := if v.txHash in s.candidates then s.candidates
                     else s.candidates[v.txHash := Candidate(None, map[], false)];
        (s.(candidates := empty, orphans := s.orphans + {v}), NotReady)
      else if v.txHash in late then (s, NotReady)
      else
        var taken := UpdateVoted(s, v).candidates[v.txHash].Accepts(v);
        var t := RecordVote(s, v);
        if !taken then (t, NotReady) else Finalize(p, t, v.txHash, w)
    case Clean(c) => (CheckAndRemove(s, c), NotReady)
  }

  // ---------------------------------------------------------------- what every step keeps

  /** Recording a vote keeps every candidate, its request and its outpoints. */
  lemma RecordKeeps(s: State, v: Vote)
    requires HasRequest(s, v.txHash)
    ensures var t := RecordVote(s, v);
      && t.candidates.Keys == s.candidates.Keys && t.locked == s.locked && t.orphans == s.orphans
      && forall h :: h in s.candidates ==>
           && t.candidates[h].request == s.candidates[h].request
           && t.candidates[h].locks.Keys == s.candidates[h].locks.Keys
           && t.candidates[h].expired == s.candidates[h].expired
  {
  }

  lemma {:induction false} ReplayKeeps(s: State, order: seq<Vote>, late: set<TxHash>)
    ensures var t := Replay(s, order, late);
      && t.candidates.Keys == s.candidates.Keys && t.locked == s.locked
      && forall h :: h in s.candidates ==> t.candidates[h].request == s.candidates[h].request
    decreases |order|
  {
    if order != [] {
      var v := order[0];
      if !Open(s, late, v.txHash) {
        ReplayKeeps(s, order[1..], late);
      } else {
        RecordKeeps(s, v);
        var taken := UpdateVoted(s, v).candidates[v.txHash].Accepts(v);
        var t := RecordVote(s, v);
        ReplayKeeps(if taken then t.(orphans := t.orphans - {v}) else t, order[1..], late);
      }
    }
  }

  /** A candidate's outpoints are exactly the inputs of its request, once the request is known; it is not expired. */
  predicate CandidateOk(h: TxHash, c: Candidate) {
    && !c.expired
    && match c.request
       case None => c.locks == map[]
       case Some(tx) => tx.hash == h && (c.locks.Keys == tx.Spends() || c.locks == map[])
  }

  ghost predicate WellFormed(cs: map<TxHash, Candidate>) {
    forall h :: h in cs ==> CandidateOk(h, cs[h])
  }

  /** Candidate h records a vote of masternode m for outpoint o. */
  predicate Voted(cs: map<TxHash, Candidate>, h: TxHash, o: OutPoint, m: Masternode) {
    h in cs && cs[h].HasVoted(o, m)
  }

  predicate Attacked(cs: map<TxHash, Candidate>, h: TxHash, o: OutPoint) {
    h in cs && cs[h].IsAttacked(o)
  }

  /** Recorded votes are valid and the voted index knows about them. */
  ghost predicate VotesIndexed(p: Params, cs: map<TxHash, Candidate>, voted: map<OutPoint, set<TxHash>>) {
    forall h, o, m :: Voted(cs, h, o, m) ==>
      o in p.quorum && m in p.quorum[o] && o in voted && h in voted[o]
  }

  /** A masternode recorded at one outpoint in two candidates has both attacked there. */
  ghost predicate Exclusive(cs: map<TxHash, Candidate>) {
    forall h, h', o, m ::
      h != h' && Voted(cs, h, o, m) && Voted(cs, h', o, m) ==> Attacked(cs, h, o) && Attacked(cs, h', o)
  }

  /** A completed lock was voted for by enough masternodes and covers all outpoints of its candidate. */
  ghost predicate LocksEarned(p: Params, cs: map<TxHash, Candidate>, locked: map<OutPoint, TxHash>) {
    forall o :: o in locked ==> Earned(p, cs, locked, locked[o], o)
  }

  ghost predicate Earned(p: Params, cs: map<TxHash, Candidate>, locked: map<OutPoint, TxHash>, h: TxHash, o: OutPoint) {
    && h in cs && cs[h].request.Some? && o in cs[h].locks
    && |cs[h].locks[o].votes| >= p.required
    && forall o' :: o' in cs[h].locks ==> o' in locked && locked[o'] == h
  }

  ghost predicate Inv(p: Params, s: State) {
    && WellFormed(s.candidates) && VotesIndexed(p, s.candidates, s.voted)
    && Exclusive(s.candidates) && LocksEarned(p, s.candidates, s.locked)
    && forall v :: v in s.orphans ==> p.IsValid(v)
  }

  /** How recording a vote changes who has voted: exactly the new voter is added, where it is accepted. */
  lemma RecordVoters(s: State, v: Vote, h: TxHash, o: OutPoint, m: Masternode)
    requires HasRequest(s, v.txHash)
    ensures Voted(RecordVote(s, v).candidates, h, o, m)
       <==> || Voted(s.candidates, h, o, m)
            || (h == v.txHash && o == v.outpoint && m == v.masternode && o in s.candidates[h].locks)
    ensures Attacked(s.candidates, h, o) ==> Attacked(RecordVote(s, v).candidates, h, o)
    ensures (o == v.outpoint && h in s.candidates && o in s.candidates[h].locks
             && Rivals(s, v) != {} && h in Rivals(s, v) + {v.txHash}) ==> Attacked(RecordVote(s, v).candidates, h, o)
  {
  }

  lemma RecordExclusive(p: Params, s: State, v: Vote)
    requires Inv(p, s) && HasRequest(s, v.txHash)
    ensures Exclusive(RecordVote(s, v).candidates)
  {
    var t := RecordVote(s, v);
    forall h, h', o, m | h != h' && Voted(t.candidates, h, o, m) && Voted(t.candidates, h', o, m)
      ensures Attacked(t.candidates, h, o) && Attacked(t.candidates, h', o)
    {
      RecordVoters(s, v, h, o, m);
      RecordVoters(s, v, h', o, m);
      if !Voted(s.candidates, h, o, m) {
        assert h' in Rivals(s, v);
      } else if !Voted(s.candidates, h', o, m) {
        assert h in Rivals(s, v);
      }
    }
  }

  /** Votes are never taken back, so a completed lock stays earned. */
  lemma RecordCounts(s: State, v: Vote, h: TxHash, o: OutPoint)
    requires HasRequest(s, v.txHash) && h in s.candidates && o in s.candidates[h].locks
    ensures var t := RecordVote(s, v);
      h in t.candidates && o in t.candidates[h].locks
      && |t.candidates[h].locks[o].votes| >= |s.candidates[h].locks[o].votes|
  {
    var votes := s.candidates[h].locks[o].votes;
    assert v.masternode !in votes ==> |votes[v.masternode := v]| == |votes| + 1;
  }

  lemma RecordInv(p: Params, s: State, v: Vote)
    requires Inv(p, s) && HasRequest(s, v.txHash) && p.IsValid(v)
    ensures Inv(p, RecordVote(s, v))
  {
    RecordKeeps(s, v);
    RecordExclusive(p, s, v);
    RecordIndexed(p, s, v);
    RecordEarned(p, s, v);
  }

  lemma RecordEarned(p: Params, s: State, v: Vote)
    requires Inv(p, s) && HasRequest(s, v.txHash) && p.IsValid(v)
    ensures LocksEarned(p, RecordVote(s, v).candidates, RecordVote(s, v).locked)
  {
    var t := RecordVote(s, v);
    RecordKeeps(s, v);
    forall o | o in t.locked
      ensures Earned(p, t.candidates, t.locked, t.locked[o], o)
    {
      RecordCounts(s, v, s.locked[o], o);
    }
  }

  lemma RecordIndexed(p: Params, s: State, v: Vote)
    requires VotesIndexed(p, s.candidates, s.voted) && HasRequest(s, v.txHash) && p.IsValid(v)
    ensures VotesIndexed(p, RecordVote(s, v).candidates, RecordVote(s, v).voted)
  {
    var t := RecordVote(s, v);
    forall h, o, m | Voted(t.candidates, h, o, m)
      ensures o in p.quorum && m in p.quorum[o] && o in t.voted && h in t.voted[o]
    {
      RecordVoters(s, v, h, o, m);
    }
  }

  lemma {:induction false} ReplayInv(p: Params, s: State, order: seq<Vote>, late: set<TxHash>)
    requires Inv(p, s) && forall v :: v in order ==> p.IsValid(v)
    ensures Inv(p, Replay(s, order, late))
    decreases |order|
  {
    if order != [] {
      var v := order[0];
      if !Open(s, late, v.txHash) {
        ReplayInv(p, s, order[1..], late);
      } else {
        RecordInv(p, s, v);
        var taken := UpdateVoted(s, v).candidates[v.txHash].Accepts(v);
        var t := RecordVote(s, v);
        ReplayInv(p, if taken then t.(orphans := t.orphans - {v}) else t, order[1..], late);
      }
    }
  }

  // ---------------------------------------------------------------- safety

  /** Two voter sets that are together larger than the quorum share a voter. */
  lemma Overlap(a: set<Masternode>, b: set<Masternode>, q: set<Masternode>)
    requires a <= q && b <= q && |a| + |b| > |q|
    ensures exists m :: m in a && m in b
  {
    assert a * b != {} by {
      if a * b == {} { SubsetSize(a + b, q); }
    }
    var m :| m in a * b;
  }

  /** A candidate ready to lock cannot share an outpoint with somebody else's completed lock. */
  lemma ReadyMeansUnlocked(p: Params, s: State, h: TxHash, o: OutPoint)
    requires Inv(p, s) && p.Overlapping()
    requires HasRequest(s, h) && s.candidates[h].AllReady(p.required)
    requires o in s.candidates[h].locks && o in s.locked
    ensures s.locked[o] == h
  {
    var g := s.locked[o];
    if g != h {
      var ours, theirs := s.candidates[h].locks[o].votes.Keys, s.candidates[g].locks[o].votes.Keys;
      assert s.candidates[h].locks[o].IsReady(p.required);
      assert |ours| >= p.required && |theirs| >= p.required;
      assert forall m :: m in ours ==> Voted(s.candidates, h, o, m);
      assert forall m :: m in theirs ==> Voted(s.candidates, g, o, m);
      var m0 :| m0 in ours;
      assert Voted(s.candidates, h, o, m0);
      Overlap(ours, theirs, p.quorum[o]);
      assert false;
    }
  }

  /** Finalizing keeps the invariant and never meets a conflicting completed lock. */
  lemma FinalizeInv(p: Params, s: State, h: TxHash, w: World)
    requires Inv(p, s) && p.Overlapping() && HasRequest(s, h)
    ensures var (t, out) := Finalize(p, s, h, w);
      && Inv(p, t) && !out.ConflictingLock? && t.candidates == s.candidates
      && (forall o :: o in s.locked ==> o in t.locked && t.locked[o] == s.locked[o])
      && (out == Locked ==> IsLocked(t, h))
  {
    var c := s.candidates[h];
    if c.AllReady(p.required) {
      forall o | o in c.locks && o in s.locked ensures s.locked[o] == h {
        ReadyMeansUnlocked(p, s, h, o);
      }
      NothingMet(s, h, w);
      LockingEarns(p, s.candidates, s.locked, h);
    }
  }

  /** No input of the candidate is locked by another transaction, so none is met. */
  lemma NothingMet(s: State, h: TxHash, w: World)
    requires HasRequest(s, h) && CandidateOk(h, s.candidates[h]) && s.candidates[h].locks != map[]
    requires forall o :: o in s.candidates[h].locks && o in s.locked ==> s.locked[o] == h
    ensures !Resolve(s, h, s.candidates[h].request.value.inputs, w).ConflictingLock?
  {
    var tx := s.candidates[h].request.value;
    ResolveExact(s, h, tx.inputs, w);
    forall i | 0 <= i < |tx.inputs| ensures tx.inputs[i] in s.candidates[h].locks {
      assert tx.inputs[i] in tx.Spends();
    }
  }

  /** Locking all outpoints of a ready candidate: the new locks are earned and the old ones still are. */
  lemma LockingEarns(p: Params, cs: map<TxHash, Candidate>, locked: map<OutPoint, TxHash>, h: TxHash)
    requires LocksEarned(p, cs, locked) && h in cs && cs[h].request.Some? && cs[h].AllReady(p.required)
    requires forall o :: o in cs[h].locks && o in locked ==> locked[o] == h
    ensures var locked' := (map o | o in cs[h].locks :: h) + locked;
      && LocksEarned(p, cs, locked')
      && (forall o :: o in locked ==> o in locked' && locked'[o] == locked[o])
      && (forall o :: o in cs[h].locks ==> o in locked' && locked'[o] == h)
  {
    var locked' := (map o | o in cs[h].locks :: h) + locked;
    forall o | o in locked' ensures Earned(p, cs, locked', locked'[o], o) {
      if o in locked {
        assert Earned(p, cs, locked, locked[o], o);
      } else {
        assert cs[h].locks[o].IsReady(p.required);
      }
    }
  }

  /** Every message keeps the invariant; completed locks are permanent and the conflict branch is dead. */
  lemma StepInv(p: Params, s: State, m: Msg)
    requires Inv(p, s) && p.Overlapping() && Acceptable(p, s, m)
    ensures var (t, out) := Step(p, s, m);
      && Inv(p, t) && !out.ConflictingLock?
      && (forall o :: o in s.locked ==> o in t.locked && t.locked[o] == s.locked[o])
  {
    match m
    case Request(tx, isValid, late, order, w) =>
      if isValid { RequestInv(p, s, tx, late, order, w); }
    case Ballot(v, late, w) =>
      if p.IsValid(v) { BallotInv(p, s, v, late, w); }
    case Clean(c) => CleanKeeps(s, c);
  }

  /** The outcome of a message: the invariant holds, no lock is given up, no conflict is met. */
  ghost predicate Safe(p: Params, s: State, r: (State, Outcome)) {
    && Inv(p, r.0) && !r.1.ConflictingLock?
    && forall o :: o in s.locked ==> o in r.0.locked && r.0.locked[o] == s.locked[o]
  }

  lemma RequestInv(p: Params, s: State, tx: Tx, late: set<TxHash>, order: seq<Vote>, w: World)
    requires Inv(p, s) && p.Overlapping() && (CreateCandidate(s, tx, late).1 ==> EachOnce(order, s.orphans))
    ensures Safe(p, s, Step(p, s, Request(tx, true, late, order, w)))
  {
    var (t, ok) := CreateCandidate(s, tx, late);
    CreateInv(p, s, tx, late);
    if ok {
      ReplayInv(p, t, order, late);
      ReplayKeeps(t, order, late);
      FinalizeInv(p, Replay(t, order, late), tx.hash, w);
    }
  }

  lemma BallotInv(p: Params, s: State, v: Vote, late: set<TxHash>, w: World)
    requires Inv(p, s) && p.Overlapping() && p.IsValid(v)
    ensures Safe(p, s, Step(p, s, Ballot(v, late, w)))
  {
    if Open(s, late, v.txHash) {
      RecordInv(p, s, v);
      RecordKeeps(s, v);
      FinalizeInv(p, RecordVote(s, v), v.txHash, w);
    } else if v.txHash !in s.candidates {
      AddCandidateInv(p, s, v.txHash, Candidate(None, map[], false));
    }
  }

  /** Where nothing is marked expired, a clean-up removes no candidate. */
  lemma CleanKeeps(s: State, c: Cleanup)
    requires WellFormed(s.candidates)
    ensures CheckAndRemove(s, c) == s.(orphans := s.orphans - c.lost)
  {
    var gone := ExpiredOnes(s.candidates);
    if gone != {} { var h := Member(gone); }
    var outs := OutPointsOf(s.candidates, gone);
    if outs != {} { var o := Member(outs); }
    assert s.candidates - {} == s.candidates && s.voted - {} == s.voted && s.locked - {} == s.locked;
  }

  /** A candidate without recorded votes can be added or completed freely. */
  lemma AddCandidateInv(p: Params, s: State, h: TxHash, c: Candidate)
    requires Inv(p, s)
    requires h in s.candidates ==> s.candidates[h].locks == map[]
    requires CandidateOk(h, c)
    requires forall o :: o in c.locks ==> c.locks[o].votes == map[]
    ensures Inv(p, s.(candidates := s.candidates[h := c]))
  {
    var cs, cs' := s.candidates, s.candidates[h := c];
    NoNewVoters(cs, h, c);
    assert VotesIndexed(p, cs', s.voted) by {
      forall g, o, m | Voted(cs', g, o, m)
        ensures o in p.quorum && m in p.quorum[o] && o in s.voted && g in s.voted[o]
      {
        assert Voted(cs, g, o, m);
      }
    }
    assert Exclusive(cs') by {
      forall g, g', o, m | g != g' && Voted(cs', g, o, m) && Voted(cs', g', o, m)
        ensures Attacked(cs', g, o) && Attacked(cs', g', o)
      {
        assert Voted(cs, g, o, m) && Voted(cs, g', o, m);
      }
    }
    assert LocksEarned(p, cs', s.locked) by { StillEarned(p, cs, s.locked, h, c); }
  }

  lemma NoNewVoters(cs: map<TxHash, Candidate>, h: TxHash, c: Candidate)
    requires (h in cs ==> cs[h].locks == map[]) && forall o :: o in c.locks ==> c.locks[o].votes == map[]
    ensures forall g, o, m :: Voted(cs[h := c], g, o, m) == Voted(cs, g, o, m)
  {
    forall g, o, m ensures Voted(cs[h := c], g, o, m) == Voted(cs, g, o, m) {
      if g == h && o in c.locks { assert c.locks[o].votes == map[]; }
    }
  }

  lemma StillEarned(p: Params, cs: map<TxHash, Candidate>, locked: map<OutPoint, TxHash>, h: TxHash, c: Candidate)
    requires LocksEarned(p, cs, locked) && (h in cs ==> cs[h].locks == map[])
    ensures LocksEarned(p, cs[h := c], locked)
  {
    forall o | o in locked ensures Earned(p, cs[h := c], locked, locked[o], o) {
      assert Earned(p, cs, locked, locked[o], o);
    }
  }

  lemma CreateInv(p: Params, s: State, tx: Tx, late: set<TxHash>)
    requires Inv(p, s)
    ensures var (t, ok) := CreateCandidate(s, tx, late);
      && Inv(p, t) && t.locked == s.locked && t.orphans == s.orphans
      && (ok ==> HasRequest(t, tx.hash))
  {
    if !HasRequest(s, tx.hash) {
      var known := tx.hash in s.candidates;
      assert known ==> CandidateOk(tx.hash, s.candidates[tx.hash]);
      var c := Candidate(Some(tx), map[], false);
      AddCandidateInv(p, s, tx.hash, if known && tx.hash in late then c else c.AddOutPointLocks(tx.Spends()));
    }
  }

  // ---------------------------------------------------------------- whole runs

  ghost predicate Next(p: Params, s: State, m: Msg, t: State) {
    Acceptable(p, s, m) && t == Step(p, s, m).0
  }

  /** The states a node goes through while it handles the messages in order. */
  ghost predicate IsRun(p: Params, states: seq<State>, ms: seq<Msg>) {
    && |states| == |ms| + 1
    && forall i :: 0 <= i < |ms| ==> Next(p, states[i], ms[i], states[i + 1])
  }

  lemma InitialInv(p: Params)
    ensures Inv(p, INITIAL)
  {
  }

  /** The invariant holds in every state of every run. */
  lemma {:induction false} RunInv(p: Params, states: seq<State>, ms: seq<Msg>, n: nat)
    requires p.Overlapping() && IsRun(p, states, ms) && states[0] == INITIAL && n <= |ms|
    ensures Inv(p, states[n])
    decreases n
  {
    if n == 0 {
      InitialInv(p);
    } else {
      RunInv(p, states, ms, n - 1);
      assert Next(p, states[n - 1], ms[n - 1], states[n]);
      StepInv(p, states[n - 1], ms[n - 1]);
    }
  }

  /** A completed lock is never given up. */
  lemma {:induction false} LocksPermanent(p: Params, states: seq<State>, ms: seq<Msg>, i: nat, j: nat, o: OutPoint)
    requires p.Overlapping() && IsRun(p, states, ms) && states[0] == INITIAL && i <= j <= |ms|
    requires o in states[i].locked
    ensures o in states[j].locked && states[j].locked[o] == states[i].locked[o]
    decreases j
  {
    if i < j {
      LocksPermanent(p, states, ms, i, j - 1, o);
      RunInv(p, states, ms, j - 1);
      assert Next(p, states[j - 1], ms[j - 1], states[j]);
      StepInv(p, states[j - 1], ms[j - 1]);
    }
  }

  /**
   * Safety over whole runs: when two sets of required voters must overlap, a transaction locked at one
   * moment and a transaction locked at any other moment never spend a common outpoint.
   */
  lemma NoConflictingLocks(p: Params, states: seq<State>, ms: seq<Msg>, i: nat, j: nat, h: TxHash, g: TxHash,
    o: OutPoint)
    requires p.Overlapping() && IsRun(p, states, ms) && states[0] == INITIAL && i <= j <= |ms|
    requires IsLocked(states[i], h) && o in states[i].candidates[h].locks
    requires IsLocked(states[j], g) && o in states[j].candidates[g].locks
    ensures h == g
  {
    LocksPermanent(p, states, ms, i, j, o);
  }

  // ---------------------------------------------------------------- the quorum argument over time

  /** The candidate is ready to lock, and the outpoint is one of its own. */
  ghost predicate ReadyAt(p: Params, s: State, h: TxHash, o: OutPoint) {
    h in s.candidates && s.candidates[h].AllReady(p.required) && o in s.candidates[h].locks
  }

  lemma {:induction false} ReplayVotes(
    s: State, order: seq<Vote>, late: set<TxHash>, h: TxHash, o: OutPoint, m: Masternode)
    requires Voted(s.candidates, h, o, m)
    ensures Voted(Replay(s, order, late).candidates, h, o, m)
    decreases |order|
  {
    if order != [] {
      var v := order[0];
      if !Open(s, late, v.txHash) {
        ReplayVotes(s, order[1..], late, h, o, m);
      } else {
        RecordVoters(s, v, h, o, m);
        var taken := UpdateVoted(s, v).candidates[v.txHash].Accepts(v);
        var t := RecordVote(s, v);
        ReplayVotes(if taken then t.(orphans := t.orphans - {v}) else t, order[1..], late, h, o, m);
      }
    }
  }

  /** No message takes a recorded vote back. */
  lemma StepVotes(p: Params, s: State, msg: Msg, h: TxHash, o: OutPoint, m: Masternode)
    requires Inv(p, s) && p.Overlapping() && Acceptable(p, s, msg) && Voted(s.candidates, h, o, m)
    ensures Voted(Step(p, s, msg).0.candidates, h, o, m)
  {
    match msg
    case Request(tx, isValid, late, order, w) =>
      if isValid {
        var (t, ok) := CreateCandidate(s, tx, late);
        CreateInv(p, s, tx, late);
        assert Voted(t.candidates, h, o, m) by { CreateVotes(p, s, tx, late, h, o, m); }
        if ok {
          ReplayInv(p, t, order, late);
          ReplayKeeps(t, order, late);
          ReplayVotes(t, order, late, h, o, m);
          FinalizeInv(p, Replay(t, order, late), tx.hash, w);
        }
      }
    case Ballot(v, late, w) =>
      if p.IsValid(v) && Open(s, late, v.txHash) {
        RecordInv(p, s, v);
        RecordKeeps(s, v);
        RecordVoters(s, v, h, o, m);
        FinalizeInv(p, RecordVote(s, v), v.txHash, w);
      }
    case Clean(c) => CleanKeeps(s, c);
  }

  lemma CreateVotes(p: Params, s: State, tx: Tx, late: set<TxHash>, h: TxHash, o: OutPoint, m: Masternode)
    requires Inv(p, s) && Voted(s.candidates, h, o, m)
    ensures Voted(CreateCandidate(s, tx, late).0.candidates, h, o, m)
  {
    assert CandidateOk(h, s.candidates[h]);
  }

  lemma {:induction false} VotesKept(
    p: Params, states: seq<State>, ms: seq<Msg>, i: nat, j: nat, h: TxHash, o: OutPoint, m: Masternode)
    requires p.Overlapping() && IsRun(p, states, ms) && states[0] == INITIAL && i <= j <= |ms|
    requires Voted(states[i].candidates, h, o, m)
    ensures Voted(states[j].candidates, h, o, m)
    decreases j
  {
    if i < j {
      VotesKept(p, states, ms, i, j - 1, h, o, m);
      RunInv(p, states, ms, j - 1);
      assert Next(p, states[j - 1], ms[j - 1], states[j]);
      StepVotes(p, states[j - 1], ms[j - 1], h, o, m);
    }
  }

  /**
   * Quorum safety over whole runs: when two sets of required voters must overlap, a candidate that is ready at one
   * moment and a candidate that is ready at any later moment share no outpoint, unless they are the same.
   */
  lemma QuorumSafety(p: Params, states: seq<State>, ms: seq<Msg>, i: nat, j: nat, h: TxHash, g: TxHash, o: OutPoint)
    requires p.Overlapping() && IsRun(p, states, ms) && states[0] == INITIAL && i <= j <= |ms|
    requires ReadyAt(p, states[i], h, o) && ReadyAt(p, states[j], g, o)
    ensures h == g
  {
    RunInv(p, states, ms, i);
    RunInv(p, states, ms, j);
    var m := CommonVoter(p, states[i], states[j], h, g, o);
    VotesKept(p, states, ms, i, j, h, o, m);
    assert states[j].candidates[g].locks[o].IsReady(p.required);
    assert !Attacked(states[j].candidates, g, o);
  }

  /** Two ready candidates have a voter in common at a shared outpoint. */
  lemma CommonVoter(p: Params, s: State, t: State, h: TxHash, g: TxHash, o: OutPoint) returns (m: Masternode)
    requires p.Overlapping() && Inv(p, s) && Inv(p, t) && ReadyAt(p, s, h, o) && ReadyAt(p, t, g, o)
    ensures Voted(s.candidates, h, o, m) && Voted(t.candidates, g, o, m)
  {
    var ours, theirs := s.candidates[h].locks[o].votes.Keys, t.candidates[g].locks[o].votes.Keys;
    assert s.candidates[h].locks[o].IsReady(p.required) && t.candidates[g].locks[o].IsReady(p.required);
    assert |ours| >= p.required && |theirs| >= p.required;
    forall x | x in ours ensures o in p.quorum && x in p.quorum[o] { assert Voted(s.candidates, h, o, x); }
    forall x | x in theirs ensures o in p.quorum && x in p.quorum[o] { assert Voted(t.candidates, g, o, x); }
    var m0 := Member(ours);
    Overlap(ours, theirs, p.quorum[o]);
    m :| m in ours && m in theirs;
  }

  /** The network's quorum rule is enough: a required majority of at most `total` ranked masternodes. */
  lemma MajorityOverlaps(p: Params)
    requires p.Ranked() && 2 * p.required > p.total
    ensures p.Overlapping()
  {
  }
}
