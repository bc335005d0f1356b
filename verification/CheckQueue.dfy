/**
 * The parallel check queue: a master and any number of workers share a stack of checks under a mutex.
 *
 * A check is represented by the boolean it returns. Everything a thread does while it holds the mutex
 * is one step; running the checks of a batch is interleaved check by check. Threads may wake up
 * spuriously. Thread 0 is the master, the only one that adds checks and waits for the result.
 */
module CheckQueue {
  import opened Common

  /** The state the mutex protects. */
  datatype Shared = Shared(queue: seq<bool>, nIdle: int, nTotal: int, allOk: bool, nTodo: int)

  /** Where a thread is. */
  datatype Pc =
    | Outside
    | Ready(nNow: nat, ok: bool)                   // about to take the mutex; nNow checks just finished
    | Blocked(notified: bool)                      // inside the wait of its condition variable
    | Working(nNow: nat, left: seq<bool>, ok: bool)

  /** `added` are the checks added since the last Wait returned. */
  datatype State = State(sh: Shared, threads: map<nat, Pc>, added: seq<bool>)

  const MASTER: nat := 0

  predicate All(cs: seq<bool>) { forall i :: 0 <= i < |cs| ==> cs[i] }

  // ---------------------------------------------------------------- the critical section

  /** The accounting for the batch that was just finished, or for entering the loop. */
  function CleanUp(sh: Shared, nNow: nat, ok: bool): Shared {
    if nNow > 0 then sh.(allOk := sh.allOk && ok, nTodo := sh.nTodo - nNow)
    else sh.(nTotal := sh.nTotal + 1)
  }

  /** The size of the next batch: leaves work for the others, takes at least one check and no more than there are. */
  function BatchSize(sh: Shared, batchSize: nat): (n: int)
    requires sh.nTotal + sh.nIdle + 1 > 0
    ensures sh.queue != [] ==> 1 <= n <= |sh.queue|
  {
    assert |sh.queue| / (sh.nTotal + sh.nIdle + 1) <= |sh.queue|;
    Max(1, Min(batchSize, |sh.queue| / (sh.nTotal + sh.nIdle + 1)))
  }

  /** What the inner loop decides while it holds the mutex. */
  datatype Decision = Return(result: bool) | Block | Take(batch: seq<bool>)

  function Reverse(cs: seq<bool>): seq<bool> {
    if cs == [] then [] else [cs[|cs| - 1]] + Reverse(cs[..|cs| - 1])
  }

  function Decide(sh: Shared, master: bool, batchSize: nat): (Shared, Decision)
    requires sh.nTotal + sh.nIdle + 1 > 0
  {
    if sh.queue == [] then
      if master && sh.nTodo == 0
      then (sh.(nTotal := sh.nTotal - 1, allOk := true), Return(sh.allOk))
      else (sh.(nIdle := sh.nIdle + 1), Block)
    else
      var rest := |sh.queue| - BatchSize(sh, batchSize);
      (sh.(queue := sh.queue[..rest]), Take(Reverse(sh.queue[rest..])))
  }

  // ---------------------------------------------------------------- steps

  datatype Step =
    | Enter(t: nat) | Acquire(t: nat) | Exec(t: nat) | Finish(t: nat) | Wake(t: nat) | Add(checks: seq<bool>)

  ghost predicate Enabled(s: State, step: Step) {
    match step
    case Enter(t) => t in s.threads && s.threads[t].Outside?
    case Acquire(t) => t in s.threads && s.threads[t].Ready?
    case Exec(t) => t in s.threads && s.threads[t].Working? && s.threads[t].left != []
    case Finish(t) => t in s.threads && s.threads[t].Working? && s.threads[t].left == []
    case Wake(t) => t in s.threads && s.threads[t].Blocked?
    case Add(_) => MASTER in s.threads && s.threads[MASTER].Outside?
  }

  /** Continues a thread after the inner loop's decision; a returning master forgets the added checks. */
  function Continue(s: State, t: nat, sh: Shared, d: Decision): State {
    match d
    case Return(_) => State(sh, s.threads[t := Outside], [])
    case Block => s.(sh := sh, threads := s.threads[t := Blocked(false)])
    case Take(batch) => s.(sh := sh, threads := s.threads[t := Working(|batch|, batch, sh.allOk)])
  }

  /** A worker that finished the last check notifies the master. */
  function Notify(threads: map<nat, Pc>): map<nat, Pc> {
    if MASTER in threads && threads[MASTER].Blocked? then threads[MASTER := Blocked(true)] else threads
  }

  /** The shared state and the threads when the inner loop of thread t looks at the queue. */
  function Looking(s: State, t: nat): State
    requires t in s.threads && (s.threads[t].Ready? || s.threads[t].Blocked?)
  {
    match s.threads[t]
    case Blocked(_) => s.(sh := s.sh.(nIdle := s.sh.nIdle - 1))
    case Ready(nNow, ok) =>
      var sh := CleanUp(s.sh, nNow, ok);
      s.(sh := sh, threads := if nNow > 0 && sh.nTodo == 0 && t != MASTER then Notify(s.threads) else s.threads)
  }

  /** The batch size divides by the number of threads plus one, so that has to be positive. */
  predicate Countable(sh: Shared) { sh.nTotal + sh.nIdle + 1 > 0 }

  /** The inner loop of thread t runs until it returns, blocks or has a batch. */
  function Section(batchSize: nat, s: State, t: nat): (State, Decision)
    requires t in s.threads && (s.threads[t].Ready? || s.threads[t].Blocked?)
    requires Countable(Looking(s, t).sh)
  {
    var l := Looking(s, t);
    var (sh, d) := Decide(l.sh, t == MASTER, batchSize);
    (Continue(l, t, sh, d), d)
  }

  ghost predicate Next(batchSize: nat, s: State, step: Step, s': State) {
    && Enabled(s, step)
    && match step
       case Enter(t) => s' == s.(threads := s.threads[t := Ready(0, true)])
       case Exec(t) =>
         var pc := s.threads[t];
         s' == s.(threads := s.threads[t := pc.(left := pc.left[1..], ok := pc.ok && pc.left[0])])
       case Finish(t) => s' == s.(threads := s.threads[t := Ready(s.threads[t].nNow, s.threads[t].ok)])
       case Add(checks) =>
         s' == s.(sh := s.sh.(queue := s.sh.queue + checks, nTodo := s.sh.nTodo + |checks|), added := s.added + checks)
       case Acquire(t) => Countable(Looking(s, t).sh) && s' == Section(batchSize, s, t).0
       case Wake(t) => Countable(Looking(s, t).sh) && s' == Section(batchSize, s, t).0
  }

  // ---------------------------------------------------------------- counting threads

  /** What is counted over the threads: unfinished checks, waiting threads, threads in the loop, remaining effort. */
  datatype Kind = Pending | Idle | Inside | Effort

  function Weight(kind: Kind, pc: Pc): nat {
    match kind
    case Pending => if pc.Ready? || pc.Working? then pc.nNow else 0
    case Idle => if pc.Blocked? then 1 else 0
    case Inside => if pc.Outside? || pc == Ready(0, pc.Ready? && pc.ok) then 0 else 1
    case Effort =>
      match pc
      case Outside => 0
      case Ready(_, _) => 2
      case Blocked(notified) => if notified then 1 else 0
      case Working(_, left, _) => |left| + 3
  }

  function Weights(kind: Kind, threads: map<nat, Pc>): map<nat, int> {
    map t | t in threads :: Weight(kind, threads[t])
  }

  ghost function Tally(kind: Kind, threads: map<nat, Pc>): int {
    Sum<nat>(Weights(kind, threads))
  }

  lemma TallyUpdate(kind: Kind, threads: map<nat, Pc>, t: nat, pc: Pc)
    requires t in threads
    ensures Tally(kind, threads[t := pc]) == Tally(kind, threads) - Weight(kind, threads[t]) + Weight(kind, pc)
  {
    var threads' := threads[t := pc];
    var m: map<nat, int>, m': map<nat, int> := Weights(kind, threads), Weights(kind, threads');
    SumUpdate<nat>(m, t, Weight(kind, pc));
    assert m[t := Weight(kind, pc)] == m';
  }

  lemma TallyCovers(kind: Kind, threads: map<nat, Pc>, t: nat)
    requires t in threads
    ensures Tally(kind, threads) >= Weight(kind, threads[t])
  {
    var m := Weights(kind, threads);
    SumRemove<nat>(m, t);
    SumNonNegative<nat>(m - {t});
  }

  /** Some thread accounts for a positive tally. */
  lemma TallyWitness(kind: Kind, threads: map<nat, Pc>)
    requires Tally(kind, threads) > 0
    ensures exists t :: t in threads && Weight(kind, threads[t]) > 0
  {
    var m := Weights(kind, threads);
    SumPositive<nat>(m);
    var t :| t in m && m[t] > 0;
    assert t in threads && Weight(kind, threads[t]) > 0;
  }

  // ---------------------------------------------------------------- the invariant

  predicate PcOk(pc: Pc) {
    match pc
    case Ready(_, ok) => ok
    case Working(_, left, ok) => ok && All(left)
    case _ => true
  }

  predicate PcShape(pc: Pc) {
    && (pc.Working? ==> pc.nNow > 0)
    && (pc.Ready? && pc.nNow == 0 ==> pc.ok)
  }

  ghost predicate AllPcOk(threads: map<nat, Pc>) {
    forall t :: t in threads ==> PcOk(threads[t])
  }

  ghost predicate Counts(sh: Shared, threads: map<nat, Pc>) {
    && sh.nTodo == |sh.queue| + Tally(Pending, threads)
    && sh.nIdle == Tally(Idle, threads)
    && sh.nTotal == Tally(Inside, threads)
  }

  ghost predicate Inv(s: State) {
    && MASTER in s.threads
    && Counts(s.sh, s.threads)
    && Shapely(s.threads)
    && (All(s.added) <==> s.sh.allOk && All(s.sh.queue) && AllPcOk(s.threads))
    && (s.threads[MASTER] == Blocked(false) ==> s.sh.queue == [] && s.sh.nTodo > 0)
  }

  /** The queue before any thread has started. */
  ghost predicate Initial(s: State) {
    && MASTER in s.threads && (forall t :: t in s.threads ==> s.threads[t] == Outside)
    && s.sh == Shared([], 0, 0, true, 0) && s.added == []
  }

  lemma InitialInv(s: State)
    requires Initial(s)
    ensures Inv(s)
  {
    forall kind ensures Tally(kind, s.threads) == 0 {
      if Tally(kind, s.threads) != 0 {
        SumNonNegative<nat>(Weights(kind, s.threads));
        TallyWitness(kind, s.threads);
      }
    }
  }

  // ---------------------------------------------------------------- what every step keeps

  lemma {:induction false} ReverseKeeps(cs: seq<bool>)
    ensures |Reverse(cs)| == |cs| && (All(Reverse(cs)) <==> All(cs))
  {
    if cs != [] {
      var rest, last := cs[..|cs| - 1], cs[|cs| - 1];
      ReverseKeeps(rest);
      AllConcat([last], Reverse(rest));
      AllConcat(rest, [last]);
      assert rest + [last] == cs;
    }
  }

  lemma AllConcat(a: seq<bool>, b: seq<bool>)
    ensures All(a + b) <==> All(a) && All(b)
  {
    if All(a + b) {
      forall i | 0 <= i < |a| ensures a[i] { assert (a + b)[i]; }
      forall i | 0 <= i < |b| ensures b[i] { assert (a + b)[|a| + i]; }
    }
  }

  /** Only the replaced thread matters for the conjunction over all threads. */
  lemma AllPcOkUpdate(threads: map<nat, Pc>, t: nat, pc: Pc)
    requires t in threads
    ensures AllPcOk(threads) <==> PcOk(threads[t]) && AllPcOk(threads - {t})
    ensures AllPcOk(threads[t := pc]) <==> PcOk(pc) && AllPcOk(threads - {t})
  {
    var threads' := threads[t := pc];
    if PcOk(pc) && AllPcOk(threads - {t}) {
      forall u | u in threads' ensures PcOk(threads'[u]) { assert u == t || u in threads - {t}; }
    }
    if AllPcOk(threads') {
      forall u | u in threads - {t} ensures PcOk(threads[u]) { assert u in threads'; }
      assert t in threads';
    }
    if PcOk(threads[t]) && AllPcOk(threads - {t}) {
      forall u | u in threads ensures PcOk(threads[u]) { assert u == t || u in threads - {t}; }
    }
  }

  /** The counts after one thread has moved on and the shared state has been adjusted. */
  lemma CountsMove(sh: Shared, sh': Shared, threads: map<nat, Pc>, t: nat, pc: Pc)
    requires t in threads && Counts(sh, threads)
    requires sh'.nTodo - |sh'.queue| == sh.nTodo - |sh.queue| - Weight(Pending, threads[t]) + Weight(Pending, pc)
    requires sh'.nIdle == sh.nIdle - Weight(Idle, threads[t]) + Weight(Idle, pc)
    requires sh'.nTotal == sh.nTotal - Weight(Inside, threads[t]) + Weight(Inside, pc)
    ensures Counts(sh', threads[t := pc])
  {
    TallyUpdate(Pending, threads, t, pc);
    TallyUpdate(Idle, threads, t, pc);
    TallyUpdate(Inside, threads, t, pc);
  }

  /** Threads keep their shape. */
  ghost predicate Shapely(threads: map<nat, Pc>) {
    forall t :: t in threads ==> PcShape(threads[t])
  }

  /** A thread moves on: shapes stay right, and only what it holds changes in the conjunction over all threads. */
  lemma ResumeOk(threads: map<nat, Pc>, t: nat, pc: Pc)
    requires t in threads && Shapely(threads) && PcShape(pc)
    ensures Shapely(threads[t := pc])
    ensures AllPcOk(threads) <==> PcOk(threads[t]) && AllPcOk(threads - {t})
    ensures AllPcOk(threads[t := pc]) <==> PcOk(pc) && AllPcOk(threads - {t})
  {
    AllPcOkUpdate(threads, t, pc);
  }

  /** With no unfinished check left, no thread holds a result that is still to be counted. */
  lemma QuietOk(threads: map<nat, Pc>)
    requires Tally(Pending, threads) == 0 && Shapely(threads)
    ensures AllPcOk(threads)
  {
    forall t | t in threads ensures PcOk(threads[t]) {
      TallyCovers(Pending, threads, t);
    }
  }

  lemma AddStepInv(batchSize: nat, s: State, step: Step, s': State)
    requires Inv(s) && Next(batchSize, s, step, s') && step.Add?
    ensures Inv(s')
  {
    AllConcat(s.added, step.checks);
    AllConcat(s.sh.queue, step.checks);
  }

  lemma ExecStepInv(batchSize: nat, s: State, step: Step, s': State)
    requires Inv(s) && Next(batchSize, s, step, s') && step.Exec?
    ensures Inv(s')
  {
    var t := step.t;
    CountsMove(s.sh, s.sh, s.threads, t, s'.threads[t]);
    ResumeOk(s.threads, t, s'.threads[t]);
    RunOne(s.threads[t].nNow, s.threads[t].left, s.threads[t].ok);
  }

  lemma RunOne(nNow: nat, left: seq<bool>, ok: bool)
    requires left != []
    ensures PcOk(Working(nNow, left, ok)) <==> PcOk(Working(nNow, left[1..], ok && left[0]))
  {
    AllConcat(left[..1], left[1..]);
    assert left[..1] + left[1..] == left;
  }

  lemma EnterStepInv(batchSize: nat, s: State, step: Step, s': State)
    requires Inv(s) && Next(batchSize, s, step, s') && step.Enter?
    ensures Inv(s')
  {
    CountsMove(s.sh, s.sh, s.threads, step.t, s'.threads[step.t]);
    ResumeOk(s.threads, step.t, s'.threads[step.t]);
  }

  lemma FinishStepInv(batchSize: nat, s: State, step: Step, s': State)
    requires Inv(s) && Next(batchSize, s, step, s') && step.Finish?
    ensures Inv(s')
  {
    CountsMove(s.sh, s.sh, s.threads, step.t, s'.threads[step.t]);
    ResumeOk(s.threads, step.t, s'.threads[step.t]);
  }

  lemma QuickStepInv(batchSize: nat, s: State, step: Step, s': State)
    requires Inv(s) && Next(batchSize, s, step, s') && !step.Acquire? && !step.Wake?
    ensures Inv(s')
  {
    match step
    case Add(checks) => AddStepInv(batchSize, s, step, s');
    case Exec(t) => ExecStepInv(batchSize, s, step, s');
    case Enter(t) => EnterStepInv(batchSize, s, step, s');
    case Finish(t) => FinishStepInv(batchSize, s, step, s');
  }

  /** Notifying the master changes no count except the remaining effort, by at most one. */
  lemma NotifyKeeps(threads: map<nat, Pc>)
    requires MASTER in threads
    ensures Notify(threads).Keys == threads.Keys
    ensures Tally(Pending, Notify(threads)) == Tally(Pending, threads)
    ensures Tally(Idle, Notify(threads)) == Tally(Idle, threads)
    ensures Tally(Inside, Notify(threads)) == Tally(Inside, threads)
    ensures Tally(Effort, threads) <= Tally(Effort, Notify(threads)) <= Tally(Effort, threads) + 1
    ensures forall t :: t in threads && t != MASTER ==> Notify(threads)[t] == threads[t]
    ensures Notify(threads)[MASTER] != Blocked(false)
  {
    NotifyTally(threads, Pending);
    NotifyTally(threads, Idle);
    NotifyTally(threads, Inside);
    NotifyTally(threads, Effort);
  }

  lemma NotifyTally(threads: map<nat, Pc>, kind: Kind)
    requires MASTER in threads
    ensures Tally(kind, threads) <= Tally(kind, Notify(threads))
    ensures Tally(kind, Notify(threads)) <= Tally(kind, threads) + if kind == Effort then 1 else 0
  {
    if threads[MASTER].Blocked? { TallyUpdate(kind, threads, MASTER, Blocked(true)); }
  }

  lemma NotifyOk(threads: map<nat, Pc>, t: nat)
    requires MASTER in threads && t in threads && t != MASTER
    ensures AllPcOk(Notify(threads) - {t}) <==> AllPcOk(threads - {t})
    ensures forall u :: u in threads && PcShape(threads[u]) ==> PcShape(Notify(threads)[u])
  {
    var a, b := threads - {t}, Notify(threads) - {t};
    assert a.Keys == b.Keys;
    assert forall u :: u in a ==> PcOk(a[u]) == PcOk(b[u]);
  }

  /** The counts while thread t looks at the queue: it is in the loop, and its batch is accounted for. */
  ghost predicate CountsWithout(sh: Shared, threads: map<nat, Pc>, t: nat)
    requires t in threads
  {
    && sh.nTodo == |sh.queue| + Tally(Pending, threads) - Weight(Pending, threads[t])
    && sh.nIdle == Tally(Idle, threads) - Weight(Idle, threads[t])
    && sh.nTotal == Tally(Inside, threads) - Weight(Inside, threads[t]) + 1
  }

  /** The thread gets its place in the counts back. */
  lemma CountsResume(sh: Shared, sh': Shared, threads: map<nat, Pc>, t: nat, pc: Pc)
    requires t in threads && CountsWithout(sh, threads, t)
    requires sh'.nTodo - |sh'.queue| == sh.nTodo - |sh.queue| + Weight(Pending, pc)
    requires sh'.nIdle == sh.nIdle + Weight(Idle, pc) && sh'.nTotal == sh.nTotal - 1 + Weight(Inside, pc)
    ensures Counts(sh', threads[t := pc])
  {
    TallyUpdate(Pending, threads, t, pc);
    TallyUpdate(Idle, threads, t, pc);
    TallyUpdate(Inside, threads, t, pc);
  }

  /** While thread t looks at the queue, everything is accounted for except t itself. */
  ghost predicate LookInv(l: State, t: nat) {
    && MASTER in l.threads && t in l.threads
    && CountsWithout(l.sh, l.threads, t)
    && Shapely(l.threads)
    && (All(l.added) <==> l.sh.allOk && All(l.sh.queue) && AllPcOk(l.threads - {t}))
    && (t != MASTER && l.threads[MASTER] == Blocked(false) ==> l.sh.queue == [] && l.sh.nTodo > 0)
  }

  /** What looking at the queue starts from, and that the batch size is well defined there. */
  lemma LookingInv(s: State, t: nat)
    requires Inv(s) && t in s.threads && (s.threads[t].Ready? || s.threads[t].Blocked?)
    ensures LookInv(Looking(s, t), t) && Countable(Looking(s, t).sh)
  {
    TallyCovers(Idle, s.threads, t);
    TallyCovers(Inside, s.threads, t);
    AllPcOkUpdate(s.threads, t, Outside);
    var l := Looking(s, t);
    if l.threads != s.threads {
      NotifyKeeps(s.threads);
      NotifyOk(s.threads, t);
    } else if t != MASTER && s.threads[MASTER] == Blocked(false) {
      LookingTodo(s, t);
    }
  }

  /** A worker that does not notify a blocked master leaves it something to wait for. */
  lemma LookingTodo(s: State, t: nat)
    requires Inv(s) && t in s.threads && (s.threads[t].Ready? || s.threads[t].Blocked?)
    requires t != MASTER && s.threads[MASTER] == Blocked(false) && Looking(s, t).threads == s.threads
    ensures Looking(s, t).sh.nTodo > 0
  {
    TallyCovers(Pending, s.threads, t);
    assert s.threads[MASTER := Blocked(true)][MASTER] == Blocked(true);
  }

  lemma BlockInv(l: State, t: nat)
    requires LookInv(l, t) && l.sh.queue == [] && (t == MASTER ==> l.sh.nTodo != 0)
    ensures Inv(Continue(l, t, l.sh.(nIdle := l.sh.nIdle + 1), Block))
  {
    TodoNonNegative(l, t);
    CountsResume(l.sh, l.sh.(nIdle := l.sh.nIdle + 1), l.threads, t, Blocked(false));
    ResumeOk(l.threads, t, Blocked(false));
  }

  lemma TodoNonNegative(l: State, t: nat)
    requires LookInv(l, t)
    ensures l.sh.nTodo >= |l.sh.queue|
  {
    TallyCovers(Pending, l.threads, t);
  }

  lemma TallyNonNegative(kind: Kind, threads: map<nat, Pc>)
    ensures Tally(kind, threads) >= 0
  {
    SumNonNegative<nat>(Weights(kind, threads));
  }

  lemma TakeInv(batchSize: nat, l: State, t: nat)
    requires LookInv(l, t) && Countable(l.sh) && Decide(l.sh, t == MASTER, batchSize).1.Take?
    ensures var (sh, d) := Decide(l.sh, t == MASTER, batchSize);
      1 <= |d.batch| <= |l.sh.queue| && |sh.queue| + |d.batch| == |l.sh.queue| && Inv(Continue(l, t, sh, d))
  {
    var rest := |l.sh.queue| - BatchSize(l.sh, batchSize);
    SplitKeeps(l.sh.queue, rest);
    TakeBatchInv(l, t, l.sh.queue[..rest], Reverse(l.sh.queue[rest..]));
  }

  lemma SplitKeeps(queue: seq<bool>, rest: nat)
    requires rest <= |queue|
    ensures rest + |Reverse(queue[rest..])| == |queue|
    ensures All(queue) <==> All(queue[..rest]) && All(Reverse(queue[rest..]))
  {
    ReverseKeeps(queue[rest..]);
    AllConcat(queue[..rest], queue[rest..]);
    assert queue[..rest] + queue[rest..] == queue;
  }

  /** Taking some checks off the queue, whichever they are. */
  lemma TakeBatchInv(l: State, t: nat, queue: seq<bool>, batch: seq<bool>)
    requires LookInv(l, t) && batch != [] && |queue| + |batch| == |l.sh.queue|
    requires All(l.sh.queue) <==> All(queue) && All(batch)
    ensures Inv(Continue(l, t, l.sh.(queue := queue), Take(batch)))
  {
    var pc := Working(|batch|, batch, l.sh.allOk);
    CountsResume(l.sh, l.sh.(queue := queue), l.threads, t, pc);
    ResumeOk(l.threads, t, pc);
  }

  lemma ReturnInv(batchSize: nat, l: State, t: nat)
    requires LookInv(l, t) && Countable(l.sh) && Decide(l.sh, t == MASTER, batchSize).1.Return?
    ensures var (sh, d) := Decide(l.sh, t == MASTER, batchSize);
      t == MASTER && (d.result <==> All(l.added)) && Inv(Continue(l, t, sh, d))
  {
    var threads := l.threads[t := Outside];
    CountsResume(l.sh, Decide(l.sh, t == MASTER, batchSize).0, l.threads, t, Outside);
    ResumeOk(l.threads, t, Outside);
    QuietOk(threads);
  }

  /** What a critical section does to the whole system. */
  lemma SectionInv(batchSize: nat, s: State, t: nat)
    requires Inv(s) && t in s.threads && (s.threads[t].Ready? || s.threads[t].Blocked?)
    ensures Countable(Looking(s, t).sh)
    ensures var (s', d) := Section(batchSize, s, t);
      Inv(s') && (d.Return? ==> t == MASTER && (d.result <==> All(s.added)))
  {
    LookingInv(s, t);
    var l := Looking(s, t);
    match Decide(l.sh, t == MASTER, batchSize).1
    case Return(_) => ReturnInv(batchSize, l, t);
    case Block => BlockInv(l, t);
    case Take(_) => TakeInv(batchSize, l, t);
  }

  // ---------------------------------------------------------------- progress

  /** The work that is left until the master can return. */
  ghost function Remaining(s: State): int {
    5 * |s.sh.queue| + Tally(Effort, s.threads)
  }

  /** A thread that wakes up without a notification and finds nothing to do. */
  ghost predicate Stutters(batchSize: nat, s: State, step: Step, s': State) {
    step.Wake? && Next(batchSize, s, step, s') && s.threads[step.t] == Blocked(false) == s'.threads[step.t]
  }

  /** Only the notification of the master can add effort before the queue is looked at. */
  lemma LookingEffort(s: State, t: nat)
    requires Inv(s) && t in s.threads && (s.threads[t].Ready? || s.threads[t].Blocked?)
    ensures var l := Looking(s, t);
      && l.threads.Keys == s.threads.Keys && l.threads[t] == s.threads[t] && l.sh.queue == s.sh.queue
      && Tally(Effort, l.threads) <= Tally(Effort, s.threads) + if s.threads[t].Ready? then 1 else 0
  {
    NotifyTally(s.threads, Effort);
    assert Notify(s.threads).Keys == s.threads.Keys;
  }

  lemma SectionProgress(batchSize: nat, s: State, t: nat)
    requires Inv(s) && t in s.threads && (s.threads[t].Ready? || s.threads[t].Blocked?)
    ensures Countable(Looking(s, t).sh)
    ensures var s' := Section(batchSize, s, t).0;
      Remaining(s') < Remaining(s) || (s.threads[t] == Blocked(false) == s'.threads[t])
  {
    LookingInv(s, t);
    LookingEffort(s, t);
    DecisionEffort(batchSize, Looking(s, t), t);
  }

  /** Deciding gives up at least the thread's own effort, or takes checks off the queue. */
  lemma DecisionEffort(batchSize: nat, l: State, t: nat)
    requires LookInv(l, t) && Countable(l.sh)
    ensures var (sh, d) := Decide(l.sh, t == MASTER, batchSize);
      var rest := Remaining(Continue(l, t, sh, d)) - (Remaining(l) - Weight(Effort, l.threads[t]));
      rest <= 0 && (d.Take? ==> rest < 0)
  {
    var (sh, d) := Decide(l.sh, t == MASTER, batchSize);
    if d.Take? {
      TakeInv(batchSize, l, t);
      TakeEffort(l, t, sh, d.batch);
    } else {
      TallyUpdate(Effort, l.threads, t, if d.Block? then Blocked(false) else Outside);
    }
  }

  lemma TakeEffort(l: State, t: nat, sh: Shared, batch: seq<bool>)
    requires t in l.threads && 1 <= |batch| && |sh.queue| + |batch| == |l.sh.queue|
    ensures Remaining(Continue(l, t, sh, Take(batch))) < Remaining(l) - Weight(Effort, l.threads[t])
  {
    TallyUpdate(Effort, l.threads, t, Working(|batch|, batch, sh.allOk));
  }

  /** Apart from entering the loop and adding checks, every step that does not stutter uses up remaining work. */
  lemma StepProgress(batchSize: nat, s: State, step: Step, s': State)
    requires Inv(s) && Next(batchSize, s, step, s') && !step.Enter? && !step.Add?
    ensures 0 <= Remaining(s')
    ensures Remaining(s') < Remaining(s) || Stutters(batchSize, s, step, s')
  {
    TallyNonNegative(Effort, s'.threads);
    match step
    case Exec(t) => TallyUpdate(Effort, s.threads, t, s'.threads[t]);
    case Finish(t) => TallyUpdate(Effort, s.threads, t, s'.threads[t]);
    case Acquire(t) => SectionProgress(batchSize, s, t);
    case Wake(t) => SectionProgress(batchSize, s, t);
  }

  /** The thread has something to do without being woken spuriously. */
  predicate Runnable(pc: Pc) {
    pc.Ready? || pc.Working? || pc == Blocked(true)
  }

  /**
   * No lost wake-up: a master that is blocked and not notified waits for a worker that still holds an
   * unfinished batch and can run; and that worker's last check notifies the master.
   */
  lemma NoLostWakeUp(s: State)
    requires Inv(s) && s.threads[MASTER] == Blocked(false)
    ensures s.sh.nTodo > 0 && s.sh.queue == []
    ensures exists t :: t in s.threads && t != MASTER && Runnable(s.threads[t]) && Weight(Pending, s.threads[t]) > 0
    ensures forall t :: t in s.threads && s.threads[t].Ready? && s.threads[t].nNow == s.sh.nTodo ==>
      Looking(s, t).threads[MASTER] == Blocked(true)
  {
    TallyWitness(Pending, s.threads);
  }

  /** A runnable thread can take a step that uses up remaining work. */
  lemma RunnableProgress(batchSize: nat, s: State, t: nat) returns (step: Step, s': State)
    requires Inv(s) && t in s.threads && Runnable(s.threads[t])
    ensures Next(batchSize, s, step, s') && !step.Enter? && !step.Add? && Remaining(s') < Remaining(s)
  {
    var pc := s.threads[t];
    if pc.Working? {
      step := if pc.left == [] then Finish(t) else Exec(t);
      s' := s.(threads := s.threads[t := if pc.left == [] then Ready(pc.nNow, pc.ok)
                                         else pc.(left := pc.left[1..], ok := pc.ok && pc.left[0])]);
      StepProgress(batchSize, s, step, s');
    } else {
      SectionProgress(batchSize, s, t);
      step := if pc.Ready? then Acquire(t) else Wake(t);
      s' := Section(batchSize, s, t).0;
    }
  }

  /** As long as the master is inside Wait, some step is possible that uses up remaining work. */
  lemma WaitCanProgress(batchSize: nat, s: State) returns (step: Step, s': State)
    requires Inv(s) && !s.threads[MASTER].Outside?
    ensures Next(batchSize, s, step, s') && !step.Enter? && !step.Add? && Remaining(s') < Remaining(s)
  {
    var t := MASTER;
    if s.threads[MASTER] == Blocked(false) {
      NoLostWakeUp(s);
      t :| t in s.threads && Runnable(s.threads[t]);
    }
    step, s' := RunnableProgress(batchSize, s, t);
  }

  // ---------------------------------------------------------------- whole runs

  lemma StepInv(batchSize: nat, s: State, step: Step, s': State)
    requires Inv(s) && Next(batchSize, s, step, s')
    ensures Inv(s')
  {
    if step.Acquire? || step.Wake? {
      SectionInv(batchSize, s, step.t);
    } else {
      QuickStepInv(batchSize, s, step, s');
    }
  }

  ghost predicate IsRun(batchSize: nat, states: seq<State>, steps: seq<Step>) {
    && |states| == |steps| + 1 && Initial(states[0])
    && forall i :: 0 <= i < |steps| ==> Next(batchSize, states[i], steps[i], states[i + 1])
  }

  lemma {:induction false} RunInv(batchSize: nat, states: seq<State>, steps: seq<Step>, n: nat)
    requires IsRun(batchSize, states, steps) && n <= |steps|
    ensures Inv(states[n])
    decreases n
  {
    if n == 0 {
      InitialInv(states[0]);
    } else {
      RunInv(batchSize, states, steps, n - 1);
      assert Next(batchSize, states[n - 1], steps[n - 1], states[n]);
      StepInv(batchSize, states[n - 1], steps[n - 1], states[n]);
    }
  }

  /** A stuttering step leaves everything as it was. */
  lemma StutterChangesNothing(batchSize: nat, s: State, step: Step, s': State)
    requires Stutters(batchSize, s, step, s')
    ensures s' == s
  {
    var t, l := step.t, Looking(s, step.t);
    var (sh, d) := Decide(l.sh, t == MASTER, batchSize);
    assert s' == Continue(l, t, sh, d);
    BlocksOnly(l, t, sh, d);
    BlockAgain(s, t);
  }

  /** Only the decision to block leaves a thread waiting without a notification. */
  lemma BlocksOnly(l: State, t: nat, sh: Shared, d: Decision)
    ensures Continue(l, t, sh, d).threads[t] == Blocked(false) <==> d.Block?
  {
  }

  /** Waking up and waiting again. */
  lemma BlockAgain(s: State, t: nat)
    requires t in s.threads && s.threads[t] == Blocked(false)
    ensures var l := Looking(s, t); Continue(l, t, l.sh.(nIdle := l.sh.nIdle + 1), Block) == s
  {
    assert s.threads[t := Blocked(false)] == s.threads;
  }

  ghost function Cost(batchSize: nat, s: State, step: Step, s': State): nat {
    if Stutters(batchSize, s, step, s') then 0 else 1
  }

  lemma CostPaid(batchSize: nat, s: State, step: Step, s': State)
    requires Inv(s) && Next(batchSize, s, step, s') && !step.Enter? && !step.Add?
    ensures Cost(batchSize, s, step, s') + Remaining(s') <= Remaining(s)
  {
    StepProgress(batchSize, s, step, s');
    if Stutters(batchSize, s, step, s') { StutterChangesNothing(batchSize, s, step, s'); }
  }

  /** How many steps of a stretch of a run do not stutter. */
  ghost function Busy(batchSize: nat, states: seq<State>, steps: seq<Step>, i: nat, j: nat): nat
    requires i <= j <= |steps| < |states|
  {
    if i == j then 0
    else Busy(batchSize, states, steps, i, j - 1) + Cost(batchSize, states[j - 1], steps[j - 1], states[j])
  }

  /**
   * In every stretch of every run, without entering and adding, the steps that do not stutter are bounded
   * beforehand.
   */
  lemma WorkBound(batchSize: nat, states: seq<State>, steps: seq<Step>, i: nat, j: nat)
    requires IsRun(batchSize, states, steps) && i <= j <= |steps|
    requires forall k :: i <= k < j ==> !steps[k].Enter? && !steps[k].Add?
    ensures Busy(batchSize, states, steps, i, j) <= Remaining(states[i])
  {
    forall k | i <= k < j
      ensures Cost(batchSize, states[k], steps[k], states[k + 1]) + Remaining(states[k + 1]) <= Remaining(states[k])
    {
      RunInv(batchSize, states, steps, k);
      CostPaid(batchSize, states[k], steps[k], states[k + 1]);
    }
    CostsAddUp(batchSize, states, steps, i, j);
    TallyNonNegative(Effort, states[j].threads);
  }

  lemma {:induction false} CostsAddUp(batchSize: nat, states: seq<State>, steps: seq<Step>, i: nat, j: nat)
    requires i <= j <= |steps| < |states|
    requires forall k :: i <= k < j ==>
      Cost(batchSize, states[k], steps[k], states[k + 1]) + Remaining(states[k + 1]) <= Remaining(states[k])
    ensures Busy(batchSize, states, steps, i, j) + Remaining(states[j]) <= Remaining(states[i])
    decreases j
  {
    if i < j { CostsAddUp(batchSize, states, steps, i, j - 1); }
  }

  /**
   * The law of the queue: in every interleaving, when Wait returns, its result is true exactly when all
   * checks added since the previous Wait returned are true. Only the master ever returns.
   */
  lemma WaitIsExact(batchSize: nat, states: seq<State>, steps: seq<Step>, t: nat)
    requires IsRun(batchSize, states, steps)
    requires var s := states[|steps|]; t in s.threads && (s.threads[t].Ready? || s.threads[t].Blocked?)
    ensures var s := states[|steps|];
      && Countable(Looking(s, t).sh)
      && var d := Section(batchSize, s, t).1;
         d.Return? ==> t == MASTER && (d.result <==> All(s.added))
  {
    RunInv(batchSize, states, steps, |steps|);
    SectionInv(batchSize, states[|steps|], t);
  }
}
