/**
 * Whole runs of a cache stack against a stack of flat maps.
 *
 * A run creates and drops caches on top of the stack, adds and spends coins at the top, and reads,
 * uncaches or flushes at any level. The reference keeps one plain map per level and no flags.
 */
module CoinsRuns {
  import opened Common
  import opened Coins

  type Flat = map<OutPoint, UnspentCoin>

  /** What can happen at any level of the stack. */
  datatype LevelOp = Read(k: OutPoint) | Drop(k: OutPoint) | Flush

  datatype Op =
    | At(level: nat, what: LevelOp)
    | Add(k: OutPoint, coin: UnspentCoin, possibleOverwrite: bool)
    | Spend(k: OutPoint)
    | Push
    | Pop

  // ---------------------------------------------------------------- the cache stack

  /** Applies an operation `level` levels below the top; None is an exception. */
  ghost function StepAt(s: Store, level: nat, op: LevelOp): Option<Store>
    requires level < Depth(s)
    decreases level
  {
    if level > 0 then
      match StepAt(s.base, level - 1, op)
      case None => None
      case Some(b) => Some(s.(base := b))
    else if op.Read? then Some(Fetch(s, op.k))
    else if op.Drop? then Some(Uncache(s, op.k))
    else if BatchThrows(s.base, s.cache) then None
    else Some(Coins.Flush(s))
  }

  /** The operations the callers may issue in a stack of this depth. */
  predicate Allowed(depth: nat, op: Op) {
    match op
    case At(level, _) => level < depth
    case Add(_, _, _) => depth > 0
    case Spend(_) => depth > 0
    case Pop => depth > 0
    case Push => true
  }

  ghost function Step(s: Store, op: Op): Option<Store>
    requires Allowed(Depth(s), op)
  {
    match op
    case At(level, what) => StepAt(s, level, what)
    case Add(k, coin, ow) => var (t, ok) := AddCoin(s, k, coin, ow); if ok then Some(t) else None
    case Spend(k) => Some(SpendCoin(s, k).0)
    case Push => Some(Cache(map[], 0, 0, s))
    case Pop => Some(s.base)
  }

  // ---------------------------------------------------------------- the reference

  function Put(f: Flat, k: OutPoint, coin: UnspentCoin): Flat {
    f[k := coin]
  }

  function FlatStep(f: seq<Flat>, op: Op): seq<Flat>
    requires |f| > 0 && Allowed(|f| - 1, op)
  {
    match op
    case At(level, what) => if what.Flush? then f[level + 1 := f[level]] else f
    case Add(k, coin, _) => if coin.IsUnspendable() then f else f[0 := Put(f[0], k, coin)]
    case Spend(k) => f[0 := f[0] - {k}]
    case Push => [f[0]] + f
    case Pop => f[1..]
  }

  /** The caller's side of AddCoin: an unannounced overwrite never replaces a shown coin. */
  predicate Promised(f: seq<Flat>, op: Op)
    requires |f| > 0
  {
    op.Add? && !op.possibleOverwrite ==> op.k !in f[0]
  }

  /** Every level of the stack shows exactly the coins of the corresponding flat map. */
  ghost predicate Agrees(s: Store, f: seq<Flat>)
    decreases s
  {
    && |f| == Depth(s) + 1
    && (forall k :: Lookup(s, k) == Get(f[0], k))
    && (s.Cache? ==> Agrees(s.base, f[1..]))
  }

  // ---------------------------------------------------------------- one step

  /** An operation below the top leaves the view of every level it does not write unchanged. */
  lemma {:induction false} StepAtRefines(s: Store, f: seq<Flat>, level: nat, op: LevelOp)
    requires Inv(s) && Agrees(s, f) && level < Depth(s)
    ensures StepAt(s, level, op).Some?
    ensures var t := StepAt(s, level, op).value;
      Inv(t) && t.Cache? && Agrees(t, FlatStep(f, At(level, op))) && forall k :: Lookup(t, k) == Lookup(s, k)
    decreases level
  {
    if level > 0 {
      StepAtRefines(s.base, f[1..], level - 1, op);
      assert FlatStep(f, At(level, op))[1..] == FlatStep(f[1..], At(level - 1, op));
      var t := StepAt(s, level, op).value;
      assert CacheSound(t.cache, t.base);
      assert Depth(t) == Depth(s);
    } else {
      TopStepRefines(s, f, op);
    }
  }

  lemma {:induction false} AgreesByView(s: Store, t: Store, f: seq<Flat>)
    requires Agrees(s, f) && SameViews(s, t)
    ensures Agrees(t, f)
    decreases s
  {
    if s.Cache? { AgreesByView(s.base, t.base, f[1..]); }
  }

  ghost predicate SameViews(s: Store, t: Store)
    decreases s
  {
    && s.Cache? == t.Cache?
    && (forall k :: Lookup(s, k) == Lookup(t, k))
    && (s.Cache? ==> SameViews(s.base, t.base))
  }

  lemma {:induction false} SameViewsRefl(s: Store)
    ensures SameViews(s, s)
  {
    if s.Cache? { SameViewsRefl(s.base); }
  }

  /** A read changes the view of no level at all. */
  lemma {:induction false} FetchSameViews(s: Store, k: OutPoint)
    requires Inv(s)
    ensures SameViews(s, Fetch(s, k))
  {
    FetchKeepsView(s, k);
    if s.Db? || k in s.cache {
      SameViewsRefl(s);
    } else {
      FetchSameViews(s.base, k);
    }
  }

  lemma {:induction false} SameDepth(s: Store, t: Store)
    requires SameViews(s, t)
    ensures Depth(s) == Depth(t)
  {
    if s.Cache? { SameDepth(s.base, t.base); }
  }

  lemma TopStepRefines(s: Store, f: seq<Flat>, op: LevelOp)
    requires s.Cache? && Inv(s) && Agrees(s, f)
    ensures StepAt(s, 0, op).Some?
    ensures var t := StepAt(s, 0, op).value;
      Inv(t) && t.Cache? && Agrees(t, FlatStep(f, At(0, op))) && forall k :: Lookup(t, k) == Lookup(s, k)
  {
    match op
    case Read(k) =>
      FetchKeepsView(s, k);
      FetchSameViews(s, k);
      AgreesByView(s, Fetch(s, k), f);
    case Drop(k) =>
      UncacheKeepsView(s, k);
    case Flush =>
      FlushNeverThrows(s);
      FlushMeaning(s);
      FlushAgrees(s, f);
  }

  lemma FlushAgrees(s: Store, f: seq<Flat>)
    requires s.Cache? && Inv(s) && Agrees(s, f)
    ensures Agrees(Coins.Flush(s), f[1 := f[0]])
  {
    FlushMeaning(s);
    BatchWriteMeaning(s);
    var t := Coins.Flush(s);
    var g := f[1 := f[0]];
    assert f[1..][1..] == g[1..][1..];
    assert Agrees(t.base, g[1..]);
  }

  /** One operation of a caller that keeps its promise: no exception, invariant kept, flat maps followed. */
  lemma StepRefines(s: Store, f: seq<Flat>, op: Op)
    requires Inv(s) && Agrees(s, f) && Allowed(Depth(s), op) && Promised(f, op)
    ensures Step(s, op).Some? && Inv(Step(s, op).value) && Agrees(Step(s, op).value, FlatStep(f, op))
  {
    match op
    case At(level, what) => StepAtRefines(s, f, level, what);
    case Add(k, coin, ow) =>
      assert Lookup(s, k) == Get(f[0], k);
      if !coin.IsUnspendable() {
        AddCoinMeaning(s, k, coin, ow);
        assert FlatStep(f, op)[1..] == f[1..];
      }
    case Spend(k) =>
      SpendAgrees(s, f, k);
    case Push =>
      assert UsageSum(map[]) == 0;
      assert ([f[0]] + f)[1..] == f;
    case Pop =>
  }

  lemma SpendAgrees(s: Store, f: seq<Flat>, k: OutPoint)
    requires s.Cache? && Inv(s) && Agrees(s, f)
    ensures Inv(SpendCoin(s, k).0) && Agrees(SpendCoin(s, k).0, f[0 := f[0] - {k}])
  {
    SpendCoinMeaning(s, k);
    FetchSameViews(s, k);
    FetchKeepsView(s, k);
    var t := SpendCoin(s, k).0;
    var g := f[0 := f[0] - {k}];
    SameDepth(s.base, t.base);
    AgreesByView(s.base, t.base, f[1..]);
    assert g[1..] == f[1..];
  }

  // ---------------------------------------------------------------- whole runs

  ghost function Run(s: Store, ops: seq<Op>): Option<Store>
    decreases |ops|
  {
    if ops == [] then Some(s)
    else if !Allowed(Depth(s), ops[0]) then None
    else match Step(s, ops[0])
      case None => None
      case Some(t) => Run(t, ops[1..])
  }

  function FlatRun(f: seq<Flat>, ops: seq<Op>): Option<seq<Flat>>
    decreases |ops|
  {
    if ops == [] then Some(f)
    else if |f| == 0 || !Allowed(|f| - 1, ops[0]) || !Promised(f, ops[0]) then None
    else FlatRun(FlatStep(f, ops[0]), ops[1..])
  }

  /**
   * Every run the flat maps allow goes through on the cache stack without an exception, keeps the flag
   * and usage invariant at every level, and shows the same coins as the flat maps at every level.
   */
  lemma {:induction false} RunRefines(s: Store, f: seq<Flat>, ops: seq<Op>)
    requires Inv(s) && Agrees(s, f) && FlatRun(f, ops).Some?
    ensures Run(s, ops).Some?
    ensures Inv(Run(s, ops).value) && Agrees(Run(s, ops).value, FlatRun(f, ops).value)
    decreases |ops|
  {
    if ops != [] {
      StepRefines(s, f, ops[0]);
      RunRefines(Step(s, ops[0]).value, FlatStep(f, ops[0]), ops[1..]);
    }
  }
}
