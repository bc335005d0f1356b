/**
 * Runs on a stack of transactions over a database, with operations at every level, against the simple form of a
 * transaction: one map of pending changes per level and no counters.
 */
module DbRuns {
  import opened Common
  import opened DbOverlay

  /** What a level has pending for a key: a value to write, or nothing for an erased key. */
  type Layer = map<Key, Option<Value>>

  /** The simple form: the pending changes of each level, from the top, and the data at the bottom. */
  datatype Stack = Stack(layers: seq<Layer>, bottom: map<Key, Value>)

  /** What a level shows for a key: the first level from there on with something pending decides. */
  function Shown(st: Stack, level: nat, k: Key): Option<Value>
    requires level <= |st.layers|
    decreases |st.layers| - level
  {
    if level == |st.layers| then Get(st.bottom, k)
    else if k in st.layers[level] then st.layers[level][k]
    else Shown(st, level + 1, k)
  }

  /** A map with a layer of changes made to it. */
  function Merge(data: map<Key, Value>, layer: Layer): map<Key, Value> {
    map k | k in data.Keys + layer.Keys && (k in layer ==> layer[k].Some?) ::
      if k in layer then layer[k].value else data[k]
  }

  /** Only transactions can be committed or cleared; the database at the bottom is only written to. */
  predicate Allowed(depth: nat, level: nat, op: Op) {
    level < depth || (level == depth && (op.OpWrite? || op.OpErase?))
  }

  function Change(st: Stack, level: nat, k: Key, to: Option<Value>): Stack
    requires level <= |st.layers|
  {
    if level < |st.layers| then st.(layers := st.layers[level := st.layers[level][k := to]])
    else st.(bottom := Merge(st.bottom, map[k := to]))
  }

  function StackStep(st: Stack, level: nat, op: Op): (st': Stack)
    requires Allowed(|st.layers|, level, op)
    ensures |st'.layers| == |st.layers|
  {
    match op
    case OpWrite(k, v) => Change(st, level, k, Some(v))
    case OpErase(k) => Change(st, level, k, None)
    case OpClear => st.(layers := st.layers[level := map[]])
    case OpCommit =>
      var layer := st.layers[level];
      if level + 1 < |st.layers| then
        st.(layers := st.layers[level := map[]][level + 1 := st.layers[level + 1] + layer])
      else Stack(st.layers[level := map[]], Merge(st.bottom, layer))
  }

  function Depth(s: Store): nat {
    match s
    case Db(_) => 0
    case Tx(_, _, _, base) => 1 + Depth(base)
  }

  function Level(s: Store, n: nat): Store
    requires n <= Depth(s)
  {
    if n == 0 then s else Level(s.base, n - 1)
  }

  /** An operation on the transaction at a level; those above keep what they have pending. */
  ghost function StepAt(s: Store, level: nat, op: Op): (s': Store)
    requires Allowed(Depth(s), level, op)
    ensures Depth(s') == Depth(s)
  {
    if level > 0 then s.(base := StepAt(s.base, level - 1, op))
    else match op
      case OpWrite(k, v) => Write(s, k, v)
      case OpErase(k) => Erase(s, k)
      case OpCommit => Commit(s)
      case OpClear => Clear(s)
  }

  function Pending(writes: map<Key, Value>, deletes: set<Key>): Layer {
    map k | k in writes.Keys + deletes :: if k in writes then Some(writes[k]) else None
  }

  function Below(st: Stack): Stack
    requires st.layers != []
  {
    st.(layers := st.layers[1..])
  }

  /** Each level has the same changes pending, the bottoms hold the same, and all counters are exact. */
  ghost predicate Agrees(s: Store, st: Stack) {
    && Inv(s) && Depth(s) == |st.layers|
    && match s
       case Db(data) => data == st.bottom
       case Tx(writes, deletes, _, base) => Pending(writes, deletes) == st.layers[0] && Agrees(base, Below(st))
  }

  /** A level reads as the simple form says. */
  lemma {:induction false} AgreesShown(s: Store, st: Stack, n: nat, k: Key)
    requires Agrees(s, st) && n <= Depth(s)
    ensures Inv(Level(s, n)) && Read(Level(s, n), k) == Get(View(Level(s, n)), k) == Shown(st, n, k)
    decreases n, Depth(s)
  {
    if n > 0 {
      AgreesShown(s.base, Below(st), n - 1, k);
      ShownBelow(st, n, k);
    } else {
      ReadMeaning(s, k);
      if s.Tx? {
        assert k in Pending(s.writes, s.deletes) <==> k in s.writes || k in s.deletes;
        AgreesShown(s.base, Below(st), 0, k);
        ShownBelow(st, 1, k);
      }
    }
  }

  lemma {:induction false} ShownBelow(st: Stack, n: nat, k: Key)
    requires 1 <= n <= |st.layers|
    ensures Shown(st, n, k) == Shown(Below(st), n - 1, k)
    decreases |st.layers| - n
  {
    if n < |st.layers| { ShownBelow(st, n + 1, k); }
  }

  // ---------------------------------------------------------------- one operation

  lemma {:induction false} StepRefines(s: Store, st: Stack, level: nat, op: Op)
    requires Agrees(s, st) && Allowed(Depth(s), level, op)
    ensures Agrees(StepAt(s, level, op), StackStep(st, level, op))
    decreases level
  {
    if level > 0 {
      StepRefines(s.base, Below(st), level - 1, op);
      StackStepBelow(st, level, op);
    } else {
      match op
      case OpWrite(k, v) => WriteAgrees(s, st, k, v);
      case OpErase(k) => EraseAgrees(s, st, k);
      case OpClear => ClearMeaning(s); assert Pending(map[], {}) == map[]; SameBelow(st, map[]);
      case OpCommit => CommitAgrees(s, st);
    }
  }

  /** An operation below the top leaves the top layer alone. */
  lemma StackStepBelow(st: Stack, level: nat, op: Op)
    requires 0 < level && Allowed(|st.layers|, level, op)
    ensures StackStep(st, level, op).layers[0] == st.layers[0]
    ensures Below(StackStep(st, level, op)) == StackStep(Below(st), level - 1, op)
  {
    var a, b := Below(StackStep(st, level, op)), StackStep(Below(st), level - 1, op);
    assert a.layers == b.layers;
  }

  lemma SameBelow(st: Stack, layer: Layer)
    requires st.layers != []
    ensures Below(st.(layers := st.layers[0 := layer])) == Below(st)
  {
  }

  lemma PendingWrite(writes: map<Key, Value>, deletes: set<Key>, k: Key, v: Value)
    ensures Pending(writes[k := v], deletes - {k}) == Pending(writes, deletes)[k := Some(v)]
  {
  }

  lemma PendingErase(writes: map<Key, Value>, deletes: set<Key>, k: Key)
    ensures Pending(writes - {k}, deletes + {k}) == Pending(writes, deletes)[k := None]
  {
  }

  lemma MergeOne(data: map<Key, Value>, k: Key, to: Option<Value>)
    ensures Merge(data, map[k := to]) == if to.Some? then data[k := to.value] else data - {k}
  {
  }

  lemma MergePending(data: map<Key, Value>, writes: map<Key, Value>, deletes: set<Key>)
    requires writes.Keys !! deletes
    ensures Merge(data, Pending(writes, deletes)) == (data - deletes) + writes
  {
  }

  /** A commit of the top into another transaction touches no other layer. */
  lemma CommitBelow(st: Stack)
    requires |st.layers| >= 2
    ensures var below := Below(StackStep(st, 0, OpCommit));
      below.layers[0] == st.layers[1] + st.layers[0] && Below(below) == Below(Below(st))
  {
    assert Below(StackStep(st, 0, OpCommit)).layers[1..] == st.layers[1..][1..];
  }

  lemma WriteAgrees(s: Store, st: Stack, k: Key, v: Value)
    requires Agrees(s, st)
    ensures Agrees(Write(s, k, v), Change(st, 0, k, Some(v)))
  {
    WriteMeaning(s, k, v);
    if s.Tx? {
      PendingWrite(s.writes, s.deletes, k, v);
      SameBelow(st, st.layers[0][k := Some(v)]);
    } else {
      MergeOne(st.bottom, k, Some(v));
    }
  }

  lemma EraseAgrees(s: Store, st: Stack, k: Key)
    requires Agrees(s, st)
    ensures Agrees(Erase(s, k), Change(st, 0, k, None))
  {
    EraseMeaning(s, k);
    if s.Tx? {
      PendingErase(s.writes, s.deletes, k);
      SameBelow(st, st.layers[0][k := None]);
    } else {
      MergeOne(st.bottom, k, None);
    }
  }

  /** A commit is the merge of one layer into the next, or into the data. */
  lemma CommitAgrees(s: Store, st: Stack)
    requires Agrees(s, st) && s.Tx?
    ensures Agrees(Commit(s), StackStep(st, 0, OpCommit))
  {
    CommitMeaning(s);
    assert Pending(map[], {}) == map[];
    if s.base.Tx? {
      PendingApply(s.base.writes, s.base.deletes, s.writes, s.deletes);
      CommitBelow(st);
    } else {
      MergePending(st.bottom, s.writes, s.deletes);
    }
  }

  lemma PendingApply(w: map<Key, Value>, d: set<Key>, writes: map<Key, Value>, deletes: set<Key>)
    requires writes.Keys !! deletes
    ensures Pending((w - deletes) + writes, (d + deletes) - writes.Keys) == Pending(w, d) + Pending(writes, deletes)
  {
  }

  // ---------------------------------------------------------------- isolation

  /** Some level from the one to just above the other has something pending for the key. */
  ghost predicate Covered(st: Stack, from: nat, to: nat, k: Key)
    requires to <= |st.layers|
  {
    exists i :: from <= i < to && k in st.layers[i]
  }

  /** What an operation at one level does to what another level shows. */
  lemma {:induction false} StepShown(st: Stack, level: nat, op: Op, n: nat, k: Key)
    requires Allowed(|st.layers|, level, op) && n <= |st.layers|
    ensures var st' := StackStep(st, level, op);
      Shown(st', n, k) ==
        if op.OpCommit? && n == level + 1 then Shown(st, level, k)
        else if n > level || op.OpCommit? || Covered(st, n, level, k) then Shown(st, n, k)
        else if op.OpClear? then Shown(st, level + 1, k)
        else if k != op.key then Shown(st, n, k)
        else if op.OpWrite? then Some(op.value) else None
    decreases |st.layers| - n
  {
    if n < |st.layers| { StepShown(st, level, op, n + 1, k); }
  }

  // ---------------------------------------------------------------- whole runs

  /** An operation at a level; or a transaction begins over the stack, or its top one ends without a commit. */
  datatype Move = At(level: nat, op: Op) | Begin | End

  predicate CanMove(depth: nat, m: Move) {
    match m
    case At(level, op) => Allowed(depth, level, op)
    case Begin => true
    case End => depth > 0
  }

  ghost function Moved(s: Store, m: Move): Store
    requires CanMove(Depth(s), m)
  {
    match m
    case At(level, op) => StepAt(s, level, op)
    case Begin => Tx(map[], {}, 0, s)
    case End => s.base
  }

  function StackMoved(st: Stack, m: Move): Stack
    requires CanMove(|st.layers|, m)
  {
    match m
    case At(level, op) => StackStep(st, level, op)
    case Begin => st.(layers := [map[]] + st.layers)
    case End => Below(st)
  }

  lemma MoveRefines(s: Store, st: Stack, m: Move)
    requires Agrees(s, st) && CanMove(Depth(s), m)
    ensures Agrees(Moved(s, m), StackMoved(st, m))
  {
    match m
    case At(level, op) => StepRefines(s, st, level, op);
    case Begin =>
      EmptyUsage();
      assert Pending(map[], {}) == map[];
      assert Below(StackMoved(st, m)).layers == st.layers;
    case End =>
  }

  /** The states of a run, one more than there are moves. */
  ghost predicate IsRun(states: seq<Store>, moves: seq<Move>) {
    && |states| == |moves| + 1
    && forall i :: 0 <= i < |moves| ==>
         CanMove(Depth(states[i]), moves[i]) && states[i + 1] == Moved(states[i], moves[i])
  }

  ghost predicate IsStackRun(stacks: seq<Stack>, moves: seq<Move>) {
    && |stacks| == |moves| + 1
    && forall i :: 0 <= i < |moves| ==>
         CanMove(|stacks[i].layers|, moves[i]) && stacks[i + 1] == StackMoved(stacks[i], moves[i])
  }

  /**
   * Over every run, with operations at all levels and transactions that come and go, every level at every moment shows
   * what the maps of pending changes show, and every memory counter is exact.
   */
  lemma {:induction false} RunRefines(states: seq<Store>, stacks: seq<Stack>, moves: seq<Move>, i: nat)
    requires IsRun(states, moves) && IsStackRun(stacks, moves) && Agrees(states[0], stacks[0]) && i <= |moves|
    ensures Agrees(states[i], stacks[i])
    ensures forall n, k :: 0 <= n <= Depth(states[i]) ==> Read(Level(states[i], n), k) == Shown(stacks[i], n, k)
  {
    if i > 0 {
      RunRefines(states, stacks, moves, i - 1);
      MoveRefines(states[i - 1], stacks[i - 1], moves[i - 1]);
    }
    forall n, k | 0 <= n <= Depth(states[i]) ensures Read(Level(states[i], n), k) == Shown(stacks[i], n, k) {
      AgreesShown(states[i], stacks[i], n, k);
    }
  }
}
