/** The check queue's fields, updated in place while the mutex is held. */
module CheckQueueObject {
  import opened Common
  import opened CheckQueue

  lemma {:induction false} ReverseSplit(cs: seq<bool>, k: nat)
    requires k < |cs|
    ensures Reverse(cs[k..]) == Reverse(cs[k + 1..]) + [cs[k]]
    decreases |cs| - k
  {
    var tail := cs[k..];
    if |tail| > 1 {
      var init := cs[..|cs| - 1];
      ReverseSplit(init, k);
      assert tail[..|tail| - 1] == init[k..];
      assert cs[k + 1..][..|tail| - 2] == init[k + 1..];
    } else {
      assert tail == [cs[k]] && cs[k + 1..] == [];
    }
  }

  class Queue {
    var queue: seq<bool>
    var nIdle: int
    var nTotal: int
    var fAllOk: bool
    var nTodo: int
    const nBatchSize: nat

    ghost function Now(): Shared
      reads this
    {
      Shared(queue, nIdle, nTotal, fAllOk, nTodo)
    }

    constructor (batchSize: nat)
      ensures Now() == Shared([], 0, 0, true, 0) && nBatchSize == batchSize
    {
      queue, nIdle, nTotal, fAllOk, nTodo, nBatchSize := [], 0, 0, true, 0, batchSize;
    }

    /** Pushes the checks one by one. */
    method Add(vChecks: seq<bool>)
      modifies this
      ensures Now() == old(Now()).(queue := old(queue) + vChecks, nTodo := old(nTodo) + |vChecks|)
    {
      for i := 0 to |vChecks|
        invariant Now() == old(Now()).(queue := old(queue) + vChecks[..i])
      {
        queue := queue + [vChecks[i]];
      }
      nTodo := nTodo + |vChecks|;
    }

    /** The clean-up after a batch, or the registration of a thread that enters the loop. */
    method CleanUpBatch(nNow: nat, fOk: bool, fMaster: bool) returns (notifyMaster: bool)
      modifies this
      ensures Now() == CleanUp(old(Now()), nNow, fOk)
      ensures notifyMaster <==> nNow > 0 && nTodo == 0 && !fMaster
    {
      notifyMaster := false;
      if nNow > 0 {
        fAllOk := fAllOk && fOk;
        nTodo := nTodo - nNow;
        notifyMaster := nTodo == 0 && !fMaster;
      } else {
        nTotal := nTotal + 1;
      }
    }

    /** The inner loop up to the point where it returns, waits, or has popped a batch off the stack. */
    method Look(fMaster: bool) returns (d: Decision)
      requires Countable(Now())
      modifies this
      ensures (Now(), d) == Decide(old(Now()), fMaster, nBatchSize)
    {
      if queue == [] {
        if fMaster && nTodo == 0 {
          nTotal := nTotal - 1;
          d := Return(fAllOk);
          fAllOk := true;
        } else {
          nIdle := nIdle + 1;
          d := Block;
        }
        return;
      }
      var nNow := Max(1, Min(nBatchSize, |queue| / (nTotal + nIdle + 1)));
      ghost var n := BatchSize(old(Now()), nBatchSize);
      assert nNow == n;
      ghost var all := queue;
      var vChecks := [];
      for i := 0 to nNow
        invariant Now() == old(Now()).(queue := all[..|all| - i])
        invariant vChecks == Reverse(all[|all| - i..])
      {
        ReverseSplit(all, |all| - i - 1);
        vChecks := vChecks + [queue[|queue| - 1]];
        queue := queue[..|queue| - 1];
      }
      d := Take(vChecks);
    }
  }

  /** Runs a batch: once a check failed, the remaining ones are skipped. */
  method RunBatch(vChecks: seq<bool>, start: bool) returns (fOk: bool)
    ensures fOk <==> start && All(vChecks)
  {
    fOk := start;
    for i := 0 to |vChecks|
      invariant fOk <==> start && All(vChecks[..i])
    {
      if fOk { fOk := vChecks[i]; }
      assert All(vChecks[..i + 1]) <==> All(vChecks[..i]) && vChecks[i] by {
        AllConcat(vChecks[..i], [vChecks[i]]);
        assert vChecks[..i + 1] == vChecks[..i] + [vChecks[i]];
      }
    }
    assert vChecks[..|vChecks|] == vChecks;
  }
}
