/** Compact blocks (BIP 152): index coding, slots of a partial block, reconstruction (src/blockencodings.h, .cpp). */
module CompactBlocks {
  import opened Common

  const MAX16: nat := 0xFFFF

  // ----- Differential index coding -----

  /** The least index that may follow. */
  function Next(a: seq<int>): int {
    if a == [] then 0 else a[|a| - 1] + 1
  }

  /** The indexes that differences stand for: each counts from the index after the one before. */
  function Absolute(ds: seq<int>): (a: seq<int>)
    ensures |a| == |ds|
  {
    if ds == [] then []
    else
      var a := Absolute(ds[..|ds| - 1]);
      a + [Next(a) + ds[|ds| - 1]]
  }

  function Differences(a: seq<int>): (ds: seq<int>)
    ensures |ds| == |a|
  {
    seq(|a|, i requires 0 <= i < |a| => a[i] - Next(a[..i]))
  }

  predicate Increasing(a: seq<int>) {
    forall i, j :: 0 <= i < j < |a| ==> a[i] < a[j]
  }

  predicate All16(a: seq<int>) {
    forall i :: 0 <= i < |a| ==> 0 <= a[i] <= MAX16
  }

  lemma {:induction false} AbsoluteAt(ds: seq<int>, i: nat)
    requires i <= |ds|
    ensures Absolute(ds)[..i] == Absolute(ds[..i])
    ensures i < |ds| ==> Absolute(ds)[i] == Next(Absolute(ds[..i])) + ds[i]
    decreases |ds|
  {
    if i < |ds| {
      var n := |ds| - 1;
      AbsoluteAt(ds[..n], i);
      assert ds[..n][..i] == ds[..i];
    } else {
      assert ds[..i] == ds;
    }
  }

  lemma {:induction false} AbsoluteOfDifferences(a: seq<int>)
    ensures Absolute(Differences(a)) == a
    decreases |a|
  {
    if a != [] {
      var n := |a| - 1;
      AbsoluteOfDifferences(a[..n]);
      assert Differences(a)[..n] == Differences(a[..n]) by {
        forall i | 0 <= i < n ensures Differences(a)[i] == Differences(a[..n])[i] {
          assert a[..n][..i] == a[..i];
        }
      }
    }
  }

  lemma {:induction false} AbsoluteIncreases(ds: seq<int>)
    requires forall i :: 0 <= i < |ds| ==> ds[i] >= 0
    ensures Increasing(Absolute(ds)) && forall i :: 0 <= i < |ds| ==> Absolute(ds)[i] >= 0
    decreases |ds|
  {
    if ds != [] { AbsoluteIncreases(ds[..|ds| - 1]); }
  }

  /** What serializing a request writes: an unsigned 64-bit number per index. */
  function Wire(a: seq<int>): (ws: seq<nat>)
    ensures |ws| == |a|
  {
    var ds := Differences(a);
    seq(|a|, i requires 0 <= i < |a| => ds[i] % 0x1_0000_0000_0000_0000)
  }

  /** What reading a request yields, starting with the given 16-bit offset. */
  function Unwire(ws: seq<nat>, offset: nat): (r: Option<seq<int>>)
    ensures r.Some? ==> |r.value| == |ws| && All16(r.value)
  {
    if ws == [] then Some([])
    else if ws[0] + offset > MAX16 then None
    else
      var index := ws[0] + offset;
      match Unwire(ws[1..], (index + 1) % 0x1_0000)
      case None => None
      case Some(rest) => Some([index] + rest)
  }

  /** Each index read is at least the one before it plus one, in 16 bits. */
  lemma {:induction false} UnwireNext(ws: seq<nat>, offset: nat, k: nat)
    requires Unwire(ws, offset).Some? && k < |ws|
    ensures var a := Unwire(ws, offset).value;
      (k == 0 ==> a[0] >= offset) && (k > 0 ==> a[k] >= (a[k - 1] + 1) % 0x1_0000)
  {
    if k > 0 { UnwireNext(ws[1..], (ws[0] + offset + 1) % 0x1_0000, k - 1); }
  }

  lemma {:induction false} StepsIncrease(a: seq<int>)
    requires forall k :: 0 < k < |a| ==> a[k - 1] < a[k]
    ensures Increasing(a)
    decreases |a|
  {
    if |a| > 1 {
      var n := |a| - 1;
      StepsIncrease(a[..n]);
      assert a[n - 1] < a[n];
      forall i, j | 0 <= i < j < |a| ensures a[i] < a[j] {
        assert j < n ==> a[..n][i] < a[..n][j];
        assert i < n - 1 ==> a[..n][i] < a[..n][n - 1];
      }
    }
  }

  /** The offset wraps after the index 65535, so only there the indexes read can fail to increase. */
  lemma UnwireIncreases(ws: seq<nat>, offset: nat)
    requires Unwire(ws, offset).Some?
    ensures var a := Unwire(ws, offset).value;
      Increasing(a) <==> forall i :: 0 <= i < |a| - 1 ==> a[i] != MAX16
  {
    var a := Unwire(ws, offset).value;
    if forall i :: 0 <= i < |a| - 1 ==> a[i] != MAX16 {
      forall k | 0 < k < |a| ensures a[k - 1] < a[k] {
        UnwireNext(ws, offset, k);
      }
      StepsIncrease(a);
    } else {
      var i :| 0 <= i < |a| - 1 && a[i] == MAX16;
      assert a[i] >= a[i + 1];
    }
  }

  /** A number on the wire is the distance of an index from the one before it. */
  predicate Gap(ws: seq<nat>, a: seq<int>, i: nat)
    requires 0 < i < |a| == |ws|
  {
    ws[i] == a[i] - (a[i - 1] + 1)
  }

  /** Numbers that are the distances between increasing indexes are read as these indexes. */
  lemma {:induction false} UnwireOf(ws: seq<nat>, a: seq<int>, offset: nat)
    requires |ws| == |a| && All16(a)
    requires a != [] ==> ws[0] + offset == a[0]
    requires forall i :: 0 < i < |a| ==> Gap(ws, a, i)
    ensures Unwire(ws, offset) == Some(a)
  {
    if a != [] {
      var ws', a', next := ws[1..], a[1..], (a[0] + 1) % 0x1_0000;
      assert |a| > 1 ==> Gap(ws, a, 1);
      forall i | 0 < i < |a'| ensures Gap(ws', a', i) { assert Gap(ws, a, i + 1); }
      UnwireOf(ws', a', next);
      assert a == [a[0]] + a';
    }
  }

  /** Increasing indexes are written as the distances between them. */
  lemma WireAt(a: seq<int>, k: nat)
    requires All16(a) && Increasing(a) && k < |a|
    ensures Wire(a)[k] == if k == 0 then a[0] else a[k] - (a[k - 1] + 1)
  {
    assert k > 0 ==> a[k - 1] < a[k];
  }

  /** An index not above the one before it is written as a number no reader accepts. */
  lemma {:induction false} UnwireRejects(ws: seq<nat>, offset: nat, k: nat)
    requires k < |ws| && ws[k] > MAX16
    ensures Unwire(ws, offset).None?
  {
    if k > 0 && ws[0] + offset <= MAX16 {
      UnwireRejects(ws[1..], (ws[0] + offset + 1) % 0x1_0000, k - 1);
    }
  }

  /** A request survives the wire exactly if its indexes increase. */
  lemma RequestRoundTrip(a: seq<int>)
    requires All16(a)
    ensures Unwire(Wire(a), 0) == Some(a) <==> Increasing(a)
  {
    if Increasing(a) {
      if a != [] { WireAt(a, 0); }
      forall k | 0 < k < |a| ensures Gap(Wire(a), a, k) {
        WireAt(a, k);
      }
      UnwireOf(Wire(a), a, 0);
    } else {
      if forall k :: 0 < k < |a| ==> a[k - 1] < a[k] { StepsIncrease(a); }
      var k :| 0 < k < |a| && a[k - 1] >= a[k];
      assert Differences(a)[k] == a[k] - (a[k - 1] + 1);
      UnwireRejects(Wire(a), 0, k);
    }
  }

  /** Serializing a request: a read-only loop. */
  method WriteIndexes(indexes: seq<int>) returns (ws: seq<nat>)
    requires All16(indexes)
    ensures ws == Wire(indexes)
  {
    ws := [];
    for i := 0 to |indexes|
      invariant |ws| == i && forall k :: 0 <= k < i ==> ws[k] == Wire(indexes)[k]
    {
      var index := indexes[i] - (if i == 0 then 0 else indexes[i - 1] + 1);
      ws := ws + [index % 0x1_0000_0000_0000_0000];
    }
  }

  function Prepend(a: seq<int>, r: Option<seq<int>>): Option<seq<int>> {
    if r.None? then None else Some(a + r.value)
  }

  /** Taking one number off the wire. */
  lemma UnwireStep(ws: seq<nat>, done: seq<int>, j: nat, offset: nat)
    requires j < |ws| && Unwire(ws, 0) == Prepend(done, Unwire(ws[j..], offset))
    ensures ws[j] + offset > MAX16 ==> Unwire(ws, 0).None?
    ensures ws[j] + offset <= MAX16 ==>
      Unwire(ws, 0) == Prepend(done + [ws[j] + offset], Unwire(ws[j + 1..], (ws[j] + offset + 1) % 0x1_0000))
  {
    assert ws[j..][1..] == ws[j + 1..];
    if ws[j] + offset <= MAX16 {
      var rest := Unwire(ws[j + 1..], (ws[j] + offset + 1) % 0x1_0000);
      if rest.Some? {
        assert done + ([ws[j] + offset] + rest.value) == (done + [ws[j] + offset]) + rest.value;
      }
    }
  }

  /** Turns the numbers read into indexes, in place; says whether all fit in 16 bits. */
  method Accumulate(indexes: array<int>, ghost ws: seq<nat>) returns (ok: bool)
    requires indexes[..] == ws
    modifies indexes
    ensures ok <==> Unwire(ws, 0).Some?
    ensures ok ==> Unwire(ws, 0) == Some(indexes[..])
  {
    var offset := 0;
    ghost var done: seq<int> := [];
    assert ws[0..] == ws;
    assert Unwire(ws, 0).Some? ==> [] + Unwire(ws, 0).value == Unwire(ws, 0).value;
    for j := 0 to indexes.Length
      invariant 0 <= offset <= MAX16 && |done| == j
      invariant forall k :: 0 <= k < indexes.Length ==> indexes[k] == if k < j then done[k] else ws[k]
      invariant Unwire(ws, 0) == Prepend(done, Unwire(ws[j..], offset))
    {
      UnwireStep(ws, done, j, offset);
      if indexes[j] + offset > MAX16 {
        return false;
      }
      indexes[j] := indexes[j] + offset;
      offset := (indexes[j] + 1) % 0x1_0000;
      done := done + [indexes[j]];
    }
    assert indexes[..] == done + [];
    ok := true;
  }

  /** Reading a request: the numbers are read, then turned into indexes in place. */
  method ReadIndexes(ws: seq<nat>) returns (r: Option<seq<int>>)
    ensures r == Unwire(ws, 0)
  {
    var indexes := new int[|ws|];
    for i := 0 to |ws|
      invariant forall k :: 0 <= k < i ==> indexes[k] == ws[k] <= MAX16
    {
      if ws[i] > MAX16 {
        UnwireRejects(ws, 0, i);
        return None;
      }
      indexes[i] := ws[i];
    }
    var ok := Accumulate(indexes, ws);
    r := if ok then Some(indexes[..]) else None;
  }

  // ----- Slots of a partial block -----

  /** A transaction: its hash, whether it has neither inputs nor outputs, and the rest. */
  datatype Tx = Tx(hash: nat, empty: bool, body: nat)

  type Slots = seq<Option<Tx>>

  datatype Prefilled = Prefilled(index: nat, tx: Tx)

  /** A compact block message; `short` is the short id function its header and nonce select. */
  datatype Message = Message(header: Option<nat>, ids: seq<nat>, prefilled: seq<Prefilled>, short: nat -> nat)

  /** The positions of the prefilled transactions. */
  function Places(pre: seq<Prefilled>): (ps: seq<int>)
    ensures |ps| == |pre|
  {
    Absolute(seq(|pre|, i requires 0 <= i < |pre| => pre[i].index))
  }

  /** The prefilled part of a message is accepted. */
  predicate Accepted(pre: seq<Prefilled>, ids: nat) {
    forall i :: 0 <= i < |pre| ==> !pre[i].tx.empty && Places(pre)[i] <= MAX16 && Places(pre)[i] <= ids + i
  }

  /** Exactly the prefilled positions are taken. */
  ghost predicate Placed(slots: Slots, pre: seq<Prefilled>) {
    && (forall i :: 0 <= i < |pre| ==> 0 <= Places(pre)[i] < |slots| && slots[Places(pre)[i]] == Some(pre[i].tx))
    && (forall p :: 0 <= p < |slots| && slots[p].Some? ==> p in Places(pre))
  }

  lemma PlacesNext(pre: seq<Prefilled>, i: nat)
    requires i < |pre|
    ensures Places(pre[..i]) == Places(pre)[..i]
    ensures Places(pre)[i] == Next(Places(pre)[..i]) + pre[i].index
    ensures Places(pre[..i + 1]) == Places(pre)[..i + 1]
  {
    var ds := seq(|pre|, k requires 0 <= k < |pre| => pre[k].index);
    AbsoluteAt(ds, i);
    AbsoluteAt(ds, i + 1);
    assert ds[..i] == seq(i, k requires 0 <= k < i => pre[..i][k].index);
    assert ds[..i + 1] == seq(i + 1, k requires 0 <= k < i + 1 => pre[..i + 1][k].index);
  }

  lemma PlacesIncrease(pre: seq<Prefilled>)
    ensures Increasing(Places(pre)) && forall i :: 0 <= i < |pre| ==> Places(pre)[i] >= 0
  {
    AbsoluteIncreases(seq(|pre|, k requires 0 <= k < |pre| => pre[k].index));
  }

  /** The first n prefilled transactions are acceptable and in their places, and nothing else is. */
  ghost predicate PlacedTo(slots: Slots, pre: seq<Prefilled>, ps: seq<int>, n: nat, ids: nat)
    requires n <= |pre| == |ps|
  {
    && |slots| == ids + |pre|
    && (forall k :: 0 <= k < n ==> !pre[k].tx.empty && ps[k] <= MAX16 && ps[k] <= ids + k)
    && (forall k :: 0 <= k < n ==> 0 <= ps[k] < |slots| && slots[ps[k]] == Some(pre[k].tx))
    && (forall p :: 0 <= p < |slots| && slots[p].Some? ==> p in ps[..n])
  }

  lemma PlacedNext(slots: Slots, pre: seq<Prefilled>, ps: seq<int>, n: nat, ids: nat)
    requires n < |pre| == |ps| && PlacedTo(slots, pre, ps, n, ids) && Increasing(ps) && ps[n] >= 0
    requires !pre[n].tx.empty && ps[n] <= MAX16 && ps[n] <= ids + n
    ensures PlacedTo(slots[ps[n] := Some(pre[n].tx)], pre, ps, n + 1, ids)
  {
    assert ps[..n + 1] == ps[..n] + [ps[n]];
  }

  /** Places the prefilled transactions, or finds the message invalid. The places stay within the block. */
  method Place(pre: seq<Prefilled>, ids: nat) returns (slots: Option<Slots>)
    ensures slots.Some? <==> Accepted(pre, ids)
    ensures slots.Some? ==> |slots.value| == ids + |pre| && Placed(slots.value, pre)
  {
    var available: Slots := seq(ids + |pre|, _ => None);
    var last := -1;
    ghost var ps := Places(pre);
    PlacesIncrease(pre);
    for i := 0 to |pre|
      invariant PlacedTo(available, pre, ps, i, ids) && last == Next(ps[..i]) - 1
    {
      PlacesNext(pre, i);
      if pre[i].tx.empty {
        return None;
      }
      last := last + pre[i].index + 1;
      if last > MAX16 {
        return None;
      }
      if last > ids + i {
        return None;
      }
      PlacedNext(available, pre, ps, i, ids);
      available := available[last := Some(pre[i].tx)];
    }
    assert ps[..|pre|] == ps;
    slots := Some(available);
  }

  /** The open positions from p on, in order. */
  ghost function FreeFrom(slots: Slots, p: nat): (ps: seq<nat>)
    requires p <= |slots|
    ensures forall i :: 0 <= i < |ps| ==> p <= ps[i] < |slots| && slots[ps[i]].None?
    decreases |slots| - p
  {
    if p == |slots| then []
    else if slots[p].None? then [p] + FreeFrom(slots, p + 1)
    else FreeFrom(slots, p + 1)
  }

  ghost function Free(slots: Slots): seq<nat> { FreeFrom(slots, 0) }

  ghost function TakenFrom(slots: Slots, p: nat): (n: nat)
    requires p <= |slots|
    ensures n <= |slots| - p
    decreases |slots| - p
  {
    if p == |slots| then 0 else (if slots[p].Some? then 1 else 0) + TakenFrom(slots, p + 1)
  }

  lemma {:induction false} FreeAndTaken(slots: Slots, p: nat)
    requires p <= |slots|
    ensures |FreeFrom(slots, p)| + TakenFrom(slots, p) == |slots| - p
    decreases |slots| - p
  {
    if p < |slots| { FreeAndTaken(slots, p + 1); }
  }

  lemma {:induction false} FreeHas(slots: Slots, p: nat, q: nat)
    requires p <= q < |slots| && slots[q].None?
    ensures q in FreeFrom(slots, p)
    decreases q - p
  {
    if p < q { FreeHas(slots, p + 1, q); }
  }

  lemma {:induction false} TakenCount(slots: Slots, pre: seq<Prefilled>, p: nat, k: nat)
    requires Placed(slots, pre) && p <= |slots| && k <= |pre|
    requires forall i :: 0 <= i < k ==> Places(pre)[i] < p
    requires forall i :: k <= i < |pre| ==> Places(pre)[i] >= p
    ensures TakenFrom(slots, p) == |pre| - k
    decreases |slots| - p
  {
    var ps := Places(pre);
    PlacesIncrease(pre);
    if p == |slots| {
      assert forall i :: 0 <= i < |pre| ==> ps[i] < |slots|;
    } else if slots[p].Some? {
      var j :| 0 <= j < |pre| && ps[j] == p;
      assert k <= j;
      assert ps[k] <= ps[j];
      TakenCount(slots, pre, p + 1, k + 1);
    } else {
      assert forall i :: 0 <= i < |pre| ==> ps[i] != p;
      TakenCount(slots, pre, p + 1, k);
    }
  }

  /** As many positions stay open as there are short ids. */
  lemma OpenCount(slots: Slots, pre: seq<Prefilled>, ids: nat)
    requires Placed(slots, pre) && |slots| == ids + |pre|
    ensures |Free(slots)| == ids && TakenFrom(slots, 0) == |pre|
  {
    PlacesIncrease(pre);
    TakenCount(slots, pre, 0, 0);
    FreeAndTaken(slots, 0);
  }

  /** Some position that a 16-bit number can name is open. */
  ghost predicate Ends(slots: Slots) {
    exists p :: 0 <= p < |slots| && p <= MAX16 && slots[p].None?
  }

  /** No position above the 16-bit range is taken. */
  ghost predicate Low(slots: Slots) {
    forall p :: 0 <= p < |slots| && slots[p].Some? ==> p <= MAX16
  }

  lemma {:induction false} FreeSplit(slots: Slots, p: nat, q: nat)
    requires p <= q <= |slots|
    ensures |FreeFrom(slots, q)| <= |FreeFrom(slots, p)|
    ensures (forall k :: p <= k < q ==> slots[k].None?) ==> |FreeFrom(slots, p)| == q - p + |FreeFrom(slots, q)|
    decreases q - p
  {
    if p < q { FreeSplit(slots, p + 1, q); }
  }

  /** The count of taken positions below p fits in 16 bits. */
  lemma OffsetFits(slots: Slots, p: nat)
    requires p <= |slots| && Low(slots) && Ends(slots)
    ensures p - (|Free(slots)| - |FreeFrom(slots, p)|) <= MAX16
  {
    FreeSplit(slots, 0, p);
    if p > MAX16 {
      FreeSplit(slots, MAX16 + 1, p);
      var q :| 0 <= q < |slots| && q <= MAX16 && slots[q].None?;
      FreeSplit(slots, 0, q);
      FreeSplit(slots, q + 1, MAX16 + 1);
    }
  }

  /** For an accepted message with short ids some position is open that 16 bits can name, unless 65536 are prefilled. */
  lemma EndsExact(slots: Slots, pre: seq<Prefilled>, ids: nat)
    requires Placed(slots, pre) && Accepted(pre, ids) && |slots| == ids + |pre| && ids > 0
    ensures Low(slots) && (Ends(slots) <==> |pre| != MAX16 + 1)
  {
    var ps := Places(pre);
    PlacesIncrease(pre);
    OpenCount(slots, pre, ids);
    forall p | 0 <= p < |slots| && slots[p].Some? ensures p <= MAX16 {
      var i :| 0 <= i < |pre| && ps[i] == p;
    }
    if |pre| == MAX16 + 1 {
      forall p | 0 <= p <= MAX16 ensures slots[p].Some? {
        PinnedPlaces(ps, p);
        assert slots[ps[p]] == Some(pre[p].tx);
      }
    } else if !Ends(slots) {
      assert Free(slots)[0] > MAX16;
      TakenRun(slots, 0, MAX16 + 1);
      TakenRun(slots, MAX16 + 1, |slots|);
    }
  }

  /** The scan for the first short id passes its n-th test: it looks at a taken slot and moves its 16-bit offset on. */
  ghost predicate PassesTest(slots: Slots, n: nat) {
    n % 0x1_0000 < |slots| && slots[n % 0x1_0000].Some?
  }

  /** The scan for the first short id goes on forever exactly if 65536 transactions are prefilled. */
  lemma EndlessExact(slots: Slots, pre: seq<Prefilled>, ids: nat)
    requires Placed(slots, pre) && Accepted(pre, ids) && |slots| == ids + |pre| && ids > 0
    ensures (forall n :: PassesTest(slots, n)) <==> |pre| == MAX16 + 1
  {
    EndsExact(slots, pre, ids);
    if p :| 0 <= p < |slots| && p <= MAX16 && slots[p].None? {
      assert !PassesTest(slots, p);
    }
  }

  lemma {:induction false} PlacesInRow(pre: seq<Prefilled>, i: nat)
    requires i < |pre| && forall k :: 0 <= k < |pre| ==> pre[k].index == 0
    ensures Places(pre)[i] == i
  {
    PlacesNext(pre, i);
    if i > 0 { PlacesInRow(pre, i - 1); }
  }

  lemma {:induction false} PinnedPlaces(ps: seq<int>, i: nat)
    requires |ps| == MAX16 + 1 && Increasing(ps) && i < |ps|
    requires forall k :: 0 <= k < |ps| ==> 0 <= ps[k] <= MAX16
    ensures ps[i] == i
  {
    AtLeast(ps, i);
    AtMost(ps, i);
  }

  lemma {:induction false} AtLeast(ps: seq<int>, i: nat)
    requires Increasing(ps) && i < |ps| && ps[0] >= 0
    ensures ps[i] >= i
  {
    if i > 0 { AtLeast(ps, i - 1); }
  }

  lemma {:induction false} AtMost(ps: seq<int>, i: nat)
    requires Increasing(ps) && i < |ps| && ps[|ps| - 1] < |ps|
    ensures ps[i] <= i
    decreases |ps| - i
  {
    if i < |ps| - 1 { AtMost(ps, i + 1); }
  }

  lemma {:induction false} TakenRun(slots: Slots, p: nat, q: nat)
    requires p <= q <= |slots|
    ensures (forall k :: p <= k < q ==> slots[k].Some?) ==> TakenFrom(slots, p) == q - p + TakenFrom(slots, q)
    ensures (forall k :: p <= k < q ==> slots[k].None?) ==> TakenFrom(slots, p) == TakenFrom(slots, q)
    decreases q - p
  {
    if p < q { TakenRun(slots, p + 1, q); }
  }

  /**
   * The 16-bit position kept for each short id is the right one exactly if the block has at most 65536
   * transactions.
   */
  lemma PositionsExact(slots: Slots)
    requires Low(slots)
    ensures (forall i :: 0 <= i < |Free(slots)| ==> Free(slots)[i] % 0x1_0000 == Free(slots)[i]) <==>
      |slots| <= MAX16 + 1
  {
    if |slots| > MAX16 + 1 {
      FreeHas(slots, 0, |slots| - 1);
      var i :| 0 <= i < |Free(slots)| && Free(slots)[i] == |slots| - 1;
      assert Free(slots)[i] % 0x1_0000 != Free(slots)[i];
    }
  }

  /** The first n short ids are distinct. */
  predicate Distinct(ids: seq<nat>, n: nat)
    requires n <= |ids|
  {
    forall i, j :: 0 <= i < j < n ==> ids[i] != ids[j]
  }

  /** Each of the first n short ids stands for the open position of the same rank, as far as 16 bits can tell. */
  ghost predicate Maps(pos: map<nat, nat>, ids: seq<nat>, n: nat, free: seq<nat>)
    requires n <= |ids| <= |free|
  {
    forall i :: 0 <= i < n ==> ids[i] in pos && pos[ids[i]] == free[i] % 0x1_0000
  }

  ghost predicate Scanned(pos: map<nat, nat>, ids: seq<nat>, n: nat, free: seq<nat>)
    requires n <= |ids| <= |free|
  {
    && (forall id :: id in pos <==> id in ids[..n])
    && |pos| <= n && (|pos| == n <==> Distinct(ids, n))
    && (Distinct(ids, n) ==> Maps(pos, ids, n, free))
  }

  /** Adding one short id to the map; a repeated one does not make it bigger. */
  lemma ScannedNext(pos: map<nat, nat>, ids: seq<nat>, n: nat, free: seq<nat>, p: nat)
    requires n < |ids| <= |free| && Scanned(pos, ids, n, free) && p == free[n] % 0x1_0000
    ensures Scanned(pos[ids[n] := p], ids, n + 1, free)
  {
    var id := ids[n];
    var pos' := pos[id := p];
    assert ids[..n + 1] == ids[..n] + [id];
    GrowMap(pos, id, p);
    if id in pos {
      var k :| 0 <= k < n && ids[..n][k] == id;
      assert ids[k] == ids[n];
    } else {
      assert forall k :: 0 <= k < n ==> ids[k] in ids[..n];
      assert Distinct(ids, n + 1) <==> Distinct(ids, n);
    }
  }

  lemma GrowMap(m: map<nat, nat>, k: nat, v: nat)
    ensures |m[k := v]| == |m| + (if k in m then 0 else 1)
  {
    var m' := m[k := v];
    assert m'.Keys == m.Keys + {k};
    assert |m'.Keys| == |m'| && |m.Keys| == |m|;
  }

  /** Moves the 16-bit offset on to the next open position. */
  method NextOpen(slots: Slots, i: nat, offset: nat) returns (offset': nat)
    requires Low(slots) && Ends(slots) && offset <= MAX16 && i + offset <= |slots| && i < |Free(slots)|
    requires FreeFrom(slots, i + offset) == Free(slots)[i..]
    ensures offset' <= MAX16 && i + offset' == Free(slots)[i]
    ensures FreeFrom(slots, i + offset' + 1) == Free(slots)[i + 1..]
  {
    offset' := offset;
    while slots[i + offset'].Some?
      invariant offset' <= MAX16 && i + offset' < |slots|
      invariant FreeFrom(slots, i + offset') == Free(slots)[i..]
      decreases |slots| - offset'
    {
      OffsetFits(slots, i + offset' + 1);
      offset' := (offset' + 1) % 0x1_0000;
    }
    OpenAt(slots, i, i + offset');
  }

  /** An open position that begins the rest of the open positions. */
  lemma OpenAt(slots: Slots, i: nat, p: nat)
    requires p < |slots| && slots[p].None? && i <= |Free(slots)| && FreeFrom(slots, p) == Free(slots)[i..]
    ensures i < |Free(slots)| && Free(slots)[i] == p && FreeFrom(slots, p + 1) == Free(slots)[i + 1..]
  {
    assert FreeFrom(slots, p) == [p] + FreeFrom(slots, p + 1);
    assert Free(slots)[i..][0] == Free(slots)[i];
    assert Free(slots)[i..][1..] == Free(slots)[i + 1..];
  }

  /** The scan has given positions to the first i short ids. */
  ghost predicate At(slots: Slots, ids: seq<nat>, i: nat, offset: nat, m: map<nat, nat>) {
    && i <= |ids| == |Free(slots)| && offset <= MAX16 && i + offset <= |slots|
    && FreeFrom(slots, i + offset) == Free(slots)[i..]
    && Scanned(m, ids, i, Free(slots))
  }

  method ScanNext(slots: Slots, ids: seq<nat>, i: nat, offset: nat, m: map<nat, nat>)
      returns (offset': nat, m': map<nat, nat>)
    requires At(slots, ids, i, offset, m) && i < |ids| && Low(slots) && Ends(slots)
    ensures At(slots, ids, i + 1, offset', m')
  {
    offset' := NextOpen(slots, i, offset);
    var p: nat := (i + offset') % 0x1_0000;
    ScannedNext(m, ids, i, Free(slots), p);
    m' := m[ids[i] := p];
  }

  /**
   * The free-slot scan: the i-th short id is given the i-th open position, kept in 16 bits. `crowded[i]` is whether the
   * hash bucket of the i-th id is found too full.
   */
  method Scan(slots: Slots, ids: seq<nat>, crowded: seq<bool>) returns (pos: Option<map<nat, nat>>)
    requires |Free(slots)| == |ids| == |crowded| && Low(slots) && (ids != [] ==> Ends(slots))
    ensures pos.Some? <==> Distinct(ids, |ids|) && forall i :: 0 <= i < |ids| ==> !crowded[i]
    ensures pos.Some? ==> Maps(pos.value, ids, |ids|, Free(slots)) && |pos.value| == |ids|
    ensures pos.Some? ==> forall id :: id in pos.value ==> id in ids
  {
    var m: map<nat, nat> := map[];
    var offset: nat := 0;
    for i := 0 to |ids|
      invariant At(slots, ids, i, offset, m)
      invariant forall k :: 0 <= k < i ==> !crowded[k]
    {
      offset, m := ScanNext(slots, ids, i, offset, m);
      if crowded[i] {
        return None;
      }
    }
    ScanEnds(slots, ids, offset, m);
    if |m| != |ids| {
      return None;
    }
    pos := Some(m);
  }

  lemma ScanEnds(slots: Slots, ids: seq<nat>, offset: nat, m: map<nat, nat>)
    requires At(slots, ids, |ids|, offset, m)
    ensures |m| == |ids| <==> Distinct(ids, |ids|)
    ensures |m| == |ids| ==> Maps(m, ids, |ids|, Free(slots)) && forall id :: id in m ==> id in ids
  {
    assert ids[..|ids|] == ids;
  }
}
