/**
 * The cuckoo cache: a fixed table in which every element may sit at any of eight hash locations. Entries
 * marked as garbage are only overwritten when their slot is needed.
 */
module Cuckoo {
  import opened Common

  type Element = nat

  /** What a table slot holds before anything is stored in it. */
  const DEFAULT: Element := 0

  const WAYS := 8

  /** The hash functions, already reduced to the table size. */
  datatype Config = Config(hash: (Element, nat) -> nat, size: nat, depthLimit: nat, epochSize: nat) {
    predicate WellFormed() { size > 0 && depthLimit > 0 }

    function Loc(e: Element, k: nat): (l: nat)
      requires WellFormed()
      ensures l < size
    {
      hash(e, k) % size
    }

    ghost predicate IsLoc(e: Element, l: int)
      requires WellFormed()
    {
      exists k: nat :: k < WAYS && Loc(e, k) == l
    }
  }

  // ---------------------------------------------------------------- contents

  /** Live entries and remembered garbage sit at one of their own locations. */
  ghost predicate Placed(cfg: Config, table: seq<Element>, garbage: seq<bool>)
    requires cfg.WellFormed() && |table| == |garbage|
  {
    forall i :: 0 <= i < |table| && (table[i] != DEFAULT || !garbage[i]) ==> cfg.IsLoc(table[i], i)
  }

  /** No element is stored twice. */
  ghost predicate Distinct(table: seq<Element>) {
    forall i, j :: 0 <= i < j < |table| && table[i] == table[j] ==> table[i] == DEFAULT
  }

  function One(b: bool): nat { if b then 1 else 0 }

  /** How many entries are live and recent. */
  ghost function Young(recent: seq<bool>, garbage: seq<bool>): nat
    requires |recent| == |garbage|
  {
    if recent == [] then 0
    else
      var n := |recent| - 1;
      Young(recent[..n], garbage[..n]) + One(recent[n] && !garbage[n])
  }

  /** In how many slots an element is live. */
  ghost function Live(table: seq<Element>, garbage: seq<bool>, x: Element): nat
    requires |table| == |garbage|
  {
    if table == [] then 0
    else
      var n := |table| - 1;
      Live(table[..n], garbage[..n], x) + One(!garbage[n] && table[n] == x)
  }

  /** Replacing an entry: a live one is exchanged, a garbage one is overwritten and becomes live. */
  lemma {:induction false} LiveReplace(table: seq<Element>, garbage: seq<bool>, i: nat, e: Element, x: Element)
    requires |table| == |garbage| && i < |table|
    ensures Live(table[i := e], garbage[i := false], x) + One(!garbage[i] && table[i] == x)
         == Live(table, garbage, x) + One(e == x)
    decreases |table|
  {
    var n := |table| - 1;
    var table', garbage' := table[i := e], garbage[i := false];
    if i < n {
      LiveReplace(table[..n], garbage[..n], i, e, x);
      assert table'[..n] == table[..n][i := e] && garbage'[..n] == garbage[..n][i := false];
    } else {
      assert table'[..n] == table[..n] && garbage'[..n] == garbage[..n];
    }
  }

  /** An element with a slot that is not garbage is live. */
  lemma {:induction false} LiveAt(table: seq<Element>, garbage: seq<bool>, i: nat)
    requires |table| == |garbage| && i < |table| && !garbage[i]
    ensures Live(table, garbage, table[i]) > 0
    decreases |table|
  {
    var n := |table| - 1;
    if i < n { LiveAt(table[..n], garbage[..n], i); }
  }

  /** The live entries after a change of table and marks: one in, one out. */
  ghost predicate Exchanged(t: seq<Element>, g: seq<bool>, t': seq<Element>, g': seq<bool>, gain: Element,
    lost: Element)
    requires |t| == |g| && |t'| == |g'|
  {
    forall x :: Live(t', g', x) + One(x == lost) == Live(t, g, x) + One(x == gain)
  }

  ghost predicate Gained(t: seq<Element>, g: seq<bool>, t': seq<Element>, g': seq<bool>, gain: Element)
    requires |t| == |g| && |t'| == |g'|
  {
    forall x :: Live(t', g', x) == Live(t, g, x) + One(x == gain)
  }

  lemma ReplaceLive(t: seq<Element>, g: seq<bool>, i: nat, e: Element)
    requires |t| == |g| && i < |t|
    ensures if g[i] then Gained(t, g, t[i := e], g[i := false], e)
      else Exchanged(t, g, t[i := e], g[i := false], e, t[i])
  {
    forall x ensures Live(t[i := e], g[i := false], x) + One(!g[i] && t[i] == x) == Live(t, g, x) + One(e == x) {
      LiveReplace(t, g, i, e, x);
    }
  }

  lemma ReplaceMultiset(s: seq<Element>, i: nat, x: Element)
    requires i < |s|
    ensures multiset(s[i := x]) + multiset{s[i]} == multiset(s) + multiset{x}
  {
    assert s == s[..i] + [s[i]] + s[i + 1..];
    assert s[i := x] == s[..i] + [x] + s[i + 1..];
  }

  /** The element in hand is nowhere in the table. */
  ghost predicate InHand(table: seq<Element>, e: Element) {
    e != DEFAULT ==> e !in table
  }

  lemma SwapKeeps(cfg: Config, table: seq<Element>, garbage: seq<bool>, i: nat, e: Element)
    requires cfg.WellFormed() && |table| == |garbage| && i < |table|
    requires Placed(cfg, table, garbage) && Distinct(table) && InHand(table, e) && cfg.IsLoc(e, i)
    ensures Placed(cfg, table[i := e], garbage[i := false]) && Distinct(table[i := e])
      && InHand(table[i := e], table[i])
  {
  }

  lemma LeftInHand(table: seq<Element>, i: nat, e: Element)
    requires i < |table| && Distinct(table) && InHand(table, e)
    ensures InHand(table[i := e], table[i])
  {
  }

  /** The table holds exactly the elements that were inserted and not dropped since. */
  ghost predicate Accounts(table: seq<Element>, inserted: set<Element>, dropped: set<Element>) {
    forall x :: x != DEFAULT ==> (x in table <==> x in inserted && x !in dropped)
  }

  lemma AccountsNext(t: seq<Element>, t': seq<Element>, inserted: set<Element>, dropped: set<Element>, e: Element,
    lost: Element)
    requires Accounts(t, inserted, dropped) && InHand(t, e) && InHand(t', lost)
    requires multiset(t') + multiset{lost} == multiset(t) + multiset{e}
    ensures Accounts(t', inserted + {e}, dropped - {e} + {lost})
    ensures lost == DEFAULT || lost in inserted + {e}
  {
    forall x ensures multiset(t')[x] + One(x == lost) == multiset(t)[x] + One(x == e) {
      assert (multiset(t') + multiset{lost})[x] == (multiset(t) + multiset{e})[x];
    }
    forall x | x != DEFAULT
      ensures x in t' <==> x in inserted + {e} && x !in dropped - {e} + {lost}
    {
      assert x in t' <==> multiset(t')[x] > 0;
      assert x in t <==> multiset(t)[x] > 0;
    }
    assert lost in t <==> multiset(t)[lost] > 0;
  }

  class Cache {
    const cfg: Config
    const table: array<Element>
    const garbage: array<bool>
    const recent: array<bool>
    var counter: nat
    /** All elements inserted so far, and those of them that were dropped after their last insertion. */
    ghost var inserted: set<Element>
    ghost var dropped: set<Element>

    ghost predicate Accounted()
      reads this, table
    {
      Accounts(table[..], inserted, dropped)
    }

    ghost predicate Valid()
      reads table, garbage, recent
    {
      && cfg.WellFormed() && table.Length == garbage.Length == recent.Length == cfg.size
      && garbage != recent
      && Placed(cfg, table[..], garbage[..]) && Distinct(table[..])
    }

    /** setup: everything empty and free to be overwritten. */
    constructor (cfg: Config)
      requires cfg.WellFormed()
      ensures Valid() && this.cfg == cfg && fresh(table) && fresh(garbage) && fresh(recent)
      ensures forall i :: 0 <= i < cfg.size ==> table[i] == DEFAULT && garbage[i]
      ensures Accounted() && inserted == {} && dropped == {}
    {
      this.cfg := cfg;
      inserted, dropped := {}, {};
      counter := cfg.epochSize;
      table := new Element[cfg.size](_ => DEFAULT);
      garbage := new bool[cfg.size](_ => true);
      recent := new bool[cfg.size](_ => false);
    }

    /**
     * contains: finds an element exactly when it is in the table, that is, when it was inserted and not dropped since;
     * and can mark it as garbage.
     */
    method Contains(e: Element, erase: bool) returns (found: bool)
      requires Valid()
      modifies garbage
      ensures Valid()
      ensures e != DEFAULT ==> (found <==> e in table[..])
      ensures Accounted() && e != DEFAULT ==> (found <==> e in inserted && e !in dropped)
      ensures forall i :: 0 <= i < cfg.size && table[i] != e ==> garbage[i] == old(garbage[i])
      ensures forall i :: 0 <= i < cfg.size && table[i] == e && e != DEFAULT ==>
        garbage[i] == (old(garbage[i]) || erase)
      ensures !erase ==> garbage[..] == old(garbage[..])
    {
      for k := 0 to WAYS
        invariant forall j: nat :: j < k ==> table[cfg.Loc(e, j)] != e
      {
        var loc := cfg.Loc(e, k);
        if table[loc] == e {
          if erase { garbage[loc] := true; }
          return true;
        }
      }
      return false;
    }

    /** The scan of epoch_check. */
    method CountYoung() returns (n: nat)
      requires Valid()
      ensures n == Young(recent[..], garbage[..])
    {
      n := 0;
      for i := 0 to cfg.size
        invariant n == Young(recent[..i], garbage[..i])
      {
        assert recent[..i + 1][..i] == recent[..i] && garbage[..i + 1][..i] == garbage[..i];
        if recent[i] && !garbage[i] { n := n + 1; }
      }
      assert recent[..cfg.size] == recent[..] && garbage[..cfg.size] == garbage[..];
    }

    /**
     * epoch_check: when the countdown is over and enough recent entries are live, the old entries become garbage and
     * the recent ones old; otherwise a new countdown starts.
     */
    method EpochCheck()
      requires Valid()
      modifies this`counter, garbage, recent
      ensures Valid() && table[..] == old(table[..])
      ensures var young := Young(old(recent[..]), old(garbage[..]));
        if old(counter) == 0 && young >= cfg.epochSize then
          && counter == cfg.epochSize
          && forall i :: 0 <= i < cfg.size ==> !recent[i] && garbage[i] == (old(garbage[i]) || !old(recent[i]))
        else
          && garbage[..] == old(garbage[..]) && recent[..] == old(recent[..])
          && counter == if old(counter) > 0 then old(counter) - 1
            else Max(1, Max(cfg.epochSize / 16, cfg.epochSize - young))
    {
      if counter != 0 {
        counter := counter - 1;
        return;
      }
      var unused := CountYoung();
      if unused >= cfg.epochSize {
        Age();
        counter := cfg.epochSize;
      } else {
        counter := Max(1, Max(cfg.epochSize / 16, cfg.epochSize - unused));
      }
    }

    /** The aging loop of epoch_check. */
    method Age()
      requires Valid()
      modifies garbage, recent
      ensures Valid()
      ensures forall i :: 0 <= i < cfg.size ==> !recent[i] && garbage[i] == (old(garbage[i]) || !old(recent[i]))
    {
      for i := 0 to cfg.size
        invariant forall j :: 0 <= j < i ==> !recent[j] && garbage[j] == (old(garbage[j]) || !old(recent[j]))
        invariant forall j :: i <= j < cfg.size ==> garbage[j] == old(garbage[j]) && recent[j] == old(recent[j])
      {
        if recent[i] { recent[i] := false; } else { garbage[i] := true; }
      }
    }

    /** An element that is already in the table is only marked live again; the result is its slot, or -1. */
    method Refresh(e: Element) returns (slot: int)
      requires Valid()
      modifies garbage, recent
      ensures Valid() && -1 <= slot < cfg.size
      ensures e != DEFAULT ==> (slot >= 0 <==> e in table[..])
      ensures slot < 0 ==> garbage[..] == old(garbage[..]) && recent[..] == old(recent[..])
      ensures slot >= 0 ==> table[slot] == e && garbage[..] == old(garbage[..])[slot := false]
      ensures slot >= 0 ==> recent[..] == old(recent[..])[slot := true]
    {
      for k := 0 to WAYS
        invariant garbage[..] == old(garbage[..]) && recent[..] == old(recent[..])
        invariant forall j: nat :: j < k ==> table[cfg.Loc(e, j)] != e
      {
        slot := cfg.Loc(e, k);
        if table[slot] == e {
          garbage[slot] := false;
          recent[slot] := true;
          assert cfg.IsLoc(e, slot);
          assert garbage[..] == old(garbage[..])[slot := false] && recent[..] == old(recent[..])[slot := true];
          return;
        }
      }
      return -1;
    }

    /** Puts the element in hand into a garbage slot of its own and returns the slot, or -1 if there is none. */
    method TryPlace(e: Element, epoch: bool) returns (slot: int)
      requires Valid() && InHand(table[..], e)
      modifies table, garbage, recent
      ensures Valid() && -1 <= slot < cfg.size
      ensures slot < 0 ==>
        table[..] == old(table[..]) && garbage[..] == old(garbage[..]) && recent[..] == old(recent[..])
      ensures slot < 0 ==> forall k: nat :: k < WAYS ==> !garbage[cfg.Loc(e, k)]
      ensures slot >= 0 ==> old(garbage[slot]) && table[..] == old(table[..])[slot := e]
      ensures slot >= 0 ==>
        garbage[..] == old(garbage[..])[slot := false] && recent[..] == old(recent[..])[slot := epoch]
      ensures slot >= 0 ==>
        exists k: nat :: k < WAYS && slot == cfg.Loc(e, k) && forall j: nat :: j < k ==> !old(garbage[cfg.Loc(e, j)])
    {
      for k := 0 to WAYS
        invariant table[..] == old(table[..]) && garbage[..] == old(garbage[..]) && recent[..] == old(recent[..])
        invariant forall j: nat :: j < k ==> !garbage[cfg.Loc(e, j)]
      {
        slot := cfg.Loc(e, k);
        if garbage[slot] {
          assert cfg.IsLoc(e, slot);
          SwapKeeps(cfg, table[..], garbage[..], slot, e);
          table[slot] := e;
          garbage[slot] := false;
          recent[slot] := epoch;
          assert table[..] == old(table[..])[slot := e] && garbage[..] == old(garbage[..])[slot := false];
          assert recent[..] == old(recent[..])[slot := epoch];
          return;
        }
      }
      return -1;
    }

    /** Where the next displacement happens: after the last location, or at the second one at first. */
    method NextLoc(e: Element, lastLoc: int) returns (k: nat)
      requires cfg.WellFormed()
      ensures k < WAYS
      ensures (forall j: nat :: j < WAYS ==> cfg.Loc(e, j) != lastLoc) ==> k == 1
      ensures cfg.IsLoc(e, lastLoc) ==> exists j: nat :: j < WAYS && cfg.Loc(e, j) == lastLoc && k == (j + 1) % WAYS
    {
      var j := 0;
      while j < WAYS && cfg.Loc(e, j) != lastLoc
        invariant 0 <= j <= WAYS && forall i: nat :: i < j ==> cfg.Loc(e, i) != lastLoc
      {
        j := j + 1;
      }
      k := (1 + j) % WAYS;
    }

    /**
     * insert of an element that is not in the table: it displaces other elements along their own locations
     * until a garbage slot is found or the depth limit is reached. If a slot was found, the live entries are
     * the old ones and the new element; otherwise the one element left in hand is lost. The whole table
     * likewise loses exactly one entry, which was garbage if a slot was found.
     */
    method InsertNew(e0: Element) returns (placed: bool, ghost lost: Element)
      requires Valid() && InHand(table[..], e0)
      modifies table, garbage, recent
      ensures Valid()
      ensures multiset(table[..]) + multiset{lost} == multiset(old(table[..])) + multiset{e0}
      ensures InHand(table[..], lost)
      ensures placed ==> Gained(old(table[..]), old(garbage[..]), table[..], garbage[..], e0)
      ensures !placed ==> Exchanged(old(table[..]), old(garbage[..]), table[..], garbage[..], e0, lost)
    {
      var e := e0;
      var lastLoc: int := 0xFFFF_FFFF;
      var lastEpoch := true;
      for depth := 0 to cfg.depthLimit
        invariant Valid() && InHand(table[..], e)
        invariant multiset(table[..]) + multiset{e} == multiset(old(table[..])) + multiset{e0}
        invariant Exchanged(old(table[..]), old(garbage[..]), table[..], garbage[..], e0, e)
      {
        ghost var t, g := table[..], garbage[..];
        var slot := TryPlace(e, lastEpoch);
        if slot >= 0 {
          ReplaceLive(t, g, slot, e);
          ReplaceMultiset(t, slot, e);
          LeftInHand(t, slot, e);
          return true, t[slot];
        }
        var k := NextLoc(e, lastLoc);
        lastLoc := cfg.Loc(e, k);
        e, lastEpoch := Displace(e, k, lastEpoch);
      }
      return false, e;
    }

    /** Swaps the element in hand with the live one at its k-th location. */
    method Displace(e: Element, k: nat, epoch: bool) returns (e': Element, epoch': bool)
      requires Valid() && InHand(table[..], e) && k < WAYS && !garbage[cfg.Loc(e, k)]
      modifies table, recent
      ensures Valid() && InHand(table[..], e')
      ensures table[..] == old(table[..])[cfg.Loc(e, k) := e] && e' == old(table[cfg.Loc(e, k)])
      ensures recent[..] == old(recent[..])[cfg.Loc(e, k) := epoch] && epoch' == old(recent[cfg.Loc(e, k)])
      ensures multiset(table[..]) + multiset{e'} == multiset(old(table[..])) + multiset{e}
      ensures Exchanged(old(table[..]), garbage[..], table[..], garbage[..], e, e')
    {
      var loc := cfg.Loc(e, k);
      ghost var t, g := table[..], garbage[..];
      assert cfg.IsLoc(e, loc);
      SwapKeeps(cfg, t, g, loc, e);
      ReplaceLive(t, g, loc, e);
      ReplaceMultiset(t, loc, e);
      assert g[loc := false] == g;
      e' := table[loc];
      table[loc] := e;
      epoch' := recent[loc];
      recent[loc] := epoch;
      assert table[..] == t[loc := e] && recent[..] == old(recent[..])[loc := epoch];
    }

    /**
     * insert: ages the table if it is time, then keeps an element that is there or stores a new one. `aged`
     * are the garbage marks after the aging. It drops nothing but what is lost.
     */
    method Insert(e: Element) returns (placed: bool, ghost lost: Element, ghost aged: seq<bool>)
      requires Valid()
      modifies this`counter, this`inserted, this`dropped, table, garbage, recent
      ensures Valid() && |aged| == cfg.size
      ensures inserted == old(inserted) + {e} && (old(Accounted()) ==> Accounted())
      ensures e != DEFAULT ==>
        dropped == if e in old(table[..]) then old(dropped) else old(dropped) - {e} + {lost}
      ensures old(Accounted()) && e != DEFAULT && e !in old(table[..]) ==> lost == DEFAULT || lost in inserted
      ensures if old(counter) == 0 && Young(old(recent[..]), old(garbage[..])) >= cfg.epochSize
              then forall i :: 0 <= i < cfg.size ==> aged[i] == (old(garbage[i]) || !old(recent[i]))
              else aged == old(garbage[..])
      ensures e != DEFAULT && e in old(table[..]) ==>
        placed && table[..] == old(table[..]) && Live(table[..], garbage[..], e) > 0
      ensures e != DEFAULT && e !in old(table[..]) ==>
        && multiset(table[..]) + multiset{lost} == multiset(old(table[..])) + multiset{e}
        && (if placed then Gained(old(table[..]), aged, table[..], garbage[..], e)
            else Exchanged(old(table[..]), aged, table[..], garbage[..], e, lost))
    {
      ghost var t, known, gone := table[..], inserted, dropped;
      inserted := inserted + {e};
      EpochCheck();
      aged := garbage[..];
      var slot := Refresh(e);
      if slot >= 0 {
        LiveAt(table[..], garbage[..], slot);
        return true, e, aged;
      }
      placed, lost := InsertNew(e);
      dropped := dropped - {e} + {lost};
      if Accounts(t, known, gone) { AccountsNext(t, table[..], known, gone, e, lost); }
    }
  }
}
