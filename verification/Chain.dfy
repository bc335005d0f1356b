/**
 * The block tree with skip links, and the active chain as an index by height.
 *
 * A block's parent and height never change once it is created; its skip link is filled in later. The
 * fast look-ups are proved to agree with walking from parent to parent.
 */
module Chain {
  import opened SkipHeight
  import opened Limbs
  import opened SkipWalk

  class BlockIndex {
    const pprev: BlockIndex?
    const nHeight: nat
    const nTimeMax: int
    var pskip: BlockIndex?

    /** A new block on top of another one, or a first block. */
    constructor (pprev: BlockIndex?, nTime: int)
      requires pprev != null ==> Linked(pprev)
      ensures Linked(this) && this.pprev == pprev && pskip == null
    {
      this.pprev := pprev;
      nHeight := if pprev == null then 0 else pprev.nHeight + 1;
      nTimeMax := if pprev != null && pprev.nTimeMax > nTime then pprev.nTimeMax else nTime;
      pskip := null;
      new;
    }

    /**
     * GetAncestor: follows skip links where that does not overshoot. `turns` counts the turns of its loop; with all
     * skip links built they are quadratic in the number of bits of the height.
     */
    method GetAncestor(height: int) returns (r: BlockIndex?, ghost turns: nat)
      requires Linked(this) && SkipsOk(this)
      ensures r == AncestorAt(this, height)
      ensures r != null ==> Linked(r) && SkipsOk(r)
      ensures SkipsBuilt(this) && 0 <= height <= nHeight ==> turns == Turns(nHeight, height)
      ensures SkipsBuilt(this) ==> forall k: nat :: nHeight < Pow2(k) ==> turns <= k * (k + 1) / 2
    {
      turns := 0;
      if height > nHeight || height < 0 { return null, 0; }
      var pindexWalk: BlockIndex := this;
      var heightWalk := nHeight;
      while heightWalk > height
        invariant Linked(pindexWalk) && SkipsOk(pindexWalk)
        invariant height <= heightWalk == pindexWalk.nHeight
        invariant Ancestor(pindexWalk, height) == Ancestor(this, height)
        invariant SkipsBuilt(this) ==> SkipsBuilt(pindexWalk) && Leads(nHeight, heightWalk, height, turns)
      {
        var heightSkip := GetSkipHeight(heightWalk);
        var heightSkipPrev := GetSkipHeight(heightWalk - 1);
        SkipFacts(pindexWalk, height);
        if SkipsBuilt(this) { LeadsNext(nHeight, heightWalk, height, turns, heightSkip, heightSkipPrev); }
        turns := turns + 1;
        if pindexWalk.pskip != null
           && (heightSkip == height
               || (heightSkip > height && !(heightSkipPrev < heightSkip - 2 && heightSkipPrev >= height)))
        {
          pindexWalk := pindexWalk.pskip;
          heightWalk := heightSkip;
        } else {
          pindexWalk := pindexWalk.pprev;
          heightWalk := heightWalk - 1;
        }
      }
      if SkipsBuilt(this) { LeadsHome(nHeight, height, turns); }
      return pindexWalk, turns;
    }

    /** BuildSkip */
    method BuildSkip()
      requires Linked(this) && if pprev == null then pskip == null else SkipsOk(pprev)
      modifies this
      ensures SkipsOk(this)
      ensures if pprev == null then pskip == null else pskip == AncestorAt(this, GetSkipHeight(nHeight))
      ensures (pprev != null ==> old(SkipsBuilt(pprev))) ==> SkipsBuilt(this)
    {
      if pprev != null {
        SkipHeightBounds(nHeight);
        ghost var turns;
        pskip, turns := pprev.GetAncestor(GetSkipHeight(nHeight));
        SkipsKept(pprev);
      }
    }
  }

  /** Heights count the steps to the first block, and time maxima never decrease. */
  ghost predicate Linked(b: BlockIndex)
    decreases b.nHeight
  {
    if b.pprev == null then b.nHeight == 0
    else b.nHeight == b.pprev.nHeight + 1 && b.nTimeMax >= b.pprev.nTimeMax && Linked(b.pprev)
  }

  /** The ancestor at a height, found by walking from parent to parent. */
  ghost function Ancestor(b: BlockIndex, h: nat): BlockIndex
    requires Linked(b) && h <= b.nHeight
    decreases b.nHeight
  {
    if h == b.nHeight then b else Ancestor(b.pprev, h)
  }

  ghost function AncestorAt(b: BlockIndex, h: int): BlockIndex?
    requires Linked(b)
  {
    if 0 <= h <= b.nHeight then Ancestor(b, h) else null
  }

  /** The block and everything below it. */
  ghost function Ancestors(b: BlockIndex): set<BlockIndex>
    requires Linked(b)
    decreases b.nHeight
  {
    {b} + if b.pprev == null then {} else Ancestors(b.pprev)
  }

  /** Every skip link on the way down is missing or points to the ancestor at the skip height. */
  ghost predicate SkipsOk(b: BlockIndex)
    requires Linked(b)
    reads Ancestors(b)
    decreases b.nHeight
  {
    && (b.pskip != null ==> b.pprev != null && b.pskip == AncestorAt(b, GetSkipHeight(b.nHeight)))
    && (b.pprev != null ==> SkipsOk(b.pprev))
  }

  /** Every block on the way down but the first has its skip link. */
  ghost predicate SkipsBuilt(b: BlockIndex)
    requires Linked(b)
    reads Ancestors(b)
    decreases b.nHeight
  {
    b.pprev != null ==> b.pskip != null && SkipsBuilt(b.pprev)
  }

  /** Skip links elsewhere do not matter. */
  twostate lemma {:induction false} SkipsKept(b: BlockIndex)
    requires Linked(b) && old(SkipsOk(b))
    requires forall a: BlockIndex :: old(allocated(a)) && a.nHeight <= b.nHeight ==> a.pskip == old(a.pskip)
    ensures SkipsOk(b) && (old(SkipsBuilt(b)) ==> SkipsBuilt(b))
    decreases b.nHeight
  {
    if b.pprev != null { SkipsKept(b.pprev); }
  }

  lemma {:induction false} AncestorFacts(b: BlockIndex, h: nat)
    requires Linked(b) && h <= b.nHeight
    ensures Linked(Ancestor(b, h)) && Ancestor(b, h).nHeight == h
    ensures SkipsOk(b) ==> SkipsOk(Ancestor(b, h))
    ensures SkipsBuilt(b) ==> SkipsBuilt(Ancestor(b, h))
    decreases b.nHeight
  {
    if h < b.nHeight { AncestorFacts(b.pprev, h); }
  }

  /** An ancestor of an ancestor is the ancestor. */
  lemma {:induction false} AncestorOfAncestor(b: BlockIndex, h: nat, l: nat)
    requires Linked(b) && l <= h <= b.nHeight
    ensures Linked(Ancestor(b, h)) && Ancestor(b, h).nHeight == h
    ensures Ancestor(Ancestor(b, h), l) == Ancestor(b, l)
    decreases b.nHeight
  {
    AncestorFacts(b, h);
    if h < b.nHeight { AncestorOfAncestor(b.pprev, h, l); }
  }

  /** What a skip link leads to. */
  lemma SkipFacts(b: BlockIndex, l: nat)
    requires Linked(b) && SkipsOk(b) && l < b.nHeight
    ensures var s := GetSkipHeight(b.nHeight); 0 <= s < b.nHeight && (b.pskip != null ==>
      && Linked(b.pskip) && SkipsOk(b.pskip) && b.pskip.nHeight == s
      && (SkipsBuilt(b) ==> SkipsBuilt(b.pskip)) && (l <= s ==> Ancestor(b.pskip, l) == Ancestor(b, l)))
  {
    var s := GetSkipHeight(b.nHeight);
    SkipHeightBounds(b.nHeight);
    AncestorFacts(b, s);
    if l <= s { AncestorOfAncestor(b, s, l); }
  }

  // ---------------------------------------------------------------- the active chain

  class ActiveChain {
    var vChain: seq<BlockIndex?>

    /** Empty, or entry i is the ancestor of the last entry at height i. */
    ghost predicate Consistent()
      reads this
    {
      vChain == [] || (vChain[|vChain| - 1] != null && IsChainOf(vChain, vChain[|vChain| - 1]))
    }

    constructor ()
      ensures vChain == [] && Consistent()
    {
      vChain := [];
    }

    function Height(): int
      reads this
    {
      |vChain| - 1
    }

    function At(h: int): BlockIndex?
      reads this
    {
      if 0 <= h < |vChain| then vChain[h] else null
    }

    predicate Contains(b: BlockIndex)
      reads this
    {
      At(b.nHeight) == b
    }

    /** SetTip: rewrites entries from the new tip downwards and stops at the first one that is already right. */
    method SetTip(tip: BlockIndex?)
      requires Consistent() && (tip != null ==> Linked(tip))
      modifies this
      ensures Consistent()
      ensures if tip == null then vChain == [] else IsChainOf(vChain, tip)
    {
      if tip == null {
        vChain := [];
        return;
      }
      ghost var before := vChain;
      vChain := Resize(vChain, tip.nHeight + 1);
      var pindex: BlockIndex? := tip;
      while pindex != null && vChain[pindex.nHeight] != pindex
        invariant |vChain| == tip.nHeight + 1
        invariant pindex != null ==>
          Linked(pindex) && pindex.nHeight <= tip.nHeight && pindex == Ancestor(tip, pindex.nHeight)
        invariant forall i :: (if pindex == null then 0 else pindex.nHeight + 1) <= i <= tip.nHeight ==>
          vChain[i] == Ancestor(tip, i)
        invariant pindex != null ==> forall i :: 0 <= i <= pindex.nHeight ==>
          vChain[i] == if i < |before| then before[i] else null
        decreases if pindex == null then 0 else pindex.nHeight + 1
      {
        vChain := vChain[pindex.nHeight := pindex];
        if pindex.pprev != null { AncestorOfAncestor(tip, pindex.nHeight, pindex.pprev.nHeight); }
        pindex := pindex.pprev;
      }
      if pindex != null {
        SharedPrefix(before, tip, pindex);
      }
      assert vChain[tip.nHeight] == Ancestor(tip, tip.nHeight) == tip;
    }

    /** FindFork: the highest block that is in the chain and is the given block or an ancestor of it. */
    method FindFork(start: BlockIndex?) returns (r: BlockIndex?)
      requires Consistent() && (start != null ==> Linked(start) && SkipsOk(start))
      ensures start == null ==> r == null
      ensures start != null ==> IsFork(vChain, start, r)
    {
      if start == null { return null; }
      var pindex: BlockIndex? := start;
      if start.nHeight > Height() {
        ghost var turns;
        pindex, turns := start.GetAncestor(Height());
      }
      forall h | 0 <= h <= start.nHeight ensures Ancestor(start, h).nHeight == h && Linked(Ancestor(start, h)) {
        AncestorFacts(start, h);
      }
      while pindex != null && !Contains(pindex)
        invariant pindex != null ==>
          Linked(pindex) && pindex.nHeight <= start.nHeight && pindex == Ancestor(start, pindex.nHeight)
        invariant forall h :: (if pindex == null then 0 else pindex.nHeight + 1) <= h <= start.nHeight ==>
          !InChain(vChain, Ancestor(start, h))
        decreases if pindex == null then 0 else pindex.nHeight + 1
      {
        if pindex.pprev != null { AncestorOfAncestor(start, pindex.nHeight, pindex.pprev.nHeight); }
        pindex := pindex.pprev;
      }
      return pindex;
    }
  }

  /** The list holds the ancestors of the tip, indexed by height. */
  ghost predicate IsChainOf(c: seq<BlockIndex?>, tip: BlockIndex) {
    && Linked(tip) && |c| == tip.nHeight + 1
    && forall i :: 0 <= i < |c| ==> c[i] == Ancestor(tip, i)
  }

  ghost predicate InChain(c: seq<BlockIndex?>, b: BlockIndex) {
    b.nHeight < |c| && c[b.nHeight] == b
  }

  /** r is the last common block of the chain and the branch of b, or null if they share none. */
  ghost predicate IsFork(c: seq<BlockIndex?>, b: BlockIndex, r: BlockIndex?)
    requires Linked(b)
  {
    && (r != null ==> r.nHeight <= b.nHeight && r == Ancestor(b, r.nHeight) && InChain(c, r))
    && forall h :: (if r == null then 0 else r.nHeight + 1) <= h <= b.nHeight ==> !InChain(c, Ancestor(b, h))
  }

  /** A vector resized: shortened, or padded with null. */
  function Resize(c: seq<BlockIndex?>, n: nat): (r: seq<BlockIndex?>)
    ensures |r| == n && forall i :: 0 <= i < n ==> r[i] == if i < |c| then c[i] else null
  {
    if n <= |c| then c[..n] else c + seq(n - |c|, _ => null)
  }

  /** Two chains that share a block share everything below it. */
  lemma SharedPrefix(c: seq<BlockIndex?>, tip: BlockIndex, b: BlockIndex)
    requires c != [] && c[|c| - 1] != null && IsChainOf(c, c[|c| - 1]) && InChain(c, b)
    requires Linked(tip) && b.nHeight <= tip.nHeight && b == Ancestor(tip, b.nHeight)
    ensures forall i :: 0 <= i <= b.nHeight ==> c[i] == Ancestor(tip, i)
  {
    forall i | 0 <= i <= b.nHeight ensures c[i] == Ancestor(tip, i) {
      AncestorOfAncestor(tip, b.nHeight, i);
      AncestorOfAncestor(c[|c| - 1], b.nHeight, i);
    }
  }

  // ---------------------------------------------------------------- locators

  /**
   * What a locator for a block looks like: strictly descending ancestors of it, itself first and the first block last,
   * ten single steps and then doubling ones in between.
   */
  ghost predicate IsLocator(have: seq<BlockIndex>, start: BlockIndex)
    requires Linked(start)
  {
    && |have| > 0 && have[0] == start && have[|have| - 1].nHeight == 0
    && (forall i :: 0 <= i < |have| ==> have[i].nHeight <= start.nHeight && have[i] == Ancestor(start, have[i].nHeight))
    && (forall i, j :: 0 <= i < j < |have| ==> have[i].nHeight > have[j].nHeight)
    && (forall k :: 0 <= k < |have| ==> have[k].nHeight == HeightAt(start, k))
  }

  /** How far below the start the k-th entry of a long locator is: ten single steps, then doubling ones. */
  function Depth(k: nat): int {
    if k <= 10 then k else 9 + Pow2(k - 10)
  }

  function HeightAt(start: BlockIndex, k: nat): int {
    if start.nHeight > Depth(k) then start.nHeight - Depth(k) else 0
  }

  /** The entries so far are descending ancestors of the start, all above p. */
  ghost predicate PartLocator(have: seq<BlockIndex>, start: BlockIndex, p: BlockIndex)
    requires Linked(start)
  {
    && p.nHeight <= start.nHeight && p == Ancestor(start, p.nHeight)
    && (if have == [] then p == start else have[0] == start)
    && (forall i :: 0 <= i < |have| ==> have[i].nHeight <= start.nHeight && have[i] == Ancestor(start, have[i].nHeight))
    && (forall i, j :: 0 <= i < j < |have| ==> have[i].nHeight > have[j].nHeight)
    && (forall i :: 0 <= i < |have| ==> have[i].nHeight > p.nHeight)
    && (forall k :: 0 <= k < |have| ==> have[k].nHeight == HeightAt(start, k)) && p.nHeight == HeightAt(start, |have|)
  }

  lemma PartLocatorGrows(have: seq<BlockIndex>, start: BlockIndex, p: BlockIndex, q: BlockIndex)
    requires Linked(start) && PartLocator(have, start, p)
    requires q.nHeight < p.nHeight && q == Ancestor(start, q.nHeight) && q.nHeight == HeightAt(start, |have| + 1)
    ensures PartLocator(have + [p], start, q)
  {
  }

  /**
   * GetLocator: uses the index where the block is in the chain and the skip links otherwise. Its length is
   * at most twelve plus the binary logarithm of the height.
   */
  method GetLocator(chain: ActiveChain, from: BlockIndex?) returns (vHave: seq<BlockIndex>)
    requires chain.Consistent()
    requires from != null ==> Linked(from) && SkipsOk(from)
    requires from == null && chain.vChain != [] ==> SkipsOk(chain.vChain[|chain.vChain| - 1])
    ensures var start := if from == null then chain.At(chain.Height()) else from;
      if start == null then vHave == []
      else Linked(start) && IsLocator(vHave, start) && (|vHave| <= 12 || Pow2(|vHave| - 12) <= start.nHeight)
  {
    var pindex: BlockIndex? := from;
    if pindex == null { pindex := chain.At(chain.Height()); }
    if pindex == null { return []; }
    vHave := LocatorFrom(chain, pindex);
  }

  method LocatorFrom(chain: ActiveChain, start: BlockIndex) returns (vHave: seq<BlockIndex>)
    requires chain.Consistent() && Linked(start) && SkipsOk(start)
    ensures IsLocator(vHave, start) && (|vHave| <= 12 || Pow2(|vHave| - 12) <= start.nHeight)
  {
    vHave := [];
    var pindex := start;
    var nStep := 1;
    while pindex.nHeight > 0
      invariant Linked(pindex) && SkipsOk(pindex) && PartLocator(vHave, start, pindex)
      invariant nStep == StepAt(|vHave|)
      decreases pindex.nHeight
    {
      StepDoubles(|vHave|);
      vHave, pindex := NextEntry(chain, vHave, start, pindex, nStep);
      if |vHave| > 10 { nStep := nStep * 2; }
    }
    LocatorEnds(vHave, start, pindex);
    vHave := vHave + [pindex];
  }

  /** Adds the block to the locator and steps back. */
  method NextEntry(chain: ActiveChain, have: seq<BlockIndex>, start: BlockIndex, p: BlockIndex, nStep: nat)
      returns (have': seq<BlockIndex>, next: BlockIndex)
    requires chain.Consistent() && Linked(start) && Linked(p) && SkipsOk(p) && PartLocator(have, start, p)
    requires p.nHeight > 0 && nStep == StepAt(|have|)
    ensures have' == have + [p] && Linked(next) && SkipsOk(next) && PartLocator(have', start, next)
    ensures next.nHeight < p.nHeight
  {
    HeightNext(start, |have|);
    var nHeight := if p.nHeight - nStep > 0 then p.nHeight - nStep else 0;
    AncestorOfAncestor(start, p.nHeight, nHeight);
    next := StepBack(chain, p, nHeight);
    PartLocatorGrows(have, start, p, next);
    have' := have + [p];
  }

  /** The step taken from the k-th entry. */
  function StepAt(k: nat): nat { if k <= 10 then 1 else Pow2(k - 10) }

  lemma StepDoubles(k: nat)
    ensures StepAt(k + 1) == if k + 1 > 10 then StepAt(k) * 2 else StepAt(k)
  {
  }

  lemma HeightNext(start: BlockIndex, k: nat)
    requires HeightAt(start, k) > 0
    ensures StepAt(k) >= 1
    ensures HeightAt(start, k + 1) == if HeightAt(start, k) > StepAt(k) then HeightAt(start, k) - StepAt(k) else 0
  {
  }

  /** The first block completes a locator, and its length is bounded. */
  lemma LocatorEnds(have: seq<BlockIndex>, start: BlockIndex, p: BlockIndex)
    requires Linked(start) && PartLocator(have, start, p) && p.nHeight == 0
    ensures var all := have + [p]; IsLocator(all, start) && (|all| <= 12 || Pow2(|all| - 12) <= start.nHeight)
  {
    var n := |have|;
    LocatorWhole(have, start, p);
    if n > 0 { assert have[n - 1].nHeight == HeightAt(start, n - 1) > 0; }
    LocatorLength(n + 1, start.nHeight);
  }

  lemma LocatorWhole(have: seq<BlockIndex>, start: BlockIndex, p: BlockIndex)
    requires Linked(start) && PartLocator(have, start, p) && p.nHeight == 0
    ensures IsLocator(have + [p], start)
  {
    var all, n := have + [p], |have|;
    forall k | 0 <= k < |all| ensures all[k].nHeight == HeightAt(start, k) {
      assert all[k] == if k < n then have[k] else p;
    }
  }

  /** One step of a locator, by index or by skip links. */
  method StepBack(chain: ActiveChain, b: BlockIndex, h: nat) returns (r: BlockIndex)
    requires chain.Consistent() && Linked(b) && SkipsOk(b) && h <= b.nHeight
    ensures r == Ancestor(b, h) && r.nHeight == h && Linked(r) && SkipsOk(r)
  {
    AncestorFacts(b, h);
    if chain.Contains(b) {
      AncestorOfAncestor(chain.vChain[|chain.vChain| - 1], b.nHeight, h);
      r := chain.vChain[h];
    } else {
      ghost var turns;
      r, turns := b.GetAncestor(h);
    }
  }

  lemma LocatorLength(n: nat, height: int)
    requires n > 0 && (n > 1 ==> height > Depth(n - 2))
    ensures n <= 12 || Pow2(n - 12) <= height
  {
  }

  // ---------------------------------------------------------------- search by time

  lemma {:induction false} TimeMaxMonotone(b: BlockIndex, h: nat, l: nat)
    requires Linked(b) && l <= h <= b.nHeight
    ensures Ancestor(b, l).nTimeMax <= Ancestor(b, h).nTimeMax
    decreases b.nHeight
  {
    if h < b.nHeight {
      TimeMaxMonotone(b.pprev, h, l);
    } else if l < h {
      TimeMaxMonotone(b.pprev, h - 1, l);
    }
  }

  /** FindEarliestAtLeast: binary search, sound because time maxima never decrease along the chain. */
  method FindEarliestAtLeast(chain: ActiveChain, nTime: int) returns (r: BlockIndex?)
    requires chain.Consistent()
    ensures r == null ==> forall i :: 0 <= i < |chain.vChain| ==>
      chain.vChain[i] != null && chain.vChain[i].nTimeMax < nTime
    ensures r != null ==> InChain(chain.vChain, r) && r.nTimeMax >= nTime
    ensures r != null ==> forall i :: 0 <= i < r.nHeight ==> chain.vChain[i] != null && chain.vChain[i].nTimeMax < nTime
  {
    var c := chain.vChain;
    if c == [] { return null; }
    ghost var tip: BlockIndex := c[|c| - 1];
    forall i | 0 <= i < |c| ensures c[i] != null && c[i].nHeight == i {
      AncestorFacts(tip, i);
    }
    var lo, hi := 0, |c|;
    while lo < hi
      invariant 0 <= lo <= hi <= |c|
      invariant forall i :: 0 <= i < lo ==> c[i].nTimeMax < nTime
      invariant hi < |c| ==> c[hi].nTimeMax >= nTime
    {
      var mid := (lo + hi) / 2;
      if c[mid].nTimeMax < nTime {
        forall i | 0 <= i <= mid ensures c[i].nTimeMax < nTime {
          TimeMaxMonotone(tip, mid, i);
        }
        lo := mid + 1;
      } else {
        hi := mid;
      }
    }
    return if lo == |c| then null else c[lo];
  }
}
