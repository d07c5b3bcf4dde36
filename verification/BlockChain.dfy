/**
 The block tree: skip pointers for ancestor lookup, the active chain as a vector, and forks.
 */
module BlockChain {

  import opened SkipList
  import Limbs

  // ----- the tree -----

  class BlockIndex {
    const pprev: BlockIndex?
    const nHeight: nat
    var pskip: BlockIndex?

    constructor (pprev: BlockIndex?)
      ensures this.pprev == pprev && pskip == null
      ensures nHeight == if pprev == null then 0 else pprev.nHeight + 1
    {
      this.pprev := pprev;
      nHeight := if pprev == null then 0 else pprev.nHeight + 1;
      pskip := null;
    }

    /** The ancestor at a height, by the skip pointers. */
    method GetAncestor(height: int) returns (r: BlockIndex?, ghost steps: nat)
      requires Rooted(this) && SkipsOk(this)
      ensures height > nHeight || height < 0 ==> r == null
      ensures 0 <= height <= nHeight ==> r == Anc(this, height)
      ensures 0 <= height <= nHeight && Built(this) ==> steps == Steps(nHeight, height)
      ensures Built(this) ==> forall k: nat :: nHeight < Limbs.Pow2(k) ==> steps <= k * k
    {
      steps := 0;
      if height > nHeight || height < 0 {
        return null, 0;
      }
      var walk: BlockIndex, heightWalk: nat := this, nHeight;
      while heightWalk > height
        invariant Rooted(walk) && SkipsOk(walk) && walk.nHeight == heightWalk >= height
        invariant Anc(walk, height) == Anc(this, height)
        invariant Built(this) ==> Built(walk) && steps + Steps(heightWalk, height) == Steps(nHeight, height)
        decreases heightWalk
      {
        var heightSkip := GetSkipHeight(heightWalk);
        var heightSkipPrev := GetSkipHeight(heightWalk - 1);
        SkipIsBelow(heightWalk);
        if walk.pskip != null &&
           (heightSkip == height ||
            (heightSkip > height && !(heightSkipPrev < heightSkip - 2 && heightSkipPrev >= height))) {
          AncRooted(walk, heightSkip);
          AncAnc(walk, heightSkip, height);
          PathAbove(walk, heightSkip);
          walk := walk.pskip;
          heightWalk := heightSkip;
        } else {
          walk := walk.pprev;
          heightWalk := heightWalk - 1;
        }
        steps := steps + 1;
      }
      r := walk;
      if Built(this) {
        forall k: nat | nHeight < Limbs.Pow2(k) ensures steps <= k * k { LogSquared(nHeight, height, k); }
      }
    }

    method BuildSkip()
      requires Rooted(this) && (pprev != null ==> SkipsOk(pprev)) && (pprev == null ==> pskip == null)
      modifies this`pskip
      ensures SkipsOk(this)
      ensures pprev != null ==> pskip != null
      ensures (pprev != null ==> old(Built(pprev))) ==> Built(this)
    {
      if pprev != null {
        SkipIsBelow(nHeight);
        NotAbove(pprev, this);
        PathAllocated(pprev);
        var skip, _ := pprev.GetAncestor(GetSkipHeight(nHeight));
        ghost var skips := map o | o in Path(pprev) :: o.pskip;
        forall o | o in skips ensures Rooted(o) && SkipTo(o, skips[o]) {
          assert Rooted(o) && SkipOk(o);
        }
        pskip := skip;
        assert forall o :: o in skips ==> o.pskip == skips[o];
      }
    }
  }

  /** A block at the end of a finite path from a genesis block. */
  ghost predicate Rooted(b: BlockIndex)
    decreases b.nHeight
  {
    if b.pprev == null then b.nHeight == 0 else b.pprev.nHeight == b.nHeight - 1 && Rooted(b.pprev)
  }

  /** The ancestor at a height, by following pprev. */
  ghost function Anc(b: BlockIndex, h: nat): BlockIndex
    requires Rooted(b) && h <= b.nHeight
    decreases b.nHeight
  {
    if b.nHeight == h then b else Anc(b.pprev, h)
  }

  ghost function Path(b: BlockIndex): set<BlockIndex>
    requires Rooted(b)
    decreases b.nHeight
  {
    {b} + if b.pprev == null then {} else Path(b.pprev)
  }

  ghost predicate SkipOk(b: BlockIndex)
    requires Rooted(b)
    reads b
  {
    SkipTo(b, b.pskip)
  }

  ghost predicate SkipTo(b: BlockIndex, skip: BlockIndex?)
    requires Rooted(b)
  {
    SkipIsLow(b);
    skip == null || skip == Anc(b, GetSkipHeight(b.nHeight))
  }

  lemma SkipIsLow(b: BlockIndex)
    ensures GetSkipHeight(b.nHeight) <= b.nHeight
  {
    if b.nHeight > 0 {
      SkipIsBelow(b.nHeight);
    }
  }

  /** Every skip pointer on the path is null or as BuildSkip sets it. */
  ghost predicate SkipsOk(b: BlockIndex)
    requires Rooted(b)
    reads Path(b)
  {
    forall o :: o in Path(b) ==> Rooted(o) && SkipOk(o)
  }

  /** Every block on the path but the first has its skip pointer. */
  ghost predicate Built(b: BlockIndex)
    requires Rooted(b)
    reads Path(b)
  {
    forall o :: o in Path(b) && o.pprev != null ==> o.pskip != null
  }

  lemma {:induction false} PathAllocated(b: BlockIndex)
    requires Rooted(b)
    ensures forall o :: o in Path(b) ==> allocated(o)
    decreases b.nHeight
  {
    if b.pprev != null {
      PathAllocated(b.pprev);
    }
  }

  lemma {:induction false} AncRooted(b: BlockIndex, h: nat)
    requires Rooted(b) && h <= b.nHeight
    ensures Rooted(Anc(b, h)) && Anc(b, h).nHeight == h
    decreases b.nHeight
  {
    if h < b.nHeight {
      AncRooted(b.pprev, h);
    }
  }

  lemma {:induction false} AncAnc(b: BlockIndex, k: nat, h: nat)
    requires Rooted(b) && h <= k <= b.nHeight
    ensures Rooted(Anc(b, k)) && Anc(b, k).nHeight == k && Anc(Anc(b, k), h) == Anc(b, h)
    decreases b.nHeight
  {
    if k < b.nHeight {
      AncAnc(b.pprev, k, h);
    }
  }

  lemma {:induction false} PathAbove(b: BlockIndex, h: nat)
    requires Rooted(b) && h <= b.nHeight
    ensures Rooted(Anc(b, h)) && Path(Anc(b, h)) <= Path(b)
    decreases b.nHeight
  {
    if h < b.nHeight {
      PathAbove(b.pprev, h);
    }
  }

  /** A higher block is not on the path. */
  lemma {:induction false} NotAbove(b: BlockIndex, c: BlockIndex)
    requires Rooted(b) && c.nHeight > b.nHeight
    ensures c !in Path(b)
    decreases b.nHeight
  {
    if b.pprev != null {
      NotAbove(b.pprev, c);
    }
  }

  // ----- the active chain -----

  ghost predicate IsChain(chain: seq<BlockIndex?>) {
    && (forall i :: 0 <= i < |chain| ==> chain[i] != null && Rooted(chain[i]) && chain[i].nHeight == i)
    && (forall i :: 0 < i < |chain| ==> chain[i].pprev == chain[i - 1])
  }

  /** Below any of its blocks the chain is that block's path. */
  lemma {:induction false} ChainIsPath(chain: seq<BlockIndex?>, k: nat, i: nat)
    requires IsChain(chain) && i <= k < |chain|
    ensures chain[i] == Anc(chain[k], i)
    decreases k
  {
    if i < k {
      ChainIsPath(chain, k - 1, i);
    }
  }

  /** From genesis to the tip. */
  ghost predicate IsPathTo(chain: seq<BlockIndex?>, tip: BlockIndex)
    requires Rooted(tip)
  {
    |chain| == tip.nHeight + 1 && forall i :: 0 <= i < |chain| ==> chain[i] == Anc(tip, i)
  }

  lemma PathIsChain(chain: seq<BlockIndex?>, tip: BlockIndex)
    requires Rooted(tip) && IsPathTo(chain, tip)
    ensures IsChain(chain)
  {
    forall i | 0 <= i < |chain| ensures chain[i] != null && Rooted(chain[i]) && chain[i].nHeight == i {
      AncRooted(tip, i);
    }
    forall i | 0 < i < |chain| ensures chain[i].pprev == chain[i - 1] {
      AncStep(tip, i);
    }
  }

  lemma {:induction false} AncStep(b: BlockIndex, h: nat)
    requires Rooted(b) && 0 < h <= b.nHeight
    ensures Anc(b, h).pprev == Anc(b, h - 1)
    decreases b.nHeight
  {
    if h < b.nHeight {
      AncStep(b.pprev, h);
    }
  }

  function Resized(chain: seq<BlockIndex?>, n: nat): (r: seq<BlockIndex?>)
    ensures |r| == n
  {
    if n <= |chain| then chain[..n] else chain + seq(n - |chain|, _ => null)
  }

  class Chain {
    var vChain: seq<BlockIndex?>

    ghost predicate Valid()
      reads this
    {
      IsChain(vChain)
    }

    function Height(): int
      reads this
    {
      |vChain| - 1
    }

    function At(nHeight: int): BlockIndex?
      reads this
    {
      if nHeight < 0 || nHeight >= |vChain| then null else vChain[nHeight]
    }

    predicate Contains(b: BlockIndex)
      reads this
    {
      At(b.nHeight) == b
    }

    /** Only the part above the fork is written, and the result is the whole path to the new tip. */
    method SetTip(pindex: BlockIndex?)
      requires Valid() && (pindex != null ==> Rooted(pindex))
      modifies this
      ensures Valid()
      ensures pindex == null ==> vChain == []
      ensures pindex != null ==> IsPathTo(vChain, pindex)
    {
      if pindex == null {
        vChain := [];
        return;
      }
      ghost var was := vChain;
      vChain := Resized(vChain, pindex.nHeight + 1);
      ghost var resized := vChain;
      var p: BlockIndex? := pindex;
      while p != null && vChain[p.nHeight] != p
        invariant |vChain| == |resized| == pindex.nHeight + 1
        invariant p != null ==> Rooted(p) && p.nHeight <= pindex.nHeight && p == Anc(pindex, p.nHeight)
        invariant forall i :: 0 <= i < |vChain| && (p != null ==> p.nHeight < i) ==> vChain[i] == Anc(pindex, i)
        invariant p != null ==> forall i :: 0 <= i <= p.nHeight ==> vChain[i] == resized[i]
        decreases p != null, if p != null then p.nHeight else 0
      {
        vChain := vChain[p.nHeight := p];
        if p.nHeight > 0 {
          AncStep(pindex, p.nHeight);
        }
        p := p.pprev;
      }
      if p != null {
        forall i | 0 <= i <= p.nHeight ensures vChain[i] == Anc(pindex, i) {
          assert resized[p.nHeight] == was[p.nHeight];
          ChainIsPath(was, p.nHeight, i);
          AncAnc(pindex, p.nHeight, i);
        }
      }
      PathIsChain(vChain, pindex);
    }

    /** The highest block of the chain that is on the path of pindex. */
    method FindFork(pindex: BlockIndex?) returns (r: BlockIndex?)
      requires Valid() && (pindex != null ==> Rooted(pindex) && SkipsOk(pindex))
      ensures pindex == null ==> r == null
      ensures r != null ==> pindex != null && r.nHeight <= pindex.nHeight && r == Anc(pindex, r.nHeight) && Contains(r)
      ensures pindex != null ==>
                forall h :: 0 <= h <= pindex.nHeight && (r != null ==> r.nHeight < h) ==> !Contains(Anc(pindex, h))
    {
      if pindex == null {
        return null;
      }
      r := pindex;
      if pindex.nHeight > Height() {
        ghost var steps;
        r, steps := pindex.GetAncestor(Height());
        if r != null {
          AncRooted(pindex, Height());
        }
        forall h | 0 <= h <= pindex.nHeight && (r != null ==> r.nHeight < h) ensures !Contains(Anc(pindex, h)) {
          AncRooted(pindex, h);
        }
      }
      while r != null && !Contains(r)
        invariant r != null ==> Rooted(r) && r.nHeight <= pindex.nHeight && r == Anc(pindex, r.nHeight)
        invariant forall h :: 0 <= h <= pindex.nHeight && (r != null ==> r.nHeight < h) ==> !Contains(Anc(pindex, h))
        decreases r != null, if r != null then r.nHeight else 0
      {
        if r.nHeight > 0 {
          AncStep(pindex, r.nHeight);
        }
        r := r.pprev;
      }
    }
  }

  /** The highest block on both paths, or null if they have none in common. */
  method LastCommonAncestor(a: BlockIndex, b: BlockIndex) returns (r: BlockIndex?)
    requires Rooted(a) && Rooted(b) && SkipsOk(a) && SkipsOk(b)
    ensures r != null ==>
              r.nHeight <= a.nHeight && r.nHeight <= b.nHeight && r == Anc(a, r.nHeight) && r == Anc(b, r.nHeight)
    ensures forall h :: 0 <= h <= a.nHeight && h <= b.nHeight && (r != null ==> r.nHeight < h) ==> Anc(a, h) != Anc(b, h)
  {
    var pa: BlockIndex?, pb: BlockIndex? := a, b;
    ghost var steps;
    if a.nHeight > b.nHeight {
      pa, steps := a.GetAncestor(b.nHeight);
      AncRooted(a, b.nHeight);
    } else if b.nHeight > a.nHeight {
      pb, steps := b.GetAncestor(a.nHeight);
      AncRooted(b, a.nHeight);
    }
    while pa != pb && pa != null && pb != null
      invariant pa == null <==> pb == null
      invariant pa != null ==> Rooted(pa) && pa.nHeight <= a.nHeight && pa == Anc(a, pa.nHeight)
      invariant pb != null ==> Rooted(pb) && pb.nHeight <= b.nHeight && pb == Anc(b, pb.nHeight)
      invariant pa != null && pb != null ==> pa.nHeight == pb.nHeight
      invariant forall h :: 0 <= h <= a.nHeight && h <= b.nHeight && (pa != null ==> pa.nHeight < h) ==> Anc(a, h) != Anc(b, h)
      decreases pa != null, if pa != null then pa.nHeight else 0
    {
      if pa.nHeight > 0 {
        AncStep(a, pa.nHeight);
        AncStep(b, pb.nHeight);
      }
      pa := pa.pprev;
      pb := pb.pprev;
    }
    assert pa == pb;
    r := pa;
  }

  /** Where two blocks go back to the same genesis block, they have a common ancestor. */
  lemma CommonGenesis(a: BlockIndex, b: BlockIndex, r: BlockIndex?)
    requires Rooted(a) && Rooted(b) && Anc(a, 0) == Anc(b, 0)
    requires forall h :: 0 <= h <= a.nHeight && h <= b.nHeight && (r != null ==> r.nHeight < h) ==> Anc(a, h) != Anc(b, h)
    ensures r != null
  {
  }
}
