/**
 The index of blocks: a tree by `pprev`, with a second pointer further back
 (core/src/chain.h:160-190, core/src/main.cpp:3977-4009).
 */
module BlockIndex {

  import opened SkipHeights

  class CBlockIndex {
    const nHeight: nat
    const pprev: CBlockIndex?
    const pskip: CBlockIndex?

    /** The parents lead down to height zero, and the second pointer is where it should be. */
    ghost predicate Linked()
      decreases nHeight, 1
    {
      if pprev == null then nHeight == 0 && pskip == null
      else nHeight == pprev.nHeight + 1 && pprev.Linked() && SkipRight()
    }

    ghost predicate SkipRight()
      requires pprev != null && nHeight == pprev.nHeight + 1 && pprev.Linked()
      decreases nHeight, 0
    {
      SkipGoesBack(nHeight);
      pskip == pprev.Ancestor(GetSkipHeight(nHeight))
    }

    /** The block at a height on the way down. */
    ghost function Ancestor(h: nat): (a: CBlockIndex)
      requires Linked() && h <= nHeight
      ensures a.nHeight == h && a.Linked()
      decreases nHeight, 2
    {
      if h == nHeight then this else pprev.Ancestor(h)
    }

    /** A new block on top of `prev`, or a first one. */
    constructor (prev: CBlockIndex?)
      requires prev != null ==> prev.Linked()
      ensures Linked() && pprev == prev && nHeight == if prev == null then 0 else prev.nHeight + 1
    {
      var n := if prev == null then 0 else prev.nHeight + 1;
      var skip: CBlockIndex? := null;
      if prev != null {
        SkipGoesBack(n);
        ghost var steps;
        skip, steps := prev.GetAncestor(GetSkipHeight(n));
      }
      nHeight, pprev, pskip := n, prev, skip;
    }

    /** The ancestor at a height; `steps` counts the pointers followed. */
    method GetAncestor(height: int) returns (r: CBlockIndex?, ghost steps: nat)
      requires Linked()
      ensures height < 0 || height > nHeight ==> r == null
      ensures 0 <= height <= nHeight ==> r == Ancestor(height)
      ensures 0 <= height <= nHeight ==> steps == Steps(nHeight, height) <= 2 * BitCount(nHeight) * (BitCount(nHeight) + 2)
    {
      hide GetSkipHeight, BitCount;
      steps := 0;
      if height > nHeight || height < 0 {
        return null, 0;
      }
      StepsInBits(nHeight, height);
      var pindexWalk: CBlockIndex := this;
      var heightWalk: int := nHeight;
      while heightWalk > height
        invariant height <= heightWalk == pindexWalk.nHeight <= nHeight && pindexWalk.Linked()
        invariant pindexWalk.Ancestor(height) == Ancestor(height)
        invariant steps + Steps(heightWalk, height) == Steps(nHeight, height)
        decreases heightWalk
      {
        SkipGoesBack(heightWalk);
        steps := steps + 1;
        var heightSkip := GetSkipHeight(heightWalk);
        var heightSkipPrev := GetSkipHeight(heightWalk - 1);
        if heightSkip == height
           || (heightSkip > height && !(heightSkipPrev < heightSkip - 2 && heightSkipPrev >= height)) {
          AncestorOfAncestor(pindexWalk, heightSkip, height);
          assert pindexWalk.pskip == pindexWalk.Ancestor(heightSkip);
          pindexWalk := pindexWalk.pskip;
          heightWalk := heightSkip;
        } else {
          pindexWalk := pindexWalk.pprev;
          heightWalk := heightWalk - 1;
        }
      }
      return pindexWalk, steps;
    }
  }

  lemma {:induction false} AncestorOfAncestor(b: CBlockIndex, g: nat, h: nat)
    requires b.Linked() && h <= g <= b.nHeight
    ensures b.Ancestor(g).Ancestor(h) == b.Ancestor(h)
    decreases b.nHeight
  {
    if g < b.nHeight { AncestorOfAncestor(b.pprev, g, h); }
  }

  lemma ParentIsAncestor(b: CBlockIndex)
    requires b.Linked() && b.nHeight > 0
    ensures b.pprev != null && b.pprev.Linked() && b.pprev == b.Ancestor(b.nHeight - 1)
  {
  }
}
