/**
 A chain as an array over the tree of blocks (core/src/chain.cpp:16-67, core/src/chain.h:421-492).
 */
module Chain {
  import opened Numerals
  import opened BlockIndex

  /** Block `a` lies on the way down from `b`. */
  ghost predicate IsAncestor(a: CBlockIndex, b: CBlockIndex)
    requires b.Linked()
  {
    a.nHeight <= b.nHeight && b.Ancestor(a.nHeight) == a
  }

  class CChain {
    var vChain: seq<CBlockIndex?>

    /** Every entry is the ancestor of the last one at its height. */
    ghost predicate Valid()
      reads this
    {
      vChain != [] ==>
        var tip := vChain[|vChain| - 1];
        && tip != null && tip.Linked() && tip.nHeight == |vChain| - 1
        && forall h :: 0 <= h < |vChain| ==> vChain[h] == tip.Ancestor(h)
    }

    constructor ()
      ensures Valid() && vChain == []
    {
      vChain := [];
    }

    function Height(): int
      reads this
    {
      |vChain| - 1
    }

    function At(nHeight: int): CBlockIndex?
      reads this
    {
      if nHeight < 0 || nHeight >= |vChain| then null else vChain[nHeight]
    }

    function Tip(): CBlockIndex?
      reads this
    {
      if |vChain| < 1 then null else vChain[|vChain| - 1]
    }

    predicate Contains(pindex: CBlockIndex)
      reads this
    {
      At(pindex.nHeight) == pindex
    }

    /** A block is in the chain exactly when it is an ancestor of the tip. */
    lemma ContainsIs(b: CBlockIndex)
      requires Valid() && b.Linked()
      ensures Contains(b) <==> Tip() != null && IsAncestor(b, Tip())
    {
    }

    /** The successor within the chain: the block of the chain whose parent is `pindex`. */
    method Next(pindex: CBlockIndex) returns (r: CBlockIndex?)
      requires Valid() && pindex.Linked()
      ensures r != null ==> Contains(r) && r.pprev == pindex && Contains(pindex)
      ensures r == null <==> !Contains(pindex) || pindex == Tip()
    {
      if Contains(pindex) {
        r := At(pindex.nHeight + 1);
        if r != null {
          ParentIsAncestor(r);
          AncestorOfAncestor(Tip(), r.nHeight, pindex.nHeight);
        }
      } else {
        r := null;
      }
    }

    method SetTip(pindexIn: CBlockIndex?)
      requires Valid() && (pindexIn != null ==> pindexIn.Linked())
      modifies this
      ensures Valid() && Tip() == pindexIn
      ensures pindexIn != null ==> |vChain| == pindexIn.nHeight + 1 && forall h :: 0 <= h < |vChain| ==> vChain[h] == pindexIn.Ancestor(h)
    {
      hide CBlockIndex.SkipRight;
      if pindexIn == null {
        vChain := [];
        return;
      }
      ghost var was := vChain;
      var n := pindexIn.nHeight + 1;
      // vChain.resize(n)
      vChain := seq(n, i requires 0 <= i < n reads this => if i < |vChain| then vChain[i] else null);
      ghost var resized := vChain;
      assert forall i :: 0 <= i < n && i < |was| ==> resized[i] == was[i];
      var pindex: CBlockIndex? := pindexIn;
      while pindex != null && vChain[pindex.nHeight] != pindex
        invariant |vChain| == n
        invariant pindex != null ==> pindex.Linked() && pindex.nHeight < n && pindexIn.Ancestor(pindex.nHeight) == pindex
        invariant forall h :: (if pindex == null then 0 else pindex.nHeight + 1) <= h < n ==> vChain[h] == pindexIn.Ancestor(h)
        invariant pindex != null ==> forall h :: 0 <= h <= pindex.nHeight ==> vChain[h] == resized[h]
        decreases if pindex == null then 0 else pindex.nHeight + 1
      {
        vChain := vChain[pindex.nHeight := pindex];
        if pindex.nHeight > 0 {
          ParentIsAncestor(pindex);
          AncestorOfAncestor(pindexIn, pindex.nHeight, pindex.nHeight - 1);
        }
        pindex := pindex.pprev;
      }
      if pindex != null {
        // the early stop: what is below was right already
        ghost var oldTip := was[|was| - 1];
        forall h | 0 <= h <= pindex.nHeight
          ensures vChain[h] == pindexIn.Ancestor(h)
        {
          AncestorOfAncestor(oldTip, pindex.nHeight, h);
          AncestorOfAncestor(pindexIn, pindex.nHeight, h);
        }
      }
      assert vChain[n - 1] == pindexIn.Ancestor(n - 1) == pindexIn;
    }

    /** The highest block that the chain and the branch of `pindexIn` have in common. */
    method FindFork(pindexIn: CBlockIndex?) returns (r: CBlockIndex?)
      requires Valid() && (pindexIn != null ==> pindexIn.Linked())
      ensures pindexIn == null ==> r == null
      ensures pindexIn != null && r != null ==> Contains(r) && IsAncestor(r, pindexIn)
      ensures pindexIn != null ==>
        forall h :: (if r == null then 0 else r.nHeight + 1) <= h <= pindexIn.nHeight ==> !Contains(pindexIn.Ancestor(h))
    {
      if pindexIn == null {
        return null;
      }
      var pindex: CBlockIndex? := pindexIn;
      if pindex.nHeight > Height() {
        ghost var steps;
        pindex, steps := pindex.GetAncestor(Height());
      }
      while pindex != null && !Contains(pindex)
        invariant pindex != null ==> pindex.Linked() && IsAncestor(pindex, pindexIn)
        invariant forall h :: (if pindex == null then 0 else pindex.nHeight + 1) <= h <= pindexIn.nHeight ==> !Contains(pindexIn.Ancestor(h))
        decreases if pindex == null then 0 else pindex.nHeight + 1
      {
        if pindex.nHeight > 0 {
          ParentIsAncestor(pindex);
          AncestorOfAncestor(pindexIn, pindex.nHeight, pindex.nHeight - 1);
        }
        pindex := pindex.pprev;
      }
      return pindex;
    }

    /**
     The blocks that tell a peer where we are: ancestors with falling heights down to the
     first block, dense at the top and then ever further apart.
     */
    method GetLocator(pindexIn: CBlockIndex?) returns (vHave: seq<CBlockIndex>)
      requires Valid() && (pindexIn != null ==> pindexIn.Linked())
      ensures var start := if pindexIn == null then Tip() else pindexIn;
        if start == null then vHave == [] else
          && vHave != [] && vHave[0] == start && vHave[|vHave| - 1].nHeight == 0
          && (forall i :: 0 <= i < |vHave| ==> IsAncestor(vHave[i], start))
          && (forall i :: 0 <= i < |vHave| - 1 ==> vHave[i].nHeight > vHave[i + 1].nHeight)
          && (forall i :: 0 <= i < |vHave| - 1 ==>
                var below := vHave[i].nHeight - if i <= 10 then 1 else Pow(2, i - 10);
                vHave[i + 1].nHeight == if below < 0 then 0 else below)
          && (|vHave| >= 12 ==> Pow(2, |vHave| - 12) < start.nHeight)
    {
      vHave := [];
      var pindex := pindexIn;
      if pindex == null {
        pindex := Tip();
      }
      if pindex != null {
        vHave := LocatorFrom(pindex);
        StridesAre(vHave);
      }
    }

    /** The loop of `GetLocator`. */
    method LocatorFrom(start: CBlockIndex) returns (vHave: seq<CBlockIndex>)
      requires Valid() && start.Linked()
      ensures vHave != [] && vHave[0] == start && vHave[|vHave| - 1].nHeight == 0 && Descends(vHave, start)
      ensures Strides(vHave)
      ensures |vHave| >= 12 ==> Pow(2, |vHave| - 12) < start.nHeight
    {
      hide Descends, Strides, Pow, Step, Used, CBlockIndex.SkipRight;
      var nStep := 1;
      var pindex: CBlockIndex := start;
      vHave := [];
      NothingDescends(start);
      assert Strides(vHave) by { NoStrides(vHave); }
      while true
        invariant pindex.Linked() && IsAncestor(pindex, start) && Descends(vHave, start)
        invariant if vHave == [] then pindex == start else vHave[0] == start && vHave[|vHave| - 1].nHeight > pindex.nHeight
        invariant nStep == Step(|vHave|) && Strides(vHave)
        invariant vHave != [] ==> pindex.nHeight == Below(vHave[|vHave| - 1].nHeight, |vHave| - 1)
        invariant pindex.nHeight > 0 ==> start.nHeight >= pindex.nHeight + Used(|vHave|)
        invariant |vHave| >= 11 ==> Pow(2, |vHave| - 11) < start.nHeight
        decreases pindex.nHeight
      {
        UsedGrows(|vHave|);
        UsedGrows(|vHave| + 1);
        DescendsFurther(vHave, start, pindex);
        StridesFurther(vHave, pindex);
        vHave := vHave + [pindex];
        if pindex.nHeight == 0 {
          break;
        }
        var nHeight := if pindex.nHeight - nStep > 0 then pindex.nHeight - nStep else 0;
        AncestorOfAncestor(start, pindex.nHeight, nHeight);
        pindex := GoTo(pindex, nHeight);
        if |vHave| > 10 {
          nStep := nStep * 2;
        }
      }
    }

    /** By index within the chain, otherwise by the second pointers: the same block. */
    method GoTo(pindex: CBlockIndex, nHeight: nat) returns (r: CBlockIndex)
      requires Valid() && pindex.Linked() && nHeight <= pindex.nHeight
      ensures r == pindex.Ancestor(nHeight)
    {
      if Contains(pindex) {
        AncestorOfAncestor(Tip(), pindex.nHeight, nHeight);
        r := At(nHeight);
      } else {
        ghost var steps;
        r, steps := pindex.GetAncestor(nHeight);
      }
    }
  }

  /** Ancestors with falling heights. */
  ghost predicate Descends(v: seq<CBlockIndex>, start: CBlockIndex)
    requires start.Linked()
  {
    && (forall i :: 0 <= i < |v| ==> IsAncestor(v[i], start))
    && (forall i :: 0 <= i < |v| - 1 ==> v[i].nHeight > v[i + 1].nHeight)
  }

  lemma NothingDescends(start: CBlockIndex)
    requires start.Linked()
    ensures Descends([], start) && Used(0) == 0 && Step(0) == 1
  {
  }

  lemma DescendsFurther(v: seq<CBlockIndex>, start: CBlockIndex, b: CBlockIndex)
    requires start.Linked() && Descends(v, start) && IsAncestor(b, start)
    requires v != [] ==> v[|v| - 1].nHeight > b.nHeight
    ensures Descends(v + [b], start)
  {
    hide IsAncestor;
    var w := v + [b];
    forall i | 0 <= i < |w| - 1
      ensures w[i].nHeight > w[i + 1].nHeight
    {
      assert i < |v| - 1 ==> w[i + 1] == v[i + 1];
    }
  }

  /** The step after `n` blocks, and the heights stepped over with them. */
  function Step(n: nat): nat { if n < 11 then 1 else 2 * Step(n - 1) }
  function Used(n: nat): nat { if n == 0 then 0 else Used(n - 1) + Step(n - 1) }

  /** The height that follows `h` as entry `i`. */
  function Below(h: nat, i: nat): nat { if h > Step(i) then h - Step(i) else 0 }

  ghost predicate Strides(v: seq<CBlockIndex>) {
    forall i :: 0 <= i < |v| - 1 ==> v[i + 1].nHeight == Below(v[i].nHeight, i)
  }

  lemma NoStrides(v: seq<CBlockIndex>)
    requires v == []
    ensures Strides(v)
  {
  }

  lemma StridesFurther(v: seq<CBlockIndex>, b: CBlockIndex)
    requires Strides(v) && (v != [] ==> b.nHeight == Below(v[|v| - 1].nHeight, |v| - 1))
    ensures Strides(v + [b])
  {
    hide Below;
    var w := v + [b];
    forall i | 0 <= i < |w| - 1
      ensures w[i + 1].nHeight == Below(w[i].nHeight, i)
    {
      assert i < |v| - 1 ==> w[i + 1] == v[i + 1];
    }
  }

  /** The strides are one for the first eleven entries, and twice as long each time from then on. */
  lemma StridesAre(v: seq<CBlockIndex>)
    requires Strides(v)
    ensures forall i :: 0 <= i < |v| - 1 ==>
      var below := v[i].nHeight - if i <= 10 then 1 else Pow(2, i - 10);
      v[i + 1].nHeight == if below < 0 then 0 else below
  {
    hide Pow;
    forall i | 0 <= i < |v| - 1
      ensures Step(i) == if i <= 10 then 1 else Pow(2, i - 10)
    {
      UsedGrows(i);
    }
  }

  lemma {:induction false} UsedGrows(n: nat)
    ensures n >= 10 ==> Used(n) >= Pow(2, n - 10) == Step(n)
    ensures Step(n + 1) == if n + 1 > 10 then 2 * Step(n) else Step(n)
    ensures Used(n + 1) == Used(n) + Step(n) && Step(n) >= 1
  {
    if n > 10 { UsedGrows(n - 1); }
  }
}
