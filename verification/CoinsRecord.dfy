/**
 The unspent outputs of one transaction (core/src/coins.h, coins.cpp): spending
 an output, trimming spent outputs off the end, and undoing a spend.
 */
module CoinsRecord {

  type Byte = b: int | 0 <= b < 256

  datatype TxOut = TxOut(nValue: int, script: seq<Byte>, nRounds: int) {
    predicate IsNull() {
      nValue == -1
    }
  }

  const NULL_OUT := TxOut(-1, [], -10)

  datatype Coins = Coins(fCoinBase: bool, fCoinStake: bool, vout: seq<TxOut>, nHeight: int, nVersion: int)

  const EMPTY := Coins(false, false, [], 0, 0)

  predicate IsPruned(c: Coins) {
    forall i :: 0 <= i < |c.vout| ==> c.vout[i].IsNull()
  }

  /** Spent outputs at the end are dropped. */
  predicate IsClean(c: Coins) {
    |c.vout| > 0 ==> !c.vout[|c.vout| - 1].IsNull()
  }

  function Trim(outs: seq<TxOut>): seq<TxOut> {
    if |outs| > 0 && outs[|outs| - 1].IsNull() then Trim(outs[..|outs| - 1]) else outs
  }

  function Cleaned(c: Coins): Coins {
    c.(vout := Trim(c.vout))
  }

  /** Trimming keeps a prefix, and what it drops is spent. */
  lemma {:induction false} TrimKeeps(outs: seq<TxOut>)
    ensures |Trim(outs)| <= |outs| && Trim(outs) == outs[..|Trim(outs)|]
    ensures forall i :: |Trim(outs)| <= i < |outs| ==> outs[i].IsNull()
    ensures |Trim(outs)| > 0 ==> !Trim(outs)[|Trim(outs)| - 1].IsNull()
  {
    if |outs| > 0 && outs[|outs| - 1].IsNull() {
      var init := outs[..|outs| - 1];
      TrimKeeps(init);
      assert forall i :: 0 <= i < |init| ==> outs[i] == init[i];
    }
  }

  lemma CleanedIsClean(c: Coins)
    ensures IsClean(Cleaned(c)) && (IsPruned(Cleaned(c)) <==> IsPruned(c))
    ensures IsPruned(c) ==> Cleaned(c).vout == []
    ensures IsClean(c) ==> Cleaned(c) == c
  {
    TrimKeeps(c.vout);
    var t := Trim(c.vout);
    assert forall i :: 0 <= i < |t| ==> t[i] == c.vout[i];
  }

  /** A clean record is pruned exactly when it has no outputs left at all. */
  lemma CleanPruned(c: Coins)
    requires IsClean(c)
    ensures IsPruned(c) <==> c.vout == []
  {
    if |c.vout| > 0 {
      assert !c.vout[|c.vout| - 1].IsNull();
    }
  }

  method Cleanup(c: Coins) returns (r: Coins)
    ensures r == Cleaned(c)
  {
    r := c;
    while |r.vout| > 0 && r.vout[|r.vout| - 1].IsNull()
      invariant r == c.(vout := r.vout) && Trim(r.vout) == Trim(c.vout)
      decreases |r.vout|
    {
      r := r.(vout := r.vout[..|r.vout| - 1]);
    }
  }

  // ---------------------------------------------------------------- spending and undoing

  datatype TxInUndo = TxInUndo(txout: TxOut, fCoinBase: bool, fCoinStake: bool, nHeight: int, nVersion: int)

  /** Spend output `n`; the last spend also records what else the transaction was. */
  method Spend(c: Coins, n: nat) returns (ok: bool, r: Coins, undo: TxInUndo)
    ensures ok <==> n < |c.vout| && !c.vout[n].IsNull()
    ensures !ok ==> r == c
    ensures ok ==> r == Spent(c, n) && undo == UndoOf(c, n)
  {
    r := c;
    undo := TxInUndo(NULL_OUT, false, false, 0, 0);
    if n >= |c.vout| || c.vout[n].IsNull() {
      ok := false;
      return;
    }
    undo := TxInUndo(c.vout[n], false, false, 0, 0);
    r := c.(vout := c.vout[n := NULL_OUT]);
    r := Cleanup(r);
    if |r.vout| == 0 {
      undo := undo.(nHeight := r.nHeight, fCoinBase := r.fCoinBase, fCoinStake := r.fCoinStake, nVersion := r.nVersion);
    }
    ok := true;
  }

  function Spent(c: Coins, n: nat): Coins
    requires n < |c.vout|
  {
    Cleaned(c.(vout := c.vout[n := NULL_OUT]))
  }

  function UndoOf(c: Coins, n: nat): TxInUndo
    requires n < |c.vout|
  {
    if Spent(c, n).vout == []
    then TxInUndo(c.vout[n], c.fCoinBase, c.fCoinStake, c.nHeight, c.nVersion)
    else TxInUndo(c.vout[n], false, false, 0, 0)
  }

  /**
   What a spend leaves: only that output is emptied and spent ones at the end go.  Its undo data holds the
   output, and what else the transaction was exactly when no other output is left.
   */
  lemma SpendMeans(c: Coins, n: nat)
    requires n < |c.vout| && !c.vout[n].IsNull()
    ensures var s := Spent(c, n);
      && s == c.(vout := s.vout) && |s.vout| <= |c.vout| && IsClean(s)
      && (forall i :: 0 <= i < |s.vout| ==> s.vout[i] == if i == n then NULL_OUT else c.vout[i])
      && (forall i :: |s.vout| <= i < |c.vout| && i != n ==> c.vout[i].IsNull())
    ensures var u, last := UndoOf(c, n), forall i :: 0 <= i < |c.vout| && i != n ==> c.vout[i].IsNull();
      && u.txout == c.vout[n]
      && (last ==> u.nHeight == c.nHeight && u.nVersion == c.nVersion && u.fCoinBase == c.fCoinBase && u.fCoinStake == c.fCoinStake)
      && (!last ==> u.nHeight == 0 && u.nVersion == 0 && !u.fCoinBase && !u.fCoinStake)
  {
    var outs := c.vout[n := NULL_OUT];
    TrimKeeps(outs);
    var t := Trim(outs);
    hide Trim;
    assert forall i :: 0 <= i < |t| ==> t[i] == outs[i];
    assert forall i :: |t| <= i < |outs| && i != n ==> c.vout[i] == outs[i];
    if t != [] { assert t[|t| - 1] == outs[|t| - 1]; }
  }

  /** `vout.resize(size)`: new places hold a null output. */
  function Resized(outs: seq<TxOut>, size: nat): (r: seq<TxOut>)
    ensures |r| == size
    ensures forall i :: 0 <= i < size ==> r[i] == if i < |outs| then outs[i] else NULL_OUT
  {
    seq(size, i requires 0 <= i => if i < |outs| then outs[i] else NULL_OUT)
  }

  /** The undo step of disconnecting a block, on the record found for the transaction. */
  function Restored(c: Coins, n: nat, undo: TxInUndo): Coins {
    var base := if undo.nHeight != 0
      then Coins(undo.fCoinBase, false, [], undo.nHeight, undo.nVersion)
      else c;
    var outs := if |base.vout| < n + 1 then Resized(base.vout, n + 1) else base.vout;
    base.(vout := outs[n := undo.txout])
  }

  /** Spent places hold the canonical null output. */
  predicate Canonical(c: Coins) {
    forall i :: 0 <= i < |c.vout| && c.vout[i].IsNull() ==> c.vout[i] == NULL_OUT
  }

  lemma SpentShape(c: Coins, n: nat)
    requires IsClean(c) && Canonical(c) && n < |c.vout| && !c.vout[n].IsNull()
    ensures var t := Spent(c, n).vout;
      && |t| <= |c.vout|
      && (forall i :: 0 <= i < |t| ==> t[i] == c.vout[n := NULL_OUT][i])
      && (forall i :: |t| <= i < |c.vout| ==> i == n || c.vout[i] == NULL_OUT)
      && (|t| == |c.vout| || |c.vout| == n + 1)
  {
    var outs := c.vout[n := NULL_OUT];
    TrimKeeps(outs);
    var t := Trim(outs);
    assert forall i :: 0 <= i < |t| ==> t[i] == outs[i];
    if n != |c.vout| - 1 {
      assert outs[|c.vout| - 1] == c.vout[|c.vout| - 1];
    }
  }

  /**
   Undoing a spend gives the record back exactly when the spend was not the last
   one of a coinstake (above height 0): the undo step restores every field but
   `fCoinStake`.
   */
  lemma UndoRestores(c: Coins, n: nat)
    requires IsClean(c) && Canonical(c) && n < |c.vout| && !c.vout[n].IsNull()
    ensures Restored(Spent(c, n), n, UndoOf(c, n)) == c <==>
      !(c.fCoinStake && Spent(c, n).vout == [] && c.nHeight != 0)
    ensures Restored(Spent(c, n), n, UndoOf(c, n)) ==
      if Spent(c, n).vout == [] && c.nHeight != 0 then c.(fCoinStake := false) else c
  {
    SpentShape(c, n);
    var r := Restored(Spent(c, n), n, UndoOf(c, n));
    assert |r.vout| == |c.vout|;
    forall i | 0 <= i < |c.vout|
      ensures r.vout[i] == c.vout[i]
    {
    }
    assert r.vout == c.vout;
  }

  /** A coinstake of one output: after spending and undoing it, it is no coinstake any more. */
  lemma CoinstakeFlagLost() returns (c: Coins)
    ensures IsClean(c) && Canonical(c) && |c.vout| == 1 && !c.vout[0].IsNull() && c.fCoinStake
    ensures Restored(Spent(c, 0), 0, UndoOf(c, 0)) == c.(fCoinStake := false) != c
  {
    c := Coins(false, true, [TxOut(50, [], 0)], 7, 1);
    UndoRestores(c, 0);
    TrimKeeps(c.vout[0 := NULL_OUT]);
    assert Spent(c, 0).vout == [];
  }
}
