/**
 The budget manager as it runs: its loops over budgets, outputs and history, against
 `BudgetPayments` (core/src/masternode-budget.cpp:536-597, 638-741, 2117-2199).
 The finalized budgets are in the order of the map that holds them.
 */
module BudgetManager {
  import opened BudgetPayments
  import opened Prelude
  import opened PaymentOutputs

  /**
   How a block is filled: the chosen budget's payment of this height comes last; a miner keeps the block
   value, and what followed its output gives way.
   */
  ghost predicate Fills(budgets: seq<Finalized>, h: int, vout: seq<TxOut>, blockValue: int, fProofOfStake: bool, r: seq<TxOut>) {
    if NobodyVoted(budgets, h) then
      r == if fProofOfStake || vout == [] then vout else [TxOut(vout[0].scriptPubKey, blockValue)] + vout[1..]
    else exists k: nat ::
      && FirstMost(budgets, h, k)
      && var p := budgets[k].vecBudgetPayments[h - budgets[k].nBlockStart];
         var payment := TxOut(p.payee, p.nAmount);
         r == if fProofOfStake || vout == [] then vout + [payment] else [TxOut(vout[0].scriptPubKey, blockValue), payment]
  }

  lemma ProducedFills(budgets: seq<Finalized>, h: int, vout: seq<TxOut>, blockValue: int, fProofOfStake: bool)
    requires !fProofOfStake ==> vout != []
    ensures Fills(budgets, h, vout, blockValue, fProofOfStake,
      if fProofOfStake then Produced(budgets, h, vout) else ProducedPoW(budgets, h, vout, blockValue))
  {
    ChosenIs(budgets, h);
    if Chosen(budgets, h) >= 0 { assert FirstMost(budgets, h, Chosen(budgets, h)); }
  }

  class CBudgetManager {
    var mapFinalizedBudgets: seq<Finalized>
    var mapPayment_History: History

    constructor ()
      ensures mapFinalizedBudgets == [] && mapPayment_History == map[]
    {
      mapFinalizedBudgets, mapPayment_History := [], map[];
    }

    method IsPaidAlready(b: Finalized, nProposalHash: Hash, nBlockHeight: int) returns (paid: bool)
      modifies this`mapPayment_History
      ensures paid <==> nProposalHash in Purged(old(mapPayment_History), b)
      ensures mapPayment_History ==
        if paid then Purged(old(mapPayment_History), b) else Purged(old(mapPayment_History), b)[nProposalHash := nBlockHeight]
    {
      ghost var was := mapPayment_History;
      var todo := mapPayment_History.Keys;
      while todo != {}
        invariant todo <= was.Keys
        invariant forall p :: p in mapPayment_History <==> p in was && (p in todo || b.nBlockStart <= was[p] <= BlockEnd(b))
        invariant forall p :: p in mapPayment_History ==> mapPayment_History[p] == was[p]
        decreases |todo|
      {
        var p := PickOne(todo);
        var nPaidBlockHeight := mapPayment_History[p];
        if nPaidBlockHeight < b.nBlockStart || nPaidBlockHeight > BlockEnd(b) {
          mapPayment_History := mapPayment_History - {p};
        }
        todo := todo - {p};
      }
      NoneLeft(todo);
      forall p
        ensures p in mapPayment_History <==> p in Purged(was, b)
        ensures p in mapPayment_History ==> mapPayment_History[p] == Purged(was, b)[p]
      {
        assert p !in todo;
      }
      MapsEqual(mapPayment_History, Purged(was, b));
      if nProposalHash !in mapPayment_History {
        mapPayment_History := mapPayment_History[nProposalHash := nBlockHeight];
        return false;
      }
      return true;
    }

    /** `CFinalizedBudget::IsTransactionValid` */
    method FinalizedIsTransactionValid(b: Finalized, txNew: seq<TxOut>, nBlockHeight: int) returns (status: Status)
      modifies this`mapPayment_History
      ensures Verdict(status, mapPayment_History) == Judged(old(mapPayment_History), b, nBlockHeight, txNew)
    {
      status := InValid;
      var nCurrentBudgetPayment := nBlockHeight - b.nBlockStart;
      if nCurrentBudgetPayment < 0 {
        return InValid;
      }
      if nCurrentBudgetPayment > |b.vecBudgetPayments| - 1 {
        return InValid;
      }
      for i := 0 to |txNew|
        invariant Scanned(mapPayment_History, b, nBlockHeight, txNew, i, status)
          == Judged(old(mapPayment_History), b, nBlockHeight, txNew)
      {
        var payment, out := b.vecBudgetPayments[nCurrentBudgetPayment], txNew[i];
        if payment.payee == out.scriptPubKey && payment.nAmount == out.nValue {
          var paid := IsPaidAlready(b, payment.nProposalHash, nBlockHeight);
          if paid {
            return DoublePayment;
          } else {
            status := Valid;
          }
        }
      }
    }

    method IsBudgetPaymentBlock(nBlockHeight: int, nEnabled: nat) returns (r: bool)
      ensures r <==> exists i ::
        0 <= i < |mapFinalizedBudgets| && InWindow(mapFinalizedBudgets[i], nBlockHeight) && 20 * mapFinalizedBudgets[i].nVotes > nEnabled
    {
      PaymentBlockIs(mapFinalizedBudgets, nEnabled, nBlockHeight);
      var nHighestCount := -1;
      for i := 0 to |mapFinalizedBudgets|
        invariant nHighestCount == Highest(mapFinalizedBudgets[..i], nBlockHeight, -1)
      {
        nHighestCount := Raise(i, nBlockHeight, -1, nHighestCount);
      }
      assert mapFinalizedBudgets[..|mapFinalizedBudgets|] == mapFinalizedBudgets;
      r := nHighestCount > nEnabled / 20;
    }

    /** The body of the loop that grabs the highest count. */
    method Raise(i: nat, nBlockHeight: int, ghost floor: int, nHighest: int) returns (nHighestCount: int)
      requires i < |mapFinalizedBudgets| && nHighest == Highest(mapFinalizedBudgets[..i], nBlockHeight, floor)
      ensures nHighestCount == Highest(mapFinalizedBudgets[..i + 1], nBlockHeight, floor)
    {
      assert mapFinalizedBudgets[..i + 1][..i] == mapFinalizedBudgets[..i];
      var b := mapFinalizedBudgets[i];
      nHighestCount := nHighest;
      if b.nVotes > nHighest && nBlockHeight >= b.nBlockStart && nBlockHeight <= BlockEnd(b) {
        nHighestCount := b.nVotes;
      }
    }

    /** The loop of `FillBlockPayee`. */
    method ChoosePayment(nHeight: int) returns (nHighestCount: nat, payee: Script, nAmount: int)
      ensures var c := Chosen(mapFinalizedBudgets, nHeight + 1);
        if c < 0 then nHighestCount == 0
        else
          && nHighestCount > 0
          && payee == PaymentAt(mapFinalizedBudgets[c], nHeight + 1).payee && nAmount == PaymentAt(mapFinalizedBudgets[c], nHeight + 1).nAmount
    {
      nHighestCount, payee, nAmount := 0, 0, 0;
      ghost var h := nHeight + 1;
      for i := 0 to |mapFinalizedBudgets|
        invariant nHighestCount == Highest(mapFinalizedBudgets[..i], h, 0)
        invariant var c := Chosen(mapFinalizedBudgets[..i], h);
          if c < 0 then nHighestCount == 0
          else payee == PaymentAt(mapFinalizedBudgets[c], h).payee && nAmount == PaymentAt(mapFinalizedBudgets[c], h).nAmount
      {
        assert mapFinalizedBudgets[..i + 1][..i] == mapFinalizedBudgets[..i];
        var b := mapFinalizedBudgets[i];
        if b.nVotes > nHighestCount && nHeight + 1 >= b.nBlockStart && nHeight + 1 <= BlockEnd(b) {
          // GetPayeeAndAmount finds the payment: the height is in the window
          payee := b.vecBudgetPayments[nHeight + 1 - b.nBlockStart].payee;
          nAmount := b.vecBudgetPayments[nHeight + 1 - b.nBlockStart].nAmount;
          nHighestCount := b.nVotes;
        }
      }
      assert mapFinalizedBudgets[..|mapFinalizedBudgets|] == mapFinalizedBudgets;
    }

    method FillBlockPayee(vout: seq<TxOut>, nHeight: int, blockValue: int, fProofOfStake: bool) returns (r: seq<TxOut>)
      requires !fProofOfStake ==> vout != []
      ensures r == if fProofOfStake then Produced(mapFinalizedBudgets, nHeight + 1, vout)
                   else ProducedPoW(mapFinalizedBudgets, nHeight + 1, vout, blockValue)
      ensures Fills(mapFinalizedBudgets, nHeight + 1, vout, blockValue, fProofOfStake, r)
    {
      hide Fills;
      ghost var h := nHeight + 1;
      var nHighestCount, payee, nAmount := ChoosePayment(nHeight);
      ProducedFills(mapFinalizedBudgets, h, vout, blockValue, fProofOfStake);
      r := vout;
      if fProofOfStake {
        if nHighestCount > 0 {
          r := r + [TxOut(payee, nAmount)];
        }
      } else {
        r := r[0 := r[0].(nValue := blockValue)];
        assert r == [r[0]] + vout[1..];
        if nHighestCount > 0 {
          r := [r[0], TxOut(payee, nAmount)];
        }
      }
    }

    method IsTransactionValid(txNew: seq<TxOut>, nBlockHeight: int, nEnabled: nat) returns (status: Status)
      modifies this`mapPayment_History
      ensures Verdict(status, mapPayment_History)
        == Validated(old(mapPayment_History), mapFinalizedBudgets, nEnabled, nBlockHeight, txNew)
    {
      status := InValid;
      var nHighestCount: int := 0;
      for i := 0 to |mapFinalizedBudgets|
        invariant nHighestCount == Highest(mapFinalizedBudgets[..i], nBlockHeight, 0)
        invariant mapPayment_History == old(mapPayment_History)
      {
        nHighestCount := Raise(i, nBlockHeight, 0, nHighestCount);
      }
      assert mapFinalizedBudgets[..|mapFinalizedBudgets|] == mapFinalizedBudgets;
      if nHighestCount < nEnabled / 20 {
        return InValid;
      }
      var nCountThreshold := nHighestCount - nEnabled / 10;
      var fThreshold := false;
      for i := 0 to |mapFinalizedBudgets|
        invariant Tried(mapPayment_History, mapFinalizedBudgets, nCountThreshold, nBlockHeight, txNew, i, status)
          == Tried(old(mapPayment_History), mapFinalizedBudgets, nCountThreshold, nBlockHeight, txNew, 0, InValid)
        invariant status != Valid
        invariant fThreshold <==> exists k :: 0 <= k < i && mapFinalizedBudgets[k].nVotes > nCountThreshold
      {
        var b := mapFinalizedBudgets[i];
        if b.nVotes > nCountThreshold {
          fThreshold := true;
          if nBlockHeight >= b.nBlockStart && nBlockHeight <= BlockEnd(b) {
            status := FinalizedIsTransactionValid(b, txNew, nBlockHeight);
            if status == Valid {
              return Valid;
            }
          }
        }
      }
      if !fThreshold {
        status := VoteThreshold;
      }
    }
  }
}
