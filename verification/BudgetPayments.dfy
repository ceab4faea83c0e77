/**
 Budget payments: what the producer of a block adds, what the validator of a block
 accepts, and the payment history between validations
 (core/src/masternode-budget.cpp:536-597, 638-741, 2117-2199).
 */
module BudgetPayments {
  import opened Arithmetic
  import opened PaymentOutputs


  datatype BudgetPayment = BudgetPayment(nProposalHash: Hash, payee: Script, nAmount: int)

  /** A finalized budget, with the number of its votes. */
  datatype Finalized = Finalized(nBlockStart: int, vecBudgetPayments: seq<BudgetPayment>, nVotes: nat)

  datatype Status = InValid | Valid | DoublePayment | VoteThreshold

  /** mapPayment_History: for a proposal, the height at which it was paid. */
  type History = map<Hash, int>

  function BlockEnd(b: Finalized): int { b.nBlockStart + |b.vecBudgetPayments| - 1 }

  predicate InWindow(b: Finalized, h: int) { b.nBlockStart <= h <= BlockEnd(b) }

  function PaymentAt(b: Finalized, h: int): BudgetPayment
    requires InWindow(b, h)
  {
    b.vecBudgetPayments[h - b.nBlockStart]
  }

  /** The window of a budget is one block for each of its payments, in their order. */
  lemma WindowIs(b: Finalized, i: int)
    ensures InWindow(b, b.nBlockStart + i) <==> 0 <= i < |b.vecBudgetPayments|
    ensures 0 <= i < |b.vecBudgetPayments| ==> PaymentAt(b, b.nBlockStart + i) == b.vecBudgetPayments[i]
  {
  }

  predicate Pays(p: BudgetPayment, out: TxOut) { p.payee == out.scriptPubKey && p.nAmount == out.nValue }

  // ---------------------------------------------------------------- one budget

  /** The history without payments from outside the budget's window. */
  function Purged(hist: History, b: Finalized): History {
    map p | p in hist && b.nBlockStart <= hist[p] <= BlockEnd(b) :: hist[p]
  }

  datatype Verdict = Verdict(status: Status, hist: History)

  /** The outputs from position `i` on, after `status` so far. */
  function Scanned(hist: History, b: Finalized, h: int, outs: seq<TxOut>, i: nat, status: Status): Verdict
    requires InWindow(b, h) && i <= |outs|
    decreases |outs| - i
  {
    if i == |outs| then Verdict(status, hist)
    else if !Pays(PaymentAt(b, h), outs[i]) then Scanned(hist, b, h, outs, i + 1, status)
    else
      var purged, p := Purged(hist, b), PaymentAt(b, h).nProposalHash;
      if p in purged then Verdict(DoublePayment, purged)
      else Scanned(purged[p := h], b, h, outs, i + 1, Valid)
  }

  /** `CFinalizedBudget::IsTransactionValid` */
  function Judged(hist: History, b: Finalized, h: int, outs: seq<TxOut>): Verdict {
    if InWindow(b, h) then Scanned(hist, b, h, outs, 0, InValid) else Verdict(InValid, hist)
  }

  function Matches(b: Finalized, h: int, outs: seq<TxOut>): nat
    requires InWindow(b, h)
  {
    if outs == [] then 0 else (if Pays(PaymentAt(b, h), outs[0]) then 1 else 0) + Matches(b, h, outs[1..])
  }

  lemma {:induction false} ScannedIs(hist: History, b: Finalized, h: int, outs: seq<TxOut>, i: nat, status: Status)
    requires InWindow(b, h) && i <= |outs|
    ensures var v, n, p := Scanned(hist, b, h, outs, i, status), Matches(b, h, outs[i..]), PaymentAt(b, h).nProposalHash;
      && (n == 0 ==> v == Verdict(status, hist))
      && (n > 0 && p in Purged(hist, b) ==> v == Verdict(DoublePayment, Purged(hist, b)))
      && (n == 1 && p !in Purged(hist, b) ==> v == Verdict(Valid, Purged(hist, b)[p := h]))
      && (n > 1 && p !in Purged(hist, b) ==> v == Verdict(DoublePayment, Purged(hist, b)[p := h]))
    decreases |outs| - i
  {
    if i < |outs| {
      assert outs[i..][1..] == outs[i + 1..];
      if Pays(PaymentAt(b, h), outs[i]) {
        var p := PaymentAt(b, h).nProposalHash;
        if p !in Purged(hist, b) {
          ScannedIs(Purged(hist, b)[p := h], b, h, outs, i + 1, Valid);
          assert Purged(Purged(hist, b)[p := h], b) == Purged(hist, b)[p := h];
        }
      } else {
        ScannedIs(hist, b, h, outs, i + 1, status);
      }
    }
  }

  /**
   The verdict of one budget: valid exactly when the block is in the budget's window, one
   output makes its payment, and the proposal is not in the history of that window.
   */
  lemma JudgedIs(hist: History, b: Finalized, h: int, outs: seq<TxOut>)
    ensures Judged(hist, b, h, outs).status == Valid <==>
      InWindow(b, h) && Matches(b, h, outs) == 1 && PaymentAt(b, h).nProposalHash !in Purged(hist, b)
    ensures Judged(hist, b, h, outs).status == DoublePayment <==>
      InWindow(b, h) && Matches(b, h, outs) >= 1 &&
      (Matches(b, h, outs) > 1 || PaymentAt(b, h).nProposalHash in Purged(hist, b))
    ensures Judged(hist, b, h, outs).status != VoteThreshold
    ensures !InWindow(b, h) || Matches(b, h, outs) == 0 ==> Judged(hist, b, h, outs).hist == hist
    ensures InWindow(b, h) && Matches(b, h, outs) >= 1 ==>
      var p := PaymentAt(b, h).nProposalHash;
      Judged(hist, b, h, outs).hist == if p in Purged(hist, b) then Purged(hist, b) else Purged(hist, b)[p := h]
  {
    if InWindow(b, h) {
      ScannedIs(hist, b, h, outs, 0, InValid);
      assert outs[0..] == outs;
    }
  }

  /** A block judged a second time is a double payment: the history does not know blocks. */
  lemma JudgedTwice(hist: History, b: Finalized, h: int, outs: seq<TxOut>)
    requires Judged(hist, b, h, outs).status == Valid
    ensures Judged(Judged(hist, b, h, outs).hist, b, h, outs).status == DoublePayment
  {
    JudgedIs(hist, b, h, outs);
    JudgedIs(Judged(hist, b, h, outs).hist, b, h, outs);
  }

  // ---------------------------------------------------------------- all budgets

  /** The most votes of a budget in its window, starting from `floor`. */
  function Highest(budgets: seq<Finalized>, h: int, floor: int): int {
    if budgets == [] then floor else
      var rest, b := Highest(budgets[..|budgets| - 1], h, floor), budgets[|budgets| - 1];
      if b.nVotes > rest && InWindow(b, h) then b.nVotes else rest
  }

  /** `IsBudgetPaymentBlock` */
  predicate PaymentBlock(budgets: seq<Finalized>, enabled: nat, h: int) {
    Highest(budgets, h, -1) > enabled / 20
  }

  /** The payment that a producer adds: of the first budget with the most votes. */
  function Chosen(budgets: seq<Finalized>, h: int): (r: int)
    ensures -1 <= r < |budgets|
    ensures r >= 0 ==> InWindow(budgets[r], h) && budgets[r].nVotes == Highest(budgets, h, 0) > 0
    ensures r < 0 ==> Highest(budgets, h, 0) == 0
  {
    if budgets == [] then -1 else
      var k := |budgets| - 1;
      var r := Chosen(budgets[..k], h);
      if budgets[k].nVotes > Highest(budgets[..k], h, 0) && InWindow(budgets[k], h) then k else r
  }

  function Produced(budgets: seq<Finalized>, h: int, outs: seq<TxOut>): seq<TxOut> {
    var r := Chosen(budgets, h);
    if r < 0 then outs else
      var p := PaymentAt(budgets[r], h);
      outs + [TxOut(p.payee, p.nAmount)]
  }

  /** The same for a proof-of-work block: the miner has the block value, and at most one more output follows. */
  function ProducedPoW(budgets: seq<Finalized>, h: int, outs: seq<TxOut>, blockValue: int): seq<TxOut>
    requires outs != []
  {
    var miner := [outs[0].(nValue := blockValue)];
    var r := Chosen(budgets, h);
    if r < 0 then miner + outs[1..] else
      var p := PaymentAt(budgets[r], h);
      miner + [TxOut(p.payee, p.nAmount)]
  }

  /** The budgets from `i` on, in turn, until one finds the block valid. */
  function Tried(hist: History, budgets: seq<Finalized>, threshold: int, h: int, outs: seq<TxOut>, i: nat, status: Status): Verdict
    requires i <= |budgets|
    decreases |budgets| - i
  {
    if i == |budgets| then Verdict(status, hist)
    else if budgets[i].nVotes > threshold && InWindow(budgets[i], h) then
      var v := Judged(hist, budgets[i], h, outs);
      if v.status == Valid then v else Tried(v.hist, budgets, threshold, h, outs, i + 1, v.status)
    else Tried(hist, budgets, threshold, h, outs, i + 1, status)
  }

  predicate AnyAbove(budgets: seq<Finalized>, threshold: int) {
    exists i :: 0 <= i < |budgets| && budgets[i].nVotes > threshold
  }

  /** `CBudgetManager::IsTransactionValid` */
  function Validated(hist: History, budgets: seq<Finalized>, enabled: nat, h: int, outs: seq<TxOut>): Verdict {
    var highest := Highest(budgets, h, 0);
    var threshold := highest - enabled / 10;
    if highest < enabled / 20 then Verdict(InValid, hist) else
      var v := Tried(hist, budgets, threshold, h, outs, 0, InValid);
      if v.status == Valid || AnyAbove(budgets, threshold) then v else Verdict(VoteThreshold, v.hist)
  }

  lemma {:induction false} HighestFloor(budgets: seq<Finalized>, h: int)
    ensures Highest(budgets, h, -1) == Highest(budgets, h, 0) || (Highest(budgets, h, -1) == -1 && Highest(budgets, h, 0) == 0)
  {
    if budgets != [] { HighestFloor(budgets[..|budgets| - 1], h); }
  }

  // ---------------------------------------------------------------- what the counts mean

  /** The first of the budgets in their windows with the most votes, and at least one. */
  predicate FirstMost(budgets: seq<Finalized>, h: int, k: nat) {
    && k < |budgets| && InWindow(budgets[k], h) && budgets[k].nVotes > 0
    && (forall j :: 0 <= j < k && InWindow(budgets[j], h) ==> budgets[j].nVotes < budgets[k].nVotes)
    && (forall j :: k < j < |budgets| && InWindow(budgets[j], h) ==> budgets[j].nVotes <= budgets[k].nVotes)
  }

  predicate NobodyVoted(budgets: seq<Finalized>, h: int) {
    forall j :: 0 <= j < |budgets| && InWindow(budgets[j], h) ==> budgets[j].nVotes == 0
  }

  lemma {:induction false} ChosenIs(budgets: seq<Finalized>, h: int)
    ensures if Chosen(budgets, h) < 0 then NobodyVoted(budgets, h) else FirstMost(budgets, h, Chosen(budgets, h))
    decreases |budgets|
  {
    if budgets != [] {
      var k := |budgets| - 1;
      ChosenIs(budgets[..k], h);
      HighestIsMost(budgets[..k], h, 0);
    }
  }

  lemma {:induction false} HighestReached(budgets: seq<Finalized>, h: int, floor: int)
    ensures Highest(budgets, h, floor) == floor || exists i :: 0 <= i < |budgets| && InWindow(budgets[i], h) && budgets[i].nVotes == Highest(budgets, h, floor)
    ensures Highest(budgets, h, floor) >= floor
    decreases |budgets|
  {
    if budgets != [] {
      var k := |budgets| - 1;
      HighestReached(budgets[..k], h, floor);
      if i :| 0 <= i < k && InWindow(budgets[..k][i], h) && budgets[..k][i].nVotes == Highest(budgets[..k], h, floor) {
        assert budgets[i] == budgets[..k][i];
      }
    }
  }

  /** A block pays a budget exactly when some budget in its window has the votes of more than a twentieth. */
  lemma PaymentBlockIs(budgets: seq<Finalized>, enabled: nat, h: int)
    ensures PaymentBlock(budgets, enabled, h) <==> exists i :: 0 <= i < |budgets| && InWindow(budgets[i], h) && 20 * budgets[i].nVotes > enabled
  {
    HighestReached(budgets, h, -1);
    HighestIsMost(budgets, h, -1);
  }

  /**
   What a validator's verdict says: valid only with a budget in its window that is within a tenth of the
   best, some budget having a twentieth, exactly one output its payment, and the payment on record then.
   */
  lemma ValidMeans(hist: History, budgets: seq<Finalized>, enabled: nat, h: int, outs: seq<TxOut>) returns (k: nat)
    requires Validated(hist, budgets, enabled, h, outs).status == Valid
    ensures k < |budgets| && InWindow(budgets[k], h) && Matches(budgets[k], h, outs) == 1
    ensures forall j :: 0 <= j < |budgets| && InWindow(budgets[j], h) ==> budgets[j].nVotes < budgets[k].nVotes + enabled / 10
    ensures enabled < 20 || exists j :: 0 <= j < |budgets| && InWindow(budgets[j], h) && budgets[j].nVotes >= enabled / 20
    ensures var p, after := PaymentAt(budgets[k], h).nProposalHash, Validated(hist, budgets, enabled, h, outs).hist; p in after && after[p] == h
  {
    HighestReached(budgets, h, 0);
    HighestIsMost(budgets, h, 0);
    k := TriedMeans(hist, budgets, Highest(budgets, h, 0) - enabled / 10, h, outs, 0, InValid);
  }

  lemma {:induction false} TriedMeans(hist: History, budgets: seq<Finalized>, threshold: int, h: int, outs: seq<TxOut>, i: nat, status: Status) returns (k: nat)
    requires i <= |budgets| && status != Valid && Tried(hist, budgets, threshold, h, outs, i, status).status == Valid
    ensures k < |budgets| && InWindow(budgets[k], h) && Matches(budgets[k], h, outs) == 1 && budgets[k].nVotes > threshold
    ensures var p, after := PaymentAt(budgets[k], h).nProposalHash, Tried(hist, budgets, threshold, h, outs, i, status).hist; p in after && after[p] == h
    decreases |budgets| - i
  {
    k := i;
    if i < |budgets| {
      if budgets[i].nVotes > threshold && InWindow(budgets[i], h) {
        JudgedIs(hist, budgets[i], h, outs);
        var v := Judged(hist, budgets[i], h, outs);
        if v.status != Valid {
          k := TriedMeans(v.hist, budgets, threshold, h, outs, i + 1, v.status);
        }
      } else {
        k := TriedMeans(hist, budgets, threshold, h, outs, i + 1, status);
      }
    }
  }

  /** Not within a tenth of the best: as far below some budget in its window, or below none at all. */
  predicate Behind(budgets: seq<Finalized>, enabled: nat, h: int, i: nat)
    requires i < |budgets|
  {
    || budgets[i].nVotes + enabled / 10 == 0
    || exists j :: 0 <= j < |budgets| && InWindow(budgets[j], h) && budgets[i].nVotes + enabled / 10 <= budgets[j].nVotes
  }

  lemma BehindIs(budgets: seq<Finalized>, enabled: nat, h: int, i: nat)
    requires i < |budgets|
    ensures Behind(budgets, enabled, h, i) <==> budgets[i].nVotes <= Highest(budgets, h, 0) - enabled / 10
  {
    HighestReached(budgets, h, 0);
    HighestIsMost(budgets, h, 0);
    hide Highest;
  }

  /**
   When counts alone decide: below a twentieth a block is invalid and the history stays; with no budget
   of any window within a tenth of the best, the verdict is that votes are missing, and only then.
   */
  lemma CountsDecide(hist: History, budgets: seq<Finalized>, enabled: nat, h: int, outs: seq<TxOut>)
    ensures var v := Validated(hist, budgets, enabled, h, outs);
      var few := enabled >= 20 && forall j :: 0 <= j < |budgets| && InWindow(budgets[j], h) ==> budgets[j].nVotes < enabled / 20;
      && (few ==> v == Verdict(InValid, hist))
      && (v.status == VoteThreshold <==> !few && forall i :: 0 <= i < |budgets| ==> Behind(budgets, enabled, h, i))
  {
    hide Highest, Tried, Behind;
    FewIs(budgets, enabled, h);
    TriedStatus(hist, budgets, Highest(budgets, h, 0) - enabled / 10, h, outs, 0, InValid);
    AllBehind(budgets, enabled, h);
    hide AnyAbove;
  }

  lemma FewIs(budgets: seq<Finalized>, enabled: nat, h: int)
    ensures Highest(budgets, h, 0) < enabled / 20 <==>
      enabled >= 20 && forall j :: 0 <= j < |budgets| && InWindow(budgets[j], h) ==> budgets[j].nVotes < enabled / 20
  {
    HighestReached(budgets, h, 0);
    HighestIsMost(budgets, h, 0);
    hide Highest;
  }

  lemma AllBehind(budgets: seq<Finalized>, enabled: nat, h: int)
    ensures AnyAbove(budgets, Highest(budgets, h, 0) - enabled / 10) <==> !forall i :: 0 <= i < |budgets| ==> Behind(budgets, enabled, h, i)
  {
    hide Highest, Behind;
    forall i | 0 <= i < |budgets|
      ensures Behind(budgets, enabled, h, i) <==> budgets[i].nVotes <= Highest(budgets, h, 0) - enabled / 10
    {
      BehindIs(budgets, enabled, h, i);
    }
  }

  lemma {:induction false} TriedStatus(hist: History, budgets: seq<Finalized>, threshold: int, h: int, outs: seq<TxOut>, i: nat, status: Status)
    requires i <= |budgets| && status != VoteThreshold
    ensures Tried(hist, budgets, threshold, h, outs, i, status).status != VoteThreshold
    ensures Tried(hist, budgets, threshold, h, outs, i, status).status == Valid && status != Valid ==> AnyAbove(budgets, threshold)
    decreases |budgets| - i
  {
    if i < |budgets| {
      if budgets[i].nVotes > threshold && InWindow(budgets[i], h) {
        JudgedIs(hist, budgets[i], h, outs);
        var v := Judged(hist, budgets[i], h, outs);
        if v.status != Valid { TriedStatus(v.hist, budgets, threshold, h, outs, i + 1, v.status); }
      } else {
        TriedStatus(hist, budgets, threshold, h, outs, i + 1, status);
      }
    }
  }

  // ---------------------------------------------------------------- producer and validator agree

  /** No output makes a payment of a budget in its window. */
  predicate Unrelated(budgets: seq<Finalized>, h: int, outs: seq<TxOut>) {
    forall i, j :: 0 <= i < |budgets| && InWindow(budgets[i], h) && 0 <= j < |outs| ==> !Pays(PaymentAt(budgets[i], h), outs[j])
  }

  lemma {:induction false} MatchesLast(b: Finalized, h: int, outs: seq<TxOut>, last: TxOut)
    requires InWindow(b, h) && forall j :: 0 <= j < |outs| ==> !Pays(PaymentAt(b, h), outs[j])
    ensures Matches(b, h, outs + [last]) == if Pays(PaymentAt(b, h), last) then 1 else 0
  {
    if outs == [] {
      assert ([] + [last])[1..] == [];
    } else {
      MatchesLast(b, h, outs[1..], last);
      assert (outs + [last])[1..] == outs[1..] + [last];
    }
  }

  /** A budget above the threshold whose payment of this height is `out`. */
  predicate Candidate(b: Finalized, threshold: int, h: int, out: TxOut) {
    b.nVotes > threshold && InWindow(b, h) && Pays(PaymentAt(b, h), out)
  }

  /** The payment of budget `r` is open when it is tried: a candidate from `i` to `r` has purged its record, if there was one. */
  predicate Opened(hist: History, budgets: seq<Finalized>, threshold: int, h: int, out: TxOut, i: nat, r: nat)
    requires r < |budgets| && InWindow(budgets[r], h)
  {
    var p := PaymentAt(budgets[r], h).nProposalHash;
    p !in hist || exists k :: i <= k <= r && Candidate(budgets[k], threshold, h, out) && !InWindow(budgets[k], hist[p])
  }

  lemma PurgedOpens(hist: History, budgets: seq<Finalized>, threshold: int, h: int, out: TxOut, i: nat, r: nat)
    requires i < r < |budgets| && InWindow(budgets[r], h) && Candidate(budgets[i], threshold, h, out)
    ensures Opened(Purged(hist, budgets[i]), budgets, threshold, h, out, i + 1, r) <==> Opened(hist, budgets, threshold, h, out, i, r)
  {
    var p, later := PaymentAt(budgets[r], h).nProposalHash, Purged(hist, budgets[i]);
    if p in hist && p in later && Opened(hist, budgets, threshold, h, out, i, r) {
      var k :| i <= k <= r && Candidate(budgets[k], threshold, h, out) && !InWindow(budgets[k], hist[p]);
      assert i + 1 <= k <= r && !InWindow(budgets[k], later[p]);
    }
    if p in later && Opened(later, budgets, threshold, h, out, i + 1, r) {
      var k :| i + 1 <= k <= r && Candidate(budgets[k], threshold, h, out) && !InWindow(budgets[k], later[p]);
      assert i <= k <= r && !InWindow(budgets[k], hist[p]);
    }
  }

  lemma PassedOver(hist: History, budgets: seq<Finalized>, threshold: int, h: int, out: TxOut, i: nat, r: nat)
    requires i < r < |budgets| && InWindow(budgets[r], h) && !Candidate(budgets[i], threshold, h, out)
    ensures Opened(hist, budgets, threshold, h, out, i + 1, r) <==> Opened(hist, budgets, threshold, h, out, i, r)
  {
  }

  /** With one output that makes budget payments, a block is valid exactly when a candidate finds its payment open. */
  lemma {:induction false} TriedIff(hist: History, budgets: seq<Finalized>, threshold: int, h: int, outs: seq<TxOut>, out: TxOut, i: nat, status: Status)
    requires i <= |budgets| && Unrelated(budgets, h, outs) && status != Valid
    ensures Tried(hist, budgets, threshold, h, outs + [out], i, status).status == Valid <==>
      exists r :: i <= r < |budgets| && Candidate(budgets[r], threshold, h, out) && Opened(hist, budgets, threshold, h, out, i, r)
    decreases |budgets| - i
  {
    if i < |budgets| {
      var b := budgets[i];
      if InWindow(b, h) {
        MatchesLast(b, h, outs, out);
        JudgedIs(hist, b, h, outs + [out]);
      }
      forall r | i < r < |budgets| && Candidate(budgets[r], threshold, h, out)
        ensures Candidate(b, threshold, h, out) ==>
          (Opened(Purged(hist, b), budgets, threshold, h, out, i + 1, r) <==> Opened(hist, budgets, threshold, h, out, i, r))
        ensures !Candidate(b, threshold, h, out) ==>
          (Opened(hist, budgets, threshold, h, out, i + 1, r) <==> Opened(hist, budgets, threshold, h, out, i, r))
      {
        if Candidate(b, threshold, h, out) {
          PurgedOpens(hist, budgets, threshold, h, out, i, r);
        } else {
          PassedOver(hist, budgets, threshold, h, out, i, r);
        }
      }
      if Candidate(b, threshold, h, out) {
        var v := Judged(hist, b, h, outs + [out]);
        if v.status != Valid { TriedIff(Purged(hist, b), budgets, threshold, h, outs, out, i + 1, v.status); }
        assert v.status == Valid <==> Opened(hist, budgets, threshold, h, out, i, i);
      } else {
        var next := if b.nVotes > threshold && InWindow(b, h) then InValid else status;
        TriedIff(hist, budgets, threshold, h, outs, out, i + 1, next);
      }
    }
  }

  /** What the producer adds in a payment block. */
  function Added(budgets: seq<Finalized>, enabled: nat, h: int): TxOut
    requires PaymentBlock(budgets, enabled, h)
  {
    var p := PaymentAt(budgets[ChosenOf(budgets, enabled, h)], h);
    TxOut(p.payee, p.nAmount)
  }

  /**
   A proof-of-stake block filled by a producer in which no other output makes a budget payment
   is valid, to a validator with the same budgets, exactly when some budget above the threshold
   makes that payment and finds it unpaid, or paid outside the window of a budget tried by then.
   */
  lemma ProducedIsValidIff(hist: History, budgets: seq<Finalized>, enabled: nat, h: int, outs: seq<TxOut>)
    requires PaymentBlock(budgets, enabled, h) && Unrelated(budgets, h, outs)
    ensures var threshold, out := Highest(budgets, h, 0) - enabled / 10, Added(budgets, enabled, h);
      Validated(hist, budgets, enabled, h, Produced(budgets, h, outs)).status == Valid <==>
        exists r :: 0 <= r < |budgets| && Candidate(budgets[r], threshold, h, out) && Opened(hist, budgets, threshold, h, out, 0, r)
  {
    HighestFloor(budgets, h);
    TriedIff(hist, budgets, Highest(budgets, h, 0) - enabled / 10, h, outs, Added(budgets, enabled, h), 0, InValid);
  }

  /**
   In particular: when the proposal is not recorded in the window of the chosen budget, the
   block is valid exactly when ten masternodes are enabled.
   */
  lemma ProducerAndValidatorAgree(hist: History, budgets: seq<Finalized>, enabled: nat, h: int, outs: seq<TxOut>)
    requires PaymentBlock(budgets, enabled, h) && Unrelated(budgets, h, outs)
    requires var b := budgets[ChosenOf(budgets, enabled, h)]; PaymentAt(b, h).nProposalHash !in Purged(hist, b)
    ensures Validated(hist, budgets, enabled, h, Produced(budgets, h, outs)).status == Valid <==> enabled >= 10
  {
    if enabled < 10 {
      TooFewMasternodes(hist, budgets, enabled, h, Produced(budgets, h, outs));
    } else {
      var threshold, out, r := Highest(budgets, h, 0) - enabled / 10, Added(budgets, enabled, h), ChosenOf(budgets, enabled, h);
      assert Candidate(budgets[r], threshold, h, out);
      assert Opened(hist, budgets, threshold, h, out, 0, r);
      ProducedIsValidIff(hist, budgets, enabled, h, outs);
    }
  }

  /** In a payment block there is a chosen budget. */
  function ChosenOf(budgets: seq<Finalized>, enabled: nat, h: int): (r: nat)
    requires PaymentBlock(budgets, enabled, h)
    ensures r < |budgets| && InWindow(budgets[r], h) && r == Chosen(budgets, h)
  {
    HighestFloor(budgets, h);
    Chosen(budgets, h)
  }

  /** With fewer than ten masternodes the threshold is the highest count itself, and no block is valid. */
  lemma TooFewMasternodes(hist: History, budgets: seq<Finalized>, enabled: nat, h: int, outs: seq<TxOut>)
    requires enabled < 10
    ensures Validated(hist, budgets, enabled, h, outs).status != Valid
  {
    NoneAbove(hist, budgets, h, outs, 0, InValid);
  }

  lemma {:induction false} HighestIsMost(budgets: seq<Finalized>, h: int, floor: int)
    ensures forall i :: 0 <= i < |budgets| && InWindow(budgets[i], h) ==> budgets[i].nVotes <= Highest(budgets, h, floor)
  {
    if budgets != [] { HighestIsMost(budgets[..|budgets| - 1], h, floor); }
  }

  lemma {:induction false} NoneAbove(hist: History, budgets: seq<Finalized>, h: int, outs: seq<TxOut>, i: nat, status: Status)
    requires i <= |budgets| && status != Valid
    ensures Tried(hist, budgets, Highest(budgets, h, 0), h, outs, i, status).status != Valid
    decreases |budgets| - i
  {
    if i < |budgets| {
      HighestIsMost(budgets, h, 0);
      NoneAbove(hist, budgets, h, outs, i + 1, status);
    }
  }

  // ---------------------------------------------------------------- runs of validations

  /** What `CFinalizedBudget::IsValid` asks of the window. */
  predicate WellPlaced(b: Finalized, cycle: nat)
    requires cycle > 0
  {
    b.nBlockStart % cycle == 0 && BlockEnd(b) - b.nBlockStart <= 100 && |b.vecBudgetPayments| <= 100
  }

  /** One validation by one budget. */
  datatype Event = Event(b: Finalized, h: nat, outs: seq<TxOut>)

  function After(hist: History, events: seq<Event>): History {
    if events == [] then hist else
      var e := events[|events| - 1];
      Judged(After(hist, events[..|events| - 1]), e.b, e.h, e.outs).hist
  }

  /** Validation `i` of the run finds its block valid. */
  predicate Accepts(hist: History, events: seq<Event>, i: nat)
    requires i < |events|
  {
    Judged(After(hist, events[..i]), events[i].b, events[i].h, events[i].outs).status == Valid
  }

  function Proposal(e: Event): Hash
    requires InWindow(e.b, e.h)
  {
    PaymentAt(e.b, e.h).nProposalHash
  }

  // ---------------------------------------------------------------- when a proposal is accepted again

  /** The validation finds the budget's payment among the outputs: only then does it touch the history. */
  predicate Matching(e: Event) { InWindow(e.b, e.h) && Matches(e.b, e.h, e.outs) >= 1 }

  predicate MatchingFor(e: Event, p: Hash) { Matching(e) && Proposal(e) == p }

  /** The validation purges a payment made at height `g`. */
  predicate Purges(e: Event, g: int) { Matching(e) && !InWindow(e.b, g) }

  /** One validation, seen from the record of one proposal. */
  lemma RecordAfter(hist: History, e: Event, p: Hash)
    ensures var v := Judged(hist, e.b, e.h, e.outs);
      && (p in hist && !Purges(e, hist[p]) ==> p in v.hist && v.hist[p] == hist[p] && (MatchingFor(e, p) ==> v.status == DoublePayment))
      && (p !in hist || Purges(e, hist[p]) ==> (p in v.hist <==> MatchingFor(e, p)))
      && ((p !in hist || Purges(e, hist[p])) && MatchingFor(e, p) ==>
            v.hist[p] == e.h && (v.status == Valid <==> Matches(e.b, e.h, e.outs) == 1))
  {
    JudgedIs(hist, e.b, e.h, e.outs);
  }

  lemma AfterLast(hist: History, events: seq<Event>, e: Event)
    ensures After(hist, events + [e]) == Judged(After(hist, events), e.b, e.h, e.outs).hist
  {
    assert (events + [e])[..|events|] == events;
  }

  /** A record that no validation purges stays as it is, whatever else is validated. */
  lemma {:induction false} RecordStays(hist: History, events: seq<Event>, p: Hash)
    requires p in hist && forall k :: 0 <= k < |events| ==> !Purges(events[k], hist[p])
    ensures p in After(hist, events) && After(hist, events)[p] == hist[p]
  {
    if events != [] {
      var init, e := events[..|events| - 1], events[|events| - 1];
      RecordStays(hist, init, p);
      RecordAfter(After(hist, init), e, p);
    }
  }

  lemma {:induction false} RecordLost(hist: History, events: seq<Event>, p: Hash)
    requires p in hist && forall k :: 0 <= k < |events| ==> !MatchingFor(events[k], p)
    requires exists k :: 0 <= k < |events| && Purges(events[k], hist[p])
    ensures p !in After(hist, events)
  {
    var init, e := events[..|events| - 1], events[|events| - 1];
    if exists k :: 0 <= k < |init| && Purges(init[k], hist[p]) {
      RecordLost(hist, init, p);
    } else {
      RecordStays(hist, init, p);
    }
    RecordAfter(After(hist, init), e, p);
  }

  /**
   A proposal paid at height `g` and not asked for since: the next validation for it accepts
   exactly when it, or one before it, was a matching validation of a budget whose window does
   not hold `g`.
   */
  lemma AcceptedAgainIff(hist: History, events: seq<Event>, e: Event, g: int)
    requires InWindow(e.b, e.h) && Matches(e.b, e.h, e.outs) == 1
    requires Proposal(e) in hist && hist[Proposal(e)] == g
    requires forall k :: 0 <= k < |events| ==> !MatchingFor(events[k], Proposal(e))
    ensures Judged(After(hist, events), e.b, e.h, e.outs).status == Valid <==>
      Purges(e, g) || exists k :: 0 <= k < |events| && Purges(events[k], g)
  {
    if exists k :: 0 <= k < |events| && Purges(events[k], g) {
      RecordLost(hist, events, Proposal(e));
    } else {
      RecordStays(hist, events, Proposal(e));
    }
    RecordAfter(After(hist, events), e, Proposal(e));
  }

  lemma {:induction false} AfterConcat(hist: History, a: seq<Event>, b: seq<Event>)
    ensures After(hist, a + b) == After(After(hist, a), b)
  {
    if b == [] {
      assert a + b == a;
    } else {
      var init, e := b[..|b| - 1], b[|b| - 1];
      AfterConcat(hist, a, init);
      assert a + b == (a + init) + [e];
      AfterLast(hist, a + init, e);
      assert b == init + [e];
      AfterLast(After(hist, a), init, e);
    }
  }

  /** The history right after an accepted validation, and from there to a later one. */
  lemma SinceAccepted(start: History, events: seq<Event>, i: nat, j: nat)
    requires i < j < |events| && Accepts(start, events, i)
    ensures InWindow(events[i].b, events[i].h)
    ensures var hist := After(start, events[..i + 1]);
      && Proposal(events[i]) in hist && hist[Proposal(events[i])] == events[i].h
      && After(start, events[..j]) == After(hist, events[i + 1..j])
  {
    JudgedIs(After(start, events[..i]), events[i].b, events[i].h, events[i].outs);
    assert events[..i + 1] == events[..i] + [events[i]];
    AfterLast(start, events[..i], events[i]);
    assert events[..j] == events[..i + 1] + events[i + 1..j];
    AfterConcat(start, events[..i + 1], events[i + 1..j]);
  }

  /**
   In any run: after validation `i` has accepted a proposal, the next validation `j` that looks for
   its payment accepts it exactly when its payment is made once, and some matching validation since,
   `j` included, was of a budget whose window does not hold the height of `i`.
   */
  lemma PaidAgainIff(start: History, events: seq<Event>, i: nat, j: nat)
    requires i < j < |events| && Accepts(start, events, i)
    requires InWindow(events[i].b, events[i].h) && InWindow(events[j].b, events[j].h) && Proposal(events[i]) == Proposal(events[j])
    requires forall k :: i < k < j ==> !MatchingFor(events[k], Proposal(events[i]))
    ensures Accepts(start, events, j) <==>
      Matches(events[j].b, events[j].h, events[j].outs) == 1 && exists k :: i < k <= j && Purges(events[k], events[i].h)
  {
    var hist, since, g := After(start, events[..i + 1]), events[i + 1..j], events[i].h;
    SinceAccepted(start, events, i, j);
    JudgedIs(After(start, events[..j]), events[j].b, events[j].h, events[j].outs);
    if Matches(events[j].b, events[j].h, events[j].outs) == 1 {
      AcceptedAgainIff(hist, since, events[j], g);
      if k :| i < k <= j && Purges(events[k], g) {
        assert k < j ==> since[k - i - 1] == events[k];
      }
      if k :| 0 <= k < |since| && Purges(since[k], g) {
        assert events[k + i + 1] == since[k];
      }
    }
  }

  /** Without such a purge no later validation accepts the proposal, however often it is asked for in between. */
  lemma NotAcceptedUnpurged(start: History, events: seq<Event>, i: nat, j: nat)
    requires i < j < |events| && Accepts(start, events, i)
    requires InWindow(events[i].b, events[i].h) && InWindow(events[j].b, events[j].h) && Proposal(events[i]) == Proposal(events[j])
    requires forall k :: i < k <= j ==> !Purges(events[k], events[i].h)
    ensures !Accepts(start, events, j)
  {
    var hist, p := After(start, events[..i + 1]), Proposal(events[i]);
    SinceAccepted(start, events, i, j);
    RecordStays(hist, events[i + 1..j], p);
    RecordAfter(After(start, events[..j]), events[j], p);
    JudgedIs(After(start, events[..j]), events[j].b, events[j].h, events[j].outs);
  }

  // ---------------------------------------------------------------- at most one payment per cycle

  /** Validations of well-placed budgets at heights that do not fall. */
  predicate Orderly(events: seq<Event>, cycle: nat)
    requires cycle > 0
  {
    && (forall i :: 0 <= i < |events| ==> WellPlaced(events[i].b, cycle))
    && (forall i, j :: 0 <= i < j < |events| ==> events[i].h <= events[j].h)
  }

  lemma CycleOfWindow(b: Finalized, h: nat, g: nat, cycle: nat)
    requires cycle > 100 && WellPlaced(b, cycle) && InWindow(b, h) && g <= h
    ensures b.nBlockStart >= 0 && h / cycle == b.nBlockStart / cycle
    ensures g / cycle == h / cycle <==> b.nBlockStart <= g
  {
    var s := b.nBlockStart;
    var q := s / cycle;
    QuotientRemainder(s, cycle);
    Spread(q, cycle);
    DivIs(h, cycle, q, h - s);
    if s <= g {
      DivIs(g, cycle, q, g - s);
    } else {
      QuotientRemainder(g, cycle);
    }
  }

  lemma SameCycleBetween(a: nat, b: nat, c: nat, cycle: nat)
    requires cycle > 0 && a <= b <= c && a / cycle == c / cycle
    ensures b / cycle == a / cycle
  {
    QuotientMonotone(a, b, cycle);
    QuotientMonotone(b, c, cycle);
  }

  /**
   Over any run of validations at heights that do not fall, from any history, no proposal
   is accepted twice in one cycle: nothing could have purged the first payment.
   */
  lemma AtMostOncePerCycle(start: History, events: seq<Event>, cycle: nat, i: nat, j: nat)
    requires cycle > 100 && Orderly(events, cycle) && i < j < |events|
    requires Accepts(start, events, i) && Accepts(start, events, j)
    requires InWindow(events[i].b, events[i].h) && InWindow(events[j].b, events[j].h) && Proposal(events[i]) == Proposal(events[j])
    ensures events[i].h / cycle < events[j].h / cycle
  {
    var g := events[i].h;
    QuotientMonotone(g, events[j].h, cycle);
    if g / cycle == events[j].h / cycle {
      forall k | i < k <= j
        ensures !Purges(events[k], g)
      {
        SameCycleBetween(g, events[k].h, events[j].h, cycle);
        if InWindow(events[k].b, events[k].h) { CycleOfWindow(events[k].b, events[k].h, g, cycle); }
      }
      NotAcceptedUnpurged(start, events, i, j);
    }
  }

  // ---------------------------------------------------------------- at most one payment per cycle, by block

  /** The budget that makes `Tried` valid, or -1. */
  function Winner(hist: History, budgets: seq<Finalized>, threshold: int, h: int, outs: seq<TxOut>, i: nat): (r: int)
    requires i <= |budgets|
    ensures r == -1 || (i <= r < |budgets| && InWindow(budgets[r], h))
    decreases |budgets| - i
  {
    if i == |budgets| then -1
    else if budgets[i].nVotes > threshold && InWindow(budgets[i], h) then
      var v := Judged(hist, budgets[i], h, outs);
      if v.status == Valid then i else Winner(v.hist, budgets, threshold, h, outs, i + 1)
    else Winner(hist, budgets, threshold, h, outs, i + 1)
  }

  /** A block as a validator sees it, with the budgets and masternodes of that moment. */
  datatype Block = Block(budgets: seq<Finalized>, enabled: nat, h: nat, outs: seq<TxOut>)

  function Threshold(b: Block): int { Highest(b.budgets, b.h, 0) - b.enabled / 10 }

  function ValidatedBlock(hist: History, b: Block): Verdict { Validated(hist, b.budgets, b.enabled, b.h, b.outs) }

  function AfterBlocks(hist: History, blocks: seq<Block>): History {
    if blocks == [] then hist else
      ValidatedBlock(AfterBlocks(hist, blocks[..|blocks| - 1]), blocks[|blocks| - 1]).hist
  }

  predicate BlockValid(hist: History, blocks: seq<Block>, i: nat)
    requires i < |blocks|
  {
    ValidatedBlock(AfterBlocks(hist, blocks[..i]), blocks[i]).status == Valid
  }

  /** The proposal that a valid block pays. */
  function PaidIn(hist: History, b: Block): Hash {
    var r := Winner(hist, b.budgets, Threshold(b), b.h, b.outs, 0);
    if r == -1 then 0 else PaymentAt(b.budgets[r], b.h).nProposalHash
  }

  function PaidBy(hist: History, blocks: seq<Block>, i: nat): Hash
    requires i < |blocks|
  {
    PaidIn(AfterBlocks(hist, blocks[..i]), blocks[i])
  }

  predicate OrderlyBlocks(blocks: seq<Block>, cycle: nat)
    requires cycle > 0
  {
    && (forall i, k :: 0 <= i < |blocks| && 0 <= k < |blocks[i].budgets| ==> WellPlaced(blocks[i].budgets[k], cycle))
    && (forall i, j :: 0 <= i < j < |blocks| ==> blocks[i].h <= blocks[j].h)
  }

  /** A record of this cycle. */
  predicate RecordedNow(hist: History, p: Hash, g: nat, h: nat, cycle: nat)
    requires cycle > 0
  {
    p in hist && hist[p] == g <= h && g / cycle == h / cycle
  }

  /** No well-placed budget purges a record of the cycle it is in. */
  lemma KeptInCycle(hist: History, e: Event, p: Hash, g: nat, cycle: nat)
    requires cycle > 100 && WellPlaced(e.b, cycle) && InWindow(e.b, e.h) && RecordedNow(hist, p, g, e.h, cycle)
    ensures RecordedNow(Judged(hist, e.b, e.h, e.outs).hist, p, g, e.h, cycle)
    ensures Judged(hist, e.b, e.h, e.outs).status == Valid ==> Proposal(e) != p
  {
    CycleOfWindow(e.b, e.h, g, cycle);
    RecordAfter(hist, e, p);
    JudgedIs(hist, e.b, e.h, e.outs);
  }

  /** A proposal paid in this cycle stays recorded, and no budget is accepted for it. */
  lemma {:induction false} TriedRemembers(hist: History, budgets: seq<Finalized>, threshold: int, h: nat, outs: seq<TxOut>, i: nat, status: Status, p: Hash, g: nat, cycle: nat)
    requires i <= |budgets| && cycle > 100 && (forall k :: 0 <= k < |budgets| ==> WellPlaced(budgets[k], cycle))
    requires RecordedNow(hist, p, g, h, cycle)
    ensures RecordedNow(Tried(hist, budgets, threshold, h, outs, i, status).hist, p, g, h, cycle)
    ensures var r := Winner(hist, budgets, threshold, h, outs, i); r != -1 ==> PaymentAt(budgets[r], h).nProposalHash != p
    decreases |budgets| - i
  {
    hide RecordedNow, WellPlaced, Judged;
    if i < |budgets| {
      if budgets[i].nVotes > threshold && InWindow(budgets[i], h) {
        KeptInCycle(hist, Event(budgets[i], h, outs), p, g, cycle);
        var v := Judged(hist, budgets[i], h, outs);
        if v.status != Valid {
          TriedRemembers(v.hist, budgets, threshold, h, outs, i + 1, v.status, p, g, cycle);
        }
      } else {
        TriedRemembers(hist, budgets, threshold, h, outs, i + 1, status, p, g, cycle);
      }
    }
  }

  /** A block is valid exactly if some budget accepts it, and the payment is then on record. */
  lemma {:induction false} TriedRecords(hist: History, budgets: seq<Finalized>, threshold: int, h: nat, outs: seq<TxOut>, i: nat, status: Status)
    requires i <= |budgets| && status != Valid
    ensures var v, r := Tried(hist, budgets, threshold, h, outs, i, status), Winner(hist, budgets, threshold, h, outs, i);
      && (v.status == Valid <==> r != -1)
      && (r != -1 ==> var p := PaymentAt(budgets[r], h).nProposalHash; p in v.hist && v.hist[p] == h)
    decreases |budgets| - i
  {
    if i < |budgets| {
      if budgets[i].nVotes > threshold && InWindow(budgets[i], h) {
        JudgedIs(hist, budgets[i], h, outs);
        var v := Judged(hist, budgets[i], h, outs);
        if v.status != Valid {
          TriedRecords(v.hist, budgets, threshold, h, outs, i + 1, v.status);
        }
      } else {
        TriedRecords(hist, budgets, threshold, h, outs, i + 1, status);
      }
    }
  }

  /** What a block before it leaves on record when block `b` of the same cycle has been seen. */
  lemma BlockRemembers(hist: History, b: Block, p: Hash, g: nat, cycle: nat)
    requires cycle > 100 && (forall k :: 0 <= k < |b.budgets| ==> WellPlaced(b.budgets[k], cycle))
    requires RecordedNow(hist, p, g, b.h, cycle)
    ensures RecordedNow(ValidatedBlock(hist, b).hist, p, g, b.h, cycle)
    ensures ValidatedBlock(hist, b).status == Valid ==> PaidIn(hist, b) != p
  {
    hide RecordedNow, WellPlaced, Winner, Tried;
    TriedRemembers(hist, b.budgets, Threshold(b), b.h, b.outs, 0, InValid, p, g, cycle);
    TriedRecords(hist, b.budgets, Threshold(b), b.h, b.outs, 0, InValid);
  }

  lemma BlockRecords(hist: History, b: Block, cycle: nat)
    requires cycle > 0 && ValidatedBlock(hist, b).status == Valid
    ensures RecordedNow(ValidatedBlock(hist, b).hist, PaidIn(hist, b), b.h, b.h, cycle)
  {
    TriedRecords(hist, b.budgets, Threshold(b), b.h, b.outs, 0, InValid);
  }

  /** A payment of this cycle is on record until the cycle ends, whatever the history was before it. */
  lemma {:induction false} BlocksRemember(start: History, blocks: seq<Block>, cycle: nat, i: nat, now: nat)
    requires cycle > 100 && OrderlyBlocks(blocks, cycle) && i < |blocks| && BlockValid(start, blocks, i)
    requires blocks[|blocks| - 1].h <= now && blocks[i].h / cycle == now / cycle
    ensures RecordedNow(AfterBlocks(start, blocks), PaidBy(start, blocks, i), blocks[i].h, now, cycle)
    decreases |blocks|
  {
    hide ValidatedBlock, PaidIn, WellPlaced;
    var k := |blocks| - 1;
    var init, b := blocks[..k], blocks[k];
    SameCycleBetween(blocks[i].h, b.h, now, cycle);
    if i == k {
      BlockRecords(AfterBlocks(start, init), b, cycle);
    } else {
      assert blocks[..i] == init[..i];
      BlocksRemember(start, init, cycle, i, b.h);
      BlockRemembers(AfterBlocks(start, init), b, PaidBy(start, blocks, i), blocks[i].h, cycle);
    }
  }

  /**
   The same over whole blocks, from any history: a validator that sees blocks at heights that do
   not fall accepts no two of one cycle for the same proposal, whatever budgets it knows by then.
   */
  lemma NoBlockPaysAgain(start: History, blocks: seq<Block>, cycle: nat, i: nat, j: nat)
    requires cycle > 100 && OrderlyBlocks(blocks, cycle) && i < j < |blocks|
    requires BlockValid(start, blocks, i) && BlockValid(start, blocks, j)
    requires PaidBy(start, blocks, i) == PaidBy(start, blocks, j)
    ensures blocks[i].h / cycle < blocks[j].h / cycle
  {
    hide ValidatedBlock, PaidIn, WellPlaced;
    var init, b := blocks[..j], blocks[j];
    QuotientMonotone(blocks[i].h, b.h, cycle);
    if blocks[i].h / cycle == b.h / cycle {
      assert blocks[..i] == init[..i];
      BlocksRemember(start, init, cycle, i, b.h);
      BlockRemembers(AfterBlocks(start, init), b, PaidBy(start, blocks, i), blocks[i].h, cycle);
    }
  }

  /**
   Such a purge within the cycle, where heights fall as when a block is disconnected: a block of
   the next cycle is validated in between, and the proposal is accepted twice at one height.
   */
  lemma FallingHeightsPayTwice() returns (events: seq<Event>)
    ensures |events| == 3 && forall i :: 0 <= i < 3 ==> WellPlaced(events[i].b, 1000) && Accepts(map[], events, i)
    ensures events[0] == events[2] && InWindow(events[0].b, events[0].h) && events[1].h > events[2].h
  {
    var b1 := Finalized(1000, [BudgetPayment(1, 7, 50)], 1);
    var b2 := Finalized(2000, [BudgetPayment(2, 8, 60)], 1);
    var e1, e2 := Event(b1, 1000, [TxOut(7, 50)]), Event(b2, 2000, [TxOut(8, 60)]);
    events := [e1, e2, e1];
    JudgedIs(map[], b1, 1000, e1.outs);
    OneMatch(b1, 1000, e1.outs[0]);
    OneMatch(b2, 2000, e2.outs[0]);
    var h1 := Judged(map[], b1, 1000, e1.outs).hist;
    JudgedIs(h1, b2, 2000, e2.outs);
    var h2 := Judged(h1, b2, 2000, e2.outs).hist;
    JudgedIs(h2, b1, 1000, e1.outs);
    assert events[..0] == [] && events[..1] == [e1] && events[..2] == [e1, e2];
    assert [e1][..0] == [] && [e1, e2][..1] == [e1];
    assert After(map[], [e1]) == h1;
    assert After(map[], [e1, e2]) == h2;
    assert Accepts(map[], events, 0) && Accepts(map[], events, 1) && Accepts(map[], events, 2);
  }

  lemma OneMatch(b: Finalized, h: int, out: TxOut)
    requires InWindow(b, h) && Pays(PaymentAt(b, h), out)
    ensures Matches(b, h, [out]) == 1
  {
    assert [out][1..] == [];
  }
}
