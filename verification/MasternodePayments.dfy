/**
 Masternode payments: the tally of recorded winners and the payment taken out of a stake
 (core/src/masternode-payments.cpp:348-406, 511-576, 685-712; core/src/masternode-payments.h:86-145).
 */
module MasternodePayments {
  import opened Arithmetic
  import opened Prelude
  import opened PaymentOutputs
  import opened BlockRewards

  datatype Payee = Payee(scriptPubKey: Script, nVotes: nat)
  datatype Winner = Winner(nBlockHeight: int, payee: Script)

  /** The votes of a payee in a block's list. */
  function Votes(vec: seq<Payee>, s: Script): nat {
    if vec == [] then 0 else
      var k := |vec| - 1;
      Votes(vec[..k], s) + if vec[k].scriptPubKey == s then vec[k].nVotes else 0
  }

  /** No payee twice, and each with at least one vote. */
  predicate Listed(vec: seq<Payee>) {
    && (forall i, j :: 0 <= i < j < |vec| ==> vec[i].scriptPubKey != vec[j].scriptPubKey)
    && (forall i :: 0 <= i < |vec| ==> vec[i].nVotes > 0)
  }

  lemma {:induction false} VotesOfUpdate(vec: seq<Payee>, i: nat, n: nat, s: Script)
    requires i < |vec|
    ensures Votes(vec[i := vec[i].(nVotes := vec[i].nVotes + n)], s) == Votes(vec, s) + if vec[i].scriptPubKey == s then n else 0
  {
    var k := |vec| - 1;
    var p := vec[i].(nVotes := vec[i].nVotes + n);
    if i < k {
      VotesOfUpdate(vec[..k], i, n, s);
      assert vec[i := p][..k] == vec[..k][i := p];
    } else {
      assert vec[i := p][..k] == vec[..k];
    }
  }

  lemma {:induction false} VotesOfListed(vec: seq<Payee>, i: nat)
    requires Listed(vec) && i < |vec|
    ensures Votes(vec, vec[i].scriptPubKey) == vec[i].nVotes
  {
    var k := |vec| - 1;
    if i < k {
      VotesOfListed(vec[..k], i);
      assert vec[..k][i] == vec[i];
    } else {
      VotesOfAbsent(vec[..k], vec[k].scriptPubKey);
    }
  }

  lemma {:induction false} VotesOfAbsent(vec: seq<Payee>, s: Script)
    requires forall i :: 0 <= i < |vec| ==> vec[i].scriptPubKey != s
    ensures Votes(vec, s) == 0
  {
    if vec != [] { VotesOfAbsent(vec[..|vec| - 1], s); }
  }

  // ---------------------------------------------------------------- the tally

  /** The recorded winners that name a payee for a height. */
  function Recorded(winners: map<Hash, Winner>, h: int, s: Script): set<Hash> {
    set k | k in winners && winners[k] == Winner(h, s)
  }

  function Tally(blocks: map<int, seq<Payee>>, h: int, s: Script): nat {
    if h in blocks then Votes(blocks[h], s) else 0
  }

  ghost predicate Tallied(winners: map<Hash, Winner>, blocks: map<int, seq<Payee>>) {
    && (forall h, s :: Tally(blocks, h, s) == |Recorded(winners, h, s)|)
    && (forall h :: h in blocks ==> Listed(blocks[h]))
  }

  lemma RecordedGrows(winners: map<Hash, Winner>, k: Hash, w: Winner, h: int, s: Script)
    requires k !in winners
    ensures |Recorded(winners[k := w], h, s)| == |Recorded(winners, h, s)| + if w == Winner(h, s) then 1 else 0
  {
    if w == Winner(h, s) {
      assert Recorded(winners[k := w], h, s) == Recorded(winners, h, s) + {k};
    } else {
      assert Recorded(winners[k := w], h, s) == Recorded(winners, h, s);
    }
  }

  /** One more vote for a payee of one height, and nothing else. */
  ghost predicate OneVoteMore(before: map<int, seq<Payee>>, after: map<int, seq<Payee>>, h: int, s: Script) {
    && h in after && (forall g :: g != h ==> (g in after <==> g in before) && (g in before ==> after[g] == before[g]))
    && (forall t :: Votes(after[h], t) == Tally(before, h, t) + if t == s then 1 else 0)
    && Listed(after[h])
  }

  /** The list of a height before it was first asked for. */
  predicate Opened(before: map<int, seq<Payee>>, blocks: map<int, seq<Payee>>, h: int) {
    && h in blocks && Listed(blocks[h])
    && if h in before then blocks == before else blocks == before[h := []]
  }

  lemma VotedMore(before: map<int, seq<Payee>>, blocks: map<int, seq<Payee>>, h: int, i: nat)
    requires Opened(before, blocks, h) && i < |blocks[h]|
    ensures var vec := blocks[h];
      OneVoteMore(before, blocks[h := vec[i := vec[i].(nVotes := vec[i].nVotes + 1)]], h, vec[i].scriptPubKey)
  {
    var vec := blocks[h];
    var r := vec[i := vec[i].(nVotes := vec[i].nVotes + 1)];
    forall t
      ensures Votes(r, t) == Tally(before, h, t) + if t == vec[i].scriptPubKey then 1 else 0
    {
      VotesOfUpdate(vec, i, 1, t);
    }
    hide Votes;
  }

  lemma VotesOfAppended(vec: seq<Payee>, p: Payee, t: Script)
    ensures Votes(vec + [p], t) == Votes(vec, t) + if t == p.scriptPubKey then p.nVotes else 0
  {
    assert (vec + [p])[..|vec|] == vec;
  }

  lemma ListedMore(before: map<int, seq<Payee>>, blocks: map<int, seq<Payee>>, h: int, s: Script)
    requires Opened(before, blocks, h) && forall j :: 0 <= j < |blocks[h]| ==> blocks[h][j].scriptPubKey != s
    ensures OneVoteMore(before, blocks[h := blocks[h] + [Payee(s, 1)]], h, s)
  {
    var vec := blocks[h];
    forall t
      ensures Votes(vec + [Payee(s, 1)], t) == Tally(before, h, t) + if t == s then 1 else 0
    {
      VotesOfAppended(vec, Payee(s, 1), t);
    }
    hide Votes;
  }

  lemma AddingTallies(winners: map<Hash, Winner>, before: map<int, seq<Payee>>, after: map<int, seq<Payee>>, k: Hash, w: Winner)
    requires Tallied(winners, before) && k !in winners && OneVoteMore(before, after, w.nBlockHeight, w.payee)
    ensures Tallied(winners[k := w], after)
  {
    forall h, s
      ensures Tally(after, h, s) == |Recorded(winners[k := w], h, s)|
    {
      assert Tally(before, h, s) == |Recorded(winners, h, s)|;
      RecordedGrows(winners, k, w, h, s);
    }
  }

  predicate TooOld(w: Winner, nHeight: int, nLimit: int) { nHeight - w.nBlockHeight > nLimit }

  /** Only the winners and blocks within the limit. */
  function RecentWinners(winners: map<Hash, Winner>, nHeight: int, nLimit: int): map<Hash, Winner> {
    map k | k in winners && !TooOld(winners[k], nHeight, nLimit) :: winners[k]
  }

  /**
   Halfway through the clean-up, some old winners are gone with their blocks while others of
   the same height are still there; at the end the tally is right again.
   */
  lemma CleaningTallies(winners: map<Hash, Winner>, blocks: map<int, seq<Payee>>, left: map<int, seq<Payee>>, nHeight: int, nLimit: int)
    requires Tallied(winners, blocks)
    requires forall g :: g in left ==> g in blocks && left[g] == blocks[g]
    requires forall g :: g in blocks && g !in left ==> nHeight - g > nLimit
    requires forall k :: k in winners && TooOld(winners[k], nHeight, nLimit) ==> winners[k].nBlockHeight !in left
    ensures Tallied(RecentWinners(winners, nHeight, nLimit), left)
  {
    var recent := RecentWinners(winners, nHeight, nLimit);
    forall h, s
      ensures Tally(left, h, s) == |Recorded(recent, h, s)|
    {
      assert Tally(blocks, h, s) == |Recorded(winners, h, s)|;
      if nHeight - h > nLimit {
        NobodyOld(recent, nHeight, nLimit, h, s);
        if h in left {
          forall k | k in winners
            ensures winners[k] != Winner(h, s)
          {
            assert TooOld(winners[k], nHeight, nLimit) ==> winners[k].nBlockHeight !in left;
          }
          assert Recorded(winners, h, s) == {};
        }
      } else {
        assert Recorded(recent, h, s) == Recorded(winners, h, s);
      }
    }
  }

  lemma NobodyOld(recent: map<Hash, Winner>, nHeight: int, nLimit: int, h: int, s: Script)
    requires nHeight - h > nLimit && forall k :: k in recent ==> !TooOld(recent[k], nHeight, nLimit)
    ensures Recorded(recent, h, s) == {}
  {
    assert forall k :: k in recent ==> recent[k] != Winner(h, s);
  }

  /** The payee named by the most winners of a height, if any is named. */
  ghost predicate MostRecorded(winners: map<Hash, Winner>, h: int, payee: Option<Script>) {
    && (payee.None? <==> forall s :: |Recorded(winners, h, s)| == 0)
    && (payee.Some? ==> forall s :: |Recorded(winners, h, s)| <= |Recorded(winners, h, payee.value)|)
  }

  /** Of equal payees the one that was voted for first. */
  ghost predicate FirstWithMost(vec: seq<Payee>, s: Script) {
    exists i ::
      && 0 <= i < |vec| && vec[i].scriptPubKey == s
      && (forall j :: 0 <= j < i ==> vec[j].nVotes < vec[i].nVotes) && (forall j :: i < j < |vec| ==> vec[j].nVotes <= vec[i].nVotes)
  }

  // ---------------------------------------------------------------- the validator

  const MNPAYMENTS_SIGNATURES_REQUIRED := 6

  /** Enough winners of a height, six, name the payee. */
  predicate Enforced(winners: map<Hash, Winner>, h: int, s: Script) {
    |Recorded(winners, h, s)| >= 6
  }

  /** The output is the required payment to such a payee. */
  predicate Settles(winners: map<Hash, Winner>, h: int, out: TxOut, required: int) {
    out.nValue == required && Enforced(winners, h, out.scriptPubKey)
  }

  /** Nobody has to be paid, or one of those who have to be is. */
  ghost predicate Acceptable(winners: map<Hash, Winner>, h: int, vout: seq<TxOut>, required: int) {
    (forall s :: !Enforced(winners, h, s)) || exists i :: 0 <= i < |vout| && Settles(winners, h, vout[i], required)
  }

  /**
   A block whose last output is the payment to the payee with the most winners passes exactly when
   that payee has too few winners to be enforced, or the payment is the required one, or some other
   output happens to pay an enforced payee the required amount.
   */
  lemma FilledPasses(winners: map<Hash, Winner>, h: int, scheduled: Option<Script>, r: seq<TxOut>, payment: int, required: int)
    requires MostRecorded(winners, h, scheduled)
    requires scheduled.Some? ==> |r| > 0 && r[|r| - 1] == TxOut(scheduled.value, payment)
    ensures Acceptable(winners, h, r, required) <==>
      || scheduled.None? || !Enforced(winners, h, scheduled.value) || payment == required
      || exists i :: 0 <= i < |r| - 1 && Settles(winners, h, r[i], required)
  {
    if scheduled.Some? && Enforced(winners, h, scheduled.value) {
      if payment == required { assert Settles(winners, h, r[|r| - 1], required); }
    } else {
      forall s
        ensures !Enforced(winners, h, s)
      {
        assert scheduled.Some? ==> |Recorded(winners, h, s)| <= |Recorded(winners, h, scheduled.value)|;
      }
    }
  }

  /**
   So a miner's block after the first proof-of-stake one, with enough winners for its payee and no other
   fitting output, is refused exactly where the reward falls, unless hardly anything is left to create.
   */
  lemma NextBlockPasses(winners: map<Hash, Winner>, h: int, payee: Script, r: seq<TxOut>, supply: int, startTime: int, mined: int, asked: int)
    requires h > LAST_POW + 1 && h > startTime && MostRecorded(winners, h, Some(payee)) && Enforced(winners, h, payee)
    requires |r| > 0 && r[|r| - 1] == TxOut(payee, GetMasternodePayment(h - 1, GetBlockValue(h - 1, supply), startTime, mined))
    requires var required := GetMasternodePayment(h, GetBlockValue(h, supply), startTime, asked);
      forall i :: 0 <= i < |r| - 1 ==> !Settles(winners, h, r[i], required)
    ensures Acceptable(winners, h, r, GetMasternodePayment(h, GetBlockValue(h, supply), startTime, asked)) <==>
      !RewardFalls(h) || (MAX_MONEY_OUT - supply) / 100 <= Subsidy(h) / 100
  {
    hide *;
    SamePaymentIff(h, supply, startTime, mined, asked);
    FilledPasses(winners, h, Some(payee), r, GetMasternodePayment(h - 1, GetBlockValue(h - 1, supply), startTime, mined),
      GetMasternodePayment(h, GetBlockValue(h, supply), startTime, asked));
  }

  class CMasternodePayments {
    var mapMasternodePayeeVotes: map<Hash, Winner>
    var mapMasternodeBlocks: map<int, seq<Payee>>

    ghost predicate Valid()
      reads this
    {
      Tallied(mapMasternodePayeeVotes, mapMasternodeBlocks)
    }

    constructor ()
      ensures Valid() && mapMasternodePayeeVotes == map[]
    {
      mapMasternodePayeeVotes, mapMasternodeBlocks := map[], map[];
      new;
      forall h, s
        ensures |Recorded(map[], h, s)| == 0
      {
        assert Recorded(map[], h, s) == {};
      }
    }

    /** `CMasternodeBlockPayees::AddPayee` on the list of a height. */
    method AddPayee(h: int, payeeIn: Script, ghost before: map<int, seq<Payee>>)
      requires Opened(before, mapMasternodeBlocks, h)
      modifies this`mapMasternodeBlocks
      ensures OneVoteMore(before, mapMasternodeBlocks, h, payeeIn)
    {
      hide OneVoteMore;
      var vec := mapMasternodeBlocks[h];
      for i := 0 to |vec|
        invariant forall j :: 0 <= j < i ==> vec[j].scriptPubKey != payeeIn
        invariant mapMasternodeBlocks == old(mapMasternodeBlocks)
      {
        if vec[i].scriptPubKey == payeeIn {
          VotedMore(before, mapMasternodeBlocks, h, i);
          mapMasternodeBlocks := mapMasternodeBlocks[h := vec[i := vec[i].(nVotes := vec[i].nVotes + 1)]];
          return;
        }
      }
      var c := Payee(payeeIn, 1);
      ListedMore(before, mapMasternodeBlocks, h, payeeIn);
      mapMasternodeBlocks := mapMasternodeBlocks[h := vec + [c]];
    }

    /** `fKnownBlock`: the block a hundred before the winner's is in the chain. */
    method AddWinningMasternode(hash: Hash, winnerIn: Winner, fKnownBlock: bool) returns (added: bool)
      requires Valid()
      modifies this
      ensures Valid()
      ensures added == (fKnownBlock && hash !in old(mapMasternodePayeeVotes))
      ensures mapMasternodePayeeVotes == if added then old(mapMasternodePayeeVotes)[hash := winnerIn] else old(mapMasternodePayeeVotes)
    {
      if !fKnownBlock {
        return false;
      }
      if hash in mapMasternodePayeeVotes {
        return false;
      }
      ghost var winners, before := mapMasternodePayeeVotes, mapMasternodeBlocks;
      mapMasternodePayeeVotes := mapMasternodePayeeVotes[hash := winnerIn];
      var h := winnerIn.nBlockHeight;
      if h !in mapMasternodeBlocks {
        mapMasternodeBlocks := mapMasternodeBlocks[h := []];
      }
      AddPayee(h, winnerIn.payee, before);
      AddingTallies(winners, before, mapMasternodeBlocks, hash, winnerIn);
      return true;
    }

    method CleanPaymentList(nHeight: int, nLimit: int)
      requires Valid()
      modifies this
      ensures Valid()
      ensures mapMasternodePayeeVotes == RecentWinners(old(mapMasternodePayeeVotes), nHeight, nLimit)
      ensures forall k :: k in mapMasternodePayeeVotes <==>
        k in old(mapMasternodePayeeVotes) && old(mapMasternodePayeeVotes)[k].nBlockHeight + nLimit >= nHeight
    {
      ghost var winners, blocks := mapMasternodePayeeVotes, mapMasternodeBlocks;
      var todo := mapMasternodePayeeVotes.Keys;
      while todo != {}
        invariant todo <= winners.Keys
        invariant forall k :: k in mapMasternodePayeeVotes <==>
          k in winners && (k in todo || !TooOld(winners[k], nHeight, nLimit))
        invariant forall k :: k in mapMasternodePayeeVotes ==> mapMasternodePayeeVotes[k] == winners[k]
        invariant forall g :: g in mapMasternodeBlocks ==> g in blocks && mapMasternodeBlocks[g] == blocks[g]
        invariant forall g :: g in blocks && g !in mapMasternodeBlocks ==> nHeight - g > nLimit
        invariant forall k :: k in winners && k !in todo && TooOld(winners[k], nHeight, nLimit) ==>
          winners[k].nBlockHeight !in mapMasternodeBlocks
        decreases |todo|
      {
        var k := PickOne(todo);
        var winner := mapMasternodePayeeVotes[k];
        if nHeight - winner.nBlockHeight > nLimit {
          mapMasternodePayeeVotes := mapMasternodePayeeVotes - {k};
          mapMasternodeBlocks := mapMasternodeBlocks - {winner.nBlockHeight};
        }
        todo := todo - {k};
      }
      NoneLeft(todo);
      forall k
        ensures k in mapMasternodePayeeVotes <==> k in RecentWinners(winners, nHeight, nLimit)
        ensures k in mapMasternodePayeeVotes ==> mapMasternodePayeeVotes[k] == RecentWinners(winners, nHeight, nLimit)[k]
      {
        assert k !in todo;
      }
      MapsEqual(mapMasternodePayeeVotes, RecentWinners(winners, nHeight, nLimit));
      CleaningTallies(winners, blocks, mapMasternodeBlocks, nHeight, nLimit);
    }

    /** The payee with the most recorded winners for a height, if any winner is recorded. */
    method GetBlockPayee(nBlockHeight: int) returns (payee: Option<Script>)
      requires Valid()
      ensures MostRecorded(mapMasternodePayeeVotes, nBlockHeight, payee)
      ensures payee.Some? ==> nBlockHeight in mapMasternodeBlocks && FirstWithMost(mapMasternodeBlocks[nBlockHeight], payee.value)
    {
      payee := None;
      if nBlockHeight in mapMasternodeBlocks {
        var vec := mapMasternodeBlocks[nBlockHeight];
        var nVotes: int := -1;
        for i := 0 to |vec|
          invariant payee.None? <==> i == 0
          invariant i > 0 ==> exists j ::
            && 0 <= j < i && vec[j].scriptPubKey == payee.value && vec[j].nVotes == nVotes
            && forall k :: 0 <= k < j ==> vec[k].nVotes < nVotes
          invariant forall j :: 0 <= j < i ==> vec[j].nVotes <= nVotes
          invariant i == 0 ==> nVotes == -1
        {
          var p := vec[i];
          if p.nVotes > nVotes {
            payee := Some(p.scriptPubKey);
            nVotes := p.nVotes;
          }
        }
        MostVotes(vec, payee, nVotes);
      }
      forall s
        ensures |Recorded(mapMasternodePayeeVotes, nBlockHeight, s)| == Tally(mapMasternodeBlocks, nBlockHeight, s)
      {
      }
    }

    method HasPayeeWithVotes(nBlockHeight: int, payee: Script, nVotesReq: int) returns (r: bool)
      requires Valid() && nBlockHeight in mapMasternodeBlocks
      ensures var n := |Recorded(mapMasternodePayeeVotes, nBlockHeight, payee)|;
        r <==> n >= nVotesReq && n > 0
    {
      var vec := mapMasternodeBlocks[nBlockHeight];
      assert Tally(mapMasternodeBlocks, nBlockHeight, payee) == |Recorded(mapMasternodePayeeVotes, nBlockHeight, payee)|;
      for i := 0 to |vec|
        invariant forall j :: 0 <= j < i ==> vec[j].scriptPubKey != payee || vec[j].nVotes < nVotesReq
      {
        if vec[i].nVotes >= nVotesReq && vec[i].scriptPubKey == payee {
          VotesOfListed(vec, i);
          return true;
        }
      }
      if j :| 0 <= j < |vec| && vec[j].scriptPubKey == payee {
        VotesOfListed(vec, j);
      } else {
        VotesOfAbsent(vec, payee);
      }
      return false;
    }

    /** `CMasternodeBlockPayees::IsTransactionValid` on the list of a height, if there is one. */
    method IsTransactionValid(vout: seq<TxOut>, nBlockHeight: int, required: int) returns (r: bool)
      requires Valid()
      ensures r <==> Acceptable(mapMasternodePayeeVotes, nBlockHeight, vout, required)
    {
      hide Tallied, Enforced;
      ghost var winners := mapMasternodePayeeVotes;
      EnforcedInList(winners, mapMasternodeBlocks, nBlockHeight);
      if nBlockHeight !in mapMasternodeBlocks {
        return true;
      }
      var vec := mapMasternodeBlocks[nBlockHeight];
      var nMaxSignatures := 0;
      for i := 0 to |vec|
        invariant nMaxSignatures == 0 || nMaxSignatures >= MNPAYMENTS_SIGNATURES_REQUIRED
        invariant nMaxSignatures == 0 <==> forall j :: 0 <= j < i ==> vec[j].nVotes < MNPAYMENTS_SIGNATURES_REQUIRED
      {
        if vec[i].nVotes >= nMaxSignatures && vec[i].nVotes >= MNPAYMENTS_SIGNATURES_REQUIRED {
          nMaxSignatures := vec[i].nVotes;
        }
      }
      if nMaxSignatures < MNPAYMENTS_SIGNATURES_REQUIRED {
        return true;
      }
      for i := 0 to |vec|
        invariant forall j :: 0 <= j < i && vec[j].nVotes >= MNPAYMENTS_SIGNATURES_REQUIRED ==>
          TxOut(vec[j].scriptPubKey, required) !in vout
      {
        var found := IsPaid(vout, vec[i].scriptPubKey, required);
        if vec[i].nVotes >= MNPAYMENTS_SIGNATURES_REQUIRED {
          if found {
            ghost var k :| 0 <= k < |vout| && vout[k] == TxOut(vec[i].scriptPubKey, required);
            assert Settles(winners, nBlockHeight, vout[k], required);
            return true;
          }
        }
      }
      forall k | 0 <= k < |vout|
        ensures !Settles(winners, nBlockHeight, vout[k], required)
      {
        assert vout[k] == TxOut(vout[k].scriptPubKey, vout[k].nValue) && vout[k] in vout;
      }
      return false;
    }
  }

  /** What the votes in a list say about enforcement. */
  lemma EnforcedInList(winners: map<Hash, Winner>, blocks: map<int, seq<Payee>>, h: int)
    requires Tallied(winners, blocks)
    ensures h !in blocks ==> forall s :: !Enforced(winners, h, s)
    ensures h in blocks ==> forall i :: 0 <= i < |blocks[h]| ==>
      (blocks[h][i].nVotes >= MNPAYMENTS_SIGNATURES_REQUIRED <==> Enforced(winners, h, blocks[h][i].scriptPubKey))
    ensures h in blocks ==> forall s :: Enforced(winners, h, s) ==>
      exists i :: 0 <= i < |blocks[h]| && blocks[h][i].scriptPubKey == s
  {
    hide Recorded;
    assert forall s :: Tally(blocks, h, s) == |Recorded(winners, h, s)|;
    if h in blocks {
      var vec := blocks[h];
      forall i | 0 <= i < |vec|
        ensures vec[i].nVotes >= MNPAYMENTS_SIGNATURES_REQUIRED <==> Enforced(winners, h, vec[i].scriptPubKey)
      {
        VotesOfListed(vec, i);
      }
      forall s | Enforced(winners, h, s)
        ensures exists i :: 0 <= i < |vec| && vec[i].scriptPubKey == s
      {
        if forall i :: 0 <= i < |vec| ==> vec[i].scriptPubKey != s { VotesOfAbsent(vec, s); }
      }
    }
  }

  /** The inner loop of the validator. */
  method IsPaid(vout: seq<TxOut>, payee: Script, required: int) returns (found: bool)
    ensures found <==> TxOut(payee, required) in vout
  {
    found := false;
    for i := 0 to |vout|
      invariant found <==> TxOut(payee, required) in vout[..i]
    {
      if payee == vout[i].scriptPubKey {
        if vout[i].nValue == required {
          found := true;
        }
      }
    }
    assert vout[..|vout|] == vout;
  }

  /** The entry with the most votes has the most votes of all scripts. */
  lemma MostVotes(vec: seq<Payee>, payee: Option<Script>, n: int)
    requires Listed(vec)
    requires payee.None? <==> vec == []
    requires vec != [] ==> exists j :: 0 <= j < |vec| && vec[j].scriptPubKey == payee.value && vec[j].nVotes == n
    requires forall j :: 0 <= j < |vec| ==> vec[j].nVotes <= n
    ensures payee.None? ==> forall s :: Votes(vec, s) == 0
    ensures payee.Some? ==> Votes(vec, payee.value) > 0 && forall s :: Votes(vec, s) <= Votes(vec, payee.value)
  {
    if payee.Some? {
      var j :| 0 <= j < |vec| && vec[j].scriptPubKey == payee.value && vec[j].nVotes == n;
      VotesOfListed(vec, j);
      forall s
        ensures Votes(vec, s) <= n
      {
        if i :| 0 <= i < |vec| && vec[i].scriptPubKey == s {
          VotesOfListed(vec, i);
        } else {
          VotesOfAbsent(vec, s);
        }
      }
    }
  }

  // ---------------------------------------------------------------- the payment

  function Total(vout: seq<TxOut>): int {
    if vout == [] then 0 else Total(vout[..|vout| - 1]) + vout[|vout| - 1].nValue
  }

  /** What is taken from output `j` of a stake with `n` outputs. */
  function Share(j: int, n: nat, payment: nat): int {
    if n < 2 || j < 1 || j >= n then 0
    else payment / (n - 1) + if j == n - 1 then payment % (n - 1) else 0
  }

  function Paid(vout: seq<TxOut>, payee: Script, payment: nat): (r: seq<TxOut>)
    ensures |r| == |vout| + 1
  {
    seq(|vout|, j requires 0 <= j < |vout| => vout[j].(nValue := vout[j].nValue - Share(j, |vout|, payment)))
      + [TxOut(payee, payment)]
  }

  /** What is taken from the outputs before `m`. */
  function Taken(m: nat, n: nat, payment: nat): int {
    if m == 0 then 0 else Taken(m - 1, n, payment) + Share(m - 1, n, payment)
  }

  lemma {:induction false} SharesSum(vout: seq<TxOut>, payee: Script, payment: nat, m: nat)
    requires m <= |vout|
    ensures Total(Paid(vout, payee, payment)[..m]) == Total(vout[..m]) - Taken(m, |vout|, payment)
  {
    var r := Paid(vout, payee, payment);
    if m > 0 {
      SharesSum(vout, payee, payment, m - 1);
      assert r[..m][..m - 1] == r[..m - 1] && vout[..m][..m - 1] == vout[..m - 1];
      assert r[m - 1].nValue == vout[m - 1].nValue - Share(m - 1, |vout|, payment);
    }
    hide Share;
    hide Paid;
  }

  lemma {:induction false} TakenBefore(m: nat, n: nat, payment: nat, q: nat)
    requires 1 <= m < n && q == payment / (n - 1)
    ensures Taken(m, n, payment) == (m - 1) * q
  {
    if m == 1 {
      assert Taken(0, n, payment) == 0;
    } else {
      TakenBefore(m - 1, n, payment, q);
      assert Share(m - 1, n, payment) == q;
      hide Share;
      Distribute(m - 2, 1, q);
    }
  }

  /** The shares make up the payment. */
  lemma SharesMakePayment(n: nat, payment: nat)
    requires n >= 2
    ensures Taken(n, n, payment) == payment
  {
    var q, rest := payment / (n - 1), payment % (n - 1);
    TakenBefore(n - 1, n, payment, q);
    assert Share(n - 1, n, payment) == q + rest;
    hide Share;
    QuotientRemainder(payment, n - 1);
    Distribute(n - 2, 1, q);
    Commute(n - 1, q);
  }

  /** The stake keeps its total exactly when there is an output to take the payment from, or nothing to pay. */
  lemma PaymentKeepsTotal(vout: seq<TxOut>, payee: Script, payment: nat)
    ensures Total(Paid(vout, payee, payment)) == Total(vout) <==> |vout| >= 2 || payment == 0
    ensures |vout| < 2 ==> Total(Paid(vout, payee, payment)) == Total(vout) + payment
  {
    var r, n := Paid(vout, payee, payment), |vout|;
    assert vout[..n] == vout;
    if n >= 2 {
      SharesSum(vout, payee, payment, n);
      SharesMakePayment(n, payment);
    } else {
      NothingTaken(vout, payee, payment);
    }
    assert Total(r) == Total(r[..n]) + payment;
    hide Paid;
    hide Total;
  }

  lemma NothingTaken(vout: seq<TxOut>, payee: Script, payment: nat)
    requires |vout| < 2
    ensures Paid(vout, payee, payment)[..|vout|] == vout
  {
  }

  lemma TotalOfTwo(r: seq<TxOut>)
    requires |r| == 2
    ensures Total(r) == r[0].nValue + r[1].nValue
  {
    var one := r[..1];
    assert one[..0] == [] && Total(one) == r[0].nValue;
  }

  /** The first output gives nothing, the others the same, and the last one what does not divide as well. */
  lemma PaidShares(vout: seq<TxOut>, payee: Script, payment: nat)
    requires |vout| >= 2
    ensures var n, r, q, rest := |vout|, Paid(vout, payee, payment), payment / (|vout| - 1), payment % (|vout| - 1);
      && q * (n - 1) + rest == payment && 0 <= rest < n - 1
      && r[0] == vout[0] && r[n - 1] == vout[n - 1].(nValue := vout[n - 1].nValue - q - rest)
      && forall j :: 1 <= j < n - 1 ==> r[j] == vout[j].(nValue := vout[j].nValue - q)
  {
    QuotientRemainder(payment, |vout| - 1);
  }

  /** The proof-of-stake branch: the payment is taken out of the other outputs. */
  method FillStake(vout: seq<TxOut>, payee: Script, masternodePayment: nat) returns (r: seq<TxOut>)
    ensures r == Paid(vout, payee, masternodePayment)
  {
    r := vout;
    var i := |r|;
    r := r + [TxOut(payee, masternodePayment)];
    if i == 2 {
      DivIs(masternodePayment, 1, masternodePayment, 0);
      r := r[i - 1 := r[i - 1].(nValue := r[i - 1].nValue - masternodePayment)];
    } else if i > 2 {
      var outputs := i - 1;
      var mnPaymentSplit := masternodePayment / outputs;
      var mnPaymentRemainder := masternodePayment - mnPaymentSplit * outputs;
      QuotientRemainder(masternodePayment, outputs);
      for j := 1 to outputs + 1
        invariant |r| == i + 1 && r[0] == vout[0] && r[i] == TxOut(payee, masternodePayment)
        invariant forall k :: 1 <= k < j ==> r[k] == vout[k].(nValue := vout[k].nValue - mnPaymentSplit)
        invariant forall k :: j <= k < i ==> r[k] == vout[k]
      {
        r := r[j := r[j].(nValue := r[j].nValue - mnPaymentSplit)];
      }
      r := r[outputs := r[outputs].(nValue := r[outputs].nValue - mnPaymentRemainder)];
    }
    assert r == Paid(vout, payee, masternodePayment);
  }

  method FillBlockPayee(vout: seq<TxOut>, scheduled: Option<Script>, current: Option<Script>, blockValue: int, masternodePayment: nat, fProofOfStake: bool)
    returns (r: seq<TxOut>)
    ensures scheduled.None? && current.None? ==> r == vout
    ensures (scheduled.Some? || current.Some?) && fProofOfStake ==>
      r == Paid(vout, if scheduled.Some? then scheduled.value else current.value, masternodePayment)
    ensures (scheduled.Some? || current.Some?) && !fProofOfStake ==>
      && |r| == 2 && Total(r) == blockValue
      && r[0].nValue == blockValue - masternodePayment && r[0].scriptPubKey == (if vout == [] then 0 else vout[0].scriptPubKey)
      && r[1] == TxOut(if scheduled.Some? then scheduled.value else current.value, masternodePayment)
  {
    var payee := scheduled;
    if payee.None? {
      payee := current;
    }
    r := vout;
    if payee.Some? {
      if fProofOfStake {
        r := FillStake(vout, payee.value, masternodePayment);
      } else {
        var first := if |r| > 0 then r[0].scriptPubKey else 0;
        r := [TxOut(first, blockValue - masternodePayment), TxOut(payee.value, masternodePayment)];
        TotalOfTwo(r);
      }
    }
  }
}
