/**
 What a block of the main network may create and what of it is a masternode's
 (core/src/main.cpp:1541-1615, 1849-1875; core/src/chainparams.cpp:183, 206).
 A miner takes both for the height of the last block, a validator for the height of the block.
 */
module BlockRewards {
  import opened Arithmetic

  const COIN := 100000000
  const MAX_MONEY_OUT := 51000000 * COIN
  const LAST_POW := 196960

  function Subsidy(h: int): (r: int)
    ensures r >= 0
  {
    if h < 0 then 0
    else if h == 0 then 5908800 * COIN
    else if h < 57720 then 100 * COIN
    else if h < 127340 then 80 * COIN
    else if h <= 254679 then 47 * COIN + COIN / 2
    else if h <= 312399 then 40 * COIN + COIN / 2
    else if h <= 370119 then 38 * COIN
    else if h <= 427839 then 31 * COIN + COIN / 2
    else if h <= 485559 then 27 * COIN
    else if h <= 543279 then 18 * COIN
    else if h <= 600999 then 9 * COIN
    else 4 * COIN + COIN / 2
  }

  /** `supply` is the money there is at the tip of the chain. */
  function GetBlockValue(h: int, supply: int): int {
    if supply >= MAX_MONEY_OUT then 0
    else if supply + Subsidy(h) >= MAX_MONEY_OUT then MAX_MONEY_OUT - supply
    else Subsidy(h)
  }

  /** `startTime` is the setting that ends the see-saw, and `seeSaw` what that would give. */
  function GetMasternodePayment(h: int, blockValue: int, startTime: int, seeSaw: int): int {
    if h <= 43200 then blockValue / 5
    else if h < 57720 then blockValue / (100 / 48)
    else if h < 127340 then 50 * COIN
    else if h <= LAST_POW then blockValue / 100 * 70
    else if h < startTime then seeSaw
    else blockValue / 100 * 60
  }

  /** No block creates money beyond the maximum. */
  lemma ValueFits(h: int, supply: int)
    ensures 0 <= GetBlockValue(h, supply) <= Subsidy(h)
    ensures supply <= MAX_MONEY_OUT ==> supply + GetBlockValue(h, supply) <= MAX_MONEY_OUT
  {
  }

  /** What of a block is a masternode's, in shares of its value or, for a while, in coins. */
  lemma PaymentShares(h: int, value: nat, startTime: int, seeSaw: int)
    ensures var pay := GetMasternodePayment(h, value, startTime, seeSaw);
      && (h <= 43200 ==> 5 * pay <= value < 5 * pay + 5)
      && (43200 < h < 57720 ==> 2 * pay <= value < 2 * pay + 2)
      && (57720 <= h < 127340 ==> pay == 50_0000_0000)
      && (127340 <= h <= 196960 ==> 100 * pay <= 70 * value < 100 * pay + 7000)
      && (196960 < h && h < startTime ==> pay == seeSaw)
      && (196960 < h && h >= startTime ==> 100 * pay <= 60 * value < 100 * pay + 6000)
  {
  }

  // ---------------------------------------------------------------- the whole schedule

  /** The money there is after `n` blocks that create all they may; each has the value of the height before its own. */
  function Supply(n: nat): nat {
    if n == 0 then 0 else
      ValueFits(n - 1, Supply(n - 1));
      Supply(n - 1) + GetBlockValue(n - 1, Supply(n - 1))
  }

  /** A stretch of heights with one reward. */
  lemma {:induction false} Stretch(a: nat, b: nat, reward: nat)
    requires a <= b && forall h :: a <= h < b ==> Subsidy(h) == reward
    requires Supply(a) + (b - a) * reward <= MAX_MONEY_OUT
    ensures Supply(b) == Supply(a) + (b - a) * reward
    decreases b - a
  {
    hide Subsidy;
    if a < b {
      Distribute(b - 1 - a, 1, reward);
      Stretch(a, b - 1, reward);
      assert Supply(b) == Supply(b - 1) + GetBlockValue(b - 1, Supply(b - 1));
      hide Supply;
    }
  }

  lemma FirstBlock()
    ensures Supply(1) == 5908800 * COIN
  {
    assert Supply(0) == 0;
  }

  lemma FirstStretches()
    ensures Supply(1) == 5908800 * COIN && Supply(57720) == 11680700 * COIN
    ensures Supply(127340) == 17250300 * COIN && Supply(254680) == 23298950 * COIN
  {
    hide Supply, GetBlockValue;
    FirstBlock();
    Stretch(1, 57720, 100 * COIN);
    Stretch(57720, 127340, 80 * COIN);
    Stretch(127340, 254680, 47 * COIN + COIN / 2);
  }

  lemma FallingStretches()
    ensures Supply(370120) == 27829970 * COIN && Supply(485560) == 31206590 * COIN && Supply(601000) == 32765030 * COIN
  {
    hide Supply, GetBlockValue;
    FirstStretches();
    Stretch(254680, 312400, 40 * COIN + COIN / 2);
    Stretch(312400, 370120, 38 * COIN);
    Stretch(370120, 427840, 31 * COIN + COIN / 2);
    Stretch(427840, 485560, 27 * COIN);
    Stretch(485560, 543280, 18 * COIN);
    Stretch(543280, 601000, 9 * COIN);
  }

  /** The maximum is reached by block 4653216, whose value is two and a half coins, and never exceeded. */
  lemma ScheduleEnds(n: nat)
    ensures Supply(n) <= MAX_MONEY_OUT
    ensures Supply(n) == MAX_MONEY_OUT <==> n >= 4653216
    ensures Supply(4653216) - Supply(4653215) == 2 * COIN + COIN / 2
  {
    hide Supply;
    FallingStretches();
    Stretch(601000, 4653215, 4 * COIN + COIN / 2);
    LastBlock();
    hide GetBlockValue;
    if n >= 4653216 {
      NothingMore(n);
    } else {
      SupplyGrows(n, 4653215);
    }
  }

  lemma LastBlock()
    ensures Supply(4653216) == Supply(4653215) + GetBlockValue(4653215, Supply(4653215))
  {
  }

  lemma {:induction false} NothingMore(n: nat)
    requires n >= 4653216 && Supply(4653216) == MAX_MONEY_OUT
    ensures Supply(n) == MAX_MONEY_OUT
    decreases n
  {
    if n > 4653216 { NothingMore(n - 1); }
    hide Subsidy;
  }

  lemma {:induction false} SupplyGrows(m: nat, n: nat)
    requires m <= n
    ensures Supply(m) <= Supply(n)
    decreases n
  {
    if m < n {
      SupplyGrows(m, n - 1);
      ValueFits(n - 1, Supply(n - 1));
    }
    hide GetBlockValue;
  }

  /** The reward falls at this height. */
  predicate RewardFalls(h: int) {
    || h == 254680 || h == 312400 || h == 370120 || h == 427840
    || h == 485560 || h == 543280 || h == 601000
  }

  lemma SubsidyFalls(h: int)
    requires h > LAST_POW + 1
    ensures Subsidy(h) % 100 == 0
    ensures if RewardFalls(h) then Subsidy(h) + 100 < Subsidy(h - 1) else Subsidy(h) == Subsidy(h - 1)
  {
  }

  /**
   Miner and validator agree on the payment of a block after the first proof-of-stake one exactly
   when the reward does not fall at its height, or what may still be created is less than both rewards.
   */
  lemma SamePaymentIff(h: int, supply: int, startTime: int, mined: int, asked: int)
    requires h > LAST_POW + 1 && h > startTime
    ensures GetMasternodePayment(h - 1, GetBlockValue(h - 1, supply), startTime, mined) ==
            GetMasternodePayment(h, GetBlockValue(h, supply), startTime, asked) <==>
      !RewardFalls(h) || (MAX_MONEY_OUT - supply) / 100 <= Subsidy(h) / 100
  {
    SubsidyFalls(h);
    hide Subsidy;
    hide RewardFalls;
  }
}
