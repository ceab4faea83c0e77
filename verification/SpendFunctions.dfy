/**
 The functions of core/src/denomination_functions.cpp as they run, over the
 specifications in `Denominations` and `CoinSelection`.
 */
module SpendFunctions {
  import opened Arithmetic
  import opened Denominations
  import opened CoinSelection

  predicate Positive(d: seq<nat>) { forall i :: 0 <= i < |d| ==> d[i] > 0 }

  // ---------------------------------------------------------------- how far a pass has come

  lemma TakeReached(rest: int, v: nat, held: nat, t: nat)
    requires v > 0 && t <= held
    requires t > 0 ==> rest >= Worth(t, v)
    requires rest - Worth(t, v) < v || t == held
    ensures t == Take(rest, v, held)
  {
    TakeFits(rest, v, held);
    if rest >= 0 {
      TakeIsMost(rest, v, held, t);
      var u := Take(rest, v, held);
      if t < u { WorthSplits(t, u - t, v); MulMonotone(1, u - t, v); }
    }
  }

  lemma TakeOverReached(rest: int, v: nat, held: nat, t: nat)
    requires v > 0 && t <= held
    requires t > 0 ==> rest > Worth(t - 1, v)
    requires rest - Worth(t, v) <= 0 || t == held
    ensures t == TakeOver(rest, v, held)
  {
    if rest > 0 {
      FitsQuotient(rest - 1, v, t);
      if t > 0 { FitsQuotient(rest - 1, v, t - 1); }
    }
  }

  lemma TakeAllReached(rest: int, v: nat, t: nat)
    requires v > 0
    requires t > 0 ==> rest >= Worth(t, v)
    requires rest - Worth(t, v) < v
    ensures t == TakeAll(rest, v)
  {
    if rest >= 0 { DivIs(rest, v, t, rest - Worth(t, v)); }
  }

  lemma PassStep(d: seq<nat>, held: Counts, rest: int, tail: Counts, k: nat, t: nat)
    requires |held| == |d| && Positive(d) && k < |d| && t == Take(rest, d[k], held[k])
    ensures Greedy(d[..k], held[..k], rest - Worth(t, d[k])) + ([t] + tail) == Greedy(d[..k + 1], held[..k + 1], rest) + tail
  {
    hide Take;
    assert d[..k + 1][..k] == d[..k] && held[..k + 1][..k] == held[..k];
  }

  lemma OverStep(d: seq<nat>, held: Counts, rest: int, tail: Counts, k: nat, t: nat)
    requires |held| == |d| && Positive(d) && k < |d| && t == TakeOver(rest, d[k], held[k])
    ensures Over(d[..k], held[..k], rest - Worth(t, d[k])) + ([t] + tail) == Over(d[..k + 1], held[..k + 1], rest) + tail
  {
    hide TakeOver;
    assert d[..k + 1][..k] == d[..k] && held[..k + 1][..k] == held[..k];
  }

  lemma ChangeStep(d: seq<nat>, rest: int, tail: Counts, k: nat, t: nat)
    requires Positive(d) && k < |d| && t == TakeAll(rest, d[k])
    ensures Change(d[..k], rest - Worth(t, d[k])) + ([t] + tail) == Change(d[..k + 1], rest) + tail
  {
    hide TakeAll;
    assert d[..k + 1][..k] == d[..k];
  }

  lemma OneMore(t: nat, v: nat)
    ensures Worth(t + 1, v) == Worth(t, v) + v && Worth(0, v) == 0
  {
  }

  // ---------------------------------------------------------------- the functions

  method GetNumberOfCoinsUsed(mapChange: Counts) returns (nChangeCount: int)
    ensures nChangeCount == Count(mapChange)
  {
    nChangeCount := 0;
    for denom := 0 to |mapChange|
      invariant nChangeCount == Count(mapChange[..denom])
    {
      nChangeCount := nChangeCount + mapChange[denom];
      assert mapChange[..denom + 1][..denom] == mapChange[..denom];
    }
    assert mapChange[..|mapChange|] == mapChange;
  }

  method GetMaxDenomHeld(mapCoinsHeld: Counts) returns (maxDenom: int)
    ensures maxDenom == LowerHeld(mapCoinsHeld, |mapCoinsHeld|)
  {
    maxDenom := ZQ_ERROR;
    for coin := |mapCoinsHeld| downto 0
      invariant LowerHeld(mapCoinsHeld, coin) == LowerHeld(mapCoinsHeld, |mapCoinsHeld|)
    {
      if mapCoinsHeld[coin] != 0 {
        return coin;
      }
    }
  }

  lemma TailOf(c: Counts, i: nat)
    requires i < |c|
    ensures c[i..] == [c[i]] + c[i + 1..]
  {
  }

  method GetSpendCoins(d: seq<nat>, nValueTarget: int, mapOfDenomsHeld: Counts) returns (mapUsed: Counts)
    requires |mapOfDenomsHeld| == |d| && Positive(d)
    ensures mapUsed == Greedy(d, mapOfDenomsHeld, nValueTarget)
  {
    hide Worth;
    hide Greedy;
    mapUsed := Zeros(|d|);
    var nRemainingValue := nValueTarget;
    for coin := |d| downto 0
      invariant |mapUsed| == |d| && forall i :: 0 <= i < coin ==> mapUsed[i] == 0
      invariant Greedy(d[..coin], mapOfDenomsHeld[..coin], nRemainingValue) + mapUsed[coin..]
        == Greedy(d[..|d|], mapOfDenomsHeld[..|d|], nValueTarget)
    {
      var nValue := d[coin];
      ghost var rest, tail := nRemainingValue, mapUsed[coin + 1..];
      OneMore(0, nValue);
      while nRemainingValue >= nValue && mapUsed[coin] < mapOfDenomsHeld[coin]
        invariant |mapUsed| == |d| && (forall i :: 0 <= i < coin ==> mapUsed[i] == 0) && mapUsed[coin + 1..] == tail
        invariant mapUsed[coin] <= mapOfDenomsHeld[coin] && nRemainingValue == rest - Worth(mapUsed[coin], nValue)
        invariant mapUsed[coin] > 0 ==> nRemainingValue >= 0
        decreases mapOfDenomsHeld[coin] - mapUsed[coin]
      {
        OneMore(mapUsed[coin], nValue);
        mapUsed := mapUsed[coin := mapUsed[coin] + 1];
        nRemainingValue := nRemainingValue - nValue;
      }
      TakeReached(rest, nValue, mapOfDenomsHeld[coin], mapUsed[coin]);
      PassStep(d, mapOfDenomsHeld, rest, tail, coin, mapUsed[coin]);
      TailOf(mapUsed, coin);
    }
    assert d[..|d|] == d && mapOfDenomsHeld[..|d|] == mapOfDenomsHeld;
  }

  method GetChange(d: seq<nat>, nValueTarget: int) returns (mapChange: Counts)
    requires Positive(d)
    ensures mapChange == Change(d, nValueTarget)
  {
    hide Worth;
    hide Change;
    mapChange := Zeros(|d|);
    var nRemainingValue := nValueTarget;
    for coin := |d| downto 0
      invariant |mapChange| == |d| && forall i :: 0 <= i < coin ==> mapChange[i] == 0
      invariant Change(d[..coin], nRemainingValue) + mapChange[coin..] == Change(d[..|d|], nValueTarget)
    {
      var nValue := d[coin];
      ghost var rest, tail := nRemainingValue, mapChange[coin + 1..];
      OneMore(0, nValue);
      while nRemainingValue >= nValue
        invariant |mapChange| == |d| && (forall i :: 0 <= i < coin ==> mapChange[i] == 0) && mapChange[coin + 1..] == tail
        invariant nRemainingValue == rest - Worth(mapChange[coin], nValue)
        invariant mapChange[coin] > 0 ==> nRemainingValue >= 0
        decreases nRemainingValue
      {
        OneMore(mapChange[coin], nValue);
        mapChange := mapChange[coin := mapChange[coin] + 1];
        nRemainingValue := nRemainingValue - nValue;
      }
      TakeAllReached(rest, nValue, mapChange[coin]);
      ChangeStep(d, rest, tail, coin, mapChange[coin]);
      TailOf(mapChange, coin);
    }
    assert d[..|d|] == d;
  }

  method GetNextLowerDenomHeld(this_denom: nat, mapCoinsHeld: Counts) returns (nextValue: int)
    requires this_denom < |mapCoinsHeld|
    ensures nextValue == LowerHeld(mapCoinsHeld, this_denom)
  {
    nextValue := ZQ_ERROR;
    for denom := |mapCoinsHeld| downto 0
      invariant denom < this_denom ==> LowerHeld(mapCoinsHeld, denom) == LowerHeld(mapCoinsHeld, this_denom)
    {
      if denom < this_denom && mapCoinsHeld[denom] != 0 {
        return denom;
      }
    }
  }

  /** The strict pass of `minimizeChange`. */
  method StrictPass(d: seq<nat>, nextToMaxDenom: int, nValueTarget: int, mapOfDenomsHeld: Counts)
    returns (mapUsed: Counts, nRemainingValue: int, AmountUsed: int)
    requires |mapOfDenomsHeld| == |d| && Positive(d)
    ensures mapUsed == Greedy(d, Capped(mapOfDenomsHeld, nextToMaxDenom), nValueTarget - 1)
    ensures AmountUsed == Value(d, mapUsed) && nRemainingValue == nValueTarget - AmountUsed
  {
    hide Worth;
    hide Greedy;
    hide Value;
    ghost var held := Capped(mapOfDenomsHeld, nextToMaxDenom);
    mapUsed := Zeros(|d|);
    nRemainingValue, AmountUsed := nValueTarget, 0;
    ValueOfZeros(d);
    for denom := |d| downto 0
      invariant |mapUsed| == |d| && forall i :: 0 <= i < denom ==> mapUsed[i] == 0
      invariant Greedy(d[..denom], held[..denom], nRemainingValue - 1) + mapUsed[denom..]
        == Greedy(d[..|d|], held[..|d|], nValueTarget - 1)
      invariant AmountUsed == Value(d, mapUsed) && nRemainingValue == nValueTarget - AmountUsed
    {
      var nValue := d[denom];
      ghost var rest, tail := nRemainingValue, mapUsed[denom + 1..];
      OneMore(0, nValue);
      if denom <= nextToMaxDenom {
        while nRemainingValue > nValue && mapUsed[denom] < mapOfDenomsHeld[denom]
          invariant |mapUsed| == |d| && (forall i :: 0 <= i < denom ==> mapUsed[i] == 0) && mapUsed[denom + 1..] == tail
          invariant mapUsed[denom] <= mapOfDenomsHeld[denom] && nRemainingValue == rest - Worth(mapUsed[denom], nValue)
          invariant mapUsed[denom] > 0 ==> nRemainingValue > 0
          invariant AmountUsed == Value(d, mapUsed) && nRemainingValue == nValueTarget - AmountUsed
          decreases mapOfDenomsHeld[denom] - mapUsed[denom]
        {
          FilledValue(d, mapUsed, denom);
          OneMore(mapUsed[denom], nValue);
          mapUsed := mapUsed[denom := mapUsed[denom] + 1];
          nRemainingValue := nRemainingValue - nValue;
          AmountUsed := AmountUsed + nValue;
        }
      }
      TakeReached(rest - 1, nValue, held[denom], mapUsed[denom]);
      PassStep(d, held, rest - 1, tail, denom, mapUsed[denom]);
      TailOf(mapUsed, denom);
    }
    assert d[..|d|] == d && held[..|d|] == held;
  }

  /** Back up from the bottom: at most one more coin. */
  method TopUp(d: seq<nat>, nValueTarget: int, mapOfDenomsHeld: Counts, mapStrict: Counts, nRemaining: int, Amount: int)
    returns (mapUsed: Counts, AmountUsed: int)
    requires |mapOfDenomsHeld| == |d| == |mapStrict| && Positive(d)
    requires Amount == Value(d, mapStrict) && nRemaining == nValueTarget - Amount
    ensures mapUsed == Filled(d, mapOfDenomsHeld, mapStrict, nRemaining, 0)
    ensures AmountUsed == Value(d, mapUsed)
  {
    hide Value;
    mapUsed, AmountUsed := mapStrict, Amount;
    var nRemainingValue := nRemaining;
    for denom := 0 to |d|
      invariant mapUsed == mapStrict && AmountUsed == Amount && nRemainingValue == nRemaining
      invariant Filled(d, mapOfDenomsHeld, mapStrict, nRemaining, denom) == Filled(d, mapOfDenomsHeld, mapStrict, nRemaining, 0)
    {
      var nValue := d[denom];
      if nValue > nRemainingValue && mapUsed[denom] < mapOfDenomsHeld[denom] {
        FilledValue(d, mapUsed, denom);
        mapUsed := mapUsed[denom := mapUsed[denom] + 1];
        nRemainingValue := nRemainingValue - nValue;
        AmountUsed := AmountUsed + nValue;
      }
      if nRemainingValue < 0 {
        return;
      }
    }
  }

  /** Coins in both the spend and the change leave both. */
  method RemoveOverlap(d: seq<nat>, mapSpent: Counts, mapChange: Counts, Amount: int)
    returns (mapUsed: Counts, AmountUsed: int)
    requires |mapSpent| == |d| == |mapChange| && Positive(d) && Amount == Value(d, mapSpent)
    ensures mapUsed == Trimmed(mapSpent, mapChange) && AmountUsed == Value(d, mapUsed)
  {
    hide Value;
    mapUsed, AmountUsed := mapSpent, Amount;
    var mapAltChange := mapChange;
    for denom := 0 to |d|
      invariant |mapUsed| == |d| == |mapAltChange| && AmountUsed == Value(d, mapUsed)
      invariant forall i :: 0 <= i < denom ==> mapUsed[i] == Trimmed(mapSpent, mapChange)[i]
      invariant forall i :: denom <= i < |d| ==> mapUsed[i] == mapSpent[i] && mapAltChange[i] == mapChange[i]
    {
      while mapAltChange[denom] != 0 && mapUsed[denom] != 0
        invariant |mapUsed| == |d| == |mapAltChange| && AmountUsed == Value(d, mapUsed)
        invariant mapUsed[denom] <= mapSpent[denom] && mapAltChange[denom] <= mapChange[denom]
        invariant mapSpent[denom] - mapUsed[denom] == mapChange[denom] - mapAltChange[denom]
        invariant forall i :: 0 <= i < denom ==> mapUsed[i] == Trimmed(mapSpent, mapChange)[i]
        invariant forall i :: denom < i < |d| ==> mapUsed[i] == mapSpent[i] && mapAltChange[i] == mapChange[i]
        decreases mapUsed[denom]
      {
        ValueUpdate(d, mapUsed, denom, mapUsed[denom] - 1);
        mapUsed := mapUsed[denom := mapUsed[denom] - 1];
        mapAltChange := mapAltChange[denom := mapAltChange[denom] - 1];
        AmountUsed := AmountUsed - d[denom];
      }
    }
    assert mapUsed == Trimmed(mapSpent, mapChange);
  }

  /** The map handed in by reference is `mapIn`, and as it is left `mapOfDenomsUsed`. */
  method MinimizeChange(d: seq<nat>, nMaxNumberOfSpends: int, nChangeCount: int, nextToMaxDenom: int, nValueTarget: int,
                        mapOfDenomsHeld: Counts, mapIn: Counts) returns (count: int, mapOfDenomsUsed: Counts)
    requires |mapOfDenomsHeld| == |d| && Positive(d)
    ensures Choice(count, mapOfDenomsUsed)
      == Minimized(d, nMaxNumberOfSpends, nChangeCount, nextToMaxDenom, nValueTarget, mapOfDenomsHeld, mapIn)
  {
    var savedMapOfDenomsUsed := mapIn;
    var strict, nRemainingValue, Amount := StrictPass(d, nextToMaxDenom, nValueTarget, mapOfDenomsHeld);
    var topped, AmountUsed := TopUp(d, nValueTarget, mapOfDenomsHeld, strict, nRemainingValue, Amount);
    assert topped == Topped(d, mapOfDenomsHeld, nextToMaxDenom, nValueTarget);
    var nAltChangeAmount := AmountUsed - nValueTarget;
    var mapAltChange := GetChange(d, nAltChangeAmount);
    mapOfDenomsUsed, AmountUsed := RemoveOverlap(d, topped, mapAltChange, AmountUsed);
    assert AmountUsed == Needed(d, topped, nValueTarget);
    mapOfDenomsUsed := GetSpendCoins(d, AmountUsed, mapOfDenomsHeld);
    var nCoinCount := GetNumberOfCoinsUsed(mapOfDenomsUsed);
    nAltChangeAmount := AmountUsed - nValueTarget;
    mapAltChange := GetChange(d, nAltChangeAmount);
    var AltChangeCount := GetNumberOfCoinsUsed(mapAltChange);
    assert Choice(AltChangeCount, mapOfDenomsUsed) == Alternative(d, mapOfDenomsHeld, nextToMaxDenom, nValueTarget);
    if AltChangeCount < nChangeCount && nCoinCount <= nMaxNumberOfSpends {
      return AltChangeCount, mapOfDenomsUsed;
    } else {
      return nChangeCount, savedMapOfDenomsUsed;
    }
  }

  /** The overshooting pass of `calculateChange`. */
  method OverPass(d: seq<nat>, nValueTarget: int, mapOfDenomsHeld: Counts) returns (mapUsed: Counts, AmountUsed: int)
    requires |mapOfDenomsHeld| == |d| && Positive(d)
    ensures mapUsed == Over(d, mapOfDenomsHeld, nValueTarget) && AmountUsed == Value(d, mapUsed)
  {
    hide Worth;
    hide Over;
    hide Value;
    mapUsed := Zeros(|d|);
    var nRemainingValue := nValueTarget;
    AmountUsed := 0;
    ValueOfZeros(d);
    for denom := |d| downto 0
      invariant |mapUsed| == |d| && forall i :: 0 <= i < denom ==> mapUsed[i] == 0
      invariant Over(d[..denom], mapOfDenomsHeld[..denom], nRemainingValue) + mapUsed[denom..]
        == Over(d[..|d|], mapOfDenomsHeld[..|d|], nValueTarget)
      invariant AmountUsed == Value(d, mapUsed)
    {
      var nValue := d[denom];
      ghost var rest, tail := nRemainingValue, mapUsed[denom + 1..];
      OneMore(0, nValue);
      if mapOfDenomsHeld[denom] != 0 && nRemainingValue > 0 {
        var more := true;
        while more
          invariant |mapUsed| == |d| && (forall i :: 0 <= i < denom ==> mapUsed[i] == 0) && mapUsed[denom + 1..] == tail
          invariant mapUsed[denom] <= mapOfDenomsHeld[denom] && nRemainingValue == rest - Worth(mapUsed[denom], nValue)
          invariant more == (nRemainingValue > 0 && mapUsed[denom] < mapOfDenomsHeld[denom])
          invariant mapUsed[denom] > 0 ==> nRemainingValue + nValue > 0
          invariant AmountUsed == Value(d, mapUsed)
          decreases mapOfDenomsHeld[denom] - mapUsed[denom]
        {
          FilledValue(d, mapUsed, denom);
          OneMore(mapUsed[denom], nValue);
          mapUsed := mapUsed[denom := mapUsed[denom] + 1];
          AmountUsed := AmountUsed + nValue;
          nRemainingValue := nRemainingValue - nValue;
          more := nRemainingValue > 0 && mapUsed[denom] < mapOfDenomsHeld[denom];
        }
      }
      var t := mapUsed[denom];
      if t > 0 { OneMore(t - 1, nValue); }
      TakeOverReached(rest, nValue, mapOfDenomsHeld[denom], t);
      OverStep(d, mapOfDenomsHeld, rest, tail, denom, t);
      TailOf(mapUsed, denom);
      if nRemainingValue < 0 {
        OverRest(d[..denom], mapOfDenomsHeld[..denom], nRemainingValue);
        assert mapUsed[..denom] == Zeros(denom);
        assert mapUsed == mapUsed[..denom] + mapUsed[denom..];
        break;
      }
    }
    assert d[..|d|] == d && mapOfDenomsHeld[..|d|] == mapOfDenomsHeld;
  }

  lemma {:induction false} OverRest(d: seq<nat>, held: Counts, rest: int)
    requires |held| == |d| && Positive(d) && rest <= 0
    ensures Over(d, held, rest) == Zeros(|d|)
  {
    if d != [] {
      var k := |d| - 1;
      OverRest(d[..k], held[..k], rest);
      assert Over(d, held, rest) == Over(d[..k], held[..k], rest) + [0];
    }
  }

  method CalculateChange(d: seq<nat>, nMaxNumberOfSpends: int, nValueTarget: int, mapOfDenomsHeld: Counts)
    returns (count: int, mapOfDenomsUsed: Counts)
    requires |mapOfDenomsHeld| == |d| && Positive(d)
    ensures Choice(count, mapOfDenomsUsed) == Calculated(d, nMaxNumberOfSpends, nValueTarget, mapOfDenomsHeld)
  {
    hide Value;
    hide Change;
    hide Over;
    hide Count;
    hide Minimized;
    var minDenomOverTarget := FindOverTarget(d, nValueTarget, mapOfDenomsHeld);
    if minDenomOverTarget != ZQ_ERROR {
      mapOfDenomsUsed := Zeros(|d|)[minDenomOverTarget := 1];
      var mapChange := GetChange(d, d[minDenomOverTarget] - nValueTarget);
      var nChangeCount := GetNumberOfCoinsUsed(mapChange);
      var nextToMaxDenom := GetNextLowerDenomHeld(minDenomOverTarget, mapOfDenomsHeld);
      var newChangeCount;
      newChangeCount, mapOfDenomsUsed :=
        MinimizeChange(d, nMaxNumberOfSpends, nChangeCount, nextToMaxDenom, nValueTarget, mapOfDenomsHeld, mapOfDenomsUsed);
      if newChangeCount < nChangeCount {
        return newChangeCount, mapOfDenomsUsed;
      }
      return nChangeCount, Zeros(|d|)[minDenomOverTarget := 1];
    } else {
      var AmountUsed;
      mapOfDenomsUsed, AmountUsed := OverPass(d, nValueTarget, mapOfDenomsHeld);
      var mapChange := GetChange(d, AmountUsed - nValueTarget);
      var nMaxChangeCount := GetNumberOfCoinsUsed(mapChange);
      var maxDenomHeld := GetMaxDenomHeld(mapOfDenomsHeld);
      count, mapOfDenomsUsed :=
        MinimizeChange(d, nMaxNumberOfSpends, nMaxChangeCount, maxDenomHeld, nValueTarget, mapOfDenomsHeld, mapOfDenomsUsed);
      OverBranch(d, nMaxNumberOfSpends, nValueTarget, mapOfDenomsHeld);
    }
  }

  method FindOverTarget(d: seq<nat>, nValueTarget: int, mapOfDenomsHeld: Counts) returns (m: int)
    requires |mapOfDenomsHeld| == |d|
    ensures m == OverTarget(d, mapOfDenomsHeld, nValueTarget, 0)
  {
    m := ZQ_ERROR;
    for denom := 0 to |d|
      invariant OverTarget(d, mapOfDenomsHeld, nValueTarget, denom) == OverTarget(d, mapOfDenomsHeld, nValueTarget, 0)
    {
      if nValueTarget < d[denom] && mapOfDenomsHeld[denom] != 0 {
        return denom;
      }
    }
  }
}
