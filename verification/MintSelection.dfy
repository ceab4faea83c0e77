/**
 Picking actual mints (core/src/denomination_functions.cpp:91-147, 393-424): an exact
 selection from the unused mints on the list, with as few mints as possible.
 */
module MintSelection {
  import opened Arithmetic
  import opened Denominations
  import opened SpendFunctions

  datatype Mint = Mint(id: nat, denom: int, used: bool)

  function Unused(mints: seq<Mint>): (r: seq<Mint>)
  {
    if mints == [] then [] else
      var last := mints[|mints| - 1];
      Unused(mints[..|mints| - 1]) + if last.used then [] else [last]
  }

  function OfDenom(mints: seq<Mint>, k: int): seq<Mint> {
    if mints == [] then [] else
      var last := mints[|mints| - 1];
      OfDenom(mints[..|mints| - 1], k) + if last.denom == k then [last] else []
  }

  function Tally(mints: seq<Mint>, k: int): nat { |OfDenom(mints, k)| }

  /** How many unused mints of each of `n` denominations there are. */
  function Available(mints: seq<Mint>, n: nat): (r: Counts)
    ensures |r| == n && forall k :: 0 <= k < n ==> r[k] == Tally(Unused(mints), k)
  {
    seq(n, k requires 0 <= k < n => Tally(Unused(mints), k))
  }

  /** What a selection is worth; a denomination not on the list is worth nothing. */
  function MintWorth(d: seq<nat>, sel: seq<Mint>): nat {
    if sel == [] then 0 else
      var m := sel[|sel| - 1];
      MintWorth(d, sel[..|sel| - 1]) + if 0 <= m.denom < |d| then d[m.denom] else 0
  }

  /** Unused mints from the list, none of them twice. */
  predicate Selectable(mints: seq<Mint>, sel: seq<Mint>) {
    multiset(sel) <= multiset(Unused(mints))
  }

  predicate OnList(d: seq<nat>, mints: seq<Mint>) {
    forall i :: 0 <= i < |mints| ==> 0 <= mints[i].denom < |d|
  }

  /** For each denomination from the top, the first mints of it. */
  function Selection(mints: seq<Mint>, want: Counts): (r: seq<Mint>)
  {
    if want == [] then [] else
      var k := |want| - 1;
      FirstOf(OfDenom(Unused(mints), k), want[k]) + Selection(mints, want[..k])
  }

  // ---------------------------------------------------------------- tallies

  lemma UnusedLast(mints: seq<Mint>, m: Mint)
    ensures Unused(mints + [m]) == Unused(mints) + if m.used then [] else [m]
  {
    assert (mints + [m])[..|mints|] == mints;
  }

  lemma OfDenomLast(mints: seq<Mint>, m: Mint, k: int)
    ensures OfDenom(mints + [m], k) == OfDenom(mints, k) + if m.denom == k then [m] else []
  {
    assert (mints + [m])[..|mints|] == mints;
  }

  lemma WorthLast(d: seq<nat>, sel: seq<Mint>, m: Mint)
    ensures MintWorth(d, sel + [m]) == MintWorth(d, sel) + if 0 <= m.denom < |d| then d[m.denom] else 0
  {
    assert (sel + [m])[..|sel|] == sel;
  }

  lemma {:induction false} OfDenomConcat(a: seq<Mint>, b: seq<Mint>, k: int)
    ensures OfDenom(a + b, k) == OfDenom(a, k) + OfDenom(b, k)
  {
    if b == [] {
      assert a + b == a;
    } else {
      var init, m := b[..|b| - 1], b[|b| - 1];
      OfDenomConcat(a, init, k);
      assert a + b == (a + init) + [m];
      OfDenomLast(a + init, m, k);
      OfDenomLast(init, m, k);
      assert b == init + [m];
    }
  }

  lemma {:induction false} WorthConcat(d: seq<nat>, a: seq<Mint>, b: seq<Mint>)
    ensures MintWorth(d, a + b) == MintWorth(d, a) + MintWorth(d, b)
  {
    if b == [] {
      assert a + b == a;
    } else {
      var init, m := b[..|b| - 1], b[|b| - 1];
      WorthConcat(d, a, init);
      assert a + b == (a + init) + [m];
      WorthLast(d, a + init, m);
    }
  }

  /** A selection holds no more of a denomination than what it is selected from. */
  lemma {:induction false} SubTally(sel: seq<Mint>, pool: seq<Mint>, k: int)
    requires multiset(sel) <= multiset(pool)
    ensures Tally(sel, k) <= Tally(pool, k)
    decreases |sel|
  {
    if sel != [] {
      var init, m := sel[..|sel| - 1], sel[|sel| - 1];
      assert sel == init + [m];
      assert m in multiset(pool);
      var i :| 0 <= i < |pool| && pool[i] == m;
      var front, back := pool[..i], pool[i + 1..];
      assert pool == front + [m] + back;
      RemovedStays(init, front + back, m, multiset(sel), multiset(pool));
      SubTally(init, front + back, k);
      OfDenomConcat(front, back, k);
      OfDenomConcat(front + [m], back, k);
      OfDenomLast(front, m, k);
      OfDenomLast(init, m, k);
    }
  }

  lemma RemovedStays(a: seq<Mint>, b: seq<Mint>, m: Mint, sa: multiset<Mint>, sb: multiset<Mint>)
    requires sa == multiset(a) + multiset{m} && sb == multiset(b) + multiset{m} && sa <= sb
    ensures multiset(a) <= multiset(b)
  {
    forall x: Mint | x in multiset(a)
      ensures multiset(a)[x] <= multiset(b)[x]
    {
      assert sa[x] <= sb[x];
    }
  }

  /** The counts of a selection. */
  function CountsOf(sel: seq<Mint>, n: nat): (r: Counts)
    ensures |r| == n && forall k :: 0 <= k < n ==> r[k] == Tally(sel, k)
  {
    seq(n, k requires 0 <= k < n => Tally(sel, k))
  }

  /** The counts say what a selection is worth and how many mints it has. */
  lemma {:induction false} CountsTell(d: seq<nat>, sel: seq<Mint>)
    requires OnList(d, sel)
    ensures Value(d, CountsOf(sel, |d|)) == MintWorth(d, sel) && Count(CountsOf(sel, |d|)) == |sel|
  {
    if sel == [] {
      ValueOfZeros(d);
      assert CountsOf(sel, |d|) == Zeros(|d|);
    } else {
      var init, m := sel[..|sel| - 1], sel[|sel| - 1];
      CountsTell(d, init);
      var c := CountsOf(init, |d|);
      assert CountsOf(sel, |d|) == c[m.denom := c[m.denom] + 1];
      ValueUpdate(d, c, m.denom, c[m.denom] + 1);
      CountUpdate(c, m.denom, c[m.denom] + 1);
    }
  }

  lemma {:induction false} CountUpdate(c: Counts, i: nat, t: nat)
    requires i < |c|
    ensures Count(c[i := t]) == Count(c) - c[i] + t
  {
    var k := |c| - 1;
    if i < k {
      CountUpdate(c[..k], i, t);
      assert c[i := t][..k] == c[..k][i := t];
    } else {
      assert c[i := t][..k] == c[..k];
    }
  }

  // ---------------------------------------------------------------- what the selection is

  lemma {:induction false} OfDenomIs(mints: seq<Mint>, k: int)
    ensures forall i :: 0 <= i < Tally(mints, k) ==> OfDenom(mints, k)[i].denom == k && OfDenom(mints, k)[i] in mints
  {
    if mints != [] { OfDenomIs(mints[..|mints| - 1], k); }
  }

  lemma {:induction false} WorthOfEqual(d: seq<nat>, sel: seq<Mint>, k: nat)
    requires k < |d| && forall i :: 0 <= i < |sel| ==> sel[i].denom == k
    ensures MintWorth(d, sel) == Worth(|sel|, d[k])
  {
    if sel != [] {
      WorthOfEqual(d, sel[..|sel| - 1], k);
      OneMore(|sel| - 1, d[k]);
    } else {
      OneMore(0, d[k]);
    }
  }

  lemma {:induction false} SelectionWorth(d: seq<nat>, mints: seq<Mint>, want: Counts)
    requires |want| <= |d| && forall k :: 0 <= k < |want| ==> want[k] <= Tally(Unused(mints), k)
    ensures MintWorth(d, Selection(mints, want)) == Value(d[..|want|], want)
    ensures |Selection(mints, want)| == Count(want)
  {
    hide Worth;
    hide MintWorth;
    if want == [] {
      WorthOfNothing(d);
    } else {
      var k := |want| - 1;
      var pool := OfDenom(Unused(mints), k);
      OfDenomIs(Unused(mints), k);
      SelectionWorth(d, mints, want[..k]);
      assert d[..k + 1][..k] == d[..k];
      WorthOfEqual(d, pool[..want[k]], k);
      WorthConcat(d, pool[..want[k]], Selection(mints, want[..k]));
    }
  }

  lemma {:induction false} SelectionDenoms(mints: seq<Mint>, want: Counts)
    ensures forall m: Mint :: m in Selection(mints, want) ==> 0 <= m.denom < |want|
  {
    if want != [] {
      OfDenomIs(Unused(mints), |want| - 1);
      SelectionDenoms(mints, want[..|want| - 1]);
    }
  }

  lemma {:induction false} OfEqual(sel: seq<Mint>, k: int, j: int)
    requires forall i :: 0 <= i < |sel| ==> sel[i].denom == k
    ensures OfDenom(sel, j) == if j == k then sel else []
    decreases |sel|
  {
    if sel != [] {
      OfEqual(sel[..|sel| - 1], k, j);
      assert sel == sel[..|sel| - 1] + [sel[|sel| - 1]];
    }
  }

  /** Denominations fall along the selection, and those of one denomination are the first unused ones on the list. */
  ghost predicate FirstsFromTheTop(mints: seq<Mint>, sel: seq<Mint>) {
    && (forall i, j :: 0 <= i < j < |sel| ==> sel[i].denom >= sel[j].denom)
    && (forall k :: OfDenom(sel, k) <= OfDenom(Unused(mints), k))
  }

  /** A block of one denomination in front of lower ones. */
  lemma TopAndLow(mints: seq<Mint>, top: seq<Mint>, low: seq<Mint>, k: nat)
    requires top <= OfDenom(Unused(mints), k) && FirstsFromTheTop(mints, low)
    requires forall m: Mint :: m in low ==> m.denom < k
    requires forall j :: j >= k ==> OfDenom(low, j) == []
    ensures FirstsFromTheTop(mints, top + low)
    ensures forall j :: j > k ==> OfDenom(top + low, j) == []
  {
    hide OfDenom, Unused;
    OfDenomIs(Unused(mints), k);
    assert forall i :: 0 <= i < |top| ==> top[i] == OfDenom(Unused(mints), k)[i];
    forall j
      ensures OfDenom(top + low, j) <= OfDenom(Unused(mints), j)
      ensures j > k ==> OfDenom(top + low, j) == []
    {
      OfDenomConcat(top, low, j);
      OfEqual(top, k, j);
      assert j != k ==> OfDenom(top + low, j) == OfDenom(low, j);
      assert j == k ==> OfDenom(top + low, j) == top;
    }
  }

  lemma {:induction false} SelectionPicks(mints: seq<Mint>, want: Counts)
    ensures FirstsFromTheTop(mints, Selection(mints, want))
    ensures forall k :: k >= |want| ==> OfDenom(Selection(mints, want), k) == []
    decreases |want|
  {
    hide *;
    if want == [] {
      NothingPicked(mints);
    } else {
      var k := |want| - 1;
      SelectionIs(mints, want);
      SelectionPicks(mints, want[..k]);
      SelectionDenoms(mints, want[..k]);
      var top := FirstOf(OfDenom(Unused(mints), k), want[k]);
      FirstPrefix(OfDenom(Unused(mints), k), want[k]);
      TopAndLow(mints, top, Selection(mints, want[..k]), k);
    }
  }

  lemma NothingPicked(mints: seq<Mint>)
    ensures Selection(mints, []) == [] && FirstsFromTheTop(mints, []) && forall k :: OfDenom([], k) == []
  {
  }

  lemma FirstPrefix(pool: seq<Mint>, want: nat)
    ensures FirstOf(pool, want) <= pool
  {
  }

  lemma PrefixTakes(pool: seq<Mint>, n: nat, m: Mint)
    requires n <= |pool|
    ensures multiset(pool[..n])[m] <= multiset(pool)[m]
  {
    assert pool == pool[..n] + pool[n..];
  }

  /** The first `want` mints of the pool, or all of them. */
  function FirstOf(pool: seq<Mint>, want: nat): seq<Mint> {
    if want <= |pool| then pool[..want] else pool
  }

  lemma FirstTakes(pool: seq<Mint>, want: nat, m: Mint)
    ensures m in FirstOf(pool, want) ==> m in pool
    ensures multiset(FirstOf(pool, want))[m] <= multiset(pool)[m]
  {
    if want <= |pool| { PrefixTakes(pool, want, m); }
  }

  lemma Both(a: seq<Mint>, b: seq<Mint>, m: Mint)
    ensures multiset(a + b)[m] == multiset(a)[m] + multiset(b)[m]
    ensures m in a + b <==> m in a || m in b
  {
  }

  lemma SelectionIs(mints: seq<Mint>, want: Counts)
    requires want != []
    ensures var k := |want| - 1;
      Selection(mints, want) == FirstOf(OfDenom(Unused(mints), k), want[k]) + Selection(mints, want[..k])
  {
    hide OfDenom;
    hide Unused;
    hide FirstOf;
  }

  lemma {:induction false} SelectionTakes(mints: seq<Mint>, want: Counts, m: Mint)
    requires m in Selection(mints, want)
    ensures multiset(Selection(mints, want))[m] <= multiset(OfDenom(Unused(mints), m.denom))[m]
  {
    assert want != [];
    hide *;
    var k := |want| - 1;
    var pool, low := OfDenom(Unused(mints), k), Selection(mints, want[..k]);
    SelectionIs(mints, want);
    Both(FirstOf(pool, want[k]), low, m);
    FirstTakes(pool, want[k], m);
    OfDenomHas(Unused(mints), k, m);
    SelectionDenoms(mints, want[..k]);
    if m.denom == k {
      assert m !in low;
    } else {
      assert m !in FirstOf(pool, want[k]);
      SelectionTakes(mints, want[..k], m);
    }
  }

  lemma OfDenomHas(mints: seq<Mint>, k: int, m: Mint)
    ensures m in OfDenom(mints, k) ==> m.denom == k
  {
    OfDenomIs(mints, k);
  }

  lemma {:induction false} OfDenomSub(mints: seq<Mint>, k: int)
    ensures multiset(OfDenom(mints, k)) <= multiset(mints)
    decreases |mints|
  {
    if mints != [] {
      var init, last := mints[..|mints| - 1], mints[|mints| - 1];
      OfDenomSub(init, k);
      assert mints == init + [last];
      assert OfDenom(mints, k) == OfDenom(init, k) + if last.denom == k then [last] else [];
      hide OfDenom;
    }
  }

  lemma SelectionSelectable(d: seq<nat>, mints: seq<Mint>, want: Counts)
    requires |d| == |want| && Within(want, Available(mints, |d|))
    ensures Selectable(mints, Selection(mints, want))
    ensures MintWorth(d, Selection(mints, want)) == Value(d, want) && |Selection(mints, want)| == Count(want)
  {
    SelectionWorth(d, mints, want);
    assert d[..|want|] == d;
    forall m: Mint | m in Selection(mints, want)
      ensures multiset(Selection(mints, want))[m] <= multiset(Unused(mints))[m]
    {
      SelectionTakes(mints, want, m);
      OfDenomSub(Unused(mints), m.denom);
    }
  }

  // ---------------------------------------------------------------- exactness

  lemma {:induction false} UnusedOnList(d: seq<nat>, mints: seq<Mint>)
    requires OnList(d, mints)
    ensures OnList(d, Unused(mints))
  {
    if mints != [] { UnusedOnList(d, mints[..|mints| - 1]); }
  }

  lemma SelectableCounts(d: seq<nat>, mints: seq<Mint>, sel: seq<Mint>)
    requires OnList(d, mints) && Selectable(mints, sel)
    ensures Within(CountsOf(sel, |d|), Available(mints, |d|))
    ensures Value(d, CountsOf(sel, |d|)) == MintWorth(d, sel) && Count(CountsOf(sel, |d|)) == |sel|
  {
    UnusedOnList(d, mints);
    forall i | 0 <= i < |sel|
      ensures 0 <= sel[i].denom < |d|
    {
      assert sel[i] in multiset(sel);
      assert sel[i] in Unused(mints);
    }
    CountsTell(d, sel);
    forall k | 0 <= k < |d|
      ensures Tally(sel, k) <= Tally(Unused(mints), k)
    {
      SubTally(sel, Unused(mints), k);
    }
  }

  /**
   The greedy selection is worth the target exactly when some selection of unused mints
   is, and then no such selection has fewer mints.
   */
  lemma IdealIsPossible(d: seq<nat>, mints: seq<Mint>, target: int)
    requires Chain(d) && OnList(d, mints)
    ensures var want := Greedy(d, Available(mints, |d|), target);
      && (Value(d, want) == target <==> exists sel :: Selectable(mints, sel) && MintWorth(d, sel) == target)
      && (forall sel :: Selectable(mints, sel) && MintWorth(d, sel) == target ==> |Selection(mints, want)| <= |sel|)
  {
    var held := Available(mints, |d|);
    var want := Greedy(d, held, target);
    GreedyFits(d, held, target);
    SelectionSelectable(d, mints, want);
    assert Selectable(mints, Selection(mints, want));
    forall sel | Selectable(mints, sel) && MintWorth(d, sel) == target
      ensures Value(d, want) == target && |Selection(mints, want)| <= |sel|
    {
      SelectableCounts(d, mints, sel);
      GreedyIsBest(d, held, target, CountsOf(sel, |d|));
    }
  }

  // ---------------------------------------------------------------- the functions

  lemma PrefixTally(mints: seq<Mint>, i: nat, k: int)
    requires i < |mints|
    ensures Tally(Unused(mints[..i + 1]), k) == Tally(Unused(mints[..i]), k) + if !mints[i].used && mints[i].denom == k then 1 else 0
  {
    assert mints[..i + 1] == mints[..i] + [mints[i]];
    UnusedLast(mints[..i], mints[i]);
    if !mints[i].used {
      OfDenomLast(Unused(mints[..i]), mints[i], k);
    } else {
      assert Unused(mints[..i]) + [] == Unused(mints[..i]);
    }
  }

  lemma {:induction false} TallyGrows(mints: seq<Mint>, i: nat, k: int)
    requires i <= |mints|
    ensures Tally(Unused(mints[..i]), k) <= Tally(Unused(mints), k)
    decreases |mints| - i
  {
    if i < |mints| {
      PrefixTally(mints, i, k);
      TallyGrows(mints, i + 1, k);
    } else {
      assert mints[..i] == mints;
    }
  }

  /** The scan of the mints for one denomination. */
  method TakeMints(coin: int, nValue: nat, listMints: seq<Mint>, rest: int) returns (taken: nat, nRemainingValue: int)
    requires nValue > 0
    ensures taken == Take(rest, nValue, Tally(Unused(listMints), coin)) && nRemainingValue == rest - Worth(taken, nValue)
  {
    hide Worth;
    hide Take;
    hide Tally;
    taken, nRemainingValue := 0, rest;
    OneMore(0, nValue);
    NothingBefore(listMints, coin);
    var i := 0;
    while i < |listMints|
      invariant i <= |listMints| && taken <= Tally(Unused(listMints[..i]), coin)
      invariant nRemainingValue >= nValue ==> taken == Tally(Unused(listMints[..i]), coin)
      invariant nRemainingValue == rest - Worth(taken, nValue)
      invariant taken > 0 ==> nRemainingValue >= 0
    {
      var mint := listMints[i];
      PrefixTally(listMints, i, coin);
      i := i + 1;
      if mint.used { continue; }
      if nRemainingValue >= nValue && coin == mint.denom {
        OneMore(taken, nValue);
        taken := taken + 1;
        nRemainingValue := nRemainingValue - nValue;
      }
      if nRemainingValue < nValue { break; }
    }
    TallyGrows(listMints, i, coin);
    assert i == |listMints| ==> listMints[..i] == listMints;
    TakeReached(rest, nValue, Tally(Unused(listMints), coin), taken);
  }

  /** The map of coins used starts empty, as in the one call there is. */
  method GetIdealSpends(d: seq<nat>, nValueTarget: int, listMints: seq<Mint>)
    returns (exact: bool, mapOfDenomsUsed: Counts)
    requires Positive(d)
    ensures mapOfDenomsUsed == Greedy(d, Available(listMints, |d|), nValueTarget)
    ensures exact <==> Value(d, mapOfDenomsUsed) == nValueTarget
  {
    hide Worth;
    hide Greedy;
    hide Value;
    ghost var held := Available(listMints, |d|);
    mapOfDenomsUsed := Zeros(|d|);
    var nRemainingValue := nValueTarget;
    ValueOfZeros(d);
    for coin := |d| downto 0
      invariant |mapOfDenomsUsed| == |d| && forall i :: 0 <= i < coin ==> mapOfDenomsUsed[i] == 0
      invariant Greedy(d[..coin], held[..coin], nRemainingValue) + mapOfDenomsUsed[coin..]
        == Greedy(d[..|d|], held[..|d|], nValueTarget)
      invariant nRemainingValue == nValueTarget - Value(d, mapOfDenomsUsed)
    {
      ghost var rest, tail := nRemainingValue, mapOfDenomsUsed[coin + 1..];
      var taken;
      taken, nRemainingValue := TakeMints(coin, d[coin], listMints, nRemainingValue);
      TakenValue(d, mapOfDenomsUsed, coin, taken);
      mapOfDenomsUsed := mapOfDenomsUsed[coin := taken];
      PassStep(d, held, rest, tail, coin, taken);
      assert mapOfDenomsUsed[coin..] == [taken] + tail;
    }
    exact := nRemainingValue == 0;
    assert d[..|d|] == d && held[..|d|] == held;
  }

  lemma TakenValue(d: seq<nat>, used: Counts, k: nat, taken: nat)
    requires |used| == |d| && k < |d| && used[k] == 0
    ensures Value(d, used[k := taken]) == Value(d, used) + Worth(taken, d[k])
  {
    ValueUpdate(d, used, k, taken);
  }

  lemma NothingBefore(mints: seq<Mint>, k: int)
    ensures Tally(Unused(mints[..0]), k) == 0
  {
  }

  /** The scan for one denomination after `i` mints. */
  function Scanned(mints: seq<Mint>, i: nat, k: int, want: nat): seq<Mint>
    requires i <= |mints|
  {
    FirstOf(OfDenom(Unused(mints[..i]), k), want)
  }

  lemma ScannedStep(mints: seq<Mint>, i: nat, k: int, want: nat)
    requires i < |mints|
    ensures var m := mints[i];
      Scanned(mints, i + 1, k, want) == Scanned(mints, i, k, want)
        + if !m.used && m.denom == k && |Scanned(mints, i, k, want)| < want then [m] else []
  {
    var m := mints[i];
    assert mints[..i + 1] == mints[..i] + [m];
    UnusedLast(mints[..i], m);
    if !m.used {
      OfDenomLast(Unused(mints[..i]), m, k);
    } else {
      assert Unused(mints[..i]) + [] == Unused(mints[..i]);
    }
  }

  lemma SelectionStep(mints: seq<Mint>, want: Counts, k: nat)
    requires k < |want|
    ensures Selection(mints, want[..k + 1]) == Scanned(mints, |mints|, k, want[k]) + Selection(mints, want[..k])
  {
    hide OfDenom, Unused, FirstOf, Selection;
    assert want[..k + 1][..k] == want[..k] && mints[..|mints|] == mints;
    SelectionIs(mints, want[..k + 1]);
  }

  /** The inner loop: one scan of the mints for one denomination. */
  method ScanMints(d: seq<nat>, listMints: seq<Mint>, coin: nat, before: seq<Mint>, mapOfDenomsIn: Counts, nValueIn: nat)
    returns (vSelectedMints: seq<Mint>, mapOfDenomsUsed: Counts, nCoinsSpentValue: nat)
    requires coin < |d| == |mapOfDenomsIn| && nValueIn == MintWorth(d, before)
    ensures vSelectedMints == before + Scanned(listMints, |listMints|, coin, mapOfDenomsIn[coin])
    ensures |Scanned(listMints, |listMints|, coin, mapOfDenomsIn[coin])| <= mapOfDenomsIn[coin]
    ensures mapOfDenomsUsed == mapOfDenomsIn[coin := mapOfDenomsIn[coin] - |Scanned(listMints, |listMints|, coin, mapOfDenomsIn[coin])|]
    ensures nCoinsSpentValue == MintWorth(d, vSelectedMints)
  {
    hide Scanned;
    hide MintWorth;
    var want := mapOfDenomsIn[coin];
    vSelectedMints, mapOfDenomsUsed, nCoinsSpentValue := before, mapOfDenomsIn, nValueIn;
    ScannedNothing(listMints, coin, want);
    for i := 0 to |listMints|
      invariant |mapOfDenomsUsed| == |d| && |Scanned(listMints, i, coin, want)| <= want
      invariant mapOfDenomsUsed == mapOfDenomsIn[coin := want - |Scanned(listMints, i, coin, want)|]
      invariant vSelectedMints == before + Scanned(listMints, i, coin, want)
      invariant nCoinsSpentValue == MintWorth(d, vSelectedMints)
    {
      var mint := listMints[i];
      ScannedStep(listMints, i, coin, want);
      if !mint.used && coin == mint.denom && mapOfDenomsUsed[coin] != 0 {
        WorthLast(d, vSelectedMints, mint);
        vSelectedMints := vSelectedMints + [mint];
        nCoinsSpentValue := nCoinsSpentValue + d[coin];
        mapOfDenomsUsed := mapOfDenomsUsed[coin := mapOfDenomsUsed[coin] - 1];
      }
    }
  }

  method GetSpends(d: seq<nat>, listMints: seq<Mint>, mapOfDenomsIn: Counts)
    returns (vSelectedMints: seq<Mint>, mapOfDenomsUsed: Counts, nCoinsSpentValue: nat)
    requires |mapOfDenomsIn| == |d| && Within(mapOfDenomsIn, Available(listMints, |d|))
    ensures vSelectedMints == Selection(listMints, mapOfDenomsIn)
    ensures mapOfDenomsUsed == Zeros(|d|) && nCoinsSpentValue == MintWorth(d, vSelectedMints)
  {
    hide Selection;
    hide Scanned;
    hide MintWorth;
    mapOfDenomsUsed := mapOfDenomsIn;
    vSelectedMints, nCoinsSpentValue := [], 0;
    assert mapOfDenomsIn[..|d|] == mapOfDenomsIn && MintWorth(d, []) == 0 by { WorthOfNothing(d); }
    for coin := |d| downto 0
      invariant |mapOfDenomsUsed| == |d|
      invariant forall j :: 0 <= j < |d| ==> mapOfDenomsUsed[j] == if j < coin then mapOfDenomsIn[j] else 0
      invariant vSelectedMints + Selection(listMints, mapOfDenomsIn[..coin]) == Selection(listMints, mapOfDenomsIn)
      invariant nCoinsSpentValue == MintWorth(d, vSelectedMints)
    {
      ghost var before, want := vSelectedMints, mapOfDenomsIn[coin];
      var more := true;
      while more
        invariant |mapOfDenomsUsed| == |d|
        invariant forall j :: 0 <= j < |d| && j != coin ==> mapOfDenomsUsed[j] == if j < coin then mapOfDenomsIn[j] else 0
        invariant more ==> vSelectedMints == before && mapOfDenomsUsed[coin] == want
        invariant !more ==> mapOfDenomsUsed[coin] == 0 && vSelectedMints == before + Scanned(listMints, |listMints|, coin, want)
        invariant nCoinsSpentValue == MintWorth(d, vSelectedMints)
        decreases if more then 1 else 0
      {
        vSelectedMints, mapOfDenomsUsed, nCoinsSpentValue := ScanMints(d, listMints, coin, vSelectedMints, mapOfDenomsUsed, nCoinsSpentValue);
        ScannedAll(listMints, coin, want);
        more := mapOfDenomsUsed[coin] != 0;
      }
      SelectionStep(listMints, mapOfDenomsIn, coin);
    }
    SelectionOfNothing(listMints, mapOfDenomsIn);
  }

  lemma WorthOfNothing(d: seq<nat>)
    ensures MintWorth(d, []) == 0
  {
  }

  lemma ScannedNothing(mints: seq<Mint>, k: int, want: nat)
    ensures Scanned(mints, 0, k, want) == []
  {
  }

  lemma ScannedAll(mints: seq<Mint>, k: int, want: nat)
    requires want <= Tally(Unused(mints), k)
    ensures |Scanned(mints, |mints|, k, want)| == want
  {
    assert mints[..|mints|] == mints;
  }

  lemma SelectionOfNothing(mints: seq<Mint>, want: Counts)
    ensures Selection(mints, want[..0]) == []
  {
  }

  /**
   The selection that the wallet asks for.  When the target can be met exactly, the mints
   meet it with as few as possible; `nNeededSpends` tells when that is still too many.
   */
  method SelectMintsFromList(d: seq<nat>, nValueTarget: int, nSelectedIn: int, nMaxNumberOfSpends: int, listMints: seq<Mint>)
    returns (vSelectedMints: seq<Mint>, nSelectedValue: int, nNeededSpends: nat)
    requires Chain(d) && OnList(d, listMints)
    ensures Selectable(listMints, vSelectedMints)
    ensures forall i, j :: 0 <= i < j < |vSelectedMints| ==> vSelectedMints[i].denom >= vSelectedMints[j].denom
    ensures forall k :: OfDenom(vSelectedMints, k) <= OfDenom(Unused(listMints), k)
    ensures (exists sel :: Selectable(listMints, sel) && MintWorth(d, sel) == nValueTarget) ==>
      && nSelectedValue == nValueTarget == MintWorth(d, vSelectedMints)
      && (forall sel :: Selectable(listMints, sel) && MintWorth(d, sel) == nValueTarget ==> |vSelectedMints| <= |sel|)
      && var most := if nMaxNumberOfSpends < 0 then nMaxNumberOfSpends + 0x1_0000_0000_0000_0000 else nMaxNumberOfSpends;
         nNeededSpends == if |vSelectedMints| <= most then 0 else |vSelectedMints|
    ensures !(exists sel :: Selectable(listMints, sel) && MintWorth(d, sel) == nValueTarget) ==>
      vSelectedMints == [] && nSelectedValue == nSelectedIn && nNeededSpends == 0
  {
    vSelectedMints, nNeededSpends, nSelectedValue := [], 0, nSelectedIn;
    var fCanMeetExactly, mapOfDenomsUsed := GetIdealSpends(d, nValueTarget, listMints);
    IdealIsPossible(d, listMints, nValueTarget);
    GreedyFits(d, Available(listMints, |d|), nValueTarget);
    if fCanMeetExactly {
      nSelectedValue := nValueTarget;
      SelectionSelectable(d, listMints, mapOfDenomsUsed);
      SelectionPicks(listMints, mapOfDenomsUsed);
      var left;
      vSelectedMints, left, nSelectedValue := GetSpends(d, listMints, mapOfDenomsUsed);
      // The comparison is one of sizes, to which a negative number is a large one.
      var most := if nMaxNumberOfSpends < 0 then nMaxNumberOfSpends + 0x1_0000_0000_0000_0000 else nMaxNumberOfSpends;
      if |vSelectedMints| <= most {
        return;
      } else {
        nNeededSpends := |vSelectedMints|;
      }
    }
  }
}
