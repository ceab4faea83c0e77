/**
 The arithmetic of coins in fixed denominations (core/src/denomination_functions.cpp).
 The list of denominations is a parameter: values from small to large, each dividing
 the next.  A denomination is named by its position in the list, and -1 stands for
 ZQ_ERROR.  A map from denominations to counts is a sequence of counts.
 */
module Denominations {
  import opened Arithmetic

  type Counts = seq<nat>

  /** What libzerocoin::zerocoinDenomList promises. */
  ghost predicate Chain(d: seq<nat>) {
    && (forall i :: 0 <= i < |d| ==> d[i] > 0)
    && (forall i, j :: 0 <= i < j < |d| ==> d[i] < d[j])
    && (forall i, j :: 0 <= i < j < |d| ==> d[j] % d[i] == 0)
  }

  function Zeros(n: nat): (r: Counts)
    ensures |r| == n && forall i :: 0 <= i < n ==> r[i] == 0
  {
    seq(n, _ => 0)
  }

  function Worth(count: nat, v: nat): nat { count * v }

  function Value(d: seq<nat>, c: Counts): nat
    requires |c| == |d|
  {
    if c == [] then 0 else Value(d[..|d| - 1], c[..|c| - 1]) + Worth(c[|c| - 1], d[|d| - 1])
  }

  function Count(c: Counts): nat {
    if c == [] then 0 else Count(c[..|c| - 1]) + c[|c| - 1]
  }

  predicate Within(c: Counts, held: Counts) {
    |c| == |held| && forall i :: 0 <= i < |c| ==> c[i] <= held[i]
  }

  function Min(a: nat, b: nat): nat { if a < b then a else b }

  /** How many coins of value `v` a pass takes while the rest is at least `v`. */
  function Take(rest: int, v: nat, held: nat): nat
    requires v > 0
  {
    if rest < v then 0 else Min(held, rest / v)
  }

  function TakeAll(rest: int, v: nat): nat
    requires v > 0
  {
    if rest < v then 0 else rest / v
  }

  /** How many coins a pass takes while anything is left to pay. */
  function TakeOver(rest: int, v: nat, held: nat): nat
    requires v > 0
  {
    if rest <= 0 then 0 else Min(held, (rest - 1) / v + 1)
  }

  /** The bounded pass from the largest denomination down. */
  function Greedy(d: seq<nat>, held: Counts, target: int): (r: Counts)
    requires |held| == |d| && forall i :: 0 <= i < |d| ==> d[i] > 0
    ensures |r| == |d|
  {
    if d == [] then [] else
      var k := |d| - 1;
      var t := Take(target, d[k], held[k]);
      Greedy(d[..k], held[..k], target - Worth(t, d[k])) + [t]
  }

  /** The same pass without a bound. */
  function Change(d: seq<nat>, target: int): (r: Counts)
    requires forall i :: 0 <= i < |d| ==> d[i] > 0
    ensures |r| == |d|
  {
    if d == [] then [] else
      var k := |d| - 1;
      var t := TakeAll(target, d[k]);
      Change(d[..k], target - Worth(t, d[k])) + [t]
  }

  /** The pass that may overshoot with its last coin. */
  function Over(d: seq<nat>, held: Counts, target: int): (r: Counts)
    requires |held| == |d| && forall i :: 0 <= i < |d| ==> d[i] > 0
    ensures |r| == |d|
  {
    if d == [] then [] else
      var k := |d| - 1;
      var t := TakeOver(target, d[k], held[k]);
      Over(d[..k], held[..k], target - Worth(t, d[k])) + [t]
  }

  // ---------------------------------------------------------------- counting coins

  lemma {:induction false} ValueUpdate(d: seq<nat>, c: Counts, i: nat, t: nat)
    requires |c| == |d| && i < |c|
    ensures Value(d, c[i := t]) == Value(d, c) + (t - c[i]) * d[i]
    decreases |d|
  {
    var k := |c| - 1;
    if i < k {
      ValueUpdate(d[..k], c[..k], i, t);
      assert c[i := t][..k] == c[..k][i := t];
    } else {
      assert c[i := t][..k] == c[..k];
      assert (t - c[i]) * d[i] == t * d[i] - c[i] * d[i];
    }
  }

  lemma {:induction false} ValueOfZeros(d: seq<nat>)
    ensures Value(d, Zeros(|d|)) == 0 && Count(Zeros(|d|)) == 0
    decreases |d|
  {
    if d != [] {
      var k := |d| - 1;
      ValueOfZeros(d[..k]);
      assert Zeros(|d|)[..k] == Zeros(k);
    }
  }

  lemma {:induction false} ValueMonotone(d: seq<nat>, c: Counts, h: Counts)
    requires |c| == |d| && Within(c, h)
    ensures Value(d, c) <= Value(d, h)
    decreases |d|
  {
    if d != [] {
      var k := |d| - 1;
      ValueMonotone(d[..k], c[..k], h[..k]);
      MulMonotone(c[k], h[k], d[k]);
    }
  }

  function Minus(c: Counts, v: Counts): (r: Counts)
    requires Within(v, c)
    ensures |r| == |c| && Within(r, c)
  {
    seq(|c|, i requires 0 <= i < |c| => c[i] - v[i])
  }

  lemma {:induction false} ValueMinus(d: seq<nat>, c: Counts, v: Counts)
    requires |c| == |d| && Within(v, c)
    ensures Value(d, Minus(c, v)) == Value(d, c) - Value(d, v)
    ensures Count(Minus(c, v)) == Count(c) - Count(v)
    decreases |d|
  {
    if d != [] {
      var k := |d| - 1;
      ValueMinus(d[..k], c[..k], v[..k]);
      assert Minus(c, v)[..k] == Minus(c[..k], v[..k]);
      WorthSplits(v[k], c[k] - v[k], d[k]);
      hide Worth;
    }
  }

  /** Small coins are many: value `m * v` takes at least `m` coins of value at most `v`. */
  lemma {:induction false} ManySmall(d: seq<nat>, c: Counts, v: nat)
    requires |c| == |d| && forall i :: 0 <= i < |d| ==> d[i] <= v
    ensures Value(d, c) <= Worth(Count(c), v)
    decreases |d|
  {
    hide Worth;
    WorthSplits(0, 0, v);
    if d != [] {
      var k := |d| - 1;
      ManySmall(d[..k], c[..k], v);
      WorthGrows(c[k], d[k], v);
      WorthSplits(Count(c[..k]), c[k], v);
    }
  }

  lemma WorthGrows(n: nat, a: nat, b: nat)
    requires a <= b
    ensures Worth(n, a) <= Worth(n, b)
  {
    MulMonotone(a, b, n);
    Commute(a, n);
    Commute(b, n);
  }

  lemma ValueSplit(d: seq<nat>, low: Counts, t: nat, k: nat)
    requires |d| == k + 1 && |low| == k
    ensures Value(d, low + [t]) == Value(d[..k], low) + Worth(t, d[k])
    ensures Count(low + [t]) == Count(low) + t
  {
    assert (low + [t])[..k] == low;
  }

  // ---------------------------------------------------------------- the bounded pass

  lemma TakeFits(rest: int, v: nat, held: nat)
    requires v > 0
    ensures var t := Take(rest, v, held);
      && t <= held
      && (rest >= 0 ==> Worth(t, v) <= rest)
      && (rest < 0 ==> t == 0 && Worth(t, v) == 0)
      && (t < held ==> rest - Worth(t, v) < v)
  {
    if rest >= 0 {
      var q := rest / v;
      assert rest == q * v + rest % v;
      MulMonotone(Take(rest, v, held), q, v);
    }
  }

  lemma TakeIsMost(rest: nat, v: nat, held: nat, u: nat)
    requires v > 0 && u <= held && Worth(u, v) <= rest
    ensures u <= Take(rest, v, held)
  {
    FitsQuotient(rest, v, u);
    if rest < v && u > 0 { MulMonotone(1, u, v); }
  }

  lemma GreedyFits(d: seq<nat>, held: Counts, target: int)
    requires |held| == |d| && forall i :: 0 <= i < |d| ==> d[i] > 0
    ensures Within(Greedy(d, held, target), held)
    ensures target >= 0 ==> Value(d, Greedy(d, held, target)) <= target
    ensures target < 0 ==> Value(d, Greedy(d, held, target)) == 0
  {
    GreedyWithin(d, held, target);
    GreedyBelow(d, held, target);
  }

  lemma {:induction false} GreedyWithin(d: seq<nat>, held: Counts, target: int)
    requires |held| == |d| && forall i :: 0 <= i < |d| ==> d[i] > 0
    ensures Within(Greedy(d, held, target), held)
    decreases |d|
  {
    hide Worth;
    hide Take;
    if d != [] {
      var k := |d| - 1;
      TakeFits(target, d[k], held[k]);
      GreedyWithin(d[..k], held[..k], target - Worth(Take(target, d[k], held[k]), d[k]));
    }
  }

  lemma {:induction false} GreedyBelow(d: seq<nat>, held: Counts, target: int)
    requires |held| == |d| && forall i :: 0 <= i < |d| ==> d[i] > 0
    ensures target >= 0 ==> Value(d, Greedy(d, held, target)) <= target
    ensures target < 0 ==> Value(d, Greedy(d, held, target)) == 0
    decreases |d|
  {
    hide Worth;
    hide Take;
    if d != [] {
      var k := |d| - 1;
      var t := Take(target, d[k], held[k]);
      TakeFits(target, d[k], held[k]);
      var rest := target - Worth(t, d[k]);
      GreedyBelow(d[..k], held[..k], rest);
      ValueSplit(d, Greedy(d[..k], held[..k], rest), t, k);
    }
  }

  /** Where the pass leaves a coin behind, it had less than that coin's value left to pay. */
  lemma {:induction false} GreedyStops(d: seq<nat>, held: Counts, target: int, i: nat)
    requires |held| == |d| && i < |d| && target >= 0 && forall j :: 0 <= j < |d| ==> d[j] > 0
    requires Greedy(d, held, target)[i] < held[i]
    ensures target - Value(d, Greedy(d, held, target)) < d[i]
    decreases |d|
  {
    hide Worth;
    hide Take;
    var k := |d| - 1;
    var t := Take(target, d[k], held[k]);
    TakeFits(target, d[k], held[k]);
    var rest := target - Worth(t, d[k]);
    var low := Greedy(d[..k], held[..k], rest);
    assert Greedy(d, held, target) == low + [t];
    ValueSplit(d, low, t, k);
    hide Greedy, Value;
    if i < k {
      assert low[i] < held[..k][i];
      GreedyStops(d[..k], held[..k], rest, i);
    }
  }

  /**
   Carving: coins worth at least `target`, a multiple of the largest of them,
   contain coins worth exactly `target`, and the pass finds them.
   */
  lemma {:induction false} Carve(d: seq<nat>, u: Counts, target: nat)
    requires Chain(d) && |u| == |d| > 0 && target % d[|d| - 1] == 0 && Value(d, u) >= target
    ensures Value(d, Greedy(d, u, target)) == target
    decreases |d|
  {
    hide Worth;
    hide Take;
    var k := |d| - 1;
    var t := Take(target, d[k], u[k]);
    TakeFits(target, d[k], u[k]);
    var rest := target - Worth(t, d[k]);
    ValueSplit(d, Greedy(d[..k], u[..k], rest), t, k);
    GreedyFits(d[..k], u[..k], rest);
    RestDivides(target, t, d[k]);
    if rest >= d[k] && k > 0 {
      DividesThrough(d[k - 1], d[k], rest);
      Carve(d[..k], u[..k], rest);
    }
  }

  lemma RestDivides(target: nat, t: nat, v: nat)
    requires v > 0 && target % v == 0
    ensures var rest := target - Worth(t, v);
      rest % v == 0 && (0 <= rest < v ==> rest == 0)
  {
    DividesDifference(v, target, t);
    var rest := target - Worth(t, v);
    if 0 <= rest < v { DivIs(rest, v, 0, rest); }
  }

  /** One step of the exchange: whole coins of the largest value in place of small ones. */
  lemma Exchange(d: seq<nat>, u: Counts, v: nat, m: nat) returns (w: Counts)
    requires Chain(d + [v]) && |u| == |d| && Value(d, u) >= Worth(m, v)
    ensures Within(w, u) && Value(d, w) == Value(d, u) - Worth(m, v) && Count(w) + m <= Count(u)
  {
    assert forall i :: 0 <= i < |d| ==> (d + [v])[i] == d[i];
    assert (d + [v])[|d|] == v;
    if d == [] {
      if m > 0 { MulGrows(v, m); }
      return u;
    }
    var k := |d| - 1;
    MultipleOf(m, v);
    DividesThrough(d[k], v, m * v);
    ExchangeCounts(d, u, v, m);
    w := Minus(u, Greedy(d, u, m * v));
  }

  lemma ExchangeCounts(d: seq<nat>, u: Counts, v: nat, m: nat)
    requires Chain(d) && |u| == |d| > 0 && v > 0 && (forall i :: 0 <= i < |d| ==> d[i] <= v)
    requires Value(d, u) >= Worth(m, v) && Worth(m, v) % d[|d| - 1] == 0
    ensures var part := Greedy(d, u, Worth(m, v));
      Within(part, u) && Value(d, Minus(u, part)) == Value(d, u) - Worth(m, v) && Count(Minus(u, part)) + m <= Count(u)
  {
    var part := Greedy(d, u, Worth(m, v));
    Carve(d, u, Worth(m, v));
    GreedyFits(d, u, Worth(m, v));
    ValueMinus(d, u, part);
    ManySmall(d, part, v);
    if Count(part) < m { MulStrict(Count(part), m, v); }
  }

  /**
   The bounded pass is best: no choice of held coins comes closer to the target from
   below, and none that comes as close has fewer coins.
   */
  lemma {:induction false} GreedyIsBest(d: seq<nat>, held: Counts, target: int, u: Counts)
    requires Chain(d) && |held| == |d| && Within(u, held) && Value(d, u) <= target
    ensures var g := Greedy(d, held, target);
      && Value(d, u) <= Value(d, g) <= target
      && (Value(d, u) == Value(d, g) ==> Count(g) <= Count(u))
    decreases |d|
  {
    hide Chain, Worth, Take;
    if d != [] {
      var k := |d| - 1;
      ChainSplit(d, held, u, k);
      var t := Take(target, d[k], held[k]);
      BestTake(d, held, target, u, k, t);
      var low, m, rest := Greedy(d[..k], held[..k], target - Worth(t, d[k])), t - u[k], target - Worth(t, d[k]);
      hide *;
      if Value(d[..k], u[..k]) >= Worth(m, d[k]) {
        var w := Exchange(d[..k], u[..k], d[k], m);
        WithinOf(w, u[..k], held[..k]);
        GreedyIsBest(d[..k], held[..k], rest, w);
        BestWith(d, u, w, low, target, t, k);
      } else {
        GreedyFits(d[..k], held[..k], rest);
        ValueSplit(d, low, t, k);
      }
    }
  }

  /** The largest denomination on top of what is best below it. */
  lemma BestWith(d: seq<nat>, u: Counts, w: Counts, low: Counts, target: int, t: nat, k: nat)
    requires |d| == |u| == k + 1 && |w| == |low| == k
    requires Value(d[..k], w) <= Value(d[..k], low) <= target - Worth(t, d[k])
    requires Value(d[..k], w) == Value(d[..k], low) ==> Count(low) <= Count(w)
    requires Value(d, u) == Value(d[..k], w) + Worth(t, d[k]) && Count(u) >= Count(w) + t
    ensures Value(d, u) <= Value(d, low + [t]) <= target
    ensures Value(d, u) == Value(d, low + [t]) ==> Count(low + [t]) <= Count(u)
  {
    ValueSplit(d, low, t, k);
    hide *;
  }

  lemma ChainSplit(d: seq<nat>, held: Counts, u: Counts, k: nat)
    requires Chain(d) && |d| == k + 1 && Within(u, held) && |held| == |d|
    ensures Chain(d[..k]) && Chain(d[..k] + [d[k]]) && Within(u[..k], held[..k])
    ensures d[k] > 0 && u[k] <= held[k] && forall i :: 0 <= i < |d| ==> d[i] > 0
  {
    assert d[..k] + [d[k]] == d;
  }

  lemma WithinOf(w: Counts, u: Counts, held: Counts)
    requires Within(w, u) && Within(u, held)
    ensures Within(w, held)
  {
    assert forall i :: 0 <= i < |w| ==> w[i] <= u[i] <= held[i];
  }

  lemma BestTake(d: seq<nat>, held: Counts, target: int, u: Counts, k: nat, t: nat)
    requires |held| == |d| == |u| == k + 1 && (forall i :: 0 <= i < |d| ==> d[i] > 0)
    requires u[k] <= held[k] && Value(d, u) <= target
    requires t == Take(target, d[k], held[k])
    ensures u[k] <= t && Worth(t, d[k]) <= target
    ensures Greedy(d, held, target) == Greedy(d[..k], held[..k], target - Worth(t, d[k])) + [t]
    ensures Value(d, u) == Value(d[..k], u[..k]) + Worth(t, d[k]) - Worth(t - u[k], d[k])
    ensures Count(u) == Count(u[..k]) + u[k]
  {
    TakeFits(target, d[k], held[k]);
    SplitOff(d, u, k);
    TakeIsMost(target, d[k], held[k], u[k]);
    WorthSplits(u[k], t - u[k], d[k]);
    hide Worth;
    hide Take;
    hide Value;
    hide Count;
  }

  lemma SplitOff(d: seq<nat>, u: Counts, k: nat)
    requires |d| == |u| == k + 1
    ensures Value(d, u) == Value(d[..k], u[..k]) + Worth(u[k], d[k])
    ensures Count(u) == Count(u[..k]) + u[k]
  {
  }

  lemma WorthSplits(a: nat, b: nat, v: nat)
    ensures Worth(a + b, v) == Worth(a, v) + Worth(b, v)
  {
  }

  /** `getSpendCoins` pays the target exactly whenever the held coins can, and with the fewest coins. */
  lemma ExactWhenPossible(d: seq<nat>, held: Counts, target: int)
    requires Chain(d) && |held| == |d|
    ensures Value(d, Greedy(d, held, target)) == target
      <==> exists u: Counts :: Within(u, held) && Value(d, u) == target
    ensures forall u: Counts :: Within(u, held) && Value(d, u) == target ==> Count(Greedy(d, held, target)) <= Count(u)
  {
    GreedyFits(d, held, target);
    forall u: Counts | Within(u, held) && Value(d, u) == target
      ensures Value(d, Greedy(d, held, target)) == target && Count(Greedy(d, held, target)) <= Count(u)
    {
      GreedyIsBest(d, held, target, u);
    }
  }

  // ---------------------------------------------------------------- change

  lemma TakeAllFits(rest: int, v: nat, held: nat)
    requires v > 0 && held >= rest
    ensures TakeAll(rest, v) == Take(rest, v, held)
  {
    if rest >= v {
      assert rest == rest / v * v + rest % v;
      MulGrows(v, rest / v);
      assert v * (rest / v) == rest / v * v;
    }
  }

  /** Without a bound the pass is the bounded one over plenty of coins. */
  lemma {:induction false} ChangeIsGreedy(d: seq<nat>, target: int, held: Counts)
    requires |held| == |d| && (forall i :: 0 <= i < |d| ==> d[i] > 0)
    requires forall i :: 0 <= i < |d| ==> held[i] >= target
    ensures Change(d, target) == Greedy(d, held, target)
    decreases |d|
  {
    hide Worth;
    hide Take;
    hide TakeAll;
    if d != [] {
      var k := |d| - 1;
      TakeAllFits(target, d[k], held[k]);
      ChangeIsGreedy(d[..k], target - Worth(TakeAll(target, d[k]), d[k]), held[..k]);
    }
  }

  /** Change is worth the amount, up to what is less than the smallest coin. */
  lemma {:induction false} ChangeIsExact(d: seq<nat>, target: nat)
    requires Chain(d) && d != []
    ensures Value(d, Change(d, target)) == target - target % d[0]
    decreases |d|
  {
    hide Worth;
    hide TakeAll;
    var k := |d| - 1;
    var t := TakeAll(target, d[k]);
    var rest := target - Worth(t, d[k]);
    ValueSplit(d, Change(d[..k], rest), t, k);
    TakeAllRest(target, d[k]);
    if k == 0 {
      assert Change(d[..0], rest) == [];
    } else {
      ChangeIsExact(d[..k], rest);
      SameRemainder(target, d[0], d[k], t);
    }
  }

  lemma TakeAllRest(target: nat, v: nat)
    requires v > 0
    ensures target - Worth(TakeAll(target, v), v) == target % v
  {
    if target < v { DivIs(target, v, 0, target); }
  }

  lemma SameRemainder(a: int, b: nat, c: nat, t: nat)
    requires b > 0 && c % b == 0
    ensures (a - Worth(t, c)) % b == a % b
  {
    var p, q := a / b, c / b;
    assert a == p * b + a % b && c == q * b;
    assert t * c == (t * q) * b;
    assert a - t * c == (p - t * q) * b + a % b;
    DivIs(a - t * c, b, p - t * q, a % b);
  }

  /** `getChange` uses the fewest coins that are worth as much. */
  lemma ChangeIsFewest(d: seq<nat>, target: nat, u: Counts)
    requires Chain(d) && |u| == |d| && Value(d, u) == Value(d, Change(d, target))
    ensures Count(Change(d, target)) <= Count(u)
  {
    hide Value, Count, Greedy, Change;
    var plenty := seq(|d|, i requires 0 <= i < |d| => if u[i] < target then target else u[i]);
    ChangeIsGreedy(d, target, plenty);
    GreedyFits(d, plenty, target);
    GreedyIsBest(d, plenty, target, u);
  }

  lemma ChangeFits(d: seq<nat>, target: int)
    requires forall i :: 0 <= i < |d| ==> d[i] > 0
    ensures target >= 0 ==> Value(d, Change(d, target)) <= target
    ensures target <= 0 ==> Value(d, Change(d, target)) == 0 && Count(Change(d, target)) == 0
  {
    if target <= 0 {
      ChangeIsGreedy(d, target, Zeros(|d|));
      GreedyWithin(d, Zeros(|d|), target);
      OnlyZeros(d, Greedy(d, Zeros(|d|), target));
    } else {
      var plenty := seq(|d|, _ => target);
      ChangeIsGreedy(d, target, plenty);
      GreedyBelow(d, plenty, target);
    }
    hide Greedy;
    hide Change;
    hide Value;
    hide Count;
  }

  lemma OnlyZeros(d: seq<nat>, c: Counts)
    requires |c| == |d| && Within(c, Zeros(|d|))
    ensures Value(d, c) == 0 && Count(c) == 0
  {
    assert c == Zeros(|d|);
    ValueOfZeros(d);
  }

  // ---------------------------------------------------------------- the overshooting pass

  lemma TakeOverFits(rest: int, v: nat, held: nat)
    requires v > 0
    ensures var t := TakeOver(rest, v, held);
      && t <= held
      && (t < held ==> Worth(t, v) >= rest)
      && (rest <= 0 ==> t == 0 && Worth(t, v) == 0)
      && (rest > 0 && Take(rest - 1, v, held) < held ==> t == Take(rest - 1, v, held) + 1 && Worth(t, v) == Worth(t - 1, v) + v)
      && (Take(rest - 1, v, held) == held ==> t == held || held == 0)
  {
    if rest > 0 {
      var q := (rest - 1) / v;
      assert rest - 1 == q * v + (rest - 1) % v;
      assert (q + 1) * v == q * v + v;
      if rest - 1 < v { DivIs(rest - 1, v, 0, rest - 1); }
    }
  }

  lemma {:induction false} OverCovers(d: seq<nat>, held: Counts, target: int)
    requires |held| == |d| && forall i :: 0 <= i < |d| ==> d[i] > 0
    ensures Within(Over(d, held, target), held)
    ensures Value(d, held) >= target ==> Value(d, Over(d, held, target)) >= target
    ensures Value(d, held) < target ==> Over(d, held, target) == held
    decreases |d|
  {
    hide Worth;
    hide TakeOver;
    if d != [] {
      var k := |d| - 1;
      var t := TakeOver(target, d[k], held[k]);
      TakeOverFits(target, d[k], held[k]);
      var rest := target - Worth(t, d[k]);
      var low := Over(d[..k], held[..k], rest);
      assert Over(d, held, target) == low + [t];
      hide Over, Value, Within;
      OverCovers(d[..k], held[..k], rest);
      OverWith(d, held, target, low, t, k);
    }
  }

  /** What the pass takes of the largest denomination, and what it takes of the others for the rest. */
  lemma OverWith(d: seq<nat>, held: Counts, target: int, low: Counts, t: nat, k: nat)
    requires |held| == |d| == k + 1 && Within(low, held[..k]) && t <= held[k]
    requires t < held[k] ==> Worth(t, d[k]) >= target
    requires var rest := target - Worth(t, d[k]);
      if Value(d[..k], held[..k]) >= rest then Value(d[..k], low) >= rest else low == held[..k]
    ensures Within(low + [t], held)
    ensures Value(d, held) >= target ==> Value(d, low + [t]) >= target
    ensures Value(d, held) < target ==> low + [t] == held
  {
    hide Worth;
    ValueSplit(d, low, t, k);
    SplitOff(d, held, k);
    WorthSplits(t, held[k] - t, d[k]);
    hide Value;
  }

  /**
   When the strict pass leaves coins of one denomination only, each worth all that
   is still to pay, the overshooting pass pays the target exactly.
   */
  lemma {:induction false} OverHits(d: seq<nat>, held: Counts, target: nat, i: nat)
    requires |held| == |d| && target > 0 && i < |d| && forall j :: 0 <= j < |d| ==> d[j] > 0
    requires Greedy(d, held, target - 1)[i] < held[i]
    requires forall j :: 0 <= j < |d| && Greedy(d, held, target - 1)[j] < held[j] ==>
      d[j] == target - Value(d, Greedy(d, held, target - 1))
    ensures Value(d, Over(d, held, target)) == target
    decreases |d|
  {
    hide Worth;
    hide Take;
    hide TakeOver;
    var k := |d| - 1;
    var a := Greedy(d, held, target - 1);
    var t := Take(target - 1, d[k], held[k]);
    TakeFits(target - 1, d[k], held[k]);
    TakeOverFits(target, d[k], held[k]);
    var low := Greedy(d[..k], held[..k], target - 1 - Worth(t, d[k]));
    assert a == low + [t];
    ValueSplit(d, low, t, k);
    var s := TakeOver(target, d[k], held[k]);
    var rest := target - Worth(s, d[k]);
    ValueSplit(d, Over(d[..k], held[..k], rest), s, k);
    if a[k] < held[k] {
      OverNothing(d[..k], held[..k]);
    } else {
      assert forall j :: 0 <= j < k ==> low[j] == a[j];
      assert s == t;
      OverHits(d[..k], held[..k], rest, i);
    }
  }

  lemma {:induction false} OverNothing(d: seq<nat>, held: Counts)
    requires |held| == |d| && forall i :: 0 <= i < |d| ==> d[i] > 0
    ensures Value(d, Over(d, held, 0)) == 0
    decreases |d|
  {
    if d != [] {
      var k := |d| - 1;
      OverNothing(d[..k], held[..k]);
      ValueSplit(d, Over(d[..k], held[..k], 0), 0, k);
    }
  }
}
