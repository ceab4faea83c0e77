/**
 Paying with change: `minimizeChange` and `calculateChange`
 (core/src/denomination_functions.cpp:215-391) as functions, and what they promise.
 */
module CoinSelection {
  import opened Arithmetic
  import opened Denominations

  const ZQ_ERROR := -1

  /** The held coins of the denominations up to `top`. */
  function Capped(held: Counts, top: int): (r: Counts)
    ensures |r| == |held| && forall i :: 0 <= i < |r| ==> r[i] == if i <= top then held[i] else 0
  {
    seq(|held|, i requires 0 <= i < |held| => if i <= top then held[i] else 0)
  }

  /** From position `j` upwards, one more coin worth more than the rest, if there is one to use. */
  function Filled(d: seq<nat>, held: Counts, used: Counts, rest: int, j: nat): (r: Counts)
    requires |d| == |held| == |used| && j <= |d|
    ensures |r| == |d|
    decreases |d| - j
  {
    if j == |d| then used
    else if d[j] > rest && used[j] < held[j] then used[j := used[j] + 1]
    else if rest < 0 then used
    else Filled(d, held, used, rest, j + 1)
  }

  /** The spent coins that are not handed back as change. */
  function Trimmed(used: Counts, change: Counts): (r: Counts)
    requires |used| == |change|
    ensures Within(r, used)
  {
    seq(|used|, i requires 0 <= i < |used| => if change[i] < used[i] then used[i] - change[i] else 0)
  }

  /** The coins before trimming: the strict pass, topped up. */
  function Topped(d: seq<nat>, held: Counts, next: int, target: int): (r: Counts)
    requires |held| == |d| && forall i :: 0 <= i < |d| ==> d[i] > 0
    ensures |r| == |d|
  {
    var strict := Greedy(d, Capped(held, next), target - 1);
    Filled(d, held, strict, target - Value(d, strict), 0)
  }

  /** The amount left to spend once coins that would come back are kept. */
  function Needed(d: seq<nat>, topped: Counts, target: int): nat
    requires |topped| == |d| && forall i :: 0 <= i < |d| ==> d[i] > 0
  {
    Value(d, Trimmed(topped, Change(d, Value(d, topped) - target)))
  }

  datatype Choice = Choice(change: int, used: Counts)

  function Alternative(d: seq<nat>, held: Counts, next: int, target: int): (r: Choice)
    requires |held| == |d| && forall i :: 0 <= i < |d| ==> d[i] > 0
    ensures |r.used| == |d| && r.change >= 0
  {
    var amount := Needed(d, Topped(d, held, next, target), target);
    Choice(Count(Change(d, amount - target)), Greedy(d, held, amount))
  }

  function Minimized(d: seq<nat>, maxSpends: int, change: int, next: int, target: int, held: Counts, used: Counts): Choice
    requires |held| == |d| && forall i :: 0 <= i < |d| ==> d[i] > 0
  {
    var alt := Alternative(d, held, next, target);
    if alt.change < change && Count(alt.used) <= maxSpends then alt else Choice(change, used)
  }

  /** The smallest held denomination above the target, or ZQ_ERROR. */
  function OverTarget(d: seq<nat>, held: Counts, target: int, j: nat): (m: int)
    requires |held| == |d| && j <= |d|
    ensures m == ZQ_ERROR || j <= m < |d|
    ensures m != ZQ_ERROR ==> target < d[m] && held[m] > 0
    ensures forall i :: j <= i < (if m == ZQ_ERROR then |d| else m) ==> target >= d[i] || held[i] == 0
    decreases |d| - j
  {
    if j == |d| then ZQ_ERROR
    else if target < d[j] && held[j] > 0 then j
    else OverTarget(d, held, target, j + 1)
  }

  /** The largest held denomination below position `j`, or ZQ_ERROR. */
  function LowerHeld(held: Counts, j: nat): (m: int)
    requires j <= |held|
    ensures m == ZQ_ERROR || (0 <= m < j && held[m] > 0)
    ensures forall i :: m < i < j ==> i >= 0 && held[i] == 0
  {
    if j == 0 then ZQ_ERROR else if held[j - 1] > 0 then j - 1 else LowerHeld(held, j - 1)
  }

  function Single(n: nat, m: nat): (r: Counts)
    requires m < n
    ensures |r| == n
  {
    Zeros(n)[m := 1]
  }

  function Calculated(d: seq<nat>, maxSpends: int, target: int, held: Counts): Choice
    requires |held| == |d| && forall i :: 0 <= i < |d| ==> d[i] > 0
  {
    var m := OverTarget(d, held, target, 0);
    if m != ZQ_ERROR then
      var change := Count(Change(d, d[m] - target));
      var alt := Minimized(d, maxSpends, change, LowerHeld(held, m), target, held, Single(|d|, m));
      if alt.change < change then alt else Choice(change, Single(|d|, m))
    else
      var over := Over(d, held, target);
      Minimized(d, maxSpends, Count(Change(d, Value(d, over) - target)), LowerHeld(held, |held|), target, held, over)
  }

  // ---------------------------------------------------------------- the alternative choice

  /** A choice of coins is sound: held, enough, and with its change counted. */
  ghost predicate Pays(d: seq<nat>, held: Counts, target: int, c: Choice)
    requires |held| == |d| && forall i :: 0 <= i < |d| ==> d[i] > 0
  {
    && Within(c.used, held)
    && Value(d, c.used) >= target
    && c.change == Count(Change(d, Value(d, c.used) - target))
  }

  lemma {:induction false} FilledAt(d: seq<nat>, held: Counts, used: Counts, rest: int, j: nat)
    returns (i: nat)
    requires |d| == |held| == |used| && j <= |d| && Within(used, held)
    ensures i <= |d|
    ensures i == |d| ==> Filled(d, held, used, rest, j) == used
    ensures i == |d| && rest >= 0 ==> forall l :: j <= l < |d| ==> d[l] <= rest || used[l] >= held[l]
    ensures i < |d| ==> Filled(d, held, used, rest, j) == used[i := used[i] + 1] && d[i] > rest && used[i] < held[i]
    decreases |d| - j
  {
    if j == |d| || (d[j] > rest && used[j] < held[j]) {
      i := j;
    } else if rest < 0 {
      i := |d|;
    } else {
      i := FilledAt(d, held, used, rest, j + 1);
    }
  }

  lemma CappedWithin(d: seq<nat>, held: Counts, next: int, target: int)
    requires |held| == |d| && forall i :: 0 <= i < |d| ==> d[i] > 0
    ensures Within(Greedy(d, Capped(held, next), target), Capped(held, next))
    ensures Within(Greedy(d, Capped(held, next), target), held)
  {
    GreedyWithin(d, Capped(held, next), target);
  }

  lemma ToppedWithin(d: seq<nat>, held: Counts, next: int, target: int)
    requires |held| == |d| && forall i :: 0 <= i < |d| ==> d[i] > 0
    ensures Within(Topped(d, held, next, target), held)
  {
    CappedWithin(d, held, next, target - 1);
    var strict := Greedy(d, Capped(held, next), target - 1);
    var i := FilledAt(d, held, strict, target - Value(d, strict), 0);
  }

  lemma {:induction false} TrimmedIsMinus(d: seq<nat>, used: Counts, change: Counts)
    requires |used| == |change| == |d|
    ensures Value(d, Trimmed(used, change)) + Value(d, change) >= Value(d, used)
  {
    if d != [] {
      var k := |d| - 1;
      TrimmedIsMinus(d[..k], used[..k], change[..k]);
      assert Trimmed(used, change)[..k] == Trimmed(used[..k], change[..k]);
      var t := Trimmed(used, change)[k];
      MulMonotone(used[k], t + change[k], d[k]);
      WorthSplits(t, change[k], d[k]);
    }
  }

  /** Keeping back what would be change never drops below the target. */
  lemma TrimmingCovers(d: seq<nat>, topped: Counts, target: int)
    requires |topped| == |d| && forall i :: 0 <= i < |d| ==> d[i] > 0
    requires Value(d, topped) >= target
    ensures Needed(d, topped, target) >= target
  {
    hide *;
    NeededIs(d, topped, target);
    ChangeFits(d, Value(d, topped) - target);
    TrimmedIsMinus(d, topped, Change(d, Value(d, topped) - target));
  }

  lemma NeededIs(d: seq<nat>, topped: Counts, target: int)
    requires |topped| == |d| && forall i :: 0 <= i < |d| ==> d[i] > 0
    ensures Needed(d, topped, target) == Value(d, Trimmed(topped, Change(d, Value(d, topped) - target)))
  {
    hide Value;
    hide Change;
    hide Trimmed;
  }

  /** What remains after trimming is met exactly by the held coins, whatever was topped up. */
  lemma NeededIsMet(d: seq<nat>, held: Counts, topped: Counts, target: int)
    requires Chain(d) && |held| == |d| && Within(topped, held)
    ensures var amount := Needed(d, topped, target);
      Within(Greedy(d, held, amount), held) && Value(d, Greedy(d, held, amount)) == amount
  {
    var part := Trimmed(topped, Change(d, Value(d, topped) - target));
    var amount := Needed(d, topped, target);
    assert Within(part, held);
    GreedyFits(d, held, amount);
    GreedyIsBest(d, held, amount, part);
  }

  lemma AlternativePays(d: seq<nat>, held: Counts, next: int, target: int)
    requires Chain(d) && |held| == |d| && Value(d, Topped(d, held, next, target)) >= target
    ensures Pays(d, held, target, Alternative(d, held, next, target))
  {
    hide Value;
    hide Count;
    hide Change;
    hide Greedy;
    hide Over;
    hide Topped;
    hide Needed;
    var topped := Topped(d, held, next, target);
    ToppedWithin(d, held, next, target);
    TrimmingCovers(d, topped, target);
    NeededIsMet(d, held, topped, target);
  }

  lemma FilledValue(d: seq<nat>, strict: Counts, i: nat)
    requires |strict| == |d| && i < |d|
    ensures Value(d, strict[i := strict[i] + 1]) == Value(d, strict) + d[i]
  {
    ValueUpdate(d, strict, i, strict[i] + 1);
  }

  /** With a coin above the target in hand, topping up always reaches the target. */
  lemma ToppedBySingle(d: seq<nat>, held: Counts, next: int, target: int, m: nat)
    requires |held| == |d| && (forall i :: 0 <= i < |d| ==> d[i] > 0)
    requires m < |d| && next < m && target < d[m] && held[m] > 0
    ensures Value(d, Topped(d, held, next, target)) >= target
  {
    hide Greedy, Value, Filled;
    var strict := Greedy(d, Capped(held, next), target - 1);
    CappedWithin(d, held, next, target - 1);
    var rest := target - Value(d, strict);
    assert strict[m] == 0;
    var i := FilledAt(d, held, strict, rest, 0);
    if i < |d| { FilledValue(d, strict, i); }
  }

  lemma CappedByTop(held: Counts)
    ensures Capped(held, LowerHeld(held, |held|)) == held
  {
  }

  /**
   Without such a coin it reaches the target whenever all held coins together do --
   unless the first choice already pays without change.
   */
  lemma ToppedByAll(d: seq<nat>, held: Counts, target: int)
    requires Chain(d) && |held| == |d| && Value(d, held) >= target
    ensures Value(d, Topped(d, held, LowerHeld(held, |held|), target)) >= target
      || Value(d, Over(d, held, target)) == target
  {
    hide Value;
    hide Count;
    hide Change;
    hide Greedy;
    hide Over;
    hide Filled;
    CappedByTop(held);
    var strict := Greedy(d, held, target - 1);
    GreedyFits(d, held, target - 1);
    var rest := target - Value(d, strict);
    var i := FilledAt(d, held, strict, rest, 0);
    if i < |d| {
      FilledValue(d, strict, i);
    } else if target > 0 {
      var j := SomeLeft(d, held, strict, target);
      forall l | 0 <= l < |d| && strict[l] < held[l]
        ensures d[l] == rest
      {
        GreedyStops(d, held, target - 1, l);
      }
      OverHits(d, held, target, j);
    }
  }

  lemma SomeLeft(d: seq<nat>, held: Counts, used: Counts, target: int) returns (j: nat)
    requires |held| == |d| && Within(used, held) && Value(d, held) >= target > Value(d, used)
    ensures j < |d| && used[j] < held[j]
  {
    assert (forall i :: 0 <= i < |d| ==> used[i] >= held[i]) ==> used == held;
    j :| j < |d| && used[j] < held[j];
  }

  // ---------------------------------------------------------------- calculateChange

  lemma SinglePays(d: seq<nat>, held: Counts, target: int, m: nat)
    requires Chain(d) && |held| == |d| && m < |d| && target < d[m] && held[m] > 0
    ensures Pays(d, held, target, Choice(Count(Change(d, d[m] - target)), Single(|d|, m)))
  {
    hide Value;
    hide Count;
    hide Change;
    hide Greedy;
    hide Over;
    ValueOfZeros(d);
    ValueUpdate(d, Zeros(|d|), m, 1);
  }

  /**
   `calculateChange` spends held coins worth at least the target and returns the number
   of coins in the change, whenever the held coins are worth the target at all; if they
   are not, it spends them all and reports no change.
   */
  lemma CalculatedPays(d: seq<nat>, maxSpends: int, target: int, held: Counts)
    requires Chain(d) && |held| == |d|
    ensures var c := Calculated(d, maxSpends, target, held);
      if Value(d, held) >= target then Pays(d, held, target, c) else c == Choice(0, held)
  {
    assert forall i :: 0 <= i < |d| ==> d[i] > 0;
    hide *;
    var m := OverTarget(d, held, target, 0);
    if m != ZQ_ERROR {
      SingleBranch(d, maxSpends, target, held, m);
    } else {
      OverPays(d, maxSpends, target, held);
      OverBranch(d, maxSpends, target, held);
    }
  }

  lemma OverBranch(d: seq<nat>, maxSpends: int, target: int, held: Counts)
    requires |held| == |d| && (forall i :: 0 <= i < |d| ==> d[i] > 0) && OverTarget(d, held, target, 0) == ZQ_ERROR
    ensures var over := Over(d, held, target);
      Calculated(d, maxSpends, target, held)
        == Minimized(d, maxSpends, Count(Change(d, Value(d, over) - target)), LowerHeld(held, |held|), target, held, over)
  {
    hide Minimized;
    hide Value;
    hide Count;
    hide Change;
    hide Over;
    hide LowerHeld;
  }

  lemma SingleBranch(d: seq<nat>, maxSpends: int, target: int, held: Counts, m: nat)
    requires Chain(d) && |held| == |d| && m == OverTarget(d, held, target, 0)
    ensures Value(d, held) >= target && Pays(d, held, target, Calculated(d, maxSpends, target, held))
  {
    hide Value;
    hide Count;
    hide Change;
    hide Alternative;
    hide Pays;
    SinglePays(d, held, target, m);
    PaysNeedsEnough(d, held, target, Choice(Count(Change(d, d[m] - target)), Single(|d|, m)));
    ToppedBySingle(d, held, LowerHeld(held, m), target, m);
    AlternativePays(d, held, LowerHeld(held, m), target);
  }

  lemma PaysNeedsEnough(d: seq<nat>, held: Counts, target: int, c: Choice)
    requires |held| == |d| && (forall i :: 0 <= i < |d| ==> d[i] > 0) && Pays(d, held, target, c)
    ensures Value(d, held) >= target
  {
    ValueMonotone(d, c.used, held);
  }

  lemma OverPays(d: seq<nat>, maxSpends: int, target: int, held: Counts)
    requires Chain(d) && |held| == |d|
    ensures var over := Over(d, held, target);
      var c := Minimized(d, maxSpends, Count(Change(d, Value(d, over) - target)), LowerHeld(held, |held|), target, held, over);
      if Value(d, held) >= target then Pays(d, held, target, c) else c == Choice(0, held)
  {
    hide Value;
    hide Count;
    hide Change;
    hide Greedy;
    hide Over;
    hide Topped;
    hide Alternative;
    hide Filled;
    var over, top := Over(d, held, target), LowerHeld(held, |held|);
    OverCovers(d, held, target);
    if Value(d, over) <= target {
      ChangeFits(d, Value(d, over) - target);
    } else if Value(d, held) >= target {
      ToppedByAll(d, held, target);
      AlternativePays(d, held, top, target);
    }
  }

  /**
   Which choice it is: the smallest single coin above the target, or without one what the overshooting pass
   takes; in its place the trimmed one if and only if that has fewer coins of change and not too many spent.
   */
  lemma CalculatedIs(d: seq<nat>, maxSpends: int, target: int, held: Counts)
    requires Chain(d) && |held| == |d|
    ensures var m, c := OverTarget(d, held, target, 0), Calculated(d, maxSpends, target, held);
      var first := if m == -1 then Over(d, held, target) else Zeros(|d|)[m := 1];
      var change := Count(Change(d, Value(d, first) - target));
      var next := Alternative(d, held, LowerHeld(held, if m == -1 then |held| else m), target);
      c == if next.change < change && Count(next.used) <= maxSpends then next else Choice(change, first)
  {
    hide Value, Count, Change, Over, Alternative, LowerHeld;
    var m := OverTarget(d, held, target, 0);
    if m != -1 {
      ValueOfZeros(d);
      ValueUpdate(d, Zeros(|d|), m, 1);
    }
  }

  /**
   Conservation: with target and coins in multiples of the smallest denomination, what is
   spent is the target and the change, to the last unit.
   */
  lemma SpentIsTargetAndChange(d: seq<nat>, maxSpends: int, target: int, held: Counts)
    requires Chain(d) && d != [] && |held| == |d| && target % d[0] == 0 && Value(d, held) >= target
    ensures var c := Calculated(d, maxSpends, target, held);
      var change := Change(d, Value(d, c.used) - target);
      Value(d, c.used) == target + Value(d, change) && c.change == Count(change)
  {
    hide Value;
    hide Count;
    hide Change;
    hide Greedy;
    hide Over;
    hide Calculated;
    hide Topped;
    CalculatedPays(d, maxSpends, target, held);
    var c := Calculated(d, maxSpends, target, held);
    var surplus := Value(d, c.used) - target;
    ChangeIsExact(d, surplus);
    AllMultiples(d, c.used);
    DifferenceDivides(Value(d, c.used), target, d[0]);
  }

  lemma DifferenceDivides(a: int, b: int, v: nat)
    requires v > 0 && a % v == 0 && b % v == 0
    ensures (a - b) % v == 0
  {
    var q := b / v;
    assert b == q * v;
    DividesDifference(v, a, q);
  }

  lemma {:induction false} AllMultiples(d: seq<nat>, c: Counts)
    requires Chain(d) && |c| == |d| > 0
    ensures Value(d, c) % d[0] == 0
  {
    var k := |d| - 1;
    MultipleOf(c[k], d[k]);
    if k > 0 {
      AllMultiples(d[..k], c[..k]);
      assert d[k] % d[0] == 0;
      DividesThrough(d[0], d[k], c[k] * d[k]);
      SumDivides(Value(d[..k], c[..k]), c[k] * d[k], d[0]);
    } else {
      assert Value(d[..k], c[..k]) == 0;
    }
  }

  lemma SumDivides(a: int, b: int, v: nat)
    requires v > 0 && a % v == 0 && b % v == 0
    ensures (a + b) % v == 0
  {
    var q := b / v;
    assert b == q * v;
    assert -q * v == -(q * v);
    DividesDifference(v, a, -q);
  }
}
