/**
 Numbers as limbs of 32 bits, lowest first (core/src/arith_uint256.h:30-60), and what
 the limb loops compute.
 */
module Limbs {
  import opened Arithmetic
  import opened Numerals

  const M: nat := 0x1_0000_0000

  /** `x` in the place of limb `k`. */
  function Weigh(x: nat, k: nat): nat { x * Pow(M, k) }

  /** What `w` limbs can hold: values below this. */
  function Range(w: nat): (r: nat)
    ensures r > 0
  {
    PowPositive(M, w);
    Pow(M, w)
  }

  predicate Limbed(s: seq<nat>) { DigitsOf(M, s) }

  function Val(s: seq<nat>): nat {
    if s == [] then 0 else Val(s[..|s| - 1]) + Weigh(s[|s| - 1], |s| - 1)
  }

  // ---------------------------------------------------------------- places

  lemma WeighAdd(x: nat, y: nat, k: nat)
    ensures Weigh(x + y, k) == Weigh(x, k) + Weigh(y, k)
  {
    Distribute(x, y, Pow(M, k));
  }

  lemma WeighUp(x: nat, k: nat)
    ensures Weigh(M * x, k) == Weigh(x, k + 1)
  {
    Regroup(M, x, Pow(M, k));
    Regroup(x, M, Pow(M, k));
  }

  lemma WeighZero(x: nat, k: nat)
    ensures Weigh(0, k) == 0 && Weigh(x, 0) == x
  {
  }

  /** A sum at place `k` is its low limb there and its carry one place up. */
  lemma WeighSplit(n: nat, k: nat)
    ensures Weigh(n % M, k) + Weigh(n / M, k + 1) == Weigh(n, k)
  {
    WeighUp(n / M, k);
    WeighAdd(M * (n / M), n % M, k);
  }

  lemma WeighTwice(x: nat, i: nat, j: nat)
    ensures Weigh(Weigh(x, i), j) == Weigh(x, i + j)
  {
    PowAdd(M, i, j);
    Regroup(x, Pow(M, i), Pow(M, j));
  }

  lemma WeighProduct(a: nat, x: nat, i: nat, j: nat)
    ensures Weigh(a * Weigh(x, i), j) == Weigh(a * x, i + j)
  {
    Regroup(a, x, Pow(M, i));
    WeighTwice(a * x, i, j);
  }

  lemma WeighMonotone(x: nat, y: nat, k: nat)
    ensures x <= y ==> Weigh(x, k) <= Weigh(y, k)
    ensures x < y ==> Weigh(x, k) + Pow(M, k) <= Weigh(y, k)
  {
    PowPositive(M, k);
    if x < y {
      MulMonotone(x + 1, y, Pow(M, k));
      Distribute(x, 1, Pow(M, k));
    }
  }

  // ---------------------------------------------------------------- values

  lemma ValLast(s: seq<nat>, x: nat)
    ensures Val(s + [x]) == Val(s) + Weigh(x, |s|)
  {
    assert (s + [x])[..|s|] == s;
  }

  lemma ValPrefix(s: seq<nat>, i: nat)
    requires i < |s|
    ensures Val(s[..i + 1]) == Val(s[..i]) + Weigh(s[i], i)
  {
    assert s[..i + 1] == s[..i] + [s[i]];
    ValLast(s[..i], s[i]);
  }

  lemma {:induction false} ValBound(s: seq<nat>)
    requires Limbed(s)
    ensures Val(s) < Pow(M, |s|)
  {
    if s != [] {
      var k := |s| - 1;
      ValBound(s[..k]);
      WeighMonotone(s[k], M, k);
      assert Weigh(M, k) == Pow(M, k + 1);
    }
  }

  lemma {:induction false} ValConcat(a: seq<nat>, b: seq<nat>)
    ensures Val(a + b) == Val(a) + Weigh(Val(b), |a|)
  {
    if b == [] {
      assert a + b == a;
      WeighZero(0, |a|);
    } else {
      var k := |b| - 1;
      ValConcat(a, b[..k]);
      assert a + b == (a + b[..k]) + [b[k]];
      ValLast(a + b[..k], b[k]);
      WeighAdd(Val(b[..k]), Weigh(b[k], k), |a|);
      WeighTwice(b[k], k, |a|);
    }
  }

  lemma ValCut(s: seq<nat>, k: nat)
    requires k <= |s|
    ensures Val(s) == Val(s[..k]) + Weigh(Val(s[k..]), k)
  {
    assert s == s[..k] + s[k..];
    ValConcat(s[..k], s[k..]);
  }

  lemma {:induction false} ValUpdate(s: seq<nat>, k: nat, x: nat)
    requires k < |s|
    ensures Val(s[k := x]) + Weigh(s[k], k) == Val(s) + Weigh(x, k)
  {
    var n := |s| - 1;
    if k < n {
      ValUpdate(s[..n], k, x);
      assert s[k := x][..n] == s[..n][k := x];
    } else {
      assert s[k := x][..n] == s[..n];
    }
  }

  lemma {:induction false} ValOfZeroes(n: nat)
    ensures Val(Zeroes(n)) == 0
  {
    if n > 0 {
      ValOfZeroes(n - 1);
      assert Zeroes(n)[..n - 1] == Zeroes(n - 1);
      WeighZero(0, n - 1);
    }
  }

  /** The highest limb that differs decides the order. */
  lemma HighestDecides(a: seq<nat>, b: seq<nat>, k: nat)
    requires |a| == |b| && Limbed(a) && Limbed(b) && k < |a| && a[k + 1..] == b[k + 1..] && a[k] < b[k]
    ensures Val(a) < Val(b)
  {
    ValCut(a, k + 1);
    ValCut(b, k + 1);
    ValPrefix(a, k);
    ValPrefix(b, k);
    ValBound(a[..k]);
    WeighMonotone(a[k], b[k], k);
  }

  /** Same value, same limbs. */
  lemma {:induction false} ValInjective(a: seq<nat>, b: seq<nat>)
    requires |a| == |b| && Limbed(a) && Limbed(b) && Val(a) == Val(b)
    ensures a == b
  {
    if a != [] {
      var k := |a| - 1;
      if a[k] < b[k] { HighestDecides(a, b, k); }
      if b[k] < a[k] { HighestDecides(b, a, k); }
      ValInjective(a[..k], b[..k]);
      assert a == a[..k] + [a[k]] && b == b[..k] + [b[k]];
    }
  }

  // ---------------------------------------------------------------- carry loops

  /** A result below the range and a carry above it are remainder and quotient. */
  lemma CarryOut(low: nat, carry: nat, total: nat, k: nat)
    requires low < Pow(M, k) && low + Weigh(carry, k) == total
    ensures low == total % Range(k)
  {
    DivIs(total, Pow(M, k), carry, low);
  }

  lemma AddStep(low: nat, carry: nat, sum: nat, x: nat, y: nat, i: nat)
    requires low + Weigh(carry, i) == sum
    ensures var n := carry + x + y;
      low + Weigh(n % M, i) + Weigh(n / M, i + 1) == sum + Weigh(x, i) + Weigh(y, i)
  {
    WeighSplit(carry + x + y, i);
    WeighAdd(carry + x, y, i);
    WeighAdd(carry, x, i);
  }

  lemma ScaleStep(low: nat, carry: nat, b: nat, v: nat, x: nat, i: nat)
    requires low + Weigh(carry, i) == b * v
    ensures var n := carry + b * x;
      low + Weigh(n % M, i) + Weigh(n / M, i + 1) == b * (v + Weigh(x, i))
  {
    WeighSplit(carry + b * x, i);
    WeighAdd(carry, b * x, i);
    Regroup(b, x, Pow(M, i));
    Distribute(v, Weigh(x, i), b);
    Commute(b, v);
    Commute(b, Weigh(x, i));
    Commute(b, v + Weigh(x, i));
  }

  /** One step of a row of the long multiplication. */
  lemma RowStep(low: nat, carry: nat, was: nat, a: nat, v: nat, u: nat, x: nat, y: nat, n: nat, i: nat, j: nat)
    requires low + Weigh(carry, i + j) == was + Weigh(a * v, j)
    requires n == carry + x + a * y && u == v + Weigh(y, i)
    ensures low + Weigh(n % M, i + j) + Weigh(n / M, i + j + 1) == was + Weigh(x, i + j) + Weigh(a * u, j)
  {
    WeighSplit(carry + x + a * y, i + j);
    WeighAdd(carry + x, a * y, i + j);
    WeighAdd(carry, x, i + j);
    WeighProduct(a, y, i, j);
    Commute(a, v + Weigh(y, i));
    Distribute(v, Weigh(y, i), a);
    Commute(a, v);
    Commute(a, Weigh(y, i));
    WeighAdd(a * v, a * Weigh(y, i), j);
  }

  lemma ProductFits(a: nat, b: nat, carry: nat, x: nat)
    requires a < M && b < M && carry < M && x < M
    ensures carry + x + a * b < M * M && (carry + x + a * b) / M < M
  {
    MulMonotone(a, M - 1, b);
    MulMonotone(b, M - 1, M - 1);
    Commute(b, M - 1);
  }

  /** A whole row: what falls off the top is a multiple of the range. */
  lemma RowDone(a: nat, done: nat, was: nat, now: nat, carry: nat, b: seq<nat>, j: nat)
    requires j <= |b| && was == done % Range(|b|) && now < Range(|b|)
    requires now + Weigh(carry, |b|) == was + Weigh(a * Val(b[..|b| - j]), j)
    ensures now == (done + Weigh(a * Val(b), j)) % Range(|b|)
  {
    var w := |b|;
    hide *;
    ValCut(b, w - j);
    RowSplits(a, Val(b[..w - j]), Val(b[w - j..]), j, w);
    RowRemainder(done, was, now, carry, a * Val(b[w - j..]), Weigh(a * Val(b[..w - j]), j), w);
  }

  lemma RowRemainder(done: nat, was: nat, now: nat, carry: nat, over: nat, row: nat, w: nat)
    requires was == done % Range(w) && now < Range(w) && now + Weigh(carry, w) == was + row
    ensures now == (done + (row + Weigh(over, w))) % Range(w)
  {
    var q := done / Range(w);
    QuotientRemainder(done, Range(w));
    WeighAdd(q, carry, w);
    WeighAdd(q + carry, over, w);
    CarryOut(now, q + carry + over, done + (row + Weigh(over, w)), w);
  }

  lemma RowSplits(a: nat, low: nat, high: nat, j: nat, w: nat)
    requires j <= w
    ensures Weigh(a * (low + Weigh(high, w - j)), j) == Weigh(a * low, j) + Weigh(a * high, w)
  {
    hide Weigh;
    Commute(a, low + Weigh(high, w - j));
    Distribute(low, Weigh(high, w - j), a);
    Commute(a, low);
    Commute(a, Weigh(high, w - j));
    WeighAdd(a * low, a * Weigh(high, w - j), j);
    WeighProduct(a, high, w - j, j);
  }

  lemma RowSum(a: seq<nat>, j: nat, v: nat)
    requires j < |a|
    ensures Val(a[..j]) * v + Weigh(a[j] * v, j) == Val(a[..j + 1]) * v
  {
    ValPrefix(a, j);
    Distribute(Val(a[..j]), Weigh(a[j], j), v);
    Regroup(a[j], v, Pow(M, j));
    Regroup(a[j], Pow(M, j), v);
    Regroup(v, a[j], Pow(M, j));
    Commute(v, a[j]);
    Commute(a[j] * Pow(M, j), v);
  }

  // ---------------------------------------------------------------- bits

  /** `a | b`, bit by bit. */
  function BitOr(a: nat, b: nat): nat {
    if a == 0 && b == 0 then 0
    else (if a % 2 == 1 || b % 2 == 1 then 1 else 0) + 2 * BitOr(a / 2, b / 2)
  }

  lemma {:induction false} BitOrZero(a: nat)
    ensures BitOr(a, 0) == a == BitOr(0, a)
  {
    if a > 0 { BitOrZero(a / 2); }
  }

  /** Bits below place `t` and bits from there up do not meet. */
  lemma {:induction false} BitOrApart(high: nat, low: nat, t: nat)
    requires low < Pow(2, t) && high % Pow(2, t) == 0
    ensures BitOr(high, low) == high + low == BitOr(low, high)
  {
    PowPositive(2, t);
    if t == 0 {
      BitOrZero(high);
    } else if high == 0 && low == 0 {
    } else {
      var p := Pow(2, t - 1);
      PowPositive(2, t - 1);
      assert Pow(2, t) == 2 * p;
      hide Pow;
      var q := high / (2 * p);
      QuotientRemainder(high, 2 * p);
      Regroup(q, 2, p);
      DivIs(high, 2, q * p, 0);
      MultipleOf(q, p);
      BitOrApart(high / 2, low / 2, t - 1);
    }
  }
}
