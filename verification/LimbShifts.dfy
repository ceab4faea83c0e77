/** What shifting limbs by whole limbs and bits does to the value (core/src/arith_uint256.cpp:61-96). */
module LimbShifts {
  import opened Arithmetic
  import opened Numerals
  import opened Limbs

  /** `1 << t` for a place within a limb. */
  function Bit(t: nat): (p: nat)
    ensures p > 0
  {
    PowPositive(2, t);
    Pow(2, t)
  }

  lemma BitsOfLimb(t: nat)
    requires t <= 32
    ensures Bit(t) * Bit(32 - t) == M && Bit(t) <= M
  {
    TwoTo32();
    hide Pow;
    PowAdd(2, t, 32 - t);
    PowGrows(2, t, 32);
  }

  lemma TwoTo32()
    ensures Pow(2, 32) == M
  {
    assert Pow(2, 8) == 256;
    PowAdd(2, 8, 8);
    PowAdd(2, 16, 16);
  }

  /** `x` shifted up by `t` bits, nothing lost. */
  function Times(x: nat, t: nat): nat { x * Bit(t) }

  /** The two parts of `x << t` in a limb of 32 bits and the one above. */
  function LowOf(x: nat, t: nat): nat { x * Bit(t) % M }
  function HighOf(x: nat, t: nat): nat
    requires t <= 32
  {
    x / Bit(32 - t)
  }

  lemma ShiftedParts(x: nat, t: nat)
    requires x < M && 0 < t < 32
    ensures x * Bit(t) == LowOf(x, t) + M * HighOf(x, t)
    ensures HighOf(x, t) < Bit(t) && LowOf(x, t) % Bit(t) == 0
    ensures BitOr(HighOf(x, t), LowOf(x, t)) == HighOf(x, t) + LowOf(x, t)
  {
    BitsOfLimb(t);
    Parts(x, Bit(t), Bit(32 - t));
    BitOrApart(LowOf(x, t), HighOf(x, t), t);
  }

  lemma Parts(x: nat, p: nat, q: nat)
    requires p > 0 && q > 0 && p * q == M && x < M
    ensures x * p == x * p % M + M * (x / q) && x / q < p && (x * p % M) % p == 0
  {
    var h, l := x / q, x % q;
    QuotientRemainder(x, q);
    Distribute(h * q, l, p);
    Regroup(h, q, p);
    MulStrict(l, q, p);
    Commute(p, q);
    DivIs(x * p, M, h, l * p);
    MultipleOf(l, p);
    if h >= p { MulMonotone(p, h, q); }
  }

  /** Limb `m` of the value shifted up by `k` limbs and `t` bits. */
  function UpLimb(a: seq<nat>, k: nat, t: nat, m: nat): nat
    requires t < 32
  {
    BitOr(if t != 0 && 0 <= m - k - 1 < |a| then HighOf(a[m - k - 1], t) else 0,
          if 0 <= m - k < |a| then LowOf(a[m - k], t) else 0)
  }

  function Up(a: seq<nat>, k: nat, t: nat): (r: seq<nat>)
    requires t < 32
    ensures |r| == |a| && forall m :: 0 <= m < |a| ==> r[m] == UpLimb(a, k, t, m)
  {
    seq(|a|, m requires 0 <= m < |a| => UpLimb(a, k, t, m))
  }

  /** What the limb below hands up to limb `m`. */
  function Spill(a: seq<nat>, t: nat, m: int): nat
    requires t < 32
  {
    if t != 0 && 0 <= m - 1 < |a| then HighOf(a[m - 1], t) else 0
  }

  lemma UpLimbIs(a: seq<nat>, k: nat, t: nat, m: nat)
    requires Limbed(a) && t < 32 && m < |a|
    ensures UpLimb(a, k, t, m) < M
    ensures m >= k ==> UpLimb(a, k, t, m) + M * Spill(a, t, m - k + 1) == Spill(a, t, m - k) + Times(a[m - k], t)
    ensures m < k ==> UpLimb(a, k, t, m) == 0
  {
    BitsOfLimb(t);
    if m >= k {
      var x := a[m - k];
      if t == 0 {
        assert Bit(0) == 1;
        DivIs(x, M, 0, x);
        BitOrZero(x);
      } else {
        ShiftedParts(x, t);
        if m > k { ShiftedParts(a[m - k - 1], t); }
        BitOrApart(LowOf(x, t), Spill(a, t, m - k), t);
        UpBelow(LowOf(x, t), Spill(a, t, m - k), t);
      }
    }
  }

  lemma UpBelow(low: nat, spill: nat, t: nat)
    requires t <= 32 && low < M && low % Bit(t) == 0 && spill < Bit(t)
    ensures low + spill < M
  {
    BitsOfLimb(t);
    var p, q := Bit(t), low / Bit(t);
    QuotientRemainder(low, p);
    if q >= Bit(32 - t) { MulMonotone(Bit(32 - t), q, p); Commute(p, Bit(32 - t)); }
    MulMonotone(q + 1, Bit(32 - t), p);
    Distribute(q, 1, p);
    Commute(p, Bit(32 - t));
  }

  /** The first `m` limbs, `k` of them empty, with what spills over, are the shifted lower limbs. */
  lemma {:induction false} UpPrefix(a: seq<nat>, k: nat, t: nat, m: nat)
    requires Limbed(a) && t < 32 && k <= m <= |a|
    ensures Val(Up(a, k, t)[..m]) + Weigh(Spill(a, t, m - k), m) == Weigh(Times(Val(a[..m - k]), t), k)
    decreases m - k
  {
    hide *;
    if m == k {
      UpStart(a, k, t);
    } else {
      var u, i := Up(a, k, t), m - 1 - k;
      UpPrefix(a, k, t, m - 1);
      UpLimbIs(a, k, t, m - 1);
      ValPrefix(u, m - 1);
      ValPrefix(a, i);
      UpStep(Val(u[..m - 1]), Spill(a, t, i), Val(a[..i]), Val(a[..i + 1]), a[i], u[m - 1], Spill(a, t, i + 1), k, t, i);
    }
  }

  lemma UpStart(a: seq<nat>, k: nat, t: nat)
    requires Limbed(a) && t < 32 && k <= |a|
    ensures Val(Up(a, k, t)[..k]) + Weigh(Spill(a, t, 0), k) == Weigh(Times(Val(a[..0]), t), k)
  {
    var u := Up(a, k, t);
    forall i | 0 <= i < k
      ensures u[i] == 0
    {
      UpLimbIs(a, k, t, i);
    }
    assert u[..k] == Zeroes(k);
    ValOfZeroes(k);
    WeighZero(0, k);
  }

  lemma UpStep(low: nat, spill: nat, v: nat, u: nat, x: nat, limb: nat, next: nat, k: nat, t: nat, i: nat)
    requires low + Weigh(spill, i + k) == Weigh(Times(v, t), k)
    requires limb + M * next == spill + Times(x, t) && u == v + Weigh(x, i)
    ensures low + Weigh(limb, i + k) + Weigh(next, i + k + 1) == Weigh(Times(u, t), k)
  {
    WeighAdd(limb, M * next, i + k);
    WeighUp(next, i + k);
    WeighAdd(spill, x * Bit(t), i + k);
    Distribute(v, Weigh(x, i), Bit(t));
    WeighAdd(v * Bit(t), Weigh(x, i) * Bit(t), k);
    Commute(Weigh(x, i), Bit(t));
    WeighProduct(Bit(t), x, i, k);
    Commute(x, Bit(t));
  }

  lemma TwoToThe(k: nat, t: nat)
    ensures Pow(2, 32 * k + t) == Pow(M, k) * Bit(t)
  {
    TwoTo32();
    hide Pow;
    PowAdd(2, 32 * k, t);
    PowMul(2, 32, k);
  }

  lemma {:induction false} UpLimbed(a: seq<nat>, k: nat, t: nat)
    requires Limbed(a) && t < 32
    ensures Limbed(Up(a, k, t))
  {
    forall m | 0 <= m < |a|
      ensures UpLimb(a, k, t, m) < M
    {
      UpLimbIs(a, k, t, m);
    }
  }

  /** Shifting by all limbs or more leaves nothing. */
  lemma UpAndOut(a: seq<nat>, k: nat, t: nat, v: nat)
    requires Limbed(a) && t < 32 && k > |a|
    ensures Val(Up(a, k, t)) == 0 == Weigh(v, k) % Range(|a|)
  {
    var w := |a|;
    forall m | 0 <= m < w
      ensures UpLimb(a, k, t, m) == 0
    {
      UpLimbIs(a, k, t, m);
    }
    assert Up(a, k, t) == Zeroes(w);
    ValOfZeroes(w);
    WeighTwice(v, k - w, w);
    MultipleOf(Weigh(v, k - w), Range(w));
  }

  lemma UpIs(a: seq<nat>, k: nat, t: nat)
    requires Limbed(a) && t < 32
    ensures Val(Up(a, k, t)) == Weigh(Val(a) * Bit(t), k) % Range(|a|)
  {
    hide Weigh;
    hide Val;
    hide Pow;
    var w := |a|;
    if k <= w {
      UpLimbed(a, k, t);
      ValBound(Up(a, k, t));
      UpPrefix(a, k, t, w);
      assert Up(a, k, t)[..w] == Up(a, k, t);
      ValCut(a, w - k);
      TopFallsOff(Val(Up(a, k, t)), Spill(a, t, w - k), Val(a[..w - k]), Val(a[w - k..]), k, t, w);
    } else {
      UpAndOut(a, k, t, Val(a) * Bit(t));
    }
  }

  /** Shifting up multiplies, modulo the range. */
  lemma UpIsProduct(a: seq<nat>, shift: nat)
    requires Limbed(a)
    ensures var r := Up(a, shift / 32, shift % 32);
      Limbed(r) && Val(r) == Val(a) * Pow(2, shift) % Range(|a|)
  {
    hide *;
    UpLimbed(a, shift / 32, shift % 32);
    UpIs(a, shift / 32, shift % 32);
    UpFactor(Val(a), shift / 32, shift % 32);
    assert 32 * (shift / 32) + shift % 32 == shift;
  }

  lemma UpFactor(v: nat, k: nat, t: nat)
    ensures Weigh(v * Bit(t), k) == v * Pow(2, 32 * k + t)
  {
    hide Pow;
    TwoToThe(k, t);
    Regroup(v, Bit(t), Pow(M, k));
  }

  lemma TopFallsOff(r: nat, spill: nat, low: nat, high: nat, k: nat, t: nat, w: nat)
    requires k <= w && r < Range(w) && r + Weigh(spill, w) == Weigh(low * Bit(t), k)
    ensures r == Weigh((low + Weigh(high, w - k)) * Bit(t), k) % Range(w)
  {
    Distribute(low, Weigh(high, w - k), Bit(t));
    WeighAdd(low * Bit(t), Weigh(high, w - k) * Bit(t), k);
    Commute(Weigh(high, w - k), Bit(t));
    WeighProduct(Bit(t), high, w - k, k);
    WeighAdd(spill, Bit(t) * high, w);
    CarryOut(r, spill + Bit(t) * high, Weigh((low + Weigh(high, w - k)) * Bit(t), k), w);
  }

  // ---------------------------------------------------------------- down

  /** Limb `m` of the value shifted down by `k` limbs and `t` bits. */
  function DownLimb(a: seq<nat>, k: nat, t: nat, m: nat): nat
    requires t < 32
  {
    BitOr(if m + k < |a| then a[m + k] / Bit(t) else 0,
          if t != 0 && m + k + 1 < |a| then LowOf(a[m + k + 1], 32 - t) else 0)
  }

  function Down(a: seq<nat>, k: nat, t: nat): (r: seq<nat>)
    requires t < 32
    ensures |r| == |a| && forall m :: 0 <= m < |a| ==> r[m] == DownLimb(a, k, t, m)
  {
    seq(|a|, m requires 0 <= m < |a| => DownLimb(a, k, t, m))
  }

  /** The bits that limb `m` hands down. */
  function Rest(a: seq<nat>, t: nat, m: nat): nat {
    if m < |a| then a[m] % Bit(t) else 0
  }

  lemma HandedDown(x: nat, t: nat)
    requires x < M && 0 < t < 32
    ensures LowOf(x, 32 - t) == (x % Bit(t)) * Bit(32 - t)
    ensures LowOf(x, 32 - t) % Bit(32 - t) == 0 && LowOf(x, 32 - t) < M
  {
    BitsOfLimb(t);
    var p, q := Bit(t), Bit(32 - t);
    var h, l := x / p, x % p;
    QuotientRemainder(x, p);
    Distribute(h * p, l, q);
    Regroup(h, p, q);
    MulStrict(l, p, q);
    DivIs(x * q, M, h, l * q);
    MultipleOf(l, q);
  }

  lemma DownLimbIs(a: seq<nat>, k: nat, t: nat, m: nat)
    requires Limbed(a) && t < 32 && m + k < |a|
    ensures DownLimb(a, k, t, m) < M
    ensures DownLimb(a, k, t, m) * Bit(t) + Rest(a, t, m + k) == a[m + k] + M * Rest(a, t, m + k + 1)
  {
    var x := a[m + k];
    QuotientRemainder(x, Bit(t));
    if t == 0 {
      assert Bit(0) == 1;
      BitOrZero(x);
    } else {
      PartBelow(x, t);
      if m + k + 1 < |a| {
        HandedDown(a[m + k + 1], t);
        TwoParts(x / Bit(t), a[m + k + 1] % Bit(t), LowOf(a[m + k + 1], 32 - t), t);
      } else {
        BitOrZero(x / Bit(t));
      }
    }
  }

  lemma PartBelow(x: nat, t: nat)
    requires x < M && 0 < t < 32
    ensures x / Bit(t) < Bit(32 - t) <= M
  {
    BitsOfLimb(t);
    BitsOfLimb(32 - t);
    QuotientRemainder(x, Bit(t));
    if x / Bit(t) >= Bit(32 - t) { MulMonotone(Bit(32 - t), x / Bit(t), Bit(t)); Commute(Bit(t), Bit(32 - t)); }
  }

  lemma TwoParts(h: nat, rest: nat, low: nat, t: nat)
    requires 0 < t < 32 && h < Bit(32 - t) && low < M && low == rest * Bit(32 - t) && low % Bit(32 - t) == 0
    ensures var y := BitOr(h, low);
      y < M && y * Bit(t) == h * Bit(t) + M * rest
  {
    var p, q := Bit(t), Bit(32 - t);
    BitsOfLimb(t);
    BitOrApart(low, h, 32 - t);
    UpBelow(low, h, 32 - t);
    Distribute(h, low, p);
    Regroup(rest, q, p);
    Commute(p, q);
  }

  lemma DownStep(low: nat, rest: nat, first: nat, v: nat, x: nat, limb: nat, next: nat, t: nat, i: nat)
    requires low * Bit(t) + first == v + Weigh(rest, i)
    requires limb * Bit(t) + rest == x + M * next
    ensures (low + Weigh(limb, i)) * Bit(t) + first == v + Weigh(x, i) + Weigh(next, i + 1)
  {
    WeighAdd(limb * Bit(t), rest, i);
    WeighAdd(x, M * next, i);
    WeighUp(next, i);
    Distribute(low, Weigh(limb, i), Bit(t));
    Regroup(limb, Pow(M, i), Bit(t));
    Regroup(limb, Bit(t), Pow(M, i));
  }

  /** The first `m` limbs hold the shifted limbs, but for the bits handed out and in. */
  lemma {:induction false} DownPrefix(a: seq<nat>, k: nat, t: nat, m: nat)
    requires Limbed(a) && t < 32 && m + k <= |a|
    ensures Val(Down(a, k, t)[..m]) * Bit(t) + Rest(a, t, k) == Val(a[k..][..m]) + Weigh(Rest(a, t, m + k), m)
  {
    if m == 0 {
      WeighZero(Rest(a, t, k), 0);
    } else {
      var d, b := Down(a, k, t), a[k..];
      DownPrefix(a, k, t, m - 1);
      DownLimbIs(a, k, t, m - 1);
      ValPrefix(d, m - 1);
      ValPrefix(b, m - 1);
      DownStep(Val(d[..m - 1]), Rest(a, t, m - 1 + k), Rest(a, t, k), Val(b[..m - 1]), b[m - 1], d[m - 1], Rest(a, t, m + k), t, m - 1);
    }
  }

  lemma {:induction false} EmptyTop(s: seq<nat>, m: nat)
    requires m <= |s| && forall i :: m <= i < |s| ==> s[i] == 0
    ensures Val(s) == Val(s[..m])
    decreases |s|
  {
    if m < |s| {
      var n := |s| - 1;
      EmptyTop(s[..n], m);
      assert s[..n][..m] == s[..m];
      WeighZero(0, n);
    } else {
      assert s[..m] == s;
    }
  }

  lemma DownEmpty(a: seq<nat>, k: nat, t: nat, m: nat)
    requires t < 32 && m < |a| <= m + k
    ensures Down(a, k, t)[m] == 0
  {
  }

  /** Shifting down divides. */
  lemma DownIsQuotient(a: seq<nat>, shift: nat)
    requires Limbed(a)
    ensures var r := Down(a, shift / 32, shift % 32);
      Limbed(r) && Pow(2, shift) > 0 && Val(r) == Val(a) / Pow(2, shift)
  {
    var k, t, w := shift / 32, shift % 32, |a|;
    var r := Down(a, k, t);
    PowPositive(2, shift);
    TwoToThe(k, t);
    forall m | 0 <= m < w
      ensures r[m] < M
    {
      if m + k < w { DownLimbIs(a, k, t, m); } else { DownEmpty(a, k, t, m); }
    }
    if k < w {
      var n := w - k;
      DownPrefix(a, k, t, n);
      WeighZero(0, n);
      assert a[k..][..n] == a[k..];
      forall i | n <= i < w ensures r[i] == 0 { DownEmpty(a, k, t, i); }
      EmptyTop(r, n);
      ValCut(a, k);
      ValBound(a[..k]);
      TwoSteps(Val(a), Val(a[k..]), Val(a[..k]), Val(r), Rest(a, t, k), Bit(t), Pow(M, k));
    } else {
      forall i | 0 <= i < w ensures r[i] == 0 { DownEmpty(a, k, t, i); }
      EmptyTop(r, 0);
      ValBound(a);
      PowGrows(M, w, k);
      MulMonotone(1, Bit(t), Pow(M, k));
      Commute(Bit(t), Pow(M, k));
      DivIs(Val(a), Pow(2, shift), 0, Val(a));
    }
  }

  /** Dividing by `p` and then by `b` is dividing by the product. */
  lemma TwoSteps(v: nat, high: nat, low: nat, q: nat, rest: nat, b: nat, p: nat)
    requires b > 0 && p > 0 && v == low + high * p && low < p && q * b + rest == high && rest < b
    ensures p * b > 0 && v / (p * b) == q
  {
    MulStrict(0, p, b);
    Distribute(q * b, rest, p);
    Regroup(q, b, p);
    MulMonotone(rest + 1, b, p);
    Distribute(rest, 1, p);
    Commute(b, p);
    DivIs(v, p * b, q, rest * p + low);
  }
}
