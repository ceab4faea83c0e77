/** Numbers written in a base, largest digit first. */
module Numerals {
  import opened Arithmetic

  function Pow(b: nat, n: nat): nat { if n == 0 then 1 else b * Pow(b, n - 1) }

  predicate DigitsOf(base: nat, s: seq<nat>) { forall i :: 0 <= i < |s| ==> s[i] < base }

  function Num(base: nat, s: seq<nat>): nat {
    if s == [] then 0 else Num(base, s[..|s| - 1]) * base + s[|s| - 1]
  }

  /** The shortest numeral: none at all for zero. */
  function Numeral(base: nat, n: nat): (r: seq<nat>)
    requires base > 1
  {
    if n == 0 then [] else Smaller(n, base); Numeral(base, n / base) + [n % base]
  }

  lemma Smaller(n: nat, base: nat)
    requires n > 0 && base > 1
    ensures n / base < n
  {
    FitsQuotient(n, base, n);
    MulStrict(1, base, n);
  }

  function Zeroes(n: nat): (r: seq<nat>)
    ensures |r| == n && forall i :: 0 <= i < n ==> r[i] == 0
  {
    seq(n, _ => 0)
  }

  function LeadingZeroes(s: seq<nat>): (n: nat)
    ensures n <= |s| && forall i :: 0 <= i < n ==> s[i] == 0
    ensures n < |s| ==> s[n] != 0
  {
    if s == [] || s[0] != 0 then 0 else 1 + LeadingZeroes(s[1..])
  }

  /** The same number in another base, with one zero for each leading zero. */
  function Converted(from: nat, to: nat, s: seq<nat>): seq<nat>
    requires to > 1
  {
    Zeroes(LeadingZeroes(s)) + Numeral(to, Num(from, s))
  }

  // ---------------------------------------------------------------- powers

  lemma {:induction false} PowAdd(b: nat, m: nat, n: nat)
    ensures Pow(b, m + n) == Pow(b, m) * Pow(b, n)
  {
    if m > 0 {
      PowAdd(b, m - 1, n);
      Regroup(b, Pow(b, m - 1), Pow(b, n));
    }
  }

  lemma {:induction false} PowMul(b: nat, m: nat, n: nat)
    ensures Pow(Pow(b, m), n) == Pow(b, m * n)
  {
    if n > 0 {
      PowMul(b, m, n - 1);
      assert m * n == m + m * (n - 1);
      PowAdd(b, m, m * (n - 1));
    } else {
      assert m * 0 == 0;
    }
  }

  lemma {:induction false} PowPositive(b: nat, n: nat)
    requires b > 0
    ensures Pow(b, n) > 0
  {
    if n > 0 {
      PowPositive(b, n - 1);
      MulStrict(0, b, Pow(b, n - 1));
    }
  }

  lemma {:induction false} PowGrows(b: nat, m: nat, n: nat)
    requires b > 0 && m <= n
    ensures Pow(b, m) <= Pow(b, n)
  {
    if m < n {
      PowGrows(b, m, n - 1);
      PowPositive(b, n - 1);
      MulMonotone(1, b, Pow(b, n - 1));
    }
  }

  lemma {:induction false} PowMonotone(a: nat, b: nat, n: nat)
    requires a <= b
    ensures Pow(a, n) <= Pow(b, n)
  {
    if n > 0 {
      PowMonotone(a, b, n - 1);
      MulMonotone(a, b, Pow(a, n - 1));
      MulMonotone(Pow(a, n - 1), Pow(b, n - 1), b);
    }
  }

  lemma {:induction false} PowStrict(a: nat, b: nat, n: nat)
    requires a < b && n > 0
    ensures Pow(a, n) < Pow(b, n)
  {
    PowMonotone(a, b, n - 1);
    MulMonotone(Pow(a, n - 1), Pow(b, n - 1), a);
    PowPositive(b, n - 1);
    MulStrict(a, b, Pow(b, n - 1));
  }

  /** Roots keep the order. */
  lemma RootMonotone(a: nat, b: nat, n: nat)
    requires n > 0 && Pow(a, n) <= Pow(b, n)
    ensures a <= b
  {
    if b < a { PowStrict(b, a, n); }
  }

  // ---------------------------------------------------------------- values

  lemma NumNothing(base: nat)
    ensures Num(base, []) == 0 && Pow(base, 0) == 1
  {
  }

  lemma NumLast(base: nat, s: seq<nat>, x: nat)
    ensures Num(base, s + [x]) == Num(base, s) * base + x
  {
    assert (s + [x])[..|s|] == s;
  }

  lemma Carry(base: nat, a: nat, p: nat, low: nat)
    ensures (a * p + low) * base == a * (base * p) + low * base
  {
    Distribute(a * p, low, base);
    Regroup(a, p, base);
  }

  lemma {:induction false} NumConcat(base: nat, a: seq<nat>, b: seq<nat>)
    ensures Num(base, a + b) == Num(base, a) * Pow(base, |b|) + Num(base, b)
  {
    if b == [] {
      assert a + b == a;
    } else {
      var init, x := b[..|b| - 1], b[|b| - 1];
      NumConcat(base, a, init);
      assert a + b == (a + init) + [x];
      NumLast(base, a + init, x);
      NumLast(base, init, x);
      assert init + [x] == b;
      Carry(base, Num(base, a), Pow(base, |init|), Num(base, init));
    }
  }

  lemma NumFirst(base: nat, x: nat, s: seq<nat>)
    ensures Num(base, [x] + s) == x * Pow(base, |s|) + Num(base, s)
  {
    NumConcat(base, [x], s);
    NumLast(base, [], x);
    assert [] + [x] == [x];
  }

  lemma {:induction false} NumBound(base: nat, s: seq<nat>)
    requires base > 0 && DigitsOf(base, s)
    ensures Num(base, s) < Pow(base, |s|)
  {
    if s != [] {
      var init := s[..|s| - 1];
      NumBound(base, init);
      MulMonotone(Num(base, init) + 1, Pow(base, |init|), base);
      Distribute(Num(base, init), 1, base);
      Commute(Pow(base, |init|), base);
    }
  }

  lemma {:induction false} NumOfZeroes(base: nat, n: nat, s: seq<nat>)
    ensures Num(base, Zeroes(n) + s) == Num(base, s)
  {
    if n == 0 {
      assert Zeroes(0) + s == s;
    } else {
      NumOfZeroes(base, n - 1, s);
      assert Zeroes(n) + s == [0] + (Zeroes(n - 1) + s);
      NumFirst(base, 0, Zeroes(n - 1) + s);
    }
  }

  // ---------------------------------------------------------------- numerals and values

  lemma FitsFirst(base: nat, n: nat)
    requires base > 1 && n > 0
    ensures n / base == 0 ==> n % base != 0
  {
    QuotientRemainder(n, base);
  }

  lemma {:induction false} NumOfNumeral(base: nat, n: nat)
    requires base > 1
    ensures Num(base, Numeral(base, n)) == n && DigitsOf(base, Numeral(base, n))
    ensures Numeral(base, n) != [] ==> Numeral(base, n)[0] != 0
  {
    assert Num(base, []) == 0;
    hide Num;
    if n > 0 {
      Smaller(n, base);
      QuotientRemainder(n, base);
      NumOfNumeral(base, n / base);
      NumLast(base, Numeral(base, n / base), n % base);
      FitsFirst(base, n);
    }
  }

  lemma {:induction false} NumeralOfNum(base: nat, s: seq<nat>)
    requires base > 1 && DigitsOf(base, s) && (s != [] ==> s[0] != 0)
    ensures Numeral(base, Num(base, s)) == s
  {
    if s != [] {
      var init, x := s[..|s| - 1], s[|s| - 1];
      NumeralOfNum(base, init);
      if init != [] { NonZero(base, init); }
      DivIs(Num(base, s), base, Num(base, init), x);
      if init == [] { assert Num(base, s) == x; }
      else { MulGrows(base, Num(base, init)); }
      assert s == init + [x];
    }
  }

  lemma NonZero(base: nat, s: seq<nat>)
    requires base > 1 && s != [] && s[0] != 0
    ensures Num(base, s) > 0
  {
    assert s == [s[0]] + s[1..];
    NumFirst(base, s[0], s[1..]);
    PowPositive(base, |s| - 1);
    MulMonotone(1, s[0], Pow(base, |s| - 1));
  }

  lemma {:induction false} LeadingOf(n: nat, s: seq<nat>)
    requires s != [] ==> s[0] != 0
    ensures LeadingZeroes(Zeroes(n) + s) == n
  {
    var t := Zeroes(n) + s;
    if n > 0 {
      LeadingOf(n - 1, s);
      assert t[1..] == Zeroes(n - 1) + s;
    } else {
      assert t == s;
    }
  }

  /** A numeral without its leading zeroes is the shortest one of its number. */
  lemma NumeralIsRest(base: nat, s: seq<nat>)
    requires base > 1 && DigitsOf(base, s)
    ensures Numeral(base, Num(base, s)) == s[LeadingZeroes(s)..]
  {
    var n := LeadingZeroes(s);
    assert s == Zeroes(n) + s[n..];
    NumOfZeroes(base, n, s[n..]);
    NumeralOfNum(base, s[n..]);
  }

  lemma ConvertedDigits(from: nat, to: nat, s: seq<nat>)
    requires to > 1
    ensures DigitsOf(to, Converted(from, to, s))
  {
    NumOfNumeral(to, Num(from, s));
  }

  /** Converting there and back restores every digit, leading zeroes included. */
  lemma ConvertedBack(from: nat, to: nat, s: seq<nat>)
    requires from > 1 && to > 1 && DigitsOf(from, s)
    ensures Converted(to, from, Converted(from, to, s)) == s
  {
    var n := LeadingZeroes(s);
    var t := Numeral(to, Num(from, s));
    NumOfNumeral(to, Num(from, s));
    LeadingOf(n, t);
    NumOfZeroes(to, n, t);
    NumeralIsRest(from, s);
    assert s == Zeroes(n) + s[n..];
  }
}
