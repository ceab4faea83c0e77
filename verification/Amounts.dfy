/** Amounts with trailing zeroes taken out (core/src/compressor.cpp:132-184). */
module Amounts {
  import opened Arithmetic
  import opened Numerals

  const UINT64: nat := 0x1_0000_0000_0000_0000
  /** The largest configured supply: 670000000 coins. */
  const MAX_MONEY: nat := 670000000 * 100000000

  function Stripped(n: nat, e: nat): (r: (nat, nat))
    requires n > 0 && e <= 9
    ensures r.0 > 0 && e <= r.1 <= 9 && (r.1 < 9 ==> r.0 % 10 != 0) && r.0 <= n
    decreases n
  {
    if n % 10 == 0 && e < 9 then Stripped(n / 10, e + 1) else (n, e)
  }

  /** Not more zeroes could have been taken out. */
  predicate Reduced(m: nat, e: nat) { m > 0 && e <= 9 && (e < 9 ==> m % 10 != 0) }

  /** The code of `m` followed by `e` zeroes. */
  function Code(m: nat, e: nat): (x: nat)
    requires Reduced(m, e)
    ensures x > 0
  {
    if e < 9 then 1 + (m / 10 * 9 + m % 10 - 1) * 10 + e else 1 + (m - 1) * 10 + 9
  }

  function Compressed(n: nat): nat {
    if n == 0 then 0 else
      var (m, e) := Stripped(n, 0);
      Code(m, e)
  }

  function Scaled(n: nat, e: nat): nat
    decreases e
  {
    if e == 0 then n else Scaled(n * 10, e - 1)
  }

  function Decompressed(x: nat): nat {
    if x == 0 then 0 else
      var e, y := (x - 1) % 10, (x - 1) / 10;
      if e < 9 then Scaled(y / 9 * 10 + y % 9 + 1, e) else Scaled(y + 1, e)
  }

  lemma {:induction false} ScaledTen(n: nat, e: nat)
    ensures Scaled(n * 10, e) == 10 * Scaled(n, e)
    decreases e
  {
    if e > 0 { ScaledTen(n * 10, e - 1); }
  }

  lemma {:induction false} ScaledBack(n: nat, e: nat)
    requires n > 0 && e <= 9
    ensures var (m, f) := Stripped(n, e); Scaled(m, f - e) == n
    decreases n
  {
    if n % 10 == 0 && e < 9 {
      ScaledBack(n / 10, e + 1);
      var (m, f) := Stripped(n / 10, e + 1);
      ScaledTen(m, f - e - 1);
    }
  }

  lemma {:induction false} StrippedOfScaled(m: nat, k: nat, e: nat)
    requires m > 0 && e + k <= 9 && (e + k < 9 ==> m % 10 != 0)
    ensures Scaled(m, k) > 0 && Stripped(Scaled(m, k), e) == (m, e + k)
    decreases k
  {
    if k > 0 {
      ScaledTen(m, k - 1);
      StrippedOfScaled(m, k - 1, e + 1);
    }
  }

  /** The two digits of a code below the ninth exponent. */
  lemma Digits(q: nat, d: nat, e: nat)
    requires 1 <= d <= 9 && e <= 9
    ensures var y := q * 9 + d - 1;
      y / 9 == q && y % 9 == d - 1 && (y * 10 + e) / 10 == y && (y * 10 + e) % 10 == e
  {
  }

  lemma DecodedDigits(q: nat, d: nat, e: nat)
    requires 1 <= d <= 9 && e < 9
    ensures Decompressed(1 + (q * 9 + d - 1) * 10 + e) == Scaled(q * 10 + d, e)
  {
    hide Scaled;
    Digits(q, d, e);
  }

  lemma Decoded(m: nat, e: nat)
    requires Reduced(m, e)
    ensures Decompressed(Code(m, e)) == Scaled(m, e)
  {
    hide Scaled;
    if e < 9 {
      QuotientRemainder(m, 10);
      DecodedDigits(m / 10, m % 10, e);
      hide Decompressed;
    } else {
      DivIs((m - 1) * 10 + 9, 10, m - 1, 9);
    }
  }

  /** Every code but zero is that of some reduced number. */
  lemma Parsed(x: nat) returns (m: nat, e: nat)
    requires x > 0
    ensures Reduced(m, e) && Code(m, e) == x && Decompressed(x) == Scaled(m, e)
  {
    hide Scaled;
    var y := (x - 1) / 10;
    e := (x - 1) % 10;
    QuotientRemainder(x - 1, 10);
    if e < 9 {
      var q, d := y / 9, y % 9 + 1;
      QuotientRemainder(y, 9);
      m := q * 10 + d;
      DivIs(m, 10, q, d);
    } else {
      m := y + 1;
    }
  }

  lemma DecompressCompress(n: nat)
    ensures Decompressed(Compressed(n)) == n
  {
    if n > 0 {
      var (m, e) := Stripped(n, 0);
      ScaledBack(n, 0);
      Decoded(m, e);
      hide *;
    }
  }

  lemma CompressDecompress(x: nat)
    ensures Compressed(Decompressed(x)) == x
  {
    if x > 0 {
      var m, e := Parsed(x);
      StrippedOfScaled(m, e, 0);
      hide Code, Scaled, Stripped, Decompressed;
    }
  }

  lemma {:induction false} ScaledIs(n: nat, e: nat)
    ensures Scaled(n, e) == n * Pow(10, e)
    decreases e
  {
    if e > 0 {
      ScaledIs(n * 10, e - 1);
      Regroup(n, 10, Pow(10, e - 1));
    }
  }

  /**
   The documented rule: the zeroes at the end are counted up to nine; below nine the digit before
   them, which is not zero, and the rest are stored with the count, and at nine the rest alone.
   */
  lemma CodeIs(n: nat, d: nat, e: nat)
    requires 1 <= d <= 9 && e < 9
    ensures Compressed((10 * n + d) * Pow(10, e)) == 1 + 10 * (9 * n + d - 1) + e
  {
    hide Scaled, Stripped, Pow;
    DivIs(10 * n + d, 10, n, d);
    StrippedOfScaled(10 * n + d, e, 0);
    ScaledIs(10 * n + d, e);
  }

  lemma CodeOfNine(k: nat)
    requires k > 0
    ensures Compressed(k * Pow(10, 9)) == 1 + 10 * (k - 1) + 9
  {
    hide Scaled, Stripped, Pow;
    StrippedOfScaled(k, 9, 0);
    ScaledIs(k, 9);
  }

  lemma PowersOfTen()
    ensures Pow(10, 0) == 1 && Pow(10, 6) == 1000000 && Pow(10, 8) == 100000000 && Pow(10, 9) == 1000000000
  {
    assert Pow(10, 3) == 1000;
    assert Pow(10, 6) == 10 * (10 * (10 * Pow(10, 3)));
    assert Pow(10, 9) == 10 * Pow(10, 8) == 10 * (10 * (10 * Pow(10, 6)));
  }

  /** Pairs of the test of this compression, a cent being 10^6 and a coin 10^8. */
  lemma KnownCodes()
    ensures Compressed(0) == 0 && Compressed(1) == 1 && Compressed(1000000) == 7 && Compressed(100000000) == 9
    ensures Compressed(50 * 100000000) == 0x32 && Compressed(21000000 * 100000000) == 0x1406f40
  {
    assert Compressed(0) == 0;
    hide Stripped, Code, Pow, Compressed;
    PowersOfTen();
    CodeIs(0, 1, 0);
    CodeIs(0, 1, 6);
    CodeIs(0, 1, 8);
    CodeOfNine(5);
    CodeOfNine(2100000);
  }

  /** Nothing overflows 64 bits for an amount that can exist. */
  lemma CompressedIsSmall(n: nat)
    ensures Compressed(n) <= 9 * n + 9
    ensures n <= MAX_MONEY ==> Compressed(n) < UINT64
  {
    if n > 0 {
      var (m, e) := Stripped(n, 0);
      QuotientRemainder(m, 10);
    }
  }

  method CompressAmount(nAmount: nat) returns (x: nat)
    ensures x == Compressed(nAmount)
    ensures nAmount <= MAX_MONEY ==> x < UINT64
  {
    CompressedIsSmall(nAmount);
    var n := nAmount;
    if n == 0 {
      return 0;
    }
    var e := 0;
    while n % 10 == 0 && e < 9
      invariant 0 < n <= nAmount && e <= 9 && Stripped(n, e) == Stripped(nAmount, 0)
    {
      n := n / 10;
      e := e + 1;
    }
    if e < 9 {
      var d := n % 10;
      assert 1 <= d <= 9;
      n := n / 10;
      assert nAmount <= MAX_MONEY ==> (n * 9 + d - 1) * 10 < UINT64;
      return 1 + (n * 9 + d - 1) * 10 + e;
    } else {
      return 1 + (n - 1) * 10 + 9;
    }
  }

  method DecompressAmount(xIn: nat) returns (n: nat)
    ensures n == Decompressed(xIn)
  {
    var x := xIn;
    if x == 0 {
      return 0;
    }
    x := x - 1;
    var e := x % 10;
    x := x / 10;
    if e < 9 {
      var d := x % 9 + 1;
      x := x / 9;
      n := x * 10 + d;
    } else {
      n := x + 1;
    }
    ScaledGrows(n, e);
    while e > 0
      invariant Scaled(n, e) == Decompressed(xIn)
      invariant n <= Decompressed(xIn)
    {
      ScaledGrows(n * 10, e - 1);
      n := n * 10;
      e := e - 1;
    }
  }

  /** On the way to the result no value exceeds it. */
  lemma {:induction false} ScaledGrows(n: nat, e: nat)
    ensures n <= Scaled(n, e)
    decreases e
  {
    if e > 0 { ScaledGrows(n * 10, e - 1); }
  }
}
