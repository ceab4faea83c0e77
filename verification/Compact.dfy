/**
 The compact form of a target: eight bits of length in bytes, a sign bit and 23 bits of
 mantissa (core/src/arith_uint256.cpp:246-290).
 */
module Compact {
  import opened Arithmetic
  import opened Numerals
  import opened Limbs
  import opened ArithUint

  /** 256 to the power of `n`. */
  function Bytes(n: nat): (p: nat)
    ensures p > 0
  {
    PowPositive(256, n);
    Pow(256, n)
  }

  /** How many bytes a number has. */
  function ByteLen(v: nat): nat { if v == 0 then 0 else 1 + ByteLen(v / 256) }

  /** The top 24 bits, by whole bytes. */
  function TopBytesOf(v: nat, s: nat): nat {
    if s <= 3 then v * Bytes(3 - s) else v / Bytes(s - 3)
  }

  /** The mantissa and the length that go with it: a mantissa that would look negative is cut by a byte. */
  function Mantissa(v: nat): (nat, nat)
  {
    var s := ByteLen(v);
    var m := TopBytesOf(v, s);
    if m >= 0x800000 then (m / 256, s + 1) else (m, s)
  }

  function ToCompact(v: nat, fNegative: bool): nat {
    var (w, e) := Mantissa(v);
    e * 0x1000000 + (if fNegative && w != 0 then 0x800000 else 0) + w
  }

  datatype Target = Target(value: nat, negative: bool, overflow: bool)

  function Word(c: nat): nat {
    var (size, word) := (c / 0x1000000, c % 0x800000);
    if size <= 3 then word / Bytes(3 - size) else word
  }

  /** What a compact number stands for, in 256 bits. */
  function FromCompact(c: nat): Target {
    var size, word := c / 0x1000000, Word(c);
    Target(if size <= 3 then word else word * Bytes(size - 3) % Bytes(32),
           word != 0 && c / 0x800000 % 2 == 1,
           word != 0 && (size > 34 || (word > 0xff && size > 33) || (word > 0xffff && size > 32)))
  }

  // ---------------------------------------------------------------- lengths

  lemma BytesAdd(m: nat, n: nat)
    ensures Bytes(m + n) == Bytes(m) * Bytes(n)
  {
    PowAdd(256, m, n);
  }

  lemma FewBytes()
    ensures Bytes(0) == 1 && Bytes(1) == 0x100 && Bytes(2) == 0x10000 && Bytes(3) == 0x1000000 && Bytes(4) == M
  {
  }

  lemma AllBytes()
    ensures Bytes(32) == Range(8)
  {
    FewBytes();
    PowMul(256, 4, 8);
  }

  lemma {:induction false} ByteLenIs(v: nat)
    ensures v > 0 ==> ByteLen(v) > 0 && Bytes(ByteLen(v) - 1) <= v
    ensures v < Bytes(ByteLen(v)) && (v == 0 <==> ByteLen(v) == 0)
  {
    if v > 0 {
      ByteLenIs(v / 256);
      var n := ByteLen(v / 256);
      assert Bytes(n + 1) == 256 * Bytes(n);
      if n > 0 { assert Bytes(n) == 256 * Bytes(n - 1); }
    }
  }

  lemma ByteLenOf(v: nat, s: nat)
    requires s > 0 && Bytes(s - 1) <= v < Bytes(s)
    ensures ByteLen(v) == s
  {
    hide ByteLen, Pow;
    ByteLenIs(v);
    var n := ByteLen(v);
    if n < s { PowGrows(256, n, s - 1); }
    if s < n { PowGrows(256, s, n - 1); }
  }

  lemma ByteLenBelow(v: nat, n: nat)
    requires v < Bytes(n)
    ensures ByteLen(v) <= n
  {
    ByteLenIs(v);
    if ByteLen(v) > n { PowGrows(256, n, ByteLen(v) - 1); }
  }

  lemma EightBits(n: nat)
    ensures Pow(2, 8 * n) == Bytes(n)
  {
    PowMul(2, 8, n);
    assert Pow(2, 8) == 256;
  }

  /** Bits rounded up to bytes. */
  lemma BitsToBytes(n: nat, v: nat)
    requires IsBits(n, v)
    ensures (n + 7) / 8 == ByteLen(v)
  {
    var s := (n + 7) / 8;
    if n > 0 {
      EightBits(s);
      EightBits(s - 1);
      PowGrows(2, n, 8 * s);
      PowGrows(2, 8 * (s - 1), n - 1);
      ByteLenOf(v, s);
    }
  }

  // ---------------------------------------------------------------- the mantissa

  /** `w` is the mantissa of `v` at length `e`. */
  ghost predicate Represents(v: nat, w: nat, e: nat) {
    && 0x8000 <= w < 0x800000 && e >= 1
    && (e <= 3 ==> w == v * Bytes(3 - e))
    && (e > 3 ==> w == v / Bytes(e - 3))
  }

  lemma MantissaRepresents(v: nat)
    requires v > 0
    ensures Represents(v, Mantissa(v).0, Mantissa(v).1)
    ensures ByteLen(v) <= Mantissa(v).1 <= ByteLen(v) + 1
  {
    hide ByteLen;
    hide Pow;
    var s := ByteLen(v);
    ByteLenIs(v);
    if s <= 3 {
      ShortMantissa(v, s);
    } else {
      LongMantissa(v, s);
    }
    FewBytes();
  }

  lemma ShortMantissa(v: nat, s: nat)
    requires 1 <= s <= 3 && Bytes(s - 1) <= v < Bytes(s)
    ensures 0x10000 <= v * Bytes(3 - s) < 0x1000000
    ensures s < 3 ==> v * Bytes(3 - s) / 256 == v * Bytes(2 - s)
  {
    FewBytes();
    if s == 1 {
      assert v * Bytes(2) / 256 == v * 256;
    }
  }

  lemma LongMantissa(v: nat, s: nat)
    requires s > 3 && Bytes(s - 1) <= v < Bytes(s)
    ensures 0x10000 <= v / Bytes(s - 3) < 0x1000000
    ensures v / Bytes(s - 3) / 256 == v / Bytes(s - 2)
  {
    FewBytes();
    BytesAdd(2, s - 3);
    BytesAdd(3, s - 3);
    BytesAdd(1, s - 3);
    var p := Bytes(s - 3);
    FitsQuotient(v, p, 0x10000);
    FitsQuotient(v, p, 0x1000000);
    var q, r := v / p, v % p;
    QuotientRemainder(v, p);
    Distribute(256 * (q / 256), q % 256, p);
    Regroup(q / 256, 256, p);
    MulMonotone(q % 256, 255, p);
    DivIs(v, Bytes(s - 2), q / 256, q % 256 * p + r);
  }

  // ---------------------------------------------------------------- there and back

  /** What the mantissa and length say, once put together. */
  function Rebuilt(w: nat, e: nat): nat {
    if e <= 3 then w / Bytes(3 - e) else w * Bytes(e - 3)
  }

  /** What is rebuilt is the number or a little less. */
  lemma RebuiltIsClose(v: nat, w: nat, e: nat)
    requires v > 0 && Represents(v, w, e)
    ensures var y := Rebuilt(w, e);
      0 < y <= v && (v - y) * 0x8000 < y
  {
    if e <= 3 {
      MultipleOf(v, Bytes(3 - e));
    } else {
      var p := Bytes(e - 3);
      QuotientRemainder(v, p);
      MulMonotone(0x8000, w, p);
    }
  }

  lemma LongStable(v: nat, w: nat, s: nat)
    requires s > 3 && Bytes(s - 1) <= v < Bytes(s) && w == v / Bytes(s - 3) && w < 0x800000
    ensures Mantissa(w * Bytes(s - 3)) == (w, s)
  {
    hide Pow;
    LongMantissa(v, s);
    BytesAdd(2, s - 3);
    FewBytes();
    MulMonotone(0x10000, w, Bytes(s - 3));
    QuotientRemainder(v, Bytes(s - 3));
    ByteLenOf(w * Bytes(s - 3), s);
    MultipleOf(w, Bytes(s - 3));
  }

  lemma CutStable(v: nat, w: nat, s: nat)
    requires s >= 3 && v < Bytes(s) && w == v / Bytes(s - 2) && 0x8000 <= w < 0x800000
    ensures Mantissa(w * Bytes(s - 2)) == (w, s + 1)
  {
    hide Pow;
    FewBytes();
    BytesAdd(2, s - 3);
    BytesAdd(1, s - 3);
    Regroup(w, 256, Bytes(s - 3));
    MulMonotone(0x10000, w * 256, Bytes(s - 3));
    QuotientRemainder(v, Bytes(s - 2));
    ByteLenOf(w * Bytes(s - 2), s);
    MultipleOf(w * 256, Bytes(s - 3));
  }

  /** The rebuilt number has the same mantissa and length. */
  lemma RebuiltIsStable(v: nat)
    requires v > 0
    ensures var (w, e) := Mantissa(v); Mantissa(Rebuilt(w, e)) == (w, e)
  {
    var (w, e) := Mantissa(v);
    var s := ByteLen(v);
    MantissaRepresents(v);
    ByteLenIs(v);
    hide Mantissa;
    if e <= 3 {
      MultipleOf(v, Bytes(3 - e));
    } else if e == s {
      LongStable(v, w, s);
    } else {
      CutStable(v, w, s);
    }
  }

  /** The overflow flag is set exactly when the number does not fit 256 bits. */
  lemma OverflowIff(c: nat)
    requires c < M
    ensures var size, word := c / 0x1000000, Word(c);
      FromCompact(c).overflow <==> word != 0 && size > 3 && word * Bytes(size - 3) >= Bytes(32)
  {
    var size, word := c / 0x1000000, Word(c);
    FewBytes();
    if size > 3 {
      var p := Bytes(size - 3);
      if size > 34 {
        PowGrows(256, 32, size - 3);
        if word > 0 { MulMonotone(1, word, p); }
      } else if size == 34 {
        BytesAdd(1, 31);
        FitsQuotient(word * p, p, 0x100);
        Threshold(word, 0x100, p);
      } else if size == 33 {
        BytesAdd(2, 30);
        Threshold(word, 0x10000, p);
      } else {
        BytesAdd(3, 29);
        PowGrows(256, size - 3, 29);
        MulMonotone(word, 0x7fffff, p);
        MulMonotone(p, Bytes(29), 0x7fffff);
      }
    } else {
      WordSmall(c % 0x800000, Bytes(3 - size));
    }
  }

  lemma Threshold(word: nat, limit: nat, p: nat)
    requires p > 0
    ensures word * p >= limit * p <==> word >= limit
  {
    if word >= limit { MulMonotone(limit, word, p); } else { MulStrict(word, limit, p); }
  }

  lemma WordSmall(word: nat, p: nat)
    requires p > 0
    ensures word / p <= word
  {
    QuotientRemainder(word, p);
    MulGrows(p, word / p);
    Commute(p, word / p);
  }

  lemma Unpack(w: nat, e: nat, sign: bool)
    requires w < 0x800000
    ensures var c := e * 0x1000000 + (if sign then 0x800000 else 0) + w;
      c / 0x1000000 == e && c % 0x800000 == w && (c / 0x800000 % 2 == 1 <==> sign)
  {
    DivIs(e * 0x1000000 + (if sign then 0x800000 else 0) + w, 0x1000000, e, (if sign then 0x800000 else 0) + w);
    DivIs(e * 0x1000000 + (if sign then 0x800000 else 0) + w, 0x800000, 2 * e + (if sign then 1 else 0), w);
    DivIs(2 * e + (if sign then 1 else 0), 2, e, if sign then 1 else 0);
  }

  /** The number that a length, a sign and 23 bits stand for, before it is cut to 256 bits. */
  function Meant(e: nat, w: nat): nat { w * Bytes(e) / Bytes(3) }

  lemma ShortMeant(e: nat, w: nat)
    requires e <= 3
    ensures Meant(e, w) == w / Bytes(3 - e)
  {
    var p, q := Bytes(e), Bytes(3 - e);
    BytesAdd(e, 3 - e);
    hide Bytes;
    QuotientRemainder(w, q);
    Distribute(w / q * q, w % q, p);
    Regroup(w / q, q, p);
    MulStrict(w % q, q, p);
    Commute(p, q);
    DivIs(w * p, p * q, w / q, w % q * p);
  }

  lemma LongMeant(e: nat, w: nat)
    requires e >= 3
    ensures Meant(e, w) == w * Bytes(e - 3)
  {
    BytesAdd(e - 3, 3);
    hide Bytes;
    Regroup(w, Bytes(e - 3), Bytes(3));
    MultipleOf(w * Bytes(e - 3), Bytes(3));
  }

  /**
   What a compact number stands for, whatever its length: its low 23 bits times 256 to the length, less
   three places; the sign is bit 23, the number is kept to 256 bits, and the flag says when they are not enough.
   */
  lemma CompactMeans(e: nat, sign: bool, w: nat)
    requires e < 256 && w < 0x800000
    ensures var c := e * 0x1000000 + (if sign then 0x800000 else 0) + w;
      c < M && FromCompact(c) == Target(Meant(e, w) % Range(8), sign && Meant(e, w) > 0, Meant(e, w) >= Range(8))
  {
    AllBytes();
    hide Pow, Bytes, Meant, Range;
    var c := e * 0x1000000 + (if sign then 0x800000 else 0) + w;
    Unpack(w, e, sign);
    OverflowIff(c);
    if e <= 3 {
      ShortMeant(e, w);
      WordSmall(w, Bytes(3 - e));
      SmallFits(Meant(e, w));
    } else {
      LongMeant(e, w);
      if w > 0 { MulMonotone(1, w, Bytes(e - 3)); }
    }
  }

  lemma SmallFits(n: nat)
    requires n < 0x800000
    ensures n < Bytes(32) && n % Bytes(32) == n
  {
    FewBytes();
    PowGrows(256, 3, 32);
    hide Pow;
    DivIs(n, Bytes(32), 0, n);
  }

  /** Numbers of the test of this form, there and back. */
  lemma KnownTargets()
    ensures FromCompact(0x01123456).value == 0x12 && FromCompact(0x02123456).value == 0x1234
    ensures FromCompact(0x03123456).value == 0x123456 && FromCompact(0x04123456).value == 0x12345600
    ensures FromCompact(0x04923456) == Target(0x12345600, true, false) && FromCompact(0x01fedcba) == Target(0x7e, true, false)
    ensures FromCompact(0x05009234).value == 0x92340000
    ensures ToCompact(0x80, false) == 0x02008000 && ToCompact(0x12, false) == 0x01120000 && ToCompact(0x7e, true) == 0x01fe0000
    ensures ToCompact(0x1234, false) == 0x02123400 && ToCompact(0x12345600, true) == 0x04923456 && ToCompact(0x92340000, false) == 0x05009234
  {
    hide FromCompact, ToCompact;
    SomeCodes();
    OneTarget(0x123456, 1, false, 0x12);
    OneTarget(0x123456, 2, false, 0x1234);
    OneTarget(0x123456, 3, false, 0x123456);
    OneTarget(0x123456, 4, false, 0x12345600);
    OneTarget(0x123456, 4, true, 0x12345600);
    OneTarget(0x7edcba, 1, true, 0x7e);
    OneTarget(0x9234, 5, false, 0x92340000);
  }

  lemma OneTarget(w: nat, e: nat, sign: bool, n: nat)
    requires 0 < w < 0x800000 && 1 <= e <= 5 && n > 0
    requires n == if e == 1 then w / 0x10000 else if e == 2 then w / 0x100 else if e == 3 then w else if e == 4 then w * 0x100 else w * 0x10000
    ensures FromCompact(e * 0x1000000 + (if sign then 0x800000 else 0) + w) == Target(n, sign, false)
  {
    hide Bytes, Pow, FromCompact;
    FewBytes();
    FiveFit();
    UnpackedTarget(w, e, sign);
  }

  lemma FiveFit()
    ensures 0x100_0000_0000 <= Bytes(32)
  {
    FewBytes();
    PowGrows(256, 5, 32);
    assert Bytes(5) == 256 * Bytes(4);
  }

  lemma SomeCodes()
    ensures ToCompact(0x80, false) == 0x02008000 && ToCompact(0x12, false) == 0x01120000 && ToCompact(0x7e, true) == 0x01fe0000
    ensures ToCompact(0x1234, false) == 0x02123400 && ToCompact(0x12345600, true) == 0x04923456 && ToCompact(0x92340000, false) == 0x05009234
  {
    FewBytes();
    hide Pow;
    ByteLenOf(0x80, 1);
    ByteLenOf(0x12, 1);
    ByteLenOf(0x7e, 1);
    ByteLenOf(0x1234, 2);
    ByteLenOf(0x12345600, 4);
    ByteLenOf(0x92340000, 4);
    hide ByteLen;
  }

  lemma MantissaOfZero()
    ensures Mantissa(0) == (0, 0)
  {
  }

  /** What a mantissa, a length and a sign stand for, as long as it fits. */
  lemma UnpackedTarget(w: nat, e: nat, sign: bool)
    requires 0 < w < 0x800000 && e <= 33 && 0 < Rebuilt(w, e) < Bytes(32)
    ensures var c := e * 0x1000000 + (if sign then 0x800000 else 0) + w;
      c < M && FromCompact(c) == Target(Rebuilt(w, e), sign, false)
  {
    hide Bytes;
    var c := e * 0x1000000 + (if sign then 0x800000 else 0) + w;
    Unpack(w, e, sign);
    OverflowIff(c);
    if e > 3 { DivIs(Rebuilt(w, e), Bytes(32), 0, Rebuilt(w, e)); }
  }

  /** The flags and the value that come back are those that went in, the value rounded down by less than 1 part in 2^15. */
  lemma ThereAndBack(v: nat, fNegative: bool)
    requires v < Bytes(32)
    ensures ToCompact(v, fNegative) < M
    ensures var t := FromCompact(ToCompact(v, fNegative));
      && t.value <= v && (v > 0 ==> (v - t.value) * 0x8000 < t.value)
      && !t.overflow && t.negative == (fNegative && v > 0)
  {
    if v == 0 {
      MantissaOfZero();
      Unpack(0, 0, false);
      WordSmall(0, Bytes(3));
    } else {
      hide Mantissa, FromCompact, Bytes, Rebuilt, ByteLen;
      var (w, e) := Mantissa(v);
      MantissaRepresents(v);
      RebuiltIsClose(v, w, e);
      ByteLenBelow(v, 32);
      UnpackedTarget(w, e, fNegative);
    }
  }

  /** Encoding what was decoded changes nothing. */
  lemma EncodingIsStable(v: nat, fNegative: bool)
    requires v < Bytes(32)
    ensures ToCompact(FromCompact(ToCompact(v, fNegative)).value, fNegative) == ToCompact(v, fNegative)
  {
    if v == 0 {
      MantissaOfZero();
      ThereAndBack(v, fNegative);
    } else {
      hide Mantissa, FromCompact, Bytes, Rebuilt, ByteLen;
      var (w, e) := Mantissa(v);
      MantissaRepresents(v);
      RebuiltIsClose(v, w, e);
      RebuiltIsStable(v);
      ByteLenBelow(v, 32);
      UnpackedTarget(w, e, fNegative);
    }
  }

  // ---------------------------------------------------------------- the methods

  /** `low << 8 * (3 - nSize)` cut to 32 bits. */
  function Moved(low: nat, nSize: nat): nat
    requires nSize <= 3
  {
    low * Bytes(3 - nSize) % M
  }

  lemma ShortTop(v: nat, s: nat)
    requires s == ByteLen(v) <= 3
    ensures Moved(v % (M * M), s) == TopBytesOf(v, s) < 0x1000000
  {
    hide ByteLen;
    FewBytes();
    ByteLenIs(v);
    if s > 0 { ShortMantissa(v, s); }
    PowGrows(256, s, 3);
  }

  lemma LongTop(v: nat, s: nat)
    requires s == ByteLen(v) > 3
    ensures Pow(2, 8 * (s - 3)) > 0 && v / Pow(2, 8 * (s - 3)) % (M * M) % M == TopBytesOf(v, s) < 0x1000000
  {
    hide ByteLen;
    hide Pow;
    EightBits(s - 3);
    ByteLenIs(v);
    LongMantissa(v, s);
    Untouched(v / Bytes(s - 3));
  }

  lemma Untouched(q: nat)
    requires q < 0x1000000
    ensures q % (M * M) % M == q
  {
  }

  method TopBytes(a: BaseUint, nSize: nat) returns (nCompact: nat)
    requires a.Valid() && nSize == ByteLen(a.Value())
    ensures nCompact == TopBytesOf(a.Value(), nSize) < 0x1000000
  {
    hide Val;
    hide Bytes;
    hide ByteLen;
    hide TopBytesOf;
    hide Moved;
    hide Pow;
    hide Limbed;
    if nSize <= 3 {
      ShortTop(a.Value(), nSize);
      var low := a.GetLow64();
      nCompact := Moved(low, nSize);
    } else {
      LongTop(a.Value(), nSize);
      var bn := new BaseUint.Copy(a);
      SameLimbs(a, bn);
      bn.ShiftRightAssign(8 * (nSize - 3));
      var low := bn.GetLow64();
      nCompact := low % M;
    }
  }

  lemma SameLimbs(a: BaseUint, b: BaseUint)
    requires a.pn[..] == b.pn[..]
    ensures a.Value() == b.Value()
  {
  }

  /** The sign bit of the top bytes decides whether they are cut; both assertions of the original. */
  lemma PackedIs(v: nat, fNegative: bool)
    requires v < Bytes(32)
    ensures var s := ByteLen(v);
      var m := TopBytesOf(v, s);
      var cut := m / 0x800000 % 2 == 1;
      var w, e := if cut then m / 256 else m, if cut then s + 1 else s;
      && w < 0x800000 && e < 256
      && ToCompact(v, fNegative) == e * 0x1000000 + (if fNegative && w != 0 then 0x800000 else 0) + w
  {
    hide ByteLen, Pow;
    var s := ByteLen(v);
    var m := TopBytesOf(v, s);
    ByteLenBelow(v, 32);
    TopBytesFit(v);
    DivIs(m, 0x800000, if m >= 0x800000 then 1 else 0, if m >= 0x800000 then m - 0x800000 else m);
  }

  lemma TopBytesFit(v: nat)
    ensures TopBytesOf(v, ByteLen(v)) < 0x1000000
  {
    hide ByteLen, Pow;
    if v == 0 {
      ByteLenIs(0);
      assert 0 * Bytes(3) == 0;
    } else {
      ByteLenIs(v);
      if ByteLen(v) <= 3 { ShortMantissa(v, ByteLen(v)); } else { LongMantissa(v, ByteLen(v)); }
    }
  }

  method GetCompact(a: BaseUint, fNegative: bool) returns (r: nat)
    requires a.Valid() && a.pn.Length == 8
    ensures r == ToCompact(a.Value(), fNegative)
  {
    hide ByteLen, Pow, Val, ToCompact;
    ghost var v := a.Value();
    ValBound(a.pn[..]);
    AllBytes();
    PackedIs(v, fNegative);
    var bits := a.Bits();
    BitsToBytes(bits, v);
    var nSize := (bits + 7) / 8;
    var nCompact := TopBytes(a, nSize);
    if nCompact / 0x800000 % 2 == 1 {
      nCompact := nCompact / 256;
      nSize := nSize + 1;
    }
    assert nCompact < 0x800000;
    assert nSize < 256;
    r := nSize * 0x1000000 + (if fNegative && nCompact != 0 then 0x800000 else 0) + nCompact;
  }

  method SetCompact(a: BaseUint, nCompact: nat) returns (fNegative: bool, fOverflow: bool)
    requires a.Valid() && a.pn.Length == 8 && nCompact < M
    modifies a.pn
    ensures a.Valid() && Target(a.Value(), fNegative, fOverflow) == FromCompact(nCompact)
  {
    AllBytes();
    FewBytes();
    var nSize := nCompact / 0x1000000;
    var nWord := nCompact % 0x800000;
    if nSize <= 3 {
      WordSmall(nWord, Bytes(3 - nSize));
      nWord := nWord / Bytes(3 - nSize);
      a.Assign64(nWord);
    } else {
      a.Assign64(nWord);
      EightBits(nSize - 3);
      a.ShiftLeftAssign(8 * (nSize - 3));
    }
    fNegative := nWord != 0 && nCompact / 0x800000 % 2 == 1;
    fOverflow := nWord != 0 && (nSize > 34 || (nWord > 0xff && nSize > 33) || (nWord > 0xffff && nSize > 32));
  }
}
