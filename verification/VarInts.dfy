/**
 Integers of variable length (core/src/serialize.h:391-457): digits to the base 128, most
 significant first, the top bit set in all but the last, and one subtracted from all but the last.
 */
module VarInts {
  import opened Arithmetic
  import opened CoinsRecord
  import opened Numerals
  import opened Prelude

  /** A value read from a stream, and what is left of the stream. */
  type Read<T> = Option<(T, seq<Byte>)>

  /** The bytes that carry on: those before the last. */
  function Leading(m: nat): seq<Byte> {
    (if m < 128 then [] else Leading(m / 128 - 1)) + [m % 128 + 128]
  }

  function VarInt(n: nat): (r: seq<Byte>)
    ensures |r| > 0
  {
    (if n < 128 then [] else Leading(n / 128 - 1)) + [n % 128]
  }

  function ReadVar(s: seq<Byte>, acc: nat): Read<nat> {
    if s == [] then None
    else if s[0] >= 128 then ReadVar(s[1..], acc * 128 + (s[0] - 128) + 1)
    else Some((acc * 128 + s[0], s[1..]))
  }

  // ---------------------------------------------------------------- there and back

  lemma {:induction false} ReadLeading(m: nat, rest: seq<Byte>)
    ensures ReadVar(Leading(m) + rest, 0) == ReadVar(rest, m + 1)
  {
    var b: Byte := m % 128 + 128;
    assert ReadVar([b] + rest, m / 128) == ReadVar(rest, m + 1) by {
      assert ([b] + rest)[1..] == rest;
    }
    if m >= 128 {
      ReadLeading(m / 128 - 1, [b] + rest);
      assert Leading(m) + rest == Leading(m / 128 - 1) + ([b] + rest);
    } else {
      assert Leading(m) + rest == [b] + rest;
    }
  }

  lemma LastRead(n: nat, b: Byte, rest: seq<Byte>)
    requires b == n % 128
    ensures ReadVar([b] + rest, n / 128) == Some((n, rest))
  {
    assert ([b] + rest)[1..] == rest;
    QuotientRemainder(n, 128);
  }

  /** What was written is read, and nothing more. */
  lemma ReadWritten(n: nat, rest: seq<Byte>)
    ensures ReadVar(VarInt(n) + rest, 0) == Some((n, rest))
  {
    var b: Byte := n % 128;
    LastRead(n, b, rest);
    hide ReadVar, Leading;
    if n >= 128 {
      ReadLeading(n / 128 - 1, [b] + rest);
      assert VarInt(n) + rest == Leading(n / 128 - 1) + ([b] + rest);
    } else {
      assert VarInt(n) + rest == [b] + rest;
    }
  }

  /** The bytes written for the digits read so far. */
  function Before(acc: nat): seq<Byte> { if acc == 0 then [] else Leading(acc - 1) }

  /** There is no other encoding: whatever is read as `n` starts with the bytes of `n`. */
  lemma {:induction false} OnlyEncoding(s: seq<Byte>, acc: nat)
    ensures ReadVar(s, acc).Some? ==>
      var (n, rest) := ReadVar(s, acc).value; Before(acc) + s == VarInt(n) + rest
    decreases |s|
  {
    hide Leading, VarInt, Before;
    if s != [] {
      var next: int := acc * 128 + s[0] - 127;
      assert s == [s[0]] + s[1..];
      BeforeGrows(acc, s[0]);
      if s[0] >= 128 {
        OnlyEncoding(s[1..], next);
        assert Before(acc) + s == Before(next) + s[1..];
      } else {
        assert Before(acc) + s == VarInt(acc * 128 + s[0]) + s[1..];
      }
    }
  }

  lemma BeforeGrows(acc: nat, b: Byte)
    ensures b >= 128 ==> Before(acc * 128 + (b - 128) + 1) == Before(acc) + [b]
    ensures b < 128 ==> VarInt(acc * 128 + b) == Before(acc) + [b]
  {
    DivIs(acc * 128 + b % 128, 128, acc, b % 128);
  }

  lemma {:induction false} LeadingMonotone(m: nat, n: nat)
    requires m <= n
    ensures |Leading(m)| <= |Leading(n)|
  {
    if m >= 128 { LeadingMonotone(m / 128 - 1, n / 128 - 1); }
  }

  /** Larger numbers do not take fewer bytes. */
  lemma LongerIsMore(m: nat, n: nat)
    requires m <= n
    ensures |VarInt(m)| <= |VarInt(n)|
  {
    if m >= 128 { LeadingMonotone(m / 128 - 1, n / 128 - 1); }
  }

  /** The least number that takes more than `k` bytes: 128, 16512, 2113664, and so on. */
  function Limit(k: nat): nat { if k == 0 then 0 else 128 * (Limit(k - 1) + 1) }

  lemma {:induction false} LeadingBeyond(m: nat, k: nat)
    ensures |Leading(m)| > k <==> m >= Limit(k)
  {
    if k > 0 && m >= 128 { LeadingBeyond(m / 128 - 1, k - 1); }
  }

  /** A number takes more than `k` bytes exactly from the limit on. */
  lemma LengthIs(n: nat, k: nat)
    ensures |VarInt(n)| > k <==> n >= Limit(k)
  {
    if k > 0 && n >= 128 { LeadingBeyond(n / 128 - 1, k - 1); }
  }

  /** Twice a number takes at most one byte more. */
  lemma TwiceIsOneMore(m: nat, n: nat)
    requires n <= 2 * m
    ensures |VarInt(n)| <= |VarInt(m)| + 1
  {
    var k := |VarInt(m)|;
    LengthIs(m, k);
    LengthIs(n, k + 1);
    assert Limit(k + 1) == 128 * (Limit(k) + 1);
  }

  // ---------------------------------------------------------------- the documented formula

  /** `sum(128^i * ((a[len-i-1] & 0x7F) + 1))` over bytes that are followed by one more. */
  function Weighed(s: seq<Byte>): nat {
    if s == [] then 0 else (s[0] % 128 + 1) * Pow(128, |s|) + Weighed(s[1..])
  }

  lemma {:induction false} WeighedLast(s: seq<Byte>, b: Byte)
    ensures Weighed(s + [b]) == 128 * Weighed(s) + 128 * (b % 128 + 1)
    decreases |s|
  {
    if s == [] {
      assert s + [b] == [b] && [b][1..] == [];
      assert Pow(128, 1) == 128 * Pow(128, 0);
    } else {
      WeighedLast(s[1..], b);
      assert (s + [b])[1..] == s[1..] + [b];
      assert Pow(128, |s| + 1) == 128 * Pow(128, |s|);
      Regroup(s[0] % 128 + 1, 128, Pow(128, |s|));
      Regroup(128, s[0] % 128 + 1, Pow(128, |s|));
    }
  }

  lemma LeadingStep(m: nat) returns (b: Byte, q: nat, r: nat)
    ensures b == r + 128 && b % 128 == r < 128 && m == q * 128 + r && q == m / 128
    ensures Leading(m) == (if m < 128 then [] else Leading(m / 128 - 1)) + [b]
  {
    b, q, r := m % 128 + 128, m / 128, m % 128;
    QuotientRemainder(m, 128);
  }

  lemma {:induction false} LeadingMeans(m: nat)
    ensures Weighed(Leading(m)) == 128 * (m + 1)
    decreases m
  {
    assert Weighed([]) == 0;
    hide Leading, Weighed;
    var b, q, r := LeadingStep(m);
    if m < 128 {
      WeighedLast([], b);
    } else {
      LeadingMeans(q - 1);
      WeighedLast(Leading(q - 1), b);
    }
  }

  lemma {:induction false} LeadingHigh(m: nat)
    ensures forall i :: 0 <= i < |Leading(m)| ==> Leading(m)[i] >= 128
    decreases m
  {
    hide Leading;
    var b, q, r := LeadingStep(m);
    if m >= 128 { LeadingHigh(m / 128 - 1); }
  }

  /** The bytes of a number: all but the last have the top bit, and the documented sum is the number. */
  lemma BytesMean(n: nat)
    ensures var a := VarInt(n);
      && a[|a| - 1] < 128 && (forall i :: 0 <= i < |a| - 1 ==> a[i] >= 128)
      && a[|a| - 1] % 128 + Weighed(a[..|a| - 1]) == n
  {
    var q, b: Byte := n / 128, n % 128;
    var front := if n < 128 then [] else Leading(q - 1);
    assert VarInt(n) == front + [b] && (front + [b])[..|front|] == front;
    QuotientRemainder(n, 128);
    assert b % 128 == b;
    hide Leading, VarInt;
    if n >= 128 {
      LeadingMeans(q - 1);
      LeadingHigh(q - 1);
      hide Weighed;
    }
  }

  lemma FromBytes(n: nat, s: seq<Byte>)
    requires ReadVar(s, 0) == Some((n, []))
    ensures VarInt(n) == s
  {
    OnlyEncoding(s, 0);
    assert VarInt(n) + [] == VarInt(n) && Before(0) + s == s;
  }

  lemma ReadOne(acc: nat, b: Byte)
    requires b < 128
    ensures var n: nat := acc * 128 + b; ReadVar([b], acc) == Some((n, []))
  {
    assert [b][1..] == [];
  }

  lemma ReadMore(acc: nat, b: Byte, s: seq<Byte>)
    requires b >= 128
    ensures ReadVar([b] + s, acc) == ReadVar(s, acc * 128 + (b - 128) + 1)
  {
    assert ([b] + s)[1..] == s;
  }

  lemma TwoBytes(a: Byte, b: Byte)
    requires a >= 128 > b
    ensures VarInt((a - 127) * 128 + b) == [a, b]
  {
    hide ReadVar;
    ReadMore(0, a, [b]);
    ReadOne(a - 127, b);
    FromBytes((a - 127) * 128 + b, [a] + [b]);
  }

  lemma ThreeBytes(a: Byte, b: Byte, c: Byte)
    requires a >= 128 && b >= 128 > c
    ensures VarInt(((a - 127) * 128 + b - 127) * 128 + c) == [a, b, c]
  {
    hide ReadVar;
    ReadMore(0, a, [b] + [c]);
    ReadMore(a - 127, b, [c]);
    ReadOne((a - 127) * 128 + b - 127, c);
    FromBytes(((a - 127) * 128 + b - 127) * 128 + c, [a] + ([b] + [c]));
    assert [a] + ([b] + [c]) == [a, b, c];
  }

  /** The documented examples; the documentation has other bytes for 16511 and 65535. */
  lemma KnownVarInts()
    ensures VarInt(0) == [0x00] && VarInt(1) == [0x01] && VarInt(127) == [0x7F]
    ensures VarInt(128) == [0x80, 0x00] && VarInt(255) == [0x80, 0x7F] && VarInt(256) == [0x81, 0x00]
    ensures VarInt(16383) == [0xFE, 0x7F] && VarInt(16384) == [0xFF, 0x00] && VarInt(16511) == [0xFF, 0x7F]
    ensures VarInt(65535) == [0x82, 0xFE, 0x7F] && VarInt(0x1_0000_0000) == [0x8E, 0xFE, 0xFE, 0xFF, 0x00]
  {
    hide Leading;
    assert VarInt(0) == [0x00] && VarInt(1) == [0x01] && VarInt(127) == [0x7F];
    hide VarInt;
    TwoBytes(0x80, 0x00);
    TwoBytes(0x80, 0x7F);
    TwoBytes(0x81, 0x00);
    TwoBytes(0xFE, 0x7F);
    TwoBytes(0xFF, 0x00);
    TwoBytes(0xFF, 0x7F);
    ThreeBytes(0x82, 0xFE, 0x7F);
    FiveBytes(0x8E, 0xFE, 0xFE, 0xFF, 0x00);
  }

  lemma FiveBytes(a: Byte, b: Byte, c: Byte, d: Byte, e: Byte)
    requires a >= 128 && b >= 128 && c >= 128 && d >= 128 > e
    ensures VarInt(((((a - 127) * 128 + b - 127) * 128 + c - 127) * 128 + d - 127) * 128 + e) == [a, b, c, d, e]
  {
    hide VarInt, ReadVar, Before;
    ReadMore(0, a, [b] + ([c] + ([d] + [e])));
    ReadMore(a - 127, b, [c] + ([d] + [e]));
    ReadMore((a - 127) * 128 + b - 127, c, [d] + [e]);
    ReadMore(((a - 127) * 128 + b - 127) * 128 + c - 127, d, [e]);
    ReadOne((((a - 127) * 128 + b - 127) * 128 + c - 127) * 128 + d - 127, e);
    FromBytes(((((a - 127) * 128 + b - 127) * 128 + c - 127) * 128 + d - 127) * 128 + e, [a] + ([b] + ([c] + ([d] + [e]))));
    assert [a] + ([b] + ([c] + ([d] + [e]))) == [a, b, c, d, e];
  }

  // ---------------------------------------------------------------- the functions

  /** The bytes of which `len`, at the end, are done, and whose digits are those of `n`. */
  function Todo(n: nat, len: nat): seq<Byte> { if len == 0 then VarInt(n) else Leading(n) }

  function DigitByte(n: nat, len: nat): Byte { n % 128 + if len == 0 then 0 else 128 }

  lemma TodoSplits(n: nat, len: nat)
    ensures Todo(n, len) == (if n < 128 then [] else Todo(n / 128 - 1, len + 1)) + [DigitByte(n, len)]
  {
  }

  method GetSizeOfVarInt(nIn: nat) returns (nRet: nat)
    ensures nRet == |VarInt(nIn)|
  {
    nRet := 0;
    var n := nIn;
    while true
      invariant nRet + |Todo(n, nRet)| == |VarInt(nIn)|
      decreases n
    {
      TodoSplits(n, nRet);
      nRet := nRet + 1;
      if n < 128 {
        break;
      }
      n := n / 128 - 1;
    }
  }

  lemma DigitMoves(n: nat, tmp: seq<Byte>, all: seq<Byte>)
    requires Todo(n, |tmp|) + Reversed(tmp) == all
    ensures var t := tmp + [DigitByte(n, |tmp|)];
      if n < 128 then Reversed(t) == all else Todo(n / 128 - 1, |t|) + Reversed(t) == all
  {
    hide Todo;
    hide Reversed;
    var b := DigitByte(n, |tmp|);
    var front := if n < 128 then [] else Todo(n / 128 - 1, |tmp| + 1);
    TodoSplits(n, |tmp|);
    ReversedLast(tmp, b);
    assert (front + [b]) + Reversed(tmp) == front + ([b] + Reversed(tmp));
  }

  lemma DigitWritten(r: seq<Byte>, tmp: seq<Byte>, len: nat)
    requires 0 < len <= |tmp|
    ensures r + Reversed(tmp[..len]) == (r + [tmp[len - 1]]) + Reversed(tmp[..len - 1])
  {
    assert tmp[..len] == tmp[..len - 1] + [tmp[len - 1]];
    ReversedLast(tmp[..len - 1], tmp[len - 1]);
  }

  /** The digits go into `tmp` from the last; then they are written from the first. */
  method WriteVarInt(os: seq<Byte>, nIn: nat) returns (r: seq<Byte>)
    ensures r == os + VarInt(nIn)
  {
    hide Leading;
    hide VarInt;
    hide Reversed;
    hide DigitByte;
    var tmp: seq<Byte> := [];
    var n := nIn;
    NothingDone(nIn);
    hide Todo;
    while true
      invariant Todo(n, |tmp|) + Reversed(tmp) == VarInt(nIn)
      decreases n
    {
      DigitMoves(n, tmp, VarInt(nIn));
      tmp := tmp + [DigitByte(n, |tmp|)];
      if n < 128 {
        break;
      }
      n := n / 128 - 1;
    }
    r := os;
    var len := |tmp|;
    assert tmp[..len] == tmp;
    while len > 0
      invariant 0 <= len <= |tmp| && r + Reversed(tmp[..len]) == os + VarInt(nIn)
    {
      DigitWritten(r, tmp, len);
      len := len - 1;
      r := r + [tmp[len]];
    }
    NothingLeft(r, tmp);
  }

  lemma NothingDone(n: nat)
    ensures Todo(n, 0) + Reversed([]) == VarInt(n)
  {
  }

  lemma NothingLeft(r: seq<Byte>, tmp: seq<Byte>)
    ensures r + Reversed(tmp[..0]) == r
  {
  }

  function Reversed(s: seq<Byte>): seq<Byte> {
    if s == [] then [] else [s[|s| - 1]] + Reversed(s[..|s| - 1])
  }

  lemma ReversedLast(s: seq<Byte>, b: Byte)
    ensures Reversed(s + [b]) == [b] + Reversed(s)
  {
    assert (s + [b])[..|s|] == s;
  }

  method ReadVarInt(s: seq<Byte>) returns (r: Read<nat>)
    ensures r == ReadVar(s, 0)
  {
    var n: nat, i: nat := 0, 0;
    while i < |s|
      invariant i <= |s| && ReadVar(s[i..], n) == ReadVar(s, 0)
    {
      var chData := s[i];
      assert s[i..][1..] == s[i + 1..];
      i := i + 1;
      n := n * 128 + chData % 128;
      if chData >= 128 {
        n := n + 1;
      } else {
        return Some((n, s[i..]));
      }
    }
    return None;
  }
}
