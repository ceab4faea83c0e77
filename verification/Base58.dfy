/**
 Base58 text (core/src/base58.cpp:19-120).  Bytes are numbers below 256.  A text is
 read up to its first NUL, as a C string is.
 */
module Base58 {
  import opened Arithmetic
  import opened Numerals
  import opened Prelude

  /** The alphabet: digits and letters without 0, I, O and l. */
  function Glyph(i: nat): char
    requires i < 58
  {
    if i < 9 then '1' + i as char
    else if i < 17 then 'A' + (i - 9) as char
    else if i < 22 then 'J' + (i - 17) as char
    else if i < 33 then 'P' + (i - 22) as char
    else if i < 44 then 'a' + (i - 33) as char
    else 'm' + (i - 44) as char
  }

  /** The same as a text. */
  const pszBase58 := "123456789" + "ABCDEFGH" + "JKLMN" + "PQRSTUVWXYZ" + "abcdefghijk" + "mnopqrstuvwxyz"

  predicate Bytes(b: seq<nat>) { DigitsOf(256, b) }

  predicate IsSpace(c: char) { c == ' ' || '\t' <= c <= '\r' }

  /** `strchr` in the alphabet, from position `k`: a digit, or -1. */
  function IndexFrom(c: char, k: nat): (i: int)
    requires k <= 58
    ensures i == -1 || (k <= i < 58 && Glyph(i) == c)
    decreases 58 - k
  {
    if k == 58 then -1 else if Glyph(k) == c then k else IndexFrom(c, k + 1)
  }

  function Digit(c: char): int { IndexFrom(c, 0) }

  predicate InAlphabet(s: string) { forall i :: 0 <= i < |s| ==> Digit(s[i]) >= 0 }

  function DigitsIn(s: string): (r: seq<nat>)
    requires InAlphabet(s)
    ensures |r| == |s| && DigitsOf(58, r)
  {
    seq(|s|, i requires 0 <= i < |s| => Digit(s[i]))
  }

  function Text(digits: seq<nat>): (r: string)
    requires DigitsOf(58, digits)
    ensures |r| == |digits|
  {
    seq(|digits|, i requires 0 <= i < |digits| => Glyph(digits[i]))
  }

  function CStr(s: string): string { if s == [] || s[0] == '\0' then [] else [s[0]] + CStr(s[1..]) }

  function StripLeft(s: string): string { if s != [] && IsSpace(s[0]) then StripLeft(s[1..]) else s }

  function StripRight(s: string): string {
    if s != [] && IsSpace(s[|s| - 1]) then StripRight(s[..|s| - 1]) else s
  }

  /** Without the spaces around it. */
  function Strip(s: string): string { StripRight(StripLeft(s)) }

  function Encoded(b: seq<nat>): string
  {
    ConvertedDigits(256, 58, b);
    Text(Converted(256, 58, b))
  }

  /** What a NUL-free text stands for. */
  function Decoded(s: string): Option<seq<nat>>
  {
    if InAlphabet(Strip(s)) then Some(Converted(58, 256, DigitsIn(Strip(s)))) else None
  }

  // ---------------------------------------------------------------- the alphabet

  lemma Ascending(i: nat, j: nat)
    requires i < j < 58
    ensures Glyph(i) < Glyph(j)
  {
  }

  lemma {:induction false} IndexFinds(i: nat, k: nat)
    requires k <= i < 58
    ensures IndexFrom(Glyph(i), k) == i
    decreases i - k
  {
    if k < i {
      Ascending(k, i);
      IndexFinds(i, k + 1);
    }
  }

  lemma TextDigits(digits: seq<nat>)
    requires DigitsOf(58, digits)
    ensures InAlphabet(Text(digits)) && DigitsIn(Text(digits)) == digits
  {
    forall i | 0 <= i < |digits|
      ensures Digit(Text(digits)[i]) == digits[i]
    {
      IndexFinds(digits[i], 0);
    }
  }

  lemma DigitsText(s: string)
    requires InAlphabet(s)
    ensures Text(DigitsIn(s)) == s
  {
  }

  lemma NoSpaceInAlphabet(c: char)
    requires Digit(c) >= 0
    ensures !IsSpace(c) && c != '\0'
  {
  }

  lemma NothingToStrip(s: string)
    requires InAlphabet(s)
    ensures Strip(s) == s
  {
    if s != [] {
      NoSpaceInAlphabet(s[0]);
      NoSpaceInAlphabet(s[|s| - 1]);
    }
  }

  /** `isspace` in the C locale. */
  lemma SpaceIs(c: char)
    ensures IsSpace(c) <==> c in [' ', '\t', '\n', '\U{000b}', '\U{000c}', '\r']
  {
  }

  /** Stripping drops spaces at both ends, and all of them. */
  lemma {:induction false} StripLeftIs(s: string) returns (n: nat)
    ensures n <= |s| && StripLeft(s) == s[n..] && (forall i :: 0 <= i < n ==> IsSpace(s[i])) && (n < |s| ==> !IsSpace(s[n]))
    decreases |s|
  {
    if s != [] && IsSpace(s[0]) {
      var m := StripLeftIs(s[1..]);
      n := m + 1;
      assert s[1..][m..] == s[n..];
    } else {
      n := 0;
    }
  }

  lemma {:induction false} StripRightIs(s: string) returns (n: nat)
    ensures n <= |s| && StripRight(s) == s[..n] && (forall i :: n <= i < |s| ==> IsSpace(s[i])) && (n > 0 ==> !IsSpace(s[n - 1]))
    decreases |s|
  {
    if s != [] && IsSpace(s[|s| - 1]) {
      n := StripRightIs(s[..|s| - 1]);
      assert s[..|s| - 1][..n] == s[..n];
    } else {
      n := |s|;
    }
  }

  lemma StripIs(s: string) returns (from: nat, to: nat)
    ensures from <= to <= |s| && Strip(s) == s[from..to]
    ensures forall i :: 0 <= i < from || to <= i < |s| ==> IsSpace(s[i])
    ensures from < to ==> !IsSpace(s[from]) && !IsSpace(s[to - 1])
  {
    from := StripLeftIs(s);
    var n := StripRightIs(s[from..]);
    to := from + n;
    hide IsSpace;
    assert s[from..][..n] == s[from..to];
    forall i | to <= i < |s|
      ensures IsSpace(s[i])
    {
      assert s[i] == s[from..][i - from];
    }
  }

  /** A text ends before its first NUL. */
  lemma {:induction false} CStrIs(s: string)
    ensures var n := |CStr(s)|;
      n <= |s| && CStr(s) == s[..n] && '\0' !in CStr(s) && (n < |s| ==> s[n] == '\0')
    decreases |s|
  {
    if s != [] && s[0] != '\0' {
      CStrIs(s[1..]);
      assert s == [s[0]] + s[1..];
    }
  }

  lemma AlphabetIs(i: nat)
    requires i < 58
    ensures |pszBase58| == 58 && Glyph(i) == pszBase58[i]
  {
    if i < 17 {
    } else if i < 33 {
    } else {
    }
  }

  /** A character is a digit exactly when it is in the alphabet, and then it is the one at that place. */
  lemma DigitIs(c: char)
    ensures Digit(c) >= 0 <==> c in pszBase58
    ensures Digit(c) >= 0 ==> Digit(c) < |pszBase58| && pszBase58[Digit(c)] == c
  {
    AlphabetIs(0);
    if Digit(c) >= 0 {
      AlphabetIs(Digit(c));
    }
    if i: nat :| i < 58 && pszBase58[i] == c {
      AlphabetIs(i);
      IndexFinds(i, 0);
    }
  }

  /** One byte below 58 is the character at its place in the alphabet. */
  lemma OneDigit(i: nat)
    requires i < 58
    ensures |pszBase58| == 58 && Encoded([i]) == [pszBase58[i]]
  {
    AlphabetIs(i);
    NumNothing(256);
    NumLast(256, [], i);
    NumNothing(58);
    NumLast(58, [], i);
    assert [] + [i] == [i];
    EncodedIs([i], [i]);
  }

  /** A text is accepted exactly when nothing but the alphabet is left between the spaces around it. */
  lemma AcceptedIff(s: string)
    ensures Decoded(s).Some? <==> forall c :: c in Strip(s) ==> c in pszBase58
  {
    hide Strip, Digit, pszBase58;
    forall c: char
      ensures Digit(c) >= 0 <==> c in pszBase58
    {
      DigitIs(c);
    }
    assert forall i :: 0 <= i < |Strip(s)| ==> Strip(s)[i] in Strip(s);
  }

  /** The text is the number of the bytes, with one more zero digit for each zero byte in front, and no other digits are. */
  lemma EncodedIs(b: seq<nat>, digits: seq<nat>)
    requires Bytes(b) && DigitsOf(58, digits)
    ensures Encoded(b) == Text(digits) <==> Num(58, digits) == Num(256, b) && LeadingZeroes(digits) == LeadingZeroes(b)
  {
    hide Num, Numeral, LeadingZeroes, Glyph, Digit;
    var n, t := LeadingZeroes(b), Numeral(58, Num(256, b));
    ConvertedDigits(256, 58, b);
    NumOfNumeral(58, Num(256, b));
    LeadingOf(n, t);
    NumOfZeroes(58, n, t);
    if Num(58, digits) == Num(256, b) && LeadingZeroes(digits) == n {
      NumeralIsRest(58, digits);
      assert digits == Zeroes(n) + digits[n..];
    }
    if Encoded(b) == Text(digits) {
      TextDigits(digits);
      TextDigits(Converted(256, 58, b));
    }
  }

  /** Texts of the test data. */
  lemma KnownTexts()
    ensures Encoded([0x61]) == "2g" && Encoded([0x62, 0x62, 0x62]) == "a3gV" && Encoded([0, 0, 0]) == "111"
  {
    hide Converted, Numeral;
    assert Num(256, [0x61]) == Num(58, [1, 39]) == 97 by { NumOfFew(256, [0x61]); NumOfFew(58, [1, 39]); }
    EncodedIs([0x61], [1, 39]);
    assert Num(256, [0x62, 0x62, 0x62]) == Num(58, [33, 2, 39, 28]) by { NumOfFew(256, [0x62, 0x62, 0x62]); NumOfFew(58, [33, 2, 39, 28]); }
    EncodedIs([0x62, 0x62, 0x62], [33, 2, 39, 28]);
    assert Num(256, [0, 0, 0]) == Num(58, [0, 0, 0]) by { NumOfFew(256, [0, 0, 0]); NumOfFew(58, [0, 0, 0]); }
    assert LeadingZeroes([0, 0, 0]) == 3 by { LeadingOf(3, []); assert Zeroes(3) + [] == [0, 0, 0]; }
    EncodedIs([0, 0, 0], [0, 0, 0]);
  }

  lemma NumOfFew(base: nat, s: seq<nat>)
    requires 1 <= |s| <= 4
    ensures Num(base, s) == match |s|
      case 1 => s[0]
      case 2 => s[0] * base + s[1]
      case 3 => (s[0] * base + s[1]) * base + s[2]
      case _ => ((s[0] * base + s[1]) * base + s[2]) * base + s[3]
  {
    NumNothing(base);
    assert s[..0] == [];
    forall i | 0 < i <= |s|
      ensures Num(base, s[..i]) == Num(base, s[..i - 1]) * base + s[i - 1]
    {
      assert s[..i] == s[..i - 1] + [s[i - 1]];
      NumLast(base, s[..i - 1], s[i - 1]);
    }
    hide Num;
    assert s[..|s|] == s;
  }

  // ---------------------------------------------------------------- round trips

  /** Bytes come back from their text, leading zeroes included. */
  lemma DecodeEncode(b: seq<nat>)
    requires Bytes(b)
    ensures Decoded(Encoded(b)) == Some(b)
  {
    ConvertedDigits(256, 58, b);
    TextDigits(Converted(256, 58, b));
    NothingToStrip(Encoded(b));
    ConvertedBack(256, 58, b);
  }

  /** An accepted text is the text of the bytes it stands for, but for the spaces around it. */
  lemma EncodeDecode(s: string)
    requires Decoded(s).Some?
    ensures Bytes(Decoded(s).value) && Encoded(Decoded(s).value) == Strip(s)
  {
    var t := Strip(s);
    ConvertedDigits(58, 256, DigitsIn(t));
    ConvertedBack(58, 256, DigitsIn(t));
    DigitsText(t);
  }

  /** Different texts of the same bytes differ only in surrounding spaces. */
  lemma TextsAreUnique(s: string, t: string)
    requires Decoded(s).Some? && Decoded(t) == Decoded(s)
    ensures Strip(s) == Strip(t)
  {
    EncodeDecode(s);
    EncodeDecode(t);
  }

  // ---------------------------------------------------------------- room in the buffers

  lemma Squared(b: nat, n: nat, p: nat)
    requires Pow(b, n) == p
    ensures Pow(b, 2 * n) == p * p
  {
    PowAdd(b, n, n);
  }

  lemma PowersOf58()
    ensures Pow(58, 11) >= Pow(256, 8) && Pow(58, 71) <= Pow(256, 52)
  {
    assert Pow(58, 4) == 11316496;
    Squared(58, 4, 11316496);
    Squared(58, 8, 11316496 * 11316496);
    var p16 := (11316496 * 11316496) * (11316496 * 11316496);
    Squared(58, 16, p16);
    Squared(58, 32, p16 * p16);
    PowAdd(58, 64, 7);
    PowAdd(58, 8, 3);
    assert Pow(58, 7) == 58 * 58 * 58 * Pow(58, 4);
    assert Pow(58, 3) == 195112;
    assert Pow(256, 4) == 0x1_0000_0000;
    Squared(256, 4, 0x1_0000_0000);
    var q8 := 0x1_0000_0000 * 0x1_0000_0000;
    Squared(256, 8, q8);
    Squared(256, 16, q8 * q8);
    PowAdd(256, 48, 4);
    PowAdd(256, 32, 16);
  }

  lemma PowSwap(b: nat, m: nat, n: nat)
    ensures Pow(Pow(b, m), n) == Pow(Pow(b, n), m)
  {
    hide Pow;
    PowMul(b, m, n);
    PowMul(b, n, m);
    Commute(m, n);
  }

  lemma PowRatio(b: nat, k: nat, n: nat, size: nat, m: nat)
    requires b > 0 && k * n <= m * size
    ensures Pow(Pow(b, k), n) <= Pow(Pow(b, size), m)
  {
    hide Pow;
    PowMul(b, k, n);
    PowMul(b, size, m);
    Commute(size, m);
    PowGrows(b, k * n, m * size);
  }

  /** If `m` digits of one base fit into `k` of another and the buffer is large in that ratio, any length fits. */
  lemma Room(from: nat, to: nat, m: nat, k: nat, n: nat, size: nat)
    requires from > 0 && to > 0 && m > 0 && Pow(from, m) <= Pow(to, k) && k * n <= m * size
    ensures Pow(from, n) <= Pow(to, size)
  {
    hide Pow;
    PowMonotone(Pow(from, m), Pow(to, k), n);
    PowSwap(from, m, n);
    PowRatio(to, k, n, size, m);
    RootMonotone(Pow(from, n), Pow(to, size), m);
  }

  lemma EncodeRoom(n: nat)
    ensures Pow(256, n) <= Pow(58, n * 138 / 100 + 1)
  {
    PowersOf58();
    Room(256, 58, 8, 11, n, n * 138 / 100 + 1);
  }

  lemma DecodeRoom(n: nat)
    ensures Pow(58, n) <= Pow(256, n * 733 / 1000 + 1)
  {
    PowersOf58();
    Room(58, 256, 71, 52, n, n * 733 / 1000 + 1);
  }

  // ---------------------------------------------------------------- the digit loops

  /** The value of the digits so far and of the carry above them. */
  function Pending(base: nat, low: seq<nat>, carry: nat): nat {
    Num(base, low) + carry * Pow(base, |low|)
  }

  function Scaled(base: nat, s: seq<nat>, mult: nat, add: nat): nat {
    Num(base, s) * mult + add
  }

  /** The carry out of a digit and the digit itself. */
  function Split(c: nat, base: nat): (r: (nat, nat))
    requires base > 0
    ensures r.1 < base
  {
    (c / base, c % base)
  }

  lemma CarryFits(base: nat, mult: nat, x: nat, carry: nat)
    requires base > 1 && x < base && carry < mult
    ensures Split(carry + mult * x, base).0 < mult
  {
    var c := carry + mult * x;
    QuotientRemainder(c, base);
    MulMonotone(x + 1, base, mult);
    Distribute(x, 1, mult);
    FitsQuotient(c, base, mult);
  }

  lemma SplitWorth(c: nat, base: nat, p: nat)
    requires base > 0
    ensures Split(c, base).1 * p + Split(c, base).0 * (base * p) == c * p
  {
    var q, r := c / base, c % base;
    QuotientRemainder(c, base);
    Distribute(q * base, r, p);
    Regroup(q, base, p);
  }

  lemma StepNumbers(mult: nat, add: nat, x: nat, carry: nat, low: nat, was: nat, p: nat)
    requires low + carry * p == was * mult + add
    ensures low + (carry + mult * x) * p == (x * p + was) * mult + add
  {
    Distribute(carry, mult * x, p);
    Distribute(x * p, was, mult);
    Regroup(mult, x, p);
    Commute(mult, x * p);
  }

  lemma MulAddStep(base: nat, mult: nat, add: nat, x: nat, carry: nat, low: seq<nat>, was: seq<nat>)
    requires base > 1 && |low| == |was| && Pending(base, low, carry) == Scaled(base, was, mult, add)
    ensures var s := Split(carry + mult * x, base);
      Pending(base, [s.1] + low, s.0) == Scaled(base, [x] + was, mult, add)
  {
    var c, p := carry + mult * x, Pow(base, |low|);
    var s := Split(c, base);
    NumFirst(base, s.1, low);
    NumFirst(base, x, was);
    assert Pow(base, |low| + 1) == base * p;
    hide Num;
    hide Pow;
    hide Split;
    SplitWorth(c, base, p);
    StepNumbers(mult, add, x, carry, Num(base, low), Num(base, was), p);
  }

  /** One carry loop: the digits in `buf` become `buf * mult + add`, with what does not fit left over. */
  method MulAdd(buf: array<nat>, base: nat, mult: nat, add: nat) returns (carry: nat)
    requires base > 1 && add < mult && DigitsOf(base, buf[..])
    modifies buf
    ensures DigitsOf(base, buf[..])
    ensures Pending(base, buf[..], carry) == Scaled(base, old(buf[..]), mult, add)
  {
    hide Pending;
    hide Scaled;
    hide Split;
    ghost var was := buf[..];
    var n := buf.Length;
    carry := add;
    NothingPending(base, mult, add);
    assert was[n..] == [] && buf[n..] == [];
    for i := n downto 0
      invariant carry < mult && DigitsOf(base, buf[..])
      invariant buf[..i] == was[..i]
      invariant Pending(base, buf[i..], carry) == Scaled(base, was[i..], mult, add)
    {
      ghost var low := buf[i + 1..];
      var x := buf[i];
      assert x == was[i];
      CarryFits(base, mult, x, carry);
      MulAddStep(base, mult, add, x, carry, low, was[i + 1..]);
      carry := carry + mult * x;
      var s := Split(carry, base);
      buf[i] := s.1;
      carry := s.0;
      assert buf[i..] == [s.1] + low && was[i..] == [x] + was[i + 1..];
    }
    assert buf[0..] == buf[..] && was[0..] == was;
  }

  lemma NothingPending(base: nat, mult: nat, add: nat)
    ensures Pending(base, [], add) == Scaled(base, [], mult, add)
  {
  }

  /** A value below the buffer's range leaves no carry. */
  lemma NoCarry(base: nat, buf: seq<nat>, carry: nat, total: nat)
    requires Pending(base, buf, carry) == total < Pow(base, |buf|)
    ensures carry == 0 && Num(base, buf) == total
  {
    if carry > 0 { MulMonotone(1, carry, Pow(base, |buf|)); }
  }

  method SkipZeroes(b: seq<nat>) returns (it: nat)
    ensures it == LeadingZeroes(b)
  {
    it := 0;
    while it < |b| && b[it] == 0
      invariant it <= |b| && it + LeadingZeroes(b[it..]) == LeadingZeroes(b)
    {
      assert b[it..][1..] == b[it + 1..];
      it := it + 1;
    }
  }

  lemma PrefixBelow(base: nat, s: seq<nat>, i: nat)
    requires base > 0 && DigitsOf(base, s) && i < |s|
    ensures Num(base, s[..i + 1]) == Num(base, s[..i]) * base + s[i] < Pow(base, |s|)
  {
    NumBound(base, s[..i + 1]);
    PowGrows(base, i + 1, |s|);
    assert s[..i + 1][..i] == s[..i];
  }

  method EncodeBase58(bytes: seq<nat>) returns (str: string)
    requires Bytes(bytes)
    ensures str == Encoded(bytes)
  {
    hide Pow;
    hide Num;
    hide Numeral;
    hide LeadingZeroes;
    var zeroes := SkipZeroes(bytes);
    var rest := bytes[zeroes..];
    var b58 := new nat[|rest| * 138 / 100 + 1](_ => 0);
    EncodeRoom(|rest|);
    NumOfZeroes(58, b58.Length, []);
    NumNothing(58);
    NumNothing(256);
    assert b58[..] == Zeroes(b58.Length) + [];
    for i := 0 to |rest|
      invariant DigitsOf(58, b58[..]) && Num(58, b58[..]) == Num(256, rest[..i])
    {
      PrefixBelow(256, rest, i);
      var carry := MulAdd(b58, 58, 256, rest[i]);
      NoCarry(58, b58[..], carry, Num(256, rest[..i + 1]));
      assert carry == 0;
    }
    assert rest[..|rest|] == rest;
    assert bytes == Zeroes(zeroes) + rest;
    NumOfZeroes(256, zeroes, rest);
    NumeralIsRest(58, b58[..]);
    var it := SkipZeroes(b58[..]);
    ghost var all := Zeroes(zeroes) + b58[it..];
    assert all == Converted(256, 58, bytes);
    str := seq(zeroes, _ => '1');
    for j := it to b58.Length
      invariant |str| == zeroes + j - it && forall k :: 0 <= k < |str| ==> str[k] == Glyph(all[k])
    {
      str := str + [Glyph(b58[j])];
    }
    assert str == Text(all);
  }

  // ---------------------------------------------------------------- reading a text

  /** The text after the leading spaces splits into the part read and what follows it. */
  lemma {:induction false} StripRightOf(core: string, tail: string)
    requires core == [] || !IsSpace(core[|core| - 1])
    requires forall i :: 0 <= i < |tail| ==> IsSpace(tail[i])
    ensures StripRight(core + tail) == core
  {
    if tail == [] {
      assert core + tail == core;
    } else {
      StripRightOf(core, tail[..|tail| - 1]);
      assert (core + tail)[..|core| + |tail| - 1] == core + tail[..|tail| - 1];
    }
  }

  /** A character that is neither stripped nor in the alphabet spoils the text. */
  lemma {:induction false} StripRightKeeps(s: string, j: nat, k: nat)
    requires k <= j < |s| && !IsSpace(s[j]) && Digit(s[k]) < 0
    ensures !InAlphabet(StripRight(s))
  {
    if IsSpace(s[|s| - 1]) {
      StripRightKeeps(s[..|s| - 1], j, k);
    } else {
      assert Digit(s[k]) < 0;
    }
  }

  method DecodeBase58(psz: string) returns (vch: Option<seq<nat>>)
    ensures vch == Decoded(CStr(psz))
  {
    var s := CStr(psz);
    var p := 0;
    while p < |s| && IsSpace(s[p])
      invariant p <= |s| && StripLeft(s[p..]) == StripLeft(s)
    {
      assert s[p..][1..] == s[p + 1..];
      p := p + 1;
    }
    ghost var t := s[p..];
    assert t == StripLeft(s);
    vch := DecodeRest(s[p..]);
  }

  /** One digit more still has room for what follows. */
  lemma DigitRead(digits: seq<nat>, ch: nat, n: nat)
    requires DigitsOf(58, digits) && ch < 58 && |digits| < n
    ensures DigitsOf(58, digits + [ch])
    ensures Num(58, digits + [ch]) == Num(58, digits) * 58 + ch < Pow(58, n)
  {
    hide Pow, Num;
    NumLast(58, digits, ch);
    NumBound(58, digits + [ch]);
    PowGrows(58, |digits + [ch]|, n);
  }

  /** Everything after the leading spaces. */
  method DecodeRest(t: string) returns (vch: Option<seq<nat>>)
    requires t == StripLeft(t)
    ensures vch == if InAlphabet(StripRight(t)) then Some(Converted(58, 256, DigitsIn(StripRight(t)))) else None
  {
    hide Pow;
    hide Num;
    hide Numeral;
    hide LeadingZeroes;
    hide StripRight;
    hide StripLeft;
    hide IndexFrom;
    var zeroes := 0;
    while zeroes < |t| && t[zeroes] == '1'
      invariant zeroes <= |t| && forall i :: 0 <= i < zeroes ==> t[i] == '1'
    {
      zeroes := zeroes + 1;
    }
    var b256 := new nat[(|t| - zeroes) * 733 / 1000 + 1](_ => 0);
    DecodeRoom(|t| - zeroes);
    NumOfZeroes(256, b256.Length, []);
    NumNothing(256);
    NumNothing(58);
    assert b256[..] == Zeroes(b256.Length) + [];
    var p := zeroes;
    ghost var digits: seq<nat> := [];
    while p < |t| && !IsSpace(t[p])
      invariant zeroes <= p <= |t| && |digits| == p - zeroes && DigitsOf(58, digits)
      invariant forall i :: zeroes <= i < p ==> Digit(t[i]) == digits[i - zeroes] && !IsSpace(t[i])
      invariant DigitsOf(256, b256[..]) && Num(256, b256[..]) == Num(58, digits)
    {
      var ch := Digit(t[p]);
      if ch == -1 {
        StripRightKeeps(t, p, p);
        return None;
      }
      DigitRead(digits, ch, |t| - zeroes);
      digits := digits + [ch];
      var carry := MulAdd(b256, 256, 58, ch);
      NoCarry(256, b256[..], carry, Num(58, digits));
      assert carry == 0;
      p := p + 1;
    }
    var q := p;
    while q < |t| && IsSpace(t[q])
      invariant p <= q <= |t| && forall i :: p <= i < q ==> IsSpace(t[i])
    {
      q := q + 1;
    }
    if q < |t| {
      NoSpaceInAlphabetAt(t, p);
      StripRightKeeps(t, q, p);
      return None;
    }
    var it := SkipZeroes(b256[..]);
    ReadCore(t, zeroes, p, digits);
    NumeralIsRest(256, b256[..]);
    vch := Some(seq(zeroes, _ => 0) + b256[it..]);
    assert seq(zeroes, _ => 0) == Zeroes(zeroes);
  }

  lemma NoSpaceInAlphabetAt(t: string, p: nat)
    requires p < |t| && IsSpace(t[p])
    ensures Digit(t[p]) < 0
  {
    if Digit(t[p]) >= 0 { NoSpaceInAlphabet(t[p]); }
  }

  /** What was read, and nothing else, is left by stripping. */
  lemma ReadCore(t: string, zeroes: nat, p: nat, digits: seq<nat>)
    requires zeroes <= p <= |t| && |digits| == p - zeroes && DigitsOf(58, digits)
    requires forall i :: 0 <= i < zeroes ==> t[i] == '1'
    requires zeroes < |t| ==> t[zeroes] != '1'
    requires forall i :: zeroes <= i < p ==> Digit(t[i]) == digits[i - zeroes] && !IsSpace(t[i])
    requires forall i :: p <= i < |t| ==> IsSpace(t[i])
    ensures InAlphabet(StripRight(t))
    ensures Converted(58, 256, DigitsIn(StripRight(t))) == Zeroes(zeroes) + Numeral(256, Num(58, digits))
  {
    hide StripRight;
    hide Num;
    hide Numeral;
    hide LeadingZeroes;
    CoreDigits(t, zeroes, p, digits);
    if digits != [] { OnlyOneIsZero(t[zeroes]); }
    LeadingAndValue(zeroes, digits);
  }

  lemma CoreDigits(t: string, zeroes: nat, p: nat, digits: seq<nat>)
    requires zeroes <= p <= |t| && |digits| == p - zeroes && DigitsOf(58, digits)
    requires forall i :: 0 <= i < zeroes ==> t[i] == '1'
    requires forall i :: zeroes <= i < p ==> Digit(t[i]) == digits[i - zeroes] && !IsSpace(t[i])
    requires forall i :: p <= i < |t| ==> IsSpace(t[i])
    ensures StripRight(t) == t[..p] && InAlphabet(t[..p]) && DigitsIn(t[..p]) == Zeroes(zeroes) + digits
  {
    hide Digit, Glyph, IsSpace, StripRight, InAlphabet, DigitsIn;
    assert t == t[..p] + t[p..];
    CoreEnds(t, zeroes, p);
    StripRightOf(t[..p], t[p..]);
    DigitsOfCore(t[..p], zeroes, digits);
  }

  lemma DigitsOfCore(core: string, zeroes: nat, digits: seq<nat>)
    requires |core| == zeroes + |digits| && forall i :: 0 <= i < zeroes ==> core[i] == '1'
    requires forall i :: zeroes <= i < |core| ==> Digit(core[i]) == digits[i - zeroes]
    ensures InAlphabet(core) && DigitsIn(core) == Zeroes(zeroes) + digits
  {
    hide Digit, Glyph;
    OneIsZero();
    forall i | 0 <= i < |core|
      ensures Digit(core[i]) == (Zeroes(zeroes) + digits)[i] >= 0
    {
    }
  }

  lemma CoreEnds(t: string, zeroes: nat, p: nat)
    requires zeroes <= p <= |t|
    requires forall i :: 0 <= i < zeroes ==> t[i] == '1'
    requires forall i :: zeroes <= i < p ==> !IsSpace(t[i])
    ensures p > 0 ==> !IsSpace(t[..p][p - 1])
  {
    OneIsZero();
  }

  lemma LeadingAndValue(zeroes: nat, digits: seq<nat>)
    requires digits != [] ==> digits[0] != 0
    ensures LeadingZeroes(Zeroes(zeroes) + digits) == zeroes && Num(58, Zeroes(zeroes) + digits) == Num(58, digits)
  {
    LeadingOf(zeroes, digits);
    NumOfZeroes(58, zeroes, digits);
  }

  lemma OneIsZero()
    ensures Digit('1') == 0 && !IsSpace('1')
  {
  }

  lemma OnlyOneIsZero(c: char)
    requires c != '1'
    ensures Digit(c) != 0
  {
  }

  // ---------------------------------------------------------------- with a checksum

  /** The first four bytes of a digest. */
  function Checksum(hash: seq<nat> -> seq<nat>, b: seq<nat>): seq<nat> {
    if |hash(b)| >= 4 then hash(b)[..4] else hash(b)
  }

  /** A hash of 32 bytes. */
  ghost predicate IsHash(hash: seq<nat> -> seq<nat>) {
    forall b :: |hash(b)| == 32 && Bytes(hash(b))
  }

  /** What a text with a checksum stands for. */
  function Checked(hash: seq<nat> -> seq<nat>, s: string): Option<seq<nat>> {
    var d := Decoded(s);
    if d == None || |d.value| < 4 then None else
      var body, sum := d.value[..|d.value| - 4], d.value[|d.value| - 4..];
      if sum == Checksum(hash, body) then Some(body) else None
  }

  method EncodeBase58Check(hash: seq<nat> -> seq<nat>, vchIn: seq<nat>) returns (str: string)
    requires IsHash(hash) && Bytes(vchIn)
    ensures str == Encoded(vchIn + hash(vchIn)[..4])
  {
    var vch := vchIn + hash(vchIn)[..4];
    str := EncodeBase58(vch);
  }

  method DecodeBase58Check(hash: seq<nat> -> seq<nat>, psz: string) returns (vchRet: Option<seq<nat>>)
    requires IsHash(hash)
    ensures vchRet == Checked(hash, CStr(psz))
  {
    var vch := DecodeBase58(psz);
    if vch == None || |vch.value| < 4 {
      return None;
    }
    var n := |vch.value| - 4;
    var h := hash(vch.value[..n]);
    if h[..4] != vch.value[n..] {
      return None;
    }
    return Some(vch.value[..n]);
  }

  /**
   A text is accepted with result `b` exactly when, but for spaces around it, it is the
   text of `b` with its checksum.
   */
  lemma CheckedIff(hash: seq<nat> -> seq<nat>, s: string, b: seq<nat>)
    requires IsHash(hash) && Bytes(b)
    ensures Checked(hash, s) == Some(b) <==> Strip(s) == Encoded(b + hash(b)[..4])
  {
    var full := b + Checksum(hash, b);
    assert Bytes(full);
    if Checked(hash, s) == Some(b) {
      EncodeDecode(s);
      assert Decoded(s).value == full;
    }
    if Strip(s) == Encoded(full) {
      DecodeEncode(full);
      StripTwice(s);
      assert full[..|full| - 4] == b && full[|full| - 4..] == Checksum(hash, b);
    }
  }

  lemma StripTwice(s: string)
    ensures Strip(Strip(s)) == Strip(s)
  {
    StripRightFirst(StripLeft(s));
    StripLeftFirst(s);
    StripRightLast(StripLeft(s));
  }

  lemma {:induction false} StripLeftFirst(s: string)
    ensures StripLeft(s) != [] ==> !IsSpace(StripLeft(s)[0])
  {
    if s != [] && IsSpace(s[0]) { StripLeftFirst(s[1..]); }
  }

  lemma {:induction false} StripRightLast(s: string)
    ensures StripRight(s) != [] ==> !IsSpace(StripRight(s)[|StripRight(s)| - 1])
  {
    if s != [] && IsSpace(s[|s| - 1]) { StripRightLast(s[..|s| - 1]); }
  }

  lemma {:induction false} StripRightFirst(s: string)
    ensures StripRight(s) != [] ==> s != [] && StripRight(s)[0] == s[0]
  {
    if s != [] && IsSpace(s[|s| - 1]) { StripRightFirst(s[..|s| - 1]); }
  }
}
