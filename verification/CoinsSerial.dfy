/**
 The bytes of the unspent outputs of a transaction (core/src/coins.h:165-267,
 core/src/coins.cpp:20-37): version, header code, a mask of which outputs are left,
 the outputs, and the height.
 */
module CoinsSerial {
  import opened Arithmetic
  import opened Numerals
  import opened Limbs
  import opened LimbShifts
  import opened CoinsRecord
  import opened Prelude
  import opened VarInts
  import opened Amounts
  import opened Scripts

  type Outs = seq<TxOut>

  predicate Avail(outs: Outs, i: nat) { i < |outs| && !outs[i].IsNull() }

  /** The output that bit `p` of mask byte `b` stands for is left. */
  predicate Marked(outs: Outs, b: nat, p: nat) { Avail(outs, 2 + b * 8 + p) }

  /** The mask byte `b`, as far as its first `i` bits. */
  function MaskPart(outs: Outs, b: nat, i: nat): nat {
    if i == 0 then 0 else MaskPart(outs, b, i - 1) + if Marked(outs, b, i - 1) then Bit(i - 1) else 0
  }

  lemma {:induction false} MaskPartFits(outs: Outs, b: nat, i: nat)
    ensures MaskPart(outs, b, i) < Bit(i)
  {
    if i > 0 {
      MaskPartFits(outs, b, i - 1);
      assert Bit(i) == 2 * Bit(i - 1);
    }
  }

  function MaskByte(outs: Outs, b: nat): Byte {
    MaskPartFits(outs, b, 8);
    assert Bit(8) == 256;
    MaskPart(outs, b, 8)
  }

  predicate BitAt(x: nat, p: nat) { x / Bit(p) % 2 == 1 }

  lemma {:induction false} MaskPartBit(outs: Outs, b: nat, i: nat, p: nat)
    requires p < i
    ensures BitAt(MaskPart(outs, b, i), p) <==> Marked(outs, b, p)
  {
    hide BitAt;
    var x := MaskPart(outs, b, i - 1);
    MaskPartFits(outs, b, i - 1);
    if p == i - 1 {
      TopBit(x, p);
    } else {
      MaskPartBit(outs, b, i - 1, p);
      HigherBit(x, i - 1, p);
    }
  }

  lemma TopBit(x: nat, p: nat)
    requires x < Bit(p)
    ensures BitAt(x + Bit(p), p) && !BitAt(x, p)
  {
    DivIs(x, Bit(p), 0, x);
    DivIs(x + Bit(p), Bit(p), 1, x);
  }

  lemma SameParity(x: nat, q: nat, k: nat)
    requires q > 0
    ensures (x + (2 * k) * q) / q % 2 == x / q % 2
  {
    Quotients(x, q, 2 * k);
    var y := x / q;
    assert (y + 2 * k) % 2 == y % 2;
  }

  lemma Quotients(x: nat, q: nat, j: nat)
    requires q > 0
    ensures (x + j * q) / q == x / q + j
  {
    QuotientRemainder(x, q);
    Distribute(x / q, j, q);
    DivIs(x + j * q, q, x / q + j, x % q);
  }

  lemma HigherBit(x: nat, i: nat, p: nat)
    requires p < i
    ensures BitAt(x + Bit(i), p) <==> BitAt(x, p)
  {
    var q, k := Bit(p), Bit(i - p - 1);
    PowAdd(2, p + 1, i - p - 1);
    assert Bit(p + 1) == 2 * q;
    Regroup(2, q, k);
    Regroup(2, k, q);
    hide Bit;
    SameParity(x, q, k);
  }

  /** One bit per output: the mask byte is zero exactly when none of its outputs is left. */
  lemma MaskByteIs(outs: Outs, b: nat)
    ensures forall p :: 0 <= p < 8 ==> (BitAt(MaskByte(outs, b), p) <==> Marked(outs, b, p))
    ensures MaskByte(outs, b) == 0 <==> forall p :: 0 <= p < 8 ==> !Marked(outs, b, p)
  {
    forall p | 0 <= p < 8
      ensures BitAt(MaskByte(outs, b), p) <==> Marked(outs, b, p)
    {
      MaskPartBit(outs, b, 8, p);
    }
    ZeroHasNoBits();
    if forall p :: 0 <= p < 8 ==> !Marked(outs, b, p) {
      NoneInMask(outs, b, 8);
    }
  }

  lemma ZeroHasNoBits()
    ensures forall p: nat :: !BitAt(0, p)
  {
    forall p: nat
      ensures !BitAt(0, p)
    {
      DivIs(0, Bit(p), 0, 0);
    }
  }

  lemma {:induction false} NoneInMask(outs: Outs, b: nat, i: nat)
    requires i <= 8 && forall p :: 0 <= p < i ==> !Marked(outs, b, p)
    ensures MaskPart(outs, b, i) == 0
  {
    if i > 0 {
      NoneInMask(outs, b, i - 1);
      assert !Marked(outs, b, i - 1);
    }
  }

  // ---------------------------------------------------------------- the mask

  /** How many mask bytes the outputs could need. */
  function MaskBytes(outs: Outs): nat { if |outs| <= 2 then 0 else (|outs| + 5) / 8 }

  function LastUsed(outs: Outs, b: nat): (n: nat)
    ensures n <= b
  {
    if b == 0 then 0 else if MaskByte(outs, b - 1) != 0 then b else LastUsed(outs, b - 1)
  }

  function NonZero(outs: Outs, b: nat): nat {
    if b == 0 then 0 else NonZero(outs, b - 1) + if MaskByte(outs, b - 1) != 0 then 1 else 0
  }

  function Mask(outs: Outs, n: nat): (r: seq<Byte>)
    ensures |r| == n && forall b :: 0 <= b < n ==> r[b] == MaskByte(outs, b)
  {
    seq(n, b requires 0 <= b < n => MaskByte(outs, b))
  }

  lemma {:induction false} BeyondLastUsed(outs: Outs, b: nat)
    ensures forall j :: LastUsed(outs, b) <= j < b ==> MaskByte(outs, j) == 0
    ensures NonZero(outs, LastUsed(outs, b)) == NonZero(outs, b)
    ensures LastUsed(outs, b) > 0 ==> MaskByte(outs, LastUsed(outs, b) - 1) != 0
  {
    if b > 0 { BeyondLastUsed(outs, b - 1); }
  }

  /** Reading mask bytes until enough of them were not zero. */
  function ReadMask(s: seq<Byte>, nMaskCode: nat): Read<seq<Byte>>
    decreases |s|
  {
    if nMaskCode == 0 then Some(([], s))
    else if s == [] then None
    else
      var r := ReadMask(s[1..], if s[0] != 0 then nMaskCode - 1 else nMaskCode);
      if r.None? then None else Some(([s[0]] + r.value.0, r.value.1))
  }

  function CountNonZero(m: seq<Byte>): nat {
    if m == [] then 0 else (if m[0] != 0 then 1 else 0) + CountNonZero(m[1..])
  }

  /** The count stops the loop right after the last byte that is not zero. */
  lemma {:induction false} ReadMaskStops(m: seq<Byte>, rest: seq<Byte>)
    requires m != [] ==> m[|m| - 1] != 0
    ensures ReadMask(m + rest, CountNonZero(m)) == Some((m, rest))
    decreases |m|
  {
    if m == [] {
      assert m + rest == rest;
    } else {
      ReadMaskStops(m[1..], rest);
      assert (m + rest)[1..] == m[1..] + rest;
      assert m == [m[0]] + m[1..];
      LastCounts(m);
    }
  }

  lemma {:induction false} LastCounts(m: seq<Byte>)
    requires m != [] && m[|m| - 1] != 0
    ensures CountNonZero(m) > 0
    decreases |m|
  {
    if |m| > 1 { LastCounts(m[1..]); }
  }

  lemma {:induction false} CountConcat(a: seq<Byte>, b: seq<Byte>)
    ensures CountNonZero(a + b) == CountNonZero(a) + CountNonZero(b)
  {
    if a == [] {
      assert a + b == b;
    } else {
      CountConcat(a[1..], b);
      assert (a + b)[1..] == a[1..] + b;
    }
  }

  lemma {:induction false} MaskCount(outs: Outs, n: nat)
    ensures CountNonZero(Mask(outs, n)) == NonZero(outs, n)
  {
    if n > 0 {
      MaskCount(outs, n - 1);
      var last := MaskByte(outs, n - 1);
      assert Mask(outs, n) == Mask(outs, n - 1) + [last];
      CountConcat(Mask(outs, n - 1), [last]);
      assert CountNonZero([last]) == if last != 0 then 1 else 0;
    }
  }

  // ---------------------------------------------------------------- the outputs

  function AsUint64(v: int): nat {
    if v < 0 then v % UINT64 else v
  }

  function OutBytes(c: Curve, o: TxOut): seq<Byte> {
    VarInt(Compressed(AsUint64(o.nValue))) + ScriptBytes(c, o.script)
  }

  function ReadOut(c: Curve, s: seq<Byte>): Read<TxOut> {
    var v := ReadVar(s, 0);
    if v.None? then None else
      var script := ReadScript(c, v.value.1);
      if script.None? then None
      else Some((TxOut(Decompressed(v.value.0), script.value.0, -10), script.value.1))
  }

  /** An output that can be there: spent, or of an amount and a script that can be, and not yet mixed. */
  predicate WellFormed(o: TxOut) {
    if o.IsNull() then o == NULL_OUT else o.nValue >= 0 && o.nRounds == -10 && |o.script| <= MAX_SCRIPT_SIZE
  }

  lemma ReadOutBytes(c: Curve, o: TxOut, rest: seq<Byte>)
    requires IsCurve(c) && WellFormed(o) && !o.IsNull()
    ensures ReadOut(c, OutBytes(c, o) + rest) == Some((o, rest))
  {
    var n := Compressed(o.nValue);
    assert OutBytes(c, o) + rest == VarInt(n) + (ScriptBytes(c, o.script) + rest);
    ReadWritten(n, ScriptBytes(c, o.script) + rest);
    ReadScriptBytes(c, o.script, rest);
    Amounts.DecompressCompress(o.nValue);
  }

  /** The outputs that are left, from position `i`. */
  function OutsBytes(c: Curve, outs: Outs, i: nat): seq<Byte>
    requires i <= |outs|
    decreases |outs| - i
  {
    if i == |outs| then []
    else (if outs[i].IsNull() then [] else OutBytes(c, outs[i])) + OutsBytes(c, outs, i + 1)
  }

  function ReadOuts(c: Curve, s: seq<Byte>, avail: seq<bool>): Read<Outs>
    decreases |avail|
  {
    if avail == [] then Some(([], s))
    else
      var first := if avail[0] then ReadOut(c, s) else Some((NULL_OUT, s));
      if first.None? then None else
        var others := ReadOuts(c, first.value.1, avail[1..]);
        if others.None? then None else Some(([first.value.0] + others.value.0, others.value.1))
  }

  /** The outputs at the available places, and null outputs elsewhere. */
  function Placed(outs: Outs, n: nat): (r: Outs)
    ensures |r| == n && forall i :: 0 <= i < n ==> r[i] == if Avail(outs, i) then outs[i] else NULL_OUT
  {
    seq(n, i requires 0 <= i < n => if Avail(outs, i) then outs[i] else NULL_OUT)
  }

  lemma {:induction false} NoMoreOuts(c: Curve, outs: Outs, i: nat)
    requires i <= |outs| && forall j :: i <= j < |outs| ==> outs[j].IsNull()
    ensures OutsBytes(c, outs, i) == []
    decreases |outs| - i
  {
    if i < |outs| { NoMoreOuts(c, outs, i + 1); }
  }

  function OutsFrom(c: Curve, outs: Outs, i: nat): seq<Byte> {
    if i <= |outs| then OutsBytes(c, outs, i) else []
  }

  /** The bytes from one place on: those of the output there, if it is left, and the rest. */
  lemma OutsStep(c: Curve, outs: Outs, i: nat, rest: seq<Byte>)
    ensures OutsFrom(c, outs, i) + rest ==
      if Avail(outs, i) then OutBytes(c, outs[i]) + (OutsFrom(c, outs, i + 1) + rest) else OutsFrom(c, outs, i + 1) + rest
  {
    hide OutBytes;
    if Avail(outs, i) {
      Associate(OutBytes(c, outs[i]), OutsFrom(c, outs, i + 1), rest);
    } else if i < |outs| {
      assert [] + OutsFrom(c, outs, i + 1) == OutsFrom(c, outs, i + 1);
    }
  }

  lemma Associate(a: seq<Byte>, b: seq<Byte>, d: seq<Byte>)
    ensures (a + b) + d == a + (b + d)
  {
  }

  lemma {:induction false} ReadOutsBytes(c: Curve, outs: Outs, avail: seq<bool>, i: nat, rest: seq<Byte>)
    requires IsCurve(c) && (forall j :: 0 <= j < |outs| ==> WellFormed(outs[j])) && i <= |avail|
    requires forall j :: 0 <= j < |avail| ==> avail[j] == Avail(outs, j)
    requires forall j :: |avail| <= j < |outs| ==> outs[j].IsNull()
    ensures ReadOuts(c, OutsFrom(c, outs, i) + rest, avail[i..]) == Some((Placed(outs, |avail|)[i..], rest))
    decreases |avail| - i
  {
    hide OutBytes;
    hide ReadOut;
    hide OutsBytes;
    hide IsCurve;
    hide WellFormed;
    var p := Placed(outs, |avail|);
    if i == |avail| {
      if i <= |outs| { NoMoreOuts(c, outs, i); }
      assert OutsFrom(c, outs, i) + rest == rest;
      assert avail[i..] == [] && p[i..] == [];
    } else {
      ReadOutsBytes(c, outs, avail, i + 1, rest);
      assert avail[i..][1..] == avail[i + 1..] && p[i..] == [p[i]] + p[i + 1..];
      OutsStep(c, outs, i, rest);
      if avail[i] {
        ReadOutBytes(c, outs[i], OutsFrom(c, outs, i + 1) + rest);
      }
    }
  }

  // ---------------------------------------------------------------- the record

  /** The header code, with the given factor for the number of mask bytes. */
  function HeaderCode(c: Coins, factor: nat): int {
    var fFirst, fSecond := Avail(c.vout, 0), Avail(c.vout, 1);
    factor * (NonZero(c.vout, MaskBytes(c.vout)) - if fFirst || fSecond then 0 else 1)
      + (if c.fCoinBase then 1 else 0) + (if c.fCoinStake then 2 else 0) + (if fFirst then 4 else 0) + (if fSecond then 8 else 0)
  }

  /** Every output beyond the first two has its bit in some mask byte. */
  lemma MaskCovers(outs: Outs, i: nat)
    requires i >= 2 && Avail(outs, i)
    ensures (i - 2) / 8 < LastUsed(outs, MaskBytes(outs))
  {
    var b, p := (i - 2) / 8, (i - 2) % 8;
    MaskByteIs(outs, b);
    assert Marked(outs, b, p);
    BeyondLastUsed(outs, MaskBytes(outs));
  }

  lemma NonZeroWhenUsed(outs: Outs, b: nat)
    requires LastUsed(outs, b) > 0
    ensures NonZero(outs, b) > 0
  {
    BeyondLastUsed(outs, b);
  }

  /** The assertion before writing: an unspent output is in the first two or in the mask. */
  lemma CodeIsNatural(c: Coins, factor: nat)
    requires !IsPruned(c)
    ensures Avail(c.vout, 0) || Avail(c.vout, 1) || NonZero(c.vout, MaskBytes(c.vout)) > 0
    ensures HeaderCode(c, factor) >= 0
  {
    var i :| 0 <= i < |c.vout| && !c.vout[i].IsNull();
    if i >= 2 {
      MaskCovers(c.vout, i);
      NonZeroWhenUsed(c.vout, MaskBytes(c.vout));
    }
    var k := NonZero(c.vout, MaskBytes(c.vout)) - if Avail(c.vout, 0) || Avail(c.vout, 1) then 0 else 1;
    MulMonotone(0, k, factor);
    Commute(k, factor);
  }

  /** A signed integer as it is written: one below zero leaves only its low seven bits. */
  function Wire(n: int): nat { if n < 0 then n % 128 else n }

  function CoinsBytes(curve: Curve, c: Coins): seq<Byte>
    requires !IsPruned(c)
  {
    CodeIsNatural(c, 16);
    VarInt(Wire(c.nVersion)) + (VarInt(HeaderCode(c, 16))
      + (Mask(c.vout, LastUsed(c.vout, MaskBytes(c.vout))) + (OutsBytes(curve, c.vout, 0) + VarInt(Wire(c.nHeight)))))
  }

  // ---------------------------------------------------------------- documented records

  /** An output for a key hash: its compact amount, a zero and the hash. */
  lemma KeyHashOut(c: Curve, o: TxOut, hash: seq<Byte>, amount: seq<Byte>)
    requires |hash| == 20 && o.script == [0x76, 0xa9, 0x14] + hash + [0x88, 0xac]
    requires o.nValue >= 0 && VarInt(Compressed(o.nValue)) == amount
    ensures OutBytes(c, o) == amount + [0] + hash
  {
    hide VarInt, Compressed, Compress;
    KeyHashBytes(c, hash);
    assert amount + ([0] + hash) == amount + [0] + hash;
  }

  /** The outputs from `i` to `j` are spent. */
  lemma {:induction false} SkipsSpent(c: Curve, outs: Outs, i: nat, j: nat)
    requires i <= j <= |outs| && forall k :: i <= k < j ==> outs[k].IsNull()
    ensures OutsBytes(c, outs, i) == OutsBytes(c, outs, j)
    decreases j - i
  {
    hide OutBytes;
    if i < j {
      SkipsSpent(c, outs, i + 1, j);
      assert OutsBytes(c, outs, i) == [] + OutsBytes(c, outs, i + 1);
    }
  }

  /** The parts of a record in their order: version, code, mask, outputs and height. */
  lemma PartsInOrder(curve: Curve, c: Coins, version: seq<Byte>, code: seq<Byte>, mask: seq<Byte>, outs: seq<Byte>, height: seq<Byte>)
    requires !IsPruned(c) && c.nVersion >= 0 && c.nHeight >= 0 && HeaderCode(c, 16) >= 0
    requires VarInt(c.nVersion) == version && VarInt(HeaderCode(c, 16)) == code && VarInt(c.nHeight) == height
    requires Mask(c.vout, LastUsed(c.vout, MaskBytes(c.vout))) == mask && OutsBytes(curve, c.vout, 0) == outs
    ensures CoinsBytes(curve, c) == version + code + mask + outs + height
  {
    hide VarInt, HeaderCode, Mask, LastUsed, MaskBytes, OutsBytes, IsPruned;
    assert version + (code + (mask + (outs + height))) == version + code + mask + outs + height;
  }

  lemma OutsAt(c: Curve, outs: Outs, i: nat)
    requires i < |outs| && !outs[i].IsNull()
    ensures OutsBytes(c, outs, i) == OutBytes(c, outs[i]) + OutsBytes(c, outs, i + 1)
  {
  }

  /** The first documented record: only the second output is left.  The documentation has the code without the coinstake bit. */
  lemma FirstRecord(curve: Curve, hash: seq<Byte>, o: TxOut)
    requires |hash| == 20 && o.nValue == 60000000000 && o.script == [0x76, 0xa9, 0x14] + hash + [0x88, 0xac]
    ensures var c := Coins(false, false, [NULL_OUT, o], 203998, 1);
      !IsPruned(c) && CoinsBytes(curve, c) == [0x01] + [0x08] + [] + ([0x83, 0x58] + [0x00] + hash) + [0x8b, 0xb8, 0x5e]
  {
    hide VarInt, HeaderCode, IsPruned, Mask, MaskBytes, LastUsed, OutBytes, OutsBytes;
    var c := Coins(false, false, [NULL_OUT, o], 203998, 1);
    OnlySecond(c, o);
    SmallCodes();
    SixtyBillion();
    ThreeBytes(0x8b, 0xb8, 0x5e);
    KeyHashOut(curve, o, hash, [0x83, 0x58]);
    SecondOut(curve, c.vout, o);
    PartsInOrder(curve, c, [0x01], [0x08], [], [0x83, 0x58] + [0x00] + hash, [0x8b, 0xb8, 0x5e]);
  }

  lemma OnlySecond(c: Coins, o: TxOut)
    requires c == Coins(false, false, [NULL_OUT, o], 203998, 1) && !o.IsNull()
    ensures !IsPruned(c) && HeaderCode(c, 16) == 8 && Mask(c.vout, LastUsed(c.vout, MaskBytes(c.vout))) == []
  {
    assert !c.vout[1].IsNull();
  }

  lemma SecondOut(curve: Curve, outs: Outs, o: TxOut)
    requires outs == [NULL_OUT, o] && !o.IsNull()
    ensures OutsBytes(curve, outs, 0) == OutBytes(curve, o)
  {
    hide OutBytes;
    SkipsSpent(curve, outs, 0, 1);
    OutsAt(curve, outs, 1);
    assert OutsBytes(curve, outs, 2) == [];
  }

  lemma SmallCodes()
    ensures VarInt(1) == [0x01] && VarInt(8) == [0x08] && VarInt(17) == [0x11]
  {
  }

  lemma SixtyBillion()
    ensures VarInt(Compressed(60000000000)) == [0x83, 0x58]
  {
    hide VarInt, Compressed;
    PowersOfTen();
    CodeOfNine(60);
    TwoBytes(0x83, 0x58);
  }

  lemma {:induction false} OneInMask(outs: Outs, b: nat, i: nat, p: nat)
    requires forall q :: 0 <= q < i ==> (Marked(outs, b, q) <==> q == p)
    ensures MaskPart(outs, b, i) == if p < i then Bit(p) else 0
  {
    hide Bit;
    if i > 0 { OneInMask(outs, b, i - 1, p); }
  }

  lemma SomeBits()
    ensures Bit(2) == 4 && Bit(6) == 64
  {
  }

  lemma OddAmounts()
    ensures VarInt(Compressed(234925952)) == [0x86, 0xef, 0x97, 0xd5, 0x79]
    ensures VarInt(Compressed(110397)) == [0xbb, 0xd1, 0x23]
  {
    hide VarInt, Compressed;
    PowersOfTen();
    CodeIs(23492595, 2, 0);
    CodeIs(11039, 7, 0);
    FiveBytes(0x86, 0xef, 0x97, 0xd5, 0x79);
    ThreeBytes(0xbb, 0xd1, 0x23);
  }

  /** Seventeen outputs of which the fifth and the last are left. */
  function TwoOfSeventeen(o: TxOut, p: TxOut): (r: Outs)
    ensures |r| == 17 && r[4] == o && r[16] == p && forall i :: 0 <= i < 17 && i != 4 && i != 16 ==> r[i] == NULL_OUT
  {
    seq(17, i => if i == 4 then o else if i == 16 then p else NULL_OUT)
  }

  lemma SeventeenMask(outs: Outs, o: TxOut, p: TxOut)
    requires outs == TwoOfSeventeen(o, p) && !o.IsNull() && !p.IsNull()
    ensures MaskByte(outs, 0) == 4 && MaskByte(outs, 1) == 64 && MaskBytes(outs) == 2
    ensures LastUsed(outs, 2) == 2 && NonZero(outs, 2) == 2 && Mask(outs, 2) == [4, 64]
  {
    hide TwoOfSeventeen;
    OneInMask(outs, 0, 8, 2);
    OneInMask(outs, 1, 8, 6);
    SomeBits();
    hide MaskPart, Bit;
    assert NonZero(outs, 0) == 0 && NonZero(outs, 1) == 1;
  }

  lemma SeventeenOuts(curve: Curve, outs: Outs, o: TxOut, p: TxOut)
    requires outs == TwoOfSeventeen(o, p) && !o.IsNull() && !p.IsNull()
    ensures OutsBytes(curve, outs, 0) == OutBytes(curve, o) + OutBytes(curve, p)
  {
    hide TwoOfSeventeen, OutBytes;
    SkipsSpent(curve, outs, 0, 4);
    OutsAt(curve, outs, 4);
    SkipsSpent(curve, outs, 5, 16);
    OutsAt(curve, outs, 16);
    assert OutsBytes(curve, outs, 17) == [];
    hide OutsBytes;
  }

  /** The second documented record: a coinbase with two mask bytes. */
  lemma SecondRecord(curve: Curve, h1: seq<Byte>, h2: seq<Byte>, o: TxOut, p: TxOut)
    requires |h1| == 20 && o.nValue == 234925952 && o.script == [0x76, 0xa9, 0x14] + h1 + [0x88, 0xac]
    requires |h2| == 20 && p.nValue == 110397 && p.script == [0x76, 0xa9, 0x14] + h2 + [0x88, 0xac]
    ensures var c := Coins(true, false, TwoOfSeventeen(o, p), 120891, 1);
      && !IsPruned(c)
      && CoinsBytes(curve, c) == [0x01] + [0x11] + [0x04, 0x40]
           + (([0x86, 0xef, 0x97, 0xd5, 0x79] + [0x00] + h1) + ([0xbb, 0xd1, 0x23] + [0x00] + h2)) + [0x86, 0xaf, 0x3b]
  {
    hide VarInt, IsPruned, Mask, LastUsed, OutBytes, NonZero, MaskBytes, OutsBytes;
    var c := Coins(true, false, TwoOfSeventeen(o, p), 120891, 1);
    SeventeenCode(c, o, p);
    hide HeaderCode;
    SmallCodes();
    SeventeenMask(c.vout, o, p);
    SeventeenOuts(curve, c.vout, o, p);
    OddAmounts();
    ThreeBytes(0x86, 0xaf, 0x3b);
    KeyHashOut(curve, o, h1, [0x86, 0xef, 0x97, 0xd5, 0x79]);
    KeyHashOut(curve, p, h2, [0xbb, 0xd1, 0x23]);
    PartsInOrder(curve, c, [0x01], [0x11], [0x04, 0x40],
      ([0x86, 0xef, 0x97, 0xd5, 0x79] + [0x00] + h1) + ([0xbb, 0xd1, 0x23] + [0x00] + h2), [0x86, 0xaf, 0x3b]);
  }

  lemma SeventeenCode(c: Coins, o: TxOut, p: TxOut)
    requires c == Coins(true, false, TwoOfSeventeen(o, p), 120891, 1) && !o.IsNull() && !p.IsNull()
    ensures !IsPruned(c) && HeaderCode(c, 16) == 17
  {
    assert !c.vout[4].IsNull();
    SeventeenMask(c.vout, o, p);
    hide NonZero, MaskBytes;
  }

  /** The eight bits of every mask byte. */
  function Bits(m: seq<Byte>): (r: seq<bool>)
    ensures |r| == 8 * |m| && forall i :: 0 <= i < 8 * |m| ==> r[i] == BitAt(m[i / 8], i % 8)
  {
    seq(8 * |m|, i requires 0 <= i < 8 * |m| => BitAt(m[i / 8], i % 8))
  }

  function Flags(nCode: nat): seq<bool> { [nCode / 4 % 2 == 1, nCode / 8 % 2 == 1] }

  function MaskCode(nCode: nat): nat { nCode / 16 + if nCode / 4 % 4 != 0 then 0 else 1 }

  function ReadCoins(curve: Curve, s: seq<Byte>): Read<Coins> {
    var version := ReadVar(s, 0);
    if version.None? then None else
    var code := ReadVar(version.value.1, 0);
    if code.None? then None else
    var nCode := code.value.0;
    var mask := ReadMask(code.value.1, MaskCode(nCode));
    if mask.None? then None else
    var outs := ReadOuts(curve, mask.value.1, Flags(nCode) + Bits(mask.value.0));
    if outs.None? then None else
    var height := ReadVar(outs.value.1, 0);
    if height.None? then None else
    Some((Cleaned(Coins(nCode % 2 == 1, nCode / 2 % 2 == 1, outs.value.0, height.value.0, version.value.0)), height.value.1))
  }

  // ---------------------------------------------------------------- round trip

  lemma CodeBits(k: nat, b0: nat, b1: nat, b2: nat, b3: nat)
    requires b0 < 2 && b1 < 2 && b2 < 2 && b3 < 2
    ensures var n := 16 * k + b0 + 2 * b1 + 4 * b2 + 8 * b3;
      n % 2 == b0 && n / 2 % 2 == b1 && n / 4 % 2 == b2 && n / 8 % 2 == b3 && n / 16 == k && n / 4 % 4 == b2 + 2 * b3
  {
    var n := 16 * k + b0 + 2 * b1 + 4 * b2 + 8 * b3;
    DivIs(n, 2, 8 * k + b1 + 2 * b2 + 4 * b3, b0);
    DivIs(n, 4, 4 * k + b2 + 2 * b3, b0 + 2 * b1);
    DivIs(n, 8, 2 * k + b3, b0 + 2 * b1 + 4 * b2);
    DivIs(n, 16, k, b0 + 2 * b1 + 4 * b2 + 8 * b3);
    DivIs(n / 2, 2, 4 * k + b2 + 2 * b3, b1);
    DivIs(n / 4, 2, 2 * k + b3, b2);
    DivIs(n / 4, 4, k, b2 + 2 * b3);
    DivIs(n / 8, 2, k, b3);
  }

  /** The header code tells the flags, the first two outputs and the number of mask bytes. */
  lemma CodeTells(c: Coins)
    requires !IsPruned(c)
    ensures HeaderCode(c, 16) >= 0
    ensures var nCode := HeaderCode(c, 16);
      && nCode % 2 == (if c.fCoinBase then 1 else 0) && nCode / 2 % 2 == (if c.fCoinStake then 1 else 0)
      && Flags(nCode) == [Avail(c.vout, 0), Avail(c.vout, 1)]
      && MaskCode(nCode) == NonZero(c.vout, MaskBytes(c.vout))
  {
    CodeIsNatural(c, 16);
    var fFirst, fSecond := Avail(c.vout, 0), Avail(c.vout, 1);
    hide NonZero;
    hide Avail;
    CodeBits(NonZero(c.vout, MaskBytes(c.vout)) - (if fFirst || fSecond then 0 else 1),
      if c.fCoinBase then 1 else 0, if c.fCoinStake then 1 else 0, if fFirst then 1 else 0, if fSecond then 1 else 0);
  }

  /** The places that the flags and the mask tell about. */
  function Told(outs: Outs, n: nat): seq<bool> { [Avail(outs, 0), Avail(outs, 1)] + Bits(Mask(outs, n)) }

  lemma ToldAt(outs: Outs, n: nat, b: nat, p: nat)
    requires b < n && p < 8
    ensures Bits(Mask(outs, n))[b * 8 + p] == Avail(outs, 2 + b * 8 + p)
  {
    MaskByteIs(outs, b);
    assert Marked(outs, b, p) == BitAt(MaskByte(outs, b), p);
    hide BitAt;
    hide MaskByte;
    assert (b * 8 + p) / 8 == b && (b * 8 + p) % 8 == p;
  }

  lemma ToldIs(outs: Outs, n: nat)
    ensures |Told(outs, n)| == 2 + 8 * n && forall i :: 0 <= i < 2 + 8 * n ==> Told(outs, n)[i] == Avail(outs, i)
  {
    hide Avail;
    hide Bits;
    forall i | 2 <= i < 2 + 8 * n
      ensures Told(outs, n)[i] == Avail(outs, i)
    {
      assert Told(outs, n)[i] == Bits(Mask(outs, n))[i - 2];
      ToldAt(outs, n, (i - 2) / 8, (i - 2) % 8);
    }
  }

  lemma NothingBeyond(outs: Outs, i: nat)
    requires 2 + 8 * LastUsed(outs, MaskBytes(outs)) <= i < |outs|
    ensures outs[i].IsNull()
  {
    if Avail(outs, i) { MaskCovers(outs, i); }
  }

  lemma MaskStops(outs: Outs)
    ensures var m := Mask(outs, LastUsed(outs, MaskBytes(outs)));
      (m != [] ==> m[|m| - 1] != 0) && CountNonZero(m) == NonZero(outs, MaskBytes(outs))
  {
    BeyondLastUsed(outs, MaskBytes(outs));
    MaskCount(outs, LastUsed(outs, MaskBytes(outs)));
  }

  lemma {:induction false} TrimIs(outs: Outs, k: nat)
    requires k <= |outs| && (k > 0 ==> !outs[k - 1].IsNull()) && forall i :: k <= i < |outs| ==> outs[i].IsNull()
    ensures Trim(outs) == outs[..k]
    decreases |outs|
  {
    if k < |outs| {
      TrimIs(outs[..|outs| - 1], k);
    } else {
      assert outs[..k] == outs;
    }
  }

  /** Outputs placed by the mask are the outputs, but for spent ones at the end. */
  lemma PlacedTrims(outs: Outs, n: nat)
    requires forall j :: 0 <= j < |outs| ==> WellFormed(outs[j])
    requires forall j :: n <= j < |outs| ==> outs[j].IsNull()
    ensures Trim(Placed(outs, n)) == Trim(outs)
  {
    hide Trim, Placed, WellFormed;
    var k := |Trim(outs)|;
    TrimKeeps(outs);
    PlacedIs(outs, n, k);
    TrimIs(Placed(outs, n), k);
  }

  lemma PlacedIs(outs: Outs, n: nat, k: nat)
    requires forall j :: 0 <= j < |outs| ==> WellFormed(outs[j])
    requires forall j :: n <= j < |outs| ==> outs[j].IsNull()
    requires k <= |outs| && (k > 0 ==> !outs[k - 1].IsNull()) && forall j :: k <= j < |outs| ==> outs[j].IsNull()
    ensures k <= n && Placed(outs, n)[..k] == outs[..k] && (k > 0 ==> !Placed(outs, n)[k - 1].IsNull())
    ensures forall j :: k <= j < n ==> Placed(outs, n)[j].IsNull()
  {
    forall j | 0 <= j < n
      ensures j < k ==> Placed(outs, n)[j] == outs[j]
      ensures j >= k ==> Placed(outs, n)[j].IsNull()
    {
      if j < |outs| { assert WellFormed(outs[j]); }
    }
    hide WellFormed, Placed;
  }

  /**
   What is read back is the record without spent outputs at its end; version and height
   come back when they are not negative.
   */
  lemma RoundTrip(curve: Curve, c: Coins, rest: seq<Byte>)
    requires IsCurve(curve) && !IsPruned(c) && forall j :: 0 <= j < |c.vout| ==> WellFormed(c.vout[j])
    ensures ReadCoins(curve, CoinsBytes(curve, c) + rest)
      == Some((Cleaned(c).(nVersion := Wire(c.nVersion), nHeight := Wire(c.nHeight)), rest))
  {
    hide Wire;
    hide ReadVar;
    hide VarInt;
    hide ReadMask;
    hide ReadOuts;
    hide OutsBytes;
    hide HeaderCode;
    hide Trim;
    hide CoinsBytes;
    hide ReadCoins;
    hide IsPruned;
    hide Placed;
    hide NonZero;
    hide LastUsed;
    hide IsCurve;
    hide WellFormed;
    hide CountNonZero;
    hide MaskCode;
    hide Flags;
    hide Avail;
    var n := LastUsed(c.vout, MaskBytes(c.vout));
    var m, avail := Mask(c.vout, n), Told(c.vout, n);
    CodeTells(c);
    var nCode := HeaderCode(c, 16);
    var s4 := VarInt(Wire(c.nHeight)) + rest;
    var s3 := OutsBytes(curve, c.vout, 0) + s4;
    var s2 := m + s3;
    var s1 := VarInt(nCode) + s2;
    StreamIs(curve, c, rest);
    ReadWritten(Wire(c.nVersion), s1);
    ReadWritten(nCode, s2);
    MaskStops(c.vout);
    ReadMaskStops(m, s3);
    OutsRead(curve, c.vout, n, s4);
    ReadWritten(Wire(c.nHeight), rest);
    Stages(curve, c, CoinsBytes(curve, c) + rest, s1, nCode, s2, m, s3, Placed(c.vout, |avail|), s4, rest);
    PlacedAll(c.vout, n);
  }

  lemma OutsRead(curve: Curve, outs: Outs, n: nat, rest: seq<Byte>)
    requires IsCurve(curve) && (forall j :: 0 <= j < |outs| ==> WellFormed(outs[j])) && n == LastUsed(outs, MaskBytes(outs))
    ensures ReadOuts(curve, OutsBytes(curve, outs, 0) + rest, Told(outs, n)) == Some((Placed(outs, |Told(outs, n)|), rest))
  {
    var avail := Told(outs, n);
    ToldIs(outs, n);
    forall i | 2 + 8 * n <= i < |outs| ensures outs[i].IsNull() { NothingBeyond(outs, i); }
    ReadOutsBytes(curve, outs, avail, 0, rest);
    assert avail[0..] == avail && Placed(outs, |avail|)[0..] == Placed(outs, |avail|);
  }

  lemma PlacedAll(outs: Outs, n: nat)
    requires n == LastUsed(outs, MaskBytes(outs)) && forall j :: 0 <= j < |outs| ==> WellFormed(outs[j])
    ensures Trim(Placed(outs, |Told(outs, n)|)) == Trim(outs)
  {
    hide Trim;
    hide LastUsed;
    hide MaskBytes;
    hide WellFormed;
    hide Told;
    hide Placed;
    ToldIs(outs, n);
    forall i | 2 + 8 * n <= i < |outs| ensures outs[i].IsNull() { NothingBeyond(outs, i); }
    PlacedTrims(outs, 2 + 8 * n);
  }

  /** The stages of reading, put together. */
  lemma Stages(curve: Curve, c: Coins, s: seq<Byte>, s1: seq<Byte>, nCode: nat, s2: seq<Byte>, m: seq<Byte>, s3: seq<Byte>,
               outs: Outs, s4: seq<Byte>, rest: seq<Byte>)
    requires ReadVar(s, 0) == Some((Wire(c.nVersion), s1)) && ReadVar(s1, 0) == Some((nCode, s2))
    requires ReadMask(s2, MaskCode(nCode)) == Some((m, s3))
    requires ReadOuts(curve, s3, Flags(nCode) + Bits(m)) == Some((outs, s4)) && ReadVar(s4, 0) == Some((Wire(c.nHeight), rest))
    requires nCode % 2 == (if c.fCoinBase then 1 else 0) && nCode / 2 % 2 == (if c.fCoinStake then 1 else 0)
    ensures ReadCoins(curve, s) == Some((Coins(c.fCoinBase, c.fCoinStake, Trim(outs), Wire(c.nHeight), Wire(c.nVersion)), rest))
  {
    hide ReadVar;
    hide ReadMask;
    hide ReadOuts;
    hide Trim;
    hide Bits;
  }

  lemma StreamIs(curve: Curve, c: Coins, rest: seq<Byte>)
    requires !IsPruned(c) && HeaderCode(c, 16) >= 0
    ensures CoinsBytes(curve, c) + rest == VarInt(Wire(c.nVersion)) + (VarInt(HeaderCode(c, 16))
      + (Mask(c.vout, LastUsed(c.vout, MaskBytes(c.vout))) + (OutsBytes(curve, c.vout, 0) + (VarInt(Wire(c.nHeight)) + rest))))
  {
    hide VarInt;
    hide HeaderCode;
    hide OutsBytes;
    hide LastUsed;
  }

  /** For a clean record the round trip is exact if and only if version and height are not negative. */
  lemma RoundTripExactly(curve: Curve, c: Coins, rest: seq<Byte>)
    requires IsCurve(curve) && !IsPruned(c) && IsClean(c) && forall j :: 0 <= j < |c.vout| ==> WellFormed(c.vout[j])
    ensures ReadCoins(curve, CoinsBytes(curve, c) + rest) == Some((c, rest)) <==> c.nVersion >= 0 && c.nHeight >= 0
  {
    RoundTrip(curve, c, rest);
    CleanedIsClean(c);
  }

  // ---------------------------------------------------------------- sizes

  function OutsSize(curve: Curve, outs: Outs): nat { |OutsBytes(curve, outs, 0)| }

  /** What `GetSerializeSize` returns: it uses 8 where `Serialize` uses 16. */
  function SizeOf(curve: Curve, c: Coins): nat
    requires !IsPruned(c)
  {
    CodeIsNatural(c, 8);
    |VarInt(Wire(c.nVersion))| + |VarInt(HeaderCode(c, 8))| + LastUsed(c.vout, MaskBytes(c.vout)) + OutsSize(curve, c.vout)
      + |VarInt(Wire(c.nHeight))|
  }

  /** Between the two header codes lies a number at which one more byte is needed. */
  ghost predicate CrossesLimit(c: Coins) { exists k :: HeaderCode(c, 8) < Limit(k) <= HeaderCode(c, 16) }

  lemma CodesCompared(c: Coins)
    requires !IsPruned(c)
    ensures 0 <= HeaderCode(c, 8) <= HeaderCode(c, 16) <= 2 * HeaderCode(c, 8)
  {
    CodeIsNatural(c, 8);
    CodeIsNatural(c, 16);
  }

  lemma LongerIffCrosses(c: Coins)
    requires !IsPruned(c) && 0 <= HeaderCode(c, 8) <= HeaderCode(c, 16)
    ensures |VarInt(HeaderCode(c, 16))| > |VarInt(HeaderCode(c, 8))| <==> CrossesLimit(c)
  {
    hide HeaderCode;
    var m, n := HeaderCode(c, 8), HeaderCode(c, 16);
    var k := |VarInt(m)|;
    LengthIs(m, k);
    LengthIs(n, k);
    if j :| m < Limit(j) <= n {
      LengthIs(m, j);
      LengthIs(n, j);
    }
  }

  /**
   The announced size is the number of bytes written, or one less; it is one less exactly
   when a length limit lies between the two header codes.
   */
  lemma SizeIsExactIff(curve: Curve, c: Coins)
    requires !IsPruned(c)
    ensures |CoinsBytes(curve, c)| == SizeOf(curve, c) + if CrossesLimit(c) then 1 else 0
  {
    CodesCompared(c);
    LongerIsMore(HeaderCode(c, 8), HeaderCode(c, 16));
    TwiceIsOneMore(HeaderCode(c, 8), HeaderCode(c, 16));
    LongerIffCrosses(c);
    hide HeaderCode;
    hide VarInt;
    hide OutsBytes;
    hide LastUsed;
  }

  /** For codes of one or two bytes, which means up to a thousand mask bytes, that is a test against 128. */
  lemma SizeOfShortCodes(curve: Curve, c: Coins)
    requires !IsPruned(c) && HeaderCode(c, 16) < 16512
    ensures SizeOf(curve, c) == |CoinsBytes(curve, c)| <==> HeaderCode(c, 16) < 128 || HeaderCode(c, 8) >= 128
  {
    SizeIsExactIff(curve, c);
    assert Limit(0) == 0 && Limit(1) == 128 && Limit(2) == 16512;
    CodesCompared(c);
    hide HeaderCode;
    if HeaderCode(c, 8) < 128 <= HeaderCode(c, 16) {
      assert HeaderCode(c, 8) < Limit(1) <= HeaderCode(c, 16);
    }
    if k :| HeaderCode(c, 8) < Limit(k) <= HeaderCode(c, 16) {
      LimitsGrow(2, k);
    }
  }

  lemma {:induction false} LimitsGrow(j: nat, k: nat)
    ensures j <= k ==> Limit(j) <= Limit(k)
  {
    if j < k { LimitsGrow(j, k - 1); }
  }

  lemma {:induction false} AllMarked(outs: Outs, b: nat)
    requires 2 + 8 * b <= |outs| && forall i :: 0 <= i < |outs| ==> !outs[i].IsNull()
    ensures NonZero(outs, b) == b
  {
    if b > 0 {
      AllMarked(outs, b - 1);
      MaskByteIs(outs, b - 1);
      assert Marked(outs, b - 1, 0);
    }
  }

  /** Sixty-six unspent outputs make eight mask bytes, and a size that is one byte short. */
  lemma SizeCanUnderstate(curve: Curve) returns (c: Coins)
    ensures !IsPruned(c) && SizeOf(curve, c) < |CoinsBytes(curve, c)|
  {
    c := Coins(false, false, seq(66, _ => TxOut(1, [], -10)), 1, 1);
    assert !c.vout[0].IsNull() && Avail(c.vout, 0) && Avail(c.vout, 1);
    AllMarked(c.vout, 8);
    hide NonZero;
    hide MaskByte;
    hide LastUsed;
    hide OutsBytes;
    SizeOfShortCodes(curve, c);
    SizeIsExactIff(curve, c);
    assert HeaderCode(c, 8) == 76 && HeaderCode(c, 16) == 140;
  }

  // ---------------------------------------------------------------- the methods

  method CalcMaskSize(vout: Outs) returns (nBytes: nat, nNonzeroBytes: nat)
    ensures nBytes == LastUsed(vout, MaskBytes(vout)) && nNonzeroBytes == NonZero(vout, MaskBytes(vout))
  {
    nNonzeroBytes := 0;
    var nLastUsedByte := 0;
    var b := 0;
    while 2 + b * 8 < |vout|
      invariant b <= MaskBytes(vout)
      invariant nLastUsedByte == LastUsed(vout, b) && nNonzeroBytes == NonZero(vout, b)
    {
      var fZero := true;
      var i := 0;
      while i < 8 && 2 + b * 8 + i < |vout|
        invariant i <= 8 && (fZero <==> forall p :: 0 <= p < i ==> !Marked(vout, b, p))
      {
        assert Marked(vout, b, i) == !vout[2 + b * 8 + i].IsNull();
        if !vout[2 + b * 8 + i].IsNull() {
          fZero := false;
        }
        i := i + 1;
      }
      assert forall p :: i <= p < 8 ==> !Marked(vout, b, p);
      MaskByteIs(vout, b);
      if !fZero {
        nLastUsedByte := b + 1;
        nNonzeroBytes := nNonzeroBytes + 1;
      }
      b := b + 1;
    }
    nBytes := nLastUsedByte;
  }

  /** The next bit is above those before it. */
  lemma MaskStep(vout: Outs, b: nat, i: nat)
    requires i < 8 && 2 + b * 8 + i < |vout|
    ensures MaskPart(vout, b, i + 1) ==
      if vout[2 + b * 8 + i].IsNull() then MaskPart(vout, b, i) else BitOr(MaskPart(vout, b, i), Bit(i))
  {
    hide Bit, BitOr;
    MaskPartFits(vout, b, i);
    DivIs(Bit(i), Bit(i), 1, 0);
    assert Bit(i) == Pow(2, i) by { BitIs(i); }
    BitOrApart(Bit(i), MaskPart(vout, b, i), i);
  }

  lemma BitIs(i: nat)
    ensures Bit(i) == Pow(2, i)
  {
  }

  /** One byte of the mask: bit after bit. */
  method MaskByteOf(vout: Outs, b: nat) returns (chAvail: nat)
    ensures chAvail == MaskByte(vout, b)
  {
    assert MaskPart(vout, b, 0) == 0;
    hide Bit, BitOr, MaskPart;
    chAvail := 0;
    var i := 0;
    while i < 8 && 2 + b * 8 + i < |vout|
      invariant i <= 8 && chAvail == MaskPart(vout, b, i)
    {
      MaskStep(vout, b, i);
      if !vout[2 + b * 8 + i].IsNull() {
        chAvail := BitOr(chAvail, Bit(i));
      }
      i := i + 1;
    }
    NoMoreBits(vout, b, i, 8);
  }

  lemma {:induction false} NoMoreBits(outs: Outs, b: nat, i: nat, j: nat)
    requires i <= j && (i == j || 2 + b * 8 + i >= |outs|)
    ensures MaskPart(outs, b, j) == MaskPart(outs, b, i)
  {
    if i < j { NoMoreBits(outs, b, i, j - 1); }
  }

  /** The header code, as both `Serialize` and `GetSerializeSize` build it. */
  method HeaderOf(c: Coins, factor: nat, nMaskCode: nat) returns (nCode: nat)
    requires !IsPruned(c) && nMaskCode == NonZero(c.vout, MaskBytes(c.vout))
    ensures nCode == HeaderCode(c, factor)
  {
    var vout := c.vout;
    var fFirst := |vout| > 0 && !vout[0].IsNull();
    var fSecond := |vout| > 1 && !vout[1].IsNull();
    CodeIsNatural(c, factor);
    assert fFirst || fSecond || nMaskCode != 0;
    nCode := factor * (nMaskCode - if fFirst || fSecond then 0 else 1)
      + (if c.fCoinBase then 1 else 0) + (if c.fCoinStake then 2 else 0) + (if fFirst then 4 else 0) + (if fSecond then 8 else 0);
  }

  method Serialize(curve: Curve, c: Coins, os: seq<Byte>) returns (r: seq<Byte>)
    requires !IsPruned(c)
    ensures r == os + CoinsBytes(curve, c)
  {
    hide VarInt;
    hide OutsBytes;
    hide HeaderCode;
    hide LastUsed;
    hide NonZero;
    hide CoinsBytes;
    hide MaskBytes;
    hide Wire;
    var nMaskSize, nMaskCode := CalcMaskSize(c.vout);
    var nCode := HeaderOf(c, 16, nMaskCode);
    r := WriteVarInt(os, Wire(c.nVersion));
    r := WriteVarInt(r, nCode);
    ghost var header := r;
    for b := 0 to nMaskSize
      invariant r == header + Mask(c.vout, b)
    {
      var chAvail := MaskByteOf(c.vout, b);
      r := r + [chAvail];
      assert Mask(c.vout, b + 1) == Mask(c.vout, b) + [MaskByte(c.vout, b)];
    }
    r := SerializeOuts(curve, c.vout, r);
    r := WriteVarInt(r, Wire(c.nHeight));
    Assembled(curve, c, os);
  }

  lemma Assembled(curve: Curve, c: Coins, os: seq<Byte>)
    requires !IsPruned(c) && HeaderCode(c, 16) >= 0
    ensures (((os + VarInt(Wire(c.nVersion)) + VarInt(HeaderCode(c, 16))) + Mask(c.vout, LastUsed(c.vout, MaskBytes(c.vout))))
      + OutsBytes(curve, c.vout, 0)) + VarInt(Wire(c.nHeight)) == os + CoinsBytes(curve, c)
  {
    hide VarInt;
    hide OutsBytes;
    hide HeaderCode;
    hide LastUsed;
    hide MaskBytes;
    hide Wire;
  }

  method SerializeOuts(curve: Curve, vout: Outs, os: seq<Byte>) returns (r: seq<Byte>)
    ensures r == os + OutsBytes(curve, vout, 0)
  {
    hide OutsBytes;
    hide OutBytes;
    r := os;
    for i := 0 to |vout|
      invariant r + OutsBytes(curve, vout, i) == os + OutsBytes(curve, vout, 0)
    {
      OutWritten(curve, vout, i, r);
      if !vout[i].IsNull() {
        r := SerializeOut(curve, vout[i], r);
      }
    }
    OutWritten(curve, vout, |vout|, r);
  }

  method SerializeOut(curve: Curve, txout: TxOut, os: seq<Byte>) returns (r: seq<Byte>)
    ensures r == os + OutBytes(curve, txout)
  {
    hide VarInt;
    hide ScriptBytes;
    hide Compressed;
    var nVal := CompressAmount(AsUint64(txout.nValue));
    r := WriteVarInt(os, nVal);
    r := SerializeScript(curve, r, txout.script);
  }

  lemma OutWritten(curve: Curve, outs: Outs, i: nat, r: seq<Byte>)
    requires i <= |outs|
    ensures i < |outs| ==>
      r + OutsBytes(curve, outs, i) == (if outs[i].IsNull() then r else r + OutBytes(curve, outs[i])) + OutsBytes(curve, outs, i + 1)
    ensures i == |outs| ==> r + OutsBytes(curve, outs, i) == r
    ensures i < |outs| ==>
      |OutsBytes(curve, outs, i)| == (if outs[i].IsNull() then 0 else |OutBytes(curve, outs[i])|) + |OutsBytes(curve, outs, i + 1)|
  {
    hide OutBytes;
  }

  method SizeOfOut(curve: Curve, txout: TxOut) returns (n: nat)
    ensures n == |OutBytes(curve, txout)|
  {
    var nVal := CompressAmount(AsUint64(txout.nValue));
    n := GetSizeOfVarInt(nVal);
    n := n + |ScriptBytes(curve, txout.script)|;
  }

  method GetSerializeSize(curve: Curve, c: Coins) returns (nSize: nat)
    requires !IsPruned(c)
    ensures nSize == SizeOf(curve, c)
  {
    hide VarInt;
    hide OutsBytes;
    hide OutBytes;
    hide HeaderCode;
    hide LastUsed;
    hide NonZero;
    hide MaskBytes;
    hide Wire;
    var nMaskSize, nMaskCode := CalcMaskSize(c.vout);
    var nCode := HeaderOf(c, 8, nMaskCode);
    nSize := GetSizeOfVarInt(Wire(c.nVersion));
    var n := GetSizeOfVarInt(nCode);
    nSize := nSize + n + nMaskSize;
    ghost var header := nSize;
    for i := 0 to |c.vout|
      invariant nSize + |OutsBytes(curve, c.vout, i)| == header + OutsSize(curve, c.vout)
    {
      OutWritten(curve, c.vout, i, []);
      if !c.vout[i].IsNull() {
        n := SizeOfOut(curve, c.vout[i]);
        nSize := nSize + n;
      }
    }
    OutWritten(curve, c.vout, |c.vout|, []);
    n := GetSizeOfVarInt(Wire(c.nHeight));
    nSize := nSize + n;
  }

  /** The mask loop of `Unserialize`. */
  method UnserializeMask(s: seq<Byte>, nMaskCodeIn: nat, vFirst: seq<bool>) returns (r: Read<seq<bool>>)
    ensures var m := ReadMask(s, nMaskCodeIn);
      r == if m.None? then None else Some((vFirst + Bits(m.value.0), m.value.1))
  {
    BitsOfNothing();
    hide BitAt;
    hide Bits;
    hide ReadMask;
    var nMaskCode, i := nMaskCodeIn, 0;
    var vAvail := vFirst;
    assert s[..0] == [] && s[0..] == s;
    MaskRead(s, 0, nMaskCodeIn, nMaskCodeIn);
    while nMaskCode > 0
      invariant i <= |s| && vAvail == vFirst + Bits(s[..i])
      invariant ReadMask(s, nMaskCodeIn) == Prefixed(s[..i], ReadMask(s[i..], nMaskCode))
      decreases |s| - i
    {
      if i == |s| {
        MaskRead(s, i, nMaskCode, nMaskCodeIn);
        return None;
      }
      var chAvail := s[i];
      var bits := BitsOf(chAvail);
      vAvail := vAvail + bits;
      MaskRead(s, i, nMaskCode, nMaskCodeIn);
      BitsMore(vFirst, s, i, bits);
      i := i + 1;
      if chAvail != 0 {
        nMaskCode := nMaskCode - 1;
      }
    }
    PrefixedAll(s[..i], s[i..]);
    return Some((vAvail, s[i..]));
  }

  lemma BitsOfNothing()
    ensures Bits([]) == []
  {
  }

  /** `(chAvail & (1 << p)) != 0` for each bit. */
  method BitsOf(chAvail: Byte) returns (bits: seq<bool>)
    ensures |bits| == 8 && forall p :: 0 <= p < 8 ==> bits[p] == BitAt(chAvail, p)
  {
    bits := [];
    for p := 0 to 8
      invariant |bits| == p && forall q :: 0 <= q < p ==> bits[q] == BitAt(chAvail, q)
    {
      bits := bits + [BitAt(chAvail, p)];
    }
  }

  function Prefixed(m: seq<Byte>, r: Read<seq<Byte>>): Read<seq<Byte>> {
    if r.None? then None else Some((m + r.value.0, r.value.1))
  }

  lemma PrefixedAll(m: seq<Byte>, s: seq<Byte>)
    ensures Prefixed(m, ReadMask(s, 0)) == Some((m, s))
  {
    assert m + [] == m;
  }

  lemma MaskRead(s: seq<Byte>, i: nat, k: nat, all: nat)
    requires i <= |s|
    ensures Prefixed([], ReadMask(s, all)) == ReadMask(s, all)
    ensures k > 0 && i < |s| ==>
      Prefixed(s[..i], ReadMask(s[i..], k)) == Prefixed(s[..i + 1], ReadMask(s[i + 1..], if s[i] != 0 then k - 1 else k))
    ensures k > 0 && i == |s| ==> ReadMask(s[i..], k) == None
  {
    var m := ReadMask(s, all);
    if m.Some? { assert [] + m.value.0 == m.value.0; }
    if k > 0 && i < |s| {
      assert s[i..][1..] == s[i + 1..] && s[..i + 1] == s[..i] + [s[i]];
      var r := ReadMask(s[i + 1..], if s[i] != 0 then k - 1 else k);
      if r.Some? { assert s[..i] + ([s[i]] + r.value.0) == s[..i + 1] + r.value.0; }
    }
  }

  lemma BitsLast(m: seq<Byte>, b: Byte, bits: seq<bool>)
    requires |bits| == 8 && forall q :: 0 <= q < 8 ==> bits[q] == BitAt(b, q)
    ensures Bits(m + [b]) == Bits(m) + bits
  {
    hide BitAt;
  }

  lemma BitsMore(vFirst: seq<bool>, s: seq<Byte>, i: nat, bits: seq<bool>)
    requires i < |s| && |bits| == 8 && forall q :: 0 <= q < 8 ==> bits[q] == BitAt(s[i], q)
    ensures (vFirst + Bits(s[..i])) + bits == vFirst + Bits(s[..i + 1])
  {
    BitsLast(s[..i], s[i], bits);
    assert s[..i + 1] == s[..i] + [s[i]];
    hide Bits, BitAt;
  }

  method UnserializeOuts(curve: Curve, s: seq<Byte>, vAvail: seq<bool>) returns (r: Read<Outs>)
    ensures r == ReadOuts(curve, s, vAvail)
  {
    var rest := s;
    var vout: Outs := [];
    assert vAvail[0..] == vAvail;
    OutsPrefixed([], ReadOuts(curve, s, vAvail));
    for i := 0 to |vAvail|
      invariant ReadOuts(curve, s, vAvail) == OutsAfter(vout, ReadOuts(curve, rest, vAvail[i..]))
    {
      assert vAvail[i..][1..] == vAvail[i + 1..];
      ghost var tail := rest;
      if vAvail[i] {
        var v := ReadVarInt(rest);
        if v.None? { return None; }
        var n := DecompressAmount(v.value.0);
        var script := UnserializeScript(curve, v.value.1);
        if script.None? { return None; }
        assert ReadOut(curve, rest) == Some((TxOut(n, script.value.0, -10), script.value.1));
        OutsOneMore(vout, TxOut(n, script.value.0, -10), ReadOuts(curve, script.value.1, vAvail[i + 1..]));
        vout := vout + [TxOut(n, script.value.0, -10)];
        rest := script.value.1;
      } else {
        OutsOneMore(vout, NULL_OUT, ReadOuts(curve, rest, vAvail[i + 1..]));
        vout := vout + [NULL_OUT];
      }
    }
    assert vout + [] == vout;
    return Some((vout, rest));
  }

  function OutsAfter(outs: Outs, r: Read<Outs>): Read<Outs> {
    if r.None? then None else Some((outs + r.value.0, r.value.1))
  }

  lemma OutsPrefixed(outs: Outs, r: Read<Outs>)
    requires outs == []
    ensures OutsAfter(outs, r) == r
  {
    if r.Some? { assert [] + r.value.0 == r.value.0; }
  }

  lemma OutsOneMore(outs: Outs, o: TxOut, r: Read<Outs>)
    ensures OutsAfter(outs, if r.None? then None else Some(([o] + r.value.0, r.value.1))) == OutsAfter(outs + [o], r)
  {
    if r.Some? { assert outs + ([o] + r.value.0) == (outs + [o]) + r.value.0; }
  }

  method Unserialize(curve: Curve, s: seq<Byte>) returns (r: Read<Coins>)
    ensures r == ReadCoins(curve, s)
  {
    hide ReadVar;
    hide ReadMask;
    hide ReadOuts;
    hide Bits;
    var version := ReadVarInt(s);
    if version.None? { return None; }
    var code := ReadVarInt(version.value.1);
    if code.None? { return None; }
    var nCode := code.value.0;
    var vAvail := [nCode / 4 % 2 == 1, nCode / 8 % 2 == 1];
    var nMaskCode := nCode / 16 + if nCode / 4 % 4 != 0 then 0 else 1;
    var mask := UnserializeMask(code.value.1, nMaskCode, vAvail);
    if mask.None? { return None; }
    var outs := UnserializeOuts(curve, mask.value.1, mask.value.0);
    if outs.None? { return None; }
    var height := ReadVarInt(outs.value.1);
    if height.None? { return None; }
    var c := Cleanup(Coins(nCode % 2 == 1, nCode / 2 % 2 == 1, outs.value.0, height.value.0, version.value.0));
    return Some((c, height.value.1));
  }
}
