/**
 Unsigned integers of a fixed number of 32-bit limbs, updated in place
 (core/src/arith_uint256.h:33-247, core/src/arith_uint256.cpp:61-212).
 */
module ArithUint {
  import opened Arithmetic
  import opened Numerals
  import opened Limbs
  import opened LimbShifts

  /** The number of bits: none for zero. */
  ghost predicate IsBits(n: nat, v: nat) {
    if n == 0 then v == 0 else Pow(2, n - 1) <= v < Pow(2, n)
  }

  /** `carry + x + a * y` in 64 bits: the low limb and the carry. */
  function Wide(carry: nat, x: nat, a: nat, y: nat): (r: (nat, nat))
    ensures r.0 < M
  {
    ((carry + x + a * y) % M, (carry + x + a * y) / M)
  }

  lemma WideFits(carry: nat, x: nat, a: nat, y: nat)
    requires a < M && y < M && carry < M && x < M
    ensures Wide(carry, x, a, y).1 < M && carry + x + a * y < M * M
  {
    ProductFits(a, y, carry, x);
  }

  class BaseUint {
    const pn: array<nat>

    ghost predicate Valid()
      reads pn
    {
      pn.Length >= 2 && Limbed(pn[..])
    }

    ghost function Value(): nat
      reads pn
    {
      Val(pn[..])
    }

    /** Two to the number of bits. */
    ghost function Modulus(): (r: nat)
      ensures r > 0
    {
      Range(pn.Length)
    }

    /** `base_uint()` of a width. */
    constructor (width: nat)
      requires width >= 2
      ensures Valid() && fresh(pn) && pn.Length == width && Value() == 0
    {
      pn := new nat[width](_ => 0);
      new;
      assert pn[..] == Zeroes(width);
      ValOfZeroes(width);
    }

    /** `base_uint(const base_uint&)` */
    constructor Copy(b: BaseUint)
      requires b.Valid()
      ensures Valid() && fresh(pn) && pn.Length == b.pn.Length && pn[..] == b.pn[..]
    {
      pn := new nat[b.pn.Length](i requires 0 <= i < b.pn.Length reads b.pn => b.pn[i]);
      new;
      assert pn[..] == b.pn[..];
    }

    /** `base_uint(uint64_t)` of a width. */
    constructor FromUint64(width: nat, b: nat)
      requires width >= 2 && b < M * M
      ensures Valid() && fresh(pn) && pn.Length == width && Value() == b
    {
      pn := new nat[width](i => if i == 0 then b % M else if i == 1 then b / M else 0);
      new;
      Low64(pn[..], b);
    }

    method Clear()
      requires Valid()
      modifies pn
      ensures Valid() && pn[..] == Zeroes(pn.Length) && Value() == 0
    {
      for i := 0 to pn.Length
        invariant forall j :: 0 <= j < i ==> pn[j] == 0
      {
        pn[i] := 0;
      }
      assert pn[..] == Zeroes(pn.Length);
      ValOfZeroes(pn.Length);
    }

    /** `*this = b` */
    method Assign64(b: nat)
      requires Valid() && b < M * M
      modifies pn
      ensures Valid() && Value() == b
    {
      pn[0], pn[1] := b % M, b / M;
      for i := 2 to pn.Length
        invariant pn[0] == b % M && pn[1] == b / M && forall j :: 2 <= j < i ==> pn[j] == 0
      {
        pn[i] := 0;
      }
      Low64(pn[..], b);
    }

    method GetLow64() returns (r: nat)
      requires Valid()
      ensures r == Value() % (M * M)
    {
      r := pn[0] + M * pn[1];
      assert M * M == Range(2);
      ValPrefix(pn[..], 0);
      ValPrefix(pn[..], 1);
      ValCut(pn[..], 2);
      WeighZero(pn[0], 0);
      assert pn[..][..0] == [];
      CarryOut(r, Val(pn[..][2..]), Value(), 2);
    }

    // ---------------------------------------------------------------- sums

    method AddAssign(b: BaseUint)
      requires Valid() && b.Valid() && pn.Length == b.pn.Length
      modifies pn
      ensures Valid() && Value() == (old(Value()) + old(b.Value())) % Modulus()
    {
      hide Weigh;
      hide Val;
      ghost var was, bs := pn[..], b.pn[..];
      var carry: nat := 0;
      Nothing(0);
      for i := 0 to pn.Length
        invariant Limbed(pn[..]) && carry <= 1
        invariant pn[i..] == was[i..] && b.pn[i..] == bs[i..]
        invariant Val(pn[..i]) + Weigh(carry, i) == Val(was[..i]) + Val(bs[..i])
      {
        ghost var low := pn[..i];
        assert pn[i] == was[i] && b.pn[i] == bs[i];
        AddStep(Val(low), carry, Val(was[..i]) + Val(bs[..i]), was[i], bs[i], i);
        ValPrefix(was, i);
        ValPrefix(bs, i);
        var n := carry + pn[i] + b.pn[i];
        pn[i] := n % M;
        carry := n / M;
        assert pn[..i + 1] == low + [pn[i]];
        ValLast(low, n % M);
      }
      assert pn[..pn.Length] == pn[..] && was[..pn.Length] == was && bs[..pn.Length] == bs;
      ValBound(pn[..]);
      CarryOut(Value(), carry, Val(was) + Val(bs), pn.Length);
    }

    method Increment()
      requires Valid()
      modifies pn
      ensures Valid() && Value() == (old(Value()) + 1) % Modulus()
    {
      hide Weigh;
      hide Val;
      ghost var was := pn[..];
      ghost var carry := 1;
      Nothing(0);
      WeighZero(1, 0);
      var i := 0;
      pn[0] := (pn[0] + 1) % M;
      Carried(was, was[..0], pn[..], 0);
      while pn[i] == 0 && i < pn.Length - 1
        invariant 0 <= i < pn.Length && Limbed(pn[..]) && pn[i + 1..] == was[i + 1..]
        invariant Val(pn[..i + 1]) + Weigh(if pn[i] == 0 then 1 else 0, i + 1) == Val(was[..i + 1]) + 1
      {
        ghost var low := pn[..i + 1];
        i := i + 1;
        assert pn[i] == was[i];
        pn[i] := (pn[i] + 1) % M;
        assert pn[..i] == low;
        Carried(was, low, pn[..], i);
      }
      i := i + 1;
      carry := if pn[i - 1] == 0 then 1 else 0;
      ValCut(pn[..], i);
      ValCut(was, i);
      assert pn[..][i..] == was[i..] && pn[..][..i] == pn[..i];
      ValBound(pn[..]);
      if carry == 0 {
        WeighZero(0, i);
        WeighZero(0, pn.Length);
      } else {
        assert i == pn.Length;
      }
      CarryOut(Value(), carry, Val(was) + 1, pn.Length);
    }

    method Decrement()
      requires Valid()
      modifies pn
      ensures Valid() && Value() == (old(Value()) + Modulus() - 1) % Modulus()
    {
      hide Weigh;
      hide Val;
      ghost var was := pn[..];
      Nothing(0);
      WeighZero(1, 0);
      var i := 0;
      pn[0] := (pn[0] + M - 1) % M;
      Borrowed(was, was[..0], pn[..], 0);
      while pn[i] == M - 1 && i < pn.Length - 1
        invariant 0 <= i < pn.Length && Limbed(pn[..]) && pn[i + 1..] == was[i + 1..]
        invariant Val(pn[..i + 1]) + 1 == Val(was[..i + 1]) + Weigh(if pn[i] == M - 1 then 1 else 0, i + 1)
      {
        ghost var low := pn[..i + 1];
        i := i + 1;
        assert pn[i] == was[i];
        pn[i] := (pn[i] + M - 1) % M;
        assert pn[..i] == low;
        Borrowed(was, low, pn[..], i);
      }
      i := i + 1;
      ghost var borrow := if pn[i - 1] == M - 1 then 1 else 0;
      ValCut(pn[..], i);
      ValCut(was, i);
      assert pn[..][i..] == was[i..] && pn[..][..i] == pn[..i];
      ValBound(pn[..]);
      if borrow == 0 {
        WeighZero(0, i);
        WeighZero(0, pn.Length);
      } else {
        assert i == pn.Length;
      }
      BorrowOut(Value(), borrow, Val(was), pn.Length);
    }

    /** `-b`: the limbs inverted, plus one. */
    method Negated() returns (ret: BaseUint)
      requires Valid()
      ensures fresh(ret) && fresh(ret.pn) && ret.Valid() && ret.pn.Length == pn.Length
      ensures ret.Value() == (Modulus() - Value()) % Modulus()
    {
      ret := new BaseUint(pn.Length);
      ValBound(pn[..]);
      for i := 0 to pn.Length
        invariant fresh(ret.pn) && ret.Valid() && pn[..] == old(pn[..])
        invariant forall j :: 0 <= j < i ==> ret.pn[j] == M - 1 - pn[j]
      {
        ret.pn[i] := M - 1 - pn[i];
      }
      Inverted(pn[..], ret.pn[..]);
      ret.Increment();
    }

    method SubtractAssign(b: BaseUint)
      requires Valid() && b.Valid() && pn.Length == b.pn.Length
      modifies pn
      ensures Valid() && Value() == (old(Value()) + Modulus() - old(b.Value())) % Modulus()
    {
      hide Val, Pow;
      ValBound(b.pn[..]);
      ghost var v, w, m := Value(), b.Value(), Modulus();
      assert |b.pn[..]| == pn.Length && w < m;
      var minus := b.Negated();
      SameModulo(v, w, m);
      AddAssign(minus);
    }

    // ---------------------------------------------------------------- products

    method MultiplyAssign32(b32: nat)
      requires Valid() && b32 < M
      modifies pn
      ensures Valid() && Value() == old(Value()) * b32 % Modulus()
    {
      hide Weigh;
      hide Val;
      hide Wide;
      ghost var was := pn[..];
      var carry: nat := 0;
      Nothing(b32);
      for i := 0 to pn.Length
        invariant Limbed(pn[..]) && carry < M && pn[i..] == was[i..]
        invariant Val(pn[..i]) + Weigh(carry, i) == b32 * Val(was[..i])
      {
        ghost var low := pn[..i];
        assert pn[i] == was[i];
        WideFits(carry, 0, b32, was[i]);
        ScaleNext(was, low, carry, b32, i);
        var n := Wide(carry, 0, b32, pn[i]);
        pn[i] := n.0;
        carry := n.1;
        assert pn[..i + 1] == low + [pn[i]];
      }
      assert pn[..pn.Length] == pn[..] && was[..pn.Length] == was;
      ValBound(pn[..]);
      Commute(b32, Val(was));
      CarryOut(Value(), carry, b32 * Val(was), pn.Length);
    }

    /** One row: `pn` gains `a * b` in the place of limb `j`.  If `b` is the number being built, both are zero. */
    method MultiplyRow(a: nat, b: BaseUint, j: nat, ghost done: nat)
      requires Valid() && b.Valid() && pn.Length == b.pn.Length && a < M && j < pn.Length
      requires if pn == b.pn then pn[..] == Zeroes(pn.Length) else Value() == done % Modulus()
      modifies pn
      ensures Valid()
      ensures if pn == b.pn then pn[..] == Zeroes(pn.Length) else Value() == (done + Weigh(a * b.Value(), j)) % Modulus()
    {
      hide Weigh;
      hide Val;
      hide Wide;
      ghost var was, bs := pn[..], b.pn[..];
      var carry: nat := 0;
      RowStart(a, bs, j);
      for i := 0 to pn.Length - j
        invariant Limbed(pn[..]) && carry < M && pn[i + j..] == was[i + j..]
        invariant pn == b.pn ==> carry == 0 && pn[..] == Zeroes(pn.Length)
        invariant pn != b.pn ==>
          Val(pn[..i + j]) + Weigh(carry, i + j) == Val(was[..i + j]) + Weigh(a * Val(bs[..i]), j)
      {
        ghost var low, old_carry, before := pn[..i + j], carry, pn[..];
        assert pn[i + j] == was[i + j];
        var y := b.pn[i];
        WideFits(carry, pn[i + j], a, y);
        WideOfZero();
        var n := Wide(carry, pn[i + j], a, y);
        pn[i + j] := n.0;
        carry := n.1;
        assert pn[..i + j + 1] == low + [pn[i + j]];
        assert pn[i + j + 1..] == before[i + j..][1..];
        if pn == b.pn {
          assert pn[..] == before;
        } else {
          RowNext(was, bs, low, old_carry, a, i, j);
        }
      }
      assert pn[..pn.Length] == pn[..] && was[..pn.Length] == was;
      if pn != b.pn {
        ValBound(pn[..]);
        RowDone(a, done, Val(was), Value(), carry, bs, j);
      }
    }

    /** The product -- unless a number is multiplied by itself in place, which gives zero. */
    method MultiplyAssign(b: BaseUint)
      requires Valid() && b.Valid() && pn.Length == b.pn.Length
      modifies pn
      ensures Valid()
      ensures Value() == if pn == b.pn then 0 else old(Value()) * old(b.Value()) % Modulus()
    {
      hide Weigh;
      hide Val;
      var a := new BaseUint.Copy(this);
      Clear();
      NothingDone(b.Value(), Modulus());
      assert a.pn[..0] == [];
      for j := 0 to pn.Length
        invariant Valid() && b.Valid() && fresh(a.pn) && a.pn[..] == old(pn[..])
        invariant pn == b.pn ==> pn[..] == Zeroes(pn.Length)
        invariant pn != b.pn ==> b.pn[..] == old(b.pn[..]) && Value() == Val(a.pn[..j]) * b.Value() % Modulus()
      {
        RowSum(a.pn[..], j, b.Value());
        assert a.pn[..][..j] == a.pn[..j] && a.pn[..][..j + 1] == a.pn[..j + 1];
        MultiplyRow(a.pn[j], b, j, Val(a.pn[..j]) * b.Value());
      }
      assert a.pn[..a.pn.Length] == a.pn[..];
      ValOfZeroes(pn.Length);
    }

    // ---------------------------------------------------------------- order and bits

    method CompareTo(b: BaseUint) returns (r: int)
      requires Valid() && b.Valid() && pn.Length == b.pn.Length
      ensures r == if Value() < b.Value() then -1 else if Value() > b.Value() then 1 else 0
    {
      for i := pn.Length downto 0
        invariant pn[..][i..] == b.pn[..][i..]
      {
        if pn[i] < b.pn[i] {
          HighestDecides(pn[..], b.pn[..], i);
          return -1;
        }
        if pn[i] > b.pn[i] {
          HighestDecides(b.pn[..], pn[..], i);
          return 1;
        }
      }
      assert pn[..] == pn[..][0..] && b.pn[..] == b.pn[..][0..];
      return 0;
    }

    /** `operator==`: the limbs are compared, and so are the values. */
    method Equals(b: BaseUint) returns (r: bool)
      requires Valid() && b.Valid() && pn.Length == b.pn.Length
      ensures r <==> Value() == b.Value()
    {
      for i := 0 to pn.Length
        invariant pn[..i] == b.pn[..i]
      {
        if pn[i] != b.pn[i] {
          assert pn[..] != b.pn[..];
          if Value() == b.Value() { ValInjective(pn[..], b.pn[..]); }
          return false;
        }
      }
      assert pn[..] == b.pn[..];
      return true;
    }

    method EqualTo(b: nat) returns (r: bool)
      requires Valid() && b < M * M
      ensures r <==> Value() == b
    {
      ghost var limbs := seq(pn.Length, i => if i == 0 then b % M else if i == 1 then b / M else 0);
      Low64(limbs, b);
      for i := pn.Length downto 2
        invariant forall j :: i <= j < pn.Length ==> pn[j] == 0
      {
        if pn[i] != 0 {
          if Value() == b { ValInjective(pn[..], limbs); }
          return false;
        }
      }
      r := pn[1] == b / M && pn[0] == b % M;
      if r {
        assert pn[..] == limbs;
      } else if Value() == b {
        ValInjective(pn[..], limbs);
      }
    }

    /** The place of the highest bit plus one, or zero. */
    method Bits() returns (n: nat)
      requires Valid()
      ensures IsBits(n, Value()) && n <= 32 * pn.Length
    {
      for pos := pn.Length downto 0
        invariant forall i :: pos <= i < pn.Length ==> pn[i] == 0
      {
        if pn[pos] != 0 {
          var bits := 31;
          TwoTo32();
          while bits > 0
            invariant 0 <= bits < 32 && pn[pos] < Pow(2, bits + 1)
            decreases bits
          {
            if pn[pos] / Bit(bits) % 2 == 1 {
              BitSet(pn[pos], bits);
              TopLimbBits(pn[..], pos, bits);
              return 32 * pos + bits + 1;
            }
            BitClear(pn[pos], bits);
            bits := bits - 1;
          }
          assert Pow(2, 1) == 2;
          TopLimbBits(pn[..], pos, 0);
          return 32 * pos + 1;
        }
      }
      assert pn[..] == Zeroes(pn.Length);
      ValOfZeroes(pn.Length);
      return 0;
    }

    // ---------------------------------------------------------------- shifts

    method ShiftLeftAssign(shift: nat)
      requires Valid()
      modifies pn
      ensures Valid() && Value() == old(Value()) * Pow(2, shift) % Modulus()
    {
      hide UpPart;
      hide UpLimb;
      hide BitOr;
      hide LowOf;
      hide HighOf;
      hide Pow;
      hide Val;
      var a := new BaseUint.Copy(this);
      ghost var was := pn[..];
      Clear();
      var k, t := shift / 32, shift % 32;
      UpPartNone(was, k, t);
      for i := 0 to pn.Length
        invariant a.pn[..] == was && fresh(a.pn)
        invariant forall m :: 0 <= m < pn.Length ==> pn[m] == UpPart(was, k, t, m, i)
      {
        if i + k + 1 < pn.Length && t != 0 {
          pn[i + k + 1] := BitOr(pn[i + k + 1], HighOf(a.pn[i], t));
        }
        if i + k < pn.Length {
          pn[i + k] := BitOr(pn[i + k], LowOf(a.pn[i], t));
        }
        UpPartStep(was, k, t, i);
      }
      forall m | 0 <= m < pn.Length
        ensures pn[m] == UpLimb(was, k, t, m)
      {
        UpPartDone(was, k, t, m);
      }
      assert pn[..] == Up(was, k, t);
      UpIsProduct(was, shift);
    }

    method ShiftRightAssign(shift: nat)
      requires Valid()
      modifies pn
      ensures Valid() && Pow(2, shift) > 0 && Value() == old(Value()) / Pow(2, shift)
    {
      hide DownPart;
      hide DownLimb;
      hide BitOr;
      hide LowOf;
      hide HighOf;
      hide Pow;
      hide Val;
      var a := new BaseUint.Copy(this);
      ghost var was := pn[..];
      Clear();
      var k, t := shift / 32, shift % 32;
      DownPartNone(was, k, t);
      for i := 0 to pn.Length
        invariant a.pn[..] == was && fresh(a.pn)
        invariant forall m :: 0 <= m < pn.Length ==> pn[m] == DownPart(was, k, t, m, i)
      {
        if i - k - 1 >= 0 && t != 0 {
          pn[i - k - 1] := BitOr(pn[i - k - 1], LowOf(a.pn[i], 32 - t));
        }
        if i - k >= 0 {
          pn[i - k] := BitOr(pn[i - k], a.pn[i] / Bit(t));
        }
        DownPartStep(was, k, t, i);
      }
      forall m | 0 <= m < pn.Length
        ensures pn[m] == DownLimb(was, k, t, m)
      {
        DownPartDone(was, k, t, m);
      }
      assert pn[..] == Down(was, k, t);
      DownIsQuotient(was, shift);
    }

    // ---------------------------------------------------------------- division

    /** `pn[shift / 32] |= (1 << (shift & 31))` on a number with no bits up to that place. */
    method SetBit(shift: nat)
      requires Valid() && shift < 32 * pn.Length && ClearBelow(pn[..], shift + 1)
      modifies pn
      ensures Valid() && ClearBelow(pn[..], shift) && Value() == old(Value()) + Pow(2, shift)
    {
      var k, t := shift / 32, shift % 32;
      ghost var was := pn[..];
      SetsBit(was, shift);
      pn[k] := BitOr(pn[k], Bit(t));
      assert pn[..] == was[k := BitOr(was[k], Bit(t))];
    }

    /** One place of the long division. */
    method DivideBit(num: BaseUint, div: BaseUint, shift: nat, ghost total: nat, ghost dv: nat)
      requires Valid() && num.Valid() && div.Valid() && pn.Length == num.pn.Length == div.pn.Length
      requires pn != num.pn && pn != div.pn && num.pn != div.pn
      requires shift < 32 * pn.Length && ClearBelow(pn[..], shift + 1) && Shifted(div.Value(), dv, shift)
      requires Dividing(total, dv, num.Value(), Value(), shift + 1)
      modifies pn, num.pn, div.pn
      ensures Valid() && num.Valid() && div.Valid()
      ensures ClearBelow(pn[..], shift) && Dividing(total, dv, num.Value(), Value(), shift)
      ensures shift > 0 ==> Shifted(div.Value(), dv, shift - 1)
    {
      hide Val;
      hide Pow;
      hide Dividing;
      hide ClearBelow;
      hide Limbed;
      ghost var n, d := num.Value(), div.Value();
      DivideStep(total, dv, n, Value(), d, shift);
      var c := num.CompareTo(div);
      if c >= 0 {
        ValueFits(num);
        Difference(n, d, Modulus());
        num.SubtractAssign(div);
        SetBit(shift);
      } else {
        ClearFurther(shift);
      }
      div.ShiftRightAssign(1);
    }

    lemma ClearFurther(shift: nat)
      requires Valid() && shift < 32 * pn.Length && ClearBelow(pn[..], shift + 1)
      ensures ClearBelow(pn[..], shift)
    {
      ClearMore(pn[..], shift);
    }

    lemma ValueFits(b: BaseUint)
      requires b.Valid()
      ensures b.Value() < b.Modulus()
    {
      ValBound(b.pn[..]);
    }

    /** The quotient, with the remainder left in `num`; division by zero is refused. */
    method DivideAssign(b: BaseUint) returns (ok: bool, num: BaseUint)
      requires Valid() && b.Valid() && pn.Length == b.pn.Length
      modifies pn
      ensures Valid() && num.Valid() && ok == (old(b.Value()) != 0)
      ensures ok ==> Value() == old(Value()) / old(b.Value()) && num.Value() == old(Value()) % old(b.Value())
      ensures !ok ==> Value() == 0
    {
      hide Limbed;
      hide Val;
      hide Pow;
      hide Dividing;
      hide ClearBelow;
      hide IsBits;
      var div := new BaseUint.Copy(b);
      num := new BaseUint.Copy(this);
      ghost var total, dv := Value(), b.Value();
      Clear();
      var num_bits := num.Bits();
      var div_bits := div.Bits();
      BitsOfZero(div_bits, dv);
      if div_bits == 0 {
        return false, num;
      }
      if div_bits > num_bits {
        FewerBits(total, dv, num_bits, div_bits);
        return true, num;
      }
      var shift: int := num_bits - div_bits;
      Aligned(total, dv, num_bits, div_bits, pn.Length);
      div.ShiftLeftAssign(shift);
      ZeroIsClear(pn.Length, shift + 1);
      while shift >= 0
        invariant Valid() && div.Valid() && num.Valid() && fresh(div.pn) && fresh(num.pn) && div.pn != num.pn && pn != num.pn && pn != div.pn
        invariant div.pn.Length == num.pn.Length == pn.Length
        invariant -1 <= shift < 32 * pn.Length && ClearBelow(pn[..], shift + 1)
        invariant shift >= 0 ==> Shifted(div.Value(), dv, shift)
        invariant Dividing(total, dv, num.Value(), Value(), shift + 1)
        decreases shift
      {
        DivideBit(num, div, shift, total, dv);
        shift := shift - 1;
      }
      Divided(total, dv, num.Value(), Value());
      ok := true;
    }
  }

  // ---------------------------------------------------------------- steps

  lemma Nothing(b: nat)
    ensures Val([]) == 0 == Weigh(0, 0) == b * Val([])
  {
  }

  lemma NothingDone(b: nat, m: nat)
    requires m > 0
    ensures Val([]) * b % m == 0
  {
  }

  lemma RowStart(a: nat, bs: seq<nat>, j: nat)
    ensures Weigh(0, j) == 0 == Weigh(a * Val(bs[..0]), j)
  {
  }

  lemma ScaleNext(was: seq<nat>, low: seq<nat>, carry: nat, b: nat, i: nat)
    requires i < |was| && |low| == i && Val(low) + Weigh(carry, i) == b * Val(was[..i])
    ensures var n := Wide(carry, 0, b, was[i]);
      Val(low + [n.0]) + Weigh(n.1, i + 1) == b * Val(was[..i + 1])
  {
    hide Weigh;
    ScaleStep(Val(low), carry, b, Val(was[..i]), was[i], i);
    ValPrefix(was, i);
    ValLast(low, (carry + b * was[i]) % M);
  }

  lemma WideOfZero()
    ensures forall a: nat :: Wide(0, 0, a, 0) == (0, 0)
  {
  }

  lemma RowNext(was: seq<nat>, bs: seq<nat>, low: seq<nat>, carry: nat, a: nat, i: nat, j: nat)
    requires i + j < |was| == |bs| && |low| == i + j
    requires Val(low) + Weigh(carry, i + j) == Val(was[..i + j]) + Weigh(a * Val(bs[..i]), j)
    ensures var n := Wide(carry, was[i + j], a, bs[i]);
      Val(low + [n.0]) + Weigh(n.1, i + j + 1) == Val(was[..i + j + 1]) + Weigh(a * Val(bs[..i + 1]), j)
  {
    hide Weigh, Val;
    var n := carry + was[i + j] + a * bs[i];
    ValPrefix(was, i + j);
    ValPrefix(bs, i);
    RowStep(Val(low), carry, Val(was[..i + j]), a, Val(bs[..i]), Val(bs[..i + 1]), was[i + j], bs[i], n, i, j);
    ValLast(low, n % M);
  }

  lemma Low64(s: seq<nat>, b: nat)
    requires |s| >= 2 && b < M * M && s[0] == b % M && s[1] == b / M && forall i :: 2 <= i < |s| ==> s[i] == 0
    ensures Limbed(s) && Val(s) == b
  {
    EmptyTop(s, 2);
    ValPrefix(s, 0);
    ValPrefix(s, 1);
    WeighZero(b, 0);
    WeighSplit(b, 0);
    WeighZero(b % M, 0);
    assert s[..0] == [];
  }

  lemma Carried(was: seq<nat>, low: seq<nat>, now: seq<nat>, i: nat)
    requires i < |was| == |now| && |low| == i && low == now[..i] && Limbed(was)
    requires Val(low) + Weigh(1, i) == Val(was[..i]) + 1
    requires now[i] == (was[i] + 1) % M
    ensures Val(now[..i + 1]) + Weigh(if now[i] == 0 then 1 else 0, i + 1) == Val(was[..i + 1]) + 1
  {
    ValPrefix(was, i);
    ValPrefix(now, i);
    WeighAdd(was[i], 1, i);
    WeighSplit(was[i] + 1, i);
  }

  lemma Borrowed(was: seq<nat>, low: seq<nat>, now: seq<nat>, i: nat)
    requires i < |was| == |now| && |low| == i && low == now[..i] && Limbed(was)
    requires Val(low) + 1 == Val(was[..i]) + Weigh(1, i)
    requires now[i] == (was[i] + M - 1) % M
    ensures Val(now[..i + 1]) + 1 == Val(was[..i + 1]) + Weigh(if now[i] == M - 1 then 1 else 0, i + 1)
  {
    ValPrefix(was, i);
    ValPrefix(now, i);
    var b := if now[i] == M - 1 then 1 else 0;
    assert now[i] + 1 == was[i] + M * b;
    WeighAdd(now[i], 1, i);
    WeighAdd(was[i], M * b, i);
    WeighUp(b, i);
  }

  lemma BorrowOut(now: nat, borrow: nat, was: nat, w: nat)
    requires borrow <= 1 && now < Range(w) && now + 1 == was + Weigh(borrow, w)
    ensures now == (was + Range(w) - 1) % Range(w)
  {
    DivIs(was + Range(w) - 1, Range(w), 1 - borrow, now);
  }

  /** All limbs inverted: what is missing to the top. */
  lemma {:induction false} Inverted(s: seq<nat>, t: seq<nat>)
    requires |s| == |t| && Limbed(s) && forall i :: 0 <= i < |s| ==> t[i] == M - 1 - s[i]
    ensures Val(s) + Val(t) + 1 == Pow(M, |s|)
  {
    if s != [] {
      var k := |s| - 1;
      Inverted(s[..k], t[..k]);
      WeighAdd(s[k], t[k], k);
      WeighAdd(M - 1, 1, k);
      WeighUp(1, k);
      WeighZero(0, k);
    }
  }

  lemma SameModulo(a: nat, b: nat, m: nat)
    requires b <= m && m > 0
    ensures (a + (m - b) % m) % m == (a + m - b) % m
  {
    if b == 0 {
      DivIs(m, m, 1, 0);
      QuotientRemainder(a, m);
      DivIs(a + m, m, a / m + 1, a % m);
    } else {
      DivIs(m - b, m, 0, m - b);
    }
  }

  // ---------------------------------------------------------------- bits

  lemma BitSet(x: nat, b: nat)
    requires x / Bit(b) % 2 == 1
    ensures Pow(2, b) <= x
  {
    QuotientRemainder(x, Bit(b));
    MulMonotone(1, x / Bit(b), Bit(b));
  }

  lemma BitClear(x: nat, b: nat)
    requires x / Bit(b) % 2 == 0 && x < Pow(2, b + 1)
    ensures x < Pow(2, b)
  {
    QuotientRemainder(x, Bit(b));
    var q := x / Bit(b);
    if q >= 2 { MulMonotone(2, q, Bit(b)); }
  }

  lemma TopLimbBits(s: seq<nat>, pos: nat, b: nat)
    requires Limbed(s) && pos < |s| && b < 32 && (forall i :: pos < i < |s| ==> s[i] == 0)
    requires Pow(2, b) <= s[pos] < Pow(2, b + 1)
    ensures IsBits(32 * pos + b + 1, Val(s))
  {
    EmptyTop(s, pos + 1);
    ValPrefix(s, pos);
    ValBound(s[..pos]);
    TwoToThe(pos, b);
    TwoToThe(pos, b + 1);
    Commute(Pow(M, pos), Bit(b));
    Commute(Pow(M, pos), Bit(b + 1));
    WeighMonotone(Bit(b), s[pos], pos);
    WeighMonotone(s[pos], Bit(b + 1), pos);
  }

  // ---------------------------------------------------------------- shift loops

  /** Limb `m` when the first `i` limbs have been shifted up. */
  function UpPart(a: seq<nat>, k: nat, t: nat, m: nat, i: nat): nat
    requires t < 32
  {
    BitOr(if t != 0 && 0 <= m - k - 1 < |a| && m - k - 1 < i then HighOf(a[m - k - 1], t) else 0,
          if 0 <= m - k < |a| && m - k < i then LowOf(a[m - k], t) else 0)
  }

  lemma UpPartNone(a: seq<nat>, k: nat, t: nat)
    requires t < 32
    ensures forall m :: 0 <= m < |a| ==> UpPart(a, k, t, m, 0) == 0
  {
  }

  lemma UpPartStep(a: seq<nat>, k: nat, t: nat, i: nat)
    requires t < 32 && i < |a|
    ensures forall m :: 0 <= m < |a| && m != i + k && m != i + k + 1 ==> UpPart(a, k, t, m, i + 1) == UpPart(a, k, t, m, i)
    ensures i + k + 1 < |a| && t != 0 ==>
      UpPart(a, k, t, i + k + 1, i + 1) == BitOr(UpPart(a, k, t, i + k + 1, i), HighOf(a[i], t))
    ensures i + k + 1 < |a| && t == 0 ==> UpPart(a, k, t, i + k + 1, i + 1) == UpPart(a, k, t, i + k + 1, i)
    ensures i + k < |a| ==> UpPart(a, k, t, i + k, i + 1) == BitOr(UpPart(a, k, t, i + k, i), LowOf(a[i], t))
  {
    hide BitOr;
    hide LowOf;
    hide HighOf;
    BitOrZero(0);
    if t != 0 { BitOrZero(HighOf(a[i], t)); }
    if t != 0 && i > 0 { BitOrZero(HighOf(a[i - 1], t)); }
  }

  lemma UpPartDone(a: seq<nat>, k: nat, t: nat, m: nat)
    requires t < 32 && m < |a|
    ensures UpPart(a, k, t, m, |a|) == UpLimb(a, k, t, m)
  {
  }

  /** Limb `m` when the first `i` limbs have been shifted down. */
  function DownPart(a: seq<nat>, k: nat, t: nat, m: nat, i: nat): nat
    requires t < 32
  {
    BitOr(if m + k < |a| && m + k < i then a[m + k] / Bit(t) else 0,
          if t != 0 && m + k + 1 < |a| && m + k + 1 < i then LowOf(a[m + k + 1], 32 - t) else 0)
  }

  lemma DownPartNone(a: seq<nat>, k: nat, t: nat)
    requires t < 32
    ensures forall m :: 0 <= m < |a| ==> DownPart(a, k, t, m, 0) == 0
  {
  }

  lemma DownPartStep(a: seq<nat>, k: nat, t: nat, i: nat)
    requires t < 32 && i < |a|
    ensures forall m :: 0 <= m < |a| && m + k != i && m + k + 1 != i ==> DownPart(a, k, t, m, i + 1) == DownPart(a, k, t, m, i)
    ensures i - k - 1 >= 0 && t != 0 ==>
      DownPart(a, k, t, i - k - 1, i + 1) == BitOr(DownPart(a, k, t, i - k - 1, i), LowOf(a[i], 32 - t))
    ensures i - k - 1 >= 0 && t == 0 ==> DownPart(a, k, t, i - k - 1, i + 1) == DownPart(a, k, t, i - k - 1, i)
    ensures i - k >= 0 ==> DownPart(a, k, t, i - k, i + 1) == BitOr(DownPart(a, k, t, i - k, i), a[i] / Bit(t))
  {
    hide BitOr;
    hide LowOf;
    BitOrZero(0);
    BitOrZero(a[i] / Bit(t));
    if i > 0 { BitOrZero(a[i - 1] / Bit(t)); }
  }

  lemma DownPartDone(a: seq<nat>, k: nat, t: nat, m: nat)
    requires t < 32 && m < |a|
    ensures DownPart(a, k, t, m, |a|) == DownLimb(a, k, t, m)
  {
  }

  // ---------------------------------------------------------------- division steps

  /** No bit below place `n`. */
  predicate ClearBelow(s: seq<nat>, n: nat) {
    && (forall i :: 0 <= i < |s| && i < n / 32 ==> s[i] == 0)
    && (n / 32 < |s| ==> s[n / 32] % Bit(n % 32) == 0)
  }

  lemma ZeroIsClear(w: nat, n: nat)
    ensures ClearBelow(Zeroes(w), n)
  {
    DivIs(0, Bit(n % 32), 0, 0);
  }

  lemma LimbClear(s: seq<nat>, shift: nat)
    requires Limbed(s) && shift < 32 * |s| && ClearBelow(s, shift + 1)
    ensures s[shift / 32] % Bit(shift % 32 + 1) == 0
  {
    var k, t := shift / 32, shift % 32;
    hide Bit;
    if t == 31 {
      DivIs(shift + 1, 32, k + 1, 0);
      DivIs(s[k], Bit(32), 0, 0);
    } else {
      DivIs(shift + 1, 32, k, t + 1);
    }
  }

  lemma ClearMore(s: seq<nat>, shift: nat)
    requires Limbed(s) && shift < 32 * |s| && ClearBelow(s, shift + 1)
    ensures ClearBelow(s, shift)
  {
    LimbClear(s, shift);
    MultipleOf(2, Bit(shift % 32));
    DividesThrough(Bit(shift % 32), Bit(shift % 32 + 1), s[shift / 32]);
  }

  lemma SetsBit(s: seq<nat>, shift: nat)
    requires Limbed(s) && shift < 32 * |s| && ClearBelow(s, shift + 1)
    ensures var k, t := shift / 32, shift % 32;
      var r := s[k := BitOr(s[k], Bit(t))];
      Limbed(r) && ClearBelow(r, shift) && Val(r) == Val(s) + Pow(2, shift)
  {
    hide Val;
    hide Weigh;
    hide Pow;
    var k, t := shift / 32, shift % 32;
    LimbClear(s, shift);
    BitBelow(t);
    BitOrApart(s[k], Bit(t), t + 1);
    UpBelow(s[k], Bit(t), t + 1);
    BitWeighs(s, k, t);
    assert 32 * k + t == shift;
    ClearMore(s, shift);
    BitAdded(s[k], Bit(t));
  }

  lemma BitBelow(t: nat)
    ensures Bit(t) < Bit(t + 1) == Pow(2, t + 1)
  {
  }

  lemma BitWeighs(s: seq<nat>, k: nat, t: nat)
    requires k < |s|
    ensures Val(s[k := s[k] + Bit(t)]) == Val(s) + Pow(2, 32 * k + t)
  {
    hide Val;
    hide Pow;
    ValUpdate(s, k, s[k] + Bit(t));
    WeighAdd(s[k], Bit(t), k);
    TwoToThe(k, t);
    Commute(Bit(t), Pow(M, k));
  }

  lemma BitAdded(x: nat, p: nat)
    requires p > 0 && x % p == 0
    ensures (x + p) % p == 0
  {
    QuotientRemainder(x, p);
    Distribute(x / p, 1, p);
    MultipleOf(x / p + 1, p);
  }

  /** The bits from place `e` up are divided. */
  ghost predicate Dividing(total: nat, dv: nat, num: nat, q: nat, e: nat) {
    num + q * dv == total && num < dv * Pow(2, e)
  }

  ghost predicate Shifted(div: nat, dv: nat, e: nat) { div == dv * Pow(2, e) }

  lemma DivideStep(total: nat, dv: nat, num: nat, q: nat, div: nat, e: nat)
    requires Dividing(total, dv, num, q, e + 1) && Shifted(div, dv, e)
    ensures if num >= div then Dividing(total, dv, num - div, q + Pow(2, e), e) else Dividing(total, dv, num, q, e)
    ensures Pow(2, 1) == 2 && (e > 0 ==> Shifted(div / 2, dv, e - 1))
  {
    Halved(dv, e);
    Distribute(q, Pow(2, e), dv);
    Commute(dv, Pow(2, e));
  }

  lemma Divided(total: nat, dv: nat, num: nat, q: nat)
    requires Dividing(total, dv, num, q, 0) && dv > 0
    ensures q == total / dv && num == total % dv
  {
    assert Pow(2, 0) == 1;
    DivIs(total, dv, q, num);
  }

  lemma BitsOfZero(n: nat, v: nat)
    requires IsBits(n, v)
    ensures n == 0 <==> v == 0
  {
    if n > 0 { PowPositive(2, n - 1); }
  }

  lemma FewerBits(v: nat, b: nat, n: nat, m: nat)
    requires IsBits(n, v) && IsBits(m, b) && m > n
    ensures v < b && v / b == 0 && v % b == v
  {
    PowGrows(2, n, m - 1);
    DivIs(v, b, 0, v);
  }

  /** After aligning, the divisor has not lost a bit and is more than half the dividend. */
  lemma Aligned(v: nat, b: nat, n: nat, m: nat, w: nat)
    requires IsBits(n, v) && IsBits(m, b) && 0 < m <= n <= 32 * w
    ensures b * Pow(2, n - m) < Range(w) && b * Pow(2, n - m) % Range(w) == b * Pow(2, n - m)
    ensures Dividing(v, b, v, 0, n - m + 1) && Shifted(b * Pow(2, n - m), b, n - m)
  {
    var shift := n - m;
    PowAdd(2, m, shift);
    PowAdd(2, m - 1, shift + 1);
    PowPositive(2, shift);
    MulStrict(b, Pow(2, m), Pow(2, shift));
    MulMonotone(Pow(2, m - 1), b, Pow(2, shift + 1));
    PowGrows(2, n, 32 * w);
    TwoToThe(w, 0);
    DivIs(b * Pow(2, shift), Range(w), 0, b * Pow(2, shift));
  }

  lemma Difference(a: nat, b: nat, m: nat)
    requires b <= a < m
    ensures (a + m - b) % m == a - b
  {
    DivIs(a + m - b, m, 1, a - b);
  }

  lemma Halved(b: nat, shift: nat)
    ensures Pow(2, 1) == 2
    ensures b * Pow(2, shift + 1) == 2 * (b * Pow(2, shift))
    ensures shift > 0 ==> b * Pow(2, shift) / 2 == b * Pow(2, shift - 1)
  {
    Regroup(b, 2, Pow(2, shift));
    Commute(b, 2);
    Regroup(2, b, Pow(2, shift));
    if shift > 0 {
      Regroup(2, b, Pow(2, shift - 1));
      Regroup(b, 2, Pow(2, shift - 1));
      Commute(b, 2);
    }
  }
}
