/**
 The heights that the second pointers of blocks lead to, and how few steps a walk by both
 kinds of pointers takes (core/src/main.cpp:3962-3999).
 */
module SkipHeights {
  import opened Arithmetic
  import opened Numerals

  /** `n & (n - 1)`, bit by bit. */
  function BitAnd(a: nat, b: nat): nat {
    if a == 0 || b == 0 then 0
    else (if a % 2 == 1 && b % 2 == 1 then 1 else 0) + 2 * BitAnd(a / 2, b / 2)
  }

  function InvertLowestOne(n: nat): nat { if n == 0 then 0 else BitAnd(n, n - 1) }

  function GetSkipHeight(height: int): int {
    if height < 2 then 0
    else if height % 2 == 1 then InvertLowestOne(InvertLowestOne(height - 1)) + 1
    else InvertLowestOne(height)
  }

  lemma {:induction false} AndIsSmall(a: nat, b: nat)
    ensures BitAnd(a, b) <= a && BitAnd(a, b) <= b
    decreases a
  {
    if a > 0 && b > 0 { AndIsSmall(a / 2, b / 2); }
  }

  // ---------------------------------------------------------------- the lowest bit, halved

  lemma {:induction false} AndSelf(n: nat)
    ensures BitAnd(n, n) == n
  {
    if n > 0 { AndSelf(n / 2); }
  }

  lemma InvertHalves(a: nat)
    ensures InvertLowestOne(2 * a) == 2 * InvertLowestOne(a)
    ensures InvertLowestOne(2 * a + 1) == 2 * a
  {
    AndSelf(a);
    if a > 0 { assert (2 * a - 1) / 2 == a - 1; }
  }

  /** An odd number of times a power of two loses that power. */
  lemma {:induction false} InvertIs(m: nat, k: nat)
    ensures InvertLowestOne((2 * m + 1) * Pow(2, k)) == 2 * m * Pow(2, k)
    decreases k
  {
    hide BitAnd;
    if k == 0 {
      InvertHalves(m);
    } else {
      InvertIs(m, k - 1);
      var p := Pow(2, k - 1);
      Regroup(2 * m + 1, 2, p);
      Regroup(2 * m, 2, p);
      InvertHalves((2 * m + 1) * p);
    }
    hide InvertLowestOne;
  }

  /** The second pointer from an even height: its lowest bit is cleared. */
  lemma EvenSkip(m: nat, k: nat)
    requires k > 0
    ensures GetSkipHeight((2 * m + 1) * Pow(2, k)) == 2 * m * Pow(2, k)
  {
    InvertIs(m, k);
    var p := Pow(2, k - 1);
    PowPositive(2, k - 1);
    Regroup(2 * m + 1, 2, p);
    DivIs((2 * m + 1) * Pow(2, k), 2, (2 * m + 1) * p, 0);
    MulMonotone(1, 2 * m + 1, 2 * p);
    hide InvertLowestOne, Pow;
  }

  /** Clearing the lowest bit lowers a number and keeps an even one even. */
  lemma LowestCleared(n: nat)
    ensures n > 0 ==> InvertLowestOne(n) < n
    ensures n % 2 == 0 ==> InvertLowestOne(n) % 2 == 0
  {
    hide BitAnd;
    if n > 0 { AndIsSmall(n, n - 1); }
    hide InvertLowestOne;
    if n % 2 == 0 {
      var a := n / 2;
      InvertHalves(a);
      DivIs(2 * InvertLowestOne(a), 2, InvertLowestOne(a), 0);
    }
  }

  /** The second pointer goes back, and not below the first block. */
  lemma SkipGoesBack(height: int)
    requires height > 0
    ensures 0 <= GetSkipHeight(height) < height
  {
    if height >= 2 {
      if height % 2 == 1 {
        LowestCleared(height - 1);
        LowestCleared(InvertLowestOne(height - 1));
      } else {
        LowestCleared(height);
      }
    }
  }

  // ---------------------------------------------------------------- where two heights differ

  /** The highest bit in which two heights differ. */
  function Top(h: nat, t: nat): nat
    requires h != t
  {
    if h / 2 == t / 2 then 0 else 1 + Top(h / 2, t / 2)
  }

  /** How many bits of `h` below that one are set. */
  function Below(h: nat, t: nat): nat
    requires h != t
  {
    if h / 2 == t / 2 then 0 else h % 2 + Below(h / 2, t / 2)
  }

  /** The highest difference and the bits below it, by the half. */
  lemma ByHalf(a: nat, bit: nat, t: nat)
    requires bit < 2 && a != t / 2
    ensures Top(2 * a + bit, t) == 1 + Top(a, t / 2) && Below(2 * a + bit, t) == bit + Below(a, t / 2)
  {
  }

  lemma {:induction false} BelowFits(h: nat, t: nat)
    requires h != t
    ensures Below(h, t) <= Top(h, t)
  {
    if h / 2 != t / 2 { BelowFits(h / 2, t / 2); }
  }

  lemma {:induction false} TopMonotone(n: nat, h: nat, t: nat)
    requires t < n <= h
    ensures Top(n, t) <= Top(h, t)
  {
    if n / 2 != t / 2 { TopMonotone(n / 2, h / 2, t / 2); }
  }

  /** A height with bits below the difference is still above the target when halved. */
  lemma AboveByHalf(a: nat, bit: nat, t: nat)
    requires bit < 2 && t < 2 * a + bit && Below(2 * a + bit, t) > 0
    ensures t / 2 < a
    ensures Top(2 * a + bit, t) == 1 + Top(a, t / 2) && Below(2 * a + bit, t) == bit + Below(a, t / 2)
  {
  }

  /** Clearing the lowest bit keeps the highest difference while there are bits below it, and ends at or under the target otherwise. */
  predicate ClearsBelow(h: nat, t: nat)
    requires t < h
  {
    var n := InvertLowestOne(h);
    if Below(h, t) == 0 then n <= t
    else n > t && Top(n, t) == Top(h, t) && Below(n, t) == Below(h, t) - 1
  }

  lemma ClearsByHalf(a: nat, bit: nat, t: nat)
    requires bit < 2 && t / 2 < a && ClearsBelow(a, t / 2)
    ensures ClearsBelow(2 * a + bit, t)
  {
    hide InvertLowestOne, Top, Below;
    InvertHalves(a);
    ByHalf(a, bit, t);
    ByHalf(a, 0, t);
    if InvertLowestOne(a) > t / 2 { ByHalf(InvertLowestOne(a), 0, t); }
  }

  lemma {:induction false} InvertBelow(h: nat, t: nat)
    requires t < h
    ensures ClearsBelow(h, t)
  {
    var a, bit := h / 2, h % 2;
    if a != t / 2 {
      InvertBelow(a, t / 2);
      hide ClearsBelow;
      ClearsByHalf(a, bit, t);
    } else {
      InvertHalves(a);
      hide InvertLowestOne;
    }
  }

  /** One step down from an even height without bits below the highest difference lowers that difference. */
  lemma {:induction false} StepLowersTop(h: nat, t: nat)
    requires h % 2 == 0 && t < h - 1 && Below(h, t) == 0
    ensures Top(h - 1, t) < Top(h, t)
  {
    var a := h / 2;
    assert (h - 1) / 2 == a - 1;
    if a - 1 != t / 2 { StepLowersTop(a, t / 2); }
  }

  // ---------------------------------------------------------------- the walk

  /** The height after one step of `GetAncestor` from `h` towards `t`. */
  function NextHeight(h: nat, t: nat): (n: nat)
    requires t < h
    ensures t <= n < h
  {
    SkipGoesBack(h);
    var skip, skipPrev := GetSkipHeight(h), GetSkipHeight(h - 1);
    if skip == t || (skip > t && !(skipPrev < skip - 2 && skipPrev >= t)) then skip else h - 1
  }

  /** What is left of a walk that shares its highest difference: even heights and odd ones. */
  function Local(h: nat, t: nat): nat
    requires t < h
  {
    4 * Below(h, t) + Extra(h)
  }

  /** The lowest three bits decide what an even and an odd height have extra. */
  function Extra(h: nat): nat {
    if h % 2 == 0 then 3 + (if h % 8 == 4 then 2 else 0) else if h % 8 == 5 then 2 else 0
  }

  lemma ExtraIs(a: nat)
    ensures 3 <= Extra(2 * a) <= 5 && Extra(2 * a + 1) <= 2
    ensures Extra(2 * a) == Extra(2 * a + 1) + 3
    ensures Extra(4 * a + 2) == 3 && Extra(8 * a + 4) == 5 && Extra(8 * a + 3) == 0
  {
    DivIs(2 * a, 2, a, 0);
    DivIs(2 * a + 1, 2, a, 1);
    DivIs(4 * a + 2, 2, 2 * a + 1, 0);
    DivIs(8 * a + 4, 2, 4 * a + 2, 0);
    DivIs(8 * a + 3, 2, 4 * a + 1, 1);
    DivIs(2 * a, 8, a / 4, 2 * (a % 4));
    DivIs(2 * a + 1, 8, a / 4, 2 * (a % 4) + 1);
    DivIs(4 * a + 2, 8, a / 2, 4 * (a % 2) + 2);
    DivIs(8 * a + 4, 8, a, 4);
    DivIs(8 * a + 3, 8, a, 3);
  }

  /** What is left of a walk: it starts anew when the highest difference gets lower. */
  function Left(h: nat, t: nat): nat
    requires t <= h
  {
    if h == t then 0 else Phases(Top(h, t)) + Local(h, t)
  }

  /** More than all that is left below the highest difference `m`. */
  function Phases(m: nat): nat { 2 * m * m + 4 * m + 1 }

  lemma LocalFits(h: nat, t: nat)
    requires t < h
    ensures Local(h, t) <= 4 * Top(h, t) + 5
  {
    BelowFits(h, t);
    hide Top;
    hide Below;
  }

  /** The step keeps the highest difference and lowers what is local, or lowers the difference. */
  ghost predicate Nearer(n: nat, h: nat, t: nat)
    requires t <= n < h
  {
    t < n ==> Top(n, t) < Top(h, t) || (Top(n, t) == Top(h, t) && Local(n, t) < Local(h, t))
  }

  /** Getting nearer lowers what is left, if it lowers the highest difference or what is local. */
  lemma NearerIsLess(n: nat, h: nat, t: nat)
    requires t <= n < h && Nearer(n, h, t)
    ensures Left(n, t) < Left(h, t)
  {
    hide Phases;
    PhasesGrow(0, 0);
    if t < n {
      LocalFits(n, t);
      PhasesGrow(Top(n, t), Top(h, t));
    } else {
      PhasesGrow(Top(h, t), Top(h, t));
    }
    hide Top;
    hide Below;
    hide Local;
  }

  lemma PhasesGrow(a: nat, b: nat)
    ensures Phases(a) > 0
    ensures a < b ==> Phases(a) + 4 * a + 5 < Phases(b)
  {
    if a < b {
      assert 2 * (a + 1) * (a + 1) == 2 * a * a + 4 * a + 2;
      assert (a + 1) * (a + 1) <= b * b;
    }
  }

  // ---------------------------------------------------------------- even heights

  lemma OddNeighbourOfTwo(c: nat, t: nat)
    requires t < 4 * c + 2 && Below(4 * c + 2, t) > 0
    ensures t < 4 * c + 1 && Top(4 * c + 1, t) == Top(4 * c + 2, t) && Below(4 * c + 1, t) == Below(4 * c + 2, t)
  {
    hide Top, Below;
    AboveByHalf(2 * c + 1, 0, t);
    AboveByHalf(c, 1, t / 2);
    ByHalf(c, 0, t / 2);
    ByHalf(2 * c, 1, t);
  }

  lemma OddNeighbourOfFour(d: nat, t: nat)
    requires t < 8 * d + 4 && Below(8 * d + 4, t) > 0
    ensures t < 8 * d + 3 && Top(8 * d + 3, t) == Top(8 * d + 4, t) && Below(8 * d + 3, t) == Below(8 * d + 4, t) + 1
  {
    hide Top, Below;
    AboveByHalf(4 * d + 2, 0, t);
    OddNeighbourOfTwo(d, t / 2);
    ByHalf(4 * d + 1, 1, t);
  }

  /** Below a multiple of eight the neighbour's pointer is no better. */
  lemma NeighbourOfEight(c: nat)
    ensures GetSkipHeight(8 * c + 8) <= 8 * c && GetSkipHeight(8 * c + 7) == 8 * c + 1
  {
    InvertEight(c + 1);
    InvertSix(c);
  }

  lemma InvertEight(e: nat)
    requires e > 0
    ensures InvertLowestOne(8 * e) <= 8 * e - 8
  {
    hide BitAnd;
    hide InvertLowestOne;
    InvertHalves(4 * e);
    InvertHalves(2 * e);
    InvertHalves(e);
    LowestCleared(e);
  }

  lemma InvertSix(c: nat)
    ensures InvertLowestOne(InvertLowestOne(8 * c + 6)) == 8 * c
  {
    hide BitAnd;
    hide InvertLowestOne;
    InvertHalves(4 * c + 3);
    InvertHalves(2 * c + 1);
    InvertHalves(4 * c + 2);
    InvertHalves(c);
    assert 8 * c + 6 == 2 * (4 * c + 3) && 4 * c + 3 == 2 * (2 * c + 1) + 1;
    assert 8 * c + 4 == 2 * (4 * c + 2) && 4 * c + 2 == 2 * (2 * c + 1);
  }

  lemma EvenJump(a: nat, t: nat)
    requires t < 2 * a && Below(2 * a, t) > 0
    ensures t <= InvertLowestOne(2 * a) < 2 * a && Nearer(InvertLowestOne(2 * a), 2 * a, t)
  {
    InvertHalves(a);
    InvertBelow(2 * a, t);
    LowestCleared(2 * a);
    ExtraIs(a);
    ExtraIs(InvertLowestOne(a));
    hide InvertLowestOne;
    hide Top;
    hide Below;
    hide Extra;
  }

  lemma EvenBackTwo(c: nat, t: nat)
    requires t < 4 * c + 1 && Below(4 * c + 2, t) > 0
    ensures Nearer(4 * c + 1, 4 * c + 2, t)
  {
    OddNeighbourOfTwo(c, t);
    ExtraIs(c);
    ExtraIs(2 * c);
    hide Top;
    hide Below;
    hide Extra;
  }

  lemma EvenBackFour(d: nat, t: nat)
    requires t < 8 * d + 3 && Below(8 * d + 4, t) > 0
    ensures Nearer(8 * d + 3, 8 * d + 4, t)
  {
    OddNeighbourOfFour(d, t);
    ExtraIs(d);
    hide Top;
    hide Below;
    hide Extra;
  }

  lemma EvenBack(h: nat, t: nat)
    requires h % 2 == 0 && h % 8 != 0 && t < h - 1 && Below(h, t) > 0
    ensures Nearer(h - 1, h, t)
  {
    hide *;
    var d, r := h / 8, h % 8;
    assert h == 8 * d + r && (r == 2 || r == 4 || r == 6);
    if r == 4 {
      EvenBackFour(d, t);
    } else {
      EvenBackTwo(if r == 2 then 2 * d else 2 * d + 1, t);
    }
  }

  lemma EvenStep(h: nat, t: nat)
    requires h % 2 == 0 && t < h
    ensures Nearer(NextHeight(h, t), h, t)
  {
    InvertBelow(h, t);
    hide InvertLowestOne;
    hide Top;
    hide Below;
    hide Local;
    var n := NextHeight(h, t);
    if n > t {
      if Below(h, t) == 0 {
        StepLowersTop(h, t);
      } else if n == h - 1 {
        if h % 8 == 0 { NeighbourOfEight(h / 8 - 1); } else { EvenBack(h, t); }
      } else {
        EvenJump(h / 2, t);
      }
    }
  }

  // ---------------------------------------------------------------- odd heights

  lemma OddSkip(h: nat)
    requires h % 2 == 1 && h > 1
    ensures var a := h / 2;
      && GetSkipHeight(h) == 2 * InvertLowestOne(InvertLowestOne(a)) + 1
      && GetSkipHeight(h - 1) == 2 * InvertLowestOne(a)
      && InvertLowestOne(InvertLowestOne(a)) <= InvertLowestOne(a) < a
  {
    var a := h / 2;
    InvertHalves(a);
    InvertHalves(InvertLowestOne(a));
    LowestCleared(a);
    LowestCleared(InvertLowestOne(a));
  }

  /** A jump from an odd height that keeps the highest difference has cleared bits below it. */
  lemma OddJump(h: nat, t: nat)
    requires h % 2 == 1 && h > 1 && t < GetSkipHeight(h) < h && Top(GetSkipHeight(h), t) == Top(h, t)
    ensures Below(GetSkipHeight(h), t) < Below(h, t)
  {
    OddSkip(h);
    var a := h / 2;
    var b := InvertLowestOne(a);
    var n := InvertLowestOne(b);
    assert (2 * n + 1) / 2 == n;
    if a != t / 2 && n != t / 2 {
      InvertBelow(a, t / 2);
      if b > t / 2 { InvertBelow(b, t / 2); }
    }
  }

  lemma OddBack(a: nat, t: nat)
    requires t < 2 * a
    ensures Nearer(2 * a, 2 * a + 1, t)
  {
    ByHalf(a, 1, t);
    ByHalf(a, 0, t);
    ExtraIs(a);
    hide Top;
    hide Below;
    hide Extra;
  }

  lemma OddAhead(h: nat, t: nat)
    requires h % 2 == 1 && h > 1 && t < GetSkipHeight(h) < h
    ensures Nearer(GetSkipHeight(h), h, t)
  {
    var n := InvertLowestOne(InvertLowestOne(h / 2));
    OddSkip(h);
    hide GetSkipHeight;
    hide InvertLowestOne;
    ExtraIs(n);
    TopMonotone(2 * n + 1, h, t);
    if Top(2 * n + 1, t) == Top(h, t) { OddJump(h, t); }
    hide Top;
    hide Below;
    hide Extra;
  }

  lemma OddStep(h: nat, t: nat)
    requires h % 2 == 1 && t < h
    ensures Nearer(NextHeight(h, t), h, t)
  {
    var n := NextHeight(h, t);
    if h > 1 && n > t {
      OddSkip(h);
      if n == h - 1 { OddBack(h / 2, t); } else { OddAhead(h, t); }
    }
    hide Top;
    hide Below;
    hide Local;
    hide GetSkipHeight;
  }

  // ---------------------------------------------------------------- the whole walk

  /** The number of steps of `GetAncestor`. */
  function Steps(h: nat, t: nat): nat
    requires t <= h
    decreases h
  {
    if h == t then 0 else 1 + Steps(NextHeight(h, t), t)
  }

  lemma {:induction false} StepsAreFew(h: nat, t: nat)
    requires t <= h
    ensures Steps(h, t) <= Left(h, t)
    decreases h
  {
    if t < h {
      if h % 2 == 0 { EvenStep(h, t); } else { OddStep(h, t); }
      NearerIsLess(NextHeight(h, t), h, t);
      StepsAreFew(NextHeight(h, t), t);
    }
  }

  /** The number of bits of a height. */
  function BitCount(h: nat): nat { if h == 0 then 0 else 1 + BitCount(h / 2) }

  lemma {:induction false} TopInBits(h: nat, t: nat)
    requires t < h
    ensures Top(h, t) < BitCount(h)
  {
    if h / 2 != t / 2 { TopInBits(h / 2, t / 2); }
  }

  /** A walk from a height of `k` bits to any lower one takes at most `2 * k * (k + 2)` steps. */
  lemma StepsInBits(h: nat, t: nat)
    requires t <= h
    ensures Steps(h, t) <= 2 * BitCount(h) * (BitCount(h) + 2)
  {
    hide *;
    StepsAreFew(h, t);
    if t < h { TopInBits(h, t); }
    LeftFits(h, t, BitCount(h));
  }

  lemma LeftFits(h: nat, t: nat, k: nat)
    requires t <= h && (t < h ==> Top(h, t) < k)
    ensures Left(h, t) <= 2 * k * (k + 2)
  {
    if t < h {
      LocalFits(h, t);
      WithinBits(Top(h, t), k);
    }
    hide Top;
    hide Local;
    hide Phases;
  }

  lemma WithinBits(m: nat, k: nat)
    requires m < k
    ensures Phases(m) + 4 * m + 5 <= 2 * k * (k + 2)
  {
    assert 2 * (m + 1) * (m + 3) == 2 * m * m + 8 * m + 6;
    assert (m + 1) * (m + 3) <= k * (k + 2);
    assert 2 * k * (k + 2) == 2 * (k * (k + 2));
    assert 2 * (m + 1) * (m + 3) == 2 * ((m + 1) * (m + 3));
  }
}
