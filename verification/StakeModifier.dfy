/**
 The stake modifier: 64 blocks picked from the recent past, one bit from each
 (core/src/kernel.cpp:211-290, 340-413).  The selection hash is a parameter; a chain is
 its blocks from the tip down.
 */
module StakeModifier {
  import opened Arithmetic
  import opened Numerals
  import opened Limbs
  import opened LimbShifts
  import opened Prelude

  type BlockHash = nat

  datatype Block = Block(hash: BlockHash, nHeight: nat, time: nat, fProofOfStake: bool, entropyBit: bool,
                         fGenerated: bool, nStakeModifier: nat)

  datatype Rules = Rules(hashOf: (BlockHash, nat) -> nat, switchHeight: nat)

  const MODIFIER_INTERVAL := 60
  const MODIFIER_INTERVAL_RATIO := 3
  const OLD_MODIFIER_INTERVAL := 2087

  // ---------------------------------------------------------------- the sections

  function Section(n: nat): nat
    requires n < 64
  {
    MODIFIER_INTERVAL * 63 / (63 + (63 - n) * (MODIFIER_INTERVAL_RATIO - 1))
  }

  /** The sections before round `n`. */
  function Sections(n: nat): nat
    requires n <= 64
  {
    if n == 0 then 0 else Sections(n - 1) + Section(n - 1)
  }

  lemma SectionIs(n: nat, q: nat)
    requires n < 64 && q * (189 - 2 * n) <= 3780 < (q + 1) * (189 - 2 * n)
    ensures Section(n) == q
  {
    Distribute(q, 1, 189 - 2 * n);
    DivIs(3780, 189 - 2 * n, q, 3780 - q * (189 - 2 * n));
    assert 63 + (63 - n) * (MODIFIER_INTERVAL_RATIO - 1) == 189 - 2 * n;
  }

  lemma FourMore(n: nat, a: nat, b: nat, c: nat, d: nat)
    requires n <= 60
    requires a * (189 - 2 * n) <= 3780 < (a + 1) * (189 - 2 * n) && b * (187 - 2 * n) <= 3780 < (b + 1) * (187 - 2 * n)
    requires c * (185 - 2 * n) <= 3780 < (c + 1) * (185 - 2 * n) && d * (183 - 2 * n) <= 3780 < (d + 1) * (183 - 2 * n)
    ensures Sections(n + 4) == Sections(n) + a + b + c + d
  {
    SectionIs(n, a);
    SectionIs(n + 1, b);
    SectionIs(n + 2, c);
    SectionIs(n + 3, d);
    hide Section;
    assert Sections(n + 1) == Sections(n) + Section(n);
    assert Sections(n + 2) == Sections(n + 1) + Section(n + 1);
    assert Sections(n + 3) == Sections(n + 2) + Section(n + 2);
  }

  lemma SectionsTo16()
    ensures Sections(16) == 341
  {
    assert Sections(0) == 0;
    hide *;
    FourMore(0, 20, 20, 20, 20);
    FourMore(4, 20, 21, 21, 21);
    FourMore(8, 21, 22, 22, 22);
    FourMore(12, 22, 23, 23, 23);
  }

  lemma SectionsTo32()
    ensures Sections(32) == 762
  {
    SectionsTo16();
    hide *;
    FourMore(16, 24, 24, 24, 25);
    FourMore(20, 25, 25, 26, 26);
    FourMore(24, 26, 27, 27, 28);
    FourMore(28, 28, 28, 29, 29);
  }

  lemma SectionsTo48()
    ensures Sections(48) == 1308
  {
    SectionsTo32();
    hide *;
    FourMore(32, 30, 30, 31, 31);
    FourMore(36, 32, 32, 33, 34);
    FourMore(40, 34, 35, 36, 36);
    FourMore(44, 37, 38, 38, 39);
  }

  lemma SectionsTo64()
    ensures Sections(64) == 2087
  {
    SectionsTo48();
    hide *;
    FourMore(48, 40, 41, 42, 43);
    FourMore(52, 44, 45, 46, 47);
    FourMore(56, 49, 50, 51, 53);
    FourMore(60, 54, 56, 58, 60);
  }

  /** All sections together are the interval. */
  lemma SectionsFillTheInterval()
    ensures Sections(64) == OLD_MODIFIER_INTERVAL
  {
    SectionsTo64();
  }

  /** Later sections are not shorter, and none is empty. */
  lemma SectionsGrow(m: nat, n: nat)
    requires m <= n < 64
    ensures 20 <= Section(m) <= Section(n) <= 60
  {
    var a, b := 63 + (63 - m) * 2, 63 + (63 - n) * 2;
    QuotientRemainder(3780, a);
    FitsQuotient(3780, b, 3780 / a);
    MulMonotone(b, a, 3780 / a);
    Commute(b, 3780 / a);
    Commute(a, 3780 / a);
    FitsQuotient(3780, a, 20);
    FitsQuotient(3780, b, 61);
  }

  // ---------------------------------------------------------------- candidates

  /** A candidate is the time and the hash of a block. */
  type Candidate = (nat, BlockHash)
  type Index = map<BlockHash, Block>

  /** The index knows blocks by their hashes, with the times of the candidates. */
  predicate Coherent(index: Index, v: seq<Candidate>) {
    forall i :: 0 <= i < |v| && v[i].1 in index ==> index[v[i].1].hash == v[i].1 && index[v[i].1].time == v[i].0
  }

  predicate Indexed(index: Index, v: seq<Candidate>) { forall i :: 0 <= i < |v| ==> v[i].1 in index }

  predicate Sorted(v: seq<Candidate>) { forall i, j :: 0 <= i < j < |v| ==> v[i].0 <= v[j].0 }

  predicate Distinct(v: seq<Candidate>) { forall i, j :: 0 <= i < j < |v| ==> v[i].1 != v[j].1 }

  /** The hash by which a block competes; a stake's is made smaller by 32 bits. */
  function SelectionHash(rules: Rules, b: Block, fModifierV2: bool, prev: nat): nat {
    var hashProof := if fModifierV2 then b.hash else if b.fProofOfStake then 0 else b.hash;
    var h := rules.hashOf(hashProof, prev);
    if b.fProofOfStake then h / M else h
  }

  /**
   How blocks compete.  Under the new rule all do by their own hashes; before it all stakes have one and
   the same hash.  The rank of a stake is 32 bits shorter, so that it is below 2^224 where those of work
   blocks go up to 2^256.
   */
  lemma RankIs(rules: Rules, b: Block, prev: nat)
    ensures b.fProofOfStake ==>
      && SelectionHash(rules, b, true, prev) == rules.hashOf(b.hash, prev) / 0x1_0000_0000
      && SelectionHash(rules, b, false, prev) == rules.hashOf(0, prev) / 0x1_0000_0000
    ensures !b.fProofOfStake ==> forall v2 :: SelectionHash(rules, b, v2, prev) == rules.hashOf(b.hash, prev)
    ensures b.fProofOfStake && (forall x: BlockHash, y: nat :: rules.hashOf(x, y) < Pow(2, 256)) ==>
      forall v2 :: SelectionHash(rules, b, v2, prev) < Pow(2, 224)
  {
    if b.fProofOfStake && forall x: BlockHash, y: nat :: rules.hashOf(x, y) < Pow(2, 256) {
      ShorterBy32(rules.hashOf(b.hash, prev));
      ShorterBy32(rules.hashOf(0, prev));
      hide Pow;
    }
  }

  lemma ShorterBy32(x: nat)
    requires x < Pow(2, 256)
    ensures x / 0x1_0000_0000 < Pow(2, 224)
  {
    TwoTo32();
    hide Pow;
    PowAdd(2, 224, 32);
    FitsQuotient(x, M, Pow(2, 224));
  }

  /** Before the switch, stakes in time tie, and the earliest is picked; after it, the one whose own hash is least. */
  lemma StakesCompete(rules: Rules, index: Index, v: seq<Candidate>, selected: set<BlockHash>, stop: int, prev: nat, v2: bool, r: nat, i: nat)
    requires Indexed(index, v) && Coherent(index, v) && Picked(rules, index, v, selected, stop, prev, v2, r)
    requires InTime(v, selected, stop, r) && i < |v| && InTime(v, selected, stop, i)
    requires index[v[r].1].fProofOfStake && index[v[i].1].fProofOfStake
    ensures if v2 then rules.hashOf(v[r].1, prev) / 0x1_0000_0000 <= rules.hashOf(v[i].1, prev) / 0x1_0000_0000 else r <= i
  {
    RankIs(rules, index[v[r].1], prev);
    RankIs(rules, index[v[i].1], prev);
  }

  function ModifierV2(rules: Rules, index: Index, v: seq<Candidate>): bool {
    v != [] && v[0].1 in index && index[v[0].1].nHeight >= rules.switchHeight
  }

  predicate Open(v: seq<Candidate>, selected: set<BlockHash>, i: nat) { i < |v| && v[i].1 !in selected }

  predicate InTime(v: seq<Candidate>, selected: set<BlockHash>, stop: int, i: nat) { Open(v, selected, i) && v[i].0 <= stop }

  function HashAt(rules: Rules, index: Index, v: seq<Candidate>, prev: nat, v2: bool, i: nat): nat
    requires Indexed(index, v) && i < |v|
  {
    SelectionHash(rules, index[v[i].1], v2, prev)
  }

  /**
   The pick of a round: of the candidates not selected yet and no later than the stop, the first
   with the least hash; if there are none, the earliest not selected yet.
   */
  ghost predicate Picked(rules: Rules, index: Index, v: seq<Candidate>, selected: set<BlockHash>, stop: int, prev: nat, v2: bool, r: nat)
    requires Indexed(index, v)
  {
    && Open(v, selected, r)
    && (InTime(v, selected, stop, r) ==> forall i :: 0 <= i < |v| && InTime(v, selected, stop, i) ==>
          HashAt(rules, index, v, prev, v2, r) <= HashAt(rules, index, v, prev, v2, i)
          && (i < r ==> HashAt(rules, index, v, prev, v2, r) < HashAt(rules, index, v, prev, v2, i)))
    && (!InTime(v, selected, stop, r) ==> forall i :: 0 <= i < |v| ==>
          !InTime(v, selected, stop, i) && (Open(v, selected, i) ==> r <= i))
  }

  /** A pick from the first `i` candidates stays the pick when all others are too late. */
  lemma LaterDoNotMatter(rules: Rules, index: Index, v: seq<Candidate>, i: nat, selected: set<BlockHash>, stop: int, prev: nat, v2: bool, r: nat)
    requires Indexed(index, v) && Sorted(v) && i < |v| && v[i].0 > stop
    requires Indexed(index, v[..i]) && Picked(rules, index, v[..i], selected, stop, prev, v2, r)
    ensures Picked(rules, index, v, selected, stop, prev, v2, r)
  {
    forall j | 0 <= j < |v| && InTime(v, selected, stop, j)
      ensures j < i && InTime(v[..i], selected, stop, j)
    {
    }
    forall j | 0 <= j < |v| && Open(v, selected, j)
      ensures j < i ==> Open(v[..i], selected, j)
    {
    }
  }

  /** Reading one more candidate. */
  lemma OneMoreCandidate(rules: Rules, index: Index, v: seq<Candidate>, i: nat, selected: set<BlockHash>, stop: int, prev: nat, v2: bool, r: nat)
    requires Indexed(index, v) && Sorted(v) && i < |v|
    requires Indexed(index, v[..i]) && Picked(rules, index, v[..i], selected, stop, prev, v2, r)
    requires v[i].0 <= stop || !Open(v, selected, i)
    ensures Indexed(index, v[..i + 1])
    ensures var better := Open(v, selected, i) && HashAt(rules, index, v, prev, v2, i) < HashAt(rules, index, v, prev, v2, r);
      Picked(rules, index, v[..i + 1], selected, stop, prev, v2, if better then i else r)
  {
    var w := v[..i + 1];
    assert r < i && v[r].0 <= v[i].0;
    forall j | 0 <= j < i
      ensures Open(w, selected, j) == Open(v[..i], selected, j) && InTime(w, selected, stop, j) == InTime(v[..i], selected, stop, j)
      ensures HashAt(rules, index, w, prev, v2, j) == HashAt(rules, index, v[..i], prev, v2, j)
    {
    }
  }

  lemma FirstCandidate(rules: Rules, index: Index, v: seq<Candidate>, i: nat, selected: set<BlockHash>, stop: int, prev: nat, v2: bool)
    requires Indexed(index, v) && i < |v| && Open(v, selected, i) && Sorted(v)
    requires forall j :: 0 <= j < i ==> !Open(v, selected, j)
    ensures Indexed(index, v[..i + 1]) && Picked(rules, index, v[..i + 1], selected, stop, prev, v2, i)
  {
    var w := v[..i + 1];
    forall j | 0 <= j < i
      ensures !Open(w, selected, j)
    {
      assert !Open(v, selected, j);
    }
  }

  method SelectBlockFromCandidates(rules: Rules, index: Index, v: seq<Candidate>, selected: set<BlockHash>, stop: int, prev: nat)
    returns (r: Option<nat>)
    requires Coherent(index, v) && Sorted(v)
    ensures r.Some? ==> r.value < |v| && v[r.value].1 in index
    ensures Indexed(index, v) ==> (r.Some? <==> exists i :: Open(v, selected, i))
    ensures Indexed(index, v) && r.Some? ==>
      Picked(rules, index, v, selected, stop, prev, index[v[0].1].nHeight >= rules.switchHeight, r.value)
  {
    var fModifierV2, fFirstRun := false, true;
    var hashBest := 0;
    r := None;
    ghost var v2 := ModifierV2(rules, index, v);
    for i := 0 to |v|
      invariant r.Some? ==> r.value < i && v[r.value].1 in index
      invariant fFirstRun == (i == 0) && (!fFirstRun ==> fModifierV2 == v2)
      invariant r.None? ==> forall j :: 0 <= j < i ==> !Open(v, selected, j)
      invariant r.Some? && Indexed(index, v) ==>
        && Indexed(index, v[..i]) && Open(v, selected, r.value)
        && hashBest == HashAt(rules, index, v, prev, v2, r.value)
        && Picked(rules, index, v[..i], selected, stop, prev, v2, r.value)
    {
      if v[i].1 !in index {
        return None;
      }
      var pindex := index[v[i].1];
      if r.Some? && pindex.time > stop {
        if Indexed(index, v) {
          LaterDoNotMatter(rules, index, v, i, selected, stop, prev, v2, r.value);
        }
        return;
      }
      if fFirstRun {
        fModifierV2 := pindex.nHeight >= rules.switchHeight;
        fFirstRun := false;
      }
      if Indexed(index, v) {
        if r.Some? {
          OneMoreCandidate(rules, index, v, i, selected, stop, prev, v2, r.value);
        } else if Open(v, selected, i) {
          FirstCandidate(rules, index, v, i, selected, stop, prev, v2);
        }
      }
      if pindex.hash in selected {
        continue;
      }
      var hashSelection := SelectionHash(rules, pindex, fModifierV2, prev);
      if r.Some? && hashSelection < hashBest {
        hashBest := hashSelection;
        r := Some(i);
      } else if r.None? {
        hashBest := hashSelection;
        r := Some(i);
      }
    }
    assert v[..|v|] == v;
  }

  // ---------------------------------------------------------------- the rounds

  function HashesOf(v: seq<Candidate>, picks: seq<nat>): set<BlockHash>
    requires forall i :: 0 <= i < |picks| ==> picks[i] < |v|
  {
    set i | 0 <= i < |picks| :: v[picks[i]].1
  }

  /** The bits of the picks, the first pick lowest. */
  function BitsOf(index: Index, v: seq<Candidate>, picks: seq<nat>): nat
    requires Indexed(index, v) && forall i :: 0 <= i < |picks| ==> picks[i] < |v|
  {
    if picks == [] then 0 else
      var k := |picks| - 1;
      BitsOf(index, v, picks[..k]) + if index[v[picks[k]].1].entropyBit then Bit(k) else 0
  }

  /** Round `r` picks as it should, from what the rounds before it left, up to its own stop. */
  ghost predicate PickedAt(rules: Rules, index: Index, v: seq<Candidate>, start: int, prev: nat, picks: seq<nat>, r: nat)
    requires Indexed(index, v) && r < |picks| <= 64 && forall i :: 0 <= i < |picks| ==> picks[i] < |v|
  {
    Picked(rules, index, v, HashesOf(v, picks[..r]), start + Sections(r + 1), prev, ModifierV2(rules, index, v), picks[r])
  }

  /** Every round picks as it should, from what the rounds before it left. */
  ghost predicate AllPicked(rules: Rules, index: Index, v: seq<Candidate>, start: int, prev: nat, picks: seq<nat>)
    requires Indexed(index, v)
  {
    && |picks| <= 64
    && (forall i :: 0 <= i < |picks| ==> picks[i] < |v|)
    && forall r :: 0 <= r < |picks| ==> PickedAt(rules, index, v, start, prev, picks, r)
  }

  lemma PicksAreDistinct(rules: Rules, index: Index, v: seq<Candidate>, start: int, prev: nat, picks: seq<nat>)
    requires Indexed(index, v) && AllPicked(rules, index, v, start, prev, picks)
    ensures forall i, j :: 0 <= i < j < |picks| ==> picks[i] != picks[j]
  {
    forall i, j | 0 <= i < j < |picks|
      ensures picks[i] != picks[j]
    {
      assert PickedAt(rules, index, v, start, prev, picks, j);
      assert picks[..j][i] == picks[i];
      assert v[picks[i]].1 in HashesOf(v, picks[..j]);
    }
  }

  lemma {:induction false} FewHashes(v: seq<Candidate>, picks: seq<nat>)
    requires forall i :: 0 <= i < |picks| ==> picks[i] < |v|
    ensures |HashesOf(v, picks)| <= |picks|
  {
    if picks == [] {
      assert HashesOf(v, picks) == {};
    } else {
      var k := |picks| - 1;
      FewHashes(v, picks[..k]);
      HashesGrow(v, picks[..k], picks[k]);
      assert picks[..k] + [picks[k]] == picks;
    }
  }

  lemma HashesGrow(v: seq<Candidate>, picks: seq<nat>, p: nat)
    requires (forall i :: 0 <= i < |picks| ==> picks[i] < |v|) && p < |v|
    ensures HashesOf(v, picks + [p]) == HashesOf(v, picks) + {v[p].1}
  {
    var all := picks + [p];
    assert all[|picks|] == p;
    forall h | h in HashesOf(v, picks)
      ensures h in HashesOf(v, all)
    {
      var i :| 0 <= i < |picks| && v[picks[i]].1 == h;
      assert all[i] == picks[i];
    }
  }

  lemma {:induction false} ManyHashes(v: seq<Candidate>)
    requires Distinct(v)
    ensures |set i | 0 <= i < |v| :: v[i].1| == |v|
  {
    if v == [] {
    } else {
      var k := |v| - 1;
      ManyHashes(v[..k]);
      var low := set i | 0 <= i < k :: v[..k][i].1;
      assert (set i | 0 <= i < |v| :: v[i].1) == low + {v[k].1};
    }
  }

  /** Before all candidates are used up, one is open. */
  lemma OneIsOpen(v: seq<Candidate>, picks: seq<nat>)
    requires Distinct(v) && |picks| < |v| && forall i :: 0 <= i < |picks| ==> picks[i] < |v|
    ensures exists i :: Open(v, HashesOf(v, picks), i)
  {
    var all := set i | 0 <= i < |v| :: v[i].1;
    ManyHashes(v);
    FewHashes(v, picks);
    if forall i :: 0 <= i < |v| ==> v[i].1 in HashesOf(v, picks) {
      Subsets(all, HashesOf(v, picks));
    }
    var i :| 0 <= i < |v| && v[i].1 !in HashesOf(v, picks);
    assert Open(v, HashesOf(v, picks), i);
  }

  lemma {:induction false} Subsets(a: set<BlockHash>, b: set<BlockHash>)
    requires a <= b
    ensures |a| <= |b|
    decreases |b|
  {
    assert b == a + (b - a);
  }

  lemma NextPick(rules: Rules, index: Index, v: seq<Candidate>, start: int, prev: nat, picks: seq<nat>, p: nat)
    requires Indexed(index, v) && AllPicked(rules, index, v, start, prev, picks) && |picks| < 64
    requires p < |v| && Picked(rules, index, v, HashesOf(v, picks), start + Sections(|picks| + 1), prev, ModifierV2(rules, index, v), p)
    ensures AllPicked(rules, index, v, start, prev, picks + [p])
  {
    var all := picks + [p];
    forall r | 0 <= r < |all|
      ensures PickedAt(rules, index, v, start, prev, all, r)
    {
      NextPickAt(rules, index, v, start, prev, picks, p, r);
    }
    hide PickedAt;
  }

  lemma NextPickAt(rules: Rules, index: Index, v: seq<Candidate>, start: int, prev: nat, picks: seq<nat>, p: nat, r: nat)
    requires Indexed(index, v) && AllPicked(rules, index, v, start, prev, picks) && |picks| < 64 && r <= |picks|
    requires p < |v| && Picked(rules, index, v, HashesOf(v, picks), start + Sections(|picks| + 1), prev, ModifierV2(rules, index, v), p)
    ensures PickedAt(rules, index, v, start, prev, picks + [p], r)
  {
    hide Picked, HashesOf, Indexed, Sections, ModifierV2;
    if r < |picks| {
      assert PickedAt(rules, index, v, start, prev, picks, r);
      hide AllPicked;
      SameStart(picks, p, r);
    } else {
      SameStart(picks, p, r);
    }
  }

  lemma SameStart(picks: seq<nat>, p: nat, r: nat)
    requires r <= |picks|
    ensures (picks + [p])[..r] == picks[..r] && (r == |picks| ==> picks[..r] == picks)
    ensures (picks + [p])[r] == if r < |picks| then picks[r] else p
  {
  }

  lemma {:induction false} BitsFit(index: Index, v: seq<Candidate>, picks: seq<nat>)
    requires Indexed(index, v) && forall i :: 0 <= i < |picks| ==> picks[i] < |v|
    ensures BitsOf(index, v, picks) < Bit(|picks|)
  {
    if picks != [] {
      BitsFit(index, v, picks[..|picks| - 1]);
      assert Bit(|picks|) == 2 * Bit(|picks| - 1);
    }
  }

  /** Bit `k` of the modifier is the entropy bit of the block that round `k` picked. */
  lemma {:induction false} BitOfPick(index: Index, v: seq<Candidate>, picks: seq<nat>, k: nat)
    requires Indexed(index, v) && (forall i :: 0 <= i < |picks| ==> picks[i] < |v|) && k < |picks|
    ensures BitsOf(index, v, picks) / Bit(k) % 2 == if index[v[picks[k]].1].entropyBit then 1 else 0
    decreases |picks|
  {
    var n := |picks| - 1;
    var low := BitsOf(index, v, picks[..n]);
    BitsFit(index, v, picks[..n]);
    hide BitsOf;
    if k == n {
      DivIs(low, Bit(n), 0, low);
      DivIs(low + Bit(n), Bit(n), 1, low);
    } else {
      BitOfPick(index, v, picks[..n], k);
      assert BitsOf(index, v, picks) == low + (if index[v[picks[n]].1].entropyBit then Bit(n) else 0) by { BitsSplit(index, v, picks); }
      EvenMore(low, n, k);
    }
    assert BitsOf(index, v, picks) == low + (if index[v[picks[n]].1].entropyBit then Bit(n) else 0) by { BitsSplit(index, v, picks); }
  }

  lemma BitsSplit(index: Index, v: seq<Candidate>, picks: seq<nat>)
    requires Indexed(index, v) && (forall i :: 0 <= i < |picks| ==> picks[i] < |v|) && picks != []
    ensures var n := |picks| - 1;
      BitsOf(index, v, picks) == BitsOf(index, v, picks[..n]) + if index[v[picks[n]].1].entropyBit then Bit(n) else 0
  {
  }

  /** A higher bit does not show in a lower place. */
  lemma EvenMore(low: nat, n: nat, k: nat)
    requires k < n
    ensures (low + Bit(n)) / Bit(k) % 2 == low / Bit(k) % 2
  {
    var p, q := Bit(k), Pow(2, n - k - 1);
    assert Bit(n) == 2 * q * p by {
      PowAdd(2, n - k, k);
      assert Pow(2, n - k) == 2 * q;
    }
    hide Pow, Bit;
    QuotientRemainder(low, p);
    Distribute(low / p, 2 * q, p);
    DivIs(low + 2 * q * p, p, low / p + 2 * q, low % p);
    DivIs(low / p + 2 * q, 2, low / p / 2 + q, low / p % 2);
  }

  /** `new |= bit << round` */
  lemma BitWritten(index: Index, v: seq<Candidate>, picks: seq<nat>, p: nat)
    requires Indexed(index, v) && (forall i :: 0 <= i < |picks| ==> picks[i] < |v|) && p < |v|
    ensures BitOr(BitsOf(index, v, picks), if index[v[p].1].entropyBit then Bit(|picks|) else 0)
      == BitsOf(index, v, picks + [p])
  {
    var k := |picks|;
    BitsFit(index, v, picks);
    assert (picks + [p])[..k] == picks;
    DivIs(Bit(k), Bit(k), 1, 0);
    BitOrApart(Bit(k), BitsOf(index, v, picks), k);
    BitOrZero(BitsOf(index, v, picks));
  }

  lemma NothingPicked(rules: Rules, index: Index, v: seq<Candidate>, start: int, prev: nat)
    requires Indexed(index, v)
    ensures AllPicked(rules, index, v, start, prev, []) && BitsOf(index, v, []) == 0
  {
  }

  method SelectRounds(rules: Rules, index: Index, v: seq<Candidate>, start: int, prev: nat)
    returns (ok: bool, nStakeModifierNew: nat, picks: seq<nat>)
    requires Coherent(index, v) && Sorted(v) && Distinct(v)
    ensures Indexed(index, v) ==>
      && ok && |picks| == (if |v| < 64 then |v| else 64) && AllPicked(rules, index, v, start, prev, picks)
      && nStakeModifierNew == BitsOf(index, v, picks)
  {
    assert HashesOf(v, []) == {};
    hide AllPicked, BitsOf, BitOr, Indexed, Picked, Sorted, Distinct, HashesOf, ModifierV2, Open;
    nStakeModifierNew, picks := 0, [];
    var nSelectionIntervalStop := start;
    var mapSelectedBlocks: set<BlockHash> := {};
    var nRounds := if |v| < 64 then |v| else 64;
    ghost var indexed := Indexed(index, v);
    if indexed { NothingPicked(rules, index, v, start, prev); }
    for nRound := 0 to nRounds
      invariant |picks| == nRound && (forall i :: 0 <= i < |picks| ==> picks[i] < |v| && v[picks[i]].1 in index)
      invariant mapSelectedBlocks == HashesOf(v, picks) && nSelectionIntervalStop == start + Sections(nRound)
      invariant indexed ==> AllPicked(rules, index, v, start, prev, picks) && nStakeModifierNew == BitsOf(index, v, picks)
    {
      nSelectionIntervalStop := nSelectionIntervalStop + Section(nRound);
      OneIsOpen(v, picks);
      var pick := SelectBlockFromCandidates(rules, index, v, mapSelectedBlocks, nSelectionIntervalStop, prev);
      if pick.None? {
        return false, 0, picks;
      }
      var pindex := index[v[pick.value].1];
      HashesGrow(v, picks, pick.value);
      if indexed {
        NextPick(rules, index, v, start, prev, picks, pick.value);
        BitWritten(index, v, picks, pick.value);
      }
      nStakeModifierNew := BitOr(nStakeModifierNew, if pindex.entropyBit then Bit(nRound) else 0);
      mapSelectedBlocks := mapSelectedBlocks + {pindex.hash};
      picks := picks + [pick.value];
    }
    ok := true;
  }

  // ---------------------------------------------------------------- the candidates of a chain

  /** The blocks from the tip down to the first that is too old. */
  function Recent(chain: seq<Block>, start: int): (r: seq<Candidate>)
    ensures |r| <= |chain| && forall i :: 0 <= i < |r| ==> r[i] == (chain[i].time, chain[i].hash)
  {
    if chain == [] || chain[0].time < start then []
    else [(chain[0].time, chain[0].hash)] + Recent(chain[1..], start)
  }

  /** The order of pairs. */
  predicate Before(a: Candidate, b: Candidate) { a.0 < b.0 || (a.0 == b.0 && a.1 <= b.1) }

  function Inserted(v: seq<Candidate>, x: Candidate): seq<Candidate> {
    if v == [] || Before(x, v[0]) then [x] + v else [v[0]] + Inserted(v[1..], x)
  }

  /** What sorting gives: the same pairs, in order. */
  function SortedByTime(v: seq<Candidate>): seq<Candidate> {
    if v == [] then [] else Inserted(SortedByTime(v[1..]), v[0])
  }

  lemma {:induction false} InsertedIs(v: seq<Candidate>, x: Candidate)
    requires Sorted(v)
    ensures multiset(Inserted(v, x)) == multiset(v) + multiset{x} && Sorted(Inserted(v, x))
  {
    if v == [] {
    } else if Before(x, v[0]) {
      SortedHead(x, v);
    } else {
      InsertedIs(v[1..], x);
      assert v == [v[0]] + v[1..];
      InsertedAbove(v[1..], Inserted(v[1..], x), x, v[0]);
      SortedHead(v[0], Inserted(v[1..], x));
    }
  }

  lemma SortedHead(x: Candidate, v: seq<Candidate>)
    requires Sorted(v) && (v != [] ==> x.0 <= v[0].0)
    ensures Sorted([x] + v)
  {
  }

  lemma InsertedAbove(v: seq<Candidate>, r: seq<Candidate>, x: Candidate, low: Candidate)
    requires multiset(r) == multiset(v) + multiset{x} && low.0 <= x.0 && forall i :: 0 <= i < |v| ==> low.0 <= v[i].0
    ensures r != [] ==> low.0 <= r[0].0
  {
    if r != [] {
      assert r[0] in multiset(r);
      assert r[0] in multiset(v) || r[0] == x;
    }
  }

  lemma {:induction false} SortedByTimeIs(v: seq<Candidate>)
    ensures multiset(SortedByTime(v)) == multiset(v) && Sorted(SortedByTime(v)) && |SortedByTime(v)| == |v|
    decreases |v|
  {
    hide Sorted, Inserted;
    if v == [] {
      NothingSorted();
    } else {
      SortedByTimeIs(v[1..]);
      InsertedIs(SortedByTime(v[1..]), v[0]);
      assert v == [v[0]] + v[1..];
    }
    assert |multiset(SortedByTime(v))| == |multiset(v)|;
  }

  lemma NothingSorted()
    ensures Sorted([])
  {
  }

  /** In the order of pairs: by time, and by hash at the same time. */
  predicate PairsAscend(v: seq<Candidate>) {
    forall i, j :: 0 <= i < j < |v| ==> v[i].0 < v[j].0 || (v[i].0 == v[j].0 && v[i].1 <= v[j].1)
  }

  lemma {:induction false} InsertedAscends(v: seq<Candidate>, x: Candidate)
    requires PairsAscend(v)
    ensures PairsAscend(Inserted(v, x)) && Inserted(v, x) != []
    ensures Inserted(v, x)[0] == x || (v != [] && Inserted(v, x)[0] == v[0])
    decreases |v|
  {
    if v == [] {
    } else if Before(x, v[0]) {
      PairsFrom(x, v);
    } else {
      var rest := Inserted(v[1..], x);
      InsertedAscends(v[1..], x);
      PairsFrom(v[0], rest);
    }
  }

  lemma PairsFrom(x: Candidate, v: seq<Candidate>)
    requires PairsAscend(v) && (v != [] ==> Before(x, v[0]))
    ensures PairsAscend([x] + v)
  {
    assert forall i :: 0 < i < |v| ==> v[0].0 < v[i].0 || (v[0].0 == v[i].0 && v[0].1 <= v[i].1);
  }

  /** What `std::sort` promises: the same candidates, ascending as pairs. */
  lemma {:induction false} SortedByPairs(v: seq<Candidate>)
    ensures PairsAscend(SortedByTime(v)) && multiset(SortedByTime(v)) == multiset(v)
    decreases |v|
  {
    SortedByTimeIs(v);
    hide Inserted;
    if v != [] {
      SortedByPairs(v[1..]);
      InsertedAscends(SortedByTime(v[1..]), v[0]);
    }
  }

  predicate DistinctBlocks(chain: seq<Block>) { forall i, j :: 0 <= i < j < |chain| ==> chain[i].hash != chain[j].hash }

  /** The index holds blocks of the chain as they are. */
  predicate Holds(index: Index, chain: seq<Block>) {
    forall i :: 0 <= i < |chain| && chain[i].hash in index ==> index[chain[i].hash] == chain[i]
  }

  /** Distinctness does not depend on the order. */
  lemma {:induction false} DistinctAnyOrder(v: seq<Candidate>, w: seq<Candidate>)
    requires multiset(v) == multiset(w) && Distinct(v)
    ensures Distinct(w)
  {
    forall i, j | 0 <= i < j < |w|
      ensures w[i].1 != w[j].1
    {
      if w[i].1 == w[j].1 {
        var a := PlaceOf(v, w, i);
        var b := PlaceOf(v, w, j);
        OnePlace(v, w[i]);
        TwoPlaces(w, i, j);
      }
    }
  }

  lemma PlaceOf(v: seq<Candidate>, w: seq<Candidate>, i: nat) returns (k: nat)
    requires multiset(v) == multiset(w) && i < |w|
    ensures k < |v| && v[k] == w[i]
  {
    assert w[i] in multiset(w);
    k :| 0 <= k < |v| && v[k] == w[i];
  }

  lemma {:induction false} OnePlace(v: seq<Candidate>, x: Candidate)
    requires Distinct(v)
    ensures multiset(v)[x] <= 1
  {
    if v != [] {
      OnePlace(v[1..], x);
      assert v == [v[0]] + v[1..];
      if v[0] == x { assert forall i :: 0 <= i < |v[1..]| ==> v[1..][i] != x; }
    }
  }

  lemma TwoPlaces(w: seq<Candidate>, i: nat, j: nat)
    requires i < j < |w| && w[i] == w[j]
    ensures multiset(w)[w[i]] >= 2
  {
    assert w == w[..j] + w[j..];
    assert w[i] in w[..j] && w[j] in w[j..];
  }

  lemma CandidatesAreFit(chain: seq<Block>, index: Index, start: int)
    requires DistinctBlocks(chain) && Holds(index, chain) && forall i :: 0 <= i < |chain| && chain[i].hash in index ==> index[chain[i].hash].hash == chain[i].hash
    ensures var v := SortedByTime(Recent(chain, start)); Sorted(v) && Distinct(v) && Coherent(index, v)
    ensures (forall i :: 0 <= i < |chain| ==> chain[i].hash in index) ==> Indexed(index, SortedByTime(Recent(chain, start)))
  {
    var u := Recent(chain, start);
    var v := SortedByTime(u);
    SortedByTimeIs(u);
    SameHashSameTime(chain, start);
    DistinctAnyOrder(u, v);
    forall i | 0 <= i < |v|
      ensures v[i].1 in index ==> index[v[i].1].hash == v[i].1 && index[v[i].1].time == v[i].0
      ensures (forall i :: 0 <= i < |chain| ==> chain[i].hash in index) ==> v[i].1 in index
    {
      var k := PlaceOf(u, v, i);
    }
  }

  lemma SameHashSameTime(chain: seq<Block>, start: int)
    requires DistinctBlocks(chain)
    ensures Distinct(Recent(chain, start))
  {
  }

  // ---------------------------------------------------------------- the modifier of the next block

  /** The last block down the chain that generated a modifier, or the first block. */
  function LastGenerated(chain: seq<Block>): (k: nat)
    requires chain != []
    ensures k < |chain|
  {
    if chain[0].fGenerated || |chain| == 1 then 0 else 1 + LastGenerated(chain[1..])
  }

  /** The candidates are the blocks from the tip down to the first that is too old. */
  lemma {:induction false} RecentIs(chain: seq<Block>, start: int)
    ensures var n := |Recent(chain, start)|;
      && n <= |chain| && (forall i :: 0 <= i < n ==> chain[i].time >= start && Recent(chain, start)[i] == (chain[i].time, chain[i].hash))
      && (n < |chain| ==> chain[n].time < start)
    decreases |chain|
  {
    if chain != [] && chain[0].time >= start { RecentIs(chain[1..], start); }
  }

  /** The search for the last modifier stops at the first block that has one, or at the first block of all. */
  lemma {:induction false} LastGeneratedIs(chain: seq<Block>)
    requires chain != []
    ensures var k := LastGenerated(chain);
      (forall i :: 0 <= i < k ==> !chain[i].fGenerated) && (chain[k].fGenerated || k == |chain| - 1)
    decreases |chain|
  {
    if !chain[0].fGenerated && |chain| > 1 { LastGeneratedIs(chain[1..]); }
  }

  datatype Modifier = Modifier(nStakeModifier: nat, fGenerated: bool)

  /** `firstModifier` is what the block after the first gets; `None` is an error. */
  method ComputeNextStakeModifier(rules: Rules, index: Index, chain: seq<Block>, firstModifier: nat)
    returns (r: Option<Modifier>, ghost picks: seq<nat>)
    requires DistinctBlocks(chain) && Holds(index, chain)
    ensures chain == [] ==> r == Some(Modifier(0, true))
    ensures chain != [] && chain[0].nHeight == 0 ==> r == Some(Modifier(firstModifier, true))
    ensures chain != [] && chain[0].nHeight > 0 ==>
      var p := chain[LastGenerated(chain)];
      if !p.fGenerated then r == None
      else if p.time / MODIFIER_INTERVAL >= chain[0].time / MODIFIER_INTERVAL then r == Some(Modifier(p.nStakeModifier, false))
      else
        var start := chain[0].time / MODIFIER_INTERVAL * MODIFIER_INTERVAL - OLD_MODIFIER_INTERVAL;
        var v := SortedByTime(Recent(chain, start));
        (forall i :: 0 <= i < |chain| ==> chain[i].hash in index) ==>
          && Indexed(index, v) && AllPicked(rules, index, v, start, p.nStakeModifier, picks)
          && |picks| == (if |v| < 64 then |v| else 64)
          && r == Some(Modifier(BitsOf(index, v, picks), true))
  {
    picks := [];
    if chain == [] {
      return Some(Modifier(0, true)), picks;
    }
    if chain[0].nHeight == 0 {
      return Some(Modifier(firstModifier, true)), picks;
    }
    var k := 0;
    while k < |chain| - 1 && !chain[k].fGenerated
      invariant k < |chain| && k + LastGenerated(chain[k..]) == LastGenerated(chain)
    {
      assert chain[k..][1..] == chain[k + 1..];
      k := k + 1;
    }
    var p := chain[k];
    if !p.fGenerated {
      return None, picks;
    }
    if p.time / MODIFIER_INTERVAL >= chain[0].time / MODIFIER_INTERVAL {
      return Some(Modifier(p.nStakeModifier, false)), picks;
    }
    var start := chain[0].time / MODIFIER_INTERVAL * MODIFIER_INTERVAL - OLD_MODIFIER_INTERVAL;
    var v := CollectCandidates(chain, start);
    CandidatesAreFit(chain, index, start);
    var ok, nNew, selected := SelectRounds(rules, index, v, start, p.nStakeModifier);
    picks := selected;
    if !ok {
      return None, picks;
    }
    return Some(Modifier(nNew, true)), picks;
  }

  lemma RecentStep(chain: seq<Block>, start: int, v: seq<Candidate>)
    requires chain != [] && chain[0].time >= start
    ensures v + Recent(chain, start) == (v + [(chain[0].time, chain[0].hash)]) + Recent(chain[1..], start)
  {
  }

  method CollectCandidates(chain: seq<Block>, start: int) returns (v: seq<Candidate>)
    ensures v == SortedByTime(Recent(chain, start))
  {
    hide SortedByTime;
    v := [];
    var i := 0;
    assert chain[0..] == chain;
    while i < |chain| && chain[i].time >= start
      invariant i <= |chain| && v + Recent(chain[i..], start) == Recent(chain, start)
    {
      assert chain[i..][1..] == chain[i + 1..];
      RecentStep(chain[i..], start, v);
      v := v + [(chain[i].time, chain[i].hash)];
      i := i + 1;
    }
    assert Recent(chain[i..], start) == [];
    assert v == Recent(chain, start);
    v := SortedByTime(v);
  }
}
