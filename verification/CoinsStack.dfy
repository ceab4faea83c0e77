/**
 A stack of coin caches over a database, as one value: what a lookup sees, what
 the DIRTY and FRESH marks promise about the level below, and how single steps
 of fetching, modifying and writing back keep those promises.
 */
module CoinsStack {
  import opened CoinsRecord

  type TxId = nat
  type Hash = nat

  datatype Entry = Entry(coins: Coins, dirty: bool, isFresh: bool)

  datatype Stack =
    | Db(coins: map<TxId, Coins>, best: Hash)
    | Cache(entries: map<TxId, Entry>, hash: Hash, base: Stack)

  /** Whether `GetCoins` finds anything, and what. */
  predicate Has(s: Stack, k: TxId) {
    match s
    case Db(coins, _) => k in coins
    case Cache(entries, _, base) => k in entries || Has(base, k)
  }

  function Lookup(s: Stack, k: TxId): Coins {
    match s
    case Db(coins, _) => if k in coins then coins[k] else EMPTY
    case Cache(entries, _, base) => if k in entries then entries[k].coins else Lookup(base, k)
  }

  /** A record up to spent outputs: nothing found and everything spent are the same. */
  function Visible(c: Coins): Coins {
    if IsPruned(c) then EMPTY else Cleaned(c)
  }

  /** The flat map that a stack stands for. */
  function Seen(s: Stack, k: TxId): Coins {
    Visible(Lookup(s, k))
  }

  // ---------------------------------------------------------------- what the marks promise

  /**
   FRESH: the level below sees nothing.  Not DIRTY: the level below sees the same.
   Not FRESH: the level below, if it is a cache, holds the key itself.
   */
  ghost predicate EntryOk(base: Stack, k: TxId, e: Entry) {
    && (e.isFresh ==> Seen(base, k) == EMPTY)
    && (!e.dirty ==> Visible(e.coins) == Seen(base, k))
    && (!e.isFresh && base.Cache? ==> k in base.entries)
  }

  ghost predicate Sound(s: Stack) {
    match s
    case Db(coins, _) => forall k :: k in coins ==> IsClean(coins[k]) && !IsPruned(coins[k])
    case Cache(entries, _, base) => Sound(base) && Tidy(base) && forall k :: k in entries ==> EntryOk(base, k, entries[k])
  }

  /** No entry of the top cache is in the middle of a modification. */
  ghost predicate Tidy(s: Stack) {
    s.Cache? ==> forall k :: k in s.entries ==> IsClean(s.entries[k].coins)
  }

  ghost predicate TidyBut(s: Stack, k0: TxId) {
    s.Cache? ==> forall k :: k in s.entries && k != k0 ==> IsClean(s.entries[k].coins)
  }

  lemma VisibleOfPruned(c: Coins)
    ensures Visible(c) == EMPTY <==> IsPruned(c)
    ensures Visible(Cleaned(c)) == Visible(c)
  {
    CleanedIsClean(c);
    CleanedIsClean(Cleaned(c));
    if !IsPruned(c) {
      assert !IsPruned(Cleaned(c)) && IsPruned(EMPTY);
    }
  }

  lemma {:induction false} LookupIsClean(s: Stack, k: TxId)
    requires Sound(s) && Tidy(s)
    ensures IsClean(Lookup(s, k))
  {
    match s
    case Db(_, _) =>
    case Cache(entries, _, base) =>
      if k !in entries { LookupIsClean(base, k); }
  }

  lemma {:induction false} AbsentIsEmpty(s: Stack, k: TxId)
    requires !Has(s, k)
    ensures Lookup(s, k) == EMPTY
  {
    if s.Cache? { AbsentIsEmpty(s.base, k); }
  }

  // ---------------------------------------------------------------- reading

  /** `t` is `s` after lookups that filled caches: nothing looks different. */
  ghost predicate Filled(s: Stack, t: Stack) {
    && (s.Cache? <==> t.Cache?)
    && (forall k :: Lookup(t, k) == Lookup(s, k) && Has(t, k) == Has(s, k))
    && (s.Cache? ==>
          && s.hash == t.hash && s.entries.Keys <= t.entries.Keys
          && forall k :: k in s.entries ==> t.entries[k] == s.entries[k])
  }

  lemma FilledBelow(entries: map<TxId, Entry>, hash: Hash, b: Stack, c: Stack)
    requires Sound(Cache(entries, hash, b)) && Sound(c) && Tidy(c) && Filled(b, c)
    ensures Sound(Cache(entries, hash, c)) && Filled(Cache(entries, hash, b), Cache(entries, hash, c))
  {
    forall k | k in entries
      ensures EntryOk(c, k, entries[k])
    {
      assert EntryOk(b, k, entries[k]);
      assert Lookup(c, k) == Lookup(b, k);
    }
  }

  /** A record pulled up from below is an unmodified entry, FRESH when it is pruned. */
  lemma PulledUp(entries: map<TxId, Entry>, hash: Hash, b: Stack, k: TxId)
    requires Sound(Cache(entries, hash, b)) && k !in entries && Has(b, k)
    requires b.Cache? ==> k in b.entries
    ensures var c := Lookup(b, k);
      var t := Cache(entries[k := Entry(c, false, IsPruned(c))], hash, b);
      Sound(t) && Filled(Cache(entries, hash, b), t) && IsClean(c)
  {
    LookupIsClean(b, k);
    VisibleOfPruned(Lookup(b, k));
    var e := Entry(Lookup(b, k), false, IsPruned(Lookup(b, k)));
    var t := Cache(entries[k := e], hash, b);
    assert EntryOk(b, k, e);
    forall j | j in t.entries
      ensures EntryOk(b, j, t.entries[j])
    {
    }
  }

  // ---------------------------------------------------------------- modifying

  /** `t` differs from `s` in key `k` alone, where it shows `c`. */
  ghost predicate Shows(s: Stack, t: Stack, k: TxId, c: Coins) {
    && Seen(t, k) == Visible(c)
    && forall j :: j != k ==> Seen(t, j) == Seen(s, j)
  }

  /** The entry that `ModifyCoins` leaves for `k`: DIRTY in any case. */
  function ForModification(entries: map<TxId, Entry>, b: Stack, k: TxId): Entry {
    if k in entries then entries[k].(dirty := true)
    else if !Has(b, k) then Entry(EMPTY, true, true)
    else Entry(Lookup(b, k), true, IsPruned(Lookup(b, k)))
  }

  lemma Modifying(entries: map<TxId, Entry>, hash: Hash, b: Stack, k: TxId)
    requires Sound(Cache(entries, hash, b)) && Tidy(Cache(entries, hash, b))
    requires b.Cache? && Has(b, k) && k !in entries ==> k in b.entries
    ensures var s, t := Cache(entries, hash, b), Cache(entries[k := ForModification(entries, b, k)], hash, b);
      Sound(t) && Tidy(t) && Shows(s, t, k, Lookup(s, k))
  {
    var e := ForModification(entries, b, k);
    VisibleOfPruned(Lookup(b, k));
    LookupIsClean(b, k);
    if !Has(b, k) { AbsentIsEmpty(b, k); }
    if k in entries { assert EntryOk(b, k, entries[k]); }
    assert EntryOk(b, k, e);
    var t := Cache(entries[k := e], hash, b);
    forall j | j in t.entries
      ensures EntryOk(b, j, t.entries[j])
    {
    }
  }

  /** Writing through a modifier. */
  lemma Assigning(entries: map<TxId, Entry>, hash: Hash, b: Stack, k: TxId, c: Coins)
    requires Sound(Cache(entries, hash, b)) && TidyBut(Cache(entries, hash, b), k)
    requires k in entries && entries[k].dirty
    ensures var s, t := Cache(entries, hash, b), Cache(entries[k := entries[k].(coins := c)], hash, b);
      Sound(t) && TidyBut(t, k) && Shows(s, t, k, c)
  {
    assert EntryOk(b, k, entries[k]);
    var t := Cache(entries[k := entries[k].(coins := c)], hash, b);
    forall j | j in t.entries
      ensures EntryOk(b, j, t.entries[j])
    {
    }
  }

  /** The end of a modifier: the record is trimmed, and forgotten if nothing is left of a FRESH one. */
  function Finished(entries: map<TxId, Entry>, k: TxId): map<TxId, Entry>
    requires k in entries
  {
    var c := Cleaned(entries[k].coins);
    if entries[k].isFresh && IsPruned(c) then entries - {k} else entries[k := entries[k].(coins := c)]
  }

  lemma Finishing(entries: map<TxId, Entry>, hash: Hash, b: Stack, k: TxId)
    requires Sound(Cache(entries, hash, b)) && TidyBut(Cache(entries, hash, b), k)
    requires k in entries && entries[k].dirty
    ensures var s, t := Cache(entries, hash, b), Cache(Finished(entries, k), hash, b);
      Sound(t) && Tidy(t) && forall j :: Seen(t, j) == Seen(s, j)
  {
    var c := entries[k].coins;
    CleanedIsClean(c);
    VisibleOfPruned(c);
    assert EntryOk(b, k, entries[k]);
    var s, t := Cache(entries, hash, b), Cache(Finished(entries, k), hash, b);
    forall j | j in t.entries
      ensures EntryOk(b, j, t.entries[j]) && IsClean(t.entries[j].coins)
    {
      assert EntryOk(b, j, entries[j]);
    }
    forall j ensures Seen(t, j) == Seen(s, j) {
      if j == k { assert Seen(s, k) == Visible(c); }
    }
  }

  // ---------------------------------------------------------------- writing back

  /** One entry `e` of a child written to a cache, as `BatchWrite` does it. */
  function WrittenTo(entries: map<TxId, Entry>, k: TxId, e: Entry): map<TxId, Entry> {
    if !e.dirty then entries
    else if k !in entries then
      if IsPruned(e.coins) then entries else entries[k := Entry(e.coins, true, true)]
    else if entries[k].isFresh && IsPruned(e.coins) then entries - {k}
    else entries[k := Entry(e.coins, true, entries[k].isFresh)]
  }

  function WrittenToDb(coins: map<TxId, Coins>, k: TxId, e: Entry): map<TxId, Coins> {
    if !e.dirty then coins
    else if IsPruned(e.coins) then coins - {k}
    else coins[k := e.coins]
  }

  function WrittenBelow(s: Stack, k: TxId, e: Entry): Stack {
    match s
    case Db(coins, best) => Db(WrittenToDb(coins, k, e), best)
    case Cache(entries, hash, base) => Cache(WrittenTo(entries, k, e), hash, base)
  }

  /** A non-pruned record that the parent does not hold is FRESH: the assertion of `BatchWrite`. */
  lemma FreshIfUnknown(entries: map<TxId, Entry>, hash: Hash, base: Stack, k: TxId, e: Entry)
    requires EntryOk(Cache(entries, hash, base), k, e) && k !in entries
    ensures e.isFresh
  {
  }

  lemma {:induction false} WritingOne(s: Stack, k: TxId, e: Entry)
    requires Sound(s) && Tidy(s) && EntryOk(s, k, e) && IsClean(e.coins)
    ensures var t := WrittenBelow(s, k, e);
      && Sound(t) && Tidy(t) && Shows(s, t, k, e.coins)
      && (s.Cache? ==> forall j :: j != k && j in s.entries ==> j in t.entries)
      && (s.Cache? <==> t.Cache?)
  {
    var t := WrittenBelow(s, k, e);
    VisibleOfPruned(e.coins);
    CleanedIsClean(e.coins);
    match s
    case Db(coins, best) =>
      assert Seen(t, k) == Visible(e.coins);
    case Cache(entries, hash, base) =>
      VisibleOfPruned(Lookup(base, k));
      if k in entries { assert EntryOk(base, k, entries[k]); }
      forall j | j in t.entries
        ensures EntryOk(base, j, t.entries[j]) && IsClean(t.entries[j].coins)
      {
        if j != k { assert EntryOk(base, j, entries[j]); }
      }
      assert Seen(t, k) == Visible(e.coins);
  }

  /** Writing one key leaves the promises about the others alone. */
  lemma OthersKeep(s: Stack, t: Stack, k: TxId, c: Coins, rest: map<TxId, Entry>)
    requires Shows(s, t, k, c) && (s.Cache? <==> t.Cache?)
    requires s.Cache? ==> forall j :: j != k && j in s.entries ==> j in t.entries
    requires k !in rest && forall j :: j in rest ==> EntryOk(s, j, rest[j])
    ensures forall j :: j in rest ==> EntryOk(t, j, rest[j])
  {
    forall j | j in rest
      ensures EntryOk(t, j, rest[j])
    {
      assert EntryOk(s, j, rest[j]);
    }
  }

  /** With nothing cached, a cache sees what its base sees. */
  lemma EmptyCacheIsTransparent(hash: Hash, b: Stack)
    requires Sound(b) && Tidy(b)
    ensures Sound(Cache(map[], hash, b)) && Tidy(Cache(map[], hash, b))
    ensures forall k :: Seen(Cache(map[], hash, b), k) == Seen(b, k)
  {
  }

  // ---------------------------------------------------------------- the best block

  /** The block a view stands at: a cache that has not been told asks below. */
  function Best(s: Stack): Hash {
    match s
    case Db(_, best) => best
    case Cache(_, hash, base) => if hash == 0 then Best(base) else hash
  }

  /** What `BatchWrite` does with the hash it is handed: the database ignores zero, a cache does not. */
  function Told(s: Stack, hash: Hash): Stack {
    match s
    case Db(coins, best) => Db(coins, if hash == 0 then best else hash)
    case Cache(entries, _, base) => Cache(entries, hash, base)
  }

  /**
   Flushing hands the best block down unharmed, unless the flushed cache was
   never told one and lies on a cache that was: then the cache below forgets it.
   */
  lemma FlushKeepsBest(entries: map<TxId, Entry>, hash: Hash, base: Stack)
    ensures Best(Told(base, hash)) == Best(Cache(entries, hash, base)) <==>
      (hash != 0 || base.Db? || base.hash == 0 || base.hash == Best(base.base))
  {
  }
}
