/**
 The coin caches themselves (core/src/coins.cpp, txdb.cpp): objects stacked on
 each other over one database.  Every method says what it does to the flat map
 that the stack stands for, `Seen(Abs(), txid)`.
 */
module CoinsCache {
  import opened CoinsRecord
  import opened CoinsStack

  class CCoinsViewDB {
    var coins: map<TxId, Coins>
    var best: Hash

    constructor ()
      ensures coins == map[] && best == 0
    {
      coins := map[];
      best := 0;
    }

    method GetCoins(txid: TxId) returns (found: bool, c: Coins)
      ensures found <==> txid in coins
      ensures found ==> c == coins[txid]
    {
      found := txid in coins;
      c := if found then coins[txid] else EMPTY;
    }

    /** DIRTY entries are written, pruned ones erased. */
    method BatchWrite(mapCoins: map<TxId, Entry>, hashBlock: Hash)
      requires Sound(Db(coins, best))
      requires forall k :: k in mapCoins ==> EntryOk(Db(coins, best), k, mapCoins[k]) && IsClean(mapCoins[k].coins)
      modifies this
      ensures Sound(Db(coins, best))
      ensures Batched(Db(old(coins), old(best)), Db(coins, best), mapCoins)
      ensures best == if hashBlock == 0 then old(best) else hashBlock
      ensures forall k :: k in coins <==> if k in mapCoins && mapCoins[k].dirty then !IsPruned(mapCoins[k].coins) else k in old(coins)
      ensures forall k :: k in coins ==> coins[k] == if k in mapCoins && mapCoins[k].dirty then mapCoins[k].coins else old(coins)[k]
    {
      hide StoredUpTo;
      ghost var s := Db(coins, best);
      var left := mapCoins;
      NothingStored(coins, mapCoins);
      BatchStarts(s, mapCoins);
      while left != map[]
        invariant best == old(best) && Batching(s, Db(coins, best), mapCoins, left)
        invariant StoredUpTo(old(coins), coins, mapCoins, left)
        decreases |left|
      {
        var k :| k in left;
        BatchStep(s, Db(coins, best), mapCoins, left, k);
        BatchKnows(s, Db(coins, best), mapCoins, left, k);
        OneStored(old(coins), coins, mapCoins, left, k);
        var e := left[k];
        if e.dirty {
          if IsPruned(e.coins) {
            coins := coins - {k};
          } else {
            coins := coins[k := e.coins];
          }
        }
        SmallerMap(left, k);
        left := left - {k};
      }
      BatchEnds(s, Db(coins, best), mapCoins);
      AllStored(old(coins), coins, mapCoins);
      if hashBlock != 0 {
        best := hashBlock;
      }
    }
  }

  // ---------------------------------------------------------------- the batch, entry by entry

  /** The entries outside `left` are stored: modified ones replace what was there, or erase it when pruned. */
  ghost predicate StoredUpTo(before: map<TxId, Coins>, after: map<TxId, Coins>, batch: map<TxId, Entry>, left: map<TxId, Entry>) {
    && (forall k :: k in after <==> if k in batch && k !in left && batch[k].dirty then !IsPruned(batch[k].coins) else k in before)
    && (forall k :: k in after ==> after[k] == if k in batch && k !in left && batch[k].dirty then batch[k].coins else before[k])
  }

  lemma NothingStored(coins: map<TxId, Coins>, batch: map<TxId, Entry>)
    ensures StoredUpTo(coins, coins, batch, batch)
  {
  }

  lemma AllStored(before: map<TxId, Coins>, after: map<TxId, Coins>, batch: map<TxId, Entry>)
    requires StoredUpTo(before, after, batch, map[])
    ensures forall k :: k in after <==> if k in batch && batch[k].dirty then !IsPruned(batch[k].coins) else k in before
    ensures forall k :: k in after ==> after[k] == if k in batch && batch[k].dirty then batch[k].coins else before[k]
  {
    hide IsPruned;
  }

  lemma OneStored(before: map<TxId, Coins>, now: map<TxId, Coins>, batch: map<TxId, Entry>, left: map<TxId, Entry>, k: TxId)
    requires StoredUpTo(before, now, batch, left) && k in left && k in batch && batch[k] == left[k]
    ensures StoredUpTo(before, WrittenToDb(now, k, left[k]), batch, left - {k})
  {
    hide IsPruned;
  }

  /** Every entry of the batch shows; nothing else has changed. */
  ghost predicate Batched(s: Stack, t: Stack, batch: map<TxId, Entry>) {
    forall k :: Seen(t, k) == if k in batch then Visible(batch[k].coins) else Seen(s, k)
  }

  /** The entries of `batch` outside `left` have been written to `s`, giving `t`. */
  ghost predicate Batching(s: Stack, t: Stack, batch: map<TxId, Entry>, left: map<TxId, Entry>) {
    && left.Keys <= batch.Keys && (forall k :: k in left ==> left[k] == batch[k])
    && Sound(t) && Tidy(t) && (s.Cache? <==> t.Cache?)
    && (forall k :: k in left ==> EntryOk(t, k, left[k]) && IsClean(left[k].coins))
    && (forall k :: Seen(t, k) == if k in batch && k !in left then Visible(batch[k].coins) else Seen(s, k))
  }

  lemma BatchStarts(s: Stack, batch: map<TxId, Entry>)
    requires Sound(s) && Tidy(s)
    requires forall k :: k in batch ==> EntryOk(s, k, batch[k]) && IsClean(batch[k].coins)
    ensures Batching(s, s, batch, batch)
  {
  }

  lemma BatchStep(s: Stack, t: Stack, batch: map<TxId, Entry>, left: map<TxId, Entry>, k: TxId)
    requires Batching(s, t, batch, left) && k in left
    ensures Batching(s, WrittenBelow(t, k, left[k]), batch, left - {k})
  {
    hide EntryOk, Sound, Tidy, WrittenBelow, Visible, Seen;
    var u, rest := WrittenBelow(t, k, left[k]), left - {k};
    WritingOne(t, k, left[k]);
    OthersKeep(t, u, k, left[k].coins, rest);
    BatchShows(s, t, u, batch, left, k);
    assert rest.Keys <= batch.Keys;
  }

  lemma BatchShows(s: Stack, t: Stack, u: Stack, batch: map<TxId, Entry>, left: map<TxId, Entry>, k: TxId)
    requires k in left && k in batch && left[k] == batch[k] && Shows(t, u, k, left[k].coins)
    requires forall j :: Seen(t, j) == if j in batch && j !in left then Visible(batch[j].coins) else Seen(s, j)
    ensures forall j :: Seen(u, j) == if j in batch && j !in left - {k} then Visible(batch[j].coins) else Seen(s, j)
  {
    hide Visible, Seen;
    forall j
      ensures Seen(u, j) == if j in batch && j !in left - {k} then Visible(batch[j].coins) else Seen(s, j)
    {
      if j != k {
        assert Seen(u, j) == Seen(t, j);
      }
    }
  }

  lemma BatchGives(s: Stack, t: Stack, batch: map<TxId, Entry>, left: map<TxId, Entry>, k: TxId)
    requires Batching(s, t, batch, left) && k in left
    ensures EntryOk(t, k, left[k])
  {
  }

  /** The remembered best block plays no part in the coins. */
  lemma OnlyHash(entries: map<TxId, Entry>, hash: Hash, hash': Hash, b: Stack, k0: TxId)
    requires Sound(Cache(entries, hash, b))
    ensures Sound(Cache(entries, hash', b))
    ensures Tidy(Cache(entries, hash, b)) ==> Tidy(Cache(entries, hash', b))
    ensures TidyBut(Cache(entries, hash, b), k0) ==> TidyBut(Cache(entries, hash', b), k0)
    ensures forall k :: Seen(Cache(entries, hash', b), k) == Seen(Cache(entries, hash, b), k)
  {
  }

  lemma OnlyHashBatched(s: Stack, entries: map<TxId, Entry>, hash: Hash, hash': Hash, b: Stack, batch: map<TxId, Entry>)
    requires Batched(s, Cache(entries, hash, b), batch)
    ensures Batched(s, Cache(entries, hash', b), batch)
  {
    forall k ensures Seen(Cache(entries, hash', b), k) == Seen(Cache(entries, hash, b), k) {}
  }

  lemma SoundGives(entries: map<TxId, Entry>, hash: Hash, b: Stack)
    requires Sound(Cache(entries, hash, b)) && Tidy(Cache(entries, hash, b))
    ensures Sound(b) && Tidy(b)
    ensures forall k :: k in entries ==> EntryOk(b, k, entries[k]) && IsClean(entries[k].coins)
  {
  }

  lemma FlushShows(entries: map<TxId, Entry>, hash: Hash, b: Stack, c: Stack)
    requires Batched(b, c, entries)
    ensures forall k :: Seen(c, k) == Seen(Cache(entries, hash, b), k)
  {
  }

  lemma BatchEnds(s: Stack, t: Stack, batch: map<TxId, Entry>)
    requires Batching(s, t, batch, map[])
    ensures Batched(s, t, batch) && Sound(t) && Tidy(t)
  {
  }

  lemma BatchKnows(s: Stack, t: Stack, batch: map<TxId, Entry>, left: map<TxId, Entry>, k: TxId)
    requires Batching(s, t, batch, left) && k in left
    ensures k in batch && batch[k] == left[k] && left.Keys <= batch.Keys
  {
  }

  /**
   What a cache makes of one entry of a child: an unmodified one is ignored; an unknown record is taken as
   FRESH unless it is pruned; a known one is replaced and keeps its mark, or goes if it was FRESH and is pruned.
   */
  ghost predicate OneTakenOver(before: map<TxId, Entry>, after: map<TxId, Entry>, k: TxId, e: Entry) {
    if !e.dirty then (k in after <==> k in before) && (k in before ==> after[k] == before[k])
    else if k !in before then (k in after <==> !IsPruned(e.coins)) && (k in after ==> after[k] == Entry(e.coins, true, true))
    else
      && (k in after <==> !(before[k].isFresh && IsPruned(e.coins)))
      && (k in after ==> after[k] == Entry(e.coins, true, before[k].isFresh))
  }

  ghost predicate TakenUpTo(before: map<TxId, Entry>, after: map<TxId, Entry>, batch: map<TxId, Entry>, left: map<TxId, Entry>) {
    && (forall k :: k in batch && k !in left ==> OneTakenOver(before, after, k, batch[k]))
    && (forall k :: k !in batch || k in left ==> (k in after <==> k in before) && (k in before ==> after[k] == before[k]))
  }

  /** Every entry of the batch is taken over, and no other is touched. */
  ghost predicate TakenOver(before: map<TxId, Entry>, after: map<TxId, Entry>, batch: map<TxId, Entry>) {
    && (forall k :: k in batch ==> OneTakenOver(before, after, k, batch[k]))
    && (forall k :: k !in batch ==> (k in after <==> k in before) && (k in before ==> after[k] == before[k]))
  }

  lemma NothingTaken(entries: map<TxId, Entry>, batch: map<TxId, Entry>)
    ensures TakenUpTo(entries, entries, batch, batch)
  {
  }

  lemma AllTaken(before: map<TxId, Entry>, after: map<TxId, Entry>, batch: map<TxId, Entry>)
    requires TakenUpTo(before, after, batch, map[])
    ensures TakenOver(before, after, batch)
  {
    hide OneTakenOver;
  }

  lemma OneTaken(before: map<TxId, Entry>, now: map<TxId, Entry>, batch: map<TxId, Entry>, left: map<TxId, Entry>, k: TxId)
    requires TakenUpTo(before, now, batch, left) && k in left && k in batch && batch[k] == left[k] && left.Keys <= batch.Keys
    ensures TakenUpTo(before, WrittenTo(now, k, left[k]), batch, left - {k})
  {
    hide IsPruned;
    var after := WrittenTo(now, k, left[k]);
    assert OneTakenOver(before, after, k, batch[k]);
    forall j | j != k
      ensures (j in after <==> j in now) && (j in now ==> after[j] == now[j])
    {
    }
    hide WrittenTo;
  }

  lemma SmallerMap<K, V>(m: map<K, V>, k: K)
    requires k in m
    ensures |m - {k}| < |m|
  {
    assert m.Keys == (m - {k}).Keys + {k};
  }

  class CCoinsViewCache {
    const base: CCoinsViewCache?
    const db: CCoinsViewDB
    ghost const Repr: set<object>
    var cacheCoins: map<TxId, Entry>
    var hashBlock: Hash
    var hasModifier: bool
    ghost var modifying: TxId

    ghost predicate Shaped()
      decreases Repr
    {
      && this in Repr && db in Repr
      && (base != null ==> base in Repr && base.Repr <= Repr && this !in base.Repr && base.db == db && base.Shaped())
    }

    ghost function Below(): Stack
      requires Shaped()
      reads Repr
      decreases Repr, 0
    {
      if base == null then Db(db.coins, db.best) else base.Abs()
    }

    ghost function Abs(): Stack
      requires Shaped()
      reads Repr
      decreases Repr, 1
    {
      Cache(cacheCoins, hashBlock, Below())
    }

    /** No cache below is being modified. */
    ghost predicate Calm()
      requires Shaped()
      reads Repr
      decreases Repr
    {
      base != null ==> !base.hasModifier && base.Calm()
    }

    ghost predicate Valid()
      reads Repr
    {
      && Shaped() && Calm() && Sound(Abs())
      && if hasModifier
         then TidyBut(Abs(), modifying) && modifying in cacheCoins && cacheCoins[modifying].dirty
         else Tidy(Abs())
    }

    /** A new, empty cache over another one. */
    constructor (baseIn: CCoinsViewCache)
      requires baseIn.Valid() && !baseIn.hasModifier
      ensures Valid() && fresh(this) && base == baseIn && Repr == {this} + baseIn.Repr && !hasModifier
      ensures cacheCoins == map[] && hashBlock == 0
      ensures forall k :: Seen(Abs(), k) == Seen(baseIn.Abs(), k)
    {
      base, db := baseIn, baseIn.db;
      Repr := {this} + baseIn.Repr;
      cacheCoins, hashBlock, hasModifier := map[], 0, false;
      new;
      EmptyCacheIsTransparent(0, baseIn.Abs());
    }

    /** A new, empty cache over the database. */
    constructor OverDb(dbIn: CCoinsViewDB)
      requires Sound(Db(dbIn.coins, dbIn.best))
      ensures Valid() && fresh(this) && base == null && db == dbIn && Repr == {this, dbIn} && !hasModifier
      ensures cacheCoins == map[] && hashBlock == 0
      ensures forall k :: Seen(Abs(), k) == Seen(Db(dbIn.coins, dbIn.best), k)
    {
      base, db := null, dbIn;
      Repr := {this, dbIn};
      cacheCoins, hashBlock, hasModifier := map[], 0, false;
      new;
      EmptyCacheIsTransparent(0, Db(dbIn.coins, dbIn.best));
    }

    /** Ask the level below. */
    method GetBelow(txid: TxId) returns (found: bool, c: Coins)
      requires Valid()
      modifies Repr - {this}
      ensures Valid() && unchanged(this)
      ensures Filled(old(Below()), Below()) && Sound(Below()) && Tidy(Below())
      ensures found == Has(Below(), txid)
      ensures found ==> c == Lookup(Below(), txid) && (base != null ==> txid in base.cacheCoins)
      decreases Repr, 0
    {
      if base == null {
        found, c := db.GetCoins(txid);
      } else {
        assert Sound(Below()) && Tidy(Below()) && Below() == base.Abs();
        found, c := base.GetCoins(txid);
        FilledBelow(cacheCoins, hashBlock, old(Below()), Below());
      }
    }

    method FetchCoins(txid: TxId) returns (found: bool)
      requires Valid()
      modifies Repr
      ensures Valid() && hasModifier == old(hasModifier) && modifying == old(modifying)
      ensures Filled(old(Abs()), Abs())
      ensures found == Has(Abs(), txid)
      ensures found ==> txid in cacheCoins && cacheCoins[txid].coins == Lookup(Abs(), txid)
      ensures txid in old(cacheCoins) || !found ==> cacheCoins == old(cacheCoins)
      ensures txid !in old(cacheCoins) && found ==>
        && cacheCoins == old(cacheCoins)[txid := cacheCoins[txid]]
        && !cacheCoins[txid].dirty && (cacheCoins[txid].isFresh <==> IsPruned(cacheCoins[txid].coins))
      decreases Repr, 1
    {
      hide Sound, EntryOk, Filled;
      FilledSelf(Abs());
      if txid in cacheCoins {
        found := true;
        return;
      }
      var tmp;
      found, tmp := GetBelow(txid);
      FilledBelow(old(cacheCoins), hashBlock, old(Below()), Below());
      if !found {
        return;
      }
      PulledUp(cacheCoins, hashBlock, Below(), txid);
      FilledTwice(old(Abs()), Abs(), Cache(cacheCoins[txid := Entry(tmp, false, IsPruned(tmp))], hashBlock, Below()));
      label Pulled:
      cacheCoins := cacheCoins[txid := Entry(tmp, false, IsPruned(tmp))];
      BelowStays@Pulled();
    }

    method GetCoins(txid: TxId) returns (found: bool, c: Coins)
      requires Valid()
      modifies Repr
      ensures Valid() && hasModifier == old(hasModifier) && modifying == old(modifying)
      ensures Filled(old(Abs()), Abs())
      ensures found == Has(old(Abs()), txid)
      ensures found ==> c == Lookup(old(Abs()), txid) && txid in cacheCoins
      ensures Visible(if found then c else EMPTY) == Seen(old(Abs()), txid)
      decreases Repr, 2
    {
      found := FetchCoins(txid);
      c := if found then cacheCoins[txid].coins else EMPTY;
      if !found { AbsentIsEmpty(old(Abs()), txid); }
    }

    method HaveCoins(txid: TxId) returns (r: bool)
      requires Valid()
      modifies Repr
      ensures Valid() && hasModifier == old(hasModifier) && modifying == old(modifying)
      ensures Filled(old(Abs()), Abs())
      ensures !(hasModifier && modifying == txid) ==> (r <==> Seen(old(Abs()), txid) != EMPTY)
    {
      var found := FetchCoins(txid);
      r := found && |cacheCoins[txid].coins.vout| > 0;
      if found {
        VisibleOfPruned(cacheCoins[txid].coins);
        if !(hasModifier && modifying == txid) { CleanPruned(cacheCoins[txid].coins); }
      } else {
        AbsentIsEmpty(Abs(), txid);
      }
    }

    /** The entry that a modifier will work on, pulled up if need be and marked DIRTY. */
    method PrepareEntry(txid: TxId)
      requires Valid() && !hasModifier
      modifies Repr
      ensures Shaped() && Calm() && Sound(Abs()) && Tidy(Abs()) && !hasModifier && hashBlock == old(hashBlock)
      ensures Filled(old(Abs()), Cache(old(cacheCoins), hashBlock, Below()))
      ensures cacheCoins == old(cacheCoins)[txid := ForModification(old(cacheCoins), Below(), txid)]
      ensures var s := Cache(old(cacheCoins), hashBlock, Below()); Shows(s, Abs(), txid, Lookup(s, txid))
    {
      hide Sound, Tidy, EntryOk, IsPruned, Lookup, Has, Filled, Shows;
      ghost var s := Abs();
      FilledSelf(s);
      if txid !in cacheCoins {
        var found, c := GetBelow(txid);
        FilledBelow(cacheCoins, hashBlock, old(Below()), Below());
        Modifying(cacheCoins, hashBlock, Below(), txid);
        if !found {
          cacheCoins := cacheCoins[txid := Entry(EMPTY, false, true)];
        } else if IsPruned(c) {
          cacheCoins := cacheCoins[txid := Entry(c, false, true)];
        } else {
          cacheCoins := cacheCoins[txid := Entry(c, false, false)];
        }
      } else {
        Modifying(cacheCoins, hashBlock, Below(), txid);
      }
      cacheCoins := cacheCoins[txid := cacheCoins[txid].(dirty := true)];
      assert cacheCoins == old(cacheCoins)[txid := ForModification(old(cacheCoins), Below(), txid)];
    }

    /**
     Start modifying a record.  The view is as before; the modifier must be closed
     before another one is asked for.
     */
    method ModifyCoins(txid: TxId) returns (m: CCoinsModifier)
      requires Valid() && !hasModifier
      modifies Repr
      ensures Valid() && fresh(m) && m.cache == this && m.it == txid && m.Live()
      ensures hashBlock == old(hashBlock)
      ensures forall k :: Seen(Abs(), k) == Seen(old(Abs()), k)
      ensures txid in cacheCoins && cacheCoins[txid].dirty && cacheCoins == old(cacheCoins)[txid := cacheCoins[txid]]
      ensures if txid in old(cacheCoins) then cacheCoins[txid].isFresh == old(cacheCoins)[txid].isFresh
              else cacheCoins[txid].isFresh <==> IsPruned(cacheCoins[txid].coins)
    {
      hide Sound, EntryOk;
      ghost var s0 := Abs();
      PrepareEntry(txid);
      assert forall k :: Seen(Abs(), k) == Seen(s0, k);
      modifying := txid;
      label Prepared:
      m := new CCoinsModifier(this, txid);
      if base != null {
        assert unchanged@Prepared(base.Repr);
        assert base.Abs() == old@Prepared(base.Abs());
      }
      assert Below() == old@Prepared(Below());
    }

    /**
     Take over a batch of entries from a cache above.  The assertion that an
     unknown, unpruned record is FRESH never fails.
     */
    method BatchWrite(mapCoins: map<TxId, Entry>, hashBlockIn: Hash)
      requires Valid() && !hasModifier
      requires forall k :: k in mapCoins ==> EntryOk(Abs(), k, mapCoins[k]) && IsClean(mapCoins[k].coins)
      modifies this
      ensures Valid() && !hasModifier
      ensures Batched(old(Abs()), Abs(), mapCoins)
      ensures TakenOver(old(cacheCoins), cacheCoins, mapCoins)
      ensures hashBlock == hashBlockIn && Below() == old(Below())
    {
      hide Batching, Batched, EntryOk, Sound, Tidy, IsPruned, TakenUpTo;
      ghost var s := Abs();
      var left := mapCoins;
      BatchStarts(s, mapCoins);
      NothingTaken(cacheCoins, mapCoins);
      while left != map[]
        invariant TakenUpTo(old(cacheCoins), cacheCoins, mapCoins, left)
        invariant Shaped() && Calm() && !hasModifier && hashBlock == old(hashBlock) && Below() == old(Below())
        invariant Batching(s, Abs(), mapCoins, left)
        decreases |left|
      {
        var k :| k in left;
        BatchStep(s, Abs(), mapCoins, left, k);
        BatchGives(s, Abs(), mapCoins, left, k);
        var e := left[k];
        ghost var before := cacheCoins;
        if e.dirty {
          if k !in cacheCoins {
            if !IsPruned(e.coins) {
              FreshIfUnknown(cacheCoins, hashBlock, Below(), k, e);
              assert e.isFresh;
              cacheCoins := cacheCoins[k := Entry(e.coins, true, true)];
            }
          } else if cacheCoins[k].isFresh && IsPruned(e.coins) {
            cacheCoins := cacheCoins - {k};
          } else {
            cacheCoins := cacheCoins[k := Entry(e.coins, true, cacheCoins[k].isFresh)];
          }
        }
        assert cacheCoins == WrittenTo(before, k, e);
        BatchKnows(s, Cache(before, hashBlock, Below()), mapCoins, left, k);
        OneTaken(old(cacheCoins), before, mapCoins, left, k);
        SmallerMap(left, k);
        left := left - {k};
      }
      BatchEnds(s, Abs(), mapCoins);
      AllTaken(old(cacheCoins), cacheCoins, mapCoins);
      ghost var t := Abs();
      hashBlock := hashBlockIn;
      OnlyHash(cacheCoins, t.hash, hashBlockIn, Below(), 0);
      OnlyHashBatched(s, cacheCoins, t.hash, hashBlockIn, Below(), mapCoins);
    }

    /** Hand everything down: the base now shows what this cache showed, and nothing is cached here. */
    method Flush() returns (ok: bool)
      requires Valid() && !hasModifier
      modifies Repr
      ensures Valid() && !hasModifier && ok && cacheCoins == map[] && hashBlock == old(hashBlock)
      ensures forall k :: Seen(Below(), k) == Seen(old(Abs()), k)
      ensures forall k :: Seen(Abs(), k) == Seen(old(Abs()), k)
      ensures base == null ==> db.best == if hashBlock == 0 then old(db.best) else hashBlock
      ensures base != null ==> base.hashBlock == hashBlock && base.Below() == old(base.Below())
      ensures Best(Abs()) == old(Best(Abs())) <==>
        hashBlock != 0 || base == null || old(base.hashBlock) == 0 || old(base.hashBlock) == old(Best(base.Below()))
    {
      hide EntryOk, Sound, Tidy, Batched, Seen;
      ghost var s, b := Abs(), Below();
      SoundGives(cacheCoins, hashBlock, b);
      if base == null {
        db.BatchWrite(cacheCoins, hashBlock);
      } else {
        assert b == base.Abs();
        base.BatchWrite(cacheCoins, hashBlock);
      }
      FlushShows(cacheCoins, hashBlock, b, Below());
      cacheCoins := map[];
      ok := true;
      EmptyCacheIsTransparent(hashBlock, Below());
      FlushKeepsBest(old(cacheCoins), hashBlock, b);
    }

    method GetBestBlock() returns (r: Hash)
      requires Valid()
      modifies Repr
      ensures Valid() && hasModifier == old(hasModifier) && modifying == old(modifying)
      ensures r == Best(old(Abs())) == Best(Abs())
      ensures cacheCoins == old(cacheCoins) && SameCoins(old(Abs()), Abs())
      decreases Repr, 1
    {
      hide Sound, EntryOk, SameCoins;
      SameCoinsSelf(Below());
      if hashBlock == 0 {
        var hash := BestBelow();
        SameCoinsBelow(cacheCoins, hashBlock, hash, old(Below()), Below());
        label Asked:
        hashBlock := hash;
        BelowStays@Asked();
      }
      SameCoinsCache(cacheCoins, old(hashBlock), hashBlock, old(Below()), Below());
      r := hashBlock;
    }

    /** Changing this cache alone leaves the levels below alone. */
    twostate lemma BelowStays()
      requires Shaped() && forall o :: o in Repr && o != this ==> unchanged(o)
      ensures Below() == old(Below()) && (old(Calm()) ==> Calm())
    {
    }

    method BestBelow() returns (r: Hash)
      requires Valid()
      modifies Repr - {this}
      ensures Valid() && unchanged(this)
      ensures r == Best(old(Below())) == Best(Below())
      ensures SameCoins(old(Below()), Below()) && Sound(Below()) && Tidy(Below())
      decreases Repr, 0
    {
      hide EntryOk, SameCoins;
      SoundBelow(Abs());
      SameCoinsSelf(Below());
      if base == null {
        r := db.best;
      } else {
        assert Below() == base.Abs();
        r := base.GetBestBlock();
        assert Below() == base.Abs() && base.Calm() && !base.hasModifier;
        assert Sound(Below()) && Tidy(Below());
        SameCoinsBelow(cacheCoins, hashBlock, hashBlock, old(Below()), Below());
        assert Abs() == Cache(cacheCoins, hashBlock, Below());
      }
    }

    method SetBestBlock(hash: Hash)
      requires Valid()
      modifies this`hashBlock
      ensures Valid() && Best(Abs()) == if hash == 0 then old(Best(Below())) else hash
      ensures forall k :: Seen(Abs(), k) == Seen(old(Abs()), k)
    {
      hide Sound, EntryOk;
      ghost var s := Abs();
      OnlyHash(cacheCoins, hashBlock, hash, Below(), modifying);
      label Told:
      hashBlock := hash;
      BelowStays@Told();
      assert Abs() == Cache(s.entries, hash, s.base);
    }
  }

  /** Same entries on every level; only remembered best blocks may differ. */
  ghost predicate SameCoins(s: Stack, t: Stack) {
    match (s, t)
    case (Db(c, _), Db(d, _)) => c == d
    case (Cache(e, _, b), Cache(f, _, c)) => e == f && SameCoins(b, c)
    case _ => false
  }

  lemma FilledTwice(s: Stack, t: Stack, u: Stack)
    requires Filled(s, t) && Filled(t, u)
    ensures Filled(s, u)
  {
  }

  lemma FilledSelf(s: Stack)
    ensures Filled(s, s)
  {
  }

  lemma {:induction false} SameCoinsSelf(s: Stack)
    ensures SameCoins(s, s)
  {
    if s.Cache? { SameCoinsSelf(s.base); }
  }

  lemma {:induction false} SameCoinsLook(s: Stack, t: Stack, k: TxId)
    requires SameCoins(s, t)
    ensures Lookup(s, k) == Lookup(t, k) && Has(s, k) == Has(t, k)
  {
    if s.Cache? { SameCoinsLook(s.base, t.base, k); }
  }

  lemma SameCoinsCache(entries: map<TxId, Entry>, hash: Hash, hash': Hash, b: Stack, c: Stack)
    requires SameCoins(b, c)
    ensures SameCoins(Cache(entries, hash, b), Cache(entries, hash', c))
  {
  }

  lemma SoundBelow(s: Stack)
    requires s.Cache? && Sound(s)
    ensures Sound(s.base) && Tidy(s.base)
  {
  }

  lemma SameCoinsBelow(entries: map<TxId, Entry>, hash: Hash, hash': Hash, b: Stack, c: Stack)
    requires Sound(Cache(entries, hash, b)) && Sound(c) && Tidy(c) && SameCoins(b, c)
    ensures Sound(Cache(entries, hash', c))
  {
    forall k | k in entries
      ensures EntryOk(c, k, entries[k])
    {
      assert EntryOk(b, k, entries[k]);
      SameCoinsLook(b, c, k);
    }
  }

  /** A live reference to one record of a cache. */
  class CCoinsModifier {
    const cache: CCoinsViewCache
    const it: TxId

    ghost predicate Live()
      reads cache, cache.Repr
    {
      cache.Valid() && cache.hasModifier && cache.modifying == it
    }

    constructor (cacheIn: CCoinsViewCache, itIn: TxId)
      requires !cacheIn.hasModifier
      modifies cacheIn`hasModifier
      ensures cache == cacheIn && it == itIn && cacheIn.hasModifier
    {
      cache, it := cacheIn, itIn;
      new;
      cacheIn.hasModifier := true;
    }

    /** The record, for reading. */
    method Get() returns (c: Coins)
      requires Live()
      ensures c == Lookup(cache.Abs(), it)
    {
      c := cache.cacheCoins[it].coins;
    }

    /** Any change of the record: the view changes in this key alone. */
    method Set(c: Coins)
      requires Live()
      modifies cache`cacheCoins
      ensures Live() && Shows(old(cache.Abs()), cache.Abs(), it, c)
    {
      Assigning(cache.cacheCoins, cache.hashBlock, cache.Below(), it, c);
      cache.cacheCoins := cache.cacheCoins[it := cache.cacheCoins[it].(coins := c)];
    }

    /** The destructor: trims the record, and drops it if it is FRESH with nothing left. */
    method Close()
      requires Live()
      modifies cache
      ensures cache.Valid() && !cache.hasModifier && cache.hashBlock == old(cache.hashBlock)
      ensures forall k :: Seen(cache.Abs(), k) == Seen(old(cache.Abs()), k)
      ensures var e := old(cache.cacheCoins)[it];
        cache.cacheCoins ==
          if e.isFresh && IsPruned(e.coins) then old(cache.cacheCoins) - {it}
          else old(cache.cacheCoins)[it := e.(coins := Cleaned(e.coins))]
    {
      CleanedIsClean(cache.cacheCoins[it].coins);
      Finishing(cache.cacheCoins, cache.hashBlock, cache.Below(), it);
      cache.hasModifier := false;
      var coins := Cleanup(cache.cacheCoins[it].coins);
      if cache.cacheCoins[it].isFresh && IsPruned(coins) {
        cache.cacheCoins := cache.cacheCoins - {it};
      } else {
        cache.cacheCoins := cache.cacheCoins[it := cache.cacheCoins[it].(coins := coins)];
      }
    }
  }
}
