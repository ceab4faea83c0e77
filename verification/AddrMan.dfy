/**
 The address manager (core/src/addrman.cpp): ids, the random order, the
 "new" table with reference counts and the "tried" table.
 Every operation keeps all of them consistent and changes the view exactly as
 `AddrManSpec` says.
 */
module AddrManImpl {
  import opened Arithmetic
  import opened Numerals
  import opened AddrManState
  import opened AddrManSteps
  import opened AddrManSpec
  import opened AddrManMoves

  /** The occupied cells of a table. */
  function Table(t: array2<int>): map<Cell, int>
    reads t
  {
    map b: int, p: int | 0 <= b < t.Length0 && 0 <= p < t.Length1 && t[b, p] != -1 :: (b, p) := t[b, p]
  }

  /** `m` holds the occupied cells of `t`, except that cell (b, p) may differ. */
  ghost predicate TableBut(t: array2<int>, m: map<Cell, int>, b: int, p: int)
    reads t
  {
    && (forall c :: c in m ==> 0 <= c.0 < t.Length0 && 0 <= c.1 < t.Length1)
    && (forall i, j :: 0 <= i < t.Length0 && 0 <= j < t.Length1 && (i, j) != (b, p) ==>
          ((i, j) in m <==> t[i, j] != -1) && ((i, j) in m ==> m[(i, j)] == t[i, j]))
  }

  lemma TableIs(t: array2<int>, b: int, p: int)
    ensures TableBut(t, Table(t), b, p)
  {
  }

  lemma TableSet(t: array2<int>, m: map<Cell, int>, b: int, p: int)
    requires 0 <= b < t.Length0 && 0 <= p < t.Length1 && TableBut(t, m, b, p)
    ensures Table(t) == if t[b, p] == -1 then m - {(b, p)} else m[(b, p) := t[b, p]]
  {
  }

  class CAddrMan {
    const h: Hashes
    var nKey: Key
    var nIdCount: int
    var mapInfo: map<int, AddrInfo>
    var mapAddr: map<NetAddr, int>
    var vRandom: seq<int>
    var nTried: int
    const vvTried: array2<int>
    var nNew: int
    const vvNew: array2<int>

    predicate Shaped() {
      && vvTried.Length0 == TRIED_BUCKET_COUNT && vvTried.Length1 == BUCKET_SIZE
      && vvNew.Length0 == NEW_BUCKET_COUNT && vvNew.Length1 == BUCKET_SIZE
      && vvTried != vvNew
    }

    ghost function Abs(): State
      reads this, vvTried, vvNew
    {
      State(nKey, nIdCount, mapInfo, mapAddr, vRandom, nTried, Table(vvTried), nNew, Table(vvNew))
    }

    ghost predicate Valid()
      reads this, vvTried, vvNew
    {
      Shaped() && Consistent(h, Abs())
    }

    ghost function Peers(): View
      requires IdsOk(Abs())
      reads this, vvTried, vvNew
    {
      ViewOf(Abs())
    }

    constructor (hashes: Hashes, key: Key)
      ensures Valid() && fresh(vvTried) && fresh(vvNew) && h == hashes
      ensures Peers() == map[] && nKey == key
    {
      h := hashes;
      nKey := key;
      nIdCount, nTried, nNew := 0, 0, 0;
      mapInfo, mapAddr, vRandom := map[], map[], [];
      vvTried := new int[TRIED_BUCKET_COUNT, BUCKET_SIZE]((_, _) => -1);
      vvNew := new int[NEW_BUCKET_COUNT, BUCKET_SIZE]((_, _) => -1);
      new;
      assert Table(vvTried) == map[] && Table(vvNew) == map[];
      assert TriedIds(Abs()) == {} && NewIds(Abs()) == {};
    }

    method SetNew(b: int, p: int, id: int)
      requires Shaped() && 0 <= b < NEW_BUCKET_COUNT && 0 <= p < BUCKET_SIZE
      modifies vvNew
      ensures id == -1 ==> Abs() == old(Abs()).(newAt := old(Abs()).newAt - {(b, p)})
      ensures id != -1 ==> Abs() == old(Abs()).(newAt := old(Abs()).newAt[(b, p) := id])
      ensures vvNew[b, p] == id
    {
      hide Table;
      ghost var before := Table(vvNew);
      TableIs(vvNew, b, p);
      vvNew[b, p] := id;
      TableSet(vvNew, before, b, p);
    }

    method SetTried(b: int, p: int, id: int)
      requires Shaped() && 0 <= b < TRIED_BUCKET_COUNT && 0 <= p < BUCKET_SIZE
      modifies vvTried
      ensures id == -1 ==> Abs() == old(Abs()).(triedAt := old(Abs()).triedAt - {(b, p)})
      ensures id != -1 ==> Abs() == old(Abs()).(triedAt := old(Abs()).triedAt[(b, p) := id])
    {
      hide Table;
      ghost var before := Table(vvTried);
      TableIs(vvTried, b, p);
      vvTried[b, p] := id;
      TableSet(vvTried, before, b, p);
    }

    method Find(addr: NetAddr) returns (found: bool, nId: int)
      ensures found <==> addr in mapAddr && mapAddr[addr] in mapInfo
      ensures found ==> nId == mapAddr[addr]
    {
      found, nId := false, 0;
      if addr !in mapAddr {
        return;
      }
      nId := mapAddr[addr];
      found := nId in mapInfo;
    }

    method Create(addr: Address, source: NetAddr) returns (nId: int)
      modifies this
      ensures Abs() == Created(old(Abs()), addr, source) && nId == old(nIdCount)
    {
      nId := nIdCount;
      nIdCount := nIdCount + 1;
      var core := Core(addr.svc, addr.services, addr.nTime, source, 0, 0, 0);
      mapInfo := mapInfo[nId := AddrInfo(core, 0, false, -1)];
      mapAddr := mapAddr[addr.svc.net := nId];
      mapInfo := mapInfo[nId := mapInfo[nId].(nRandomPos := |vRandom|)];
      vRandom := vRandom + [nId];
    }

    method SwapRandom(nRndPos1: int, nRndPos2: int)
      requires RandomOk(Abs()) && 0 <= nRndPos1 < |vRandom| && 0 <= nRndPos2 < |vRandom|
      modifies this`mapInfo, this`vRandom
      ensures Abs() == Swapped(old(Abs()), nRndPos1, nRndPos2)
    {
      if nRndPos1 == nRndPos2 {
        return;
      }
      var nId1 := vRandom[nRndPos1];
      var nId2 := vRandom[nRndPos2];
      assert nId1 in mapInfo && nId2 in mapInfo;
      mapInfo := mapInfo[nId1 := mapInfo[nId1].(nRandomPos := nRndPos2)];
      mapInfo := mapInfo[nId2 := mapInfo[nId2].(nRandomPos := nRndPos1)];
      vRandom := vRandom[nRndPos1 := nId2];
      vRandom := vRandom[nRndPos2 := nId1];
    }

    method Delete(nId: int)
      requires RandomOk(Abs())
      requires nId in mapInfo && !mapInfo[nId].fInTried && mapInfo[nId].nRefCount == 0
      modifies this`mapInfo, this`mapAddr, this`vRandom, this`nNew
      ensures Abs() == Deleted(old(Abs()), nId)
    {
      hide RandomOk, Swapped, Removed, Table;
      ghost var s := Abs();
      PositionOf(s, nId);
      ghost var t := SwappedLast(s, nId);
      SwapRandom(mapInfo[nId].nRandomPos, |vRandom| - 1);
      assert Abs() == t;
      PopRandom(nId);
    }

    /** The tail of `Delete`: the last entry of `vRandom` goes. */
    method PopRandom(nId: int)
      requires |vRandom| > 0 && vRandom[|vRandom| - 1] == nId && nId in mapInfo
      modifies this`mapInfo, this`mapAddr, this`vRandom, this`nNew
      ensures Abs() == Removed(old(Abs()))
    {
      vRandom := vRandom[..|vRandom| - 1];
      mapAddr := mapAddr - {mapInfo[nId].core.svc.net};
      mapInfo := mapInfo - {nId};
      nNew := nNew - 1;
    }

    method ClearNew(nUBucket: int, nUBucketPos: int, ghost limbo: set<int>)
      requires Shaped() && RandomOk(Abs()) && FreshOk(h, Abs()) && RefsOk(Abs(), limbo)
      requires 0 <= nUBucket < NEW_BUCKET_COUNT && 0 <= nUBucketPos < BUCKET_SIZE
      modifies this, vvNew
      ensures Abs() == Cleared(old(Abs()), (nUBucket, nUBucketPos)) && nKey == old(nKey)
    {
      hide RandomOk, FreshOk, RefsOk, Table, Deleted;
      ghost var s, c := Abs(), (nUBucket, nUBucketPos);
      Vacant(nUBucket, nUBucketPos);
      if vvNew[nUBucket, nUBucketPos] != -1 {
        var nIdDelete := vvNew[nUBucket, nUBucketPos];
        DroppedFacts(h, s, c, limbo);
        assert mapInfo[nIdDelete].nRefCount > 0;
        DropReference(nIdDelete, nUBucket, nUBucketPos);
        if mapInfo[nIdDelete].nRefCount == 0 {
          Delete(nIdDelete);
        }
      }
    }

    method DropReference(nIdDelete: int, nUBucket: int, nUBucketPos: int)
      requires Shaped() && nIdDelete in mapInfo
      requires 0 <= nUBucket < NEW_BUCKET_COUNT && 0 <= nUBucketPos < BUCKET_SIZE
      requires var c := (nUBucket, nUBucketPos); c in Abs().newAt && Abs().newAt[c] == nIdDelete
      modifies this, vvNew
      ensures Abs() == Dropped(old(Abs()), (nUBucket, nUBucketPos))
    {
      mapInfo := mapInfo[nIdDelete := mapInfo[nIdDelete].(nRefCount := mapInfo[nIdDelete].nRefCount - 1)];
      SetNew(nUBucket, nUBucketPos, -1);
    }

    /** The scan of `MakeTried`: the entry leaves every bucket of the "new" table. */
    method RemoveFromNew(nId: int)
      requires Shaped() && Partial(h, Abs(), {}, 0) && nId in mapInfo && !mapInfo[nId].fInTried
      modifies this, vvNew
      ensures Leaving(h, old(Abs()), Abs(), nId, NEW_BUCKET_COUNT)
      ensures Cells(Abs(), nId) == {} && mapInfo[nId].nRefCount == 0
    {
      hide Partial, RandomOk, IdsOk, TriedOk, FreshOk, RefsOk, CountsOk, TimesOk;
      ghost var s0 := Abs();
      Parts(h, s0, {}, 0);
      LeavingStarts(h, s0, nId);
      for bucket := 0 to NEW_BUCKET_COUNT
        invariant Leaving(h, s0, Abs(), nId, bucket)
      {
        var pos := Position(h, nKey, true, bucket, mapInfo[nId].core.svc);
        LeaveBucket(nId, bucket, pos, s0);
      }
      LeavingEnds(h, s0, Abs(), nId);
    }

    /** One round of the scan. */
    method LeaveBucket(nId: int, bucket: int, pos: int, ghost s0: State)
      requires Shaped() && IdsOk(s0) && nId in s0.info && Leaving(h, s0, Abs(), nId, bucket)
      requires 0 <= bucket < NEW_BUCKET_COUNT && pos == Position(h, nKey, true, bucket, mapInfo[nId].core.svc)
      modifies this, vvNew
      ensures Leaving(h, s0, Abs(), nId, bucket + 1)
    {
      hide Leaving, Partial, RandomOk, IdsOk, TriedOk, FreshOk, RefsOk, CountsOk, TimesOk;
      ghost var s := Abs();
      if vvNew[bucket, pos] == nId {
        LeavingIds(h, s0, s, nId, bucket);
        DropReference(nId, bucket, pos);
        LeavingDrops(h, s0, s, Abs(), nId, bucket, (bucket, pos));
      } else {
        LeavingSkips(h, s0, s, nId, bucket);
      }
    }

    /** The tried entry in cell (b, p) moves back to its home cell in the "new" table. */
    method EvictTried(b: int, p: int, ghost id: int)
      requires Shaped() && 0 <= b < TRIED_BUCKET_COUNT && 0 <= p < BUCKET_SIZE
      requires Partial(h, Abs(), {id}, 1) && vvTried[b, p] != -1
      requires id in mapInfo && !mapInfo[id].fInTried && mapInfo[id].nRefCount == 0
      modifies this, vvNew, vvTried
      ensures Partial(h, Abs(), {id}, 1) && nKey == old(nKey)
      ensures Abs().triedAt == old(Abs()).triedAt - {(b, p)}
      ensures id in mapInfo && mapInfo[id] == old(mapInfo)[id].(nRandomPos := mapInfo[id].nRandomPos)
      ensures var e := old(vvTried[b, p]);
        && e in old(mapInfo)
        && var a := old(mapInfo)[e].core.svc.net;
        && HoldsTried(h, nKey, ViewOf(old(Abs())), a, (b, p))
        && ViewOf(Abs()) == EvictedView(h, nKey, ViewOf(old(Abs())), a)
    {
      hide Partial, RandomOk, IdsOk, TriedOk, FreshOk, RefsOk, CountsOk, TimesOk, Table, EvictedView;
      ghost var s := Abs();
      var nIdEvict := vvTried[b, p];
      Occupied(b, p);
      EvictedLeaves(h, s, (b, p), id);
      Parts(h, s, {id}, 1);
      LeaveTried(nIdEvict, b, p);
      EnterHome(nIdEvict, id);
      EvictedShows(h, s, (b, p), nIdEvict);
      Parts(h, Abs(), {id}, 1);
      EvictedViewIs(h, nKey, ViewOf(s), s.info[nIdEvict].core.svc.net, s.info[nIdEvict].core, ViewOf(Abs()));
    }

    /** The evicted entry takes its home cell in the "new" table, whoever stands there. */
    method EnterHome(nIdEvict: int, ghost id: int)
      requires Shaped() && 0 <= nIdEvict && nIdEvict != id && Partial(h, Abs(), {id, nIdEvict}, 2)
      requires nIdEvict in mapInfo && !mapInfo[nIdEvict].fInTried && mapInfo[nIdEvict].nRefCount == 0
      requires id in mapInfo && nIdEvict !in Abs().newAt.Values && id !in Abs().newAt.Values
      modifies this, vvNew
      ensures Partial(h, Abs(), {id}, 1) && nKey == old(nKey)
      ensures id in mapInfo && mapInfo[id] == old(mapInfo)[id].(nRandomPos := mapInfo[id].nRandomPos)
      ensures var core := old(mapInfo)[nIdEvict].core;
        var c := HomeCell(h, nKey, core.svc, core.source);
        ViewOf(Abs()) == ClearedView(ViewOf(old(Abs())), c)[core.svc.net := Peer(core, false, {c})]
    {
      hide Partial, RandomOk, IdsOk, TriedOk, FreshOk, RefsOk, CountsOk, TimesOk, Table, ClearedView, Cleared, Placed;
      ghost var s1 := Abs();
      EvictedClears(h, s1, nIdEvict, id);
      Parts(h, s1, {id, nIdEvict}, 2);
      var nUBucket := NewBucket(h, nKey, mapInfo[nIdEvict].core.svc, mapInfo[nIdEvict].core.source);
      var nUBucketPos := Position(h, nKey, true, nUBucket, mapInfo[nIdEvict].core.svc);
      ClearNew(nUBucket, nUBucketPos, {id, nIdEvict});
      ghost var s2 := Abs();
      assert vvNew[nUBucket, nUBucketPos] == -1 by { Vacant(nUBucket, nUBucketPos); }
      EvictedEnters(h, s2, nIdEvict, id);
      PlacedSpares(s2, (nUBucket, nUBucketPos), nIdEvict, id);
      Reenter(nIdEvict, nUBucket, nUBucketPos);
    }

    lemma Occupied(b: int, p: int)
      requires Shaped() && 0 <= b < TRIED_BUCKET_COUNT && 0 <= p < BUCKET_SIZE
      ensures (b, p) in Abs().triedAt <==> vvTried[b, p] != -1
      ensures (b, p) in Abs().triedAt ==> Abs().triedAt[(b, p)] == vvTried[b, p]
    {
    }

    lemma Vacant(b: int, p: int)
      requires Shaped() && 0 <= b < NEW_BUCKET_COUNT && 0 <= p < BUCKET_SIZE
      ensures (b, p) in Abs().newAt <==> vvNew[b, p] != -1
      ensures (b, p) in Abs().newAt ==> Abs().newAt[(b, p)] == vvNew[b, p]
    {
    }

    method LeaveTried(nIdEvict: int, b: int, p: int)
      requires Shaped() && 0 <= b < TRIED_BUCKET_COUNT && 0 <= p < BUCKET_SIZE
      requires nIdEvict in mapInfo
      requires (b, p) in Abs().triedAt && Abs().triedAt[(b, p)] == nIdEvict
      modifies this, vvTried
      ensures Abs() == Untried(old(Abs()), (b, p))
    {
      mapInfo := mapInfo[nIdEvict := mapInfo[nIdEvict].(fInTried := false)];
      SetTried(b, p, -1);
      nTried := nTried - 1;
    }

    method Reenter(nIdEvict: int, nUBucket: int, nUBucketPos: int)
      requires Shaped() && 0 <= nUBucket < NEW_BUCKET_COUNT && 0 <= nUBucketPos < BUCKET_SIZE
      requires nIdEvict >= 0 && nIdEvict in mapInfo && mapInfo[nIdEvict].nRefCount == 0
      requires vvNew[nUBucket, nUBucketPos] == -1
      modifies this, vvNew
      ensures var s := old(Abs());
        Abs() == Placed(s, (nUBucket, nUBucketPos), nIdEvict).(nNew := s.nNew + 1)
    {
      mapInfo := mapInfo[nIdEvict := mapInfo[nIdEvict].(nRefCount := 1)];
      SetNew(nUBucket, nUBucketPos, nIdEvict);
      nNew := nNew + 1;
    }

    /** The entry leaves the "new" table and its count. */
    method LeaveNew(nId: int)
      requires Shaped() && Partial(h, Abs(), {}, 0) && nId in mapInfo && !mapInfo[nId].fInTried
      modifies this, vvNew
      ensures Partial(h, Abs(), {nId}, 1) && nKey == old(nKey) && Abs().triedAt == old(Abs()).triedAt
      ensures nId in mapInfo && mapInfo[nId] == old(mapInfo)[nId].(nRefCount := 0)
      ensures IdsOk(old(Abs())) && IdsOk(Abs())
      ensures var core := old(mapInfo)[nId].core;
        ViewOf(Abs()) == ViewOf(old(Abs()))[core.svc.net := Peer(core, false, {})]
    {
      hide Partial, RandomOk, IdsOk, TriedOk, FreshOk, RefsOk, CountsOk, TimesOk, Table, ViewOf, Cells;
      Parts(h, Abs(), {}, 0);
      RemoveFromNew(nId);
      Parts(h, Abs(), {nId}, 0);
      CountedKeeps(h, Abs(), {nId}, 0, -1);
      nNew := nNew - 1;
      Parts(h, Abs(), {nId}, 1);
    }

    /** Move an entry from the "new" table to the "tried" one. */
    method MakeTried(nId: int)
      requires Valid() && nId in mapInfo && !mapInfo[nId].fInTried && mapInfo[nId].core.nLastSuccess > 0
      modifies this, vvNew, vvTried
      ensures Valid() && nKey == old(nKey)
      ensures var a := old(mapInfo)[nId].core.svc.net;
        a in old(Peers()) && Peers() == MakeTriedView(h, nKey, old(Peers()), a)
    {
      hide Partial, RandomOk, IdsOk, TriedOk, FreshOk, RefsOk, CountsOk, TimesOk, Table, EvictedView, MakeTriedView, ViewOf, Cells;
      ghost var s0 := Abs();
      Parts(h, s0, {}, 0);
      LeaveNew(nId);
      ghost var s := Abs();
      Parts(h, s, {nId}, 1);

      var nKBucket := TriedBucket(h, nKey, mapInfo[nId].core.svc);
      var nKBucketPos := Position(h, nKey, false, nKBucket, mapInfo[nId].core.svc);
      Occupied(nKBucket, nKBucketPos);
      if vvTried[nKBucket, nKBucketPos] != -1 {
        EvictTried(nKBucket, nKBucketPos, nId);
      }
      Occupied(nKBucket, nKBucketPos);
      assert vvTried[nKBucket, nKBucketPos] == -1;
      EntersTried(h, Abs(), nId);
      EnterTried(nId, nKBucket, nKBucketPos);
      Parts(h, Abs(), {}, 0);
      MakeTriedViewIs(h, s0, s, nId, ViewOf(Abs()));
    }

    method EnterTried(nId: int, b: int, p: int)
      requires Shaped() && 0 <= b < TRIED_BUCKET_COUNT && 0 <= p < BUCKET_SIZE
      requires 0 <= nId && nId in mapInfo
      modifies this, vvTried
      ensures Abs() == Promoted(old(Abs()), (b, p), nId)
    {
      SetTried(b, p, nId);
      nTried := nTried + 1;
      mapInfo := mapInfo[nId := mapInfo[nId].(fInTried := true)];
    }

    /** Replace what is known about an entry, not its place. */
    method UpdateCore(nId: int, core: Core)
      requires Valid() && nId in mapInfo && core.svc == mapInfo[nId].core.svc
      requires core.nLastTry >= 0 && core.nLastSuccess >= 0
      requires mapInfo[nId].fInTried ==> core.nLastSuccess > 0
      modifies this`mapInfo
      ensures Valid() && nId in mapInfo && mapInfo[nId] == old(mapInfo)[nId].(core := core)
      ensures core.svc.net in old(Peers())
      ensures Peers() == old(Peers())[core.svc.net := old(Peers())[core.svc.net].(core := core)]
    {
      hide Partial, RandomOk, IdsOk, TriedOk, FreshOk, RefsOk, CountsOk, TimesOk, Table;
      ghost var s := Abs();
      Parts(h, s, {}, 0);
      WithCoreKeeps(h, s, {}, 0, nId, core);
      PeerAt(s, nId);
      mapInfo := mapInfo[nId := mapInfo[nId].(core := core)];
      assert Abs() == WithCore(s, nId, core);
      Parts(h, Abs(), {}, 0);
    }

    /** The peer answered: it becomes "tried" unless it was already. */
    method Good(addr: Service, nTime: int, nRnd: nat)
      requires Valid() && nTime > 0
      modifies this, vvNew, vvTried
      ensures Valid() && nKey == old(nKey)
      ensures Peers() == GoodView(h, nKey, old(Peers()), addr, nTime)
    {
      hide Valid, Partial, RandomOk, IdsOk, TriedOk, FreshOk, RefsOk, CountsOk, TimesOk, Table, MakeTriedView;
      assert IdsOk(Abs()) by { Index(); }
      var found, nId := Find(addr.net);
      if !found {
        assert addr.net !in Peers() by { Index(); }
        return;
      }
      KnownPeer(Abs(), addr.net);
      if mapInfo[nId].core.svc != addr {
        return;
      }
      var core := mapInfo[nId].core.(nLastSuccess := nTime, nLastTry := nTime, nAttempts := 0);
      UpdateCore(nId, core);
      if mapInfo[nId].fInTried {
        return;
      }
      var nUBucket := FindBucket(nId, nRnd);
      if nUBucket == -1 {
        assert false;
        return;
      }
      MakeTried(nId);
    }

    /** The search of `Good_`: it never comes back empty-handed. */
    method FindBucket(nId: int, nRnd: nat) returns (nUBucket: int)
      requires Valid() && nId in mapInfo && !mapInfo[nId].fInTried
      ensures 0 <= nUBucket < NEW_BUCKET_COUNT
      ensures vvNew[nUBucket, Position(h, nKey, true, nUBucket, mapInfo[nId].core.svc)] == nId
    {
      hide Partial, RandomOk, IdsOk, TriedOk, FreshOk, RefsOk, CountsOk, TimesOk, Table;
      Parts(h, Abs(), {}, 0);
      ghost var b := SomeBucket(h, Abs(), nId);
      var svc := mapInfo[nId].core.svc;
      Vacant(b, Position(h, nKey, true, b, svc));
      hide Position;
      ghost var m := WrapAround(b, nRnd);
      nUBucket := -1;
      for n := 0 to NEW_BUCKET_COUNT
        invariant nUBucket == -1 && n <= m
      {
        var nB := (n + nRnd) % NEW_BUCKET_COUNT;
        var nBpos := PositionAt(true, nB, svc);
        if vvNew[nB, nBpos] == nId {
          nUBucket := nB;
          break;
        }
      }
    }

    function PositionAt(isNew: bool, bucket: int, svc: Service): (p: int)
      reads this
      ensures 0 <= p < BUCKET_SIZE && p == Position(h, nKey, isNew, bucket, svc)
    {
      Position(h, nKey, isNew, bucket, svc)
    }

    method Attempt(addr: Service, nTime: int)
      requires Valid() && nTime >= 0
      modifies this
      ensures Valid() && nKey == old(nKey)
      ensures Peers() == AttemptView(old(Peers()), addr, nTime)
    {
      hide Valid, Partial, RandomOk, IdsOk, TriedOk, FreshOk, RefsOk, CountsOk, TimesOk, Table;
      assert IdsOk(Abs()) by { Index(); }
      var found, nId := Find(addr.net);
      if !found {
        assert addr.net !in Peers() by { Index(); }
        return;
      }
      KnownPeer(Abs(), addr.net);
      if mapInfo[nId].core.svc != addr {
        return;
      }
      KnownTimes(nId);
      UpdateCore(nId, mapInfo[nId].core.(nLastTry := nTime, nAttempts := mapInfo[nId].core.nAttempts + 1));
    }

    method Connected(addr: Service, nTime: int)
      requires Valid()
      modifies this
      ensures Valid() && nKey == old(nKey)
      ensures Peers() == ConnectedView(old(Peers()), addr, nTime)
    {
      hide Valid, Partial, RandomOk, IdsOk, TriedOk, FreshOk, RefsOk, CountsOk, TimesOk, Table;
      assert IdsOk(Abs()) by { Index(); }
      var found, nId := Find(addr.net);
      if !found {
        assert addr.net !in Peers() by { Index(); }
        return;
      }
      KnownPeer(Abs(), addr.net);
      if mapInfo[nId].core.svc != addr {
        return;
      }
      KnownTimes(nId);
      var nUpdateInterval := 20 * 60;
      if nTime - mapInfo[nId].core.nTime > nUpdateInterval {
        UpdateCore(nId, mapInfo[nId].core.(nTime := nTime % UINT32));
      }
    }

    lemma Index()
      requires Valid()
      ensures IdsOk(Abs()) && RandomOk(Abs())
      ensures Peers().Keys == mapAddr.Keys
      ensures forall a :: a in mapAddr ==> mapAddr[a] in mapInfo
    {
    }

    /** The second half of `Add_`: the entry tries to take its home cell. */
    method InsertNew(nId: int, source: NetAddr, now: int, ghost limbo: set<int>)
      requires Shaped() && Partial(h, Abs(), limbo, 0) && limbo <= {nId}
      requires nId in mapInfo && !mapInfo[nId].fInTried && mapInfo[nId].nRefCount < NEW_BUCKETS_PER_ADDRESS
      modifies this, vvNew
      ensures Valid() && nKey == old(nKey)
      ensures var a := old(mapInfo)[nId].core.svc.net;
        && IdsOk(old(Abs())) && a in ViewOf(old(Abs()))
        && Peers() == InsertView(h, nKey, ViewOf(old(Abs())), a, source, now)
    {
      hide Partial, RandomOk, IdsOk, TriedOk, FreshOk, RefsOk, CountsOk, TimesOk, Table, Yields, PlacedView, Cleared, Placed;
      ghost var s := Abs();
      var svc := mapInfo[nId].core.svc;
      var nUBucket := NewBucket(h, nKey, svc, source);
      var nUBucketPos := PositionAt(true, nUBucket, svc);
      ghost var c := (nUBucket, nUBucketPos);
      Vacant(nUBucket, nUBucketPos);
      InsertFacts(h, s, limbo, nId, c);
      if vvNew[nUBucket, nUBucketPos] != nId {
        YieldsIs(s, c, |Cells(s, nId)|, now);
        var fInsert := vvNew[nUBucket, nUBucketPos] == -1;
        if !fInsert {
          var existing := mapInfo[vvNew[nUBucket, nUBucketPos]];
          if IsTerrible(existing.core, now) || (existing.nRefCount > 1 && mapInfo[nId].nRefCount == 0) {
            fInsert := true;
          }
        }
        if fInsert {
          Inserts(h, s, limbo, nUBucket, nId);
          ClearNew(nUBucket, nUBucketPos, limbo);
          PutReference(nId, nUBucket, nUBucketPos);
          Parts(h, Abs(), {}, 0);
        } else {
          if mapInfo[nId].nRefCount == 0 {
            GivesUp(h, s, limbo, nId);
            Delete(nId);
            Parts(h, Abs(), {}, 0);
          } else {
            NotInLimbo(h, s, limbo, nId);
          }
        }
      } else {
        NotInLimbo(h, s, limbo, nId);
      }
    }

    method PutReference(nId: int, nUBucket: int, nUBucketPos: int)
      requires Shaped() && 0 <= nUBucket < NEW_BUCKET_COUNT && 0 <= nUBucketPos < BUCKET_SIZE
      requires 0 <= nId && nId in mapInfo
      modifies this`mapInfo, vvNew
      ensures Abs() == Placed(old(Abs()), (nUBucket, nUBucketPos), nId) && nKey == old(nKey)
    {
      mapInfo := mapInfo[nId := mapInfo[nId].(nRefCount := mapInfo[nId].nRefCount + 1)];
      SetNew(nUBucket, nUBucketPos, nId);
    }

    /** An address is reported by `source`; `draw` is the random number of the stochastic test. */
    method Add(addr: Address, routable: bool, source: NetAddr, nTimePenalty: int, now: int, draw: nat)
      returns (fNew: bool)
      requires Valid()
      modifies this, vvNew
      ensures Valid() && nKey == old(nKey)
      ensures (Peers(), fNew) ==
        if routable then AddView(h, nKey, old(Peers()), addr, source, nTimePenalty, now, draw)
        else (old(Peers()), false)
    {
      hide Valid, Partial, RandomOk, IdsOk, TriedOk, FreshOk, RefsOk, CountsOk, TimesOk, Table, InsertView, Refreshed, Falls, Pow;
      fNew := false;
      if !routable {
        return;
      }
      assert IdsOk(Abs()) by { Index(); }
      ghost var v := Peers();
      var found, nId := Find(addr.svc.net);
      if found {
        KnownPeer(Abs(), addr.svc.net);
        KnownTimes(nId);
        var info := mapInfo[nId];
        var refreshed := SeenAgain(info.core, addr, nTimePenalty, now);
        UpdateCore(nId, refreshed);
        assert IdsOk(Abs()) by { Index(); }
        AsPartial(nId);
        ghost var p := v[addr.svc.net].(core := refreshed);
        assert Peers() == v[addr.svc.net := p];
        if addr.nTime == 0 || (mapInfo[nId].core.nTime != 0 && addr.nTime <= mapInfo[nId].core.nTime) {
          return;
        }
        if mapInfo[nId].fInTried {
          return;
        }
        if mapInfo[nId].nRefCount == NEW_BUCKETS_PER_ADDRESS {
          return;
        }
        var nFactor := Factor(mapInfo[nId].nRefCount);
        TestFails(draw, mapInfo[nId].nRefCount);
        if nFactor > 1 && RandomInt(draw, nFactor) != 0 {
          return;
        }
        InsertNew(nId, source, now, {});
      } else {
        assert addr.svc.net !in mapAddr by { Index(); }
        nId := CreateNew(addr, source, nTimePenalty);
        fNew := true;
        InsertNew(nId, source, now, {nId});
      }
    }

    /** The time and services of a known entry after it is reported again. */
    method SeenAgain(core: Core, addr: Address, nTimePenalty: int, now: int) returns (r: Core)
      ensures r == Refreshed(core, addr, nTimePenalty, now)
      ensures r.svc == core.svc && r.nLastTry == core.nLastTry && r.nLastSuccess == core.nLastSuccess
    {
      hide Penalised;
      r := core;
      var fCurrentlyOnline := now - addr.nTime < 24 * 60 * 60;
      var nUpdateInterval := if fCurrentlyOnline then 60 * 60 else 24 * 60 * 60;
      if addr.nTime != 0 && (r.nTime == 0 || r.nTime < addr.nTime - nUpdateInterval - nTimePenalty) {
        r := r.(nTime := Penalised(addr.nTime, nTimePenalty));
      }
      r := r.(services := r.services + addr.services);
    }

    lemma TestFails(draw: nat, nRefCount: nat)
      ensures var nFactor := Pow(2, nRefCount); nFactor > 0 && (nFactor > 1 && RandomInt(draw, nFactor) != 0 <==> !Falls(draw, nRefCount))
    {
      PowPositive(2, nRefCount);
    }

    /** Two to the power of the reference count: how much rarer one more reference is. */
    method Factor(nRefCount: nat) returns (nFactor: nat)
      ensures nFactor == Pow(2, nRefCount)
    {
      nFactor := 1;
      for n := 0 to nRefCount
        invariant nFactor == Pow(2, n)
      {
        nFactor := nFactor * 2;
      }
    }

    /** `Create` and the bookkeeping after it: a counted entry in no table yet. */
    method CreateNew(addr: Address, source: NetAddr, nTimePenalty: int) returns (nId: int)
      requires Valid() && addr.svc.net !in mapAddr
      modifies this
      ensures Shaped() && Partial(h, Abs(), {nId}, 0) && nKey == old(nKey)
      ensures nId in mapInfo && mapInfo[nId].core == NewCore(addr, source, nTimePenalty)
      ensures !mapInfo[nId].fInTried && mapInfo[nId].nRefCount == 0
      ensures IdsOk(Abs())
      ensures ViewOf(Abs()) == old(Peers())[addr.svc.net := Peer(NewCore(addr, source, nTimePenalty), false, {})]
    {
      hide Partial, RandomOk, IdsOk, TriedOk, FreshOk, RefsOk, CountsOk, TimesOk, Table, Penalised;
      ghost var s := Abs();
      Parts(h, s, {}, 0);
      Creates(h, s, addr, source, Penalised(addr.nTime, nTimePenalty));
      nId := Create(addr, source);
      mapInfo := mapInfo[nId := mapInfo[nId].(core := mapInfo[nId].core.(nTime := Penalised(mapInfo[nId].core.nTime, nTimePenalty)))];
      nNew := nNew + 1;
      ghost var t := Created(s, addr, source);
      assert Abs() == WithCore(t, nId, t.info[nId].core.(nTime := Penalised(addr.nTime, nTimePenalty))).(nNew := s.nNew + 1);
    }

    lemma AsPartial(nId: int)
      requires Valid() && nId in mapInfo
      ensures Shaped() && Partial(h, Abs(), {}, 0)
      ensures |Cells(Abs(), nId)| == mapInfo[nId].nRefCount <= NEW_BUCKETS_PER_ADDRESS
      ensures !mapInfo[nId].fInTried ==> mapInfo[nId].nRefCount > 0
    {
    }

    /**
     A random sample of the peers that are not terrible: each at most once, and as
     many as there are up to the limit.  The order `vRandom` is shuffled on the way.
     */
    method GetAddr(rand: nat -> nat, now: int) returns (vAddr: seq<Address>, ghost told: set<NetAddr>)
      requires Valid()
      modifies this
      ensures Valid() && Peers() == old(Peers()) && nKey == old(nKey)
      ensures Tells(Peers(), vAddr, told) && told <= Presentable(Peers(), now)
      ensures |vAddr| <= 2500 && 100 * |vAddr| <= 23 * |Peers()|
      ensures told == Presentable(Peers(), now) || |vAddr| == 2500 || 100 * (|vAddr| + 1) > 23 * |Peers()|
    {
      hide Valid, RandomOk, IdsOk, Table, IsTerrible, ViewOf, Tells, Told;
      assert RandomOk(Abs()) && IdsOk(Abs()) by { Index(); }
      ghost var v := Peers();
      AllListed(Abs());
      var nNodes := 23 * |vRandom| / 100;
      if nNodes > 2500 {
        nNodes := 2500;
      }
      vAddr, told := [], {};
      assert Tells(v, [], {}) && Told(Abs(), 0, now) == {} by { NobodyTold(Abs(), v, now); }
      for n := 0 to |vRandom|
        invariant |vRandom| == |v| && Valid() && nKey == old(nKey)
        invariant IdsOk(Abs()) && RandomOk(Abs()) && Peers() == v
        invariant Tells(v, vAddr, told) && |vAddr| <= nNodes
        invariant told == Told(Abs(), n, now)
      {
        if |vAddr| >= nNodes {
          ToldArePresentable(Abs(), n, now);
          return;
        }
        var nRndPos := RandomInt(rand(n), |vRandom| - n) + n;
        Shuffle(n, nRndPos, now);
        ToldNext(Abs(), n, now);
        var ai := mapInfo[vRandom[n]];
        if !IsTerrible(ai.core, now) {
          TellsOneMore(v, vAddr, told, ai.core.svc.net);
          vAddr := vAddr + [AddressOf(ai.core)];
          told := told + {ai.core.svc.net};
        }
      }
      ToldAll(Abs(), now);
    }

    function RandomInt(draw: nat, nMax: int): (r: int)
      requires nMax > 0
      ensures 0 <= r < nMax
    {
      draw % nMax
    }

    /** One exchange in the random order, above the part already told. */
    method Shuffle(n: int, nRndPos: int, ghost now: int)
      requires Valid() && RandomOk(Abs()) && IdsOk(Abs()) && 0 <= n <= nRndPos < |vRandom|
      modifies this
      ensures Valid() && RandomOk(Abs()) && IdsOk(Abs()) && Peers() == old(Peers())
      ensures nKey == old(nKey) && |vRandom| == old(|vRandom|)
      ensures Told(Abs(), n, now) == Told(old(Abs()), n, now)
    {
      hide Partial, RandomOk, IdsOk, TriedOk, FreshOk, RefsOk, CountsOk, TimesOk, Table, ViewOf, Told;
      ghost var s := Abs();
      SwappedKeeps(h, s, {}, 0, n, nRndPos);
      Parts(h, Swapped(s, n, nRndPos), {}, 0);
      ToldSwapped(s, n, nRndPos, now);
      SwapRandom(n, nRndPos);
    }

    /** Reset the tables, the counters and the key; the two maps of entries are not emptied. */
    method Clear(key: Key)
      requires Shaped()
      modifies this, vvNew, vvTried
      ensures Abs() == State(key, 0, old(mapInfo), old(mapAddr), [], 0, map[], 0, map[])
      ensures Valid() <==> old(mapInfo) == map[] && old(mapAddr) == map[]
    {
      vRandom := [];
      nKey := key;
      forall b, p | 0 <= b < NEW_BUCKET_COUNT && 0 <= p < BUCKET_SIZE {
        vvNew[b, p] := -1;
      }
      forall b, p | 0 <= b < TRIED_BUCKET_COUNT && 0 <= p < BUCKET_SIZE {
        vvTried[b, p] := -1;
      }
      nIdCount, nTried, nNew := 0, 0, 0;
      assert Table(vvNew) == map[] && Table(vvTried) == map[];
      BlankIsConsistent(h, Abs());
    }

    lemma KnownTimes(nId: int)
      requires Valid() && nId in mapInfo
      ensures mapInfo[nId].core.nLastTry >= 0 && mapInfo[nId].core.nLastSuccess >= 0
      ensures mapInfo[nId].fInTried ==> mapInfo[nId].core.nLastSuccess > 0
    {
    }
  }

  lemma WrapAround(b: int, r: nat) returns (m: int)
    requires 0 <= b < NEW_BUCKET_COUNT
    ensures 0 <= m < NEW_BUCKET_COUNT && (m + r) % NEW_BUCKET_COUNT == b
  {
    m := (b - r) % NEW_BUCKET_COUNT;
    var q := (b - r) / NEW_BUCKET_COUNT;
    QuotientRemainder(b - r, NEW_BUCKET_COUNT);
    assert (-q) * NEW_BUCKET_COUNT == -(q * NEW_BUCKET_COUNT);
    DivIs(m + r, NEW_BUCKET_COUNT, -q, b);
  }

  lemma PeerAt(s: State, id: int)
    requires IdsOk(s) && id in s.info
    ensures var a := s.info[id].core.svc.net; a in ViewOf(s) && ViewOf(s)[a] == PeerOf(s, id)
  {
  }

  /** The presentable peers among the first `n` of the random order. */
  ghost function Told(s: State, n: int, now: int): set<NetAddr>
    requires RandomOk(s) && 0 <= n <= |s.rnd|
  {
    set i | 0 <= i < n && !IsTerrible(s.info[s.rnd[i]].core, now) :: s.info[s.rnd[i]].core.svc.net
  }

  lemma NobodyTold(s: State, v: View, now: int)
    requires RandomOk(s)
    ensures Tells(v, [], {}) && Told(s, 0, now) == {}
  {
  }

  lemma TellsOneMore(v: View, answer: seq<Address>, told: set<NetAddr>, a: NetAddr)
    requires Tells(v, answer, told) && a in v && v[a].core.svc.net == a && a !in told
    ensures Tells(v, answer + [AddressOf(v[a].core)], told + {a})
  {
  }

  lemma ToldArePresentable(s: State, n: int, now: int)
    requires RandomOk(s) && IdsOk(s) && 0 <= n <= |s.rnd|
    ensures Told(s, n, now) <= Presentable(ViewOf(s), now)
  {
    forall a | a in Told(s, n, now)
      ensures a in Presentable(ViewOf(s), now)
    {
      var i :| 0 <= i < n && !IsTerrible(s.info[s.rnd[i]].core, now) && s.info[s.rnd[i]].core.svc.net == a;
      PeerAt(s, s.rnd[i]);
    }
  }

  lemma ToldAll(s: State, now: int)
    requires RandomOk(s) && IdsOk(s)
    ensures Told(s, |s.rnd|, now) == Presentable(ViewOf(s), now)
  {
    ToldArePresentable(s, |s.rnd|, now);
    forall a | a in Presentable(ViewOf(s), now)
      ensures a in Told(s, |s.rnd|, now)
    {
      KnownPeer(s, a);
      var id := s.ids[a];
      var i := s.info[id].nRandomPos;
      assert s.rnd[i] == id;
    }
  }

  lemma ToldNext(s: State, n: int, now: int)
    requires RandomOk(s) && IdsOk(s) && 0 <= n < |s.rnd|
    ensures s.rnd[n] in s.info
    ensures var core := s.info[s.rnd[n]].core;
      && Told(s, n + 1, now) == (if IsTerrible(core, now) then Told(s, n, now) else Told(s, n, now) + {core.svc.net})
      && core.svc.net !in Told(s, n, now)
      && core.svc.net in ViewOf(s) && ViewOf(s)[core.svc.net].core == core
  {
    var core := s.info[s.rnd[n]].core;
    PeerAt(s, s.rnd[n]);
    forall i | 0 <= i < n
      ensures s.info[s.rnd[i]].core.svc.net != core.svc.net
    {
      assert s.info[s.rnd[i]].nRandomPos != s.info[s.rnd[n]].nRandomPos;
      PeerAt(s, s.rnd[i]);
      assert s.ids[core.svc.net] == s.rnd[n];
    }
    var next := if IsTerrible(core, now) then Told(s, n, now) else Told(s, n, now) + {core.svc.net};
    forall a | a in Told(s, n + 1, now)
      ensures a in next
    {
      var i :| 0 <= i < n + 1 && !IsTerrible(s.info[s.rnd[i]].core, now) && s.info[s.rnd[i]].core.svc.net == a;
      assert i == n || a in Told(s, n, now);
    }
    forall a | a in next
      ensures a in Told(s, n + 1, now)
    {
      if a in Told(s, n, now) {
        var i :| 0 <= i < n && !IsTerrible(s.info[s.rnd[i]].core, now) && s.info[s.rnd[i]].core.svc.net == a;
        assert i < n + 1;
      }
    }
  }

  lemma ToldSwapped(s: State, n: int, j: int, now: int)
    requires RandomOk(s) && 0 <= n <= j < |s.rnd|
    requires RandomOk(Swapped(s, n, j))
    ensures Told(Swapped(s, n, j), n, now) == Told(s, n, now)
  {
    SwappedReorders(s, n, j);
    var t := Swapped(s, n, j);
    assert forall i :: 0 <= i < n ==> t.rnd[i] == s.rnd[i] && t.info[t.rnd[i]].core == s.info[s.rnd[i]].core;
  }

  /** There are as many entries in `vRandom` as peers. */
  lemma AllListed(s: State)
    requires RandomOk(s) && IdsOk(s)
    ensures |s.rnd| == |ViewOf(s)|
  {
    var addrs := seq(|s.rnd|, i requires 0 <= i < |s.rnd| => s.info[s.rnd[i]].core.svc.net);
    forall i, j | 0 <= i < j < |s.rnd|
      ensures addrs[i] != addrs[j]
    {
      assert s.info[s.rnd[i]].nRandomPos != s.info[s.rnd[j]].nRandomPos;
      PeerAt(s, s.rnd[i]);
      PeerAt(s, s.rnd[j]);
      assert s.ids[addrs[i]] == s.rnd[i] && s.ids[addrs[j]] == s.rnd[j];
    }
    forall a | a in ViewOf(s)
      ensures a in addrs
    {
      KnownPeer(s, a);
      assert addrs[s.info[s.ids[a]].nRandomPos] == a;
    }
    forall a | a in addrs
      ensures a in ViewOf(s)
    {
      var i :| 0 <= i < |addrs| && addrs[i] == a;
      PeerAt(s, s.rnd[i]);
    }
    DistinctCount(addrs, ViewOf(s).Keys);
  }

  /** A list without repetitions is as long as the set of its elements is large. */
  lemma {:induction false} DistinctCount<T>(xs: seq<T>, s: set<T>)
    requires forall i, j :: 0 <= i < j < |xs| ==> xs[i] != xs[j]
    requires forall x :: x in s <==> x in xs
    ensures |s| == |xs|
  {
    if xs == [] {
      assert s == {};
    } else {
      var last := xs[|xs| - 1];
      assert last in xs;
      DistinctCount(xs[..|xs| - 1], s - {last});
    }
  }

  /** With nothing in the tables, only an empty pair of maps is consistent. */
  lemma BlankIsConsistent(h: Hashes, s: State)
    requires s == State(s.key, 0, s.info, s.ids, [], 0, map[], 0, map[])
    ensures Consistent(h, s) <==> s.info == map[] && s.ids == map[]
  {
    if s.info == map[] && s.ids == map[] {
      assert TriedIds(s) == {} && NewIds(s) == {};
    }
    if Consistent(h, s) {
      assert forall id :: id !in s.info;
      assert forall a :: a !in s.ids;
      assert s.info == map[] && s.ids == map[];
    }
  }
}
