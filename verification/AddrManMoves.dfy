/**
 The two composite moves of the address manager, as sequences of primitive
 steps: eviction from the "tried" table back to the "new" one, and insertion
 into the "new" table.  Each lemma follows one path through the code.
 */
module AddrManMoves {
  import opened AddrManState
  import opened AddrManSteps
  import opened AddrManSpec

  /** After the eviction target has left the "tried" table it is in no table. */
  lemma {:induction false} EvictedLeaves(h: Hashes, s: State, k: Cell, id: int)
    requires Partial(h, s, {id}, 1) && k in s.triedAt
    requires id in s.info && !s.info[id].fInTried && s.info[id].nRefCount == 0
    ensures var e, t := s.triedAt[k], Untried(s, k);
      && e != id && e in s.info && 0 <= e && s.info[e].fInTried && k == TriedCell(h, s.key, s.info[e].core.svc)
      && Partial(h, t, {id, e}, 2)
      && e !in t.newAt.Values && id !in t.newAt.Values
      && t.info[e].nRefCount == 0 && Cells(t, e) == {}
      && t.info[id] == s.info[id]
      && ViewOf(t) == ViewOf(s)[s.info[e].core.svc.net := PeerOf(s, e).(tried := false)]
  {
    hide Partial, RandomOk, TriedOk, IdsOk, FreshOk, RefsOk, CountsOk, TimesOk;
    TriedHolder(h, s, {id}, 1, k);
    var e, t := s.triedAt[k], Untried(s, k);
    UntriedKeeps(h, s, {id}, 1, k);
    assert {id} + {e} == {id, e};
    Parts(h, t, {id, e}, 2);
    NoReferences(t, {id, e}, e);
    NoReferences(t, {id, e}, id);
  }

  lemma TriedHolder(h: Hashes, s: State, limbo: set<int>, pending: int, k: Cell)
    requires Partial(h, s, limbo, pending) && k in s.triedAt
    ensures var e := s.triedAt[k];
      0 <= e && e in s.info && s.info[e].fInTried && k == TriedCell(h, s.key, s.info[e].core.svc)
  {
  }

  /** The evicted peer finds its home cell emptied. */
  lemma {:induction false} EvictedClears(h: Hashes, s: State, e: int, id: int)
    requires e != id && Partial(h, s, {id, e}, 2)
    requires e in s.info && id in s.info
    requires e !in s.newAt.Values && id !in s.newAt.Values
    ensures var c := HomeCell(h, s.key, s.info[e].core.svc, s.info[e].core.source);
      var t := Cleared(s, c);
      && Partial(h, t, {id, e}, 2) && c !in t.newAt && t.triedAt == s.triedAt && t.key == s.key
      && ViewOf(t) == ClearedView(ViewOf(s), c)
      && e in t.info && t.info[e] == s.info[e].(nRandomPos := t.info[e].nRandomPos)
      && id in t.info && t.info[id] == s.info[id].(nRandomPos := t.info[id].nRandomPos)
      && t.newAt.Values <= s.newAt.Values
  {
    hide Partial, TriedOk, IdsOk, RefsOk, CountsOk, TimesOk;
    var c := HomeCell(h, s.key, s.info[e].core.svc, s.info[e].core.source);
    assert c in s.newAt ==> s.newAt[c] in s.newAt.Values;
    ClearedKeeps(h, s, {id, e}, 2, c);
    Parts(h, s, {id, e}, 2);
    ClearedTouches(h, s, c);
  }

  /** The evicted peer enters its home cell and is counted again. */
  lemma {:induction false} EvictedEnters(h: Hashes, s: State, e: int, id: int)
    requires e != id && Partial(h, s, {id, e}, 2)
    requires e in s.info && !s.info[e].fInTried && s.info[e].nRefCount == 0
    requires HomeCell(h, s.key, s.info[e].core.svc, s.info[e].core.source) !in s.newAt
    ensures var c := HomeCell(h, s.key, s.info[e].core.svc, s.info[e].core.source);
      var t := Placed(s, c, e).(nNew := s.nNew + 1);
      && Partial(h, t, {id}, 1)
      && ViewOf(t) == ViewOf(s)[s.info[e].core.svc.net := Peer(s.info[e].core, false, {c})]
  {
    hide Partial, RandomOk, TriedOk, IdsOk, FreshOk, RefsOk, CountsOk, TimesOk;
    var b := NewBucket(h, s.key, s.info[e].core.svc, s.info[e].core.source);
    var c := NewCell(h, s.key, b, s.info[e].core.svc);
    PlacedKeeps(h, s, {id, e}, 2, b, e);
    assert {id, e} - {e} == {id};
    Parts(h, s, {id, e}, 2);
    NoReferences(s, {id, e}, e);
    assert {} + {c} == {c};
    CountedKeeps(h, Placed(s, c, e), {id}, 2, 1);
  }

  lemma EvictedViewIs(h: Hashes, key: Key, v: View, b: NetAddr, core: Core, w: View)
    requires b in v && v[b] == Peer(core, true, {})
    requires var c := HomeCell(h, key, core.svc, core.source);
      w == ClearedView(v[b := v[b].(tried := false)], c)[b := Peer(core, false, {c})]
    ensures w == EvictedView(h, key, v, b)
  {
  }

  /** An entry with room for one more reference takes a cell that is not its own. */
  lemma {:induction false} Inserts(h: Hashes, s: State, limbo: set<int>, bucket: int, id: int)
    requires Partial(h, s, limbo, 0) && limbo <= {id}
    requires id in s.info && !s.info[id].fInTried && s.info[id].nRefCount < NEW_BUCKETS_PER_ADDRESS
    requires 0 <= bucket < NEW_BUCKET_COUNT
    requires var c := NewCell(h, s.key, bucket, s.info[id].core.svc); c in s.newAt ==> s.newAt[c] != id
    ensures var c := NewCell(h, s.key, bucket, s.info[id].core.svc);
      var t := Cleared(s, c);
      && id in t.info && t.info[id] == s.info[id].(nRandomPos := t.info[id].nRandomPos)
      && Partial(h, Placed(t, c, id), {}, 0)
      && s.info[id].core.svc.net in ViewOf(s)
      && ViewOf(Placed(t, c, id)) == PlacedView(ViewOf(s), s.info[id].core.svc.net, c)
  {
    hide Partial, TriedOk, RefsOk, CountsOk, TimesOk;
    var c := NewCell(h, s.key, bucket, s.info[id].core.svc);
    Parts(h, s, limbo, 0);
    var t := Cleared(s, c);
    ClearedKeeps(h, s, limbo, 0, c);
    Parts(h, t, limbo, 0);
    ClearedTouches(h, s, c);
    PlacedKeeps(h, t, limbo, 0, bucket, id);
    assert limbo - {id} == {};
    PlacedViewIs(s, t, id, c);
  }

  lemma PlacedViewIs(s: State, t: State, id: int, c: Cell)
    requires IdsOk(s) && IdsOk(t) && id in s.info && id in t.info
    requires t.info[id].core == s.info[id].core && t.info[id].fInTried == s.info[id].fInTried
    requires c in s.newAt ==> s.newAt[c] != id
    requires t.newAt == s.newAt - {c}
    ensures s.info[id].core.svc.net in ViewOf(s)
    ensures ViewOf(s)[s.info[id].core.svc.net].cells + {c} == Cells(t, id) + {c}
    ensures PeerOf(t, id).(cells := Cells(t, id) + {c}) == PeerOf(s, id).(cells := Cells(s, id) + {c})
  {
    assert Cells(t, id) == Cells(s, id);
  }

  lemma EvictedShows(h: Hashes, s: State, k: Cell, e: int)
    requires IdsOk(s) && TriedOk(h, s) && FreshOk(h, s) && k in s.triedAt && s.triedAt[k] == e
    ensures e in s.info
    ensures var a := s.info[e].core.svc.net;
      && HoldsTried(h, s.key, ViewOf(s), a, k)
      && ViewOf(s)[a] == PeerOf(s, e) == Peer(s.info[e].core, true, {})
  {
    NoCells(h, s, e);
  }

  lemma PlacedSpares(s: State, c: Cell, e: int, id: int)
    requires e in s.info && id in s.info && e != id
    ensures Placed(s, c, e).info[id] == s.info[id]
    ensures Placed(s, c, e).key == s.key && Placed(s, c, e).triedAt == s.triedAt
    ensures Placed(s, c, e).info.Keys == s.info.Keys
  {
  }

  /** Who stands in a cell of the "tried" table is determined by the view. */
  lemma TriedHolderIsUnique(h: Hashes, s: State, b: NetAddr, k: Cell)
    requires IdsOk(s) && TriedOk(h, s) && HoldsTried(h, s.key, ViewOf(s), b, k)
    ensures k in s.triedAt && s.triedAt[k] in s.info && s.info[s.triedAt[k]].core.svc.net == b
  {
    assert s.ids[b] in s.info;
  }

  /** The view after the whole of `MakeTried`, put together. */
  lemma MakeTriedViewIs(h: Hashes, s0: State, s: State, id: int, w: View)
    requires IdsOk(s0) && id in s0.info && IdsOk(s) && TriedOk(h, s) && s.key == s0.key
    requires var a := s0.info[id].core.svc.net;
      ViewOf(s) == ViewOf(s0)[a := Peer(s0.info[id].core, false, {})]
    requires var a := s0.info[id].core.svc.net;
      var k := TriedCell(h, s.key, s0.info[id].core.svc);
      if k in s.triedAt then
        exists b :: HoldsTried(h, s.key, ViewOf(s), b, k) && w == EvictedView(h, s.key, ViewOf(s), b)[a := Peer(s0.info[id].core, true, {})]
      else w == ViewOf(s)[a := Peer(s0.info[id].core, true, {})]
    requires !s0.info[id].fInTried
    ensures s0.info[id].core.svc.net in ViewOf(s0)
    ensures w == MakeTriedView(h, s0.key, ViewOf(s0), s0.info[id].core.svc.net)
  {
    var v, a := ViewOf(s0), s0.info[id].core.svc.net;
    var k := TriedCell(h, s.key, s0.info[id].core.svc);
    assert v[a] == PeerOf(s0, id);
    assert v[a := v[a].(cells := {})] == ViewOf(s);
    forall b, b' | HoldsTried(h, s.key, ViewOf(s), b, k) && HoldsTried(h, s.key, ViewOf(s), b', k)
      ensures b == b'
    {
      TriedHolderIsUnique(h, s, b, k);
      TriedHolderIsUnique(h, s, b', k);
    }
    if k !in s.triedAt {
      forall b ensures !HoldsTried(h, s.key, ViewOf(s), b, k) {
        if HoldsTried(h, s.key, ViewOf(s), b, k) {
          TriedHolderIsUnique(h, s, b, k);
          assert false;
        }
      }
    }
  }

  lemma {:induction false} EntersTried(h: Hashes, s: State, id: int)
    requires Partial(h, s, {id}, 1) && id in s.info && !s.info[id].fInTried && s.info[id].nRefCount == 0
    requires s.info[id].core.nLastSuccess > 0
    requires TriedCell(h, s.key, s.info[id].core.svc) !in s.triedAt
    ensures var k := TriedCell(h, s.key, s.info[id].core.svc);
      && Partial(h, Promoted(s, k, id), {}, 0)
      && 0 <= id
      && ViewOf(Promoted(s, k, id)) == ViewOf(s)[s.info[id].core.svc.net := Peer(s.info[id].core, true, {})]
  {
    hide Partial, RandomOk, TriedOk, IdsOk, FreshOk, RefsOk, CountsOk, TimesOk;
    PromotedKeeps(h, s, {id}, 1, id);
    Parts(h, s, {id}, 1);
    NoReferences(s, {id}, id);
    assert {id} - {id} == {};
    KnownId(s, id);
  }

  lemma KnownId(s: State, id: int)
    requires IdsOk(s) && id in s.info
    ensures 0 <= id
  {
  }

  /** An untried entry stands in some bucket, at its hashed position there. */
  lemma SomeBucket(h: Hashes, s: State, id: int) returns (b: int)
    requires RefsOk(s, {}) && FreshOk(h, s) && id in s.info && !s.info[id].fInTried
    ensures 0 <= b < NEW_BUCKET_COUNT
    ensures var c := NewCell(h, s.key, b, s.info[id].core.svc); c in s.newAt && s.newAt[c] == id
  {
    assert Cells(s, id) != {};
    var c :| c in Cells(s, id);
    assert c in s.newAt && s.newAt[c] == id;
    b := c.0;
  }

  lemma KnownPeer(s: State, a: NetAddr)
    requires IdsOk(s) && a in s.ids
    ensures a in ViewOf(s) && s.ids[a] in s.info && s.info[s.ids[a]].core.svc.net == a
    ensures ViewOf(s)[a] == PeerOf(s, s.ids[a])
    ensures ViewOf(s).Keys == s.ids.Keys
  {
  }

  /** Whether a cell may be overwritten, read off the table. */
  lemma YieldsIs(s: State, c: Cell, refs: nat, now: int)
    requires IdsOk(s) && (c in s.newAt ==> s.newAt[c] in s.info)
    ensures Yields(ViewOf(s), c, refs, now) <==>
      (c in s.newAt ==>
         IsTerrible(s.info[s.newAt[c]].core, now) || (|Cells(s, s.newAt[c])| > 1 && refs == 0))
  {
    var v := ViewOf(s);
    HolderIsUnique(s, c);
    if c in s.newAt {
      var e := s.newAt[c];
      var b := s.info[e].core.svc.net;
      assert b in v && v[b] == PeerOf(s, e) && c in v[b].cells;
    }
  }

  /** What `Add_` finds in the cell it aims at. */
  lemma InsertFacts(h: Hashes, s: State, limbo: set<int>, id: int, c: Cell)
    requires Partial(h, s, limbo, 0) && id in s.info
    ensures IdsOk(s) && RandomOk(s) && FreshOk(h, s) && RefsOk(s, limbo)
    ensures var a := s.info[id].core.svc.net; a in ViewOf(s) && ViewOf(s)[a] == PeerOf(s, id)
    ensures 0 <= id && |Cells(s, id)| == s.info[id].nRefCount
    ensures (Cells(s, id) == {}) == (s.info[id].nRefCount == 0)
    ensures c in Cells(s, id) <==> c in s.newAt && s.newAt[c] == id
    ensures c in s.newAt ==> s.newAt[c] in s.info && |Cells(s, s.newAt[c])| == s.info[s.newAt[c]].nRefCount
  {
  }

  lemma NotInLimbo(h: Hashes, s: State, limbo: set<int>, id: int)
    requires Partial(h, s, limbo, 0) && limbo <= {id} && id in s.info
    requires s.info[id].nRefCount > 0
    ensures Partial(h, s, {}, 0)
  {
  }

  lemma {:induction false} GivesUp(h: Hashes, s: State, limbo: set<int>, id: int)
    requires Partial(h, s, limbo, 0) && limbo <= {id} && id in s.info
    requires !s.info[id].fInTried && s.info[id].nRefCount == 0
    ensures RandomOk(s) && IdsOk(s) && Partial(h, Deleted(s, id), {}, 0)
    ensures ViewOf(Deleted(s, id)) == ViewOf(s) - {s.info[id].core.svc.net}
    ensures Deleted(s, id).key == s.key
  {
    hide Partial, TriedOk, IdsOk, FreshOk, RefsOk, CountsOk, TimesOk;
    Parts(h, s, limbo, 0);
    DeletedKeeps(h, s, limbo, 0, id);
    assert limbo - {id} == {};
  }

  lemma CreatedPeer(h: Hashes, s: State, limbo: set<int>, pending: int, id: int)
    requires Partial(h, s, limbo, pending) && id in s.info && s.info[id].nRefCount == 0 && !s.info[id].fInTried
    ensures PeerOf(s, id) == Peer(s.info[id].core, false, {})
  {
    NoReferences(s, limbo, id);
  }

  /** A new entry in no table yet: its time is set and it is counted. */
  lemma {:induction false} NewcomerCounted(h: Hashes, t: State, id: int, core: Core, w: State)
    requires Partial(h, t, {id}, 1) && id in t.info && !t.info[id].fInTried && t.info[id].nRefCount == 0
    requires core == t.info[id].core.(nTime := core.nTime)
    requires t.info[id].core.nLastTry == 0 && t.info[id].core.nLastSuccess == 0
    requires w == WithCore(t, id, core).(nNew := t.nNew + 1)
    ensures IdsOk(t) && Partial(h, w, {id}, 0) && IdsOk(w)
    ensures ViewOf(w) == ViewOf(t)[core.svc.net := Peer(core, false, {})]
  {
    hide Partial, RandomOk, IdsOk, TriedOk, FreshOk, RefsOk, CountsOk, TimesOk, ViewOf, PeerOf, Cells;
    Parts(h, t, {id}, 1);
    WithCoreKeeps(h, t, {id}, 1, id, core);
    CreatedPeer(h, t, {id}, 1, id);
    CountedKeeps(h, WithCore(t, id, core), {id}, 1, 1);
    Parts(h, w, {id}, 0);
  }

  /** The path of a new address: created, its time penalised, counted. */
  lemma {:induction false} Creates(h: Hashes, s: State, addr: Address, source: NetAddr, nTime: nat)
    requires Partial(h, s, {}, 0) && addr.svc.net !in s.ids
    ensures IdsOk(s) && 0 <= s.nIdCount
    ensures var id, t := s.nIdCount, Created(s, addr, source);
      var core := t.info[id].core.(nTime := nTime);
      var w := WithCore(t, id, core).(nNew := s.nNew + 1);
      && Partial(h, w, {id}, 0) && IdsOk(w)
      && ViewOf(w) == ViewOf(s)[addr.svc.net := Peer(core, false, {})]
  {
    hide Partial, RandomOk, IdsOk, TriedOk, FreshOk, RefsOk, CountsOk, TimesOk, ViewOf, Cells;
    var id, t := s.nIdCount, Created(s, addr, source);
    Parts(h, s, {}, 0);
    CreatedKeeps(h, s, {}, 0, addr, source);
    assert {} + {id} == {id};
    var core := t.info[id].core.(nTime := nTime);
    NewcomerCounted(h, t, id, core, WithCore(t, id, core).(nNew := s.nNew + 1));
    CountFrom(s);
  }

  lemma CountFrom(s: State)
    requires IdsOk(s)
    ensures 0 <= s.nIdCount && s.nIdCount !in s.info
  {
  }
}
