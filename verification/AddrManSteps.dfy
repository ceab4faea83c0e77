/**
 What every primitive step of the address manager keeps, and what it does to
 the view.
 */
module AddrManSteps {
  import opened AddrManState

  // ---------------------------------------------------------------- steps that touch one entry

  /** `t` differs from `s` in the entry of `id` and in the cells that hold `id`. */
  ghost predicate OnlyAt(s: State, t: State, id: int) {
    && t.rnd == s.rnd && t.ids == s.ids && t.nIdCount == s.nIdCount && t.key == s.key
    && id in s.info && t.info.Keys == s.info.Keys
    && t.info[id].core.svc == s.info[id].core.svc
    && t.info[id].nRandomPos == s.info[id].nRandomPos
    && (forall i :: i in s.info && i != id ==> t.info[i] == s.info[i])
    && (forall i :: i != id ==> Cells(t, i) == Cells(s, i))
  }

  lemma OnlyAtKeepsRandom(s: State, t: State, id: int)
    requires RandomOk(s) && OnlyAt(s, t, id)
    ensures RandomOk(t)
  {
  }

  lemma OnlyAtKeepsIds(s: State, t: State, id: int)
    requires IdsOk(s) && OnlyAt(s, t, id)
    ensures IdsOk(t)
    ensures ViewOf(t) == ViewOf(s)[s.info[id].core.svc.net := PeerOf(t, id)]
  {
    hide Cells, IdsOk;
    assert forall i :: i in s.info ==> t.info[i].core.svc == s.info[i].core.svc;
    IdsFromSvc(s, t);
    hide OnlyAt;
    OnlyAtShows(s, t, id);
  }

  lemma OnlyAtShows(s: State, t: State, id: int)
    requires IdsOk(s) && IdsOk(t) && OnlyAt(s, t, id)
    ensures ViewOf(t) == ViewOf(s)[s.info[id].core.svc.net := PeerOf(t, id)]
  {
    hide Cells, IdsOk;
    NetOf(s, id);
    forall a | a in s.ids && s.ids[a] != id
      ensures ViewOf(t)[a] == ViewOf(s)[a]
    {
      IdOf(s, a);
    }
  }

  lemma IdsFromSvc(s: State, t: State)
    requires IdsOk(s) && t.ids == s.ids && t.nIdCount == s.nIdCount && t.info.Keys == s.info.Keys
    requires forall i :: i in s.info ==> t.info[i].core.svc == s.info[i].core.svc
    ensures IdsOk(t)
  {
    forall i | i in t.info
      ensures 0 <= i < t.nIdCount && t.info[i].core.svc.net in t.ids && t.ids[t.info[i].core.svc.net] == i
    {
      assert i in s.info;
    }
    forall a | a in t.ids
      ensures t.ids[a] in t.info && t.info[t.ids[a]].core.svc.net == a
    {
      assert s.ids[a] in s.info;
    }
  }

  lemma NetOf(s: State, id: int)
    requires IdsOk(s) && id in s.info
    ensures s.info[id].core.svc.net in s.ids && s.ids[s.info[id].core.svc.net] == id
    ensures forall a :: a in s.ids && s.ids[a] == id ==> a == s.info[id].core.svc.net
  {
  }

  lemma IdOf(s: State, a: NetAddr)
    requires IdsOk(s) && a in s.ids
    ensures s.ids[a] in s.info && s.info[s.ids[a]].core.svc.net == a
  {
  }

  lemma OnlyAtKeepsRefs(s: State, t: State, id: int, limbo: set<int>)
    requires RefsOk(s, limbo) && OnlyAt(s, t, id)
    requires t.info[id].nRefCount == |Cells(t, id)| <= NEW_BUCKETS_PER_ADDRESS
    ensures RefsOk(t, limbo + {id})
    ensures t.info[id].fInTried || t.info[id].nRefCount > 0 ==> RefsOk(t, limbo - {id})
  {
  }

  lemma OnlyAtKeepsTimes(s: State, t: State, id: int)
    requires TimesOk(s) && OnlyAt(s, t, id)
    requires t.info[id].core.nLastTry >= 0 && t.info[id].core.nLastSuccess >= 0
    requires t.info[id].fInTried ==> t.info[id].core.nLastSuccess > 0
    ensures TimesOk(t)
  {
    forall i | i in t.info
      ensures && t.info[i].core.nLastTry >= 0 && t.info[i].core.nLastSuccess >= 0
              && (t.info[i].fInTried ==> t.info[i].core.nLastSuccess > 0)
    {
      assert i in s.info;
    }
  }

  lemma OnlyAtKeepsTables(h: Hashes, s: State, t: State, id: int)
    requires TriedOk(h, s) && FreshOk(h, s) && OnlyAt(s, t, id)
    requires t.info[id].fInTried == s.info[id].fInTried && t.triedAt == s.triedAt
    requires t.newAt == s.newAt
    ensures TriedOk(h, t) && FreshOk(h, t)
    ensures TriedIds(t) == TriedIds(s) && NewIds(t) == NewIds(s)
  {
    OnlyAtKeepsKinds(s, t, id);
    forall i | i in s.info
      ensures t.info[i].core.svc == s.info[i].core.svc && t.info[i].fInTried == s.info[i].fInTried
    {
    }
  }

  lemma OnlyAtKeepsKinds(s: State, t: State, id: int)
    requires OnlyAt(s, t, id) && t.info[id].fInTried == s.info[id].fInTried
    ensures TriedIds(t) == TriedIds(s) && NewIds(t) == NewIds(s)
  {
    forall i ensures i in TriedIds(t) <==> i in TriedIds(s) {}
    forall i ensures i in NewIds(t) <==> i in NewIds(s) {}
  }

  lemma OnlyAtKeepsCounts(s: State, t: State, id: int, pending: int)
    requires OnlyAt(s, t, id) && t.info[id].fInTried == s.info[id].fInTried
    requires CountsOk(s, pending) && t.nNew == s.nNew && t.nTried == s.nTried
    ensures CountsOk(t, pending)
  {
    hide OnlyAt;
    OnlyAtKeepsKinds(s, t, id);
  }

  lemma NoCells(h: Hashes, s: State, id: int)
    requires FreshOk(h, s)
    requires id !in s.info || s.info[id].fInTried
    ensures Cells(s, id) == {}
  {
  }

  lemma {:induction false} WithCoreKeeps(h: Hashes, s: State, limbo: set<int>, pending: int, id: int, core: Core)
    requires Partial(h, s, limbo, pending) && id in s.info
    requires core.svc == s.info[id].core.svc
    requires core.nLastTry >= 0 && core.nLastSuccess >= 0
    requires s.info[id].fInTried ==> core.nLastSuccess > 0
    ensures var t := WithCore(s, id, core);
      && Partial(h, t, limbo, pending)
      && ViewOf(t) == ViewOf(s)[core.svc.net := PeerOf(s, id).(core := core)]
  {
    var t := WithCore(s, id, core);
    forall i ensures Cells(t, i) == Cells(s, i) {}
    assert OnlyAt(s, t, id);
    OnlyAtKeepsRandom(s, t, id);
    OnlyAtKeepsIds(s, t, id);
    OnlyAtKeepsTables(h, s, t, id);
    OnlyAtKeepsTimes(s, t, id);
    WithCoreKeepsRefs(s, limbo, id, core);
  }

  lemma WithCoreKeepsRefs(s: State, limbo: set<int>, id: int, core: Core)
    requires RefsOk(s, limbo) && id in s.info
    ensures RefsOk(WithCore(s, id, core), limbo)
  {
    var t := WithCore(s, id, core);
    forall i ensures Cells(t, i) == Cells(s, i) {}
  }

  lemma DroppedKeepsTables(h: Hashes, s: State, c: Cell)
    requires TriedOk(h, s) && FreshOk(h, s) && c in s.newAt
    requires OnlyAt(s, Dropped(s, c), s.newAt[c])
    ensures TriedOk(h, Dropped(s, c)) && FreshOk(h, Dropped(s, c))
  {
    var t := Dropped(s, c);
    forall i | i in s.info
      ensures t.info[i].core.svc == s.info[i].core.svc && t.info[i].fInTried == s.info[i].fInTried
    {
    }
  }

  lemma DroppedIsOnlyAt(h: Hashes, s: State, limbo: set<int>, c: Cell)
    requires FreshOk(h, s) && RefsOk(s, limbo) && c in s.newAt
    ensures s.newAt[c] in s.info && !s.info[s.newAt[c]].fInTried && s.info[s.newAt[c]].nRefCount > 0
    ensures var id, t := s.newAt[c], Dropped(s, c);
      && OnlyAt(s, t, id) && Cells(t, id) == Cells(s, id) - {c}
      && t.info[id].nRefCount == |Cells(t, id)| <= NEW_BUCKETS_PER_ADDRESS
      && (t.info[id].nRefCount == 0 <==> Cells(s, id) == {c})
  {
    var id, t := s.newAt[c], Dropped(s, c);
    assert c in Cells(s, id);
    assert Cells(t, id) == Cells(s, id) - {c};
    forall i | i != id ensures Cells(t, i) == Cells(s, i) {}
    assert Cells(s, id) == Cells(t, id) + {c};
    assert Cells(t, id) == {} <==> |Cells(t, id)| == 0;
  }

  lemma {:induction false} DroppedKeeps(h: Hashes, s: State, limbo: set<int>, pending: int, c: Cell)
    requires Partial(h, s, limbo, pending) && c in s.newAt
    ensures var id, t := s.newAt[c], Dropped(s, c);
      && s.info[id].nRefCount > 0
      && Partial(h, t, limbo + {id}, pending)
      && (t.info[id].nRefCount > 0 ==> Partial(h, t, limbo - {id}, pending))
      && Cells(t, id) == Cells(s, id) - {c}
      && (t.info[id].nRefCount == 0 <==> Cells(s, id) == {c})
      && ViewOf(t) == ViewOf(s)[s.info[id].core.svc.net :=
                                  PeerOf(s, id).(cells := Cells(s, id) - {c})]
  {
    hide RandomOk, IdsOk, TriedOk, FreshOk, RefsOk, CountsOk, TimesOk, OnlyAt, Cells, ViewOf, TriedIds, NewIds;
    DroppedIsOnlyAt(h, s, limbo, c);
    var id, t := s.newAt[c], Dropped(s, c);
    OnlyAtKeepsRandom(s, t, id);
    OnlyAtKeepsIds(s, t, id);
    OnlyAtKeepsCounts(s, t, id, pending);
    DroppedKeepsTables(h, s, c);
    KnownTimes(s, id);
    OnlyAtKeepsTimes(s, t, id);
    OnlyAtKeepsRefs(s, t, id, limbo);
  }

  lemma KnownTimes(s: State, id: int)
    requires TimesOk(s) && id in s.info
    ensures s.info[id].core.nLastTry >= 0 && s.info[id].core.nLastSuccess >= 0
    ensures s.info[id].fInTried ==> s.info[id].core.nLastSuccess > 0
  {
  }

  /** A cell is never held by an entry without references, or by a tried one. */
  lemma DroppedFacts(h: Hashes, s: State, c: Cell, limbo: set<int>)
    requires RandomOk(s) && FreshOk(h, s) && RefsOk(s, limbo) && c in s.newAt
    ensures s.newAt[c] in s.info && s.info[s.newAt[c]].nRefCount > 0 && !s.info[s.newAt[c]].fInTried
    ensures RandomOk(Dropped(s, c))
  {
    assert c in Cells(s, s.newAt[c]);
  }

  lemma PlacedKeepsTables(h: Hashes, s: State, c: Cell, id: int)
    requires TriedOk(h, s) && FreshOk(h, s)
    requires id in s.info && !s.info[id].fInTried && c !in s.newAt
    requires 0 <= c.0 < NEW_BUCKET_COUNT && c == NewCell(h, s.key, c.0, s.info[id].core.svc)
    ensures TriedOk(h, Placed(s, c, id)) && FreshOk(h, Placed(s, c, id))
  {
    var t := Placed(s, c, id);
    forall i | i in s.info
      ensures t.info[i].core.svc == s.info[i].core.svc && t.info[i].fInTried == s.info[i].fInTried
    {
    }
  }

  lemma PlacedIsOnlyAt(s: State, limbo: set<int>, c: Cell, id: int)
    requires RefsOk(s, limbo) && c !in s.newAt && id in s.info && s.info[id].nRefCount < NEW_BUCKETS_PER_ADDRESS
    ensures var t := Placed(s, c, id);
      && OnlyAt(s, t, id) && Cells(t, id) == Cells(s, id) + {c}
      && t.info[id].nRefCount == |Cells(t, id)| <= NEW_BUCKETS_PER_ADDRESS
      && t.info[id].nRefCount > 0
  {
    var t := Placed(s, c, id);
    assert c !in Cells(s, id);
    assert Cells(t, id) == Cells(s, id) + {c};
    forall i | i != id ensures Cells(t, i) == Cells(s, i) {}
  }

  lemma {:induction false} PlacedKeeps(h: Hashes, s: State, limbo: set<int>, pending: int, bucket: int, id: int)
    requires Partial(h, s, limbo, pending)
    requires id in s.info && !s.info[id].fInTried && s.info[id].nRefCount < NEW_BUCKETS_PER_ADDRESS
    requires 0 <= bucket < NEW_BUCKET_COUNT
    requires NewCell(h, s.key, bucket, s.info[id].core.svc) !in s.newAt
    ensures var c := NewCell(h, s.key, bucket, s.info[id].core.svc);
      var t := Placed(s, c, id);
      && Partial(h, t, limbo - {id}, pending)
      && ViewOf(t) == ViewOf(s)[s.info[id].core.svc.net :=
                                  PeerOf(s, id).(cells := Cells(s, id) + {c})]
  {
    hide RandomOk, IdsOk, TriedOk, FreshOk, RefsOk, CountsOk, TimesOk, OnlyAt, Cells, ViewOf, TriedIds, NewIds;
    var c := NewCell(h, s.key, bucket, s.info[id].core.svc);
    var t := Placed(s, c, id);
    PlacedIsOnlyAt(s, limbo, c, id);
    OnlyAtKeepsRandom(s, t, id);
    OnlyAtKeepsIds(s, t, id);
    OnlyAtKeepsCounts(s, t, id, pending);
    PlacedKeepsTables(h, s, c, id);
    KnownTimes(s, id);
    OnlyAtKeepsTimes(s, t, id);
    OnlyAtKeepsRefs(s, t, id, limbo);
  }

  lemma UntriedKeepsTables(h: Hashes, s: State, c: Cell)
    requires TriedOk(h, s) && FreshOk(h, s) && c in s.triedAt
    ensures TriedOk(h, Untried(s, c)) && FreshOk(h, Untried(s, c))
    ensures TriedIds(Untried(s, c)) == TriedIds(s) - {s.triedAt[c]}
    ensures NewIds(Untried(s, c)) == NewIds(s) + {s.triedAt[c]}
  {
    var id, t := s.triedAt[c], Untried(s, c);
    forall i | i in s.info
      ensures t.info[i].core.svc == s.info[i].core.svc
      ensures t.info[i].fInTried == (s.info[i].fInTried && i != id)
    {
    }
  }

  lemma UntriedIsOnlyAt(h: Hashes, s: State, limbo: set<int>, c: Cell)
    requires TriedOk(h, s) && FreshOk(h, s) && RefsOk(s, limbo) && c in s.triedAt
    ensures s.triedAt[c] in s.info && s.info[s.triedAt[c]].fInTried
    ensures var id, t := s.triedAt[c], Untried(s, c);
      && OnlyAt(s, t, id) && Cells(t, id) == Cells(s, id)
      && t.info[id].nRefCount == |Cells(t, id)| == 0
  {
    var id, t := s.triedAt[c], Untried(s, c);
    NoCells(h, s, id);
    forall i ensures Cells(t, i) == Cells(s, i) {}
  }

  lemma {:induction false} UntriedKeeps(h: Hashes, s: State, limbo: set<int>, pending: int, c: Cell)
    requires Partial(h, s, limbo, pending) && c in s.triedAt
    ensures var id, t := s.triedAt[c], Untried(s, c);
      && s.info[id].fInTried && t.info[id].nRefCount == 0
      && Partial(h, t, limbo + {id}, pending + 1)
      && ViewOf(t) == ViewOf(s)[s.info[id].core.svc.net := PeerOf(s, id).(tried := false)]
  {
    hide RandomOk, IdsOk, TriedOk, FreshOk, RefsOk, TimesOk, OnlyAt, Cells, ViewOf, TriedIds, NewIds;
    UntriedIsOnlyAt(h, s, limbo, c);
    var id, t := s.triedAt[c], Untried(s, c);
    OnlyAtKeepsRandom(s, t, id);
    OnlyAtKeepsIds(s, t, id);
    UntriedKeepsTables(h, s, c);
    KindOf(s, id);
    KnownTimes(s, id);
    OnlyAtKeepsTimes(s, t, id);
    OnlyAtKeepsRefs(s, t, id, limbo);
  }

  lemma KindOf(s: State, id: int)
    requires id in s.info
    ensures id in TriedIds(s) <==> s.info[id].fInTried
    ensures id in NewIds(s) <==> !s.info[id].fInTried
  {
  }

  lemma PromotedKeepsTables(h: Hashes, s: State, id: int)
    requires TriedOk(h, s) && FreshOk(h, s)
    requires id in s.info && !s.info[id].fInTried && Cells(s, id) == {}
    requires TriedCell(h, s.key, s.info[id].core.svc) !in s.triedAt
    ensures var c := TriedCell(h, s.key, s.info[id].core.svc);
      var t := Promoted(s, c, id);
      && TriedOk(h, t) && FreshOk(h, t)
      && TriedIds(t) == TriedIds(s) + {id} && NewIds(t) == NewIds(s) - {id}
  {
    var c := TriedCell(h, s.key, s.info[id].core.svc);
    var t := Promoted(s, c, id);
    assert forall d :: d in s.newAt && s.newAt[d] == id ==> d in Cells(s, id);
    forall i | i in s.info
      ensures t.info[i].core.svc == s.info[i].core.svc
      ensures t.info[i].fInTried == (s.info[i].fInTried || i == id)
    {
    }
  }

  lemma PromotedIsOnlyAt(s: State, limbo: set<int>, c: Cell, id: int)
    requires RefsOk(s, limbo) && id in s.info && s.info[id].nRefCount == 0
    ensures Cells(s, id) == {}
    ensures var t := Promoted(s, c, id);
      && OnlyAt(s, t, id) && Cells(t, id) == {}
      && t.info[id].nRefCount == |Cells(t, id)| == 0
  {
    var t := Promoted(s, c, id);
    forall i ensures Cells(t, i) == Cells(s, i) {}
  }

  lemma {:induction false} PromotedKeeps(h: Hashes, s: State, limbo: set<int>, pending: int, id: int)
    requires Partial(h, s, limbo, pending)
    requires id in s.info && !s.info[id].fInTried && s.info[id].nRefCount == 0
    requires s.info[id].core.nLastSuccess > 0
    requires TriedCell(h, s.key, s.info[id].core.svc) !in s.triedAt
    ensures var c := TriedCell(h, s.key, s.info[id].core.svc);
      var t := Promoted(s, c, id);
      && Partial(h, t, limbo - {id}, pending - 1)
      && ViewOf(t) == ViewOf(s)[s.info[id].core.svc.net := PeerOf(s, id).(tried := true)]
  {
    hide RandomOk, IdsOk, TriedOk, FreshOk, RefsOk, TimesOk, OnlyAt, Cells, ViewOf, TriedIds, NewIds;
    var c := TriedCell(h, s.key, s.info[id].core.svc);
    var t := Promoted(s, c, id);
    PromotedIsOnlyAt(s, limbo, c, id);
    OnlyAtKeepsRandom(s, t, id);
    OnlyAtKeepsIds(s, t, id);
    PromotedKeepsTables(h, s, id);
    KindOf(s, id);
    KnownTimes(s, id);
    OnlyAtKeepsTimes(s, t, id);
    OnlyAtKeepsRefs(s, t, id, limbo);
  }

  // ---------------------------------------------------------------- steps that change the index

  lemma SwappedKeepsRandom(s: State, i: int, j: int)
    requires RandomOk(s) && 0 <= i < |s.rnd| && 0 <= j < |s.rnd|
    ensures RandomOk(Swapped(s, i, j))
    ensures Swapped(s, i, j).rnd[j] == s.rnd[i]
  {
  }

  /** `t` is `s` with another random order. */
  ghost predicate Reordered(s: State, t: State) {
    && t == s.(info := t.info, rnd := t.rnd)
    && t.info.Keys == s.info.Keys
    && |t.rnd| == |s.rnd|
    && (forall i :: i in s.info ==> t.info[i] == s.info[i].(nRandomPos := t.info[i].nRandomPos))
  }

  lemma ReorderedKeepsIds(s: State, t: State)
    requires IdsOk(s) && Reordered(s, t)
    ensures IdsOk(t) && ViewOf(t) == ViewOf(s)
  {
    forall i | i in t.info
      ensures 0 <= i < t.nIdCount && t.info[i].core.svc.net in t.ids && t.ids[t.info[i].core.svc.net] == i
    {
      assert i in s.info;
    }
    forall a | a in t.ids
      ensures t.ids[a] in t.info && t.info[t.ids[a]].core.svc.net == a && PeerOf(t, t.ids[a]) == PeerOf(s, s.ids[a])
    {
      assert s.ids[a] in s.info;
      assert Cells(t, t.ids[a]) == Cells(s, t.ids[a]);
    }
  }

  lemma ReorderedKeepsTables(h: Hashes, s: State, t: State)
    requires TriedOk(h, s) && FreshOk(h, s) && Reordered(s, t)
    ensures TriedOk(h, t) && FreshOk(h, t)
  {
    forall i | i in s.info
      ensures t.info[i].core.svc == s.info[i].core.svc && t.info[i].fInTried == s.info[i].fInTried
    {
    }
  }

  lemma ReorderedKeepsRest(s: State, t: State, limbo: set<int>, pending: int)
    requires RefsOk(s, limbo) && CountsOk(s, pending) && TimesOk(s) && Reordered(s, t)
    ensures RefsOk(t, limbo) && CountsOk(t, pending) && TimesOk(t)
  {
    forall i ensures Cells(t, i) == Cells(s, i) {}
    forall i ensures i in TriedIds(t) <==> i in TriedIds(s) {}
    forall i ensures i in NewIds(t) <==> i in NewIds(s) {}
    assert TriedIds(t) == TriedIds(s) && NewIds(t) == NewIds(s);
  }

  /** Reordering `vRandom` changes nothing else. */
  lemma {:induction false} SwappedKeeps(h: Hashes, s: State, limbo: set<int>, pending: int, i: int, j: int)
    requires Partial(h, s, limbo, pending)
    requires 0 <= i < |s.rnd| && 0 <= j < |s.rnd|
    ensures var t := Swapped(s, i, j);
      && Partial(h, t, limbo, pending)
      && Reordered(s, t) && ViewOf(t) == ViewOf(s)
  {
    var t := Swapped(s, i, j);
    SwappedKeepsRandom(s, i, j);
    SwappedReorders(s, i, j);
    ReorderedKeepsIds(s, t);
    ReorderedKeepsTables(h, s, t);
    ReorderedKeepsRest(s, t, limbo, pending);
  }

  lemma SwappedReorders(s: State, i: int, j: int)
    requires RandomOk(s) && 0 <= i < |s.rnd| && 0 <= j < |s.rnd|
    ensures Reordered(s, Swapped(s, i, j))
  {
  }

  lemma RemovedKeepsRandom(s: State)
    requires RandomOk(s) && |s.rnd| > 0
    ensures RandomOk(Removed(s))
  {
  }

  lemma LastIsKnown(s: State)
    requires RandomOk(s) && |s.rnd| > 0
    ensures s.rnd[|s.rnd| - 1] in s.info
  {
  }

  lemma RemovedKeepsIds(s: State)
    requires RandomOk(s) && IdsOk(s) && |s.rnd| > 0
    ensures IdsOk(Removed(s))
    ensures ViewOf(Removed(s)) == ViewOf(s) - {s.info[s.rnd[|s.rnd| - 1]].core.svc.net}
  {
    hide RandomOk, IdsOk, Cells;
    LastIsKnown(s);
    var id := s.rnd[|s.rnd| - 1];
    var t := Removed(s);
    NetOf(s, id);
    forall a | a in t.ids
      ensures t.ids[a] in t.info && t.info[t.ids[a]].core.svc.net == a && PeerOf(t, t.ids[a]) == PeerOf(s, s.ids[a])
    {
      IdOf(s, a);
      SameCells(s, t);
    }
    RemovedIdsOk(s, t, id);
    assert ViewOf(t) == ViewOf(s) - {s.info[id].core.svc.net};
  }

  lemma SameCells(s: State, t: State)
    requires t.newAt == s.newAt
    ensures forall i :: Cells(t, i) == Cells(s, i)
  {
    forall i ensures Cells(t, i) == Cells(s, i) {}
  }

  lemma RemovedIdsOk(s: State, t: State, id: int)
    requires IdsOk(s) && id in s.info
    requires t.info == s.info - {id} && t.ids == s.ids - {s.info[id].core.svc.net} && t.nIdCount == s.nIdCount
    ensures IdsOk(t)
  {
  }

  lemma RemovedKeepsTables(h: Hashes, s: State)
    requires TriedOk(h, s) && FreshOk(h, s) && |s.rnd| > 0
    requires var id := s.rnd[|s.rnd| - 1]; id in s.info && !s.info[id].fInTried && Cells(s, id) == {}
    ensures TriedOk(h, Removed(s)) && FreshOk(h, Removed(s))
  {
    var id := s.rnd[|s.rnd| - 1];
    assert forall c :: c in s.newAt && s.newAt[c] == id ==> c in Cells(s, id);
  }

  lemma RemovedKeepsRest(s: State, limbo: set<int>, pending: int)
    requires RandomOk(s) && |s.rnd| > 0 && !s.info[s.rnd[|s.rnd| - 1]].fInTried
    requires RefsOk(s, limbo) && CountsOk(s, pending) && TimesOk(s)
    ensures RefsOk(Removed(s), limbo - {s.rnd[|s.rnd| - 1]})
    ensures CountsOk(Removed(s), pending) && TimesOk(Removed(s))
  {
    var id, t := s.rnd[|s.rnd| - 1], Removed(s);
    forall i ensures Cells(t, i) == Cells(s, i) {}
    assert TriedIds(t) == TriedIds(s);
    assert NewIds(t) == NewIds(s) - {id};
  }

  lemma {:induction false} DeletedKeepsRandom(s: State, id: int)
    requires RandomOk(s) && id in s.info
    ensures var t := Deleted(s, id);
      RandomOk(t) && t.info.Keys == s.info.Keys - {id} && |t.rnd| == |s.rnd| - 1
    ensures forall i :: i in Deleted(s, id).info ==>
      Deleted(s, id).info[i] == s.info[i].(nRandomPos := Deleted(s, id).info[i].nRandomPos)
  {
    var t := SwappedLast(s, id);
    hide RandomOk, Swapped;
    RemovedKeepsRandom(t);
  }

  lemma PositionOf(s: State, id: int)
    requires RandomOk(s) && id in s.info
    ensures 0 <= s.info[id].nRandomPos < |s.rnd| && s.rnd[s.info[id].nRandomPos] == id
  {
  }

  /** `Delete` first brings the entry to the end of the random order. */
  lemma SwappedLast(s: State, id: int) returns (t: State)
    requires RandomOk(s) && id in s.info
    ensures t == Swapped(s, s.info[id].nRandomPos, |s.rnd| - 1)
    ensures RandomOk(t) && Reordered(s, t) && |t.rnd| > 0 && t.rnd[|t.rnd| - 1] == id
  {
    hide RandomOk, Swapped;
    PositionOf(s, id);
    t := Swapped(s, s.info[id].nRandomPos, |s.rnd| - 1);
    SwappedKeepsRandom(s, s.info[id].nRandomPos, |s.rnd| - 1);
    SwappedReorders(s, s.info[id].nRandomPos, |s.rnd| - 1);
  }

  lemma {:induction false} DeletedKeeps(h: Hashes, s: State, limbo: set<int>, pending: int, id: int)
    requires Partial(h, s, limbo, pending)
    requires id in s.info && !s.info[id].fInTried && s.info[id].nRefCount == 0
    ensures var t := Deleted(s, id);
      && Partial(h, t, limbo - {id}, pending)
      && ViewOf(t) == ViewOf(s) - {s.info[id].core.svc.net}
  {
    var t := SwappedLast(s, id);
    hide RandomOk, Swapped, IdsOk, TriedOk, FreshOk, RefsOk, CountsOk, TimesOk, ViewOf, Removed, Cells;
    ReorderedKeepsIds(s, t);
    ReorderedKeepsTables(h, s, t);
    ReorderedKeepsRest(s, t, limbo, pending);
    UnreferencedIsNowhere(t, limbo, id);
    RemovedKeepsRandom(t);
    RemovedKeepsIds(t);
    RemovedKeepsTables(h, t);
    RemovedKeepsRest(t, limbo, pending);
  }

  lemma UnreferencedIsNowhere(s: State, limbo: set<int>, id: int)
    requires RefsOk(s, limbo) && id in s.info && s.info[id].nRefCount == 0
    ensures Cells(s, id) == {}
  {
  }

  lemma CreatedKeepsRandom(s: State, addr: Address, source: NetAddr)
    requires RandomOk(s) && s.nIdCount !in s.info
    ensures RandomOk(Created(s, addr, source))
  {
  }

  lemma CreatedKeepsIds(h: Hashes, s: State, addr: Address, source: NetAddr)
    requires IdsOk(s) && FreshOk(h, s) && addr.svc.net !in s.ids
    ensures var id, t := s.nIdCount, Created(s, addr, source);
      && IdsOk(t)
      && ViewOf(t) == ViewOf(s)[addr.svc.net := Peer(t.info[id].core, false, {})]
  {
    var id, t := s.nIdCount, Created(s, addr, source);
    assert id !in s.info;
    NoCells(h, s, id);
    forall a | a in s.ids
      ensures t.ids[a] == s.ids[a] && t.info[t.ids[a]] == s.info[s.ids[a]]
    {
      assert s.ids[a] in s.info;
    }
    forall i | i in s.info
      ensures t.info[i] == s.info[i] && s.info[i].core.svc.net in s.ids
    {
    }
    assert IdsOk(t);
    forall i ensures Cells(t, i) == Cells(s, i) {}
    assert ViewOf(t) == ViewOf(s)[addr.svc.net := Peer(t.info[id].core, false, {})];
  }

  lemma CreatedKeepsTables(h: Hashes, s: State, addr: Address, source: NetAddr)
    requires s.nIdCount !in s.info && FreshOk(h, s) && TriedOk(h, s)
    ensures TriedOk(h, Created(s, addr, source)) && FreshOk(h, Created(s, addr, source))
  {
    hide TriedCell, NewCell;
  }

  lemma CreatedKeepsRest(h: Hashes, s: State, limbo: set<int>, pending: int, addr: Address, source: NetAddr)
    requires s.nIdCount !in s.info && FreshOk(h, s)
    requires RefsOk(s, limbo) && CountsOk(s, pending) && TimesOk(s)
    ensures var id, t := s.nIdCount, Created(s, addr, source);
      RefsOk(t, limbo + {id}) && CountsOk(t, pending + 1) && TimesOk(t)
  {
    var id, t := s.nIdCount, Created(s, addr, source);
    NoCells(h, s, id);
    hide FreshOk;
    SameCells(s, t);
    assert TriedIds(t) == TriedIds(s);
    assert NewIds(t) == NewIds(s) + {id};
  }

  lemma {:induction false} CreatedKeeps(h: Hashes, s: State, limbo: set<int>, pending: int, addr: Address, source: NetAddr)
    requires Partial(h, s, limbo, pending) && addr.svc.net !in s.ids
    ensures var id, t := s.nIdCount, Created(s, addr, source);
      && Partial(h, t, limbo + {id}, pending + 1)
      && ViewOf(t) == ViewOf(s)[addr.svc.net := Peer(t.info[id].core, false, {})]
  {
    CreatedKeepsRandom(s, addr, source);
    CreatedKeepsIds(h, s, addr, source);
    CreatedKeepsTables(h, s, addr, source);
    CreatedKeepsRest(h, s, limbo, pending, addr, source);
  }

  // ---------------------------------------------------------------- emptying a cell

  /** The peers after cell `c` of the "new" table is emptied. */
  function ClearedView(v: View, c: Cell): View {
    map a | a in v && v[a].cells != {c} :: v[a].(cells := v[a].cells - {c})
  }

  lemma HolderIsUnique(s: State, c: Cell)
    requires IdsOk(s)
    ensures forall a :: a in ViewOf(s) && c in ViewOf(s)[a].cells ==>
      c in s.newAt && s.ids[a] == s.newAt[c]
  {
  }

  lemma ClearedViewIs(s: State, c: Cell, w: View)
    requires IdsOk(s) && c in s.newAt && s.newAt[c] in s.info
    requires var id := s.newAt[c];
      var a := s.info[id].core.svc.net;
      w == if Cells(s, id) == {c} then ViewOf(s) - {a}
           else ViewOf(s)[a := PeerOf(s, id).(cells := Cells(s, id) - {c})]
    ensures w == ClearedView(ViewOf(s), c)
  {
    var v, id := ViewOf(s), s.newAt[c];
    var a := s.info[id].core.svc.net;
    HolderIsUnique(s, c);
    assert v[a] == PeerOf(s, id);
    forall b | b in v && b != a ensures v[b].cells - {c} == v[b].cells && v[b].cells != {c} {}
  }

  lemma ClearedViewOfEmpty(s: State, c: Cell)
    requires IdsOk(s) && c !in s.newAt
    ensures ClearedView(ViewOf(s), c) == ViewOf(s)
  {
    var v := ViewOf(s);
    HolderIsUnique(s, c);
    forall a | a in v
      ensures v[a].cells - {c} == v[a].cells && v[a].cells != {c}
    {
      assert c !in v[a].cells && c in {c};
    }
  }

  lemma {:induction false} ClearedLast(h: Hashes, s: State, t: State, limbo: set<int>, pending: int, c: Cell)
    requires IdsOk(s) && c in s.newAt && s.newAt[c] in s.info && s.newAt[c] !in limbo
    requires t == Dropped(s, c) && t.info[s.newAt[c]].nRefCount == 0 && !t.info[s.newAt[c]].fInTried
    requires Partial(h, t, limbo + {s.newAt[c]}, pending)
    requires var a := s.info[s.newAt[c]].core.svc.net; ViewOf(t) - {a} == ViewOf(s) - {a}
    ensures Partial(h, Deleted(t, s.newAt[c]), limbo, pending)
    ensures ViewOf(Deleted(t, s.newAt[c])) == ViewOf(s) - {s.info[s.newAt[c]].core.svc.net}
  {
    var id := s.newAt[c];
    DeletedKeeps(h, t, limbo + {id}, pending, id);
    assert limbo + {id} - {id} == limbo;
  }

  /** The holder loses its only reference. */
  lemma DroppedLastOne(h: Hashes, s: State, limbo: set<int>, pending: int, c: Cell)
    requires Partial(h, s, limbo, pending) && c in s.newAt && s.newAt[c] !in limbo
    requires IdsOk(s) && s.newAt[c] in s.info && IdsOk(Dropped(s, c))
    requires Dropped(s, c).info[s.newAt[c]].nRefCount == 0
    ensures var a := s.info[s.newAt[c]].core.svc.net; ViewOf(Dropped(s, c)) - {a} == ViewOf(s) - {a}
    ensures Partial(h, Dropped(s, c), limbo + {s.newAt[c]}, pending)
    ensures Cells(s, s.newAt[c]) == {c}
  {
    hide Partial, RandomOk, IdsOk, TriedOk, FreshOk, RefsOk, CountsOk, TimesOk, ViewOf, Deleted, Cells, Dropped, PeerOf;
    DroppedKeeps(h, s, limbo, pending, c);
  }

  /** The holder keeps other references. */
  lemma DroppedOneOfMany(h: Hashes, s: State, limbo: set<int>, pending: int, c: Cell)
    requires Partial(h, s, limbo, pending) && c in s.newAt && s.newAt[c] !in limbo
    requires IdsOk(s) && s.newAt[c] in s.info && IdsOk(Dropped(s, c))
    requires Dropped(s, c).info[s.newAt[c]].nRefCount > 0
    ensures Partial(h, Dropped(s, c), limbo, pending)
    ensures ViewOf(Dropped(s, c)) ==
      ViewOf(s)[s.info[s.newAt[c]].core.svc.net := PeerOf(s, s.newAt[c]).(cells := Cells(s, s.newAt[c]) - {c})]
    ensures Cells(s, s.newAt[c]) != {c}
  {
    hide Partial, RandomOk, IdsOk, TriedOk, FreshOk, RefsOk, CountsOk, TimesOk, ViewOf, Deleted, Cells, Dropped, PeerOf;
    DroppedKeeps(h, s, limbo, pending, c);
    assert limbo - {s.newAt[c]} == limbo;
  }

  lemma DroppedSpares(h: Hashes, s: State, limbo: set<int>, c: Cell)
    requires RandomOk(s) && IdsOk(s) && FreshOk(h, s) && RefsOk(s, limbo) && c in s.newAt
    ensures var id, t := s.newAt[c], Dropped(s, c);
      && id in s.info && IdsOk(t) && RandomOk(t)
      && id in t.info && t.info[id].core == s.info[id].core && !t.info[id].fInTried && t.info[id].nRefCount >= 0
  {
    DroppedIsOnlyAt(h, s, limbo, c);
    hide RandomOk, IdsOk, FreshOk, RefsOk;
    OnlyAtKeepsIds(s, Dropped(s, c), s.newAt[c]);
    OnlyAtKeepsRandom(s, Dropped(s, c), s.newAt[c]);
  }

  lemma {:induction false} ClearedKeepsPartial(h: Hashes, s: State, limbo: set<int>, pending: int, c: Cell)
    requires Partial(h, s, limbo, pending) && c in s.newAt && s.newAt[c] !in limbo
    ensures Partial(h, Cleared(s, c), limbo, pending)
    ensures var id, t := s.newAt[c], Cleared(s, c);
      ViewOf(t) ==
        if Cells(s, id) == {c} then ViewOf(s) - {s.info[id].core.svc.net}
        else ViewOf(s)[s.info[id].core.svc.net := PeerOf(s, id).(cells := Cells(s, id) - {c})]
  {
    hide Partial, RandomOk, IdsOk, TriedOk, FreshOk, RefsOk, CountsOk, TimesOk, ViewOf, Deleted, Cells, Dropped, PeerOf;
    Parts(h, s, limbo, pending);
    DroppedSpares(h, s, limbo, c);
    var t := Dropped(s, c);
    if t.info[s.newAt[c]].nRefCount == 0 {
      DroppedLastOne(h, s, limbo, pending, c);
      ClearedLast(h, s, t, limbo, pending, c);
    } else {
      DroppedOneOfMany(h, s, limbo, pending, c);
    }
  }

  /**
   Emptying a cell deletes the peer that stood there and nowhere else, and takes
   one reference from it otherwise; every other peer is untouched.
   */
  lemma {:induction false} ClearedKeeps(h: Hashes, s: State, limbo: set<int>, pending: int, c: Cell)
    requires Partial(h, s, limbo, pending)
    requires c in s.newAt ==> s.newAt[c] !in limbo
    ensures var t := Cleared(s, c);
      && Partial(h, t, limbo, pending)
      && ViewOf(t) == ClearedView(ViewOf(s), c)
  {
    if c in s.newAt {
      ClearedKeepsPartial(h, s, limbo, pending, c);
      ClearedViewIs(s, c, ViewOf(Cleared(s, c)));
    } else {
      ClearedViewOfEmpty(s, c);
    }
  }

  /** Emptying a cell leaves every entry but its holder as it was, up to the random order. */
  lemma {:induction false} ClearedTouches(h: Hashes, s: State, c: Cell)
    requires RandomOk(s) && FreshOk(h, s)
    ensures var t := Cleared(s, c);
      && t.triedAt == s.triedAt && t.newAt == s.newAt - {c} && t.key == s.key && t.nTried == s.nTried
      && (forall id :: id in s.info && !(c in s.newAt && s.newAt[c] == id) ==>
            id in t.info && t.info[id] == s.info[id].(nRandomPos := t.info[id].nRandomPos))
  {
    if c in s.newAt {
      var id, t := s.newAt[c], Dropped(s, c);
      DroppedKeepsOrder(h, s, c);
      if t.info[id].nRefCount == 0 {
        DeletedTouches(t, id);
      }
    } else {
      assert s.newAt - {c} == s.newAt;
    }
  }

  lemma DroppedKeepsOrder(h: Hashes, s: State, c: Cell)
    requires RandomOk(s) && FreshOk(h, s) && c in s.newAt
    ensures s.newAt[c] in s.info && RandomOk(Dropped(s, c))
  {
  }

  lemma DeletedTouches(s: State, id: int)
    requires RandomOk(s) && id in s.info
    ensures var t := Deleted(s, id);
      && t.triedAt == s.triedAt && t.newAt == s.newAt && t.key == s.key && t.nTried == s.nTried
      && (forall i :: i in s.info && i != id ==>
            i in t.info && t.info[i] == s.info[i].(nRandomPos := t.info[i].nRandomPos))
  {
    DeletedKeepsRandom(s, id);
    DeletedRest(s, id);
  }

  lemma DeletedRest(s: State, id: int)
    requires RandomOk(s) && id in s.info
    ensures var t := Deleted(s, id);
      t.triedAt == s.triedAt && t.newAt == s.newAt && t.key == s.key && t.nTried == s.nTried
  {
  }

  lemma Parts(h: Hashes, s: State, limbo: set<int>, pending: int)
    requires Partial(h, s, limbo, pending)
    ensures RandomOk(s) && IdsOk(s) && TriedOk(h, s) && FreshOk(h, s)
    ensures RefsOk(s, limbo) && CountsOk(s, pending) && TimesOk(s)
  {
  }

  lemma MoreLimbo(h: Hashes, s: State, limbo: set<int>, more: set<int>, pending: int)
    requires Partial(h, s, limbo, pending) && limbo <= more
    ensures Partial(h, s, more, pending)
  {
  }

  /** Counting a pending entry. */
  lemma CountedKeeps(h: Hashes, s: State, limbo: set<int>, pending: int, k: int)
    requires Partial(h, s, limbo, pending)
    ensures var t := s.(nNew := s.nNew + k);
      Partial(h, t, limbo, pending - k) && ViewOf(t) == ViewOf(s)
  {
    hide RandomOk, IdsOk, TriedOk, FreshOk, RefsOk, CountsOk, TimesOk, ViewOf;
    var t := s.(nNew := s.nNew + k);
    SameButCount(s, t);
    SameButCountTables(h, s, t, limbo);
    CountMoves(s, pending, k);
  }

  lemma SameButCount(s: State, t: State)
    requires RandomOk(s) && IdsOk(s) && TimesOk(s) && t == s.(nNew := t.nNew)
    ensures RandomOk(t) && IdsOk(t) && TimesOk(t) && ViewOf(t) == ViewOf(s)
  {
    assert forall i :: Cells(t, i) == Cells(s, i);
    hide RandomOk, TimesOk;
  }

  lemma SameButCountTables(h: Hashes, s: State, t: State, limbo: set<int>)
    requires TriedOk(h, s) && FreshOk(h, s) && RefsOk(s, limbo) && t == s.(nNew := t.nNew)
    ensures TriedOk(h, t) && FreshOk(h, t) && RefsOk(t, limbo)
  {
    hide TriedCell, NewCell;
    assert forall i :: Cells(t, i) == Cells(s, i);
  }

  lemma CountMoves(s: State, pending: int, k: int)
    requires CountsOk(s, pending)
    ensures CountsOk(s.(nNew := s.nNew + k), pending - k)
  {
    var t := s.(nNew := s.nNew + k);
    assert TriedIds(t) == TriedIds(s) && NewIds(t) == NewIds(s);
  }

  /** An entry without references is in no cell. */
  lemma NoReferences(s: State, limbo: set<int>, id: int)
    requires RefsOk(s, limbo) && id in s.info && s.info[id].nRefCount == 0
    ensures Cells(s, id) == {} && id !in s.newAt.Values
  {
    assert forall c :: c in s.newAt && s.newAt[c] == id ==> c in Cells(s, id);
  }

  // ---------------------------------------------------------------- leaving the "new" table

  /** `id` has left the buckets below `bucket`; nothing else has changed since `s0`. */
  ghost predicate Leaving(h: Hashes, s0: State, s: State, id: int, bucket: int)
    requires IdsOk(s0) && id in s0.info
  {
    && Partial(h, s, {id}, 0)
    && s.key == s0.key && s.triedAt == s0.triedAt
    && id in s.info && s.info[id] == s0.info[id].(nRefCount := s.info[id].nRefCount)
    && (forall c :: c in Cells(s, id) ==> c.0 >= bucket)
    && ViewOf(s) == ViewOf(s0)[s0.info[id].core.svc.net := PeerOf(s, id)]
  }

  lemma LeavingStarts(h: Hashes, s: State, id: int)
    requires Partial(h, s, {}, 0) && id in s.info
    ensures Leaving(h, s, s, id, 0)
  {
    MoreLimbo(h, s, {}, {id}, 0);
    assert forall c :: c in Cells(s, id) ==> c in s.newAt;
    assert ViewOf(s) == ViewOf(s)[s.info[id].core.svc.net := PeerOf(s, id)];
  }

  lemma LeavingIds(h: Hashes, s0: State, s: State, id: int, bucket: int)
    requires IdsOk(s0) && id in s0.info && Leaving(h, s0, s, id, bucket)
    ensures 0 <= id && id in s.info
  {
  }

  lemma LeavingSkips(h: Hashes, s0: State, s: State, id: int, bucket: int)
    requires IdsOk(s0) && id in s0.info && Leaving(h, s0, s, id, bucket)
    requires var c := NewCell(h, s.key, bucket, s.info[id].core.svc); c in s.newAt ==> s.newAt[c] != id
    ensures Leaving(h, s0, s, id, bucket + 1)
  {
    forall c | c in Cells(s, id) ensures c.0 != bucket {
      assert s.newAt[c] == id;
    }
  }

  lemma OneCellPerBucket(h: Hashes, s: State, id: int, bucket: int)
    requires FreshOk(h, s) && id in s.info
    ensures forall c :: c in Cells(s, id) && c.0 == bucket ==> c == NewCell(h, s.key, bucket, s.info[id].core.svc)
  {
  }

  lemma DroppedAgain(h: Hashes, s: State, c: Cell)
    requires c in s.newAt && Partial(h, s, {s.newAt[c]}, 0)
    ensures var id, t := s.newAt[c], Dropped(s, c);
      && Partial(h, t, {id}, 0)
      && Cells(t, id) == Cells(s, id) - {c}
      && ViewOf(t) == ViewOf(s)[s.info[id].core.svc.net := PeerOf(t, id)]
  {
    var id := s.newAt[c];
    DroppedKeeps(h, s, {id}, 0, c);
    assert {id} + {id} == {id};
  }

  lemma LeavingDrops(h: Hashes, s0: State, s: State, t: State, id: int, bucket: int, c: Cell)
    requires IdsOk(s0) && id in s0.info && Leaving(h, s0, s, id, bucket)
    requires c == NewCell(h, s.key, bucket, s.info[id].core.svc) && c in s.newAt && s.newAt[c] == id
    requires t == Dropped(s, c)
    ensures Leaving(h, s0, t, id, bucket + 1)
  {
    hide Partial, RandomOk, IdsOk, TriedOk, FreshOk, RefsOk, CountsOk, TimesOk;
    DroppedAgain(h, s, c);
    forall d | d in Cells(t, id)
      ensures d.0 >= bucket + 1
    {
      Parts(h, s, {id}, 0);
      OneCellPerBucket(h, s, id, bucket);
    }
  }

  lemma LeavingEnds(h: Hashes, s0: State, s: State, id: int)
    requires IdsOk(s0) && id in s0.info && Leaving(h, s0, s, id, NEW_BUCKET_COUNT)
    ensures Cells(s, id) == {} && s.info[id].nRefCount == 0
  {
    assert forall c :: c in Cells(s, id) ==> c in s.newAt && c.0 < NEW_BUCKET_COUNT;
    assert Cells(s, id) == {};
  }
}
