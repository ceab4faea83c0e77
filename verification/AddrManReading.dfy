/**
 What the entries of any stream make of an empty address manager, one at a time: as long as
 no two of them have one address, everything but the counters is as it should be after each.
 */
module AddrManReading {
  import opened AddrManState
  import opened AddrManSteps
  import opened AddrManDisk
  import opened Prelude

  /** Adding entry `id` at the end of the lists, as both loops do. */
  function Appended(s: State, id: int, core: Core, tried: bool): State {
    s.(info := s.info[id := AddrInfo(core, 0, tried, |s.rnd|)],
       ids := s.ids[core.svc.net := id],
       rnd := s.rnd + [id])
  }

  lemma AppendedKeepsRandom(s: State, id: int, core: Core, tried: bool)
    requires RandomOk(s) && id !in s.info
    ensures RandomOk(Appended(s, id, core, tried))
  {
  }

  /** The number of entries that a stream announces, new and in all. */
  predicate Announces(stream: seq<Token>, n: int, all: int) {
    && |stream| >= 6 && stream[3].Int? && stream[4].Int?
    && stream[3].i == n && stream[4].i == all - n && 0 <= n <= all
  }

  /** The stream has an entry at place `i` of its lists. */
  predicate HasEntry(stream: seq<Token>, i: int) {
    0 <= i && 6 + i < |stream| && stream[6 + i].Info?
  }

  /** No address twice among the announced entries, no time of success before time zero, and none at zero in the second list. */
  ghost predicate Apart(stream: seq<Token>, n: int, all: int) {
    && Announces(stream, n, all)
    && (forall i, j :: 0 <= i < j < all && HasEntry(stream, i) && HasEntry(stream, j) ==>
          stream[6 + i].core.svc.net != stream[6 + j].core.svc.net)
    && (forall i :: 0 <= i < all && HasEntry(stream, i) ==>
          stream[6 + i].core.nLastSuccess >= if i < n then 0 else 1)
  }

  lemma AnnouncedBy(stream: seq<Token>, n: int, all: int)
    requires Apart(stream, n, all)
    ensures Announces(stream, n, all)
  {
  }

  /** What is known is what the entry at place `i` says, in the table of its list. */
  predicate SaidAt(stream: seq<Token>, n: int, i: int, core: Core, tried: bool) {
    HasEntry(stream, i) && core == Stored(stream[6 + i].core) && (tried <==> i >= n)
  }

  /** Every entry comes from the first `e` of the stream. */
  ghost predicate ReadFrom(s: State, stream: seq<Token>, n: int, e: int) {
    forall id :: id in s.info ==>
      exists i :: 0 <= i < e && SaidAt(stream, n, i, s.info[id].core, s.info[id].fInTried)
  }

  /** The counters put right. */
  function Settled(s: State, k: int): State {
    s.(nIdCount := k, nTried := |TriedIds(s)|, nNew := |NewIds(s)|)
  }

  /** The ids below `k` are in use, those below `n` for new entries. */
  ghost predicate Keyed(s: State, k: int, n: int) {
    && (forall id :: id in s.info <==> 0 <= id < k)
    && (forall id :: id in s.info ==> (s.info[id].fInTried <==> id >= n))
  }

  /** And all but the counters is consistent. */
  ghost predicate Growing(h: Hashes, s: State, k: int, n: int) {
    Keyed(s, k, n) && Partial(h, Settled(s, k), Interval(0, n), 0)
  }

  /** `e` entries of a stream have been read, and `k` of them kept. */
  ghost predicate Reading(h: Hashes, s: State, stream: seq<Token>, n: int, k: int, e: int) {
    Growing(h, s, k, n) && ReadFrom(s, stream, n, e)
  }

  lemma ReadingStarts(h: Hashes, s: State, stream: seq<Token>, n: int)
    requires s == State(s.key, s.nIdCount, map[], map[], [], s.nTried, map[], s.nNew, map[])
    ensures Reading(h, s, stream, n, 0, 0)
  {
    assert TriedIds(s) == {} && NewIds(s) == {};
  }

  /** Whatever the counters are. */
  lemma ReadingCounters(h: Hashes, s: State, t: State, stream: seq<Token>, n: int, k: int, e: int)
    requires Reading(h, s, stream, n, k, e)
    requires t == s.(nIdCount := t.nIdCount, nTried := t.nTried, nNew := t.nNew)
    ensures Reading(h, t, stream, n, k, e)
  {
    assert TriedIds(t) == TriedIds(s) && NewIds(t) == NewIds(s);
    assert Settled(t, k) == Settled(s, k);
  }

  /** An entry that finds no place is passed over. */
  lemma ReadingLost(h: Hashes, s: State, stream: seq<Token>, n: int, k: int, e: int)
    requires Reading(h, s, stream, n, k, e)
    ensures Reading(h, s, stream, n, k, e + 1)
  {
    hide Growing, SaidAt;
    forall id | id in s.info
      ensures exists i :: 0 <= i < e + 1 && SaidAt(stream, n, i, s.info[id].core, s.info[id].fInTried)
    {
      var i :| 0 <= i < e && SaidAt(stream, n, i, s.info[id].core, s.info[id].fInTried);
    }
  }

  lemma SettledIs(u: State, s: State, k: int)
    requires CountsOk(u, 0) && u.nIdCount == k && u == s.(nIdCount := k, nTried := u.nTried, nNew := u.nNew)
    ensures u == Settled(s, k)
  {
    assert TriedIds(u) == TriedIds(s) && NewIds(u) == NewIds(s);
  }

  /** One entry more, in no table. */
  lemma AppendedKeeps(h: Hashes, s: State, limbo: set<int>, core: Core)
    requires Partial(h, s, limbo, 0) && core.svc.net !in s.ids && core.nLastTry >= 0 && core.nLastSuccess >= 0
    ensures var k := s.nIdCount;
      Partial(h, Appended(s, k, core, false).(nIdCount := k + 1, nNew := s.nNew + 1), limbo + {k}, 0)
  {
    hide Partial, RandomOk, IdsOk, TriedOk, FreshOk, RefsOk, CountsOk, TimesOk, ViewOf, Cells;
    var k := s.nIdCount;
    var t := Created(s, Address(core.svc, core.services, core.nTime), core.source);
    CreatedKeeps(h, s, limbo, 0, Address(core.svc, core.services, core.nTime), core.source);
    WithCoreKeeps(h, t, limbo + {k}, 1, k, core);
    var w := WithCore(t, k, core);
    CountedKeeps(h, w, limbo + {k}, 1, 1);
    assert w.(nNew := w.nNew + 1) == Appended(s, k, core, false).(nIdCount := k + 1, nNew := s.nNew + 1);
  }

  /** One entry more, in its place in the "tried" table. */
  lemma AppendedTriedKeeps(h: Hashes, s: State, limbo: set<int>, core: Core)
    requires Partial(h, s, limbo, 0) && core.svc.net !in s.ids && core.nLastTry >= 0 && core.nLastSuccess > 0
    requires TriedCell(h, s.key, core.svc) !in s.triedAt
    ensures var k, c := s.nIdCount, TriedCell(h, s.key, core.svc);
      Partial(h, Appended(s, k, core, true).(triedAt := s.triedAt[c := k], nIdCount := k + 1, nTried := s.nTried + 1), limbo - {k}, 0)
  {
    hide Partial, RandomOk, IdsOk, TriedOk, FreshOk, RefsOk, CountsOk, TimesOk, ViewOf, Cells;
    var k, c := s.nIdCount, TriedCell(h, s.key, core.svc);
    AppendedKeeps(h, s, limbo, core);
    var u := Appended(s, k, core, false).(nIdCount := k + 1, nNew := s.nNew + 1);
    PromotedKeeps(h, u, limbo + {k}, 0, k);
    var w := Promoted(u, c, k);
    CountedKeeps(h, w, limbo + {k} - {k}, -1, -1);
    assert w.(nNew := w.nNew - 1) ==
      Appended(s, k, core, true).(triedAt := s.triedAt[c := k], nIdCount := k + 1, nTried := s.nTried + 1);
    assert limbo + {k} - {k} == limbo - {k};
  }

  lemma KnownWasRead(s: State, stream: seq<Token>, n: int, k: int, e: int, a: NetAddr)
    requires ReadFrom(s, stream, n, e) && IdsOk(Settled(s, k)) && a in s.ids
    ensures exists i :: 0 <= i < e && HasEntry(stream, i) && stream[6 + i].core.svc.net == a
  {
    var u, id := Settled(s, k), s.ids[a];
    assert u.info == s.info && u.ids == s.ids;
    assert id in u.info && u.info[id].core.svc.net == a;
    var i :| 0 <= i < e && SaidAt(stream, n, i, s.info[id].core, s.info[id].fInTried);
    assert HasEntry(stream, i) && stream[6 + i].core.svc.net == a;
  }

  /** The next entry of a stream without repetitions has a new address. */
  lemma NextIsNew(s: State, stream: seq<Token>, n: int, all: int, k: int, e: int)
    requires Apart(stream, n, all) && ReadFrom(s, stream, n, e) && IdsOk(Settled(s, k))
    requires 0 <= e < all && HasEntry(stream, e)
    ensures stream[6 + e].core.svc.net !in s.ids
    ensures Stored(stream[6 + e].core).nLastSuccess >= if e < n then 0 else 1
  {
    hide ReadFrom, IdsOk, Settled;
    if stream[6 + e].core.svc.net in s.ids { KnownWasRead(s, stream, n, k, e, stream[6 + e].core.svc.net); }
  }

  lemma ReadOneMore(s: State, t: State, stream: seq<Token>, n: int, e: int, id: int)
    requires ReadFrom(s, stream, n, e) && 0 <= e && t.info.Keys == s.info.Keys + {id} && id in t.info
    requires forall i :: i in s.info && i != id ==> t.info[i].core == s.info[i].core && t.info[i].fInTried == s.info[i].fInTried
    requires SaidAt(stream, n, e, t.info[id].core, t.info[id].fInTried)
    ensures ReadFrom(t, stream, n, e + 1)
  {
    hide SaidAt;
    forall j | j in t.info
      ensures exists i :: 0 <= i < e + 1 && SaidAt(stream, n, i, t.info[j].core, t.info[j].fInTried)
    {
      if j == id {
        assert SaidAt(stream, n, e, t.info[j].core, t.info[j].fInTried);
      } else {
        var i :| 0 <= i < e && SaidAt(stream, n, i, s.info[j].core, s.info[j].fInTried);
      }
    }
  }

  lemma GrowingIds(h: Hashes, s: State, k: int, n: int)
    requires Growing(h, s, k, n)
    ensures IdsOk(Settled(s, k))
  {
  }

  lemma GrowingFrom(h: Hashes, w: State, s: State, k: int, n: int)
    requires Keyed(s, k, n) && Partial(h, w, Interval(0, n), 0)
    requires w.nIdCount == k && w == s.(nIdCount := k, nTried := w.nTried, nNew := w.nNew)
    ensures Growing(h, s, k, n)
  {
    hide Keyed, TriedIds, NewIds;
    Parts(h, w, Interval(0, n), 0);
    SettledIs(w, s, k);
    hide Partial;
  }

  lemma BelowOrNot(n: int, k: int)
    ensures 0 <= k < n ==> Interval(0, n) + {k} == Interval(0, n)
    ensures 0 <= n <= k ==> Interval(0, n) - {k} == Interval(0, n)
  {
  }

  lemma KeyedAppended(s: State, k: int, n: int, core: Core, tried: bool)
    requires Keyed(s, k, n) && 0 <= k && (tried <==> k >= n)
    ensures Keyed(Appended(s, k, core, tried), k + 1, n)
  {
  }

  lemma KeyedAsBefore(s: State, t: State, k: int, n: int)
    requires Keyed(s, k, n) && t.info.Keys == s.info.Keys
    requires forall i :: i in s.info ==> t.info[i].fInTried == s.info[i].fInTried
    ensures Keyed(t, k, n)
  {
  }

  lemma GrowingNew(h: Hashes, s: State, k: int, n: int, core: Core)
    requires Growing(h, s, k, n) && 0 <= k < n
    requires core.svc.net !in s.ids && core.nLastTry >= 0 && core.nLastSuccess >= 0
    ensures Growing(h, Appended(s, k, core, false), k + 1, n)
  {
    hide Partial, Keyed, TriedIds, NewIds, Interval;
    KeyedAppended(s, k, n, core, false);
    var u := Settled(s, k);
    AppendedKeeps(h, u, Interval(0, n), core);
    BelowOrNot(n, k);
    GrowingFrom(h, Appended(u, k, core, false).(nIdCount := k + 1, nNew := u.nNew + 1), Appended(s, k, core, false), k + 1, n);
  }

  lemma GrowingTried(h: Hashes, s: State, k: int, n: int, core: Core, c: Cell)
    requires Growing(h, s, k, n) && 0 <= n <= k && c == TriedCell(h, s.key, core.svc) && c !in s.triedAt
    requires core.svc.net !in s.ids && core.nLastTry >= 0 && core.nLastSuccess > 0
    ensures Growing(h, Appended(s, k, core, true).(triedAt := s.triedAt[c := k]), k + 1, n)
  {
    hide Partial, Keyed, TriedIds, NewIds, Interval, TriedCell;
    KeyedAppended(s, k, n, core, true);
    var u, t := Settled(s, k), Appended(s, k, core, true).(triedAt := s.triedAt[c := k]);
    KeyedAsBefore(Appended(s, k, core, true), t, k + 1, n);
    AppendedTriedKeeps(h, u, Interval(0, n), core);
    BelowOrNot(n, k);
    GrowingFrom(h, Appended(u, k, core, true).(triedAt := s.triedAt[c := k], nIdCount := k + 1, nTried := u.nTried + 1), t, k + 1, n);
  }

  lemma ReadAppended(s: State, stream: seq<Token>, n: int, k: int, e: int, core: Core, tried: bool)
    requires ReadFrom(s, stream, n, e) && 0 <= e && k !in s.info && SaidAt(stream, n, e, core, tried)
    ensures ReadFrom(Appended(s, k, core, tried), stream, n, e + 1)
  {
    hide SaidAt;
    ReadOneMore(s, Appended(s, k, core, tried), stream, n, e, k);
  }

  /** An entry of the first list. */
  lemma ReadingNew(h: Hashes, s: State, stream: seq<Token>, n: int, all: int, k: int)
    requires Apart(stream, n, all) && Reading(h, s, stream, n, k, k) && 0 <= k < n <= all && HasEntry(stream, k)
    ensures Reading(h, Appended(s, k, Stored(stream[6 + k].core), false), stream, n, k + 1, k + 1)
  {
    hide Apart, ReadFrom, Settled;
    GrowingIds(h, s, k, n);
    NextIsNew(s, stream, n, all, k, k);
    ReadAppended(s, stream, n, k, k, Stored(stream[6 + k].core), false);
    GrowingNew(h, s, k, n, Stored(stream[6 + k].core));
    hide Partial;
  }

  /** An entry of the second list that finds its place empty. */
  lemma ReadingTried(h: Hashes, s: State, stream: seq<Token>, n: int, all: int, k: int, e: int)
    requires Apart(stream, n, all) && Reading(h, s, stream, n, k, e) && 0 <= n <= k && n <= e < all && HasEntry(stream, e)
    requires TriedCell(h, s.key, stream[6 + e].core.svc) !in s.triedAt
    ensures var core := Stored(stream[6 + e].core);
      Reading(h, Appended(s, k, core, true).(triedAt := s.triedAt[TriedCell(h, s.key, core.svc) := k]), stream, n, k + 1, e + 1)
  {
    hide Apart, ReadFrom, Settled, TriedCell;
    var core := Stored(stream[6 + e].core);
    GrowingIds(h, s, k, n);
    NextIsNew(s, stream, n, all, k, e);
    ReadAppended(s, stream, n, k, e, core, true);
    SameCores(Appended(s, k, core, true), Appended(s, k, core, true).(triedAt := s.triedAt[TriedCell(h, s.key, core.svc) := k]), stream, n, e + 1);
    GrowingTried(h, s, k, n, core, TriedCell(h, s.key, core.svc));
    hide Partial;
  }

  lemma KeyedIs(s: State, k: int, n: int, id: int)
    requires Keyed(s, k, n) && id in s.info
    ensures 0 <= id < k && (s.info[id].fInTried <==> id >= n)
  {
  }

  lemma GrowingPlaced(h: Hashes, s: State, k: int, n: int, bucket: int, id: int, c: Cell)
    requires Growing(h, s, k, n) && id in s.info && id < n && s.info[id].nRefCount < NEW_BUCKETS_PER_ADDRESS
    requires 0 <= bucket < NEW_BUCKET_COUNT && c == NewCell(h, s.key, bucket, s.info[id].core.svc) && c !in s.newAt
    ensures Growing(h, Placed(s, c, id), k, n)
  {
    hide Partial, Keyed, TriedIds, NewIds, Interval, NewCell, ViewOf, Cells;
    KeyedIs(s, k, n, id);
    var u, t := Settled(s, k), Placed(s, c, id);
    KeyedAsBefore(s, t, k, n);
    PlacedKeeps(h, u, Interval(0, n), 0, bucket, id);
    MoreLimbo(h, Placed(u, c, id), Interval(0, n) - {id}, Interval(0, n), 0);
    GrowingFrom(h, Placed(u, c, id), t, k, n);
  }

  /** A new entry takes an empty cell. */
  lemma ReadingPlaced(h: Hashes, s: State, stream: seq<Token>, n: int, k: int, e: int, bucket: int, id: int)
    requires Reading(h, s, stream, n, k, e) && id in s.info && id < n && s.info[id].nRefCount < NEW_BUCKETS_PER_ADDRESS
    requires 0 <= bucket < NEW_BUCKET_COUNT && NewCell(h, s.key, bucket, s.info[id].core.svc) !in s.newAt
    ensures Reading(h, Placed(s, NewCell(h, s.key, bucket, s.info[id].core.svc), id), stream, n, k, e)
  {
    hide Growing, NewCell, SaidAt;
    var c := NewCell(h, s.key, bucket, s.info[id].core.svc);
    GrowingPlaced(h, s, k, n, bucket, id, c);
    SameCores(s, Placed(s, c, id), stream, n, e);
  }

  lemma SameCores(s: State, t: State, stream: seq<Token>, n: int, e: int)
    requires ReadFrom(s, stream, n, e) && t.info.Keys <= s.info.Keys
    requires forall i :: i in t.info ==> t.info[i].core == s.info[i].core && t.info[i].fInTried == s.info[i].fInTried
    ensures ReadFrom(t, stream, n, e)
  {
    hide SaidAt;
  }

  lemma KeyedKinds(s: State, n: int, k: int)
    requires Keyed(s, k, n) && 0 <= n <= k
    ensures |NewIds(s)| == n && |TriedIds(s)| == k - n
  {
    hide Interval;
    assert NewIds(s) == Interval(0, n) && TriedIds(s) == Interval(n, k);
  }

  /** When the counters agree with the ids in use, only the new entries without a cell are still to go. */
  lemma ReadingEnds(h: Hashes, s: State, stream: seq<Token>, n: int, k: int, e: int)
    requires Reading(h, s, stream, n, k, e) && 0 <= n <= k
    requires s.nIdCount == k && s.nNew == n && s.nTried == k - n
    ensures Partial(h, s, Interval(0, n), 0) && ReadFrom(s, stream, n, e)
  {
    hide Partial, Interval;
    KeyedKinds(s, n, k);
  }
}
