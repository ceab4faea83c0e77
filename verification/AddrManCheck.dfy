/**
 The address manager's own consistency check (core/src/addrman.cpp:385-459), and that it
 asks for exactly the invariant under which the operations are proved.
 */
module AddrManCheck {
  import opened Prelude
  import opened AddrManState
  import opened AddrManImpl

  // ---------------------------------------------------------------- what the check asks

  ghost predicate EntryPasses(s: State, id: int)
    requires id in s.info
  {
    var e := s.info[id];
    && (if e.fInTried then e.core.nLastSuccess != 0 && e.nRefCount == 0 else 0 < e.nRefCount <= NEW_BUCKETS_PER_ADDRESS)
    && e.core.svc.net in s.ids && s.ids[e.core.svc.net] == id
    && 0 <= e.nRandomPos < |s.rnd| && s.rnd[e.nRandomPos] == id
    && e.core.nLastTry >= 0 && e.core.nLastSuccess >= 0
  }

  ghost predicate TriedPasses(h: Hashes, s: State, c: Cell)
    requires c in s.triedAt
  {
    var id := s.triedAt[c];
    id in s.info && s.info[id].fInTried && c == TriedCell(h, s.key, s.info[id].core.svc)
  }

  ghost predicate NewPasses(h: Hashes, s: State, c: Cell)
    requires c in s.newAt
  {
    var id := s.newAt[c];
    id in s.info && !s.info[id].fInTried && c == NewCell(h, s.key, c.0, s.info[id].core.svc)
  }

  ghost predicate HoldsTriedId(s: State, id: int) { id in s.triedAt.Values }

  ghost predicate EntriesPass(s: State) { forall id :: id in s.info ==> EntryPasses(s, id) }
  ghost predicate TriedCellsPass(h: Hashes, s: State) { forall c :: c in s.triedAt ==> TriedPasses(h, s, c) }
  ghost predicate TriedAllHeld(s: State) { forall id :: id in TriedIds(s) ==> HoldsTriedId(s, id) }
  ghost predicate NewCellsPass(h: Hashes, s: State) { forall c :: c in s.newAt ==> NewPasses(h, s, c) }
  ghost predicate CountsMatch(s: State) { forall id :: id in NewIds(s) ==> |Cells(s, id)| == s.info[id].nRefCount }

  ghost predicate Passes(h: Hashes, s: State) {
    && |s.rnd| == s.nTried + s.nNew
    && EntriesPass(s) && CountsOk(s, 0)
    && TriedCellsPass(h, s) && TriedAllHeld(s)
    && NewCellsPass(h, s) && CountsMatch(s)
    && s.key != 0
  }

  // ---------------------------------------------------------------- what the error codes mean

  ghost predicate EntryFault(s: State, id: int, err: int) {
    && id in s.info
    && var e := s.info[id];
    || (err == -1 && e.fInTried && e.core.nLastSuccess == 0)
    || (err == -2 && e.fInTried && e.nRefCount != 0)
    || (err == -3 && !e.fInTried && (e.nRefCount < 0 || e.nRefCount > NEW_BUCKETS_PER_ADDRESS))
    || (err == -4 && !e.fInTried && e.nRefCount == 0)
    || (err == -5 && (e.core.svc.net !in s.ids || s.ids[e.core.svc.net] != id))
    || (err == -6 && e.core.nLastTry < 0)
    || (err == -8 && e.core.nLastSuccess < 0)
    || (err == -14 && (e.nRandomPos < 0 || e.nRandomPos >= |s.rnd| || s.rnd[e.nRandomPos] != id))
  }

  ghost predicate TriedFault(h: Hashes, s: State, c: Cell, err: int) {
    && c in s.triedAt
    && var id := s.triedAt[c];
    || (err == -11 && (id !in s.info || !s.info[id].fInTried || exists d :: d in s.triedAt && d != c && s.triedAt[d] == id))
    || (err == -17 && id in s.info && TriedBucket(h, s.key, s.info[id].core.svc) != c.0)
    || (err == -18 && id in s.info && Position(h, s.key, false, c.0, s.info[id].core.svc) != c.1)
  }

  ghost predicate NewFault(h: Hashes, s: State, c: Cell, err: int) {
    && c in s.newAt
    && var id := s.newAt[c];
    || (err == -12 && (id !in s.info || s.info[id].fInTried || |Cells(s, id)| > s.info[id].nRefCount))
    || (err == -19 && id in s.info && Position(h, s.key, true, c.0, s.info[id].core.svc) != c.1)
  }

  /** Each code names a fault that there is. */
  ghost predicate Fault(h: Hashes, s: State, err: int) {
    || (err == -7 && |s.rnd| != s.nTried + s.nNew)
    || (exists id :: EntryFault(s, id, err))
    || (err == -9 && |TriedIds(s)| != s.nTried)
    || (err == -10 && |NewIds(s)| != s.nNew)
    || (exists c :: TriedFault(h, s, c, err))
    || (exists c :: NewFault(h, s, c, err))
    || (err == -13 && !TriedAllHeld(s))
    || (err == -15 && !CountsMatch(s))
    || (err == -16 && s.key == 0)
  }

  // ---------------------------------------------------------------- it is the invariant

  lemma KindsCount(s: State)
    ensures |s.info| == |TriedIds(s)| + |NewIds(s)|
  {
    assert s.info.Keys == TriedIds(s) + NewIds(s);
  }

  function PlacesOf(s: State, ids: set<int>): set<int>
    requires ids <= s.info.Keys
  {
    set id | id in ids :: s.info[id].nRandomPos
  }

  lemma {:induction false} PlacesCount(s: State, ids: set<int>)
    requires ids <= s.info.Keys && EntriesPass(s)
    ensures |PlacesOf(s, ids)| == |ids|
    decreases |ids|
  {
    if ids == {} {
      NoneLeft(ids);
      assert PlacesOf(s, ids) == {};
    } else {
      var id := AnyOf(ids);
      var rest := ids - {id};
      PlacesCount(s, rest);
      assert PlacesOf(s, ids) == PlacesOf(s, rest) + {s.info[id].nRandomPos};
      forall i | i in rest
        ensures s.info[i].nRandomPos != s.info[id].nRandomPos
      {
        assert EntryPasses(s, i) && EntryPasses(s, id);
      }
    }
  }

  lemma SubsetIsAll(a: set<int>, b: set<int>)
    requires a <= b && |a| == |b|
    ensures a == b
  {
    assert b == a + (b - a);
  }

  /** As many places as entries, each entry at its own: then each place has its entry. */
  lemma PlacesAreFilled(s: State)
    requires EntriesPass(s) && |s.rnd| == |s.info|
    ensures RandomOk(s)
  {
    var all := PlacesOf(s, s.info.Keys);
    PlacesCount(s, s.info.Keys);
    assert forall id :: id in s.info ==> EntryPasses(s, id);
    assert all <= Interval(0, |s.rnd|);
    SubsetIsAll(all, Interval(0, |s.rnd|));
    forall i | 0 <= i < |s.rnd|
      ensures s.rnd[i] in s.info && s.info[s.rnd[i]].nRandomPos == i
    {
      assert i in all;
      var id :| id in s.info && s.info[id].nRandomPos == i;
      assert EntryPasses(s, id);
    }
  }

  lemma RandomCounts(s: State)
    requires RandomOk(s)
    ensures |s.rnd| == |s.info|
  {
    forall i, j | 0 <= i < j < |s.rnd|
      ensures s.rnd[i] != s.rnd[j]
    {
      assert s.info[s.rnd[i]].nRandomPos == i && s.info[s.rnd[j]].nRandomPos == j;
    }
    forall id
      ensures id in s.info.Keys <==> id in s.rnd
    {
      if id in s.info { assert s.rnd[s.info[id].nRandomPos] == id; }
    }
    DistinctCount(s.rnd, s.info.Keys);
  }

  lemma TriedHaveNoCells(h: Hashes, s: State, id: int)
    requires NewCellsPass(h, s) && id in s.info && s.info[id].fInTried
    ensures Cells(s, id) == {}
  {
    forall c | c in s.newAt
      ensures s.newAt[c] != id
    {
      assert NewPasses(h, s, c);
    }
  }

  lemma PassingIsConsistent(h: Hashes, s: State)
    requires Passes(h, s) && IdsOk(s) && forall c :: c in s.newAt ==> 0 <= c.0 < NEW_BUCKET_COUNT
    ensures Consistent(h, s)
  {
    KindsCount(s);
    PlacesAreFilled(s);
    forall id | id in s.info
      ensures s.info[id].nRefCount == |Cells(s, id)| <= NEW_BUCKETS_PER_ADDRESS
    {
      assert EntryPasses(s, id);
      if s.info[id].fInTried {
        TriedHaveNoCells(h, s, id);
      } else {
        assert id in NewIds(s);
      }
    }
    forall id | id in s.info
      ensures s.info[id].core.nLastTry >= 0 && s.info[id].core.nLastSuccess >= 0
      ensures s.info[id].fInTried ==> s.info[id].core.nLastSuccess > 0
      ensures !s.info[id].fInTried ==> s.info[id].nRefCount > 0
    {
      assert EntryPasses(s, id);
    }
    forall id | id in s.info && s.info[id].fInTried
      ensures var c := TriedCell(h, s.key, s.info[id].core.svc); c in s.triedAt && s.triedAt[c] == id
    {
      assert HoldsTriedId(s, id);
      var c :| c in s.triedAt && s.triedAt[c] == id;
      assert TriedPasses(h, s, c);
    }
    assert forall c :: c in s.triedAt ==> TriedPasses(h, s, c);
    assert forall c :: c in s.newAt ==> NewPasses(h, s, c);
  }

  lemma ConsistentPasses(h: Hashes, s: State)
    requires Consistent(h, s) && s.key != 0
    ensures Passes(h, s)
  {
    KindsCount(s);
    RandomCounts(s);
    forall id | id in s.info
      ensures EntryPasses(s, id)
    {
      if s.info[id].fInTried {
        assert forall c :: c in s.newAt ==> s.newAt[c] != id;
        assert Cells(s, id) == {};
      }
    }
    forall id | id in TriedIds(s)
      ensures HoldsTriedId(s, id)
    {
      var c := TriedCell(h, s.key, s.info[id].core.svc);
      assert c in s.triedAt && s.triedAt[c] == id;
    }
  }

  /**
   The invariant holds for a manager with a key exactly when the check of the original accepts it
   and the index is right, of which the check does not look at stray addresses and the next id.
   */
  lemma CheckIsTheInvariant(h: Hashes, s: State)
    requires forall c :: c in s.newAt ==> 0 <= c.0 < NEW_BUCKET_COUNT
    ensures Consistent(h, s) && s.key != 0 <==> Passes(h, s) && IdsOk(s)
  {
    if Passes(h, s) && IdsOk(s) { PassingIsConsistent(h, s); }
    if Consistent(h, s) && s.key != 0 { ConsistentPasses(h, s); }
  }

  // ---------------------------------------------------------------- how the check looks

  /** The reference counts of the entries in the "new" table. */
  function Counts(s: State): map<int, int> {
    map id | id in s.info && !s.info[id].fInTried :: s.info[id].nRefCount
  }

  method CheckEntries(m: CAddrMan) returns (err: int, setTried: set<int>, mapNew: map<int, int>)
    ensures err == 0 <==> EntriesPass(m.Abs())
    ensures err == 0 ==> setTried == TriedIds(m.Abs()) && mapNew == Counts(m.Abs())
    ensures err != 0 ==> exists id :: EntryFault(m.Abs(), id, err)
  {
    ghost var s := m.Abs();
    setTried, mapNew := {}, map[];
    var todo := m.mapInfo.Keys;
    while todo != {}
      invariant todo <= m.mapInfo.Keys
      invariant forall id :: id in m.mapInfo && id !in todo ==> EntryPasses(s, id)
      invariant forall id :: id in setTried <==> id in TriedIds(s) && id !in todo
      invariant forall id :: id in mapNew <==> id in Counts(s) && id !in todo
      invariant forall id :: id in mapNew ==> mapNew[id] == m.mapInfo[id].nRefCount
      decreases |todo|
    {
      var n := PickOne(todo);
      var info := m.mapInfo[n];
      if info.fInTried {
        if info.core.nLastSuccess == 0 { assert !EntryPasses(s, n) && EntryFault(s, n, -1); return -1, setTried, mapNew; }
        if info.nRefCount != 0 { assert !EntryPasses(s, n) && EntryFault(s, n, -2); return -2, setTried, mapNew; }
        setTried := setTried + {n};
      } else {
        if info.nRefCount < 0 || info.nRefCount > NEW_BUCKETS_PER_ADDRESS { assert !EntryPasses(s, n) && EntryFault(s, n, -3); return -3, setTried, mapNew; }
        if info.nRefCount == 0 { assert !EntryPasses(s, n) && EntryFault(s, n, -4); return -4, setTried, mapNew; }
        mapNew := mapNew[n := info.nRefCount];
      }
      if info.core.svc.net !in m.mapAddr || m.mapAddr[info.core.svc.net] != n { assert !EntryPasses(s, n) && EntryFault(s, n, -5); return -5, setTried, mapNew; }
      if info.nRandomPos < 0 || info.nRandomPos >= |m.vRandom| || m.vRandom[info.nRandomPos] != n {
        assert !EntryPasses(s, n) && EntryFault(s, n, -14);
        return -14, setTried, mapNew;
      }
      if info.core.nLastTry < 0 { assert !EntryPasses(s, n) && EntryFault(s, n, -6); return -6, setTried, mapNew; }
      if info.core.nLastSuccess < 0 { assert !EntryPasses(s, n) && EntryFault(s, n, -8); return -8, setTried, mapNew; }
      assert EntryPasses(s, n);
      todo := todo - {n};
    }
    NoneLeft(todo);
    forall id ensures id in setTried <==> id in TriedIds(s) { assert id !in todo; }
    SetsEqual(setTried, TriedIds(s));
    forall id
      ensures id in mapNew <==> id in Counts(s)
      ensures id in mapNew ==> mapNew[id] == Counts(s)[id]
    {
      assert id !in todo;
    }
    MapsEqual(mapNew, Counts(s));
    err := 0;
  }

  lemma SetsEqual<T>(a: set<T>, b: set<T>)
    requires forall x :: x in a <==> x in b
    ensures a == b
  {
  }

  /** Cell `c` comes before position `i` of bucket `n`. */
  predicate Before(c: Cell, n: int, i: int) { c.0 < n || (c.0 == n && c.1 < i) }

  ghost predicate SeenTried(s: State, n: int, i: int, id: int) {
    exists c :: c in s.triedAt && Before(c, n, i) && s.triedAt[c] == id
  }

  lemma SeenTriedNext(s: State, n: int, i: int, id: int)
    ensures SeenTried(s, n, i + 1, id) <==> SeenTried(s, n, i, id) || ((n, i) in s.triedAt && s.triedAt[(n, i)] == id)
  {
    if (n, i) in s.triedAt && s.triedAt[(n, i)] == id {
      assert Before((n, i), n, i + 1);
    }
    if SeenTried(s, n, i, id) {
      var c :| c in s.triedAt && Before(c, n, i) && s.triedAt[c] == id;
      assert Before(c, n, i + 1);
    }
    if SeenTried(s, n, i + 1, id) {
      var c :| c in s.triedAt && Before(c, n, i + 1) && s.triedAt[c] == id;
      assert Before(c, n, i) || c == (n, i);
    }
  }

  /** An id seen before is at its own cell, and not at another one. */
  lemma SeenElsewhere(h: Hashes, s: State, n: int, i: int)
    requires (n, i) in s.triedAt && SeenTried(s, n, i, s.triedAt[(n, i)])
    requires forall c :: c in s.triedAt && Before(c, n, i) ==> TriedPasses(h, s, c)
    ensures !TriedPasses(h, s, (n, i))
  {
    var c :| c in s.triedAt && Before(c, n, i) && s.triedAt[c] == s.triedAt[(n, i)];
    assert TriedPasses(h, s, c) && c != (n, i);
  }

  /** What is left of the tried ids after the cells before (n, i). */
  ghost predicate TriedLeft(h: Hashes, s: State, n: int, i: int, left: set<int>) {
    && (forall c :: c in s.triedAt && Before(c, n, i) ==> TriedPasses(h, s, c))
    && (forall id :: id in left <==> id in TriedIds(s) && !SeenTried(s, n, i, id))
  }

  lemma TriedMissing(h: Hashes, s: State, n: int, i: int, left: set<int>)
    requires TriedLeft(h, s, n, i, left) && (n, i) in s.triedAt
    ensures s.triedAt[(n, i)] in left ==> s.triedAt[(n, i)] in s.info && s.info[s.triedAt[(n, i)]].fInTried
    ensures s.triedAt[(n, i)] !in left ==> !TriedPasses(h, s, (n, i)) && TriedFault(h, s, (n, i), -11)
  {
    hide TriedCell;
    if SeenTried(s, n, i, s.triedAt[(n, i)]) {
      SeenElsewhere(h, s, n, i);
      var d :| d in s.triedAt && Before(d, n, i) && s.triedAt[d] == s.triedAt[(n, i)];
      assert d != (n, i);
    }
  }

  lemma TriedLeftSkips(h: Hashes, s: State, n: int, i: int, left: set<int>)
    requires TriedLeft(h, s, n, i, left) && (n, i) !in s.triedAt
    ensures TriedLeft(h, s, n, i + 1, left)
  {
    forall id ensures SeenTried(s, n, i + 1, id) <==> SeenTried(s, n, i, id) { SeenTriedNext(s, n, i, id); }
    forall c | c in s.triedAt && Before(c, n, i + 1)
      ensures TriedPasses(h, s, c)
    {
      assert c != (n, i);
    }
  }

  lemma TriedLeftTakes(h: Hashes, s: State, n: int, i: int, left: set<int>)
    requires TriedLeft(h, s, n, i, left) && (n, i) in s.triedAt && TriedPasses(h, s, (n, i))
    ensures TriedLeft(h, s, n, i + 1, left - {s.triedAt[(n, i)]})
  {
    forall id
      ensures SeenTried(s, n, i + 1, id) <==> SeenTried(s, n, i, id) || id == s.triedAt[(n, i)]
    {
      SeenTriedNext(s, n, i, id);
    }
    forall c | c in s.triedAt && Before(c, n, i + 1)
      ensures TriedPasses(h, s, c)
    {
      assert Before(c, n, i) || c == (n, i);
    }
  }

  lemma TriedRowEnds(h: Hashes, s: State, n: int, left: set<int>)
    requires TriedLeft(h, s, n, BUCKET_SIZE, left) && forall c :: c in s.triedAt ==> 0 <= c.1 < BUCKET_SIZE
    ensures TriedLeft(h, s, n + 1, 0, left)
  {
    assert forall c :: c in s.triedAt ==> (Before(c, n + 1, 0) <==> Before(c, n, BUCKET_SIZE));
    forall id ensures SeenTried(s, n + 1, 0, id) <==> SeenTried(s, n, BUCKET_SIZE, id) {
      if SeenTried(s, n, BUCKET_SIZE, id) {
        var c :| c in s.triedAt && Before(c, n, BUCKET_SIZE) && s.triedAt[c] == id;
        assert Before(c, n + 1, 0);
      }
    }
  }

  /** One bucket of the "tried" table. */
  method CheckTriedRow(m: CAddrMan, n: int, setTriedIn: set<int>) returns (err: int, setTried: set<int>)
    requires m.Shaped() && 0 <= n < TRIED_BUCKET_COUNT && TriedLeft(m.h, m.Abs(), n, 0, setTriedIn)
    ensures err == 0 ==> TriedLeft(m.h, m.Abs(), n + 1, 0, setTried)
    ensures err != 0 ==> exists c :: c in m.Abs().triedAt && !TriedPasses(m.h, m.Abs(), c) && TriedFault(m.h, m.Abs(), c, err)
  {
    hide Table, TriedLeft, TriedPasses, TriedFault;
    ghost var s := m.Abs();
    setTried := setTriedIn;
    for i := 0 to BUCKET_SIZE
      invariant TriedLeft(m.h, s, n, i, setTried)
    {
      m.Occupied(n, i);
      if m.vvTried[n, i] != -1 {
        var id := m.vvTried[n, i];
        TriedMissing(m.h, s, n, i, setTried);
        if id !in setTried {
          return -11, setTried;
        }
        var svc := m.mapInfo[id].core.svc;
        PassesIs(m.h, s, n, i);
        WrongPlace(m.h, s, n, i);
        if TriedBucket(m.h, m.nKey, svc) != n { return -17, setTried; }
        if Position(m.h, m.nKey, false, n, svc) != i { return -18, setTried; }
        TriedLeftTakes(m.h, s, n, i, setTried);
        setTried := setTried - {id};
      } else {
        TriedLeftSkips(m.h, s, n, i, setTried);
      }
    }
    TriedBounds(m);
    TriedRowEnds(m.h, s, n, setTried);
    err := 0;
  }

  method CheckTried(m: CAddrMan, ids: set<int>) returns (err: int, setTried: set<int>)
    requires m.Shaped() && ids == TriedIds(m.Abs())
    ensures err == 0 <==> TriedCellsPass(m.h, m.Abs())
    ensures err == 0 ==> (setTried == {} <==> TriedAllHeld(m.Abs()))
    ensures err != 0 ==> exists c :: TriedFault(m.h, m.Abs(), c, err)
  {
    hide Table, TriedLeft, TriedPasses, TriedFault;
    setTried := ids;
    TriedStarts(m);
    for n := 0 to TRIED_BUCKET_COUNT
      invariant TriedLeft(m.h, m.Abs(), n, 0, setTried)
    {
      err, setTried := CheckTriedRow(m, n, setTried);
      if err != 0 {
        return;
      }
    }
    TriedEnds(m, setTried);
    err := 0;
  }

  lemma TableBounds(t: array2<int>)
    ensures forall c :: c in Table(t) ==> 0 <= c.0 < t.Length0 && 0 <= c.1 < t.Length1
  {
  }

  lemma TriedBounds(m: CAddrMan)
    requires m.Shaped()
    ensures forall c :: c in m.Abs().triedAt ==> 0 <= c.0 < TRIED_BUCKET_COUNT && 0 <= c.1 < BUCKET_SIZE
  {
    TableBounds(m.vvTried);
  }

  lemma TriedStarts(m: CAddrMan)
    requires m.Shaped()
    ensures TriedLeft(m.h, m.Abs(), 0, 0, TriedIds(m.Abs()))
  {
    TableBounds(m.vvTried);
  }

  lemma WrongPlace(h: Hashes, s: State, n: int, i: int)
    requires (n, i) in s.triedAt && s.triedAt[(n, i)] in s.info
    ensures TriedBucket(h, s.key, s.info[s.triedAt[(n, i)]].core.svc) != n ==> TriedFault(h, s, (n, i), -17)
    ensures Position(h, s.key, false, n, s.info[s.triedAt[(n, i)]].core.svc) != i ==> TriedFault(h, s, (n, i), -18)
  {
  }

  lemma PassesIs(h: Hashes, s: State, n: int, i: int)
    requires (n, i) in s.triedAt && s.triedAt[(n, i)] in s.info
    ensures var id := s.triedAt[(n, i)];
      var svc := s.info[id].core.svc;
      s.info[id].fInTried ==>
        (TriedPasses(h, s, (n, i)) <==> TriedBucket(h, s.key, svc) == n && Position(h, s.key, false, n, svc) == i)
  {
  }

  lemma TriedEnds(m: CAddrMan, left: set<int>)
    requires m.Shaped() && TriedLeft(m.h, m.Abs(), TRIED_BUCKET_COUNT, 0, left)
    ensures TriedCellsPass(m.h, m.Abs())
    ensures left == {} <==> TriedAllHeld(m.Abs())
  {
    var s := m.Abs();
    TableBounds(m.vvTried);
    assert forall c :: c in s.triedAt ==> Before(c, TRIED_BUCKET_COUNT, 0);
    forall id
      ensures HoldsTriedId(s, id) <==> SeenTried(s, TRIED_BUCKET_COUNT, 0, id)
    {
    }
    if left == {} { NoneLeft(left); }
    if TriedAllHeld(s) {
      forall id ensures id !in left { assert id in TriedIds(s) ==> HoldsTriedId(s, id); }
      SetsEqual(left, {});
    }
  }

  // ---------------------------------------------------------------- the "new" table

  /** The cells of an id before (n, i). */
  function SeenCells(s: State, n: int, i: int, id: int): set<Cell> {
    set c | c in s.newAt && Before(c, n, i) && s.newAt[c] == id
  }

  lemma SeenCellsNext(s: State, n: int, i: int, id: int)
    ensures var next := SeenCells(s, n, i + 1, id);
      if (n, i) in s.newAt && s.newAt[(n, i)] == id
      then next == SeenCells(s, n, i, id) + {(n, i)} && |next| == |SeenCells(s, n, i, id)| + 1
      else next == SeenCells(s, n, i, id)
  {
    forall c
      ensures c in SeenCells(s, n, i + 1, id) <==>
        c in SeenCells(s, n, i, id) || (c == (n, i) && c in s.newAt && s.newAt[c] == id)
    {
      assert Before(c, n, i + 1) <==> Before(c, n, i) || c == (n, i);
    }
    assert (n, i) !in SeenCells(s, n, i, id);
    if (n, i) in s.newAt && s.newAt[(n, i)] == id {
      assert SeenCells(s, n, i + 1, id) == SeenCells(s, n, i, id) + {(n, i)};
    } else {
      assert SeenCells(s, n, i + 1, id) == SeenCells(s, n, i, id);
    }
  }

  lemma SeenAreCells(s: State, n: int, i: int, id: int)
    ensures |SeenCells(s, n, i, id)| <= |Cells(s, id)|
  {
    assert Cells(s, id) == SeenCells(s, n, i, id) + (Cells(s, id) - SeenCells(s, n, i, id));
  }

  /** What is left of the counts after the cells before (n, i). */
  ghost predicate NewLeft(h: Hashes, s: State, n: int, i: int, left: map<int, int>) {
    && (forall c :: c in s.newAt && Before(c, n, i) ==> NewPasses(h, s, c))
    && (forall id :: id in NewIds(s) ==> |SeenCells(s, n, i, id)| <= s.info[id].nRefCount)
    && (forall id :: id in left <==> id in NewIds(s) && |SeenCells(s, n, i, id)| < s.info[id].nRefCount)
    && (forall id :: id in left ==> left[id] == s.info[id].nRefCount - |SeenCells(s, n, i, id)|)
  }

  lemma NewLeftSkips(h: Hashes, s: State, n: int, i: int, left: map<int, int>)
    requires NewLeft(h, s, n, i, left) && (n, i) !in s.newAt
    ensures NewLeft(h, s, n, i + 1, left)
  {
    forall id ensures SeenCells(s, n, i + 1, id) == SeenCells(s, n, i, id) { SeenCellsNext(s, n, i, id); }
    forall c | c in s.newAt && Before(c, n, i + 1)
      ensures NewPasses(h, s, c)
    {
      assert c != (n, i);
    }
  }

  lemma NewLeftTakes(h: Hashes, s: State, n: int, i: int, left: map<int, int>)
    requires NewLeft(h, s, n, i, left) && (n, i) in s.newAt && NewPasses(h, s, (n, i)) && s.newAt[(n, i)] in left
    ensures var id := s.newAt[(n, i)];
      NewLeft(h, s, n, i + 1, if left[id] == 1 then left - {id} else left[id := left[id] - 1])
  {
    hide SeenCells, NewPasses;
    forall id
      ensures |SeenCells(s, n, i + 1, id)| == |SeenCells(s, n, i, id)| + if id == s.newAt[(n, i)] then 1 else 0
    {
      SeenCellsNext(s, n, i, id);
    }
    forall c | c in s.newAt && Before(c, n, i + 1)
      ensures NewPasses(h, s, c)
    {
      assert Before(c, n, i) || c == (n, i);
    }
  }

  lemma NewRowEnds(h: Hashes, s: State, n: int, left: map<int, int>)
    requires NewLeft(h, s, n, BUCKET_SIZE, left) && forall c :: c in s.newAt ==> 0 <= c.1 < BUCKET_SIZE
    ensures NewLeft(h, s, n + 1, 0, left)
  {
    assert forall c :: c in s.newAt ==> (Before(c, n + 1, 0) <==> Before(c, n, BUCKET_SIZE));
    forall id ensures SeenCells(s, n + 1, 0, id) == SeenCells(s, n, BUCKET_SIZE, id) {
    }
  }

  /** An id without a count left is not new, or stands in more cells than it should. */
  lemma NoCountLeft(h: Hashes, s: State, n: int, i: int, left: map<int, int>)
    requires NewLeft(h, s, n, i, left) && (n, i) in s.newAt && s.newAt[(n, i)] !in left
    ensures !NewCellsPass(h, s) || !CountsMatch(s)
    ensures NewFault(h, s, (n, i), -12)
  {
    var id := s.newAt[(n, i)];
    SeenCellsNext(s, n, i, id);
    SeenAreCells(s, n, i + 1, id);
    if NewCellsPass(h, s) { assert NewPasses(h, s, (n, i)); }
  }

  lemma LeftIsNew(h: Hashes, s: State, n: int, i: int, left: map<int, int>, id: int)
    requires NewLeft(h, s, n, i, left) && id in left
    ensures id in s.info && !s.info[id].fInTried
  {
  }

  lemma WrongPosition(h: Hashes, s: State, n: int, i: int)
    requires (n, i) in s.newAt && s.newAt[(n, i)] in s.info
    requires Position(h, s.key, true, n, s.info[s.newAt[(n, i)]].core.svc) != i
    ensures !NewCellsPass(h, s) && NewFault(h, s, (n, i), -19)
  {
    assert !NewPasses(h, s, (n, i));
  }

  lemma RightPosition(h: Hashes, s: State, n: int, i: int)
    requires (n, i) in s.newAt && s.newAt[(n, i)] in s.info && !s.info[s.newAt[(n, i)]].fInTried
    requires Position(h, s.key, true, n, s.info[s.newAt[(n, i)]].core.svc) == i
    ensures NewPasses(h, s, (n, i))
  {
  }

  /** One cell of the "new" table. */
  method CheckNewCell(m: CAddrMan, n: int, i: int, mapNew: map<int, int>) returns (err: int, left: map<int, int>)
    requires m.Shaped() && 0 <= n < NEW_BUCKET_COUNT && 0 <= i < BUCKET_SIZE && NewLeft(m.h, m.Abs(), n, i, mapNew)
    ensures err == 0 ==> NewLeft(m.h, m.Abs(), n, i + 1, left)
    ensures err != 0 ==> !NewCellsPass(m.h, m.Abs()) || !CountsMatch(m.Abs())
    ensures err != 0 ==> NewFault(m.h, m.Abs(), (n, i), err)
  {
    hide NewFault;
    hide Table;
    hide NewLeft;
    hide NewPasses;
    hide NewCellsPass;
    hide CountsMatch;
    ghost var s := m.Abs();
    left := mapNew;
    m.Vacant(n, i);
    if m.vvNew[n, i] == -1 {
      NewLeftSkips(m.h, s, n, i, left);
      return 0, left;
    }
    var id := m.vvNew[n, i];
    if id !in left {
      NoCountLeft(m.h, s, n, i, left);
      return -12, left;
    }
    LeftIsNew(m.h, s, n, i, left, id);
    if Position(m.h, m.nKey, true, n, m.mapInfo[id].core.svc) != i {
      WrongPosition(m.h, s, n, i);
      return -19, left;
    }
    RightPosition(m.h, s, n, i);
    NewLeftTakes(m.h, s, n, i, left);
    left := if left[id] - 1 == 0 then left - {id} else left[id := left[id] - 1];
    err := 0;
  }

  method CheckNew(m: CAddrMan, counts: map<int, int>) returns (err: int, mapNew: map<int, int>)
    requires m.Shaped() && counts == Counts(m.Abs()) && forall id :: id in counts ==> counts[id] > 0
    ensures err == 0 && mapNew.Keys == {} <==> NewCellsPass(m.h, m.Abs()) && CountsMatch(m.Abs())
    ensures err == 0 ==> NewCellsPass(m.h, m.Abs())
    ensures err != 0 ==> exists c :: NewFault(m.h, m.Abs(), c, err)
  {
    hide NewFault;
    hide Table;
    hide NewLeft;
    hide NewPasses;
    hide NewCellsPass;
    hide CountsMatch;
    hide Counts;
    ghost var s := m.Abs();
    err, mapNew := 0, counts;
    NewStarts(m);
    for n := 0 to NEW_BUCKET_COUNT
      invariant NewLeft(m.h, s, n, 0, mapNew)
    {
      for i := 0 to BUCKET_SIZE
        invariant NewLeft(m.h, s, n, i, mapNew)
      {
        err, mapNew := CheckNewCell(m, n, i, mapNew);
        if err != 0 {
          return;
        }
      }
      NewRowEnds(m.h, s, n, mapNew);
    }
    NewEnds(m, mapNew);
    err := 0;
  }

  lemma NewStarts(m: CAddrMan)
    requires m.Shaped() && forall id :: id in Counts(m.Abs()) ==> Counts(m.Abs())[id] > 0
    ensures forall c :: c in m.Abs().newAt ==> 0 <= c.0 < NEW_BUCKET_COUNT && 0 <= c.1 < BUCKET_SIZE
    ensures NewLeft(m.h, m.Abs(), 0, 0, Counts(m.Abs()))
  {
    var s := m.Abs();
    TableBounds(m.vvNew);
    forall id ensures SeenCells(s, 0, 0, id) == {} {
    }
    forall id | id in NewIds(s) ensures s.info[id].nRefCount > 0 { assert id in Counts(s); }
  }

  lemma NewEnds(m: CAddrMan, left: map<int, int>)
    requires m.Shaped() && NewLeft(m.h, m.Abs(), NEW_BUCKET_COUNT, 0, left)
    ensures NewCellsPass(m.h, m.Abs())
    ensures left.Keys == {} <==> CountsMatch(m.Abs())
  {
    var s := m.Abs();
    TableBounds(m.vvNew);
    assert forall c :: c in s.newAt ==> Before(c, NEW_BUCKET_COUNT, 0);
    forall id
      ensures SeenCells(s, NEW_BUCKET_COUNT, 0, id) == Cells(s, id)
    {
    }
    if left.Keys == {} {
      NoneLeft(left.Keys);
    }
    if CountsMatch(s) {
      forall id ensures id !in left.Keys {
      }
      SetsEqual(left.Keys, {});
    }
  }

  // ---------------------------------------------------------------- the check

  method Check(m: CAddrMan) returns (err: int)
    requires m.Shaped()
    ensures err == 0 <==> Passes(m.h, m.Abs())
    ensures err != 0 ==> Fault(m.h, m.Abs(), err)
  {
    ghost var s := m.Abs();
    hide Table, EntryFault, TriedFault, NewFault;
    hide EntriesPass;
    hide TriedCellsPass;
    hide TriedAllHeld;
    hide NewCellsPass;
    hide CountsMatch;
    if |m.vRandom| != m.nTried + m.nNew {
      return -7;
    }
    var setTried, mapNew;
    err, setTried, mapNew := CheckEntries(m);
    if err != 0 {
      return;
    }
    CountsAreNew(s);
    if |setTried| != m.nTried {
      return -9;
    }
    if |mapNew| != m.nNew {
      return -10;
    }
    var errTried, left := CheckTried(m, setTried);
    if errTried != 0 {
      return errTried;
    }
    CountsArePositive(s);
    var errNew, counts := CheckNew(m, mapNew);
    if errNew != 0 {
      return errNew;
    }
    if left != {} {
      return -13;
    }
    if counts.Keys != {} {
      return -15;
    }
    if m.nKey == 0 {
      return -16;
    }
    return 0;
  }

  lemma CountsArePositive(s: State)
    requires EntriesPass(s)
    ensures forall id :: id in Counts(s) ==> Counts(s)[id] > 0
  {
    assert forall id :: id in s.info ==> EntryPasses(s, id);
  }

  lemma CountsAreNew(s: State)
    ensures |Counts(s)| == |NewIds(s)| && forall id :: id in Counts(s) <==> id in NewIds(s)
  {
    assert Counts(s).Keys == NewIds(s);
  }

  /** So the check accepts every valid manager that has a key. */
  method CheckAcceptsValid(m: CAddrMan) returns (err: int)
    requires m.Valid() && m.nKey != 0
    ensures err == 0
  {
    err := Check(m);
    ConsistentPasses(m.h, m.Abs());
  }
}
