/**
 Whole runs of the address manager, on the view: soundness is kept by every
 operation, a tried peer is never forgotten, and a good peer becomes tried.
 */
module AddrManRuns {
  import opened AddrManState
  import opened AddrManSteps
  import opened AddrManSpec
  import opened Prelude

  /** One peer is well placed; `resting` peers may be in no table. */
  ghost predicate PeerSound(h: Hashes, key: Key, a: NetAddr, p: Peer, resting: bool) {
    && p.core.svc.net == a
    && p.core.nLastTry >= 0 && p.core.nLastSuccess >= 0
    && (p.tried ==> p.cells == {} && p.core.nLastSuccess > 0)
    && |p.cells| <= NEW_BUCKETS_PER_ADDRESS
    && (!p.tried && !resting ==> p.cells != {})
    && (forall c :: c in p.cells ==> 0 <= c.0 < NEW_BUCKET_COUNT && c == NewCell(h, key, c.0, p.core.svc))
  }

  /** No two peers share a cell of either table. */
  ghost predicate NoClash(h: Hashes, key: Key, v: View) {
    && (forall a, b, c :: a in v && b in v && c in v[a].cells && c in v[b].cells ==> a == b)
    && (forall a, b ::
          a in v && b in v && v[a].tried && v[b].tried &&
          TriedCell(h, key, v[a].core.svc) == TriedCell(h, key, v[b].core.svc) ==>
            a == b)
  }

  ghost predicate SoundBut(h: Hashes, key: Key, v: View, resting: set<NetAddr>) {
    && (forall a :: a in v ==> PeerSound(h, key, a, v[a], a in resting))
    && NoClash(h, key, v)
  }

  ghost predicate Sound(h: Hashes, key: Key, v: View) {
    SoundBut(h, key, v, {})
  }

  /**
   A promotion at time zero breaks the rules, for every peer that it promotes: the peer is tried
   and has no last success.  That is why times are positive.
   */
  lemma GoodAtTimeZero(h: Hashes, key: Key, v: View, svc: Service)
    requires Sound(h, key, v) && svc.net in v && v[svc.net].core.svc == svc
    ensures var w := GoodView(h, key, v, svc, 0);
      svc.net in w && w[svc.net].tried && w[svc.net].core.nLastSuccess == 0 && !Sound(h, key, w)
  {
    var w := GoodView(h, key, v, svc, 0);
    assert !PeerSound(h, key, svc.net, w[svc.net], false);
  }

  // ---------------------------------------------------------------- operations keep soundness

  lemma ClearedIsSound(h: Hashes, key: Key, v: View, resting: set<NetAddr>, c: Cell)
    requires SoundBut(h, key, v, resting)
    ensures SoundBut(h, key, ClearedView(v, c), resting)
    ensures forall a :: a in ClearedView(v, c) ==> c !in ClearedView(v, c)[a].cells
  {
    var w := ClearedView(v, c);
    forall a | a in w
      ensures PeerSound(h, key, a, w[a], a in resting)
    {
      assert PeerSound(h, key, a, v[a], a in resting);
      StillSome(v[a].cells, c);
      SubsetCount(w[a].cells, v[a].cells);
    }
  }

  lemma StillSome<T>(s: set<T>, x: T)
    requires s != {x}
    ensures s != {} ==> s - {x} != {}
  {
    if s != {} {
      var y :| y in s && y != x;
      assert y in s - {x};
    }
  }

  lemma SubsetCount<T>(a: set<T>, b: set<T>)
    requires a <= b
    ensures |a| <= |b|
  {
    var rest := b - a;
    assert b == a + rest;
  }

  lemma PeerPlaced(h: Hashes, key: Key, a: NetAddr, p: Peer, resting: bool, c: Cell)
    requires PeerSound(h, key, a, p, resting) && !p.tried && |p.cells| < NEW_BUCKETS_PER_ADDRESS
    requires 0 <= c.0 < NEW_BUCKET_COUNT && c == NewCell(h, key, c.0, p.core.svc)
    ensures PeerSound(h, key, a, p.(cells := p.cells + {c}), false)
  {
    hide NewCell;
    assert c in p.cells + {c};
  }

  lemma PlacedClashes(h: Hashes, key: Key, v: View, a: NetAddr, c: Cell)
    requires NoClash(h, key, v) && a in v && !v[a].tried && forall b :: b in v ==> c !in v[b].cells
    ensures NoClash(h, key, v[a := v[a].(cells := v[a].cells + {c})])
  {
    hide TriedCell;
  }

  /** A peer that rests takes a cell nobody holds. */
  lemma PlacedIsSound(h: Hashes, key: Key, v: View, resting: set<NetAddr>, a: NetAddr, bucket: int)
    requires SoundBut(h, key, v, resting) && a in v && !v[a].tried
    requires |v[a].cells| < NEW_BUCKETS_PER_ADDRESS && 0 <= bucket < NEW_BUCKET_COUNT
    requires var c := NewCell(h, key, bucket, v[a].core.svc); forall b :: b in v ==> c !in v[b].cells
    ensures var c := NewCell(h, key, bucket, v[a].core.svc);
      SoundBut(h, key, v[a := v[a].(cells := v[a].cells + {c})], resting - {a})
  {
    hide PeerSound, NoClash;
    var c := NewCell(h, key, bucket, v[a].core.svc);
    PeerPlaced(h, key, a, v[a], a in resting, c);
    PlacedClashes(h, key, v, a, c);
  }

  lemma PeerRecorded(h: Hashes, key: Key, a: NetAddr, p: Peer, resting: bool, core: Core)
    requires PeerSound(h, key, a, p, resting) && core.svc == p.core.svc
    requires core.nLastTry >= 0 && core.nLastSuccess >= 0 && (p.tried ==> core.nLastSuccess > 0)
    ensures PeerSound(h, key, a, p.(core := core), resting)
  {
    hide NewCell;
  }

  /** What no two peers share does not depend on more than their tables and their addresses. */
  lemma RecordedClashes(h: Hashes, key: Key, v: View, a: NetAddr, core: Core)
    requires NoClash(h, key, v) && a in v && core.svc == v[a].core.svc
    ensures NoClash(h, key, v[a := v[a].(core := core)])
  {
    hide TriedCell;
  }

  lemma RecordedIsSound(h: Hashes, key: Key, v: View, resting: set<NetAddr>, a: NetAddr, core: Core)
    requires SoundBut(h, key, v, resting) && a in v && core.svc == v[a].core.svc
    requires core.nLastTry >= 0 && core.nLastSuccess >= 0 && (v[a].tried ==> core.nLastSuccess > 0)
    ensures SoundBut(h, key, v[a := v[a].(core := core)], resting)
  {
    hide PeerSound, NoClash;
    PeerRecorded(h, key, a, v[a], a in resting, core);
    RecordedClashes(h, key, v, a, core);
  }

  lemma InsertIsSound(h: Hashes, key: Key, v: View, resting: set<NetAddr>, a: NetAddr, source: NetAddr, now: int)
    requires SoundBut(h, key, v, resting) && resting <= {a}
    requires a in v && !v[a].tried && |v[a].cells| < NEW_BUCKETS_PER_ADDRESS
    ensures Sound(h, key, InsertView(h, key, v, a, source, now))
  {
    hide PeerSound, NoClash;
    var c := HomeCell(h, key, v[a].core.svc, source);
    var w := InsertView(h, key, v, a, source, now);
    if c in v[a].cells {
      StopResting(h, key, v, resting, a);
    } else if Yields(v, c, |v[a].cells|, now) {
      ClearedIsSound(h, key, v, resting, c);
      assert v[a].cells - {c} == v[a].cells;
      assert v[a].cells != {c} by { assert c in {c}; }
      PlacedIsSound(h, key, ClearedView(v, c), resting, a, NewBucket(h, key, v[a].core.svc, source));
      assert resting - {a} == {};
    } else if v[a].cells == {} {
      DroppedIsSound(h, key, v, resting, a);
    } else {
      StopResting(h, key, v, resting, a);
    }
  }

  lemma StopResting(h: Hashes, key: Key, v: View, resting: set<NetAddr>, a: NetAddr)
    requires SoundBut(h, key, v, resting) && resting <= {a} && a in v && v[a].cells != {}
    ensures Sound(h, key, v)
  {
    forall b | b in v
      ensures PeerSound(h, key, b, v[b], false)
    {
      assert PeerSound(h, key, b, v[b], b in resting);
    }
  }

  lemma DroppedIsSound(h: Hashes, key: Key, v: View, resting: set<NetAddr>, a: NetAddr)
    requires SoundBut(h, key, v, resting) && resting <= {a}
    ensures Sound(h, key, v - {a})
  {
    forall b | b in v - {a}
      ensures PeerSound(h, key, b, (v - {a})[b], false)
    {
      assert PeerSound(h, key, b, v[b], b in resting);
    }
  }

  lemma AddIsSound(h: Hashes, key: Key, v: View, addr: Address, source: NetAddr, penalty: int, now: int, draw: nat)
    requires Sound(h, key, v)
    ensures Sound(h, key, AddView(h, key, v, addr, source, penalty, now, draw).0)
  {
    hide Penalised, InsertView;
    var a := addr.svc.net;
    if a in v {
      assert PeerSound(h, key, a, v[a], false);
      RecordedIsSound(h, key, v, {}, a, Refreshed(v[a].core, addr, penalty, now));
      var w := v[a := v[a].(core := Refreshed(v[a].core, addr, penalty, now))];
      if !w[a].tried && |w[a].cells| != NEW_BUCKETS_PER_ADDRESS {
        InsertIsSound(h, key, w, {}, a, source, now);
      }
    } else {
      var w := v[a := Peer(NewCore(addr, source, penalty), false, {})];
      forall b | b in w
        ensures PeerSound(h, key, b, w[b], b in {a})
      {
        if b != a {
          assert PeerSound(h, key, b, v[b], false);
        }
      }
      InsertIsSound(h, key, w, {a}, a, source, now);
    }
  }

  lemma EvictedIsSound(h: Hashes, key: Key, v: View, resting: set<NetAddr>, b: NetAddr)
    requires SoundBut(h, key, v, resting) && b in v && v[b].tried && b !in resting
    ensures SoundBut(h, key, EvictedView(h, key, v, b), resting)
  {
    hide NoClash, PeerSound, NewCell;
    var w := v[b := v[b].(tried := false)];
    PeerEmptied(h, key, b, v[b]);
    UntriedIsSound(h, key, v, resting, b);
    var c := HomeCell(h, key, v[b].core.svc, v[b].core.source);
    ClearedIsSound(h, key, w, resting + {b}, c);
    var u := ClearedView(w, c);
    assert u[b] == w[b];
    PlacedIsSound(h, key, u, resting + {b}, b, NewBucket(h, key, v[b].core.svc, v[b].core.source));
    assert resting + {b} - {b} == resting;
    assert u[b].cells + {c} == {c};
  }

  /** Eviction changes the evicted peer's table, and spares every peer in no cell. */
  lemma EvictedShape(h: Hashes, key: Key, v: View, b: NetAddr)
    requires b in v
    ensures forall a :: a in v && a != b && v[a].cells == {} ==>
      a in EvictedView(h, key, v, b) && EvictedView(h, key, v, b)[a] == v[a]
    ensures forall a :: a in EvictedView(h, key, v, b) ==>
      a in v && EvictedView(h, key, v, b)[a].core == v[a].core
      && (EvictedView(h, key, v, b)[a].tried <==> v[a].tried && a != b)
  {
  }

  lemma UntriedIsSound(h: Hashes, key: Key, v: View, resting: set<NetAddr>, b: NetAddr)
    requires SoundBut(h, key, v, resting) && b in v && v[b].tried
    ensures SoundBut(h, key, v[b := v[b].(tried := false)], resting + {b})
  {
    var w := v[b := v[b].(tried := false)];
    forall a | a in w
      ensures PeerSound(h, key, a, w[a], a in resting + {b})
    {
      assert PeerSound(h, key, a, v[a], a in resting);
    }
  }

  lemma PeerEmptied(h: Hashes, key: Key, a: NetAddr, p: Peer)
    requires PeerSound(h, key, a, p, false)
    ensures PeerSound(h, key, a, p, true) && PeerSound(h, key, a, p.(cells := {}), true)
    ensures p.tried ==> p.cells == {}
  {
  }

  /** A peer out of all cells rests. */
  lemma EmptiedIsSound(h: Hashes, key: Key, v: View, a: NetAddr)
    requires Sound(h, key, v) && a in v
    ensures SoundBut(h, key, v[a := v[a].(cells := {})], {a})
    ensures forall b :: b in v && v[b].tried ==> v[b].cells == {}
  {
    hide PeerSound, TriedCell;
    var v1 := v[a := v[a].(cells := {})];
    forall b | b in v
      ensures PeerSound(h, key, b, v1[b], b in {a}) && (v[b].tried ==> v[b].cells == {})
    {
      PeerEmptied(h, key, b, v[b]);
    }
  }

  lemma MakeTriedIsSound(h: Hashes, key: Key, v: View, a: NetAddr)
    requires Sound(h, key, v) && a in v && !v[a].tried && v[a].core.nLastSuccess > 0
    ensures Sound(h, key, MakeTriedView(h, key, v, a))
    ensures forall b :: b in v && (v[b].tried || b == a) ==> b in MakeTriedView(h, key, v, a)
    ensures MakeTriedView(h, key, v, a)[a] == v[a].(tried := true, cells := {})
  {
    hide PeerSound;
    var k := TriedCell(h, key, v[a].core.svc);
    var v1 := v[a := v[a].(cells := {})];
    EmptiedIsSound(h, key, v, a);
    if exists b :: HoldsTried(h, key, v1, b, k) {
      var b :| HoldsTried(h, key, v1, b, k) && MakeTriedView(h, key, v, a) ==
        EvictedView(h, key, v1, b)[a := v[a].(tried := true, cells := {})];
      EvictedIsSound(h, key, v1, {a}, b);
      EvictedShape(h, key, v1, b);
      TriedSurviveEviction(h, key, v1, b);
      var v2 := EvictedView(h, key, v1, b);
      assert forall d :: d in v2 && v2[d].tried ==> TriedCell(h, key, v2[d].core.svc) != k;
      PromotedIsSound(h, key, v2, a);
    } else {
      assert forall d :: d in v1 && v1[d].tried ==> HoldsTried(h, key, v1, d, TriedCell(h, key, v1[d].core.svc));
      PromotedIsSound(h, key, v1, a);
    }
  }

  lemma TriedSurviveEviction(h: Hashes, key: Key, v: View, b: NetAddr)
    requires b in v
    requires forall a :: a in v && v[a].tried ==> v[a].cells == {}
    ensures forall a :: a in v && v[a].tried ==> a in EvictedView(h, key, v, b)
  {
  }

  lemma PromotedIsSound(h: Hashes, key: Key, v: View, a: NetAddr)
    requires SoundBut(h, key, v, {a}) && a in v && v[a].core.nLastSuccess > 0
    requires forall d :: d in v && v[d].tried ==> TriedCell(h, key, v[d].core.svc) != TriedCell(h, key, v[a].core.svc)
    ensures Sound(h, key, v[a := v[a].(tried := true, cells := {})])
  {
    hide PeerSound, NoClash, TriedCell;
    PeerPromoted(h, key, a, v[a], true);
    PromotedClashes(h, key, v, a);
  }

  lemma PeerPromoted(h: Hashes, key: Key, a: NetAddr, p: Peer, resting: bool)
    requires PeerSound(h, key, a, p, resting) && p.core.nLastSuccess > 0
    ensures PeerSound(h, key, a, p.(tried := true, cells := {}), false)
  {
  }

  lemma PromotedClashes(h: Hashes, key: Key, v: View, a: NetAddr)
    requires NoClash(h, key, v) && a in v
    requires forall d :: d in v && v[d].tried ==> TriedCell(h, key, v[d].core.svc) != TriedCell(h, key, v[a].core.svc)
    ensures NoClash(h, key, v[a := v[a].(tried := true, cells := {})])
  {
    hide TriedCell;
  }

  lemma GoodIsSound(h: Hashes, key: Key, v: View, svc: Service, time: int)
    requires Sound(h, key, v) && time > 0
    ensures Sound(h, key, GoodView(h, key, v, svc, time))
    ensures forall b :: b in v && v[b].tried ==> b in GoodView(h, key, v, svc, time)
    ensures svc.net in v && v[svc.net].core.svc == svc ==>
      svc.net in GoodView(h, key, v, svc, time) && GoodView(h, key, v, svc, time)[svc.net].tried
  {
    hide PeerSound, NoClash, MakeTriedView;
    var a := svc.net;
    if a in v && v[a].core.svc == svc {
      var core := v[a].core.(nLastSuccess := time, nLastTry := time, nAttempts := 0);
      RecordedIsSound(h, key, v, {}, a, core);
      var w := v[a := v[a].(core := core)];
      if !w[a].tried {
        MakeTriedIsSound(h, key, w, a);
      }
    }
  }

  // ---------------------------------------------------------------- runs

  /** One call from outside, with the time and the random choice it meets. */
  datatype Call =
    | Add(addr: Address, routable: bool, source: NetAddr, penalty: int, now: int, draw: nat)
    | Good(svc: Service, time: int)
    | Attempt(svc: Service, time: int)
    | Connected(svc: Service, time: int)
    | GetAddr

  /** Times of calls are positive. */
  predicate Timely(call: Call) {
    match call
    case Good(_, time) => time > 0
    case Attempt(_, time) => time > 0
    case _ => true
  }

  ghost function After(h: Hashes, key: Key, v: View, call: Call): View {
    match call
    case Add(addr, routable, source, penalty, now, draw) =>
      if routable then AddView(h, key, v, addr, source, penalty, now, draw).0 else v
    case Good(svc, time) => GoodView(h, key, v, svc, time)
    case Attempt(svc, time) => AttemptView(v, svc, time)
    case Connected(svc, time) => ConnectedView(v, svc, time)
    case GetAddr => v
  }

  ghost function Run(h: Hashes, key: Key, v: View, calls: seq<Call>): View {
    if calls == [] then v else After(h, key, Run(h, key, v, calls[..|calls| - 1]), calls[|calls| - 1])
  }

  lemma StepIsSound(h: Hashes, key: Key, v: View, call: Call)
    requires Sound(h, key, v) && Timely(call)
    ensures Sound(h, key, After(h, key, v, call))
  {
    hide NoClash, AddView, GoodView;
    match call
    case Add(addr, routable, source, penalty, now, draw) =>
      AddIsSound(h, key, v, addr, source, penalty, now, draw);
    case Good(svc, time) =>
      GoodIsSound(h, key, v, svc, time);
    case Attempt(svc, time) =>
      if svc.net in v && v[svc.net].core.svc == svc {
        assert PeerSound(h, key, svc.net, v[svc.net], false);
        RecordedIsSound(h, key, v, {}, svc.net,
          v[svc.net].core.(nLastTry := time, nAttempts := v[svc.net].core.nAttempts + 1));
      }
    case Connected(svc, time) =>
      if svc.net in v && v[svc.net].core.svc == svc {
        assert PeerSound(h, key, svc.net, v[svc.net], false);
        RecordedIsSound(h, key, v, {}, svc.net, v[svc.net].core.(nTime := time % UINT32));
      }
    case GetAddr =>
  }

  /** Every run from an empty manager is sound. */
  lemma {:induction false} RunsAreSound(h: Hashes, key: Key, calls: seq<Call>)
    requires forall i :: 0 <= i < |calls| ==> Timely(calls[i])
    ensures Sound(h, key, Run(h, key, map[], calls))
  {
    if calls != [] {
      RunsAreSound(h, key, calls[..|calls| - 1]);
      StepIsSound(h, key, Run(h, key, map[], calls[..|calls| - 1]), calls[|calls| - 1]);
    }
  }

  /** A peer in the "tried" table survives any one call: at worst it is evicted to its home cell. */
  lemma TriedSurvives(h: Hashes, key: Key, v: View, call: Call, a: NetAddr)
    requires Sound(h, key, v) && Timely(call) && a in v && v[a].tried
    ensures a in After(h, key, v, call)
    ensures !call.Good? ==> After(h, key, v, call)[a].tried
  {
    hide NoClash, GoodView;
    assert PeerSound(h, key, a, v[a], false);
    match call
    case Add(addr, routable, source, penalty, now, draw) =>
    case Good(svc, time) =>
      GoodIsSound(h, key, v, svc, time);
    case Attempt(svc, time) =>
    case Connected(svc, time) =>
    case GetAddr =>
  }

  // ---------------------------------------------------------------- the tables show a sound view

  function Nets(s: State, ids: set<int>): set<NetAddr>
    requires ids <= s.info.Keys
  {
    set id | id in ids :: s.info[id].core.svc.net
  }

  lemma {:induction false} NetsCount(s: State, ids: set<int>)
    requires IdsOk(s) && ids <= s.info.Keys
    ensures |Nets(s, ids)| == |ids|
  {
    if ids != {} {
      var id := AnyOf(ids);
      NetsCount(s, ids - {id});
      var a := s.info[id].core.svc.net;
      forall i | i in ids && i != id
        ensures s.info[i].core.svc.net != a
      {
        assert s.ids[s.info[i].core.svc.net] == i && s.ids[a] == id;
      }
      assert Nets(s, ids) == Nets(s, ids - {id}) + {a};
    } else {
      assert Nets(s, ids) == {};
    }
  }

  /** How many peers the view shows in each table. */
  function TriedPeers(v: View): set<NetAddr> { set a | a in v && v[a].tried }

  function NewPeers(v: View): set<NetAddr> { set a | a in v && !v[a].tried }

  /**
   The tables of a consistent manager show a sound view, and its two counters
   count the peers of each kind.
   */
  lemma {:induction false} ConsistentShowsSound(h: Hashes, s: State)
    requires Consistent(h, s)
    ensures Sound(h, s.key, ViewOf(s))
    ensures s.nTried == |TriedPeers(ViewOf(s))| && s.nNew == |NewPeers(ViewOf(s))|
  {
    hide Partial, RandomOk;
    Parts(h, s, {}, 0);
    ShowsSound(h, s);
    ShowsCounts(s);
  }

  lemma ShowsSound(h: Hashes, s: State)
    requires IdsOk(s) && TriedOk(h, s) && FreshOk(h, s) && RefsOk(s, {}) && TimesOk(s)
    ensures Sound(h, s.key, ViewOf(s))
  {
    var v := ViewOf(s);
    forall a | a in v
      ensures PeerSound(h, s.key, a, v[a], false)
    {
      var id := s.ids[a];
      assert v[a] == PeerOf(s, id);
      if v[a].tried {
        NoCells(h, s, id);
      }
    }
    forall a, b, c | a in v && b in v && c in v[a].cells && c in v[b].cells
      ensures a == b
    {
      HolderIsUnique(s, c);
      assert s.ids[a] == s.ids[b];
    }
  }

  lemma ShowsCounts(s: State)
    requires IdsOk(s) && CountsOk(s, 0)
    ensures s.nTried == |TriedPeers(ViewOf(s))| && s.nNew == |NewPeers(ViewOf(s))|
  {
    NetsCount(s, TriedIds(s));
    NetsCount(s, NewIds(s));
    ShowsKinds(s);
  }

  lemma ShowsKinds(s: State)
    requires IdsOk(s)
    ensures Nets(s, TriedIds(s)) == TriedPeers(ViewOf(s)) && Nets(s, NewIds(s)) == NewPeers(ViewOf(s))
  {
    var v := ViewOf(s);
    forall a | a in TriedPeers(v) ensures a in Nets(s, TriedIds(s)) { assert s.ids[a] in TriedIds(s); }
    forall a | a in NewPeers(v) ensures a in Nets(s, NewIds(s)) { assert s.ids[a] in NewIds(s); }
    forall a | a in Nets(s, TriedIds(s)) + Nets(s, NewIds(s))
      ensures a in v && s.info[s.ids[a]].fInTried == v[a].tried
    {
    }
  }
}
