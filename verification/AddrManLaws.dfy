/**
 What the public calls of the address manager do to each peer, told without the specification's
 own words, and how far one address range can spread (core/src/addrman.cpp:17-61, 202-336, 456-501;
 core/src/addrman.h:115-160).
 */
module AddrManLaws {
  import opened Arithmetic
  import opened Numerals
  import opened AddrManState
  import opened AddrManSteps
  import opened AddrManSpec
  import opened AddrManRuns
  import opened Prelude

  // ---------------------------------------------------------------- where peers belong

  /** The cell in which `source` can put a service: in a bucket of its own range, at a place by bucket and service. */
  ghost predicate IsHome(h: Hashes, key: Key, svc: Service, source: NetAddr, c: Cell) {
    var range := h.rangeHash(key, h.group(svc.net), h.group(source)) % NEW_BUCKETS_PER_SOURCE_GROUP;
    && c.0 == h.newHash(key, h.group(source), range) % NEW_BUCKET_COUNT
    && c.1 == h.positionHash(key, true, c.0, svc) % BUCKET_SIZE
  }

  ghost predicate IsTriedHome(h: Hashes, key: Key, svc: Service, c: Cell) {
    var own := h.serviceHash(key, svc) % TRIED_BUCKETS_PER_GROUP;
    && c.0 == h.triedHash(key, h.group(svc.net), own) % TRIED_BUCKET_COUNT
    && c.1 == h.positionHash(key, false, c.0, svc) % BUCKET_SIZE
  }

  lemma HomeIs(h: Hashes, key: Key, svc: Service, source: NetAddr, c: Cell)
    ensures IsHome(h, key, svc, source, c) <==> c == HomeCell(h, key, svc, source)
    ensures IsTriedHome(h, key, svc, c) <==> c == TriedCell(h, key, svc)
  {
  }

  lemma {:induction false} FewValues(f: nat -> nat, n: nat) returns (s: set<nat>)
    ensures |s| <= n && forall i: nat :: i < n ==> f(i) in s
  {
    if n == 0 {
      s := {};
    } else {
      var t := FewValues(f, n - 1);
      s := t + {f(n - 1)};
    }
  }

  /** Whatever peers one source range reports, they go into few buckets. */
  lemma SourceSpreadsLittle(h: Hashes, key: Key, g: Group) returns (buckets: set<nat>)
    ensures |buckets| <= NEW_BUCKETS_PER_SOURCE_GROUP
    ensures forall svc: Service, source: NetAddr, c: Cell ::
      h.group(source) == g && IsHome(h, key, svc, source, c) ==> c.0 in buckets
  {
    var f: nat -> nat := i => h.newHash(key, g, i) % NEW_BUCKET_COUNT;
    buckets := FewValues(f, NEW_BUCKETS_PER_SOURCE_GROUP);
    forall svc: Service, source: NetAddr, c: Cell | h.group(source) == g && IsHome(h, key, svc, source, c)
      ensures c.0 in buckets
    {
      assert c.0 == f(h.rangeHash(key, h.group(svc.net), g) % NEW_BUCKETS_PER_SOURCE_GROUP);
    }
  }

  lemma RangeSpreadsLittle(h: Hashes, key: Key, g: Group) returns (buckets: set<nat>)
    ensures |buckets| <= TRIED_BUCKETS_PER_GROUP
    ensures forall svc: Service :: h.group(svc.net) == g ==> TriedBucket(h, key, svc) in buckets
  {
    var f: nat -> nat := i => h.triedHash(key, g, i) % TRIED_BUCKET_COUNT;
    buckets := FewValues(f, TRIED_BUCKETS_PER_GROUP);
    forall svc: Service | h.group(svc.net) == g
      ensures TriedBucket(h, key, svc) in buckets
    {
      assert TriedBucket(h, key, svc) == f(h.serviceHash(key, svc) % TRIED_BUCKETS_PER_GROUP);
    }
  }

  /** The tried peers of one address range. */
  function TriedOf(h: Hashes, v: View, g: Group): set<NetAddr> {
    set a | a in v && v[a].tried && h.group(a) == g
  }

  lemma {:induction false} Places(buckets: set<nat>) returns (cells: set<Cell>)
    ensures |cells| == |buckets| * BUCKET_SIZE
    ensures forall b: nat, p: nat :: b in buckets && p < BUCKET_SIZE ==> (b, p) in cells
    ensures forall c :: c in cells ==> c.0 in buckets
    decreases |buckets|
  {
    if buckets == {} {
      cells := {};
    } else {
      var b :| b in buckets;
      var rest := Places(buckets - {b});
      var row := RowPlaces(b, BUCKET_SIZE);
      cells := rest + row;
      assert rest !! row;
    }
  }

  lemma {:induction false} RowPlaces(b: nat, n: nat) returns (cells: set<Cell>)
    ensures |cells| == n && (forall p: nat :: p < n ==> (b, p) in cells) && forall c :: c in cells ==> c.0 == b && c.1 < n
  {
    if n == 0 {
      cells := {};
    } else {
      var rest := RowPlaces(b, n - 1);
      cells := rest + {(b, n - 1)};
    }
  }

  /** Peers with cells of their own are no more than the cells. */
  lemma {:induction false} NoMoreThanCells(h: Hashes, key: Key, v: View, peers: set<NetAddr>, cells: set<Cell>)
    requires NoClash(h, key, v)
    requires forall a :: a in peers ==> a in v && v[a].tried && TriedCell(h, key, v[a].core.svc) in cells
    ensures |peers| <= |cells|
    decreases |peers|
  {
    hide TriedCell;
    if peers != {} {
      var a :| a in peers;
      var c := TriedCell(h, key, v[a].core.svc);
      NoMoreThanCells(h, key, v, peers - {a}, cells - {c});
    }
  }

  /** One address range never has more tried peers than its few buckets have places. */
  lemma RangeIsBounded(h: Hashes, key: Key, v: View, g: Group)
    requires Sound(h, key, v)
    ensures |TriedOf(h, v, g)| <= TRIED_BUCKETS_PER_GROUP * BUCKET_SIZE
  {
    var buckets := RangeSpreadsLittle(h, key, g);
    var cells := Places(buckets);
    forall a | a in TriedOf(h, v, g)
      ensures TriedCell(h, key, v[a].core.svc) in cells
    {
      assert PeerSound(h, key, a, v[a], false);
    }
    NoMoreThanCells(h, key, v, TriedOf(h, v, g), cells);
    MulMonotone(|buckets|, TRIED_BUCKETS_PER_GROUP, BUCKET_SIZE);
  }

  // ---------------------------------------------------------------- who is worth keeping

  /**
   The rules for presentable peers: one tried within the last minute always is; otherwise not one from
   the future, without a time or of more than thirty days ago, nor after three failures without success,
   nor after ten failures with the last success more than a week ago; and everyone else is.
   */
  lemma WhoIsPresentable(v: View, now: int, a: NetAddr)
    requires a in v
    ensures var p := v[a].core;
      var recent := p.nLastTry != 0 && now - p.nLastTry <= 60;
      && (recent ==> a in Presentable(v, now))
      && (!recent && p.nTime - now > 600 ==> a !in Presentable(v, now))
      && (!recent && p.nTime == 0 ==> a !in Presentable(v, now))
      && (!recent && now - p.nTime > 2592000 ==> a !in Presentable(v, now))
      && (!recent && p.nLastSuccess == 0 && p.nAttempts > 2 ==> a !in Presentable(v, now))
      && (!recent && now - p.nLastSuccess > 604800 && p.nAttempts > 9 ==> a !in Presentable(v, now))
      && (0 < p.nTime && -600 <= now - p.nTime <= 2592000
          && (p.nAttempts <= 2 || (p.nLastSuccess != 0 && (p.nAttempts <= 9 || now - p.nLastSuccess <= 604800)))
          ==> a in Presentable(v, now))
  {
  }

  // ---------------------------------------------------------------- Add

  /**
   A known peer is seen again: its time is renewed exactly when a time is told and the old one is missing
   or far enough behind, services are united, and nothing else about it changes.
   */
  lemma AddRefreshes(h: Hashes, key: Key, v: View, addr: Address, source: NetAddr, penalty: int, now: int, draw: nat)
    requires addr.svc.net in v && Sound(h, key, v)
    ensures var (w, fNew) := AddView(h, key, v, addr, source, penalty, now, draw);
      var a := addr.svc.net;
      var gap := if now - addr.nTime < 86400 then 3600 else 86400;
      && !fNew && a in w && w[a].tried == v[a].tried
      && w[a].core.services == v[a].core.services + addr.services
      && w[a].core.nTime == (
           if addr.nTime != 0 && (v[a].core.nTime == 0 || addr.nTime - v[a].core.nTime > gap + penalty)
           then (if addr.nTime > penalty then addr.nTime - penalty else 0) % 0x1_0000_0000
           else v[a].core.nTime)
      && w[a].core.svc == v[a].core.svc && w[a].core.source == v[a].core.source
      && w[a].core.nLastSuccess == v[a].core.nLastSuccess && w[a].core.nLastTry == v[a].core.nLastTry
      && w[a].core.nAttempts == v[a].core.nAttempts
  {
    hide NoClash, HomeCell, Yields;
    assert PeerSound(h, key, addr.svc.net, v[addr.svc.net], false);
  }

  /** What a peer entering cell `c` does to another one. */
  ghost predicate Displaced(v: View, w: View, b: NetAddr, c: Cell)
    requires b in v
  {
    if c in v[b].cells
    then (b in w <==> v[b].cells != {c}) && (b in w ==> w[b] == v[b].(cells := v[b].cells - {c}))
    else b in w && w[b] == v[b]
  }

  /** Nobody stands in the way of a peer with `refs` cells. */
  ghost predicate MakesWay(v: View, c: Cell, refs: nat, now: int) {
    forall b :: b in v && c in v[b].cells ==> b !in Presentable(v, now) || (|v[b].cells| > 1 && refs == 0)
  }

  lemma Entering(h: Hashes, key: Key, v: View, a: NetAddr, source: NetAddr, now: int, c: Cell)
    requires a in v && c == HomeCell(h, key, v[a].core.svc, source) && c !in v[a].cells
    ensures var w := InsertView(h, key, v, a, source, now);
      if MakesWay(v, c, |v[a].cells|, now)
      then a in w && w.Keys <= v.Keys && w[a] == v[a].(cells := v[a].cells + {c}) && forall b :: b in v && b != a ==> Displaced(v, w, b, c)
      else w == if v[a].cells == {} then v - {a} else v
  {
    hide HomeCell, IsTerrible;
    assert MakesWay(v, c, |v[a].cells|, now) <==> Yields(v, c, |v[a].cells|, now);
    hide MakesWay, Yields;
    assert v[a].cells != {c};
    assert v[a].cells - {c} == v[a].cells;
  }

  /** Changing one peer's core does not change who stands where. */
  lemma SameWay(v: View, w: View, a: NetAddr, c: Cell, refs: nat, now: int)
    requires a in w && c !in w[a].cells && (a in v ==> c !in v[a].cells)
    requires v.Keys <= w.Keys && (forall b :: b in v && b != a ==> w[b] == v[b]) && w.Keys <= v.Keys + {a}
    ensures MakesWay(w, c, refs, now) <==> MakesWay(v, c, refs, now)
  {
    hide IsTerrible;
    forall b | b in v && b != a
      ensures b in Presentable(v, now) <==> b in Presentable(w, now)
    {
    }
  }

  /** Each cell a peer has makes the next one twice as rare: of 2^refs random numbers in a row, one is for it. */
  lemma OneInMany(refs: nat, from: nat) returns (d: nat)
    ensures from <= d < from + Pow(2, refs)
    ensures forall e: nat :: from <= e < from + Pow(2, refs) ==> (Falls(e, refs) <==> e == d)
  {
    PowPositive(2, refs);
    d := OneMultiple(Pow(2, refs), from);
  }

  lemma OneMultiple(n: nat, from: nat) returns (d: nat)
    requires n > 0
    ensures from <= d < from + n
    ensures forall e: nat :: from <= e < from + n ==> (e % n == 0 <==> e == d)
  {
    var q := (from + n - 1) / n;
    d := q * n;
    QuotientRemainder(from + n - 1, n);
    MultipleOf(q, n);
    forall e: nat | from <= e < from + n && e % n == 0
      ensures e == d
    {
      QuotientRemainder(e, n);
      Distribute(e / n, -q, n);
      Spread(e / n - q, n);
    }
  }

  /**
   A known peer gets one cell more, its home cell with that source, exactly when a time is told that is
   news after the renewal, it is not tried, in fewer than the most cells and not in that one already, the
   draw falls for it, and whoever is in the cell is terrible; that one loses the cell.
   */
  lemma AddSpreads(h: Hashes, key: Key, v: View, addr: Address, source: NetAddr, penalty: int, now: int, draw: nat, c: Cell)
    requires addr.svc.net in v && Sound(h, key, v)
    requires IsHome(h, key, v[addr.svc.net].core.svc, source, c)
    ensures var w, a := AddView(h, key, v, addr, source, penalty, now, draw).0, addr.svc.net;
      a in w &&
      var enters :=
        && addr.nTime != 0 && (w[a].core.nTime == 0 || addr.nTime > w[a].core.nTime)
        && !v[a].tried && |v[a].cells| < NEW_BUCKETS_PER_ADDRESS && Falls(draw, |v[a].cells|) && c !in v[a].cells
        && forall b :: b in v && c in v[b].cells ==> b !in Presentable(v, now);
      && w[a].cells == v[a].cells + (if enters then {c} else {})
      && w.Keys <= v.Keys
      && forall b :: b in v && b != a ==> if enters then Displaced(v, w, b, c) else b in w && w[b] == v[b]
  {
    hide Refreshed, IsTerrible, InsertView, Sound, Displaced, Presentable, MakesWay, Falls;
    var a := addr.svc.net;
    HomeIs(h, key, v[a].core.svc, source, c);
    hide HomeCell, IsHome;
    CellsOfPeer(h, key, v, a);
    RefreshedSvc(v[a].core, addr, penalty, now);
    var u := v[a := v[a].(core := Refreshed(v[a].core, addr, penalty, now))];
    if v[a].tried {
      assert v[a].cells + {} == v[a].cells;
    } else if c in v[a].cells {
      Staying(h, key, u, a, source, now, c);
    } else {
      Entering(h, key, u, a, source, now, c);
      SameWay(v, u, a, c, |v[a].cells|, now);
      OnlyTheTerrible(v, c, |v[a].cells|, now);
      SameDisplacement(v, u, InsertView(h, key, u, a, source, now), a, c);
    }
  }

  lemma Staying(h: Hashes, key: Key, v: View, a: NetAddr, source: NetAddr, now: int, c: Cell)
    requires a in v && c == HomeCell(h, key, v[a].core.svc, source) && c in v[a].cells
    ensures InsertView(h, key, v, a, source, now) == v
  {
  }

  lemma OnlyTheTerrible(v: View, c: Cell, refs: nat, now: int)
    requires refs > 0
    ensures MakesWay(v, c, refs, now) <==> forall b :: b in v && c in v[b].cells ==> b !in Presentable(v, now)
  {
    hide Presentable;
  }

  lemma SameDisplacement(v: View, u: View, w: View, a: NetAddr, c: Cell)
    requires v.Keys <= u.Keys && forall b :: b in v && b != a ==> u[b] == v[b]
    ensures forall b :: b in v && b != a ==> (Displaced(u, w, b, c) <==> Displaced(v, w, b, c))
  {
  }

  lemma CellsOfPeer(h: Hashes, key: Key, v: View, a: NetAddr)
    requires Sound(h, key, v) && a in v
    ensures |v[a].cells| <= NEW_BUCKETS_PER_ADDRESS && v[a].core.svc.net == a
    ensures v[a].tried <==> v[a].cells == {}
    ensures v[a].tried <==> |v[a].cells| == 0
  {
    assert PeerSound(h, key, a, v[a], false);
  }

  lemma RefreshedSvc(core: Core, addr: Address, penalty: int, now: int)
    ensures Refreshed(core, addr, penalty, now).svc == core.svc
  {
  }

  /**
   A new peer enters, as it was reported, exactly when whoever is in its home cell is terrible or stands
   in other cells too; otherwise nothing changes.
   */
  lemma AddIntroduces(h: Hashes, key: Key, v: View, addr: Address, source: NetAddr, penalty: int, now: int, draw: nat, c: Cell)
    requires addr.svc.net !in v && IsHome(h, key, addr.svc, source, c)
    ensures var (w, fNew) := AddView(h, key, v, addr, source, penalty, now, draw);
      var a := addr.svc.net;
      && fNew && w.Keys <= v.Keys + {a}
      && (a in w <==> forall b :: b in v && c in v[b].cells ==> b !in Presentable(v, now) || |v[b].cells| > 1)
      && (a in w ==> Introduced(w[a], addr, source, penalty, c))
      && forall b :: b in v ==> if a in w then Displaced(v, w, b, c) else b in w && w[b] == v[b]
  {
    hide IsTerrible, InsertView, Presentable, Displaced;
    HomeIs(h, key, addr.svc, source, c);
    hide HomeCell, IsHome;
    var a := addr.svc.net;
    var u := v[a := Peer(NewCore(addr, source, penalty), false, {})];
    Entering(h, key, u, a, source, now, c);
    SameWay(v, u, a, c, 0, now);
    SameDisplacement(v, u, InsertView(h, key, u, a, source, now), a, c);
    assert {} + {c} == {c};
  }

  /** A newcomer: what was told of it, with the penalty taken off its time, and no history. */
  ghost predicate Introduced(p: Peer, addr: Address, source: NetAddr, penalty: int, c: Cell) {
    && p.core.svc == addr.svc && p.core.services == addr.services && p.core.source == source
    && p.core.nTime == (if addr.nTime > penalty then addr.nTime - penalty else 0) % 0x1_0000_0000
    && p.core.nLastSuccess == p.core.nLastTry == p.core.nAttempts == 0
    && !p.tried && p.cells == {c}
  }

  // ---------------------------------------------------------------- Good, Attempt, Connected

  /** The peer in tried cell `k`, if there is one. */
  ghost predicate OnlyHolder(h: Hashes, key: Key, v: View, b: NetAddr, k: Cell) {
    b in v && v[b].tried && IsTriedHome(h, key, v[b].core.svc, k)
  }

  /** A promotion: no failures any more, success and try at that moment, the time of sighting untouched, and in no "new" cell. */
  lemma GoodPromotes(h: Hashes, key: Key, v: View, svc: Service, time: int)
    requires Sound(h, key, v) && time > 0 && svc.net in v && v[svc.net].core.svc == svc
    ensures var w, a := GoodView(h, key, v, svc, time), svc.net;
      && a in w && w[a].tried && w[a].cells == {}
      && w[a].core.nLastSuccess == time && w[a].core.nLastTry == time && w[a].core.nAttempts == 0
      && w[a].core.nTime == v[a].core.nTime && w[a].core.services == v[a].core.services
      && w[a].core.source == v[a].core.source && w[a].core.svc == svc
      && (v[a].tried ==> forall b :: b in v && b != a ==> b in w && w[b] == v[b])
  {
    var a := svc.net;
    assert PeerSound(h, key, a, v[a], false);
    hide PeerSound, NoClash;
  }

  lemma NobodyHolds(h: Hashes, key: Key, v: View, u: View, a: NetAddr, k: Cell)
    requires u.Keys == v.Keys && forall b :: b in v ==> u[b].tried == v[b].tried && u[b].core.svc == v[b].core.svc
    ensures (exists b :: HoldsTried(h, key, u, b, k)) <==> (exists b :: OnlyHolder(h, key, v, b, k))
    ensures forall b :: HoldsTried(h, key, u, b, k) <==> OnlyHolder(h, key, v, b, k)
  {
    forall b: NetAddr
      ensures HoldsTried(h, key, u, b, k) <==> OnlyHolder(h, key, v, b, k)
    {
      if b in v { HomeIs(h, key, v[b].core.svc, b, k); }
    }
  }

  /** Without an occupant of its tried cell, a promotion changes no other peer. */
  lemma GoodIntoEmpty(h: Hashes, key: Key, v: View, svc: Service, time: int, k: Cell)
    requires Sound(h, key, v) && svc.net in v && v[svc.net].core.svc == svc && !v[svc.net].tried
    requires IsTriedHome(h, key, svc, k) && forall b :: !OnlyHolder(h, key, v, b, k)
    ensures var w, a := GoodView(h, key, v, svc, time), svc.net;
      forall b :: b in v && b != a ==> b in w && w[b] == v[b]
  {
    HomeIs(h, key, svc, svc.net, k);
    var a := svc.net;
    var u := v[a := v[a].(core := v[a].core.(nLastSuccess := time, nLastTry := time, nAttempts := 0))];
    NobodyHolds(h, key, v, u[a := u[a].(cells := {})], a, k);
    hide Sound, TriedCell, EvictedView;
  }

  /**
   With an occupant, that one goes back to the "new" table, to its home cell with the source that it
   came from; whoever stood there loses that cell, and nobody else is touched.
   */
  lemma GoodEvicts(h: Hashes, key: Key, v: View, svc: Service, time: int, k: Cell, b: NetAddr, c: Cell)
    requires Sound(h, key, v) && svc.net in v && v[svc.net].core.svc == svc && !v[svc.net].tried
    requires IsTriedHome(h, key, svc, k) && OnlyHolder(h, key, v, b, k)
    requires IsHome(h, key, v[b].core.svc, v[b].core.source, c)
    ensures var w, a := GoodView(h, key, v, svc, time), svc.net;
      && b != a && b in w && w[b] == v[b].(tried := false, cells := {c})
      && forall d :: d in v && d != a && d != b ==> Displaced(v, w, d, c)
  {
    hide PeerSound;
    var a := svc.net;
    HomeIs(h, key, svc, a, k);
    HomeIs(h, key, v[b].core.svc, b, k);
    HomeIs(h, key, v[b].core.svc, v[b].core.source, c);
    var p := v[a].(core := v[a].core.(nLastSuccess := time, nLastTry := time, nAttempts := 0));
    var u := v[a := p][a := p.(cells := {})];
    assert HoldsTried(h, key, u, b, k);
    forall d | HoldsTried(h, key, u, d, k)
      ensures d == b
    {
      assert d != a;
    }
    TriedHasNoCells(h, key, v, b);
    hide NoClash, HomeCell, TriedCell, Sound;
  }

  lemma TriedHasNoCells(h: Hashes, key: Key, v: View, b: NetAddr)
    requires Sound(h, key, v) && b in v && v[b].tried
    ensures v[b].cells == {}
  {
    assert PeerSound(h, key, b, v[b], false);
  }

  /** A failed or pending connection: one attempt more at that moment, for exactly that service. */
  lemma AttemptCounts(v: View, svc: Service, time: int, b: NetAddr)
    requires b in v
    ensures var w := AttemptView(v, svc, time);
      && w.Keys == v.Keys && w[b].tried == v[b].tried && w[b].cells == v[b].cells
      && w[b].core.nAttempts - v[b].core.nAttempts == (if v[b].core.svc == svc && b == svc.net then 1 else 0)
      && w[b].core.nLastTry == (if v[b].core.svc == svc && b == svc.net then time else v[b].core.nLastTry)
      && w[b].core.nTime == v[b].core.nTime && w[b].core.nLastSuccess == v[b].core.nLastSuccess
      && w[b].core.(nAttempts := 0, nLastTry := 0) == v[b].core.(nAttempts := 0, nLastTry := 0)
  {
  }

  /** A connected peer: its time moves only when it is more than twenty minutes behind. */
  lemma ConnectedMoves(v: View, svc: Service, time: nat, b: NetAddr)
    requires b in v && time < 0x1_0000_0000
    ensures var w := ConnectedView(v, svc, time);
      && w.Keys == v.Keys && w[b] == v[b].(core := v[b].core.(nTime := w[b].core.nTime))
      && w[b].core.nTime == (if v[b].core.svc == svc && b == svc.net && v[b].core.nTime < time - 1200 then time else v[b].core.nTime)
  {
  }
}
