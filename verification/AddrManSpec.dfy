/**
 What the operations of the address manager do, told on the view alone: no
 ids, no random order, no counters, no tables.
 */
module AddrManSpec {
  import opened Numerals
  import opened AddrManState
  import opened AddrManSteps

  const UINT32: int := 0x1_0000_0000

  /** Whether an entry may be overwritten. */
  predicate IsTerrible(core: Core, now: int) {
    if core.nLastTry != 0 && core.nLastTry >= now - 60 then false
    else if core.nTime > now + 10 * 60 then true
    else if core.nTime == 0 || now - core.nTime > 30 * 24 * 60 * 60 then true
    else if core.nLastSuccess == 0 && core.nAttempts >= 3 then true
    else now - core.nLastSuccess > 7 * 24 * 60 * 60 && core.nAttempts >= 10
  }

  /** A penalised time, stored in 32 bits. */
  function Penalised(nTime: nat, penalty: int): nat {
    (if nTime - penalty < 0 then 0 else nTime - penalty) % UINT32
  }

  /** A known entry after it is seen again. */
  function Refreshed(core: Core, addr: Address, penalty: int, now: int): Core {
    var interval := if now - addr.nTime < 24 * 60 * 60 then 60 * 60 else 24 * 60 * 60;
    var renew := addr.nTime != 0 && (core.nTime == 0 || core.nTime < addr.nTime - interval - penalty);
    core.(nTime := if renew then Penalised(addr.nTime, penalty) else core.nTime,
          services := core.services + addr.services)
  }

  function NewCore(addr: Address, source: NetAddr, penalty: int): Core {
    Core(addr.svc, addr.services, Penalised(addr.nTime, penalty), source, 0, 0, 0)
  }

  /** The cell of the "new" table a peer belongs to when `source` reports it. */
  function HomeCell(h: Hashes, key: Key, svc: Service, source: NetAddr): Cell {
    NewCell(h, key, NewBucket(h, key, svc, source), svc)
  }

  /** Peer `a` takes cell `c`; whoever stood there loses it. */
  function PlacedView(v: View, a: NetAddr, c: Cell): View
    requires a in v
  {
    ClearedView(v, c)[a := v[a].(cells := v[a].cells + {c})]
  }

  /** The peer in cell `c` of the "new" table may be overwritten by one with `refs` references. */
  ghost predicate Yields(v: View, c: Cell, refs: nat, now: int) {
    forall b :: b in v && c in v[b].cells ==>
      IsTerrible(v[b].core, now) || (|v[b].cells| > 1 && refs == 0)
  }

  ghost function InsertView(h: Hashes, key: Key, v: View, a: NetAddr, source: NetAddr, now: int): View
    requires a in v
  {
    var c := HomeCell(h, key, v[a].core.svc, source);
    if c in v[a].cells then v
    else if Yields(v, c, |v[a].cells|, now) then PlacedView(v, a, c)
    else if v[a].cells == {} then v - {a}
    else v
  }

  /** Another cell for a peer in `refs` cells: one random number in 2^refs is for it. */
  predicate Falls(draw: nat, refs: nat) {
    PowPositive(2, refs);
    draw % Pow(2, refs) == 0
  }

  /** `Add_`: the new view and the answer. */
  ghost function AddView(h: Hashes, key: Key, v: View, addr: Address, source: NetAddr,
                         penalty: int, now: int, draw: nat): (View, bool)
  {
    var a := addr.svc.net;
    if a in v then
      var p := v[a].(core := Refreshed(v[a].core, addr, penalty, now));
      var w := v[a := p];
      if addr.nTime == 0 || (p.core.nTime != 0 && addr.nTime <= p.core.nTime)
         || p.tried || |p.cells| == NEW_BUCKETS_PER_ADDRESS || !Falls(draw, |p.cells|)
      then (w, false)
      else (InsertView(h, key, w, a, source, now), false)
    else
      var w := v[a := Peer(NewCore(addr, source, penalty), false, {})];
      (InsertView(h, key, w, a, source, now), true)
  }

  /** Peer `b` stands in cell `k` of the "tried" table. */
  predicate HoldsTried(h: Hashes, key: Key, v: View, b: NetAddr, k: Cell) {
    b in v && v[b].tried && TriedCell(h, key, v[b].core.svc) == k
  }

  /** A tried peer goes back to its home cell in the "new" table. */
  function EvictedView(h: Hashes, key: Key, v: View, b: NetAddr): View
    requires b in v
  {
    var c := HomeCell(h, key, v[b].core.svc, v[b].core.source);
    ClearedView(v[b := v[b].(tried := false)], c)[b := v[b].(tried := false, cells := {c})]
  }

  ghost function MakeTriedView(h: Hashes, key: Key, v: View, a: NetAddr): View
    requires a in v
  {
    var k := TriedCell(h, key, v[a].core.svc);
    var v1 := v[a := v[a].(cells := {})];
    var v2 := if exists b :: HoldsTried(h, key, v1, b, k)
      then var b :| HoldsTried(h, key, v1, b, k); EvictedView(h, key, v1, b)
      else v1;
    v2[a := v[a].(tried := true, cells := {})]
  }

  /** `Good_`: the peer answered at time `time`. */
  ghost function GoodView(h: Hashes, key: Key, v: View, svc: Service, time: int): View {
    var a := svc.net;
    if a in v && v[a].core.svc == svc then
      var p := v[a].(core := v[a].core.(nLastSuccess := time, nLastTry := time, nAttempts := 0));
      if p.tried then v[a := p] else MakeTriedView(h, key, v[a := p], a)
    else v
  }

  /** `Attempt_`: a connection was tried. */
  function AttemptView(v: View, svc: Service, time: int): View {
    var a := svc.net;
    if a in v && v[a].core.svc == svc
    then v[a := v[a].(core := v[a].core.(nLastTry := time, nAttempts := v[a].core.nAttempts + 1))]
    else v
  }

  /** `Connected_`: the peer is connected at the moment. */
  function ConnectedView(v: View, svc: Service, time: int): View {
    var a := svc.net;
    if a in v && v[a].core.svc == svc && time - v[a].core.nTime > 20 * 60
    then v[a := v[a].(core := v[a].core.(nTime := time % UINT32))]
    else v
  }

  /** The peers worth telling others about. */
  function Presentable(v: View, now: int): set<NetAddr> {
    set a | a in v && !IsTerrible(v[a].core, now)
  }

  function AddressOf(core: Core): Address {
    Address(core.svc, core.services, core.nTime)
  }

  /** `answer` tells each of the peers `told` exactly once, and as they are known. */
  ghost predicate Tells(v: View, answer: seq<Address>, told: set<NetAddr>) {
    && |answer| == |told|
    && (forall i :: 0 <= i < |answer| ==>
          var a := answer[i].svc.net; a in told && a in v && answer[i] == Address(v[a].core.svc, v[a].core.services, v[a].core.nTime))
    && (forall i, j :: 0 <= i < j < |answer| ==> answer[i].svc.net != answer[j].svc.net)
  }
}
