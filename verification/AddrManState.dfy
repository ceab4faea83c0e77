/**
 The address manager's data: ids, addresses, the random order and the two
 bucket tables, as one value, together with the primitive steps every
 operation is made of and the consistency conditions that relate the parts.

 A table is the map of its occupied cells; the empty marker -1 of the code
 is an absent cell.  A cell is a pair (bucket, position in the bucket).
 */
module AddrManState {

  /** The size of a table, whose highest bits a stream needs for its version. */
  type Size = n: nat | 0 < n < 0x4000_0000 witness 1

  // The sizes are arbitrary; the original has 256, 1024, 64, 8, 8 and 64.
  const TRIED_BUCKET_COUNT: Size
  const NEW_BUCKET_COUNT: Size
  const BUCKET_SIZE: Size
  const NEW_BUCKETS_PER_ADDRESS: Size
  const TRIED_BUCKETS_PER_GROUP: Size
  const NEW_BUCKETS_PER_SOURCE_GROUP: Size

  // A network address is its sixteen bytes read as a number.
  datatype NetAddr = NetAddr(ip: nat)
  datatype Service = Service(net: NetAddr, port: nat)
  // Service flags are the set of the bits that are one.
  datatype Address = Address(svc: Service, services: set<nat>, nTime: nat)

  type Key = nat
  type Cell = (int, int)

  type Group = nat

  /** The address range of an address, and the keyed hashes, before reduction to a table size. */
  datatype Hashes = Hashes(
    group: NetAddr -> Group,
    serviceHash: (Key, Service) -> nat,
    triedHash: (Key, Group, nat) -> nat,
    rangeHash: (Key, Group, Group) -> nat,
    newHash: (Key, Group, nat) -> nat,
    positionHash: (Key, bool, int, Service) -> nat)

  function TriedBucket(h: Hashes, key: Key, svc: Service): nat {
    var hash1 := h.serviceHash(key, svc);
    h.triedHash(key, h.group(svc.net), hash1 % TRIED_BUCKETS_PER_GROUP) % TRIED_BUCKET_COUNT
  }

  function NewBucket(h: Hashes, key: Key, svc: Service, source: NetAddr): nat {
    var hash1 := h.rangeHash(key, h.group(svc.net), h.group(source));
    h.newHash(key, h.group(source), hash1 % NEW_BUCKETS_PER_SOURCE_GROUP) % NEW_BUCKET_COUNT
  }

  function Position(h: Hashes, key: Key, isNew: bool, bucket: int, svc: Service): nat {
    h.positionHash(key, isNew, bucket, svc) % BUCKET_SIZE
  }

  function TriedCell(h: Hashes, key: Key, svc: Service): Cell {
    var b := TriedBucket(h, key, svc);
    (b, Position(h, key, false, b, svc))
  }

  function NewCell(h: Hashes, key: Key, bucket: int, svc: Service): Cell {
    (bucket, Position(h, key, true, bucket, svc))
  }

  /** What is known about a peer, whatever table it is in. */
  datatype Core = Core(
    svc: Service, services: set<nat>, nTime: nat, source: NetAddr,
    nLastSuccess: int, nLastTry: int, nAttempts: int)

  datatype AddrInfo = AddrInfo(core: Core, nRefCount: int, fInTried: bool, nRandomPos: int)

  datatype State = State(
    key: Key,
    nIdCount: int,
    info: map<int, AddrInfo>,
    ids: map<NetAddr, int>,
    rnd: seq<int>,
    nTried: int,
    triedAt: map<Cell, int>,
    nNew: int,
    newAt: map<Cell, int>)

  // ---------------------------------------------------------------- consistency

  /** The cells of the "new" table that hold `id`. */
  function Cells(s: State, id: int): set<Cell> {
    set c | c in s.newAt && s.newAt[c] == id
  }

  function TriedIds(s: State): set<int> { set id | id in s.info && s.info[id].fInTried }

  function NewIds(s: State): set<int> { set id | id in s.info && !s.info[id].fInTried }

  /** `vRandom` and the positions stored in the entries are inverse to each other. */
  ghost predicate RandomOk(s: State) {
    && (forall id :: id in s.info ==>
          0 <= s.info[id].nRandomPos < |s.rnd| && s.rnd[s.info[id].nRandomPos] == id)
    && (forall i :: 0 <= i < |s.rnd| ==> s.rnd[i] in s.info && s.info[s.rnd[i]].nRandomPos == i)
  }

  /** `mapAddr` and the addresses stored in the entries are inverse to each other. */
  ghost predicate IdsOk(s: State) {
    && s.nIdCount >= 0
    && (forall id :: id in s.info ==>
          0 <= id < s.nIdCount && s.info[id].core.svc.net in s.ids && s.ids[s.info[id].core.svc.net] == id)
    && (forall a :: a in s.ids ==> s.ids[a] in s.info && s.info[s.ids[a]].core.svc.net == a)
  }

  ghost predicate TriedOk(h: Hashes, s: State) {
    && (forall c :: c in s.triedAt ==>
          && s.triedAt[c] in s.info && s.info[s.triedAt[c]].fInTried
          && c == TriedCell(h, s.key, s.info[s.triedAt[c]].core.svc))
    && (forall id :: id in s.info && s.info[id].fInTried ==>
          var c := TriedCell(h, s.key, s.info[id].core.svc);
          c in s.triedAt && s.triedAt[c] == id)
  }

  ghost predicate FreshOk(h: Hashes, s: State) {
    forall c :: c in s.newAt ==>
      && s.newAt[c] in s.info && !s.info[s.newAt[c]].fInTried
      && 0 <= c.0 < NEW_BUCKET_COUNT
      && c == NewCell(h, s.key, c.0, s.info[s.newAt[c]].core.svc)
  }

  /** Reference counts count cells; only entries in `limbo` may be in no table. */
  ghost predicate RefsOk(s: State, limbo: set<int>) {
    forall id :: id in s.info ==>
      && s.info[id].nRefCount == |Cells(s, id)| <= NEW_BUCKETS_PER_ADDRESS
      && (!s.info[id].fInTried && id !in limbo ==> s.info[id].nRefCount > 0)
  }

  /** The counters, with `pending` untried entries not yet counted. */
  ghost predicate CountsOk(s: State, pending: int) {
    s.nTried == |TriedIds(s)| && s.nNew + pending == |NewIds(s)|
  }

  ghost predicate TimesOk(s: State) {
    forall id :: id in s.info ==>
      && s.info[id].core.nLastTry >= 0 && s.info[id].core.nLastSuccess >= 0
      && (s.info[id].fInTried ==> s.info[id].core.nLastSuccess > 0)
  }

  /** The state between two steps of one operation. */
  ghost predicate Partial(h: Hashes, s: State, limbo: set<int>, pending: int) {
    && RandomOk(s) && IdsOk(s)
    && TriedOk(h, s) && FreshOk(h, s)
    && RefsOk(s, limbo) && CountsOk(s, pending)
    && TimesOk(s)
  }

  /** The state between operations. */
  ghost predicate Consistent(h: Hashes, s: State) {
    Partial(h, s, {}, 0)
  }

  // ---------------------------------------------------------------- the view

  /** A peer as an outside observer sees it: ids and the random order are hidden. */
  datatype Peer = Peer(core: Core, tried: bool, cells: set<Cell>)

  type View = map<NetAddr, Peer>

  function PeerOf(s: State, id: int): Peer
    requires id in s.info
  {
    Peer(s.info[id].core, s.info[id].fInTried, Cells(s, id))
  }

  function ViewOf(s: State): View
    requires IdsOk(s)
  {
    map a | a in s.ids :: PeerOf(s, s.ids[a])
  }

  // ---------------------------------------------------------------- primitive steps

  function Created(s: State, addr: Address, source: NetAddr): State {
    var core := Core(addr.svc, addr.services, addr.nTime, source, 0, 0, 0);
    s.(nIdCount := s.nIdCount + 1,
       info := s.info[s.nIdCount := AddrInfo(core, 0, false, |s.rnd|)],
       ids := s.ids[addr.svc.net := s.nIdCount],
       rnd := s.rnd + [s.nIdCount])
  }

  function Swapped(s: State, i: int, j: int): State
    requires RandomOk(s)
    requires 0 <= i < |s.rnd| && 0 <= j < |s.rnd|
  {
    if i == j then s else
      var id1, id2 := s.rnd[i], s.rnd[j];
      var info1 := s.info[id1 := s.info[id1].(nRandomPos := j)];
      s.(info := info1[id2 := info1[id2].(nRandomPos := i)],
         rnd := s.rnd[i := id2][j := id1])
  }

  /** Take the last entry of the random order out. */
  function Removed(s: State): State
    requires |s.rnd| > 0 && s.rnd[|s.rnd| - 1] in s.info
  {
    var id := s.rnd[|s.rnd| - 1];
    s.(rnd := s.rnd[..|s.rnd| - 1],
       ids := s.ids - {s.info[id].core.svc.net},
       info := s.info - {id},
       nNew := s.nNew - 1)
  }

  function Deleted(s: State, id: int): State
    requires RandomOk(s) && id in s.info
  {
    Removed(Swapped(s, s.info[id].nRandomPos, |s.rnd| - 1))
  }

  /** Change the entry of `id` in the part that no table depends on. */
  function WithCore(s: State, id: int, core: Core): State
    requires id in s.info
  {
    s.(info := s.info[id := s.info[id].(core := core)])
  }

  /** One reference from the "new" table less. */
  function Dropped(s: State, c: Cell): State
    requires c in s.newAt && s.newAt[c] in s.info
  {
    var id := s.newAt[c];
    s.(info := s.info[id := s.info[id].(nRefCount := s.info[id].nRefCount - 1)],
       newAt := s.newAt - {c})
  }

  /** One reference from the "new" table more. */
  function Placed(s: State, c: Cell, id: int): State
    requires id in s.info
  {
    s.(info := s.info[id := s.info[id].(nRefCount := s.info[id].nRefCount + 1)],
       newAt := s.newAt[c := id])
  }

  function Cleared(s: State, c: Cell): State
    requires RandomOk(s)
    requires c in s.newAt ==> s.newAt[c] in s.info
  {
    if c !in s.newAt then s else
      var t := Dropped(s, c);
      if t.info[s.newAt[c]].nRefCount == 0 then
        assert RandomOk(t);
        Deleted(t, s.newAt[c])
      else t
  }

  /** Out of the "tried" table, and in no table for the moment. */
  function Untried(s: State, c: Cell): State
    requires c in s.triedAt && s.triedAt[c] in s.info
  {
    var id := s.triedAt[c];
    s.(info := s.info[id := s.info[id].(fInTried := false)],
       triedAt := s.triedAt - {c},
       nTried := s.nTried - 1)
  }

  /** Into the "tried" table. */
  function Promoted(s: State, c: Cell, id: int): State
    requires id in s.info
  {
    s.(info := s.info[id := s.info[id].(fInTried := true)],
       triedAt := s.triedAt[c := id],
       nTried := s.nTried + 1)
  }
}
