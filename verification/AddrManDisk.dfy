/**
 The address manager on disk (core/src/addrman.h).  The stream is a sequence
 of typed values; the byte layout of one value is left out.
 */
module AddrManDisk {
  import opened AddrManState
  import opened AddrManSteps
  import opened AddrManSpec
  import opened AddrManImpl

  datatype Token =
    | Byte(b: int)
    | KeyToken(key: Key)
    | Int(i: int)
    | Info(core: Core)

  const BIT30: int := 0x4000_0000

  /** Flip bit 30 of a 32-bit integer. */
  function FlipBit30(n: int): int {
    if (n / BIT30) % 2 == 0 then n + BIT30 else n - BIT30
  }

  /** What a stream says, before it is cut into values. */
  datatype Image = Image(key: Key, news: seq<Core>, trieds: seq<Core>, rows: seq<seq<int>>)

  function Header(key: Key, nNew: int, nTried: int): (r: seq<Token>)
    ensures |r| == 6
  {
    [Byte(1), Byte(32), KeyToken(key), Int(nNew), Int(nTried), Int(FlipBit30(NEW_BUCKET_COUNT))]
  }

  function Infos(cores: seq<Core>): (r: seq<Token>)
    ensures |r| == |cores| && forall i :: 0 <= i < |r| ==> r[i] == Info(cores[i])
  {
    seq(|cores|, i requires 0 <= i < |cores| => Info(cores[i]))
  }

  function Row(row: seq<int>): (r: seq<Token>)
    ensures |r| == |row| + 1 && r[0] == Int(|row|)
    ensures forall i :: 0 <= i < |row| ==> r[i + 1] == Int(row[i])
  {
    [Int(|row|)] + seq(|row|, i requires 0 <= i < |row| => Int(row[i]))
  }

  function Rows(rows: seq<seq<int>>): seq<Token> {
    if rows == [] then [] else Rows(rows[..|rows| - 1]) + Row(rows[|rows| - 1])
  }

  function Written(img: Image): seq<Token> {
    Header(img.key, |img.news|, |img.trieds|) + Infos(img.news) + Infos(img.trieds) + Rows(img.rows)
  }

  /** The last try is not stored; it is reset on reading. */
  function Stored(core: Core): Core {
    core.(nLastTry := 0)
  }

  function Forgotten(v: View): View {
    map a | a in v :: v[a].(core := Stored(v[a].core))
  }

  /** `cores` lists the peers of `v` of one kind, each once, as they are stored. */
  ghost predicate Lists(v: View, tried: bool, cores: seq<Core>) {
    && (forall i :: 0 <= i < |cores| ==>
          var a := cores[i].svc.net; a in v && v[a].tried == tried && cores[i] == Stored(v[a].core))
    && (forall i, j :: 0 <= i < j < |cores| ==> cores[i].svc.net != cores[j].svc.net)
    && (forall a :: a in v && v[a].tried == tried ==> exists i :: 0 <= i < |cores| && cores[i].svc.net == a)
  }

  /** `row` lists the new peers of bucket `b`. */
  ghost predicate RowOk(h: Hashes, key: Key, v: View, news: seq<Core>, b: int, row: seq<int>) {
    && (forall k :: 0 <= k < |row| ==> 0 <= row[k] < |news|)
    && (forall k, l :: 0 <= k < l < |row| ==> row[k] != row[l])
    && (forall i :: 0 <= i < |news| && news[i].svc.net in v ==>
          (i in row <==> NewCell(h, key, b, news[i].svc) in v[news[i].svc.net].cells))
  }

  ghost predicate Represents(h: Hashes, v: View, img: Image) {
    && Lists(v, false, img.news) && Lists(v, true, img.trieds)
    && |img.rows| == NEW_BUCKET_COUNT
    && (forall b :: 0 <= b < NEW_BUCKET_COUNT ==> RowOk(h, img.key, v, img.news, b, img.rows[b]))
  }

  // ---------------------------------------------------------------- writing

  ghost predicate OfKind(s: State, tried: bool, id: int) {
    id in s.info && s.info[id].fInTried == tried
  }

  /** `ids` are the entries of one kind below `bound`, in ascending order. */
  ghost predicate Collected(s: State, tried: bool, bound: int, ids: seq<int>) {
    && (forall k :: 0 <= k < |ids| ==> OfKind(s, tried, ids[k]) && ids[k] < bound)
    && (forall k, l :: 0 <= k < l < |ids| ==> ids[k] < ids[l])
    && (forall id :: OfKind(s, tried, id) && id < bound ==> id in ids)
  }

  lemma CollectedStarts(s: State, tried: bool)
    requires IdsOk(s)
    ensures Collected(s, tried, 0, [])
  {
  }

  lemma CollectedSkips(s: State, tried: bool, id: int, ids: seq<int>)
    requires Collected(s, tried, id, ids) && !OfKind(s, tried, id)
    ensures Collected(s, tried, id + 1, ids)
  {
  }

  lemma CollectedGrows(s: State, tried: bool, id: int, ids: seq<int>)
    requires Collected(s, tried, id, ids) && OfKind(s, tried, id)
    ensures Collected(s, tried, id + 1, ids + [id])
    ensures id !in ids
  {
    var more := ids + [id];
    assert more[|ids|] == id;
    forall x | OfKind(s, tried, x) && x < id + 1
      ensures x in more
    {
      if x < id { assert x in ids; }
    }
  }

  lemma CollectedLists(s: State, tried: bool, ids: seq<int>, cores: seq<Core>)
    requires IdsOk(s) && Collected(s, tried, s.nIdCount, ids)
    requires |cores| == |ids| && forall k :: 0 <= k < |ids| && ids[k] in s.info ==> cores[k] == Stored(s.info[ids[k]].core)
    ensures Lists(ViewOf(s), tried, cores)
  {
    forall i | 0 <= i < |cores|
      ensures var a := cores[i].svc.net; a in ViewOf(s) && s.ids[a] == ids[i] && ViewOf(s)[a] == PeerOf(s, ids[i])
    {
      assert OfKind(s, tried, ids[i]);
    }
    forall i, j | 0 <= i < j < |cores|
      ensures cores[i].svc.net != cores[j].svc.net
    {
      assert ids[i] < ids[j];
    }
    forall a | a in ViewOf(s) && ViewOf(s)[a].tried == tried
      ensures exists i :: 0 <= i < |cores| && cores[i].svc.net == a
    {
      assert OfKind(s, tried, s.ids[a]);
      var i :| 0 <= i < |ids| && ids[i] == s.ids[a];
      assert cores[i].svc.net == a;
    }
  }

  /** The counters are reached only after the last entry of their kind. */
  lemma NotYetAll(s: State, tried: bool, ids: seq<int>, id: int)
    requires CountsOk(s, 0) && Collected(s, tried, id, ids) && OfKind(s, tried, id)
    ensures |ids| != if tried then s.nTried else s.nNew
  {
    var all := if tried then TriedIds(s) else NewIds(s);
    var done := set x | x in ids;
    DistinctCount(ids, done);
    assert id !in done && done + {id} <= all;
    FewerThan(done, id, all);
  }

  lemma FewerThan(done: set<int>, id: int, all: set<int>)
    requires id !in done && done + {id} <= all
    ensures |done| < |all|
  {
    assert all == done + {id} + (all - done - {id});
  }

  /** Occupied cells of bucket `b` below position `p`. */
  function Occupancy(t: array2<int>, b: int, p: int): (n: nat)
    requires 0 <= b < t.Length0 && 0 <= p <= t.Length1
    reads t
  {
    if p == 0 then 0 else Occupancy(t, b, p - 1) + if t[b, p - 1] != -1 then 1 else 0
  }

  method CountRow(m: CAddrMan, bucket: int) returns (nSize: int)
    requires m.Shaped() && 0 <= bucket < NEW_BUCKET_COUNT
    ensures nSize == Occupancy(m.vvNew, bucket, BUCKET_SIZE)
  {
    nSize := 0;
    for i := 0 to BUCKET_SIZE
      invariant nSize == Occupancy(m.vvNew, bucket, i)
    {
      if m.vvNew[bucket, i] != -1 {
        nSize := nSize + 1;
      }
    }
  }

  /** Write one row of bucket indices. */
  method WriteRow(m: CAddrMan, bucket: int, unk: map<int, int>, ghost ids: seq<int>, ghost news: seq<Core>)
    returns (out: seq<Token>, ghost row: seq<int>)
    requires m.Valid() && 0 <= bucket < NEW_BUCKET_COUNT
    requires Collected(m.Abs(), false, m.nIdCount, ids) && |news| == |ids|
    requires forall k :: 0 <= k < |ids| && ids[k] in m.mapInfo ==> news[k] == Stored(m.mapInfo[ids[k]].core)
    requires forall k :: 0 <= k < |ids| ==> ids[k] in unk && unk[ids[k]] == k
    ensures out == Row(row)
    ensures IdsOk(m.Abs()) && RowOk(m.h, m.nKey, m.Peers(), news, bucket, row)
  {
    hide Partial, RandomOk, IdsOk, TriedOk, FreshOk, RefsOk, CountsOk, TimesOk, Table, RowSoFar, Collected;
    ghost var s := m.Abs();
    Parts(m.h, s, {}, 0);
    var nSize := CountRow(m, bucket);
    out := [Int(nSize)];
    row := [];
    RowStarts(s, ids, bucket);
    for i := 0 to BUCKET_SIZE
      invariant |row| == Occupancy(m.vvNew, bucket, i)
      invariant |out| == |row| + 1 && out[0] == Int(nSize)
      invariant forall k :: 0 <= k < |row| ==> out[k + 1] == Int(row[k])
      invariant RowSoFar(s, ids, bucket, i, row)
    {
      m.Vacant(bucket, i);
      if m.vvNew[bucket, i] != -1 {
        HolderCollected(m.h, s, ids, (bucket, i));
        var nIndex := unk[m.vvNew[bucket, i]];
        RowGrows(m.h, s, ids, bucket, i, row, nIndex);
        out := out + [Int(nIndex)];
        row := row + [nIndex];
      } else {
        RowStays(s, ids, bucket, i, row);
      }
    }
    assert out == Row(row);
    RowIsOk(m.h, s, ids, news, bucket, row);
  }

  /** Entry `id` stands in bucket `b` below position `p`. */
  ghost predicate Below(s: State, b: int, p: int, id: int) {
    exists q :: 0 <= q < p && (b, q) in s.newAt && s.newAt[(b, q)] == id
  }

  /** `row` lists the entries of bucket `b` below position `p`, by their place in `ids`. */
  ghost predicate RowSoFar(s: State, ids: seq<int>, b: int, p: int, row: seq<int>) {
    && (forall k :: 0 <= k < |row| ==> 0 <= row[k] < |ids| && Below(s, b, p, ids[row[k]]))
    && (forall k, l :: 0 <= k < l < |row| ==> row[k] != row[l])
    && (forall k :: 0 <= k < |ids| && Below(s, b, p, ids[k]) ==> k in row)
  }

  lemma RowStarts(s: State, ids: seq<int>, b: int)
    ensures RowSoFar(s, ids, b, 0, [])
  {
  }

  lemma RowStays(s: State, ids: seq<int>, b: int, p: int, row: seq<int>)
    requires RowSoFar(s, ids, b, p, row) && (b, p) !in s.newAt
    ensures RowSoFar(s, ids, b, p + 1, row)
  {
    forall x ensures Below(s, b, p + 1, x) <==> Below(s, b, p, x) {
    }
  }

  lemma RowGrows(h: Hashes, s: State, ids: seq<int>, b: int, p: int, row: seq<int>, k0: int)
    requires FreshOk(h, s) && RowSoFar(s, ids, b, p, row) && 0 <= p
    requires 0 <= k0 < |ids| && (b, p) in s.newAt && s.newAt[(b, p)] == ids[k0]
    requires Collected(s, false, s.nIdCount, ids)
    ensures RowSoFar(s, ids, b, p + 1, row + [k0])
  {
    HolderBelow(h, s, b, p, ids[k0]);
    var more := row + [k0];
    forall k | 0 <= k < |ids| && Below(s, b, p + 1, ids[k])
      ensures k in more
    {
      if ids[k] == ids[k0] {
        assert k == k0 && more[|row|] == k0;
      } else {
        assert k in row;
      }
    }
  }

  lemma HolderCollected(h: Hashes, s: State, ids: seq<int>, c: Cell)
    requires IdsOk(s) && FreshOk(h, s) && Collected(s, false, s.nIdCount, ids) && c in s.newAt
    ensures exists k :: 0 <= k < |ids| && ids[k] == s.newAt[c]
  {
    assert OfKind(s, false, s.newAt[c]);
  }

  lemma HolderBelow(h: Hashes, s: State, b: int, p: int, id: int)
    requires FreshOk(h, s) && (b, p) in s.newAt && s.newAt[(b, p)] == id && 0 <= p
    ensures !Below(s, b, p, id)
    ensures forall x :: Below(s, b, p + 1, x) <==> x == id || Below(s, b, p, x)
  {
    assert forall q :: (b, q) in s.newAt && s.newAt[(b, q)] == id ==> (b, q) == NewCell(h, s.key, b, s.info[id].core.svc);
    forall x | x == id || Below(s, b, p, x)
      ensures Below(s, b, p + 1, x)
    {
    }
  }

  lemma RowIsOk(h: Hashes, s: State, ids: seq<int>, news: seq<Core>, b: int, row: seq<int>)
    requires IdsOk(s) && FreshOk(h, s) && Collected(s, false, s.nIdCount, ids) && |news| == |ids|
    requires forall k :: 0 <= k < |ids| && ids[k] in s.info ==> news[k] == Stored(s.info[ids[k]].core)
    requires RowSoFar(s, ids, b, BUCKET_SIZE, row)
    ensures RowOk(h, s.key, ViewOf(s), news, b, row)
  {
    var v := ViewOf(s);
    forall i | 0 <= i < |news| && news[i].svc.net in v
      ensures i in row <==> NewCell(h, s.key, b, news[i].svc) in v[news[i].svc.net].cells
    {
      assert OfKind(s, false, ids[i]);
      var c := NewCell(h, s.key, b, news[i].svc);
      assert v[news[i].svc.net] == PeerOf(s, ids[i]);
      if c in Cells(s, ids[i]) {
        assert (b, c.1) in s.newAt;
        assert Below(s, b, BUCKET_SIZE, ids[i]);
      }
      if i in row {
        var q :| 0 <= q < BUCKET_SIZE && (b, q) in s.newAt && s.newAt[(b, q)] == ids[i];
        assert (b, q) == c;
      }
    }
  }

  /** A stream that says `img`, which stands for the peers of `v`. */
  ghost predicate Says(h: Hashes, key: Key, v: View, s: seq<Token>, img: Image) {
    s == Written(img) && img.key == key && Represents(h, v, img)
  }

  method Serialize(m: CAddrMan) returns (out: seq<Token>)
    requires m.Valid()
    ensures exists img :: Says(m.h, m.nKey, m.Peers(), out, img)
  {
    hide Partial, RandomOk, IdsOk, TriedOk, FreshOk, RefsOk, CountsOk, TimesOk, Table, RowOk, Lists;
    ghost var s := m.Abs();
    Parts(m.h, s, {}, 0);
    out := [Byte(1), Byte(32), KeyToken(m.nKey), Int(m.nNew), Int(m.nTried), Int(FlipBit30(NEW_BUCKET_COUNT))];
    var infos, mapUnkIds, ids, news := WriteNew(m);
    out := out + infos;
    var infos', ids', trieds := WriteTried(m);
    out := out + infos';
    ghost var rows := [];
    var tail := [];
    for bucket := 0 to NEW_BUCKET_COUNT
      invariant |rows| == bucket && tail == Rows(rows)
      invariant forall b :: 0 <= b < bucket ==> RowOk(m.h, m.nKey, m.Peers(), news, b, rows[b])
    {
      var line, row := WriteRow(m, bucket, mapUnkIds, ids, news);
      assert (rows + [row])[..bucket] == rows;
      tail := tail + line;
      rows := rows + [row];
    }
    out := out + tail;
    ghost var img := Image(m.nKey, news, trieds, rows);
    assert Says(m.h, m.nKey, m.Peers(), out, img);
  }

  method WriteNew(m: CAddrMan) returns (out: seq<Token>, mapUnkIds: map<int, int>, ghost ids: seq<int>, ghost news: seq<Core>)
    requires m.Valid()
    ensures out == Infos(news) && |news| == |ids| == m.nNew
    ensures Collected(m.Abs(), false, m.nIdCount, ids)
    ensures forall k :: 0 <= k < |ids| && ids[k] in m.mapInfo ==> news[k] == Stored(m.mapInfo[ids[k]].core)
    ensures forall k :: 0 <= k < |ids| ==> ids[k] in mapUnkIds && mapUnkIds[ids[k]] == k
    ensures IdsOk(m.Abs()) && Lists(m.Peers(), false, news)
  {
    hide Partial, RandomOk, IdsOk, TriedOk, FreshOk, RefsOk, CountsOk, TimesOk, Table, Lists, Collected;
    ghost var s := m.Abs();
    Parts(m.h, s, {}, 0);
    CollectedStarts(s, false);
    out, mapUnkIds, ids, news := [], map[], [], [];
    var nIds := 0;
    CountFromZero(s);
    for id := 0 to m.nIdCount
      invariant nIds == |ids| == |news| && out == Infos(news)
      invariant Collected(s, false, id, ids)
      invariant forall k :: 0 <= k < |ids| && ids[k] in m.mapInfo ==> news[k] == Stored(m.mapInfo[ids[k]].core)
      invariant forall k :: 0 <= k < |ids| ==> ids[k] in mapUnkIds && mapUnkIds[ids[k]] == k
    {
      if id in m.mapInfo {
        mapUnkIds := mapUnkIds[id := nIds];
        var info := m.mapInfo[id];
        ReferencedIsNew(m.h, s, id);
        if info.nRefCount != 0 {
          NotYetAll(s, false, ids, id);
          assert nIds != m.nNew;
          CollectedGrows(s, false, id, ids);
          out := out + [Info(Stored(info.core))];
          news := news + [Stored(info.core)];
          ids := ids + [id];
          nIds := nIds + 1;
        } else {
          CollectedSkips(s, false, id, ids);
        }
      } else {
        CollectedSkips(s, false, id, ids);
      }
    }
    AllCollected(s, false, ids);
    CollectedLists(s, false, ids, news);
  }

  method WriteTried(m: CAddrMan) returns (out: seq<Token>, ghost ids: seq<int>, ghost trieds: seq<Core>)
    requires m.Valid()
    ensures out == Infos(trieds) && |trieds| == m.nTried
    ensures IdsOk(m.Abs()) && Lists(m.Peers(), true, trieds)
  {
    hide Partial, RandomOk, IdsOk, TriedOk, FreshOk, RefsOk, CountsOk, TimesOk, Table, Lists, Collected;
    ghost var s := m.Abs();
    Parts(m.h, s, {}, 0);
    CollectedStarts(s, true);
    out, ids, trieds := [], [], [];
    var nIds := 0;
    CountFromZero(s);
    for id := 0 to m.nIdCount
      invariant nIds == |ids| == |trieds| && out == Infos(trieds)
      invariant Collected(s, true, id, ids)
      invariant forall k :: 0 <= k < |ids| && ids[k] in m.mapInfo ==> trieds[k] == Stored(m.mapInfo[ids[k]].core)
    {
      if id in m.mapInfo {
        var info := m.mapInfo[id];
        if info.fInTried {
          NotYetAll(s, true, ids, id);
          assert nIds != m.nTried;
          CollectedGrows(s, true, id, ids);
          out := out + [Info(Stored(info.core))];
          trieds := trieds + [Stored(info.core)];
          ids := ids + [id];
          nIds := nIds + 1;
        } else {
          CollectedSkips(s, true, id, ids);
        }
      } else {
        CollectedSkips(s, true, id, ids);
      }
    }
    AllCollected(s, true, ids);
    CollectedLists(s, true, ids, trieds);
  }

  lemma CountFromZero(s: State)
    requires IdsOk(s)
    ensures 0 <= s.nIdCount
    ensures forall id :: id in s.info ==> 0 <= id < s.nIdCount
  {
  }

  lemma ReferencedIsNew(h: Hashes, s: State, id: int)
    requires RefsOk(s, {}) && FreshOk(h, s) && id in s.info
    ensures s.info[id].nRefCount != 0 <==> !s.info[id].fInTried
  {
    if s.info[id].fInTried {
      NoCells(h, s, id);
    }
  }

  lemma AllCollected(s: State, tried: bool, ids: seq<int>)
    requires IdsOk(s) && CountsOk(s, 0) && Collected(s, tried, s.nIdCount, ids)
    ensures |ids| == if tried then s.nTried else s.nNew
  {
    var all := if tried then TriedIds(s) else NewIds(s);
    forall id ensures id in all <==> id in ids {
      if id in all {
        assert OfKind(s, tried, id);
      }
      if id in ids {
        var k :| 0 <= k < |ids| && ids[k] == id;
        assert OfKind(s, tried, id);
      }
    }
    DistinctCount(ids, all);
  }
}
