/**
 Reading the address manager back from a stream: any stream is read without
 a crash, and a written one restores the same peers in the same cells.
 */
module AddrManLoad {
  import opened Arithmetic
  import opened AddrManState
  import opened AddrManSteps
  import opened AddrManSpec
  import opened AddrManImpl
  import opened AddrManRuns
  import opened AddrManDisk
  import opened AddrManReading
  import opened Prelude

  // ---------------------------------------------------------------- where things are in a stream

  lemma WrittenAt(img: Image)
    ensures |Written(img)| == 6 + |img.news| + |img.trieds| + |Rows(img.rows)|
    ensures Written(img)[..6] == Header(img.key, |img.news|, |img.trieds|)
    ensures forall i :: 0 <= i < |img.news| ==> Written(img)[6 + i] == Info(img.news[i])
    ensures forall i :: 0 <= i < |img.trieds| ==> Written(img)[6 + |img.news| + i] == Info(img.trieds[i])
    ensures Written(img)[6 + |img.news| + |img.trieds|..] == Rows(img.rows)
  {
    hide Header, Infos, Rows;
    var a, b, c, d := Header(img.key, |img.news|, |img.trieds|), Infos(img.news), Infos(img.trieds), Rows(img.rows);
    assert Written(img) == a + b + c + d;
    hide Written;
    Concatenated(a, b, c, d);
  }

  /**
   A stream by its places: version one, 32 bytes of key, the key, the two counts and the bucket count with
   its top bit flipped; then every new peer and every tried one, without the last try; then bucket after
   bucket the number of peers in it and their places in the first list.
   */
  lemma StreamLayout(h: Hashes, key: Key, v: View, s: seq<Token>, img: Image)
    requires Says(h, key, v, s, img)
    ensures var n, k := |img.news|, |img.trieds|;
      && |s| >= 6 + n + k
      && s[0] == Byte(1) && s[1] == Byte(32) && s[2] == KeyToken(key) && s[3] == Int(n) && s[4] == Int(k)
      && s[5] == Int(NEW_BUCKET_COUNT + 0x4000_0000)
      && PeersAt(v, s, 0, n, false) && PeersAt(v, s, n, n + k, true)
  {
    hide Header, PeersAt, RowOk, Rows, Infos, Lists;
    WrittenAt(img);
    HeaderIs(img.key, |img.news|, |img.trieds|);
    FirstSix(s, Header(img.key, |img.news|, |img.trieds|));
    hide Written;
    PeersInPlace(v, s, 0, img.news, false);
    PeersInPlace(v, s, |img.news|, img.trieds, true);
  }

  lemma FirstSix(s: seq<Token>, header: seq<Token>)
    requires |s| >= 6 && s[..6] == header
    ensures |header| == 6 && s[0] == header[0] && s[1] == header[1] && s[2] == header[2]
    ensures s[3] == header[3] && s[4] == header[4] && s[5] == header[5]
  {
  }

  /** Places `lo` to `hi` of the lists hold exactly the peers of one table. */
  ghost predicate PeersAt(v: View, s: seq<Token>, lo: int, hi: int, tried: bool) {
    && (forall i :: lo <= i < hi ==> PeerAtPlace(v, s, i, tried))
    && (forall a :: a in v && v[a].tried == tried ==> exists i :: lo <= i < hi && AddressAtPlace(s, i, a))
  }

  lemma PeersInPlace(v: View, s: seq<Token>, lo: nat, cores: seq<Core>, tried: bool)
    requires Lists(v, tried, cores) && |s| >= 6 + lo + |cores|
    requires forall i :: 0 <= i < |cores| ==> s[6 + lo + i] == Info(cores[i])
    ensures PeersAt(v, s, lo, lo + |cores|, tried)
  {
    forall i | lo <= i < lo + |cores|
      ensures PeerAtPlace(v, s, i, tried)
    {
      assert s[6 + lo + (i - lo)] == Info(cores[i - lo]);
    }
    forall a | a in v && v[a].tried == tried
      ensures exists i :: lo <= i < lo + |cores| && AddressAtPlace(s, i, a)
    {
      var i :| 0 <= i < |cores| && cores[i].svc.net == a;
      assert s[6 + lo + i] == Info(cores[i]);
      assert AddressAtPlace(s, lo + i, a);
    }
  }

  predicate AddressAtPlace(s: seq<Token>, i: int, a: NetAddr) {
    0 <= 6 + i < |s| && s[6 + i].Info? && s[6 + i].core.svc.net == a
  }

  /** Entry `i` is a peer of that table, as it is known but for the time of the last try. */
  ghost predicate PeerAtPlace(v: View, s: seq<Token>, i: int, tried: bool) {
    && 0 <= 6 + i < |s| && s[6 + i].Info? && s[6 + i].core.svc.net in v
    && var p := v[s[6 + i].core.svc.net];
    p.tried == tried && s[6 + i].core == p.core.(nLastTry := 0)
  }

  lemma HeaderIs(key: Key, n: int, k: int)
    ensures Header(key, n, k) == [Byte(1), Byte(32), KeyToken(key), Int(n), Int(k), Int(NEW_BUCKET_COUNT + 0x4000_0000)]
  {
    DivIs(NEW_BUCKET_COUNT, BIT30, 0, NEW_BUCKET_COUNT);
  }

  lemma Concatenated<T>(a: seq<T>, b: seq<T>, c: seq<T>, d: seq<T>)
    ensures var w := a + b + c + d;
      && w[..|a|] == a && w[|a| + |b| + |c|..] == d
      && (forall i :: 0 <= i < |b| ==> w[|a| + i] == b[i])
      && (forall i :: 0 <= i < |c| ==> w[|a| + |b| + i] == c[i])
  {
    var ab := a + b;
    var abc := ab + c;
    var w := abc + d;
    assert w[..|a|] == a && w[|abc|..] == d;
    forall i | 0 <= i < |b|
      ensures w[|a| + i] == b[i]
    {
      assert w[|a| + i] == abc[|a| + i] == ab[|a| + i];
    }
    forall i | 0 <= i < |c|
      ensures w[|a| + |b| + i] == c[i]
    {
      assert w[|ab| + i] == abc[|ab| + i];
    }
  }

  /** Where row `b` starts. */
  function RowStart(img: Image, b: int): int
    requires 0 <= b <= |img.rows|
  {
    6 + |img.news| + |img.trieds| + |Rows(img.rows[..b])|
  }

  lemma {:induction false} RowsAt(rows: seq<seq<int>>, b: int)
    requires 0 <= b < |rows|
    ensures |Rows(rows[..b + 1])| == |Rows(rows[..b])| + |rows[b]| + 1 <= |Rows(rows)|
    ensures Rows(rows)[|Rows(rows[..b])|..|Rows(rows[..b + 1])|] == Row(rows[b])
    decreases |rows|
  {
    var init, last := rows[..|rows| - 1], Row(rows[|rows| - 1]);
    assert Rows(rows) == Rows(init) + last;
    hide Rows, Row;
    if b == |rows| - 1 {
      assert rows[..b + 1] == rows && rows[..b] == init;
      Slices(Rows(init), last, 0, 0);
    } else {
      RowsAt(init, b);
      assert init[..b] == rows[..b] && init[..b + 1] == rows[..b + 1];
      Slices(Rows(init), last, |Rows(rows[..b])|, |Rows(rows[..b + 1])|);
    }
  }

  lemma Slices<T>(r: seq<T>, x: seq<T>, i: nat, j: nat)
    ensures (r + x)[|r|..|r| + |x|] == x
    ensures i <= j <= |r| ==> (r + x)[i..j] == r[i..j]
  {
  }

  lemma RowAt(img: Image, b: int)
    requires 0 <= b < |img.rows|
    ensures RowStart(img, b + 1) == RowStart(img, b) + 1 + |img.rows[b]| <= |Written(img)|
    ensures 6 <= RowStart(img, b)
    ensures Written(img)[RowStart(img, b)] == Int(|img.rows[b]|)
    ensures forall k :: 0 <= k < |img.rows[b]| ==> Written(img)[RowStart(img, b) + 1 + k] == Int(img.rows[b][k])
  {
    hide Written, Rows;
    WrittenAt(img);
    RowsAt(img.rows, b);
    Nested(Written(img), 6 + |img.news| + |img.trieds|, Rows(img.rows), |Rows(img.rows[..b])|, Row(img.rows[b]));
  }

  /** A piece of a piece is a piece. */
  lemma Nested<T>(w: seq<T>, base: int, r: seq<T>, at: int, x: seq<T>)
    requires 0 <= base <= |w| && w[base..] == r
    requires 0 <= at && at + |x| <= |r| && r[at..at + |x|] == x
    ensures base + at + |x| <= |w|
    ensures forall k :: 0 <= k < |x| ==> w[base + at + k] == x[k]
  {
    forall k | 0 <= k < |x|
      ensures w[base + at + k] == x[k]
    {
      assert w[base + at + k] == r[at + k];
      assert r[at + k] == r[at..at + |x|][k];
    }
  }

  // ---------------------------------------------------------------- the two lists of entries

  /** The entries that the first `k` positions of the two lists give. */
  function Entry(img: Image, i: int): AddrInfo
    requires 0 <= i < |img.news| + |img.trieds|
  {
    if i < |img.news| then AddrInfo(img.news[i], 0, false, i)
    else AddrInfo(img.trieds[i - |img.news|], 0, true, i)
  }

  ghost predicate LoadedEntries(s: State, img: Image, k: int)
    requires 0 <= k <= |img.news| + |img.trieds|
  {
    && |s.rnd| == k && (forall i :: 0 <= i < k ==> s.rnd[i] == i)
    && (forall i :: i in s.info <==> 0 <= i < k)
    && (forall i :: 0 <= i < k ==> s.info[i] == Entry(img, i))
  }

  /** The address index after the first `k` entries. */
  function NetIndex(img: Image, k: int): map<NetAddr, int>
    requires 0 <= k <= |img.news| + |img.trieds|
    decreases k
  {
    if k == 0 then map[] else NetIndex(img, k - 1)[Entry(img, k - 1).core.svc.net := k - 1]
  }

  /** The "tried" table after the first `m` tried entries. */
  function TriedIndex(h: Hashes, img: Image, m: int): map<Cell, int>
    requires 0 <= m <= |img.trieds|
    decreases m
  {
    if m == 0 then map[] else
      TriedIndex(h, img, m - 1)[TriedCell(h, img.key, img.trieds[m - 1].svc) := |img.news| + m - 1]
  }

  /** The first `k` entries have been read: the new ones, then the tried ones. */
  ghost predicate Loaded(h: Hashes, s: State, img: Image, k: int) {
    && 0 <= k <= |img.news| + |img.trieds|
    && s.key == img.key && s.nNew == |img.news| && s.nTried == |img.trieds| && s.newAt == map[]
    && LoadedEntries(s, img, k) && s.ids == NetIndex(img, k)
    && s.triedAt == TriedIndex(h, img, if k < |img.news| then 0 else k - |img.news|)
  }

  lemma EntriesAreDistinct(v: View, img: Image, i: int, j: int)
    requires Lists(v, false, img.news) && Lists(v, true, img.trieds)
    requires 0 <= i < j < |img.news| + |img.trieds|
    ensures Entry(img, i).core.svc.net != Entry(img, j).core.svc.net
  {
    var n := |img.news|;
    if i < n <= j {
      assert !v[img.news[i].svc.net].tried && v[img.trieds[j - n].svc.net].tried;
    } else if j < n {
      assert img.news[i].svc.net != img.news[j].svc.net;
    } else {
      assert img.trieds[i - n].svc.net != img.trieds[j - n].svc.net;
    }
  }

  lemma {:induction false} NetIndexHas(v: View, img: Image, k: int)
    requires Lists(v, false, img.news) && Lists(v, true, img.trieds)
    requires 0 <= k <= |img.news| + |img.trieds|
    ensures forall a :: a in NetIndex(img, k) ==>
      0 <= NetIndex(img, k)[a] < k && Entry(img, NetIndex(img, k)[a]).core.svc.net == a
    ensures forall i :: 0 <= i < k ==>
      Entry(img, i).core.svc.net in NetIndex(img, k) && NetIndex(img, k)[Entry(img, i).core.svc.net] == i
    decreases k
  {
    hide Lists, Entry;
    if k > 0 {
      NetIndexHas(v, img, k - 1);
      forall i | 0 <= i < k - 1
        ensures Entry(img, i).core.svc.net != Entry(img, k - 1).core.svc.net
      {
        EntriesAreDistinct(v, img, i, k - 1);
      }
    }
  }

  lemma {:induction false} TriedIndexHas(h: Hashes, v: View, img: Image, m: int)
    requires Lists(v, true, img.trieds) && NoClash(h, img.key, v) && 0 <= m <= |img.trieds|
    ensures forall c :: c in TriedIndex(h, img, m) ==>
      exists i :: 0 <= i < m && c == TriedCell(h, img.key, img.trieds[i].svc) && TriedIndex(h, img, m)[c] == |img.news| + i
    ensures forall i :: 0 <= i < m ==>
      var c := TriedCell(h, img.key, img.trieds[i].svc);
      c in TriedIndex(h, img, m) && TriedIndex(h, img, m)[c] == |img.news| + i
    decreases m
  {
    hide TriedCell, Lists, NoClash;
    if m > 0 {
      TriedIndexHas(h, v, img, m - 1);
      var c, before := TriedCell(h, img.key, img.trieds[m - 1].svc), TriedIndex(h, img, m - 1);
      assert TriedIndex(h, img, m) == before[c := |img.news| + m - 1];
      hide TriedIndex;
      forall i | 0 <= i < m - 1
        ensures TriedCell(h, img.key, img.trieds[i].svc) != c
      {
        TriedCellsDiffer(h, v, img, i, m - 1);
      }
      forall d | d in before && d != c
        ensures exists i :: 0 <= i < m && d == TriedCell(h, img.key, img.trieds[i].svc) && before[d] == |img.news| + i
      {
        var i :| 0 <= i < m - 1 && d == TriedCell(h, img.key, img.trieds[i].svc) && before[d] == |img.news| + i;
      }
    }
  }

  lemma TriedCellsDiffer(h: Hashes, v: View, img: Image, i: int, j: int)
    requires Lists(v, true, img.trieds) && NoClash(h, img.key, v) && 0 <= i < j < |img.trieds|
    ensures TriedCell(h, img.key, img.trieds[i].svc) != TriedCell(h, img.key, img.trieds[j].svc)
  {
    hide TriedCell;
    var a, b := img.trieds[i].svc.net, img.trieds[j].svc.net;
    assert a != b && v[a].core.svc == img.trieds[i].svc && v[b].core.svc == img.trieds[j].svc;
  }

  /** A stored tried peer finds its cell empty. */
  lemma TriedCellIsFree(h: Hashes, v: View, img: Image, m: int)
    requires Lists(v, true, img.trieds) && NoClash(h, img.key, v) && 0 <= m < |img.trieds|
    ensures TriedCell(h, img.key, img.trieds[m].svc) !in TriedIndex(h, img, m)
  {
    hide TriedCell, Lists, NoClash, TriedIndex;
    TriedIndexHas(h, v, img, m);
    forall i | 0 <= i < m
      ensures TriedCell(h, img.key, img.trieds[i].svc) != TriedCell(h, img.key, img.trieds[m].svc)
    {
      TriedCellsDiffer(h, v, img, i, m);
    }
  }

  lemma EntriesNext(s: State, img: Image, k: int)
    requires 0 <= k < |img.news| + |img.trieds| && LoadedEntries(s, img, k)
    ensures LoadedEntries(Appended(s, k, Entry(img, k).core, Entry(img, k).fInTried), img, k + 1)
  {
  }

  lemma LoadedNext(h: Hashes, s: State, img: Image, k: int)
    requires Loaded(h, s, img, k) && k < |img.news|
    ensures Loaded(h, Appended(s, k, img.news[k], false), img, k + 1)
  {
    EntriesNext(s, img, k);
  }

  lemma LoadedNextTried(h: Hashes, s: State, img: Image, k: int)
    requires Loaded(h, s, img, k) && |img.news| <= k < |img.news| + |img.trieds|
    ensures var core := img.trieds[k - |img.news|];
      Loaded(h, Appended(s, k, core, true).(triedAt := s.triedAt[TriedCell(h, img.key, core.svc) := k]), img, k + 1)
  {
    hide TriedCell;
    EntriesNext(s, img, k);
  }

  /** The peers without their cells. */
  function Bare(v: View): View {
    map a | a in v :: Peer(Stored(v[a].core), v[a].tried, {})
  }

  /** The ids of the first `n` entries. */
  function Indices(n: int): set<int> {
    Interval(0, n)
  }

  lemma LoadedRandom(h: Hashes, s: State, img: Image)
    requires Loaded(h, s, img, |img.news| + |img.trieds|)
    ensures RandomOk(s) && FreshOk(h, s) && RefsOk(s, Indices(|img.news|))
  {
    hide TriedCell, NewCell, NetIndex, TriedIndex;
    assert forall i :: Cells(s, i) == {};
  }

  lemma LoadedCounts(h: Hashes, s: State, img: Image)
    requires Loaded(h, s, img, |img.news| + |img.trieds|)
    ensures CountsOk(s, 0)
  {
    hide TriedCell, NetIndex, TriedIndex, Interval;
    var n, k := |img.news|, |img.news| + |img.trieds|;
    forall i
      ensures i in NewIds(s) <==> i in Interval(0, n)
      ensures i in TriedIds(s) <==> i in Interval(n, k)
    {
      assert i in s.info ==> s.info[i] == Entry(img, i);
    }
    assert NewIds(s) == Interval(0, n) && TriedIds(s) == Interval(n, k);
  }

  lemma LoadedTimes(h: Hashes, s: State, v: View, img: Image)
    requires Loaded(h, s, img, |img.news| + |img.trieds|)
    requires Lists(v, false, img.news) && Lists(v, true, img.trieds) && Sound(h, img.key, v)
    ensures TimesOk(s)
  {
    hide TriedCell, NetIndex, TriedIndex, Lists, NoClash, Entry;
    forall i | i in s.info
      ensures s.info[i].core.nLastTry >= 0 && s.info[i].core.nLastSuccess >= 0
      ensures s.info[i].fInTried ==> s.info[i].core.nLastSuccess > 0
    {
      EntryIsPeer(v, img, i);
      assert PeerSound(h, img.key, s.info[i].core.svc.net, v[s.info[i].core.svc.net], false);
    }
  }

  lemma LoadedIdsOk(h: Hashes, s: State, v: View, img: Image)
    requires Loaded(h, s, img, |img.news| + |img.trieds|) && s.nIdCount == |img.news| + |img.trieds|
    requires Lists(v, false, img.news) && Lists(v, true, img.trieds)
    ensures IdsOk(s)
  {
    hide TriedCell, NewCell, NetIndex, TriedIndex, Lists, Entry;
    NetIndexHas(v, img, |img.news| + |img.trieds|);
  }

  lemma EntryIsPeer(v: View, img: Image, i: int)
    requires Lists(v, false, img.news) && Lists(v, true, img.trieds)
    requires 0 <= i < |img.news| + |img.trieds|
    ensures var a := Entry(img, i).core.svc.net;
      a in v && Entry(img, i).core == Stored(v[a].core) && Entry(img, i).fInTried == v[a].tried
  {
    if i >= |img.news| {
      assert Entry(img, i).core == img.trieds[i - |img.news|];
    }
  }

  lemma PeerIsEntry(v: View, img: Image, a: NetAddr)
    requires Lists(v, false, img.news) && Lists(v, true, img.trieds) && a in v
    ensures exists i :: 0 <= i < |img.news| + |img.trieds| && Entry(img, i).core.svc.net == a
  {
    if v[a].tried {
      var i :| 0 <= i < |img.trieds| && img.trieds[i].svc.net == a;
      assert Entry(img, |img.news| + i).core.svc.net == a;
    } else {
      var i :| 0 <= i < |img.news| && img.news[i].svc.net == a;
      assert Entry(img, i).core.svc.net == a;
    }
  }

  lemma LoadedShows(h: Hashes, s: State, v: View, img: Image)
    requires Loaded(h, s, img, |img.news| + |img.trieds|) && IdsOk(s)
    requires Lists(v, false, img.news) && Lists(v, true, img.trieds)
    ensures ViewOf(s) == Bare(v)
  {
    hide IdsOk, TriedCell, NewCell, NetIndex, TriedIndex, Lists, Entry;
    var k := |img.news| + |img.trieds|;
    NetIndexHas(v, img, k);
    assert forall i :: Cells(s, i) == {};
    forall a | a in s.ids
      ensures a in v && s.ids[a] in s.info && PeerOf(s, s.ids[a]) == Bare(v)[a]
    {
      EntryIsPeer(v, img, s.ids[a]);
    }
    forall a | a in v
      ensures a in s.ids
    {
      PeerIsEntry(v, img, a);
    }
    assert forall a :: a in s.ids ==> ViewOf(s)[a] == PeerOf(s, s.ids[a]);
  }

  lemma LoadedTriedOk(h: Hashes, s: State, v: View, img: Image)
    requires Loaded(h, s, img, |img.news| + |img.trieds|)
    requires Lists(v, true, img.trieds) && NoClash(h, img.key, v)
    ensures TriedOk(h, s)
  {
    hide TriedCell, NewCell, NetIndex, TriedIndex, Lists, NoClash;
    var n, m := |img.news|, |img.trieds|;
    TriedIndexHas(h, v, img, m);
    forall c | c in s.triedAt
      ensures s.triedAt[c] in s.info && s.info[s.triedAt[c]].fInTried
      ensures c == TriedCell(h, s.key, s.info[s.triedAt[c]].core.svc)
    {
      var i :| 0 <= i < m && c == TriedCell(h, img.key, img.trieds[i].svc) && s.triedAt[c] == n + i;
      assert s.info[n + i] == Entry(img, n + i);
    }
    forall id | id in s.info && s.info[id].fInTried
      ensures var c := TriedCell(h, s.key, s.info[id].core.svc); c in s.triedAt && s.triedAt[c] == id
    {
      assert s.info[id] == Entry(img, id);
      assert s.info[id].core == img.trieds[id - n];
    }
  }

  /** After both lists: consistent but for the cells of the new peers. */
  lemma AllLoaded(h: Hashes, s: State, v: View, img: Image)
    requires Loaded(h, s, img, |img.news| + |img.trieds|) && s.nIdCount == |img.news| + |img.trieds|
    requires Lists(v, false, img.news) && Lists(v, true, img.trieds) && Sound(h, img.key, v)
    ensures Partial(h, s, Indices(|img.news|), 0) && ViewOf(s) == Bare(v)
    ensures forall i :: 0 <= i < |img.news| ==> i in s.info && s.info[i].core == img.news[i]
  {
    hide Lists, PeerSound, NoClash, NetIndex, TriedIndex, RandomOk, IdsOk, TriedOk, FreshOk, RefsOk, CountsOk, TimesOk, ViewOf, Bare;
    LoadedRandom(h, s, img);
    LoadedCounts(h, s, img);
    LoadedTimes(h, s, v, img);
    LoadedIdsOk(h, s, v, img);
    LoadedShows(h, s, v, img);
    LoadedTriedOk(h, s, v, img);
  }

  // ---------------------------------------------------------------- the rows of the "new" table

  /** Cell `c` of peer `a` is in a row below `b`, or in row `b` before its `n`th index. */
  ghost predicate Passed(img: Image, b: int, n: int, a: NetAddr, c: Cell)
    requires 0 <= b < |img.rows| ==> 0 <= n <= |img.rows[b]|
  {
    || c.0 < b
    || (c.0 == b && 0 <= b < |img.rows| &&
        exists k :: 0 <= k < n && 0 <= img.rows[b][k] < |img.news| && img.news[img.rows[b][k]].svc.net == a)
  }

  ghost function UptoView(v: View, img: Image, b: int, n: int): View
    requires 0 <= b < |img.rows| ==> 0 <= n <= |img.rows[b]|
  {
    map a | a in v :: Peer(Stored(v[a].core), v[a].tried, set c | c in v[a].cells && Passed(img, b, n, a, c))
  }

  /** The rows have been read up to index `n` of row `b`. */
  ghost predicate Restoring(h: Hashes, s: State, v: View, img: Image, b: int, n: int)
    requires 0 <= b < |img.rows| ==> 0 <= n <= |img.rows[b]|
  {
    && Partial(h, s, Indices(|img.news|), 0) && s.key == img.key
    && ViewOf(s) == UptoView(v, img, b, n)
    && (forall i :: 0 <= i < |img.news| ==> i in s.info && s.info[i].core == img.news[i])
  }

  lemma RestoringStarts(h: Hashes, s: State, v: View, img: Image)
    requires Partial(h, s, Indices(|img.news|), 0) && s.key == img.key && ViewOf(s) == Bare(v)
    requires forall i :: 0 <= i < |img.news| ==> i in s.info && s.info[i].core == img.news[i]
    requires Sound(h, img.key, v)
    ensures Restoring(h, s, v, img, 0, 0)
  {
    hide Partial, ViewOf, NoClash;
    forall a, c | a in v && c in v[a].cells
      ensures !Passed(img, 0, 0, a, c)
    {
      assert PeerSound(h, img.key, a, v[a], false);
    }
    forall a | a in v
      ensures UptoView(v, img, 0, 0)[a] == Bare(v)[a]
    {
      assert UptoView(v, img, 0, 0)[a].cells == {};
    }
  }

  /** A peer in bucket `b` is listed in row `b`. */
  lemma RowLists(h: Hashes, v: View, img: Image, b: int, a: NetAddr, c: Cell) returns (i: int)
    requires Represents(h, v, img) && 0 <= b < NEW_BUCKET_COUNT
    requires Sound(h, img.key, v) && a in v && c in v[a].cells && c.0 == b
    ensures 0 <= i < |img.news| && img.news[i].svc.net == a && i in img.rows[b]
  {
    hide NoClash;
    assert PeerSound(h, img.key, a, v[a], false);
    i :| 0 <= i < |img.news| && img.news[i].svc.net == a;
    assert img.news[i].svc == v[a].core.svc;
    assert RowOk(h, img.key, v, img.news, b, img.rows[b]);
  }

  lemma RowEnds(h: Hashes, v: View, img: Image, b: int)
    requires Represents(h, v, img) && 0 <= b < |img.rows| == NEW_BUCKET_COUNT
    requires Sound(h, img.key, v)
    ensures UptoView(v, img, b, |img.rows[b]|) == UptoView(v, img, b + 1, 0)
  {
    hide Represents, SoundBut;
    var row := img.rows[b];
    forall a, c | a in v && c in v[a].cells
      ensures Passed(img, b, |row|, a, c) <==> Passed(img, b + 1, 0, a, c)
    {
      if c.0 == b {
        var i := RowLists(h, v, img, b, a, c);
        var k :| 0 <= k < |row| && row[k] == i;
        assert Passed(img, b, |row|, a, c);
      }
    }
    forall a | a in v
      ensures UptoView(v, img, b, |row|)[a] == UptoView(v, img, b + 1, 0)[a]
    {
      assert UptoView(v, img, b, |row|)[a].cells == UptoView(v, img, b + 1, 0)[a].cells;
    }
  }

  /** The next index of a row names a peer whose cell there is still empty. */
  lemma RowTarget(h: Hashes, v: View, img: Image, b: int, n: int) returns (a: NetAddr, c: Cell)
    requires Represents(h, v, img) && 0 <= b < |img.rows| == NEW_BUCKET_COUNT && 0 <= n < |img.rows[b]|
    requires Sound(h, img.key, v)
    ensures 0 <= img.rows[b][n] < |img.news|
    ensures a == img.news[img.rows[b][n]].svc.net && a in v && !v[a].tried
    ensures c == NewCell(h, img.key, b, v[a].core.svc) && v[a].core.svc == img.news[img.rows[b][n]].svc
    ensures c in v[a].cells && |v[a].cells| <= NEW_BUCKETS_PER_ADDRESS
    ensures !Passed(img, b, n, a, c)
    ensures forall d :: d in v && c in v[d].cells ==> d == a
  {
    var i := img.rows[b][n];
    assert RowOk(h, img.key, v, img.news, b, img.rows[b]);
    a := img.news[i].svc.net;
    c := NewCell(h, img.key, b, v[a].core.svc);
    assert i in img.rows[b];
    assert PeerSound(h, img.key, a, v[a], false);
    forall k | 0 <= k < n
      ensures img.news[img.rows[b][k]].svc.net != a
    {
      assert img.rows[b][k] != i;
    }
  }

  lemma UptoNext(v: View, img: Image, b: int, n: int, a: NetAddr, c: Cell, w: View)
    requires 0 <= b < |img.rows| && 0 <= n < |img.rows[b]| && 0 <= img.rows[b][n] < |img.news|
    requires a == img.news[img.rows[b][n]].svc.net && a in v && c in v[a].cells && c.0 == b
    requires forall d :: d in v[a].cells && d.0 == b ==> d == c
    requires var u := UptoView(v, img, b, n); w == u[a := u[a].(cells := u[a].cells + {c})]
    ensures w == UptoView(v, img, b, n + 1)
  {
    var t := UptoView(v, img, b, n + 1);
    forall d, x | d in v && x in v[d].cells
      ensures Passed(img, b, n + 1, d, x) <==> Passed(img, b, n, d, x) || (x.0 == b && d == a)
    {
      if x.0 == b && d == a {
        assert img.news[img.rows[b][n]].svc.net == d;
      }
    }
    forall d | d in v
      ensures w[d] == t[d]
    {
      assert w[d].cells == t[d].cells;
    }
  }

  lemma RowCell(h: Hashes, v: View, img: Image, b: int, a: NetAddr)
    requires Sound(h, img.key, v) && a in v
    ensures forall d :: d in v[a].cells && d.0 == b ==> d == NewCell(h, img.key, b, v[a].core.svc)
  {
    assert PeerSound(h, img.key, a, v[a], false);
  }

  /** Reading one index of a row puts its entry where it stood. */
  lemma RowStep(h: Hashes, s: State, v: View, img: Image, b: int, n: int, id: int, c: Cell)
    requires Represents(h, v, img) && 0 <= b < |img.rows| == NEW_BUCKET_COUNT && 0 <= n < |img.rows[b]|
    requires Sound(h, img.key, v) && Restoring(h, s, v, img, b, n)
    requires id == img.rows[b][n] && 0 <= id < |img.news| && c == NewCell(h, s.key, b, s.info[id].core.svc)
    ensures c !in s.newAt && id in s.info && 0 <= s.info[id].nRefCount < NEW_BUCKETS_PER_ADDRESS
    ensures Restoring(h, Placed(s, c, id), v, img, b, n + 1)
  {
    hide Represents, Sound, SoundBut, PeerSound, NoClash, Partial, RandomOk, IdsOk, TriedOk, FreshOk, RefsOk, CountsOk, TimesOk, ViewOf, UptoView, Passed, Cells;
    var a, c' := RowTarget(h, v, img, b, n);
    assert c == c';
    Parts(h, s, Indices(|img.news|), 0);
    RowRoom(h, s, v, img, b, n, id, a, c);
    RowCell(h, v, img, b, a);
    RowPlaces(h, s, v, img, b, n, id, a, c);
  }

  lemma RowPlaces(h: Hashes, s: State, v: View, img: Image, b: int, n: int, id: int, a: NetAddr, c: Cell)
    requires 0 <= b < |img.rows| == NEW_BUCKET_COUNT && 0 <= n < |img.rows[b]|
    requires Restoring(h, s, v, img, b, n)
    requires id == img.rows[b][n] && 0 <= id < |img.news| && c == NewCell(h, s.key, b, s.info[id].core.svc)
    requires c !in s.newAt && !s.info[id].fInTried && s.info[id].nRefCount < NEW_BUCKETS_PER_ADDRESS
    requires a == img.news[id].svc.net && a in v && c in v[a].cells
    requires forall d :: d in v[a].cells && d.0 == b ==> d == c
    ensures Restoring(h, Placed(s, c, id), v, img, b, n + 1)
  {
    hide Partial, RandomOk, IdsOk, TriedOk, FreshOk, RefsOk, CountsOk, TimesOk, ViewOf, UptoView, Passed, Cells, NewCell, Placed, Indices;
    var t := Placed(s, c, id);
    BucketOf(h, s.key, b, s.info[id].core.svc);
    Parts(h, s, Indices(|img.news|), 0);
    PlacedKeeps(h, s, Indices(|img.news|), 0, b, id);
    MoreLimbo(h, t, Indices(|img.news|) - {id}, Indices(|img.news|), 0);
    PeerAt(s, id);
    Parts(h, t, Indices(|img.news|), 0);
    PlacedCores(s, c, id);
    assert ViewOf(s)[a] == PeerOf(s, id);
    UptoNext(v, img, b, n, a, c, ViewOf(t));
  }

  lemma PlacedCores(s: State, c: Cell, id: int)
    requires id in s.info
    ensures Placed(s, c, id).key == s.key && Placed(s, c, id).info.Keys == s.info.Keys
    ensures forall i :: i in s.info ==> Placed(s, c, id).info[i].core == s.info[i].core
  {
  }

  lemma BucketOf(h: Hashes, key: Key, b: int, svc: Service)
    ensures NewCell(h, key, b, svc).0 == b
  {
  }

  lemma RowRoom(h: Hashes, s: State, v: View, img: Image, b: int, n: int, id: int, a: NetAddr, c: Cell)
    requires 0 <= b < |img.rows| && 0 <= n < |img.rows[b]|
    requires IdsOk(s) && FreshOk(h, s) && RefsOk(s, Indices(|img.news|)) && ViewOf(s) == UptoView(v, img, b, n)
    requires id in s.info && s.info[id].core.svc.net == a
    requires a in v && !v[a].tried && c in v[a].cells && |v[a].cells| <= NEW_BUCKETS_PER_ADDRESS
    requires !Passed(img, b, n, a, c) && forall d :: d in v && c in v[d].cells ==> d == a
    ensures c !in s.newAt && !s.info[id].fInTried && 0 <= s.info[id].nRefCount < NEW_BUCKETS_PER_ADDRESS
  {
    hide Passed, TriedCell, NewCell;
    PeerAt(s, id);
    var u := UptoView(v, img, b, n);
    assert u[a].cells <= v[a].cells - {c};
    SubsetCount(u[a].cells, v[a].cells - {c});
    if c in s.newAt {
      HolderShown(h, s, c);
    }
  }

  lemma HolderShown(h: Hashes, s: State, c: Cell)
    requires IdsOk(s) && FreshOk(h, s) && c in s.newAt
    ensures exists d :: d in ViewOf(s) && c in ViewOf(s)[d].cells
  {
    PeerAt(s, s.newAt[c]);
    var d := s.info[s.newAt[c]].core.svc.net;
    assert c in ViewOf(s)[d].cells;
  }

  lemma AllPassed(h: Hashes, v: View, img: Image)
    requires Sound(h, img.key, v) && |img.rows| == NEW_BUCKET_COUNT
    ensures UptoView(v, img, NEW_BUCKET_COUNT, 0) == Forgotten(v)
  {
    hide NoClash;
    forall a, c | a in v && c in v[a].cells
      ensures Passed(img, NEW_BUCKET_COUNT, 0, a, c)
    {
      assert PeerSound(h, img.key, a, v[a], false);
    }
    forall a | a in v
      ensures UptoView(v, img, NEW_BUCKET_COUNT, 0)[a] == Forgotten(v)[a]
    {
      assert UptoView(v, img, NEW_BUCKET_COUNT, 0)[a].cells == v[a].cells;
    }
  }

  /** All rows read: the peers are back in their cells. */
  lemma RestoringEnds(h: Hashes, s: State, v: View, img: Image)
    requires Sound(h, img.key, v) && |img.rows| == NEW_BUCKET_COUNT
    requires Restoring(h, s, v, img, NEW_BUCKET_COUNT, 0)
    ensures Partial(h, s, {}, 0) && ViewOf(s) == Forgotten(v)
  {
    hide Sound, Partial, IdsOk, ViewOf, UptoView, Forgotten;
    AllPassed(h, v, img);
    NobodyRests(h, s, v, img);
  }

  lemma NobodyRests(h: Hashes, s: State, v: View, img: Image)
    requires Sound(h, img.key, v) && Partial(h, s, Indices(|img.news|), 0) && ViewOf(s) == Forgotten(v)
    ensures Partial(h, s, {}, 0)
  {
    hide NoClash;
    forall id | id in s.info && !s.info[id].fInTried
      ensures s.info[id].nRefCount > 0
    {
      var a := s.info[id].core.svc.net;
      PeerAt(s, id);
      assert PeerSound(h, img.key, a, v[a], false);
    }
  }

  // ---------------------------------------------------------------- reading

  /** What the second half of a stream must be for the round trip. */
  ghost predicate Faithful(h: Hashes, s: seq<Token>, v: View, img: Image) {
    s == Written(img) && Represents(h, v, img) && Sound(h, img.key, v)
  }

  lemma SameOrder(s: State, t: State)
    requires RandomOk(s) && t.rnd == s.rnd && t.info.Keys == s.info.Keys
    requires forall i :: i in s.info ==> t.info[i].nRandomPos == s.info[i].nRandomPos
    ensures RandomOk(t)
  {
  }

  /**
   `e` entries of the stream have been read and `k` of them kept: those written if it represents
   a view, and consistent ones if it holds no address twice.
   */
  ghost predicate Underway(h: Hashes, s: State, stream: seq<Token>, v: View, img: Image, n: int, all: int, k: int, e: int) {
    && RandomOk(s)
    && (Faithful(h, stream, v, img) ==> k == e && Loaded(h, s, img, k))
    && (Apart(stream, n, all) ==> Reading(h, s, stream, n, k, e))
  }

  lemma UnderwayStarts(h: Hashes, s: State, stream: seq<Token>, v: View, img: Image, n: int, all: int)
    requires s == State(s.key, 0, map[], map[], [], all - n, map[], n, map[]) && |stream| >= 6
    requires Faithful(h, stream, v, img) ==> s.key == img.key && n == |img.news| && all - n == |img.trieds|
    ensures Underway(h, s, stream, v, img, n, all, 0, 0)
  {
    hide Faithful, RandomOk, Reading, Apart;
    NothingListed(s);
    ReadingStarts(h, s, stream, n);
  }

  lemma UnderwayCounters(h: Hashes, s: State, t: State, stream: seq<Token>, v: View, img: Image, n: int, all: int, k: int, e: int)
    requires Underway(h, s, stream, v, img, n, all, k, e)
    requires t == s.(nIdCount := t.nIdCount, nTried := t.nTried) && (Faithful(h, stream, v, img) ==> t.nTried == s.nTried)
    ensures Underway(h, t, stream, v, img, n, all, k, e)
  {
    hide Faithful, RandomOk, Reading, Apart, Loaded;
    SameOrder(s, t);
    if Faithful(h, stream, v, img) { LoadedCountFree(h, s, t, img, k); }
    if Apart(stream, n, all) { ReadingCounters(h, s, t, stream, n, k, e); }
  }

  /** The next entry of the first list, on every kind of stream. */
  lemma NewRead(h: Hashes, s: State, stream: seq<Token>, v: View, img: Image, n: int, all: int, k: int)
    requires Underway(h, s, stream, v, img, n, all, k, k) && 0 <= k < n && k !in s.info && s.nNew == n
    requires HasEntry(stream, k)
    ensures Underway(h, Appended(s, k, Stored(stream[6 + k].core), false), stream, v, img, n, all, k + 1, k + 1)
  {
    hide Faithful, RandomOk, Reading, Apart, Loaded;
    var core := Stored(stream[6 + k].core);
    AppendedKeepsRandom(s, k, core, false);
    if Faithful(h, stream, v, img) {
      FaithfulParts(h, stream, v, img, s, k);
      FaithfulEntry(h, stream, v, img, k);
      LoadedNext(h, s, img, k);
    }
    if Apart(stream, n, all) {
      AnnouncedBy(stream, n, all);
      ReadingNew(h, s, stream, n, all, k);
    }
  }

  /** A written stream is long enough for its entries. */
  lemma EntriesThere(h: Hashes, s: State, stream: seq<Token>, v: View, img: Image, k: int)
    requires Faithful(h, stream, v, img) && Loaded(h, s, img, k) && k < s.nNew + s.nTried
    ensures HasEntry(stream, k)
  {
    hide Faithful, Lists, Sound, NoClash;
    FaithfulParts(h, stream, v, img, s, k);
    if k < |img.news| {
      FaithfulEntry(h, stream, v, img, k);
    } else {
      FaithfulTried(h, stream, v, img, k - |img.news|);
    }
  }

  lemma UnderwayParts(h: Hashes, s: State, stream: seq<Token>, v: View, img: Image, n: int, all: int, k: int, e: int)
    requires Underway(h, s, stream, v, img, n, all, k, e)
    ensures RandomOk(s) && (Apart(stream, n, all) ==> Reading(h, s, stream, n, k, e))
    ensures Faithful(h, stream, v, img) ==> k == e && Loaded(h, s, img, k)
  {
  }

  /** The first list of entries; without usable rows each entry is placed by its own source. */
  method LoadNew(m: CAddrMan, s: seq<Token>, nVersion: int, nUBuckets: int, ghost v: View, ghost img: Image, ghost all: int)
    returns (ok: bool, pos: int)
    requires m.Shaped() && m.mapInfo == map[] && |s| >= 6 && m.nTried == all - m.nNew
    requires Underway(m.h, m.Abs(), s, v, img, m.nNew, all, 0, 0)
    requires Faithful(m.h, s, v, img) ==> nVersion == 1 && nUBuckets == NEW_BUCKET_COUNT
    modifies m, m.vvNew
    ensures m.nNew == old(m.nNew) && m.nTried == old(m.nTried) && m.nKey == old(m.nKey)
    ensures Faithful(m.h, s, v, img) ==> ok
    ensures ok ==> 6 <= pos <= |s| && pos == 6 + if m.nNew < 0 then 0 else m.nNew
    ensures ok ==> forall id :: id in m.mapInfo <==> 0 <= id < m.nNew
    ensures ok ==> Underway(m.h, m.Abs(), s, v, img, m.nNew, all, pos - 6, pos - 6)
  {
    hide Faithful, Underway, Loaded, Table, Apart, Reading, RandomOk;
    ok, pos := true, 6;
    var n := 0;
    while n < m.nNew
      invariant 0 <= n && (n <= m.nNew || n == 0) && pos == 6 + n <= |s|
      invariant m.nNew == old(m.nNew) && m.nTried == old(m.nTried) && m.nKey == old(m.nKey)
      invariant forall id :: id in m.mapInfo <==> 0 <= id < n
      invariant Underway(m.h, m.Abs(), s, v, img, m.nNew, all, n, n)
    {
      ghost var s0 := m.Abs();
      if Faithful(m.h, s, v, img) {
        UnderwayParts(m.h, s0, s, v, img, m.nNew, all, n, n);
        LoadedIsNatural(m.h, s, v, img, s0, n);
        EntriesThere(m.h, s0, s, v, img, n);
      }
      if pos >= |s| || !s[pos].Info? {
        ok := false;
        return;
      }
      NewRead(m.h, s0, s, v, img, m.nNew, all, n);
      AppendEntry(m, n, Stored(s[pos].core), false);
      if nVersion != 1 || nUBuckets != NEW_BUCKET_COUNT {
        PlaceBySource(m, n, s, v, img, all);
      }
      n, pos := n + 1, pos + 1;
    }
  }

  lemma LoadedIsNatural(h: Hashes, stream: seq<Token>, v: View, img: Image, s: State, k: int)
    requires Faithful(h, stream, v, img) && Loaded(h, s, img, k)
    ensures s.nNew >= 0 && s.nTried >= 0
  {
  }

  lemma NothingListed(s: State)
    requires s.info == map[] && s.rnd == []
    ensures RandomOk(s)
  {
  }

  lemma FaithfulParts(h: Hashes, s: seq<Token>, v: View, img: Image, t: State, k: int)
    requires Faithful(h, s, v, img) && Loaded(h, t, img, k)
    ensures Lists(v, false, img.news) && Lists(v, true, img.trieds)
    ensures Sound(h, img.key, v) && NoClash(h, img.key, v)
    ensures |s| >= 6 + |img.news| + |img.trieds|
    ensures t.nNew == |img.news| && t.nTried == |img.trieds|
    ensures k <= |img.news| + |img.trieds|
  {
    WrittenAt(img);
  }

  lemma FaithfulEntry(h: Hashes, s: seq<Token>, v: View, img: Image, i: int)
    requires Faithful(h, s, v, img) && 0 <= i
    ensures i < |img.news| ==> |s| > 6 + i && s[6 + i] == Info(img.news[i]) && Stored(img.news[i]) == img.news[i]
  {
    hide Written, Sound, TriedCell, NewCell, RowOk;
    WrittenAt(img);
  }

  lemma FaithfulTried(h: Hashes, s: seq<Token>, v: View, img: Image, i: int)
    requires Faithful(h, s, v, img) && 0 <= i < |img.trieds|
    ensures |s| > 6 + |img.news| + i
    ensures s[6 + |img.news| + i] == Info(img.trieds[i]) && Stored(img.trieds[i]) == img.trieds[i]
  {
    hide Written, Sound, TriedCell, NewCell, RowOk;
    WrittenAt(img);
  }

  method AppendEntry(m: CAddrMan, id: int, core: Core, tried: bool)
    modifies m
    ensures m.Abs() == Appended(old(m.Abs()), id, core, tried)
  {
    m.mapAddr := m.mapAddr[core.svc.net := id];
    m.mapInfo := m.mapInfo[id := AddrInfo(core, 0, tried, |m.vRandom|)];
    m.vRandom := m.vRandom + [id];
  }

  method PlaceBySource(m: CAddrMan, n: int, ghost s: seq<Token>, ghost v: View, ghost img: Image, ghost all: int)
    requires m.Shaped() && n in m.mapInfo && 0 <= n < m.nNew && m.mapInfo[n].nRefCount == 0
    requires Underway(m.h, m.Abs(), s, v, img, m.nNew, all, n + 1, n + 1) && !Faithful(m.h, s, v, img)
    modifies m, m.vvNew
    ensures Underway(m.h, m.Abs(), s, v, img, m.nNew, all, n + 1, n + 1) && m.mapInfo.Keys == old(m.mapInfo.Keys)
    ensures m.nNew == old(m.nNew) && m.nTried == old(m.nTried) && m.nKey == old(m.nKey)
  {
    hide Faithful, Underway, RandomOk, Table, Apart, Reading;
    ghost var t := m.Abs();
    var core := m.mapInfo[n].core;
    var nUBucket := NewBucket(m.h, m.nKey, core.svc, core.source);
    var nUBucketPos := m.PositionAt(true, nUBucket, core.svc);
    m.Vacant(nUBucket, nUBucketPos);
    if m.vvNew[nUBucket, nUBucketPos] == -1 {
      UnderwayPlaced(m.h, t, s, v, img, m.nNew, all, n + 1, n + 1, nUBucket, n);
      m.PutReference(n, nUBucket, nUBucketPos);
    }
  }

  lemma UnderwayPlaced(h: Hashes, s: State, stream: seq<Token>, v: View, img: Image, n: int, all: int, k: int, e: int, bucket: int, id: int)
    requires Underway(h, s, stream, v, img, n, all, k, e) && !Faithful(h, stream, v, img)
    requires id in s.info && id < n && s.info[id].nRefCount < NEW_BUCKETS_PER_ADDRESS
    requires 0 <= bucket < NEW_BUCKET_COUNT && NewCell(h, s.key, bucket, s.info[id].core.svc) !in s.newAt
    ensures Underway(h, Placed(s, NewCell(h, s.key, bucket, s.info[id].core.svc), id), stream, v, img, n, all, k, e)
  {
    hide Faithful, RandomOk, NewCell, Apart, Reading;
    SameOrder(s, Placed(s, NewCell(h, s.key, bucket, s.info[id].core.svc), id));
    if Apart(stream, n, all) { ReadingPlaced(h, s, stream, n, k, e, bucket, id); }
  }

  /** Where the second list starts to count. */
  lemma NoneBelow(h: Hashes, s: State, stream: seq<Token>, v: View, img: Image, n: int, all: int, e: int)
    requires Underway(h, s, stream, v, img, n, all, e, e) && s.nNew == n && e == if n < 0 then 0 else n
    ensures Underway(h, s, stream, v, img, n, all, n, e)
  {
    hide Faithful, Loaded, RandomOk, Apart, Reading;
    if Faithful(h, stream, v, img) { LoadedIsNatural(h, stream, v, img, s, e); }
    if Apart(stream, n, all) { AnnouncedBy(stream, n, all); }
  }

  /** The next entry of the second list, on every kind of stream. */
  lemma TriedRead(h: Hashes, s: State, stream: seq<Token>, v: View, img: Image, n: int, all: int, k: int, e: int)
    requires Underway(h, s, stream, v, img, n, all, k, e) && HasEntry(stream, e)
    requires n <= k && n <= e && (n >= 0 ==> e < all) && k !in s.info && s.nNew == n && s.nTried == all - n
    ensures var core := Stored(stream[6 + e].core);
      var c := TriedCell(h, s.key, core.svc);
      if c in s.triedAt then !Faithful(h, stream, v, img) && Underway(h, s, stream, v, img, n, all, k, e + 1)
      else Underway(h, Appended(s, k, core, true).(triedAt := s.triedAt[c := k]), stream, v, img, n, all, k + 1, e + 1)
  {
    hide Faithful, RandomOk, Reading, Apart, Loaded, TriedCell;
    var core := Stored(stream[6 + e].core);
    var c := TriedCell(h, s.key, core.svc);
    if Faithful(h, stream, v, img) {
      LoadedIsNatural(h, stream, v, img, s, k);
      WrittenTriedRead(h, s, stream, v, img, k);
    }
    if c in s.triedAt {
      if Apart(stream, n, all) { ReadingLost(h, s, stream, n, k, e); }
    } else {
      AppendedKeepsRandom(s, k, core, true);
      SameOrder(Appended(s, k, core, true), Appended(s, k, core, true).(triedAt := s.triedAt[c := k]));
      if Apart(stream, n, all) {
        AnnouncedBy(stream, n, all);
        ReadingTried(h, s, stream, n, all, k, e);
      }
    }
  }

  /** With a negative count the stream is of neither kind. */
  lemma UnderwayNegative(h: Hashes, s: State, t: State, stream: seq<Token>, v: View, img: Image, n: int, all: int, k: int, e: int, core: Core)
    requires Underway(h, s, stream, v, img, n, all, k, e) && s.nNew == n < 0 && k !in s.info
    requires t == Appended(s, k, core, true).(triedAt := t.triedAt)
    ensures Underway(h, t, stream, v, img, n, all, k + 1, e + 1)
  {
    hide Faithful, RandomOk, Reading, Apart, Loaded;
    if Faithful(h, stream, v, img) { LoadedIsNatural(h, stream, v, img, s, k); }
    if Apart(stream, n, all) { AnnouncedBy(stream, n, all); }
    AppendedKeepsRandom(s, k, core, true);
    SameOrder(Appended(s, k, core, true), t);
  }

  lemma WrittenTriedRead(h: Hashes, s: State, stream: seq<Token>, v: View, img: Image, k: int)
    requires Faithful(h, stream, v, img) && Loaded(h, s, img, k) && s.nNew <= k < s.nNew + s.nTried && HasEntry(stream, k)
    ensures var core := Stored(stream[6 + k].core);
      var c := TriedCell(h, s.key, core.svc);
      c !in s.triedAt && Loaded(h, Appended(s, k, core, true).(triedAt := s.triedAt[c := k]), img, k + 1)
  {
    hide Faithful, Loaded, Lists, NoClash, Sound, TriedIndex, TriedCell;
    FaithfulParts(h, stream, v, img, s, k);
    var i := k - |img.news|;
    FaithfulTried(h, stream, v, img, i);
    TriedCellIsFree(h, v, img, i);
    LoadedTriedIs(h, s, img, i);
    LoadedNextTried(h, s, img, k);
  }

  /** One tried entry: it takes the next id if its cell is empty. */
  method LoadOneTried(m: CAddrMan, s: seq<Token>, e: int, ghost v: View, ghost img: Image, ghost n: int, ghost all: int)
    returns (lost: bool)
    requires m.Shaped() && m.nIdCount !in m.mapInfo && HasEntry(s, e)
    requires Underway(m.h, m.Abs(), s, v, img, n, all, m.nIdCount, e)
    requires n <= m.nIdCount && n <= e && (n >= 0 ==> e < all) && m.nNew == n && m.nTried == all - n
    modifies m, m.vvTried
    ensures m.nNew == old(m.nNew) && m.nTried == old(m.nTried) && m.nKey == old(m.nKey)
    ensures m.mapInfo.Keys == old(m.mapInfo.Keys) + (if lost then {} else {old(m.nIdCount)})
    ensures m.nIdCount == old(m.nIdCount) + if lost then 0 else 1
    ensures lost ==> !Faithful(m.h, s, v, img)
    ensures Underway(m.h, m.Abs(), s, v, img, n, all, m.nIdCount, e + 1)
  {
    hide Faithful, Underway, Table, Apart, Reading, RandomOk;
    ghost var s0 := m.Abs();
    TriedRead(m.h, s0, s, v, img, n, all, m.nIdCount, e);
    var core := Stored(s[6 + e].core);
    var nKBucket := TriedBucket(m.h, m.nKey, core.svc);
    var nKBucketPos := m.PositionAt(false, nKBucket, core.svc);
    m.Occupied(nKBucket, nKBucketPos);
    lost := m.vvTried[nKBucket, nKBucketPos] != -1;
    if !lost {
      AppendEntry(m, m.nIdCount, core, true);
      m.SetTried(nKBucket, nKBucketPos, m.nIdCount);
      ghost var t, k, c := m.Abs(), m.nIdCount, (nKBucket, nKBucketPos);
      if k >= 0 {
        assert t == Appended(s0, k, core, true).(triedAt := s0.triedAt[c := k]);
      } else {
        UnderwayNegative(m.h, s0, t, s, v, img, n, all, k, e, core);
      }
      m.nIdCount := m.nIdCount + 1;
      UnderwayCounters(m.h, t, m.Abs(), s, v, img, n, all, m.nIdCount, e + 1);
    }
  }

  /** The second list of entries; one that finds its cell taken is lost. */
  method LoadTried(m: CAddrMan, s: seq<Token>, start: int, ghost v: View, ghost img: Image, ghost all: int)
    returns (ok: bool, pos: int, nLost: int)
    requires m.Shaped() && 6 <= start <= |s| && start == 6 + if m.nNew < 0 then 0 else m.nNew
    requires m.nIdCount == m.nNew && m.nTried == all - m.nNew
    requires forall id :: id in m.mapInfo <==> 0 <= id < m.nNew
    requires Underway(m.h, m.Abs(), s, v, img, m.nNew, all, start - 6, start - 6)
    modifies m, m.vvTried
    ensures m.nNew == old(m.nNew) && m.nKey == old(m.nKey)
    ensures ok ==> 6 <= pos <= |s| && Underway(m.h, m.Abs(), s, v, img, m.nNew, all, m.nIdCount, pos - 6)
    ensures ok ==> forall id :: id in m.mapInfo ==> (if m.nNew < 0 then m.nNew else 0) <= id < m.nIdCount
    ensures ok ==> forall id :: 0 <= id < m.nNew ==> id in m.mapInfo
    ensures ok ==> m.nNew <= m.nIdCount
    ensures ok && old(m.nTried) >= 0 ==> m.nTried == m.nIdCount - m.nNew
    ensures Faithful(m.h, s, v, img) ==> ok && nLost == 0 && pos - 6 == all && m.nTried == old(m.nTried)
    ensures ok && m.nNew >= 0 && old(m.nTried) >= 0 ==> pos - 6 == all
  {
    hide Faithful, Underway, Loaded, Table, Apart, Reading, RandomOk;
    ok, pos, nLost := true, start, 0;
    ghost var n := m.nNew;
    NoneBelow(m.h, m.Abs(), s, v, img, n, all, start - 6);
    if Faithful(m.h, s, v, img) {
      UnderwayParts(m.h, m.Abs(), s, v, img, n, all, n, start - 6);
      LoadedIsNatural(m.h, s, v, img, m.Abs(), n);
    }
    var i := 0;
    while i < m.nTried
      invariant 0 <= i && (i <= m.nTried || i == 0) && pos == start + i <= |s|
      invariant m.nNew == n && m.nKey == old(m.nKey) && m.nTried == all - n && m.nIdCount == n + i - nLost && 0 <= nLost <= i
      invariant forall id :: id in m.mapInfo ==> (if n < 0 then n else 0) <= id < m.nIdCount
      invariant forall id :: 0 <= id < n ==> id in m.mapInfo
      invariant Underway(m.h, m.Abs(), s, v, img, n, all, m.nIdCount, pos - 6)
      invariant Faithful(m.h, s, v, img) ==> nLost == 0 && n >= 0
    {
      if Faithful(m.h, s, v, img) {
        UnderwayParts(m.h, m.Abs(), s, v, img, n, all, m.nIdCount, pos - 6);
        EntriesThere(m.h, m.Abs(), s, v, img, m.nIdCount);
      }
      if pos >= |s| || !s[pos].Info? {
        ok := false;
        return;
      }
      var lost := LoadOneTried(m, s, pos - 6, v, img, n, all);
      if lost {
        nLost := nLost + 1;
      }
      i, pos := i + 1, pos + 1;
    }
    ghost var t := m.Abs();
    m.nTried := m.nTried - nLost;
    UnderwayCounters(m.h, t, m.Abs(), s, v, img, n, all, m.nIdCount, pos - 6);
  }

  lemma LoadedCountFree(h: Hashes, s: State, t: State, img: Image, k: int)
    requires Loaded(h, s, img, k) && t == s.(nIdCount := t.nIdCount)
    ensures Loaded(h, t, img, k)
  {
  }

  lemma LoadedTriedIs(h: Hashes, s: State, img: Image, m: int)
    requires Loaded(h, s, img, |img.news| + m) && 0 <= m <= |img.trieds|
    ensures s.triedAt == TriedIndex(h, img, m) && s.key == img.key
  {
  }

  lemma FaithfulRow(h: Hashes, s: seq<Token>, v: View, img: Image, b: int)
    requires Faithful(h, s, v, img) && 0 <= b < NEW_BUCKET_COUNT
    ensures |img.rows| == NEW_BUCKET_COUNT && Represents(h, v, img) && Sound(h, img.key, v)
    ensures RowStart(img, b + 1) == RowStart(img, b) + 1 + |img.rows[b]| <= |s|
    ensures 6 <= RowStart(img, b) && s[RowStart(img, b)] == Int(|img.rows[b]|)
    ensures forall k :: 0 <= k < |img.rows[b]| ==>
      s[RowStart(img, b) + 1 + k] == Int(img.rows[b][k]) && 0 <= img.rows[b][k] < |img.news|
  {
    hide Written, Sound, Lists, RowStart;
    RowAt(img, b);
    assert RowOk(h, img.key, v, img.news, b, img.rows[b]);
  }

  lemma RowStartsBelow(img: Image, b: int, n: int)
    requires 0 <= b < |img.rows| && 0 <= n < |img.rows[b]|
    ensures 0 <= RowStart(img, b) + 1 + n < |Written(img)|
  {
    hide Written, RowStart;
    RowAt(img, b);
  }

  lemma FaithfulIs(h: Hashes, s: seq<Token>, v: View, img: Image)
    requires Faithful(h, s, v, img)
    ensures s == Written(img)
  {
  }

  /** The rows have been read up to index `i` of row `b`, after `e` entries of which `k` were kept. */
  ghost predicate Refilling(h: Hashes, s: State, stream: seq<Token>, v: View, img: Image, b: int, i: int, n: int, all: int, k: int, e: int) {
    && RandomOk(s)
    && (Faithful(h, stream, v, img) ==>
          (0 <= b < |img.rows| ==> 0 <= i <= |img.rows[b]|) && Restoring(h, s, v, img, b, i))
    && (Apart(stream, n, all) ==> Reading(h, s, stream, n, k, e))
  }

  /** On a stream that represents no view, it does not matter where in the rows. */
  lemma RefillingElsewhere(h: Hashes, s: State, stream: seq<Token>, v: View, img: Image, b: int, i: int, b2: int, i2: int, n: int, all: int, k: int, e: int)
    requires Refilling(h, s, stream, v, img, b, i, n, all, k, e) && !Faithful(h, stream, v, img)
    ensures Refilling(h, s, stream, v, img, b2, i2, n, all, k, e)
  {
  }

  lemma RefillingRow(h: Hashes, s: State, stream: seq<Token>, v: View, img: Image, b: int, i: int, n: int, all: int, k: int, e: int)
    requires Refilling(h, s, stream, v, img, b, i, n, all, k, e) && 0 <= b < NEW_BUCKET_COUNT
    requires Faithful(h, stream, v, img) ==> b < |img.rows| && i == |img.rows[b]|
    ensures Refilling(h, s, stream, v, img, b + 1, 0, n, all, k, e)
  {
    hide Faithful, RandomOk, Reading, Apart, Restoring;
    if Faithful(h, stream, v, img) {
      FaithfulRow(h, stream, v, img, b);
      RestoringNextRow(h, s, v, img, b);
    }
  }

  /** One bucket of indices. */
  method LoadRow(m: CAddrMan, s: seq<Token>, start: int, bucket: int, nVersion: int, nUBuckets: int,
                 ghost v: View, ghost img: Image, ghost all: int, ghost k: int, ghost e: int)
    returns (ok: bool, pos: int)
    requires m.Shaped() && 0 <= start <= |s| && 0 <= bucket < nUBuckets
    requires forall id :: 0 <= id < m.nNew ==> id in m.mapInfo
    requires Refilling(m.h, m.Abs(), s, v, img, bucket, 0, m.nNew, all, k, e)
    requires Faithful(m.h, s, v, img) ==>
      nVersion == 1 && nUBuckets == NEW_BUCKET_COUNT == |img.rows| && m.nNew == |img.news| && start == RowStart(img, bucket)
    modifies m`mapInfo, m.vvNew
    ensures ok ==> 0 <= pos <= |s| && m.mapInfo.Keys == old(m.mapInfo.Keys)
    ensures ok ==> Refilling(m.h, m.Abs(), s, v, img, bucket + 1, 0, m.nNew, all, k, e)
    ensures Faithful(m.h, s, v, img) ==> ok && bucket < |img.rows| && pos == RowStart(img, bucket + 1)
  {
    hide Faithful, Refilling, Represents, Sound, RandomOk, Table, Restoring, Position, Written, RowStart, Apart, Reading;
    ok, pos := true, start;
    if Faithful(m.h, s, v, img) { FaithfulRow(m.h, s, v, img, bucket); }
    if pos >= |s| || !s[pos].Int? {
      ok := false;
      return;
    }
    var nSize := s[pos].i;
    pos := pos + 1;
    var n := 0;
    while n < nSize
      invariant 0 <= n && (n <= nSize || n == 0) && 0 <= pos <= |s|
      invariant m.mapInfo.Keys == old(m.mapInfo.Keys)
      invariant Refilling(m.h, m.Abs(), s, v, img, bucket, n, m.nNew, all, k, e)
      invariant Faithful(m.h, s, v, img) ==> nSize == |img.rows[bucket]| && pos == RowStart(img, bucket) + 1 + n
    {
      if Faithful(m.h, s, v, img) { WrittenIndex(m.h, s, v, img, bucket, n); }
      if pos >= |s| || !s[pos].Int? {
        ok := false;
        return;
      }
      var nIndex := s[pos].i;
      if 0 <= nIndex < m.nNew {
        LoadIndex(m, bucket, nIndex, nVersion, nUBuckets, n, s, v, img, all, k, e);
      } else {
        RefillingElsewhere(m.h, m.Abs(), s, v, img, bucket, n, bucket, n + 1, m.nNew, all, k, e);
      }
      n, pos := n + 1, pos + 1;
    }
    if Faithful(m.h, s, v, img) {
      RefillingRow(m.h, m.Abs(), s, v, img, bucket, n, m.nNew, all, k, e);
    } else {
      RefillingElsewhere(m.h, m.Abs(), s, v, img, bucket, n, bucket + 1, 0, m.nNew, all, k, e);
    }
  }

  lemma WrittenIndex(h: Hashes, s: seq<Token>, v: View, img: Image, b: int, n: int)
    requires Faithful(h, s, v, img) && 0 <= b < NEW_BUCKET_COUNT == |img.rows| && 0 <= n < |img.rows[b]|
    ensures var pos := RowStart(img, b) + 1 + n;
      0 <= pos < |s| && s[pos] == Int(img.rows[b][n]) && 0 <= img.rows[b][n] < |img.news|
  {
    hide Faithful, Written, RowStart;
    FaithfulRow(h, s, v, img, b);
    FaithfulIs(h, s, v, img);
    RowStartsBelow(img, b, n);
  }

  lemma RestoringNextRow(h: Hashes, s: State, v: View, img: Image, b: int)
    requires Represents(h, v, img) && 0 <= b < |img.rows| == NEW_BUCKET_COUNT && Sound(h, img.key, v)
    requires Restoring(h, s, v, img, b, |img.rows[b]|)
    ensures Restoring(h, s, v, img, b + 1, 0)
  {
    hide Partial, Represents, Sound, UptoView, ViewOf;
    RowEnds(h, v, img, b);
  }

  /** What an index does to the bucket, on every kind of stream. */
  lemma IndexRead(h: Hashes, s: State, stream: seq<Token>, v: View, img: Image, b: int, i: int, id: int, n: int, all: int, k: int, e: int)
    requires Refilling(h, s, stream, v, img, b, i, n, all, k, e) && 0 <= b < NEW_BUCKET_COUNT && id in s.info && 0 <= id < n
    requires Faithful(h, stream, v, img) ==>
      |img.rows| == NEW_BUCKET_COUNT && 0 <= i < |img.rows[b]| && id == img.rows[b][i] && id < |img.news|
    ensures var c := NewCell(h, s.key, b, s.info[id].core.svc);
      if c !in s.newAt && s.info[id].nRefCount < NEW_BUCKETS_PER_ADDRESS
      then Refilling(h, Placed(s, c, id), stream, v, img, b, i + 1, n, all, k, e)
      else !Faithful(h, stream, v, img)
  {
    hide Faithful, RandomOk, Reading, Apart, Restoring, NewCell;
    var c := NewCell(h, s.key, b, s.info[id].core.svc);
    if Faithful(h, stream, v, img) {
      FaithfulRow(h, stream, v, img, b);
      RowStep(h, s, v, img, b, i, id, c);
    }
    if c !in s.newAt && s.info[id].nRefCount < NEW_BUCKETS_PER_ADDRESS {
      SameOrder(s, Placed(s, c, id));
      if Apart(stream, n, all) { ReadingPlaced(h, s, stream, n, k, e, b, id); }
    }
  }

  /** One index: the entry takes its place in the bucket if it can. */
  method LoadIndex(m: CAddrMan, bucket: int, nIndex: int, nVersion: int, nUBuckets: int, ghost n: int,
                   ghost s: seq<Token>, ghost v: View, ghost img: Image, ghost all: int, ghost k: int, ghost e: int)
    requires m.Shaped() && nIndex in m.mapInfo && 0 <= nIndex < m.nNew && 0 <= bucket < nUBuckets
    requires Refilling(m.h, m.Abs(), s, v, img, bucket, n, m.nNew, all, k, e)
    requires Faithful(m.h, s, v, img) ==>
      && |img.rows| == NEW_BUCKET_COUNT == nUBuckets && nVersion == 1 && 0 <= n < |img.rows[bucket]|
      && nIndex == img.rows[bucket][n] && nIndex < |img.news|
    modifies m`mapInfo, m.vvNew
    ensures m.mapInfo.Keys == old(m.mapInfo.Keys)
    ensures Refilling(m.h, m.Abs(), s, v, img, bucket, n + 1, m.nNew, all, k, e)
  {
    hide Faithful, Refilling, RandomOk, Table, Restoring, Position, Apart, Reading;
    ghost var t := m.Abs();
    var nUBucketPos := m.PositionAt(true, bucket, m.mapInfo[nIndex].core.svc);
    if bucket < NEW_BUCKET_COUNT {
      m.Vacant(bucket, nUBucketPos);
      IndexRead(m.h, t, s, v, img, bucket, n, nIndex, m.nNew, all, k, e);
    }
    if nVersion == 1 && nUBuckets == NEW_BUCKET_COUNT && m.vvNew[bucket, nUBucketPos] == -1
       && m.mapInfo[nIndex].nRefCount < NEW_BUCKETS_PER_ADDRESS {
      m.PutReference(nIndex, bucket, nUBucketPos);
    } else {
      RefillingElsewhere(m.h, t, s, v, img, bucket, n, bucket, n + 1, m.nNew, all, k, e);
    }
  }

  /** While entries are dropped, those left are still the ones that were read. */
  ghost predicate Pruning(h: Hashes, s: State, stream: seq<Token>, n: int, all: int) {
    && RandomOk(s)
    && (Apart(stream, n, all) ==> Partial(h, s, Interval(0, n), 0) && ReadFrom(s, stream, n, all))
  }

  lemma PruningDeletes(h: Hashes, s: State, stream: seq<Token>, n: int, all: int, id: int)
    requires Pruning(h, s, stream, n, all) && id in s.info && !s.info[id].fInTried && s.info[id].nRefCount == 0
    ensures RandomOk(s) && Pruning(h, Deleted(s, id), stream, n, all)
    ensures Deleted(s, id).nIdCount == s.nIdCount && Deleted(s, id).key == s.key && Deleted(s, id).info.Keys == s.info.Keys - {id}
    ensures forall i :: i in Deleted(s, id).info ==>
      Deleted(s, id).info[i] == s.info[i].(nRandomPos := Deleted(s, id).info[i].nRandomPos)
  {
    hide Partial, RandomOk, Apart, ReadFrom, Deleted, ViewOf, Interval;
    DeletedKeepsRandom(s, id);
    DeletedKeepsCount(s, id);
    if Apart(stream, n, all) {
      DeletedKeeps(h, s, Interval(0, n), 0, id);
      MoreLimbo(h, Deleted(s, id), Interval(0, n) - {id}, Interval(0, n), 0);
      SameCores(s, Deleted(s, id), stream, n, all);
    }
  }

  lemma PruningOrder(h: Hashes, s: State, stream: seq<Token>, n: int, all: int)
    requires Pruning(h, s, stream, n, all)
    ensures RandomOk(s)
  {
  }

  lemma PruningEnds(h: Hashes, s: State, stream: seq<Token>, n: int, all: int)
    requires Pruning(h, s, stream, n, all) && Apart(stream, n, all)
    requires forall id :: id in s.info ==> s.info[id].fInTried || s.info[id].nRefCount != 0
    ensures Partial(h, s, {}, 0) && FromStream(ViewOf(s), stream, n, all)
  {
    hide RandomOk, Apart, TriedOk, FreshOk, CountsOk, TimesOk, Interval, SaidAt;
    forall a | a in ViewOf(s)
      ensures exists i :: 0 <= i < all && SaidAt(stream, n, i, ViewOf(s)[a].core, ViewOf(s)[a].tried)
    {
      var id := s.ids[a];
      var i :| 0 <= i < all && SaidAt(stream, n, i, s.info[id].core, s.info[id].fInTried);
    }
  }

  /** Every peer is what some entry of the stream says. */
  ghost predicate FromStream(v: View, stream: seq<Token>, n: int, all: int) {
    forall a :: a in v ==> exists i :: 0 <= i < all && SaidAt(stream, n, i, v[a].core, v[a].tried)
  }

  /** Entries that found no place are dropped. */
  method Prune(m: CAddrMan, lo: int, ghost s: seq<Token>, ghost n: int, ghost all: int) returns (nLostUnk: int)
    requires m.Shaped() && Pruning(m.h, m.Abs(), s, n, all)
    requires forall id :: id in m.mapInfo ==> lo <= id < m.nIdCount
    modifies m
    ensures Pruning(m.h, m.Abs(), s, n, all) && nLostUnk >= 0 && m.nKey == old(m.nKey)
    ensures forall id :: id in m.mapInfo ==> m.mapInfo[id].fInTried || m.mapInfo[id].nRefCount != 0
    ensures (forall id :: id in old(m.mapInfo) ==> old(m.mapInfo)[id].fInTried || old(m.mapInfo)[id].nRefCount != 0) ==>
      nLostUnk == 0 && m.Abs() == old(m.Abs())
  {
    hide RandomOk, Pruning, Table;
    nLostUnk := 0;
    var hi := m.nIdCount;
    var id := lo;
    while id < hi
      invariant Pruning(m.h, m.Abs(), s, n, all) && m.nIdCount == hi && nLostUnk >= 0 && m.nKey == old(m.nKey)
      invariant forall i :: i in m.mapInfo ==> lo <= i < hi
      invariant forall i :: i in m.mapInfo && i < id ==> m.mapInfo[i].fInTried || m.mapInfo[i].nRefCount != 0
      invariant (forall i :: i in old(m.mapInfo) ==> old(m.mapInfo)[i].fInTried || old(m.mapInfo)[i].nRefCount != 0) ==>
        nLostUnk == 0 && m.Abs() == old(m.Abs())
    {
      if id in m.mapInfo && !m.mapInfo[id].fInTried && m.mapInfo[id].nRefCount == 0 {
        PruningDeletes(m.h, m.Abs(), s, n, all, id);
        m.Delete(id);
        nLostUnk := nLostUnk + 1;
      }
      id := id + 1;
    }
  }

  lemma DeletedKeepsCount(s: State, id: int)
    requires RandomOk(s) && id in s.info
    ensures Deleted(s, id).nIdCount == s.nIdCount && Deleted(s, id).key == s.key
  {
  }

  /** No address twice among the entries that the stream announces, and no impossible times of success. */
  ghost predicate Distinct(stream: seq<Token>) {
    |stream| >= 6 && stream[3].Int? && stream[4].Int? && Apart(stream, stream[3].i, stream[3].i + stream[4].i)
  }

  /**
   Read a stream into a manager without entries.  A stream that ends early, or whose
   key is not 32 bytes long, fails; no stream makes an internal check fail; one that names no
   address twice gives a consistent manager of peers that it names, whatever its rows say and
   whatever finds no place; and what `Serialize` wrote is restored, peer by peer and cell by
   cell, but for the last tries.
   */
  method Unserialize(m: CAddrMan, s: seq<Token>, randomKey: Key, ghost v: View, ghost img: Image)
    returns (ok: bool)
    requires m.Shaped() && m.mapInfo == map[] && m.mapAddr == map[]
    modifies m, m.vvNew, m.vvTried
    ensures ok ==> RandomOk(m.Abs())
    ensures ok && Distinct(s) ==> m.Valid() && FromStream(m.Peers(), s, s[3].i, s[3].i + s[4].i)
    ensures ok ==> |s| >= 6 && s[1] == Byte(32) && s[2] == KeyToken(m.nKey)
    ensures Faithful(m.h, s, v, img) ==>
      ok && m.Valid() && m.nKey == img.key && m.Peers() == Forgotten(v)
  {
    hide Faithful, Underway, Refilling, Pruning, Loaded, Represents, Sound, RandomOk, Table, Restoring, Lists, Written, RowStart, Apart, Reading, FromStream;
    m.Clear(randomKey);
    ok := false;
    if Faithful(m.h, s, v, img) { FaithfulHeader(m.h, s, v, img); }
    if |s| < 2 || !s[0].Byte? || !s[1].Byte? {
      return;
    }
    var nVersion := s[0].b;
    if s[1].b != 32 {
      return;
    }
    if |s| < 6 || !s[2].KeyToken? || !s[3].Int? || !s[4].Int? || !s[5].Int? {
      return;
    }
    m.nKey, m.nNew, m.nTried := s[2].key, s[3].i, s[4].i;
    var nUBuckets := s[5].i;
    if nVersion != 0 {
      nUBuckets := FlipBit30(nUBuckets);
    }
    ghost var all := s[3].i + s[4].i;
    UnderwayStarts(m.h, m.Abs(), s, v, img, m.nNew, all);
    ok := LoadAll(m, s, nVersion, nUBuckets, v, img, all);
  }

  /** Everything after the header. */
  method LoadAll(m: CAddrMan, s: seq<Token>, nVersion: int, nUBuckets: int, ghost v: View, ghost img: Image, ghost all: int)
    returns (ok: bool)
    requires m.Shaped() && m.mapInfo == map[] && |s| >= 6 && m.nTried == all - m.nNew
    requires Underway(m.h, m.Abs(), s, v, img, m.nNew, all, 0, 0)
    requires Faithful(m.h, s, v, img) ==> nVersion == 1 && nUBuckets == NEW_BUCKET_COUNT && m.nKey == img.key
    modifies m, m.vvNew, m.vvTried
    ensures m.nKey == old(m.nKey)
    ensures ok ==> RandomOk(m.Abs())
    ensures ok && Apart(s, old(m.nNew), all) ==> m.Valid() && FromStream(m.Peers(), s, old(m.nNew), all)
    ensures Faithful(m.h, s, v, img) ==> ok && m.Valid() && m.Peers() == Forgotten(v)
  {
    hide Faithful, Underway, Refilling, Pruning, Loaded, Represents, Sound, RandomOk, Table, Restoring, Lists, Written, RowStart, Apart, Reading, FromStream;
    ghost var n := m.nNew;
    var ok1, pos1 := LoadNew(m, s, nVersion, nUBuckets, v, img, all);
    if !ok1 {
      return false;
    }
    ghost var t1 := m.Abs();
    m.nIdCount := m.nNew;
    UnderwayCounters(m.h, t1, m.Abs(), s, v, img, n, all, pos1 - 6, pos1 - 6);
    var lo := if m.nNew < 0 then m.nNew else 0;
    var ok2, pos, nLost := LoadTried(m, s, pos1, v, img, all);
    if !ok2 {
      return false;
    }
    RefillingStarts(m.h, m.Abs(), s, v, img, n, all, m.nIdCount, pos - 6);
    ghost var k := m.nIdCount;
    var okRows := LoadRows(m, s, pos, nVersion, nUBuckets, v, img, all, k, pos - 6);
    if !okRows {
      return false;
    }
    if Apart(s, n, all) { AnnouncedBy(s, n, all); }
    PruningStarts(m.h, m.Abs(), s, v, img, n, all, k, pos - 6);
    var nLostUnk := Prune(m, lo, s, n, all);
    PruningOrder(m.h, m.Abs(), s, n, all);
    if Apart(s, n, all) { PruningEnds(m.h, m.Abs(), s, n, all); }
    return true;
  }

  method LoadRows(m: CAddrMan, s: seq<Token>, start: int, nVersion: int, nUBuckets: int,
                  ghost v: View, ghost img: Image, ghost all: int, ghost k: int, ghost e: int)
    returns (ok: bool)
    requires m.Shaped() && 0 <= start <= |s|
    requires forall id :: 0 <= id < m.nNew ==> id in m.mapInfo
    requires Refilling(m.h, m.Abs(), s, v, img, 0, 0, m.nNew, all, k, e)
    requires Faithful(m.h, s, v, img) ==>
      nVersion == 1 && nUBuckets == NEW_BUCKET_COUNT == |img.rows| && m.nNew == |img.news| && start == RowStart(img, 0)
    modifies m`mapInfo, m.vvNew
    ensures ok ==> m.mapInfo.Keys == old(m.mapInfo.Keys)
    ensures ok ==> Refilling(m.h, m.Abs(), s, v, img, NEW_BUCKET_COUNT, 0, m.nNew, all, k, e)
    ensures Faithful(m.h, s, v, img) ==> ok
  {
    hide Faithful, Refilling, RandomOk, Table, Restoring, RowStart, Apart, Reading;
    var bucket, pos := 0, start;
    ok := true;
    while bucket < nUBuckets
      invariant 0 <= bucket && (bucket <= nUBuckets || bucket == 0) && 0 <= pos <= |s|
      invariant m.mapInfo.Keys == old(m.mapInfo.Keys)
      invariant Refilling(m.h, m.Abs(), s, v, img, bucket, 0, m.nNew, all, k, e)
      invariant Faithful(m.h, s, v, img) ==> bucket <= |img.rows| && pos == RowStart(img, bucket)
    {
      var okRow, next := LoadRow(m, s, pos, bucket, nVersion, nUBuckets, v, img, all, k, e);
      if !okRow {
        ok := false;
        return;
      }
      bucket, pos := bucket + 1, next;
    }
    if !Faithful(m.h, s, v, img) {
      RefillingElsewhere(m.h, m.Abs(), s, v, img, bucket, 0, NEW_BUCKET_COUNT, 0, m.nNew, all, k, e);
    }
  }

  /** Between the entries and the rows. */
  lemma RefillingStarts(h: Hashes, s: State, stream: seq<Token>, v: View, img: Image, n: int, all: int, k: int, e: int)
    requires Underway(h, s, stream, v, img, n, all, k, e) && s.nNew == n && s.nIdCount == k
    requires Faithful(h, stream, v, img) ==> e == all && s.nTried == all - n
    ensures Refilling(h, s, stream, v, img, 0, 0, n, all, k, e)
    ensures Faithful(h, stream, v, img) ==>
      |img.rows| == NEW_BUCKET_COUNT && n == |img.news| && RowStart(img, 0) == 6 + e
  {
    hide Faithful, Loaded, RandomOk, Restoring, RowStart, Apart, Reading;
    if Faithful(h, stream, v, img) {
      FaithfulParts(h, stream, v, img, s, k);
      FaithfulRows(h, stream, v, img, s);
    }
  }

  /** Between the rows and the pruning: a restored manager has nothing to prune. */
  lemma PruningStarts(h: Hashes, s: State, stream: seq<Token>, v: View, img: Image, n: int, all: int, k: int, e: int)
    requires Refilling(h, s, stream, v, img, NEW_BUCKET_COUNT, 0, n, all, k, e)
    requires s.nIdCount == k && s.nNew == n && n <= k
    requires Faithful(h, stream, v, img) ==> |img.rows| == NEW_BUCKET_COUNT
    requires Apart(stream, n, all) ==> e == all && s.nTried == k - n
    ensures Pruning(h, s, stream, n, all)
    ensures Faithful(h, stream, v, img) ==> Partial(h, s, {}, 0) && IdsOk(s) && ViewOf(s) == Forgotten(v)
    ensures Faithful(h, stream, v, img) ==> forall id :: id in s.info ==> s.info[id].fInTried || s.info[id].nRefCount != 0
  {
    hide Faithful, Partial, RandomOk, Restoring, Apart, Reading, ReadFrom, ViewOf, Forgotten, IdsOk;
    if Faithful(h, stream, v, img) { FaithfulEnd(h, stream, v, img, s); }
    if Apart(stream, n, all) {
      AnnouncedBy(stream, n, all);
      ReadingEnds(h, s, stream, n, k, e);
    }
  }

  lemma FaithfulHeader(h: Hashes, s: seq<Token>, v: View, img: Image)
    requires Faithful(h, s, v, img)
    ensures |s| >= 6
    ensures s[0] == Byte(1) && s[1] == Byte(32) && s[2] == KeyToken(img.key)
    ensures s[3] == Int(|img.news|) && s[4] == Int(|img.trieds|)
    ensures s[5].Int? && FlipBit30(s[5].i) == NEW_BUCKET_COUNT
  {
    hide Represents, Sound;
    WrittenAt(img);
    assert s[..6] == Header(img.key, |img.news|, |img.trieds|);
    forall i | 0 <= i < 6 ensures s[i] == Header(img.key, |img.news|, |img.trieds|)[i] {
      assert s[i] == s[..6][i];
    }
  }

  lemma FaithfulRows(h: Hashes, s: seq<Token>, v: View, img: Image, t: State)
    requires Faithful(h, s, v, img) && Loaded(h, t, img, |img.news| + |img.trieds|)
    requires t.nIdCount == |img.news| + |img.trieds|
    ensures |img.rows| == NEW_BUCKET_COUNT && RowStart(img, 0) == 6 + |img.news| + |img.trieds|
    ensures Restoring(h, t, v, img, 0, 0)
    ensures t.nNew == |img.news|
  {
    hide Partial, Sound, Lists, Written, RowOk, ViewOf, Bare, UptoView;
    assert img.rows[..0] == [];
    AllLoaded(h, t, v, img);
    RestoringStarts(h, t, v, img);
  }

  lemma FaithfulEnd(h: Hashes, s: seq<Token>, v: View, img: Image, t: State)
    requires Faithful(h, s, v, img) && |img.rows| == NEW_BUCKET_COUNT && Restoring(h, t, v, img, NEW_BUCKET_COUNT, 0)
    ensures Partial(h, t, {}, 0) && IdsOk(t) && ViewOf(t) == Forgotten(v) && t.key == img.key
    ensures forall id :: id in t.info ==> t.info[id].fInTried || t.info[id].nRefCount != 0
  {
    hide Sound, Lists, Written, RowOk, ViewOf, Forgotten, RandomOk, IdsOk, TriedOk, FreshOk, CountsOk, TimesOk, UptoView;
    RestoringEnds(h, t, v, img);
  }

  /** Writing a manager and reading it into a new one gives the same peers. */
  method RoundTrip(m: CAddrMan, into: CAddrMan, randomKey: Key)
    requires m.Valid() && into.Valid() && into.mapInfo == map[] && into.mapAddr == map[]
    requires {into, into.vvNew, into.vvTried} !! {m, m.vvNew, m.vvTried} && into.h == m.h
    modifies into, into.vvNew, into.vvTried
    ensures m.Valid() && m.Peers() == old(m.Peers())
    ensures into.Valid() && into.nKey == m.nKey && into.Peers().Keys == m.Peers().Keys
    ensures forall a :: a in m.Peers() ==> into.Peers()[a] == m.Peers()[a].(core := m.Peers()[a].core.(nLastTry := 0))
  {
    hide Partial, IdsOk, Represents, Sound, Written, Table, ViewOf, Forgotten, RandomOk;
    Parts(m.h, m.Abs(), {}, 0);
    ConsistentShowsSound(m.h, m.Abs());
    ghost var v := m.Peers();
    var stream := Serialize(m);
    ghost var img :| Says(m.h, m.nKey, v, stream, img);
    assert Faithful(into.h, stream, v, img);
    ghost var s := m.Abs();
    var ok := Unserialize(into, stream, randomKey, v, img);
    assert m.Abs() == s;
    ForgottenIs(v);
  }

  lemma ForgottenIs(v: View)
    ensures Forgotten(v).Keys == v.Keys
    ensures forall a :: a in v ==> Forgotten(v)[a] == v[a].(core := v[a].core.(nLastTry := 0))
  {
  }
}
