/**
 A map of bounded size (core/src/limitedmap.h): beside the map itself, its entries in the
 order of their values.
 */
module LimitedMap {

  datatype Entry<K> = Entry(value: int, key: K)

  predicate Ordered<K>(r: seq<Entry<K>>) { forall i, j :: 0 <= i < j < |r| ==> r[i].value <= r[j].value }

  /** `multimap::insert`: behind the entries of the same value. */
  function Inserted<K>(r: seq<Entry<K>>, e: Entry<K>): (s: seq<Entry<K>>)
    ensures |s| == |r| + 1
  {
    if r == [] || r[|r| - 1].value <= e.value then r + [e] else Inserted(r[..|r| - 1], e) + [r[|r| - 1]]
  }

  lemma {:induction false} InsertedIs<K>(r: seq<Entry<K>>, e: Entry<K>)
    requires Ordered(r)
    ensures Ordered(Inserted(r, e)) && multiset(Inserted(r, e)) == multiset(r) + multiset{e}
  {
    if r != [] && r[|r| - 1].value > e.value {
      var init, last := r[..|r| - 1], r[|r| - 1];
      InsertedIs(init, e);
      assert r == init + [last];
      InsertedBelow(init, Inserted(init, e), e, last);
      OrderedLast(Inserted(init, e), last);
    } else {
      OrderedLast(r, e);
    }
  }

  /** The new entry stands behind all that are not above it and before all that are. */
  lemma {:induction false} InsertedAt<K>(r: seq<Entry<K>>, e: Entry<K>) returns (i: nat)
    requires Ordered(r)
    ensures i <= |r| && Inserted(r, e) == r[..i] + [e] + r[i..]
    ensures forall j :: 0 <= j < |r| ==> (j < i <==> r[j].value <= e.value)
  {
    i := |r|;
    if r != [] && r[|r| - 1].value > e.value {
      i := InsertedAt(r[..|r| - 1], e);
      assert r[i..] == r[..|r| - 1][i..] + [r[|r| - 1]];
    }
  }

  lemma InsertedBelow<K>(r: seq<Entry<K>>, s: seq<Entry<K>>, e: Entry<K>, high: Entry<K>)
    requires multiset(s) == multiset(r) + multiset{e} && e.value <= high.value && Ordered(r + [high])
    ensures s != [] ==> s[|s| - 1].value <= high.value
  {
    if s != [] {
      var x := s[|s| - 1];
      assert x in multiset(s);
      if x in r {
        var i :| 0 <= i < |r| && r[i] == x;
        assert (r + [high])[i] == x && (r + [high])[|r|] == high;
      }
    }
  }

  lemma OrderedLast<K>(r: seq<Entry<K>>, e: Entry<K>)
    requires Ordered(r) && (r != [] ==> r[|r| - 1].value <= e.value)
    ensures Ordered(r + [e])
  {
  }

  /** The entries are those of the map, each once. */
  ghost predicate Mirrors<K(!new)>(m: map<K, int>, r: seq<Entry<K>>) {
    && (forall i :: 0 <= i < |r| ==> r[i].key in m && m[r[i].key] == r[i].value)
    && (forall i, j :: 0 <= i < j < |r| ==> r[i].key != r[j].key)
    && (forall k :: k in m ==> exists i :: 0 <= i < |r| && r[i].key == k)
  }

  /** Membership and multiplicity are all that `Mirrors` depends on. */
  ghost predicate MirrorsBag<K(!new)>(m: map<K, int>, bag: multiset<Entry<K>>) {
    && (forall e :: e in bag ==> bag[e] == 1 && e.key in m && m[e.key] == e.value)
    && (forall k :: k in m ==> Entry(m[k], k) in bag)
  }

  lemma {:induction false} OnceEach<K>(r: seq<Entry<K>>, e: Entry<K>)
    requires forall i, j :: 0 <= i < j < |r| ==> r[i].key != r[j].key
    ensures multiset(r)[e] <= 1
  {
    if r != [] {
      OnceEach(r[1..], e);
      assert r == [r[0]] + r[1..];
      if r[0] == e { assert forall i :: 0 <= i < |r[1..]| ==> r[1..][i] != e; }
    }
  }

  lemma TwoPlaces<K>(r: seq<Entry<K>>, i: nat, j: nat)
    requires i < j < |r| && r[i] == r[j]
    ensures multiset(r)[r[i]] >= 2
  {
    assert r == r[..j] + r[j..];
    assert r[i] in r[..j] && r[j] in r[j..];
  }

  lemma BagMirrors<K(!new)>(m: map<K, int>, r: seq<Entry<K>>)
    ensures Mirrors(m, r) <==> MirrorsBag(m, multiset(r))
  {
    if Mirrors(m, r) {
      forall e | e in multiset(r)
        ensures multiset(r)[e] == 1
      {
        OnceEach(r, e);
      }
    }
    if MirrorsBag(m, multiset(r)) {
      forall i | 0 <= i < |r|
        ensures r[i].key in m && m[r[i].key] == r[i].value
      {
        assert r[i] in multiset(r);
      }
      forall i, j | 0 <= i < j < |r|
        ensures r[i].key != r[j].key
      {
        assert r[i] in multiset(r) && r[j] in multiset(r);
        if r[i] == r[j] { TwoPlaces(r, i, j); }
      }
      forall k | k in m
        ensures exists i :: 0 <= i < |r| && r[i].key == k
      {
        assert Entry(m[k], k) in r;
      }
    }
  }

  function Without<K>(r: seq<Entry<K>>, i: nat): seq<Entry<K>>
    requires i < |r|
  {
    r[..i] + r[i + 1..]
  }

  lemma BagShrinks<K(!new)>(m: map<K, int>, bag: multiset<Entry<K>>, e: Entry<K>)
    requires MirrorsBag(m, bag) && e in bag
    ensures MirrorsBag(m - {e.key}, bag - multiset{e})
  {
    forall d | d in bag - multiset{e}
      ensures d.key != e.key
    {
      assert bag[d] == 1 && bag[e] == 1 && d in bag;
    }
  }

  lemma BagGrows<K(!new)>(m: map<K, int>, bag: multiset<Entry<K>>, k: K, v: int)
    requires MirrorsBag(m, bag) && k !in m
    ensures MirrorsBag(m[k := v], bag + multiset{Entry(v, k)})
  {
    assert Entry(v, k) !in bag;
  }

  lemma WithoutOrdered<K>(r: seq<Entry<K>>, i: nat)
    requires Ordered(r) && i < |r|
    ensures Ordered(Without(r, i)) && multiset(Without(r, i)) == multiset(r) - multiset{r[i]}
  {
    assert r == r[..i] + [r[i]] + r[i + 1..];
    var s := Without(r, i);
    forall a, b | 0 <= a < b < |s|
      ensures s[a].value <= s[b].value
    {
      assert s[a] == r[if a < i then a else a + 1] && s[b] == r[if b < i then b else b + 1];
    }
  }

  lemma WithoutIs<K(!new)>(m: map<K, int>, r: seq<Entry<K>>, i: nat)
    requires Mirrors(m, r) && Ordered(r) && i < |r|
    ensures Mirrors(m - {r[i].key}, Without(r, i)) && Ordered(Without(r, i))
  {
    hide Mirrors;
    hide MirrorsBag;
    BagMirrors(m, r);
    assert r[i] in multiset(r);
    BagShrinks(m, multiset(r), r[i]);
    WithoutOrdered(r, i);
    BagMirrors(m - {r[i].key}, Without(r, i));
  }

  lemma WithIs<K(!new)>(m: map<K, int>, r: seq<Entry<K>>, k: K, v: int)
    requires Mirrors(m, r) && Ordered(r) && k !in m
    ensures Mirrors(m[k := v], Inserted(r, Entry(v, k))) && Ordered(Inserted(r, Entry(v, k)))
  {
    hide Mirrors;
    hide MirrorsBag;
    InsertedIs(r, Entry(v, k));
    BagMirrors(m, r);
    BagGrows(m, multiset(r), k, v);
    BagMirrors(m[k := v], Inserted(r, Entry(v, k)));
  }

  lemma LastLeaves<K(!new)>(m: map<K, int>, r: seq<Entry<K>>)
    requires Mirrors(m, r) && r != []
    ensures var last := r[|r| - 1]; last.key in m && Mirrors(m - {last.key}, r[..|r| - 1])
  {
    var init, last := r[..|r| - 1], r[|r| - 1];
    forall k | k in m - {last.key}
      ensures exists i :: 0 <= i < |init| && init[i].key == k
    {
      var i :| 0 <= i < |r| && r[i].key == k;
      assert init[i].key == k;
    }
  }

  lemma OneKeyLess<K>(m: map<K, int>, k: K)
    requires k in m
    ensures |m - {k}| == |m| - 1
  {
    assert m.Keys == (m - {k}).Keys + {k};
  }

  lemma {:induction false} SameSize<K(!new)>(m: map<K, int>, r: seq<Entry<K>>)
    requires Mirrors(m, r)
    ensures |m| == |r|
  {
    if r == [] {
      assert m == map[];
    } else {
      LastLeaves(m, r);
      hide Mirrors;
      OneKeyLess(m, r[|r| - 1].key);
      SameSize(m - {r[|r| - 1].key}, r[..|r| - 1]);
    }
  }

  class LimitedMap<K(!new, ==)> {
    var contents: map<K, int>
    var rmap: seq<Entry<K>>
    var nMaxSize: nat

    ghost predicate Valid()
      reads this
    {
      Mirrors(contents, rmap) && Ordered(rmap)
    }

    constructor (nMaxSizeIn: nat)
      ensures Valid() && contents == map[] && nMaxSize == nMaxSizeIn
    {
      contents, rmap, nMaxSize := map[], [], nMaxSizeIn;
    }

    /**
     A new entry always enters.  When it makes the size equal to the maximum, the least of the
     others leaves: the map holds one entry less than its maximum.
     */
    method Insert(k: K, v: int) returns (ghost gone: K)
      requires Valid() && !(nMaxSize == 1 && contents == map[])
      modifies this
      ensures Valid() && nMaxSize == old(nMaxSize)
      ensures k in old(contents) ==> contents == old(contents)
      ensures k !in old(contents) && (nMaxSize == 0 || |old(contents)| + 1 != nMaxSize) ==> contents == old(contents)[k := v]
      ensures k in old(contents) ==> rmap == old(rmap)
      ensures k !in old(contents) && (nMaxSize == 0 || |old(contents)| + 1 != nMaxSize) ==> rmap == Inserted(old(rmap), Entry(v, k))
      ensures k !in old(contents) && nMaxSize != 0 && |old(contents)| + 1 == nMaxSize ==>
        old(rmap) != [] && gone == old(rmap)[0].key && rmap == Inserted(old(rmap)[1..], Entry(v, k))
      ensures k !in old(contents) ==> |contents| == SizeAfter(|old(contents)|, nMaxSize)
      ensures k !in old(contents) && nMaxSize != 0 && |old(contents)| + 1 == nMaxSize ==>
        && gone in old(contents) && (forall j :: j in old(contents) ==> old(contents)[gone] <= old(contents)[j])
        && contents == (old(contents) - {gone})[k := v]
    {
      hide Mirrors, Inserted;
      gone := k;
      if k !in contents {
        SameSize(contents, rmap);
        var size := |contents| + 1;
        if nMaxSize != 0 && size == nMaxSize {
          gone := rmap[0].key;
          LeastFirst(contents, rmap);
          WithoutIs(contents, rmap, 0);
          assert Without(rmap, 0) == rmap[1..];
          contents := contents - {rmap[0].key};
          rmap := Without(rmap, 0);
        }
        WithIs(contents, rmap, k, v);
        contents := contents[k := v];
        rmap := Inserted(rmap, Entry(v, k));
        SameSize(contents, rmap);
      }
    }

    /** The entry of a key among those of its value; it is always found. */
    method FindEntry(k: K) returns (i: nat)
      requires Valid() && k in contents
      ensures i < |rmap| && rmap[i].key == k
    {
      var v := contents[k];
      i := 0;
      while i < |rmap| && !(rmap[i].value == v && rmap[i].key == k)
        invariant i <= |rmap| && forall j :: 0 <= j < i ==> rmap[j].key != k
      {
        i := i + 1;
      }
      assert i < |rmap|;
    }

    method Erase(k: K)
      requires Valid()
      modifies this
      ensures Valid() && nMaxSize == old(nMaxSize) && contents == old(contents) - {k}
    {
      if k !in contents {
        assert contents - {k} == contents;
        return;
      }
      var i := FindEntry(k);
      WithoutIs(contents, rmap, i);
      rmap := Without(rmap, i);
      contents := contents - {k};
    }

    method Update(k: K, v: int)
      requires Valid()
      modifies this
      ensures Valid() && nMaxSize == old(nMaxSize)
      ensures contents == if k in old(contents) then old(contents)[k := v] else old(contents)
    {
      if k !in contents {
        return;
      }
      var i := FindEntry(k);
      WithoutIs(contents, rmap, i);
      ghost var rest := contents - {k};
      WithIs(rest, Without(rmap, i), k, v);
      assert rest[k := v] == contents[k := v];
      rmap := Inserted(Without(rmap, i), Entry(v, k));
      contents := contents[k := v];
    }

    /** Shrinks to `s` entries, the least first; zero means no bound. */
    method SetMaxSize(s: nat)
      requires Valid()
      modifies this
      ensures Valid() && nMaxSize == s
      ensures forall k :: k in contents ==> k in old(contents) && contents[k] == old(contents)[k]
      ensures |contents| == if s != 0 && |old(contents)| > s then s else |old(contents)|
      ensures forall k, j :: k in contents && j in old(contents) && j !in contents ==> old(contents)[j] <= contents[k]
    {
      if s != 0 {
        while |contents| > s
          invariant Valid() && nMaxSize == old(nMaxSize)
          invariant forall k :: k in contents ==> k in old(contents) && contents[k] == old(contents)[k]
          invariant if |old(contents)| > s then |contents| >= s else contents == old(contents)
          invariant forall k, j :: k in contents && j in old(contents) && j !in contents ==> old(contents)[j] <= contents[k]
          decreases |contents|
        {
          SameSize(contents, rmap);
          LeastFirst(contents, rmap);
          WithoutIs(contents, rmap, 0);
          var k := rmap[0].key;
          contents := contents - {k};
          rmap := Without(rmap, 0);
          SameSize(contents, rmap);
        }
      }
      nMaxSize := s;
    }
  }

  lemma LeastFirst<K(!new)>(m: map<K, int>, r: seq<Entry<K>>)
    requires Mirrors(m, r) && Ordered(r) && r != []
    ensures forall j :: j in m ==> m[r[0].key] <= m[j]
  {
    forall j | j in m
      ensures m[r[0].key] <= m[j]
    {
      var i :| 0 <= i < |r| && r[i].key == j;
    }
  }

  // ---------------------------------------------------------------- the bound

  /** The size after inserting a new key (`LimitedMap.Insert`). */
  function SizeAfter(size: nat, nMaxSize: nat): nat {
    if nMaxSize != 0 && size + 1 == nMaxSize then size else size + 1
  }

  function SizeAfterAll(size: nat, nMaxSize: nat, n: nat): nat
    decreases n
  {
    if n == 0 then size else SizeAfterAll(SizeAfter(size, nMaxSize), nMaxSize, n - 1)
  }

  /**
   With a maximum of two or more, the size stays below the maximum through any number of
   insertions exactly when it was below it; from the maximum on, as after shrinking to it,
   every insertion adds an entry.
   */
  lemma {:induction false} BoundedIff(size: nat, nMaxSize: nat, n: nat)
    requires nMaxSize >= 2
    ensures SizeAfterAll(size, nMaxSize, n) < nMaxSize <==> size < nMaxSize
    ensures size >= nMaxSize ==> SizeAfterAll(size, nMaxSize, n) == size + n
    decreases n
  {
    if n > 0 { BoundedIff(SizeAfter(size, nMaxSize), nMaxSize, n - 1); }
  }
}
