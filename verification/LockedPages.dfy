/**
 Locks on memory pages that stack (core/src/allocators.h:33-106): the operating system
 only knows whether a page is locked, so a histogram counts how many ranges need it.
 */
module LockedPages {
  import opened Arithmetic

  const ADDRESSES: nat := 0x1_0000_0000_0000_0000

  datatype Range = Range(base: nat, size: nat)

  /** Some byte of the range is on the page. */
  predicate Touches(r: Range, page: nat, pageSize: nat)
    requires pageSize > 0
  {
    page % pageSize == 0 && r.size > 0 && r.base < page + pageSize && page < r.base + r.size
  }

  function PageOf(a: nat, pageSize: nat): (p: nat)
    requires pageSize > 0
    ensures p <= a
  {
    QuotientRemainder(a, pageSize);
    a / pageSize * pageSize
  }

  lemma PageIs(a: nat, pageSize: nat)
    requires pageSize > 0
    ensures PageOf(a, pageSize) % pageSize == 0 && PageOf(a, pageSize) <= a < PageOf(a, pageSize) + pageSize
  {
    QuotientRemainder(a, pageSize);
    MultipleOf(a / pageSize, pageSize);
  }

  /** Multiples less than one page apart are the same. */
  lemma SamePage(a: nat, b: nat, pageSize: nat)
    requires pageSize > 0 && a % pageSize == 0 && b % pageSize == 0 && a <= b < a + pageSize
    ensures a == b
  {
    QuotientRemainder(a, pageSize);
    QuotientRemainder(b, pageSize);
    var p, q := a / pageSize, b / pageSize;
    assert (q - p) * pageSize == b - a;
    Spread(q - p, pageSize);
    Spread(p - q, pageSize);
    assert (p - q) * pageSize == a - b;
  }

  lemma NextPage(a: nat, pageSize: nat)
    requires pageSize > 0 && a % pageSize == 0
    ensures (a + pageSize) % pageSize == 0
  {
    QuotientRemainder(a, pageSize);
    Distribute(a / pageSize, 1, pageSize);
    MultipleOf(a / pageSize + 1, pageSize);
  }

  /** The pages between the first and the last are those the range touches. */
  lemma TouchedPages(r: Range, page: nat, pageSize: nat)
    requires pageSize > 0 && r.size > 0 && page % pageSize == 0
    ensures Touches(r, page, pageSize) <==> PageOf(r.base, pageSize) <= page <= PageOf(r.base + r.size - 1, pageSize)
  {
    var first, last := PageOf(r.base, pageSize), PageOf(r.base + r.size - 1, pageSize);
    PageIs(r.base, pageSize);
    PageIs(r.base + r.size - 1, pageSize);
    if page < first && r.base < page + pageSize { SamePage(page, first, pageSize); }
    if last < page && page < r.base + r.size { SamePage(last, page, pageSize); }
  }

  /** How many of the ranges touch a page. */
  function Live(ranges: seq<Range>, page: nat, pageSize: nat): nat
    requires pageSize > 0
  {
    if ranges == [] then 0 else
      Live(ranges[..|ranges| - 1], page, pageSize) + if Touches(ranges[|ranges| - 1], page, pageSize) then 1 else 0
  }

  lemma LiveLast(ranges: seq<Range>, r: Range, page: nat, pageSize: nat)
    requires pageSize > 0
    ensures Live(ranges + [r], page, pageSize) == Live(ranges, page, pageSize) + if Touches(r, page, pageSize) then 1 else 0
  {
    assert (ranges + [r])[..|ranges|] == ranges;
  }

  lemma {:induction false} LiveWithout(ranges: seq<Range>, i: nat, page: nat, pageSize: nat)
    requires pageSize > 0 && i < |ranges|
    ensures Live(ranges[..i] + ranges[i + 1..], page, pageSize)
      == Live(ranges, page, pageSize) - if Touches(ranges[i], page, pageSize) then 1 else 0
  {
    var k := |ranges| - 1;
    var rest := ranges[..i] + ranges[i + 1..];
    if i == k {
      assert rest == ranges[..k];
    } else {
      LiveWithout(ranges[..k], i, page, pageSize);
      assert rest[..k - 1] == ranges[..k][..i] + ranges[..k][i + 1..];
      assert rest[k - 1] == ranges[k];
    }
  }

  function Count(histogram: map<nat, nat>, page: nat): nat {
    if page in histogram then histogram[page] else 0
  }

  /** The pages from `first` up to, not including, `page`. */
  function Seen(q: nat, first: nat, page: nat, pageSize: nat): nat
    requires pageSize > 0
  {
    if q % pageSize == 0 && first <= q < page then 1 else 0
  }

  lemma SeenNext(q: nat, first: nat, page: nat, pageSize: nat)
    requires pageSize > 0 && page % pageSize == 0 && first <= page
    ensures Seen(q, first, page + pageSize, pageSize) == Seen(q, first, page, pageSize) + if q == page then 1 else 0
  {
    if q % pageSize == 0 && page <= q < page + pageSize { SamePage(page, q, pageSize); }
  }

  class LockedPageManager {
    const pageSize: nat
    var histogram: map<nat, nat>
    /** What the operating system has locked. */
    var locked: set<nat>
    ghost var ranges: seq<Range>

    /** Each page's count is the number of live ranges on it, and the locked pages are those that count. */
    ghost predicate Valid()
      reads this
    {
      && pageSize > 0
      && InStep()
      && forall page: nat :: Count(histogram, page) == Live(ranges, page, pageSize)
    }

    /** The operating system has locked what the histogram counts. */
    ghost predicate InStep()
      reads this
    {
      && (forall page :: page in histogram <==> page in locked)
      && (forall page :: page in histogram ==> histogram[page] > 0)
    }

    constructor (page_size: nat)
      requires page_size > 0
      ensures Valid() && ranges == [] && pageSize == page_size
    {
      pageSize, histogram, locked, ranges := page_size, map[], {}, [];
    }

    /** A page is locked exactly when some live range has a byte on it. */
    lemma LockedIs(page: nat)
      requires Valid()
      ensures page in locked <==> Live(ranges, page, pageSize) > 0
    {
    }

    /** The range stays a page away from the top of the address space, where the loop would not end. */
    predicate Below(r: Range) { r.base + r.size + pageSize <= ADDRESSES }

    /** One page gets a lock more. */
    method LockPage(page: nat)
      requires InStep()
      modifies this`histogram, this`locked
      ensures InStep()
      ensures forall q: nat :: Count(histogram, q) == Count(old(histogram), q) + if q == page then 1 else 0
    {
      if page !in histogram {
        locked := locked + {page};
        histogram := histogram[page := 1];
      } else {
        histogram := histogram[page := histogram[page] + 1];
      }
    }

    /** One page gets a lock less; the last one unlocks it. */
    method UnlockPage(page: nat)
      requires InStep() && Count(histogram, page) > 0
      modifies this`histogram, this`locked
      ensures InStep()
      ensures forall q: nat :: Count(histogram, q) == Count(old(histogram), q) - if q == page then 1 else 0
    {
      assert page in histogram;
      histogram := histogram[page := histogram[page] - 1];
      if histogram[page] == 0 {
        locked := locked - {page};
        histogram := histogram - {page};
      }
    }

    method LockRange(p: nat, size: nat)
      requires Valid() && Below(Range(p, size))
      modifies this
      ensures Valid() && ranges == if size == 0 then old(ranges) else old(ranges) + [Range(p, size)]
    {
      if size == 0 {
        return;
      }
      hide Count;
      hide Seen;
      hide Live;
      ghost var r, was := Range(p, size), histogram;
      var start_page, end_page := PageOf(p, pageSize), PageOf(p + size - 1, pageSize);
      PageIs(p, pageSize);
      PageIs(p + size - 1, pageSize);
      PagesInOrder(p, p + size - 1, pageSize);
      var page := start_page;
      NoneSeen(start_page, pageSize);
      while page <= end_page
        invariant page % pageSize == 0 && start_page <= page <= end_page + pageSize && InStep()
        invariant forall q: nat :: Count(histogram, q) == Count(was, q) + Seen(q, start_page, page, pageSize)
        invariant ranges == old(ranges)
        decreases end_page + pageSize - page
      {
        assert page + pageSize < ADDRESSES;
        LockPage(page);
        forall q: nat
          ensures Count(histogram, q) == Count(was, q) + Seen(q, start_page, page + pageSize, pageSize)
        {
          SeenNext(q, start_page, page, pageSize);
        }
        NextPage(page, pageSize);
        page := page + pageSize;
      }
      forall q: nat
        ensures Count(histogram, q) == Live(ranges + [r], q, pageSize)
      {
        LiveLast(ranges, r, q, pageSize);
        Visited(r, q, page, pageSize);
      }
      ranges := ranges + [r];
    }

    /** `i` is the live range that is given back. */
    method UnlockRange(p: nat, size: nat, ghost i: nat)
      requires Valid() && Below(Range(p, size)) && (size > 0 ==> i < |ranges| && ranges[i] == Range(p, size))
      modifies this
      ensures Valid() && ranges == if size == 0 then old(ranges) else old(ranges)[..i] + old(ranges)[i + 1..]
    {
      if size == 0 {
        return;
      }
      hide Count;
      hide Seen;
      hide Live;
      ghost var r, was := Range(p, size), histogram;
      var start_page, end_page := PageOf(p, pageSize), PageOf(p + size - 1, pageSize);
      PageIs(p, pageSize);
      PageIs(p + size - 1, pageSize);
      PagesInOrder(p, p + size - 1, pageSize);
      var page := start_page;
      NoneSeen(start_page, pageSize);
      while page <= end_page
        invariant page % pageSize == 0 && start_page <= page <= end_page + pageSize && InStep()
        invariant forall q: nat :: Count(histogram, q) == Count(was, q) - Seen(q, start_page, page, pageSize)
        invariant ranges == old(ranges)
        decreases end_page + pageSize - page
      {
        assert page + pageSize < ADDRESSES;
        StillLocked(ranges, i, page, start_page, pageSize);
        UnlockPage(page);
        forall q: nat
          ensures Count(histogram, q) == Count(was, q) - Seen(q, start_page, page + pageSize, pageSize)
        {
          SeenNext(q, start_page, page, pageSize);
        }
        NextPage(page, pageSize);
        page := page + pageSize;
      }
      forall q: nat
        ensures Count(histogram, q) == Live(ranges[..i] + ranges[i + 1..], q, pageSize)
      {
        LiveWithout(ranges, i, q, pageSize);
        Visited(r, q, page, pageSize);
      }
      ranges := ranges[..i] + ranges[i + 1..];
    }
  }

  lemma NoneSeen(first: nat, pageSize: nat)
    requires pageSize > 0
    ensures forall q: nat :: Seen(q, first, first, pageSize) == 0
  {
  }

  lemma PagesInOrder(a: nat, b: nat, pageSize: nat)
    requires pageSize > 0 && a <= b
    ensures PageOf(a, pageSize) <= PageOf(b, pageSize)
  {
    QuotientMonotone(a, b, pageSize);
    MulMonotone(a / pageSize, b / pageSize, pageSize);
  }

  /** The assertion of `UnlockRange`: a page of a live range that has not been passed yet is locked. */
  lemma StillLocked(ranges: seq<Range>, i: nat, page: nat, first: nat, pageSize: nat)
    requires pageSize > 0 && i < |ranges| && ranges[i].size > 0 && page % pageSize == 0
    requires first == PageOf(ranges[i].base, pageSize) <= page <= PageOf(ranges[i].base + ranges[i].size - 1, pageSize)
    ensures Live(ranges, page, pageSize) > 0 && Seen(page, first, page, pageSize) == 0
  {
    TouchedPages(ranges[i], page, pageSize);
    LiveWithout(ranges, i, page, pageSize);
  }

  /** When the loop has passed the last page, it has been on exactly the pages of the range. */
  lemma Visited(r: Range, q: nat, page: nat, pageSize: nat)
    requires pageSize > 0 && r.size > 0 && page % pageSize == 0
    requires PageOf(r.base + r.size - 1, pageSize) < page <= PageOf(r.base + r.size - 1, pageSize) + pageSize
    ensures Seen(q, PageOf(r.base, pageSize), page, pageSize) == if Touches(r, q, pageSize) then 1 else 0
  {
    var last := PageOf(r.base + r.size - 1, pageSize);
    PageIs(r.base + r.size - 1, pageSize);
    if q % pageSize == 0 {
      TouchedPages(r, q, pageSize);
      if last < q < page { SamePage(last, q, pageSize); }
    }
  }
}
