/** Counted page locks (src/allocators.h).  The operating system forgets all
    locks of a page at its first unlock, so they are counted per page. */
module PageLocks {
  import opened Arith

  const W64: nat := 0x1_0000_0000_0000_0000

  datatype Range = Range(base: nat, size: nat)

  /** What the operating system is asked for. */
  datatype Call = Lock(page: nat) | Unlock(page: nat)

  // ---------------------------------------------------------------- pages of a range

  /** `address & page_mask`, for a page size that is a power of two. */
  function PageOf(pageSize: nat, address: nat): (page: nat)
    requires pageSize > 0
    ensures page <= address < page + pageSize && page % pageSize == 0
  {
    PageStart(pageSize, address);
    address - address % pageSize
  }

  lemma PageStart(pageSize: nat, address: nat)
    requires pageSize > 0
    ensures (address - address % pageSize) % pageSize == 0 && address % pageSize <= address
  {
    var q := address / pageSize;
    assert address - address % pageSize == q * pageSize + 0;
    DivModUnique(q * pageSize, pageSize, q, 0);
    QuotientFits(address, pageSize);
  }

  /** The page holds some byte of the range. */
  predicate Touches(pageSize: nat, r: Range, page: nat)
    requires pageSize > 0
  {
    page % pageSize == 0 && r.size > 0 && page < r.base + r.size && r.base < page + pageSize
  }

  /** Two page starts are the same or a page apart. */
  lemma PagesApart(pageSize: nat, p: nat, q: nat)
    requires pageSize > 0 && p % pageSize == 0 && q % pageSize == 0 && p < q
    ensures p + pageSize <= q
  {
    var a, b := p / pageSize, q / pageSize;
    assert p == a * pageSize && q == b * pageSize;
    assert (b - a) * pageSize == q - p;
    assert (a - b) * pageSize == p - q;
    if b > a {
      MulGap(b - a, pageSize);
    }
  }

  lemma NextPage(pageSize: nat, p: nat)
    requires pageSize > 0 && p % pageSize == 0
    ensures (p + pageSize) % pageSize == 0
  {
    ModSub(p + pageSize, pageSize);
  }

  /** The loop from the first to the last page meets the touched pages. */
  lemma TouchedPages(pageSize: nat, r: Range, page: nat)
    requires pageSize > 0 && r.size > 0
    ensures Touches(pageSize, r, page) <==>
      page % pageSize == 0 && PageOf(pageSize, r.base) <= page <= PageOf(pageSize, r.base + r.size - 1)
  {
    var first, last := PageOf(pageSize, r.base), PageOf(pageSize, r.base + r.size - 1);
    if page % pageSize == 0 {
      if page < first {
        PagesApart(pageSize, page, first);
      }
      if last < page {
        PagesApart(pageSize, last, page);
      }
    }
  }

  // ---------------------------------------------------------------- counting

  /** How many of the ranges touch the page. */
  function Count(pageSize: nat, live: seq<Range>, page: nat): nat
    requires pageSize > 0
  {
    if live == [] then 0
    else Count(pageSize, live[..|live| - 1], page) + (if Touches(pageSize, live[|live| - 1], page) then 1 else 0)
  }

  lemma CountMore(pageSize: nat, live: seq<Range>, r: Range, page: nat)
    requires pageSize > 0
    ensures Count(pageSize, live + [r], page) ==
      Count(pageSize, live, page) + (if Touches(pageSize, r, page) then 1 else 0)
  {
    assert (live + [r])[..|live|] == live;
  }

  function Without(live: seq<Range>, k: nat): seq<Range>
    requires k < |live|
  {
    live[..k] + live[k + 1..]
  }

  lemma {:induction false} CountLess(pageSize: nat, live: seq<Range>, k: nat, page: nat)
    requires pageSize > 0 && k < |live|
    ensures Count(pageSize, live, page) ==
      Count(pageSize, Without(live, k), page) + (if Touches(pageSize, live[k], page) then 1 else 0)
  {
    var n := |live| - 1;
    if k == n {
      assert Without(live, k) == live[..n];
    } else {
      CountLess(pageSize, live[..n], k, page);
      assert Without(live, k)[..n - 1] == Without(live[..n], k);
    }
  }

  lemma {:induction false} CountPositive(pageSize: nat, live: seq<Range>, page: nat)
    requires pageSize > 0
    ensures Count(pageSize, live, page) > 0 <==> exists k :: 0 <= k < |live| && Touches(pageSize, live[k], page)
  {
    if live != [] {
      var n := |live| - 1;
      CountPositive(pageSize, live[..n], page);
      if k :| 0 <= k < |live| && Touches(pageSize, live[k], page) {
        assert k < n ==> live[..n][k] == live[k];
      }
    }
  }

  // ---------------------------------------------------------------- the system's side

  /** The last call for the page was a lock. */
  predicate IsLocked(log: seq<Call>, page: nat) {
    log != [] && (if log[|log| - 1].page == page then log[|log| - 1].Lock? else IsLocked(log[..|log| - 1], page))
  }

  /** Only unlocked pages are locked, and only locked ones unlocked. */
  predicate Alternates(log: seq<Call>) {
    log == []
    || (Alternates(log[..|log| - 1])
        && (log[|log| - 1].Unlock? <==> IsLocked(log[..|log| - 1], log[|log| - 1].page)))
  }

  lemma CallMore(log: seq<Call>, c: Call)
    ensures forall page :: IsLocked(log + [c], page) <==> if page == c.page then c.Lock? else IsLocked(log, page)
    ensures Alternates(log + [c]) <==> Alternates(log) && (c.Unlock? <==> IsLocked(log, c.page))
  {
    assert (log + [c])[..|log|] == log;
  }

  // ---------------------------------------------------------------- the code

  class LockedPageManager {
    const pageSize: nat
    var histogram: map<nat, int>
    /** The calls made to the system. */
    var log: seq<Call>

    function CountAt(page: nat): int
      reads this
    {
      if page in histogram then histogram[page] else 0
    }

    /** The histogram counts the live ranges, the pages in it are the ones the
        system has locked, and the calls to it alternate. */
    ghost predicate Valid(live: seq<Range>)
      reads this
    {
      && pageSize > 0
      && (forall page: nat :: CountAt(page) == Count(pageSize, live, page))
      && Agrees()
    }

    ghost predicate Agrees()
      reads this
    {
      && (forall page :: page in histogram ==> histogram[page] > 0)
      && (forall page :: page in histogram <==> IsLocked(log, page))
      && Alternates(log)
    }

    constructor (pageSize: nat)
      requires pageSize > 0
      ensures this.pageSize == pageSize && Valid([])
    {
      this.pageSize := pageSize;
      histogram, log := map[], [];
    }

    /** One more lock of a page. */
    method Raise(page: nat)
      requires Agrees()
      modifies this
      ensures Agrees()
      ensures forall q: nat :: CountAt(q) == old(CountAt(q)) + (if q == page then 1 else 0)
    {
      if page !in histogram {
        CallMore(log, Lock(page));
        log := log + [Lock(page)];
        histogram := histogram[page := 1];
      } else {
        histogram := histogram[page := histogram[page] + 1];
      }
    }

    /** One lock of a page less. */
    method Lower(page: nat)
      requires Agrees() && page in histogram
      modifies this
      ensures Agrees()
      ensures forall q: nat :: CountAt(q) == old(CountAt(q)) - (if q == page then 1 else 0)
    {
      histogram := histogram[page := histogram[page] - 1];
      if histogram[page] == 0 {
        CallMore(log, Unlock(page));
        log := log + [Unlock(page)];
        histogram := histogram - {page};
      }
    }

    method LockRange(p: nat, size: nat, ghost live: seq<Range>)
      requires Valid(live) && p + size + pageSize <= W64
      modifies this
      ensures Valid(live + [Range(p, size)])
    {
      hide Touches, Agrees, Count, PageOf, CountAt, Met;
      ghost var r := Range(p, size);
      MoreLive(pageSize, live, r);
      NothingTouched(pageSize, r);
      if size == 0 {
        return;
      }
      var start, end := FirstAndLast(p, size);
      Starts(pageSize, r);
      var page := start;
      while page <= end
        invariant start <= page <= end + pageSize && page % pageSize == 0
        invariant Agrees()
        invariant forall q: nat :: CountAt(q) == Count(pageSize, live, q) + Met(pageSize, r, page, q)
        decreases end + pageSize - page
      {
        MeetsNext(pageSize, r, page);
        Raise(page);
        page := (page + pageSize) % W64;
      }
      MetAll(pageSize, r, page);
    }

    method UnlockRange(p: nat, size: nat, ghost live: seq<Range>, ghost k: nat)
      requires Valid(live) && k < |live| && live[k] == Range(p, size) && p + size + pageSize <= W64
      modifies this
      ensures Valid(Without(live, k))
    {
      hide Touches, Agrees, Count, PageOf, CountAt, Met;
      ghost var r := Range(p, size);
      LessLive(pageSize, live, k);
      NothingTouched(pageSize, r);
      if size == 0 {
        return;
      }
      var start, end := FirstAndLast(p, size);
      Starts(pageSize, r);
      var page := start;
      while page <= end
        invariant start <= page <= end + pageSize && page % pageSize == 0
        invariant Agrees()
        invariant forall q: nat :: CountAt(q) == Count(pageSize, live, q) - Met(pageSize, r, page, q)
        decreases end + pageSize - page
      {
        MeetsNext(pageSize, r, page);
        assert CountAt(page) == Count(pageSize, live, page) - Met(pageSize, r, page, page) > 0;
        CountedIsKnown(page);
        Lower(page);
        page := (page + pageSize) % W64;
      }
      MetAll(pageSize, r, page);
    }

    method FirstAndLast(p: nat, size: nat) returns (start: nat, end: nat)
      requires pageSize > 0 && size > 0
      ensures start == PageOf(pageSize, p) && end == PageOf(pageSize, p + size - 1)
    {
      start, end := PageOf(pageSize, p), PageOf(pageSize, p + size - 1);
    }

    /** A page with a count is in the histogram: unlocking a live range cannot
        meet any other. */
    lemma CountedIsKnown(page: nat)
      requires CountAt(page) > 0
      ensures page in histogram
    {
    }

    /** The number of pages that the system has locked. */
    method GetLockedPageCount() returns (n: nat, ghost pages: set<nat>)
      requires Agrees()
      ensures n == |pages| && forall page :: page in pages <==> IsLocked(log, page)
    {
      n, pages := |histogram|, histogram.Keys;
    }

    /** A page is locked exactly while some live range touches it. */
    lemma LockedWhileTouched(live: seq<Range>, page: nat)
      requires Valid(live)
      ensures IsLocked(log, page) <==> exists k :: 0 <= k < |live| && Touches(pageSize, live[k], page)
    {
      CountPositive(pageSize, live, page);
      assert CountAt(page) == Count(pageSize, live, page);
    }
  }

  /** Whether the loop over the pages of a range, now at `page`, has met q. */
  function Met(pageSize: nat, r: Range, page: nat, q: nat): nat
    requires pageSize > 0
  {
    if Touches(pageSize, r, q) && q < page then 1 else 0
  }

  lemma NothingTouched(pageSize: nat, r: Range)
    requires pageSize > 0
    ensures r.size == 0 ==> forall q: nat :: !Touches(pageSize, r, q)
  {
  }

  lemma Starts(pageSize: nat, r: Range)
    requires pageSize > 0 && r.size > 0
    ensures var start := PageOf(pageSize, r.base);
      && start % pageSize == 0 && start <= PageOf(pageSize, r.base + r.size - 1)
      && forall q: nat :: Met(pageSize, r, start, q) == 0
  {
    var start := PageOf(pageSize, r.base);
    TouchedPages(pageSize, r, start);
    var end := PageOf(pageSize, r.base + r.size - 1);
    if end < start {
      PagesApart(pageSize, end, start);
    }
    forall q: nat ensures Met(pageSize, r, start, q) == 0 {
      TouchedPages(pageSize, r, q);
    }
  }

  lemma MeetsNext(pageSize: nat, r: Range, page: nat)
    requires pageSize > 0 && r.size > 0 && page % pageSize == 0
    requires PageOf(pageSize, r.base) <= page <= PageOf(pageSize, r.base + r.size - 1)
    ensures (page + pageSize) % pageSize == 0 && page <= r.base + r.size - 1
    ensures forall q: nat :: Met(pageSize, r, page + pageSize, q) ==
                             Met(pageSize, r, page, q) + (if q == page then 1 else 0)
    ensures forall live: seq<Range>, k ::
      0 <= k < |live| && live[k] == r ==> Count(pageSize, live, page) > 0
    ensures Met(pageSize, r, page, page) == 0
  {
    NextPage(pageSize, page);
    TouchedPages(pageSize, r, page);
    forall q: nat
      ensures Met(pageSize, r, page + pageSize, q) == Met(pageSize, r, page, q) + (if q == page then 1 else 0)
    {
      if q % pageSize == 0 && page < q {
        PagesApart(pageSize, page, q);
      }
    }
    forall live: seq<Range>, k | 0 <= k < |live| && live[k] == r ensures Count(pageSize, live, page) > 0 {
      CountPositive(pageSize, live, page);
    }
  }

  lemma MetAll(pageSize: nat, r: Range, page: nat)
    requires pageSize > 0 && r.size > 0 && page > PageOf(pageSize, r.base + r.size - 1)
    ensures forall q: nat :: Met(pageSize, r, page, q) == if Touches(pageSize, r, q) then 1 else 0
  {
    forall q: nat ensures Met(pageSize, r, page, q) == if Touches(pageSize, r, q) then 1 else 0 {
      TouchedPages(pageSize, r, q);
    }
  }

  lemma MoreLive(pageSize: nat, live: seq<Range>, r: Range)
    requires pageSize > 0
    ensures forall q: nat :: Count(pageSize, live + [r], q) ==
                             Count(pageSize, live, q) + (if Touches(pageSize, r, q) then 1 else 0)
  {
    forall q: nat
      ensures Count(pageSize, live + [r], q) ==
              Count(pageSize, live, q) + (if Touches(pageSize, r, q) then 1 else 0)
    {
      CountMore(pageSize, live, r, q);
    }
  }

  lemma LessLive(pageSize: nat, live: seq<Range>, k: nat)
    requires pageSize > 0 && k < |live|
    ensures forall q: nat :: Count(pageSize, live, q) ==
                             Count(pageSize, Without(live, k), q) + (if Touches(pageSize, live[k], q) then 1 else 0)
  {
    forall q: nat
      ensures Count(pageSize, live, q) ==
              Count(pageSize, Without(live, k), q) + (if Touches(pageSize, live[k], q) then 1 else 0)
    {
      CountLess(pageSize, live, k, q);
    }
  }
}
