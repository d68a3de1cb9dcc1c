/** `LockedPageManagerBase` of `src/allocators.h`: page locks that stack. Addresses are `size_t`, so
    sums are taken modulo `TOP`. The page size is a power of two, so masking an address is rounding
    it down to a multiple of the page size. */
module LockedPages {
  import opened Arithmetic

  const TOP: nat := 0x1_0000_0000_0000_0000

  predicate IsPowerOfTwo(n: nat) {
    n == 1 || (n > 1 && n % 2 == 0 && IsPowerOfTwo(n / 2))
  }

  datatype Range = Range(base: nat, size: nat)

  /** `address & page_mask`. */
  function PageOf(ps: nat, a: nat): (r: nat)
    requires ps > 0
  {
    a / ps * ps
  }

  function StartPage(ps: nat, r: Range): (v: nat)
    requires ps > 0
  {
    PageOf(ps, r.base)
  }

  function EndPage(ps: nat, r: Range): (v: nat)
    requires ps > 0 && r.size > 0
  {
    PageOf(ps, (r.base + r.size - 1) % TOP)
  }

  /** The loop variable after k turns, `page += page_size` in `size_t`. */
  function Iterate(ps: nat, start: nat, k: nat): (r: nat) {
    (start + k * ps) % TOP
  }

  /** The loop over the pages of the range ends: it does not reach the last page. */
  predicate Legal(ps: nat, r: Range)
    requires ps > 0
  {
    r.base < TOP && (r.size > 0 ==> EndPage(ps, r) + ps < TOP)
  }

  /** The pages the loop runs over. */
  predicate Locks(ps: nat, r: Range, p: nat)
    requires ps > 0
  {
    r.size > 0 && p % ps == 0 && StartPage(ps, r) <= p <= EndPage(ps, r)
  }

  /** The range has a byte in the page that starts at p. */
  predicate Touches(ps: nat, r: Range, p: nat)
    requires ps > 0
  {
    exists a :: r.base <= a < r.base + r.size && PageOf(ps, a % TOP) == p
  }

  /** How many of the ranges lock a page. */
  ghost function Count(ps: nat, live: seq<Range>, p: nat): (r: nat)
    requires ps > 0
  {
    if live == [] then 0
    else Count(ps, live[..|live| - 1], p) + if Locks(ps, live[|live| - 1], p) then 1 else 0
  }

  // ----- Pages -----

  lemma PageBounds(ps: nat, a: nat)
    requires ps > 0
    ensures PageOf(ps, a) <= a < PageOf(ps, a) + ps && PageOf(ps, a) % ps == 0
  {
    assert a == ps * (a / ps) + a % ps;
    assert a / ps * ps == ps * (a / ps);
    DivModUnique(PageOf(ps, a), ps, a / ps, 0);
  }

  lemma PageIs(ps: nat, a: nat, p: nat)
    requires ps > 0 && p % ps == 0 && p <= a < p + ps
    ensures PageOf(ps, a) == p
  {
    assert p == ps * (p / ps);
    DivModUnique(a, ps, p / ps, a - p);
    assert a / ps * ps == ps * (a / ps);
  }

  lemma PagesMonotone(ps: nat, a: nat, b: nat)
    requires ps > 0 && a <= b
    ensures PageOf(ps, a) <= PageOf(ps, b)
  {
    DivisionIsMonotone(a, b, ps);
    assert b / ps * ps == a / ps * ps + (b / ps - a / ps) * ps;
  }

  /** The pages locked for a range that does not wrap around are those it touches. */
  lemma TouchedPages(ps: nat, r: Range, p: nat)
    requires ps > 0 && r.base + r.size <= TOP
    ensures Touches(ps, r, p) <==> Locks(ps, r, p)
  {
    hide PageOf;
    if Touches(ps, r, p) {
      var a :| r.base <= a < r.base + r.size && PageOf(ps, a % TOP) == p;
      PageOfByte(ps, r, a);
    }
    if Locks(ps, r, p) {
      ByteOfPage(ps, r, p);
    }
  }

  lemma PageOfByte(ps: nat, r: Range, a: nat)
    requires ps > 0 && r.base <= a < r.base + r.size <= TOP
    ensures Locks(ps, r, PageOf(ps, a % TOP))
  {
    hide PageOf;
    var last := r.base + r.size - 1;
    assert a % TOP == a && last % TOP == last;
    PageBounds(ps, a);
    PagesMonotone(ps, r.base, a);
    PagesMonotone(ps, a, last);
  }

  lemma ByteOfPage(ps: nat, r: Range, p: nat)
    requires ps > 0 && r.base + r.size <= TOP && Locks(ps, r, p)
    ensures Touches(ps, r, p)
  {
    hide PageOf;
    var last := r.base + r.size - 1;
    assert last % TOP == last;
    PageBounds(ps, r.base);
    PageBounds(ps, last);
    var a := if p < r.base then r.base else p;
    if p < r.base {
      AlignedGap(ps, PageOf(ps, r.base), p);
    } else {
      PageIs(ps, p, p);
    }
    assert a % TOP == a;
    assert r.base <= a < r.base + r.size && PageOf(ps, a % TOP) == p;
  }

  /** Every page that a range touches is locked exactly if the range does not wrap around the
      address space. */
  lemma AllTouchedLockedIff(ps: nat, r: Range)
    requires 0 < ps < TOP && r.base < TOP && r.size < TOP
    ensures (forall p: nat | Touches(ps, r, p) :: Locks(ps, r, p)) <==> r.base + r.size <= TOP
  {
    if r.base + r.size <= TOP {
      forall p: nat | Touches(ps, r, p)
        ensures Locks(ps, r, p)
      {
        TouchedPages(ps, r, p);
      }
    } else {
      WrappedMisses(ps, r);
    }
  }

  /** Of a range that wraps around, page 0 or the page after it is not locked. */
  lemma WrappedMisses(ps: nat, r: Range)
    requires 0 < ps < TOP && r.base < TOP && r.size < TOP && r.base + r.size > TOP
    ensures exists p: nat :: Touches(ps, r, p) && !Locks(ps, r, p)
  {
    hide PageOf;
    var last := (r.base + r.size - 1) % TOP;
    assert last == r.base + r.size - 1 - TOP;
    PageBounds(ps, r.base);
    PageBounds(ps, last);
    if StartPage(ps, r) > 0 {
      PageIs(ps, 0, 0);
      assert PageOf(ps, TOP % TOP) == 0;
      assert Touches(ps, r, 0) && !Locks(ps, r, 0);
    } else {
      PageIs(ps, last, 0);
      DivModUnique(ps, ps, 1, 0);
      PageIs(ps, ps, ps);
      assert PageOf(ps, ps % TOP) == ps;
      assert Touches(ps, r, ps) && !Locks(ps, r, ps);
    }
  }

  /** Two page starts less than a page apart are equal. */
  lemma AlignedGap(ps: nat, p: nat, q: nat)
    requires ps > 0 && p % ps == 0 && q % ps == 0 && p <= q < p + ps
    ensures p == q
  {
    assert p == ps * (p / ps) && q == ps * (q / ps);
    DivModUnique(q, ps, p / ps, q - p);
  }

  // ----- When the loop ends -----

  lemma TimesTwo(n: nat)
    requires IsPowerOfTwo(n)
    ensures IsPowerOfTwo(2 * n)
  {
  }

  lemma Times256(n: nat)
    requires IsPowerOfTwo(n)
    ensures IsPowerOfTwo(256 * n)
  {
    hide IsPowerOfTwo;
    TimesTwo(n);
    TimesTwo(2 * n);
    TimesTwo(4 * n);
    TimesTwo(8 * n);
    TimesTwo(16 * n);
    TimesTwo(32 * n);
    TimesTwo(64 * n);
    TimesTwo(128 * n);
  }

  lemma OneIsPowerOfTwo()
    ensures IsPowerOfTwo(1)
  {
  }

  lemma TopIsPowerOfTwo()
    ensures IsPowerOfTwo(TOP)
  {
    hide IsPowerOfTwo;
    OneIsPowerOfTwo();
    Times256(1);
    Times256(0x100);
    Times256(0x1_0000);
    Times256(0x100_0000);
    Times256(0x1_0000_0000);
    Times256(0x100_0000_0000);
    Times256(0x1_0000_0000_0000);
    Times256(0x100_0000_0000_0000);
  }

  lemma {:induction false} PowersApart(m: nat, n: nat)
    requires IsPowerOfTwo(m) && IsPowerOfTwo(n) && m < n
    ensures 2 * m <= n
    decreases n
  {
    if m > 1 {
      PowersApart(m / 2, n / 2);
    }
  }

  lemma {:induction false} PowerDivides(m: nat, n: nat)
    requires IsPowerOfTwo(m) && IsPowerOfTwo(n) && m <= n
    ensures m > 0 && n % m == 0
    decreases n
  {
    if m == n {
      DivModUnique(n, m, 1, 0);
    } else {
      PowersApart(m, n);
      PowerDivides(m, n / 2);
      assert n / 2 == m * (n / 2 / m);
      DivModUnique(n, m, 2 * (n / 2 / m), 0);
    }
  }

  lemma TopIsAligned(ps: nat)
    requires IsPowerOfTwo(ps) && ps <= TOP
    ensures ps > 0 && TOP % ps == 0
  {
    TopIsPowerOfTwo();
    PowerDivides(ps, TOP);
  }

  lemma IterateIsAligned(ps: nat, start: nat, k: nat)
    requires IsPowerOfTwo(ps) && ps <= TOP && ps > 0 && start % ps == 0
    ensures Iterate(ps, start, k) % ps == 0
  {
    TopIsAligned(ps);
    var a, b := start / ps + k, TOP / ps;
    assert TOP == ps * b;
    assert start + k * ps == ps * a;
    ModOfMultiples(ps, a, b);
    DivModUnique(ps * (a % b), ps, a % b, 0);
  }

  lemma ModOfMultiples(ps: nat, a: nat, b: nat)
    requires ps > 0 && b > 0
    ensures ps * b > 0 && (ps * a) % (ps * b) == ps * (a % b)
  {
    var q, r := a / b, a % b;
    MultipleBelow(ps, r, b);
    assert ps * a == (ps * b) * q + ps * r by {
      assert a == b * q + r;
      assert ps * (b * q) == (ps * b) * q;
    }
    DivModUnique(ps * a, ps * b, q, ps * r);
  }

  lemma MultipleBelow(ps: nat, r: nat, b: nat)
    requires ps > 0 && r < b
    ensures ps * r < ps * b
  {
  }

  /** The loop over the pages of a range ends exactly when the range does not reach the last page:
      from there on `page += page_size` wraps to zero and the test never fails. */
  lemma LoopEndsIff(ps: nat, r: Range)
    requires IsPowerOfTwo(ps) && 0 < ps <= TOP && r.size > 0 && r.base < TOP
    ensures (exists k: nat :: Iterate(ps, StartPage(ps, r), k) > EndPage(ps, r)) <==> EndPage(ps, r) + ps < TOP
  {
    hide PageOf, Iterate;
    var start, end := StartPage(ps, r), EndPage(ps, r);
    RangePages(ps, r);
    if end < start {
      StartIsPast(ps, start, end);
    } else if end + ps < TOP {
      EndIsPassed(ps, start, end);
    } else {
      EndIsNotPassed(ps, start, end);
    }
  }

  lemma RangePages(ps: nat, r: Range)
    requires ps > 0 && r.size > 0 && r.base < TOP
    ensures StartPage(ps, r) % ps == 0 && EndPage(ps, r) % ps == 0
    ensures StartPage(ps, r) < TOP
  {
    hide PageOf;
    PageBounds(ps, r.base);
    PageBounds(ps, (r.base + r.size - 1) % TOP);
  }

  /** The loop over a range that wraps around to an earlier page has no turn. */
  lemma StartIsPast(ps: nat, start: nat, end: nat)
    requires ps > 0 && start % ps == 0 && end % ps == 0 && end < start < TOP
    ensures Iterate(ps, start, 0) > end && end + ps < TOP
  {
    if end + ps > start {
      AlignedGap(ps, end, start);
    }
  }

  lemma EndIsPassed(ps: nat, start: nat, end: nat)
    requires ps > 0 && start % ps == 0 && end % ps == 0 && start <= end && end + ps < TOP
    ensures exists k: nat :: Iterate(ps, start, k) > end
  {
    var k := (end - start) / ps + 1;
    StepsBetween(ps, start, end);
    assert Iterate(ps, start, k) == end + ps;
  }

  lemma EndIsNotPassed(ps: nat, start: nat, end: nat)
    requires IsPowerOfTwo(ps) && 0 < ps <= TOP && start % ps == 0 && end % ps == 0 && end + ps >= TOP
    ensures forall k: nat :: Iterate(ps, start, k) <= end
  {
    forall k: nat
      ensures Iterate(ps, start, k) <= end
    {
      IterateIsAligned(ps, start, k);
      LastPage(ps, Iterate(ps, start, k), end);
    }
  }

  lemma StepsBetween(ps: nat, start: nat, end: nat)
    requires ps > 0 && start % ps == 0 && end % ps == 0 && start <= end
    ensures start + ((end - start) / ps + 1) * ps == end + ps
  {
    assert start == ps * (start / ps) && end == ps * (end / ps);
    DivModUnique(end - start, ps, end / ps - start / ps, 0);
  }

  /** There is no page start between the last page and the end of the address space. */
  lemma LastPage(ps: nat, p: nat, end: nat)
    requires ps > 0 && p % ps == 0 && end % ps == 0 && p < TOP && end + ps >= TOP
    ensures p <= end
  {
    if end < p {
      AlignedGap(ps, end, p);
    }
  }

  // ----- The manager -----

  ghost predicate Histogram(ps: nat, live: seq<Range>, h: map<nat, nat>)
    requires ps > 0
  {
    forall p: nat :: (p in h <==> Count(ps, live, p) > 0) && (p in h ==> h[p] == Count(ps, live, p))
  }

  /** The histogram is determined by the live ranges. */
  lemma HistogramIsUnique(ps: nat, live: seq<Range>, h: map<nat, nat>, g: map<nat, nat>)
    requires ps > 0 && Histogram(ps, live, h) && Histogram(ps, live, g)
    ensures h == g
  {
    assert h.Keys == g.Keys;
  }

  lemma CountConcat(ps: nat, a: seq<Range>, b: seq<Range>, p: nat)
    requires ps > 0
    ensures Count(ps, a + b, p) == Count(ps, a, p) + Count(ps, b, p)
    decreases |b|
  {
    if b == [] {
      assert a + b == a;
    } else {
      var init := b[..|b| - 1];
      CountConcat(ps, a, init, p);
      assert (a + b)[..|a + b| - 1] == a + init;
    }
  }

  function Without(s: seq<Range>, i: nat): (r: seq<Range>)
    requires i < |s|
  {
    s[..i] + s[i + 1..]
  }

  lemma CountWithout(ps: nat, s: seq<Range>, i: nat, p: nat)
    requires ps > 0 && i < |s|
    ensures Count(ps, s, p) == Count(ps, Without(s, i), p) + if Locks(ps, s[i], p) then 1 else 0
  {
    hide Locks;
    assert s == s[..i] + [s[i]] + s[i + 1..];
    CountConcat(ps, s[..i] + [s[i]], s[i + 1..], p);
    CountConcat(ps, s[..i], [s[i]], p);
    CountConcat(ps, s[..i], s[i + 1..], p);
    assert [s[i]][..0] == [];
    assert Count(ps, [], p) == 0;
  }

  /** Unlocking a range restores the histogram from before its lock, whatever was locked in between:
      the ranges `before` and `after` alone have the same histogram. */
  lemma UnlockRestores(ps: nat, before: seq<Range>, r: Range, after: seq<Range>, h: map<nat, nat>, g: map<nat, nat>)
    requires ps > 0 && Histogram(ps, Without(before + [r] + after, |before|), h) && Histogram(ps, before + after, g)
    ensures h == g
  {
    assert Without(before + [r] + after, |before|) == before + after;
    HistogramIsUnique(ps, before + after, h, g);
  }

  /** Histogram entries up to (not including) page `next` of a range already count it. */
  ghost predicate Partly(ps: nat, live: seq<Range>, r: Range, next: nat, h: map<nat, nat>)
    requires ps > 0
  {
    forall p: nat :: var n := Count(ps, live, p) + if Locks(ps, r, p) && p < next then 1 else 0;
      (p in h <==> n > 0) && (p in h ==> h[p] == n)
  }

  class LockedPageManager {
    const pageSize: nat
    var histogram: map<nat, nat>
    /** The pages that the operating system holds locked. */
    var osLocked: set<nat>
    ghost var live: seq<Range>

    ghost predicate Valid()
      reads this
    {
      && 0 < pageSize < TOP && IsPowerOfTwo(pageSize)
      && Histogram(pageSize, live, histogram) && osLocked == histogram.Keys
      && forall r | r in live :: Legal(pageSize, r)
    }

    constructor (pageSize: nat)
      requires 0 < pageSize < TOP && IsPowerOfTwo(pageSize)
      ensures Valid() && live == [] && this.pageSize == pageSize
    {
      this.pageSize := pageSize;
      histogram := map[];
      osLocked := {};
      live := [];
    }

    /** `LockRange`. */
    method LockRange(base: nat, size: nat)
      requires Valid() && Legal(pageSize, Range(base, size))
      modifies this
      ensures Valid() && live == old(live) + [Range(base, size)]
    {
      hide Locks, Count, PageOf, Legal;
      ghost var r := Range(base, size);
      LockedAdds(pageSize, live, r);
      if size == 0 {
        live := live + [r];
        return;
      }
      LegalEnds(pageSize, r);
      var start, end := StartPage(pageSize, Range(base, size)), EndPage(pageSize, Range(base, size));
      var page := start;
      NothingBefore(pageSize, live, r, histogram);
      while page <= end
        invariant 0 < pageSize && page % pageSize == 0 && start <= page
        invariant Partly(pageSize, live, r, page, histogram) && osLocked == histogram.Keys
        invariant live == old(live)
        decreases end + pageSize - page
      {
        AddPage(pageSize, live, r, page, histogram);
        if page !in histogram {
          osLocked := osLocked + {page};
          histogram := histogram[page := 1];
        } else {
          histogram := histogram[page := histogram[page] + 1];
        }
        page := (page + pageSize) % TOP;
      }
      AllPages(pageSize, live, r, page, histogram);
      live := live + [r];
    }

    /** `UnlockRange`, for a range that is locked. */
    method UnlockRange(base: nat, size: nat, ghost i: nat)
      requires Valid() && i < |live| && live[i] == Range(base, size)
      modifies this
      ensures Valid() && live == Without(old(live), i)
    {
      hide Locks, Count, PageOf, Legal, Remaining, Histogram, IsPowerOfTwo, StartPage, EndPage;
      ghost var r, rest := live[i], Without(live, i);
      UnlockedRemoves(pageSize, live, i);
      if size == 0 {
        EmptyLeaves(pageSize, live, i, histogram);
        live := rest;
        return;
      }
      LegalEnds(pageSize, r);
      var start, end := StartPage(pageSize, Range(base, size)), EndPage(pageSize, Range(base, size));
      var page := start;
      AllBefore(pageSize, live, i, histogram);
      while page <= end
        invariant 0 < pageSize && page % pageSize == 0 && start <= page
        invariant Remaining(pageSize, rest, r, page, histogram) && osLocked == histogram.Keys
        invariant live == old(live)
        decreases end + pageSize - page
      {
        RemovePage(pageSize, rest, r, page, histogram);
        if histogram[page] == 1 {
          osLocked := osLocked - {page};
          histogram := histogram - {page};
        } else {
          histogram := histogram[page := histogram[page] - 1];
        }
        page := (page + pageSize) % TOP;
      }
      NoneLeft(pageSize, rest, r, page, histogram);
      live := rest;
    }
  }

  /** Histogram entries from page `next` of a range on still count it. */
  ghost predicate Remaining(ps: nat, rest: seq<Range>, r: Range, next: nat, h: map<nat, nat>)
    requires ps > 0
  {
    forall p: nat :: var n := Count(ps, rest, p) + if Locks(ps, r, p) && p >= next then 1 else 0;
      (p in h <==> n > 0) && (p in h ==> h[p] == n)
  }

  // ----- The loops page by page -----

  lemma LegalEnds(ps: nat, r: Range)
    requires ps > 0 && Legal(ps, r) && r.size > 0
    ensures StartPage(ps, r) % ps == 0 && EndPage(ps, r) % ps == 0 && EndPage(ps, r) + ps < TOP
  {
    hide StartPage, EndPage;
    RangePages(ps, r);
  }

  /** Locking one more range. */
  lemma LockedAdds(ps: nat, live: seq<Range>, r: Range)
    requires ps > 0
    ensures forall p: nat :: Count(ps, live + [r], p) == Count(ps, live, p) + if Locks(ps, r, p) then 1 else 0
    ensures r.size == 0 ==> forall p: nat :: !Locks(ps, r, p)
  {
    hide Locks;
    assert (live + [r])[..|live|] == live;
    if r.size == 0 {
      EmptyLocksNothing(ps, r);
    }
  }

  lemma EmptyLocksNothing(ps: nat, r: Range)
    requires ps > 0 && r.size == 0
    ensures forall p: nat :: !Locks(ps, r, p)
  {
  }

  /** No page below the start is touched. */
  lemma NothingBefore(ps: nat, live: seq<Range>, r: Range, h: map<nat, nat>)
    requires ps > 0 && Histogram(ps, live, h) && r.size > 0
    ensures Partly(ps, live, r, StartPage(ps, r), h)
  {
    hide Count, StartPage, EndPage;
    forall p: nat | p < StartPage(ps, r)
      ensures !Locks(ps, r, p)
    {
    }
  }

  /** The next page of the range is counted; between two pages there is none. */
  lemma NextPage(ps: nat, r: Range, page: nat, p: nat)
    requires ps > 0 && r.size > 0
    requires page % ps == 0 && StartPage(ps, r) <= page <= EndPage(ps, r)
    ensures Locks(ps, r, page)
    ensures Locks(ps, r, p) && p < page + ps <==> Locks(ps, r, p) && (p < page || p == page)
    ensures (page + ps) % ps == 0
  {
    hide StartPage, EndPage;
    if page <= p < page + ps && p % ps == 0 {
      AlignedGap(ps, page, p);
    }
    assert page == ps * (page / ps);
    DivModUnique(page + ps, ps, page / ps + 1, 0);
  }

  lemma AddPage(ps: nat, live: seq<Range>, r: Range, page: nat, h: map<nat, nat>)
    requires ps > 0 && r.size > 0
    requires page % ps == 0 && StartPage(ps, r) <= page <= EndPage(ps, r)
    requires EndPage(ps, r) + ps < TOP && Partly(ps, live, r, page, h)
    ensures Partly(ps, live, r, page + ps, h[page := if page in h then h[page] + 1 else 1])
    ensures (page + ps) % ps == 0 && (page + ps) % TOP == page + ps
  {
    hide Locks, Count, PageOf;
    var g := h[page := if page in h then h[page] + 1 else 1];
    forall p: nat
      ensures var n := Count(ps, live, p) + if Locks(ps, r, p) && p < page + ps then 1 else 0;
        (p in g <==> n > 0) && (p in g ==> g[p] == n)
    {
      NextPage(ps, r, page, p);
    }
    NextPage(ps, r, page, page);
  }

  lemma AllPages(ps: nat, live: seq<Range>, r: Range, page: nat, h: map<nat, nat>)
    requires ps > 0 && r.size > 0
    requires page > EndPage(ps, r) && Partly(ps, live, r, page, h)
    ensures Histogram(ps, live + [r], h)
  {
    hide Count, StartPage, EndPage;
    LockedAdds(ps, live, r);
    forall p: nat
      ensures (p in h <==> Count(ps, live + [r], p) > 0) && (p in h ==> h[p] == Count(ps, live + [r], p))
    {
    }
  }

  /** Unlocking a range. */
  lemma UnlockedRemoves(ps: nat, live: seq<Range>, i: nat)
    requires ps > 0 && i < |live|
    ensures forall p: nat :: Count(ps, live, p) == Count(ps, Without(live, i), p) + if Locks(ps, live[i], p) then 1 else 0
    ensures live[i].size == 0 ==> forall p: nat :: !Locks(ps, live[i], p)
    ensures forall r | r in Without(live, i) :: r in live
  {
    hide Locks;
    forall p: nat
      ensures Count(ps, live, p) == Count(ps, Without(live, i), p) + if Locks(ps, live[i], p) then 1 else 0
    {
      CountWithout(ps, live, i, p);
    }
    if live[i].size == 0 {
      EmptyLocksNothing(ps, live[i]);
    }
  }

  lemma EmptyLeaves(ps: nat, live: seq<Range>, i: nat, h: map<nat, nat>)
    requires ps > 0 && i < |live| && live[i].size == 0 && Histogram(ps, live, h)
    ensures Histogram(ps, Without(live, i), h)
  {
    hide Locks, Count;
    UnlockedRemoves(ps, live, i);
  }

  lemma AllBefore(ps: nat, live: seq<Range>, i: nat, h: map<nat, nat>)
    requires ps > 0 && i < |live| && Histogram(ps, live, h)
    requires live[i].size > 0
    ensures Remaining(ps, Without(live, i), live[i], StartPage(ps, live[i]), h)
  {
    hide Count, StartPage, EndPage;
    UnlockedRemoves(ps, live, i);
    forall p: nat | Locks(ps, live[i], p)
      ensures p >= StartPage(ps, live[i])
    {
    }
  }

  lemma RemovePage(ps: nat, rest: seq<Range>, r: Range, page: nat, h: map<nat, nat>)
    requires ps > 0 && r.size > 0
    requires page % ps == 0 && StartPage(ps, r) <= page <= EndPage(ps, r)
    requires EndPage(ps, r) + ps < TOP && Remaining(ps, rest, r, page, h)
    ensures page in h && h[page] >= 1
    ensures Remaining(ps, rest, r, page + ps, Decremented(h, page))
    ensures (page + ps) % ps == 0 && (page + ps) % TOP == page + ps
  {
    hide Locks, Count, PageOf;
    NextPage(ps, r, page, page);
    forall p: nat
      ensures Locks(ps, r, p) && p >= page + ps <==> Locks(ps, r, p) && p >= page && p != page
    {
      NextPage(ps, r, page, p);
    }
  }

  /** One fewer on a page; at zero the entry is erased. */
  function Decremented(h: map<nat, nat>, page: nat): (r: map<nat, nat>)
    requires page in h && h[page] >= 1
  {
    if h[page] == 1 then h - {page} else h[page := h[page] - 1]
  }

  lemma NoneLeft(ps: nat, rest: seq<Range>, r: Range, page: nat, h: map<nat, nat>)
    requires ps > 0 && r.size > 0
    requires page > EndPage(ps, r) && Remaining(ps, rest, r, page, h)
    ensures Histogram(ps, rest, h)
  {
    hide Count, StartPage, EndPage;
    forall p: nat
      ensures (p in h <==> Count(ps, rest, p) > 0) && (p in h ==> h[p] == Count(ps, rest, p))
    {
    }
  }
}
