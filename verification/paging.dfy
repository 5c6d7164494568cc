/** Comment pagination (js/controller.js, `updateCommentsDisplay`,
    `updateCommentsCounter`, `updateCommentNavigation`): fixed pages of ten,
    a "start-end of total" counter and the enablement of the two page
    buttons. */
module Paging {
  import opened Text

  /** Comments per page. */
  const PageSize: nat := 10

  function Min(a: int, b: int): int
  {
    if a <= b then a else b
  }

  /** Position of the first comment of a page. */
  function PageStart(page: nat): nat
  {
    page * PageSize
  }

  /** `Array.prototype.slice(start, end)` with non-negative bounds: both
      bounds are clamped to the length, and an empty range gives nothing. */
  function Slice<T>(s: seq<T>, start: nat, end: nat): (r: seq<T>)
    ensures |r| <= |s|
    ensures start <= end ==> |r| <= end - start
    ensures end <= start ==> r == []
    ensures start < end && start < |s| ==> |r| == Min(end, |s|) - start
    ensures forall i :: 0 <= i < |r| ==> start + i < |s| && r[i] == s[start + i]
  {
    var hi := Min(end, |s|);
    if start < hi then s[start..hi] else []
  }

  /** The comments a page shows. */
  function PageOf<T>(s: seq<T>, page: nat): (r: seq<T>)
    ensures |r| <= PageSize
    ensures forall i :: 0 <= i < |r| ==> PageStart(page) + i < |s| && r[i] == s[PageStart(page) + i]
  {
    Slice(s, PageStart(page), PageStart(page) + PageSize)
  }

  /** `Math.ceil(total / 10)`: the fewest pages that hold `total` comments. */
  function PageCount(total: nat): (n: nat)
    ensures n * PageSize >= total
    ensures n > 0 ==> (n - 1) * PageSize < total
  {
    (total + PageSize - 1) / PageSize
  }

  /** Index of the last page; -1 when there are no comments. */
  function MaxPage(total: nat): int
  {
    PageCount(total) - 1
  }

  /** Whether the "previous page" button is disabled. */
  predicate PrevDisabled(page: nat)
  {
    page == 0
  }

  /** Whether the "next page" button is disabled. */
  predicate NextDisabled(page: nat, total: nat)
  {
    page >= MaxPage(total)
  }

  /** What the comments counter says, before it is written out. */
  datatype Counter = NothingToCount | Range(first: nat, last: nat, total: nat)

  /** `updateCommentsCounter(total, start, end)`: nothing to count, or the
      1-based position of the first comment of the page, the position of
      the last one (`end` cut down to the total) and the total. */
  function PageCounter(total: nat, start: nat, end: nat): (c: Counter)
    ensures c.NothingToCount? <==> total == 0
  {
    if total == 0 then NothingToCount else Range(start + 1, Min(end, total), total)
  }

  /** The counter's text: "No comments", or "first-last of total". */
  function CounterText(c: Counter): (r: string)
    ensures c.NothingToCount? ==> r == "No comments"
    ensures c.Range? ==> |r| > 0 && IsDigit(r[0])
  {
    match c
    case NothingToCount => "No comments"
    case Range(first, last, total) =>
      var r := Decimal(first) + "-" + Decimal(last) + " of " + Decimal(total);
      assert r[0] == Decimal(first)[0];
      r
  }

  /** The counter reads "No comments" exactly when there is nothing to
      count. */
  lemma CounterTextNoComments(c: Counter)
    ensures CounterText(c) == "No comments" <==> c.NothingToCount?
  {
    if c.Range? {
      assert !IsDigit("No comments"[0]);
    }
  }

  /** The text of a range, grouped from the right. */
  lemma RangeText(first: nat, last: nat, total: nat)
    ensures CounterText(Range(first, last, total)) == Decimal(first) + ("-" + (Decimal(last) + (" of " + Decimal(total))))
  {
  }

  /** The counter's text determines the counter: the three numbers can be
      read back from "first-last of total". */
  lemma CounterTextInjective(a: Counter, b: Counter)
    ensures CounterText(a) == CounterText(b) <==> a == b
  {
    if CounterText(a) == CounterText(b) {
      CounterTextNoComments(a);
      CounterTextNoComments(b);
      if a.Range? && b.Range? {
        RangeText(a.first, a.last, a.total);
        RangeText(b.first, b.last, b.total);
        var tailA, tailB := " of " + Decimal(a.total), " of " + Decimal(b.total);
        var midA, midB := Decimal(a.last) + tailA, Decimal(b.last) + tailB;
        NumeralPrefix(Decimal(a.first), "-" + midA, Decimal(b.first), "-" + midB);
        assert midA == ("-" + midA)[1..];
        assert midB == ("-" + midB)[1..];
        NumeralPrefix(Decimal(a.last), tailA, Decimal(b.last), tailB);
        assert Decimal(a.total) == tailA[4..];
        assert Decimal(b.total) == tailB[4..];
        DecimalInjective(a.first, b.first);
        DecimalInjective(a.last, b.last);
        DecimalInjective(a.total, b.total);
      }
    }
  }

  /** The text `updateCommentsCounter` writes reads "No comments" exactly
      when there are no comments. */
  lemma CounterReadsNoComments(total: nat, start: nat, end: nat)
    ensures CounterText(PageCounter(total, start, end)) == "No comments" <==> total == 0
  {
    CounterTextNoComments(PageCounter(total, start, end));
  }

  /** "Next" is disabled exactly when no comment lies beyond the current
      page; with no comments it is always disabled. */
  lemma NextDisabledIff(page: nat, total: nat)
    ensures NextDisabled(page, total) <==> total <= PageStart(page) + PageSize
  {
  }

  /** A page shows something exactly when it is one of the `PageCount`
      pages. */
  lemma PageNonEmptyIff<T>(s: seq<T>, page: nat)
    ensures |PageOf(s, page)| > 0 <==> page < PageCount(|s|)
  {
  }

  /** The last page holds what the full pages before it leave over. */
  lemma LastPageSize<T>(s: seq<T>)
    requires |s| > 0
    ensures |PageOf(s, PageCount(|s|) - 1)| == |s| - PageSize * (PageCount(|s|) - 1)
  {
  }

  /** The pages from `page` on, read one after the other. */
  function PagesFrom<T>(s: seq<T>, page: nat): seq<T>
    decreases |s| - Min(PageStart(page), |s|)
  {
    if PageStart(page) < |s| then PageOf(s, page) + PagesFrom(s, page + 1) else []
  }

  /** Read one after the other, the pages from `page` on are exactly the
      comments from that page's start on. */
  lemma {:induction false} PagesFromCover<T>(s: seq<T>, page: nat)
    ensures PagesFrom(s, page) == if PageStart(page) < |s| then s[PageStart(page)..] else []
    decreases |s| - Min(PageStart(page), |s|)
  {
    if PageStart(page) < |s| {
      var start := PageStart(page);
      assert PageStart(page + 1) == start + PageSize;
      PagesFromCover(s, page + 1);
      if start + PageSize < |s| {
        assert PageOf(s, page) == s[start..start + PageSize];
        assert s[start..] == s[start..start + PageSize] + s[start + PageSize..];
      } else {
        assert PageOf(s, page) == s[start..];
      }
    }
  }

  /** Together the pages show every comment exactly once, in order. */
  lemma PagesCover<T>(s: seq<T>)
    ensures PagesFrom(s, 0) == s
  {
    PagesFromCover(s, 0);
  }

  /** On one of the `PageCount` pages the counter names the 1-based
      positions in the whole list of the first and last comment the page
      shows. */
  lemma CounterDescribesPage<T>(s: seq<T>, page: nat)
    requires page < PageCount(|s|)
    ensures |PageOf(s, page)| > 0
    ensures PageOf(s, page) == s[PageStart(page)..PageStart(page) + |PageOf(s, page)|]
    ensures PageCounter(|s|, PageStart(page), PageStart(page) + PageSize)
         == Range(PageStart(page) + 1, PageStart(page) + |PageOf(s, page)|, |s|)
  {
  }

  /** Past the last page nothing is shown and the counter's first position
      exceeds its last. */
  lemma CounterPastEnd<T>(s: seq<T>, page: nat)
    requires 0 < |s| <= PageStart(page)
    ensures PageOf(s, page) == []
    ensures PageCounter(|s|, PageStart(page), PageStart(page) + PageSize) == Range(PageStart(page) + 1, |s|, |s|)
    ensures PageStart(page) + 1 > |s|
  {
  }

  /** Twelve comments: the first page reads "1-10 of 12" with "next"
      enabled, the second "11-12 of 12" with "next" disabled. */
  lemma TwelveComments()
    ensures CounterText(PageCounter(12, PageStart(0), PageStart(0) + PageSize)) == "1-10 of 12"
    ensures !NextDisabled(0, 12) && PrevDisabled(0)
    ensures CounterText(PageCounter(12, PageStart(1), PageStart(1) + PageSize)) == "11-12 of 12"
    ensures NextDisabled(1, 12) && !PrevDisabled(1)
  {
    assert PageCounter(12, PageStart(0), PageStart(0) + PageSize) == Range(1, 10, 12);
    assert PageCounter(12, PageStart(1), PageStart(1) + PageSize) == Range(11, 12, 12);
    assert Decimal(12) == "12";
    assert CounterText(Range(1, 10, 12)) == "1-10 of 12" by {
      assert Decimal(1) == "1" && Decimal(10) == "10";
    }
    assert CounterText(Range(11, 12, 12)) == "11-12 of 12" by {
      assert Decimal(11) == "11";
    }
  }
}
