/** The arithmetic of client/src/components/ExamHistory.tsx: the page count,
    the score badge, which view shows, and the pager buttons. */
module ExamHistory {
  import opened Optional
  import ResultsStore

  /** `Math.ceil(total / pageSize)`; the page size is a positive constant
      of the caller. */
  function TotalPages(total: nat, pageSize: nat): (n: nat)
    requires pageSize >= 1
    ensures n <= total
    ensures total > 0 ==> n >= 1
  {
    PagesAtMostTotal(total, pageSize);
    (total + pageSize - 1) / pageSize
  }

  /** No more pages than records, and at least one page for any record. */
  lemma PagesAtMostTotal(total: nat, k: nat)
    requires k >= 1
    ensures (total + k - 1) / k <= total
    ensures total > 0 ==> (total + k - 1) / k >= 1
  {
    var m := total + k - 1;
    var n := m / k;
    assert n * k <= m;
    if n > total {
      MulStep(total + 1, k);
      MulAtLeastOne(total, k);
      MulMono(total + 1, n, k);
    }
  }

  lemma MulAtLeastOne(n: nat, k: nat)
    requires k >= 1
    ensures n <= n * k
  {
  }

  /** The page count is the least number of pages of `pageSize` records
      that hold `total` records. */
  lemma TotalPagesIsCeiling(total: nat, pageSize: nat)
    requires pageSize >= 1
    ensures TotalPages(total, pageSize) * pageSize >= total
    ensures total == 0 ==> TotalPages(total, pageSize) == 0
    ensures total > 0 ==> (TotalPages(total, pageSize) - 1) * pageSize < total
  {
    var n := TotalPages(total, pageSize);
    var m := total + pageSize - 1;
    assert n * pageSize <= m < n * pageSize + pageSize;
    if total > 0 {
      assert (n - 1) * pageSize == n * pageSize - pageSize;
    }
  }

  datatype Badge = Default | Secondary | Destructive

  /** `getScoreBadgeVariant`. The stored percentage is `None` where
      JavaScript holds NaN, and NaN fails both comparisons. */
  function BadgeOf(percentage: Option<real>): (b: Badge)
    ensures b == Default <==> percentage.Some? && percentage.value >= 70.0
    ensures b == Secondary <==> percentage.Some? && 50.0 <= percentage.value < 70.0
    ensures b == Destructive <==> percentage.None? || percentage.value < 50.0
  {
    match percentage
    case None => Destructive
    case Some(p) => if p >= 70.0 then Default else if p >= 50.0 then Secondary else Destructive
  }

  function Rank(b: Badge): nat {
    match b
    case Destructive => 0
    case Secondary => 1
    case Default => 2
  }

  /** A higher score never gets a worse badge. */
  lemma BadgeMonotone(p: real, q: real)
    requires p <= q
    ensures Rank(BadgeOf(Some(p))) <= Rank(BadgeOf(Some(q)))
  {
  }

  datatype View = Loading | NoRecords | RecordTable

  /** Loading beats the empty message, which beats the table. */
  function ViewOf(isLoading: bool, recordCount: nat): (v: View)
    ensures v == Loading <==> isLoading
    ensures v == NoRecords <==> !isLoading && recordCount == 0
    ensures v == RecordTable <==> !isLoading && recordCount > 0
  {
    if isLoading then Loading else if recordCount == 0 then NoRecords else RecordTable
  }

  /** The pager is part of the table and shows only with more than one
      page. */
  function PagerShown(isLoading: bool, recordCount: nat, totalPages: nat): (shown: bool)
    ensures shown <==> !isLoading && recordCount > 0 && totalPages > 1
  {
    ViewOf(isLoading, recordCount) == RecordTable && totalPages > 1
  }

  /** The two pager buttons: the page each requests and whether it is
      disabled. */
  datatype Pager = Pager(prevPage: int, prevDisabled: bool, nextPage: int, nextDisabled: bool)

  function PagerOf(currentPage: int, totalPages: nat): (p: Pager)
    ensures p.prevPage == currentPage - 1 && p.nextPage == currentPage + 1
    ensures p.prevDisabled <==> currentPage == 1
    ensures p.nextDisabled <==> currentPage == totalPages
  {
    Pager(currentPage - 1, currentPage == 1, currentPage + 1, currentPage == totalPages)
  }

  /** From a page between 1 and the page count, an enabled button only
      requests a page between 1 and the page count. */
  lemma PagerStaysInRange(currentPage: int, totalPages: nat)
    requires 1 <= currentPage <= totalPages
    ensures var p := PagerOf(currentPage, totalPages);
            && (!p.prevDisabled ==> 1 <= p.prevPage <= totalPages)
            && (!p.nextDisabled ==> 1 <= p.nextPage <= totalPages)
  {
  }

  /** With the total the store reports, every page the pager can reach
      holds records, and the page after the last one is empty. */
  lemma PagesMatchStore(files: seq<ResultsStore.ResultFile>, page: int, pageSize: nat)
    requires pageSize >= 1
    ensures var r := ResultsStore.GetResults(Some(files), page, pageSize);
            var n := TotalPages(r.1, pageSize);
            && (1 <= page <= n ==> |r.0| > 0)
            && (page > n ==> r.0 == [])
  {
    var sorted := ResultsStore.SortByTime(ResultsStore.ReadAll(files));
    ResultsStore.GetResultsPage(files, page, pageSize);
    if 1 <= page <= TotalPages(|sorted|, pageSize) {
      ReachablePageNonEmpty(sorted, page, pageSize);
    } else if page > TotalPages(|sorted|, pageSize) {
      PageAfterLastEmpty(sorted, page, pageSize);
    }
  }

  lemma ReachablePageNonEmpty<T>(s: seq<T>, page: int, pageSize: nat)
    requires pageSize >= 1 && 1 <= page <= TotalPages(|s|, pageSize)
    ensures |ResultsStore.Page(s, page, pageSize)| > 0
  {
    var n := TotalPages(|s|, pageSize);
    TotalPagesIsCeiling(|s|, pageSize);
    PageStartBelow(page, n, pageSize, |s|);
    WindowNonEmpty(s, page, pageSize);
  }

  /** A page that starts inside the list holds at least one record. */
  lemma WindowNonEmpty<T>(s: seq<T>, page: int, pageSize: nat)
    requires page >= 1 && pageSize >= 1 && (page - 1) * pageSize < |s|
    ensures |ResultsStore.Page(s, page, pageSize)| > 0
  {
    MulStep(page, pageSize);
    ResultsStore.PageWindow(s, page, pageSize);
  }

  lemma PageAfterLastEmpty<T>(s: seq<T>, page: int, pageSize: nat)
    requires pageSize >= 1 && page > TotalPages(|s|, pageSize)
    ensures ResultsStore.Page(s, page, pageSize) == []
  {
    var n := TotalPages(|s|, pageSize);
    TotalPagesIsCeiling(|s|, pageSize);
    PageStartBeyond(page, n, pageSize);
    ResultsStore.PagePastEnd(s, page, pageSize);
  }

  lemma MulStep(a: int, b: int)
    ensures a * b == (a - 1) * b + b
  {
  }

  lemma MulMono(a: int, b: int, c: nat)
    requires a <= b
    ensures a * c <= b * c
  {
    MulStep2(a, b - a, c);
    ResultsStore.MulNonneg(b - a, c);
  }

  lemma MulStep2(a: int, d: int, c: int)
    ensures (a + d) * c == a * c + d * c
  {
  }

  lemma PageStartBelow(page: int, n: nat, pageSize: nat, total: nat)
    requires 1 <= page <= n && pageSize >= 1
    requires (n - 1) * pageSize < total
    ensures (page - 1) * pageSize < total
  {
    MulMono(page - 1, n - 1, pageSize);
  }

  lemma PageStartBeyond(page: int, n: nat, pageSize: nat)
    requires page > n && pageSize >= 1
    ensures (page - 1) * pageSize >= n * pageSize
  {
    MulMono(n, page - 1, pageSize);
  }
}
