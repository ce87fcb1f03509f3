/** Paging through a filtered and totally ordered table. */
module Pagination {
  import opened Optional

  datatype Query = Query(page: Option<int>, limit: Option<int>)

  // Company list: absent, zero and negative values fall back to the defaults.
  function CompanyPage(q: Query): int {
    if q.page.Some? && q.page.value > 0 then q.page.value else 1
  }

  function CompanyLimit(q: Query): int {
    if q.limit.Some? && q.limit.value > 0 then q.limit.value else 10
  }

  // Approval list: only absent values and zero do.
  function ApprovalPage(q: Query): int {
    if q.page.Some? && q.page.value != 0 then q.page.value else 1
  }

  function ApprovalLimit(q: Query): int {
    if q.limit.Some? && q.limit.value != 0 then q.limit.value else 20
  }

  function Skip(page: int, limit: int): int {
    (page - 1) * limit
  }

  function TotalPages(total: nat, limit: int): int
    requires limit > 0
  {
    (total + limit - 1) / limit
  }

  function Clip(i: int, total: nat): nat {
    if i < 0 then 0 else if i < total then i else total
  }

  // The rows the database returns for skip and take.
  function PageOf<T>(rows: seq<T>, page: int, limit: int): seq<T>
    requires limit > 0
  {
    var start := Clip(Skip(page, limit), |rows|);
    rows[start..Clip(start + limit, |rows|)]
  }

  function FirstPages<T>(rows: seq<T>, limit: int, n: nat): seq<T>
    requires limit > 0
  {
    if n == 0 then [] else FirstPages(rows, limit, n - 1) + PageOf(rows, n, limit)
  }

  lemma NextSkip(n: int, limit: int)
    ensures Skip(n + 1, limit) == Skip(n, limit) + limit
  {
  }

  lemma SkipMonotone(m: int, n: int, limit: int)
    requires m <= n && limit >= 0
    ensures Skip(m, limit) <= Skip(n, limit)
  {
  }

  lemma {:induction false} FirstPagesArePrefix<T>(rows: seq<T>, limit: int, n: nat)
    requires limit > 0
    ensures FirstPages(rows, limit, n) == rows[..Clip(Skip(n + 1, limit), |rows|)]
    decreases n
  {
    if n > 0 {
      FirstPagesArePrefix(rows, limit, n - 1);
      NextSkip(n, limit);
      SkipMonotone(1, n, limit);
      Appended(rows, Skip(n, limit), limit);
    }
  }

  lemma Appended<T>(rows: seq<T>, start: int, limit: int)
    requires start >= 0 && limit > 0
    ensures var from := Clip(start, |rows|);
            rows[..from] + rows[from..Clip(from + limit, |rows|)] == rows[..Clip(start + limit, |rows|)]
  {
  }

  // The pages before the last do not reach the end; the last one does.
  lemma TotalPagesReach(total: nat, limit: int)
    requires limit > 0
    ensures var n := TotalPages(total, limit);
            && n >= 0 && total <= Skip(n + 1, limit) && (total > 0 ==> n >= 1 && Skip(n, limit) < total)
            && (total == 0 ==> n == 0)
  {
  }

  /** Pages 1 to totalPages, one after the other, are the whole result in order. */
  lemma PagesMakeTheResult<T>(rows: seq<T>, limit: int)
    requires limit > 0
    ensures TotalPages(|rows|, limit) >= 0
    ensures FirstPages(rows, limit, TotalPages(|rows|, limit)) == rows
  {
    TotalPagesReach(|rows|, limit);
    FirstPagesArePrefix(rows, limit, TotalPages(|rows|, limit));
  }

  lemma OwnPage(i: nat, limit: int)
    requires limit > 0
    ensures i / limit >= 0 && Skip(i / limit + 1, limit) <= i < Skip(i / limit + 1, limit) + limit
  {
  }

  /** Each row is on exactly one page: the one its position falls on. */
  lemma RowIsOnOnePage<T>(rows: seq<T>, limit: int, i: nat, page: int)
    requires limit > 0 && i < |rows| && page >= 1
    ensures var own := i / limit + 1;
            && 1 <= own <= TotalPages(|rows|, limit)
            && (Skip(page, limit) <= i < Skip(page, limit) + limit <==> page == own)
            && 0 <= i - Skip(own, limit) < |PageOf(rows, own, limit)|
            && PageOf(rows, own, limit)[i - Skip(own, limit)] == rows[i]
  {
    var own := i / limit + 1;
    var n := TotalPages(|rows|, limit);
    OwnPage(i, limit);
    TotalPagesReach(|rows|, limit);
    NextSkip(n, limit);
    Apart(own, page, limit);
    Apart(page, own, limit);
    Apart(n, own, limit);
    SkipMonotone(1, own, limit);
  }

  lemma Apart(m: int, n: int, limit: int)
    requires limit > 0
    ensures m < n ==> Skip(m, limit) + limit <= Skip(n, limit)
  {
  }

  /** All pages before the last are full, the last holds at least one row, and later ones are empty. */
  lemma PageSizes<T>(rows: seq<T>, limit: int, page: int)
    requires limit > 0 && page >= 1
    ensures var n := TotalPages(|rows|, limit);
            && (page < n ==> |PageOf(rows, page, limit)| == limit)
            && (page == n ==> 1 <= |PageOf(rows, page, limit)| <= limit)
            && (page > n ==> PageOf(rows, page, limit) == [])
  {
    var n := TotalPages(|rows|, limit);
    TotalPagesReach(|rows|, limit);
    Apart(page, n, limit);
    Apart(n, page, limit);
    NextSkip(n, limit);
    SkipMonotone(1, page, limit);
  }

  /** The page and limit used are the ones sent, where those are acceptable, and the defaults otherwise; only what
      counts as acceptable differs between the two lists. */
  lemma SentOrDefault(q: Query, n: int)
    ensures q.page == Some(n) && n > 0 ==> CompanyPage(q) == ApprovalPage(q) == n
    ensures q.limit == Some(n) && n > 0 ==> CompanyLimit(q) == ApprovalLimit(q) == n
    ensures q.page == Some(n) && n < 0 ==> CompanyPage(q) == 1 && ApprovalPage(q) == n
    ensures q.limit == Some(n) && n < 0 ==> CompanyLimit(q) == 10 && ApprovalLimit(q) == n
    ensures q.page == None || q.page == Some(0) ==> CompanyPage(q) == ApprovalPage(q) == 1
    ensures q.limit == None || q.limit == Some(0) ==> CompanyLimit(q) == 10 && ApprovalLimit(q) == 20
  {
  }

  /** What paging promises: the pages put together are the result, each row is on its own page, and pages have the
      sizes they should have. */
  ghost predicate PagesWell<T>(rows: seq<T>, limit: int)
    requires limit > 0
  {
    var n := TotalPages(|rows|, limit);
    && n >= 0 && FirstPages(rows, limit, n) == rows
    && (forall i, page :: 0 <= i < |rows| && page >= 1 ==> (OnPage(i, page, limit) <==> page == i / limit + 1))
    && (forall page :: page >= 1 ==> PageHasItsSize(rows, page, limit))
  }

  predicate OnPage(i: int, page: int, limit: int) {
    Skip(page, limit) <= i < Skip(page, limit) + limit
  }

  predicate PageHasItsSize<T>(rows: seq<T>, page: int, limit: int)
    requires limit > 0
  {
    var n, size := TotalPages(|rows|, limit), |PageOf(rows, page, limit)|;
    if page < n then size == limit else if page == n then 1 <= size <= limit else size == 0
  }

  lemma PositiveLimitPagesWell<T>(rows: seq<T>, limit: int)
    requires limit > 0
    ensures PagesWell(rows, limit)
  {
    PagesMakeTheResult(rows, limit);
    forall i, page | 0 <= i < |rows| && page >= 1
      ensures OnPage(i, page, limit) <==> page == i / limit + 1
    {
      RowIsOnOnePage(rows, limit, i, page);
    }
    forall page | page >= 1
      ensures PageHasItsSize(rows, page, limit)
    {
      PageSizes(rows, limit, page);
    }
  }

  /** The company list pages well whatever page and limit are sent. */
  lemma CompanyListPagesWell<T>(rows: seq<T>, q: Query)
    ensures CompanyPage(q) >= 1 && CompanyLimit(q) >= 1 && PagesWell(rows, CompanyLimit(q))
  {
    PositiveLimitPagesWell(rows, CompanyLimit(q));
  }

  /** The approval list takes negative values as they are: it asks for a page and a number of rows from one up
      exactly when neither value sent is negative, and then it pages well. */
  lemma ApprovalListPagesExactlyWhen<T>(rows: seq<T>, q: Query)
    ensures ApprovalPage(q) >= 1 && ApprovalLimit(q) >= 1
            <==> (q.page.Some? ==> q.page.value >= 0) && (q.limit.Some? ==> q.limit.value >= 0)
    ensures ApprovalLimit(q) >= 1 ==> PagesWell(rows, ApprovalLimit(q))
  {
    if ApprovalLimit(q) >= 1 {
      PositiveLimitPagesWell(rows, ApprovalLimit(q));
    }
  }
}
