/** The pagination block that the four "my page" list endpoints compute from
    `skip`, `limit` and the unpaged `total_count`. The same three formulas are
    written out in each endpoint; here they are one function. */
module Pagination {

  /** Python's `a // b`: the floor of a / b, for a divisor of either sign.
      (Dafny's own `/` is Euclidean, which differs when b < 0.) */
  function FloorDiv(a: int, b: int): (q: int)
    requires b != 0
    ensures b > 0 ==> q * b <= a < q * b + b
    ensures b < 0 ==> q * b + b < a <= q * b
  {
    if b > 0 then a / b else (-a) / (-b)
  }

  /** The "pagination" dictionary of a list response. */
  datatype PageInfo = PageInfo(currentPage: int, totalPages: int, isLastPage: bool, totalCount: int)

  /** current_page = skip // limit + 1, total_pages = -(-total_count // limit),
      is_last_page = skip + limit >= total_count. A zero limit raises
      ZeroDivisionError in the source, so the caller must avoid it. */
  function Paginate(skip: int, limit: int, totalCount: int): (p: PageInfo)
    requires limit != 0
    ensures p.totalCount == totalCount
  {
    PageInfo(FloorDiv(skip, limit) + 1, -FloorDiv(-totalCount, limit), skip + limit >= totalCount, totalCount)
  }

  /** The current page is the 1-based page whose window holds `skip`. */
  lemma CurrentPageHoldsSkip(skip: int, limit: int, totalCount: int)
    requires skip >= 0 && limit > 0
    ensures var p := Paginate(skip, limit, totalCount);
      p.currentPage >= 1 && (p.currentPage - 1) * limit <= skip < p.currentPage * limit
  {
    var q := FloorDiv(skip, limit);
    assert q * limit <= skip < q * limit + limit;
    assert (q + 1) * limit == q * limit + limit;
  }

  /** total_pages is the ceiling of total_count / limit: the pages cover
      every item, the last page is not empty, and no items means no pages. */
  lemma {:induction false} TotalPagesIsCeiling(limit: int, totalCount: int)
    requires limit > 0 && totalCount >= 0
    ensures var t := Paginate(0, limit, totalCount).totalPages;
      t >= 0 && t * limit >= totalCount &&
      (totalCount > 0 ==> (t - 1) * limit < totalCount) &&
      (totalCount == 0 ==> t == 0)
  {
    var q := FloorDiv(-totalCount, limit);
    var t := -q;
    assert q * limit <= -totalCount < q * limit + limit;
    assert t * limit == -(q * limit);
    assert (t - 1) * limit == t * limit - limit;
  }

  /** total_pages does not depend on `skip`. */
  lemma TotalPagesIndependentOfSkip(skip: int, limit: int, totalCount: int)
    requires limit != 0
    ensures Paginate(skip, limit, totalCount).totalPages == Paginate(0, limit, totalCount).totalPages
  {
  }

  /** On a page-aligned window (skip = k * limit), is_last_page holds exactly
      when the current page is at or past the last page. */
  lemma AlignedLastPage(k: int, limit: int, totalCount: int)
    requires k >= 0 && limit > 0 && totalCount >= 0
    ensures var p := Paginate(k * limit, limit, totalCount);
      p.currentPage == k + 1 && (p.isLastPage <==> p.currentPage >= p.totalPages)
  {
    var p := Paginate(k * limit, limit, totalCount);
    assert FloorDiv(k * limit, limit) == k by { FloorDivExact(k, limit); }
    TotalPagesIsCeiling(limit, totalCount);
    TotalPagesIndependentOfSkip(k * limit, limit, totalCount);
    var t := p.totalPages;
    assert (k + 1) * limit == k * limit + limit;
    if k + 1 >= t {
      assert (k + 1) * limit >= t * limit by { MulMonotone(t, k + 1, limit); }
    } else {
      assert (k + 1) * limit <= (t - 1) * limit by { MulMonotone(k + 1, t - 1, limit); }
    }
  }

  /** For N > 0 items, the window that starts at limit * ((N - 1) // limit)
      is the last page: is_last_page holds and current_page == total_pages. */
  lemma FinalWindowIsLastPage(n: int, limit: int)
    requires n > 0 && limit > 0
    ensures var p := Paginate(limit * FloorDiv(n - 1, limit), limit, n);
      p.isLastPage && p.currentPage == p.totalPages
  {
    var k := FloorDiv(n - 1, limit);
    assert k * limit <= n - 1 < k * limit + limit;
    assert limit * k == k * limit;
    AlignedLastPage(k, limit, n);
    TotalPagesIsCeiling(limit, n);
    TotalPagesIndependentOfSkip(k * limit, limit, n);
    var t := Paginate(0, limit, n).totalPages;
    assert (k + 1) * limit == k * limit + limit;
  }

  lemma MulMonotone(a: int, b: int, c: int)
    requires a <= b && c >= 0
    ensures a * c <= b * c
  {
    assert b * c - a * c == (b - a) * c;
  }

  lemma FloorDivExact(k: int, limit: int)
    requires limit > 0
    ensures FloorDiv(k * limit, limit) == k
  {
    var q := FloorDiv(k * limit, limit);
    assert q * limit <= k * limit < q * limit + limit;
    if q < k {
      assert (q + 1) * limit <= k * limit by { MulMonotone(q + 1, k, limit); }
    }
    if q > k {
      assert (k + 1) * limit <= q * limit by { MulMonotone(k + 1, q, limit); }
    }
  }
}
