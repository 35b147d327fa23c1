/** Page arithmetic: where a page starts, and the metadata returned with a page. */
module Pagination {

  datatype Page = Page(limit: int, offset: int)

  datatype Meta = Meta(total: int, page: int, limit: int, totalPages: int)

  /** `getPagination(page = 1, limit = 10)`: the page size and how many rows precede the page. */
  function GetPagination(page: int := 1, limit: int := 10): (p: Page)
    ensures p.limit == limit
    ensures page == 1 ==> p.offset == 0
    ensures page >= 1 && limit >= 0 ==> p.offset >= 0
  {
    Page(limit, (page - 1) * limit)
  }

  /** `Math.ceil(total / limit)` for a positive limit: the least number of pages of `limit`
      rows that hold `total` rows. */
  function TotalPages(total: nat, limit: int): (n: nat)
    requires limit > 0
    ensures n * limit >= total
    ensures (n - 1) * limit < total
  {
    var n := (total + limit - 1) / limit;
    assert n * limit + (total + limit - 1) % limit == total + limit - 1;
    assert (n - 1) * limit == n * limit - limit;
    n
  }

  /** `getPaginationMeta(total, page, limit)`: echoes its inputs and adds the page count. */
  function GetPaginationMeta(total: nat, page: int, limit: int): (m: Meta)
    requires limit > 0
    ensures m.total == total && m.page == page && m.limit == limit
    ensures m.totalPages >= 0 && m.totalPages * limit >= total && (m.totalPages - 1) * limit < total
  {
    Meta(total, page, limit, TotalPages(total, limit))
  }

  /** Zero rows make zero pages. */
  lemma TotalPagesOfNothing(limit: int)
    requires limit > 0
    ensures TotalPages(0, limit) == 0
  {
  }

  /** A page count is exactly the ceiling: no other number of pages satisfies both bounds. */
  lemma TotalPagesIsCeiling(total: nat, limit: int, k: nat)
    requires limit > 0
    requires k * limit >= total && (k - 1) * limit < total
    ensures k == TotalPages(total, limit)
  {
    var n := TotalPages(total, limit);
    if k < n {
      MultiplyMonotone(k, n - 1, limit);
    } else if k > n {
      MultiplyMonotone(n, k - 1, limit);
    }
  }

  /** More rows never make fewer pages. */
  lemma TotalPagesMonotone(t1: nat, t2: nat, limit: int)
    requires limit > 0 && t1 <= t2
    ensures TotalPages(t1, limit) <= TotalPages(t2, limit)
  {
    var n1, n2 := TotalPages(t1, limit), TotalPages(t2, limit);
    if n1 > n2 {
      MultiplyMonotone(n2, n1 - 1, limit);
    }
  }

  /** Page `page + 1` starts `limit` rows after page `page`; with page 1 starting at row 0 this
      fixes every offset: page `p` starts at row `(p - 1) * limit`. */
  lemma PagesAdjacent(page: int, limit: int)
    ensures GetPagination(page + 1, limit).offset == GetPagination(page, limit).offset + limit
  {
    assert page * limit == (page - 1) * limit + limit;
  }

  /** Pages of `limit` rows tile the rows: row `i` (from 0) is row `i % limit` of page
      `i / limit + 1`. */
  lemma RowOnPage(i: nat, limit: int)
    requires limit > 0
    ensures 0 <= i % limit < limit
    ensures GetPagination(i / limit + 1, limit).offset >= 0
    ensures GetPagination(i / limit + 1, limit).offset + i % limit == i
  {
    var q := i / limit;
    assert q * limit + i % limit == i;
    MultiplyNonNegative(q, limit);
  }

  lemma MultiplyNonNegative(a: int, b: int)
    requires a >= 0 && b >= 0
    ensures a * b >= 0
  {
  }

  lemma MultiplyMonotone(a: int, b: int, c: int)
    requires a <= b && c >= 0
    ensures a * c <= b * c
  {
    assert b * c - a * c == (b - a) * c;
    MultiplyNonNegative(b - a, c);
  }
}
