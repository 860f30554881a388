/** Query-string pagination shared by the list endpoints: `parsePagination`
    normalises the page and page size and derives the row offset, `makeMeta`
    builds the `meta` block of a list response. */
module Pagination {
  import opened Common

  /** The four query fields, already through `Number(...)`; `None` is absent. */
  datatype Query = Query(currentPage: Option<Num>, page: Option<Num>,
                         itemsPerPage: Option<Num>, limit: Option<Num>)

  datatype Window = Window(page: int, limit: int, offset: int)

  datatype Meta = Meta(total: int, page: int, perPage: int, totalPages: int)

  const DefaultPage := 1
  const DefaultLimit := 10
  const MaxLimit := 100

  /** `a ?? b` */
  function Coalesce(a: Option<Num>, b: Option<Num>): (r: Option<Num>)
    ensures a.Some? ==> r == a
    ensures a.None? ==> r == b
  {
    if a.Some? then a else b
  }

  /** The new names win: once `currentPage` and `itemsPerPage` are given, the
      legacy `page` and `limit` play no part; without them, the legacy names
      are read as if they had been given under the new names. */
  lemma NewNamesWin(q: Query, page: Option<Num>, limit: Option<Num>)
    ensures q.currentPage.Some? && q.itemsPerPage.Some? ==>
              ParsePagination(q.(page := page, limit := limit)) == ParsePagination(q)
    ensures ParsePagination(Query(None, page, None, limit)) == ParsePagination(Query(page, None, limit, None))
  {
  }

  /** `raw !== undefined ? Number(raw) : d` */
  function OrDefault(raw: Option<Num>, d: int): Num
  {
    if raw.Some? then raw.value else Finite(d as real)
  }

  /** The page number the query asks for: `currentPage`, else the legacy `page`. */
  function RequestedPage(q: Query): Num
  {
    OrDefault(Coalesce(q.currentPage, q.page), DefaultPage)
  }

  /** The page size the query asks for: `itemsPerPage`, else the legacy `limit`. */
  function RequestedLimit(q: Query): Num
  {
    OrDefault(Coalesce(q.itemsPerPage, q.limit), DefaultLimit)
  }

  /** `Number.isFinite(n) && n > 0` */
  predicate Positive(n: Num)
  {
    n.Finite? && n.x > 0.0
  }

  function Min(a: int, b: int): int
  {
    if a <= b then a else b
  }

  /** `parsePagination` as written: a positive page or limit is floored, so a
      value strictly between 0 and 1 becomes 0. */
  function ParsePagination(q: Query): (w: Window)
    ensures var p := RequestedPage(q);
            if Positive(p) then w.page as real <= p.x < w.page as real + 1.0
            else w.page == DefaultPage
    ensures var l := RequestedLimit(q);
            if Positive(l) then
              && (w.limit == MaxLimit <==> l.x >= MaxLimit as real)
              && (w.limit < MaxLimit ==> w.limit as real <= l.x < w.limit as real + 1.0)
            else w.limit == DefaultLimit
    ensures w.page >= 0 && 0 <= w.limit <= MaxLimit
    ensures w.offset == (w.page - 1) * w.limit
  {
    var page := RequestedPage(q);
    var limit := RequestedLimit(q);
    var safePage := if Positive(page) then page.x.Floor else DefaultPage;
    var safeLimit := if Positive(limit) then Min(limit.x.Floor, MaxLimit) else DefaultLimit;
    Window(safePage, safeLimit, (safePage - 1) * safeLimit)
  }

  /** A page or a limit of one half passes the `> 0` guard and floors to 0: the
      window then starts at row -10, and a limit of one half yields limit 0. */
  lemma FractionalPageGivesNegativeOffset()
    ensures ParsePagination(Query(Some(Finite(0.5)), None, None, None)) == Window(0, 10, -10)
    ensures ParsePagination(Query(None, None, Some(Finite(0.5)), None)).limit == 0
  {
    assert (0.5).Floor == 0;
  }

  /** `parsePagination` as evidently intended: only a page or a limit of at
      least 1 is taken (floored); anything else falls back to the default. */
  function ParsePaginationClamped(q: Query): (w: Window)
    ensures w.page >= 1 && 1 <= w.limit <= MaxLimit
    ensures w.offset >= 0 && w.offset % w.limit == 0 && w.offset / w.limit == w.page - 1
    ensures var p := RequestedPage(q);
            if p.Finite? && p.x >= 1.0 then w.page as real <= p.x < w.page as real + 1.0
            else w.page == DefaultPage
    ensures var l := RequestedLimit(q);
            if l.Finite? && l.x >= 1.0 then
              && (w.limit == MaxLimit <==> l.x >= MaxLimit as real)
              && (w.limit < MaxLimit ==> w.limit as real <= l.x < w.limit as real + 1.0)
            else w.limit == DefaultLimit
  {
    var page := RequestedPage(q);
    var limit := RequestedLimit(q);
    var safePage := if page.Finite? && page.x >= 1.0 then page.x.Floor else DefaultPage;
    var safeLimit := if limit.Finite? && limit.x >= 1.0 then Min(limit.x.Floor, MaxLimit) else DefaultLimit;
    OffsetIsWholePages(safePage, safeLimit);
    Window(safePage, safeLimit, (safePage - 1) * safeLimit)
  }

  lemma OffsetIsWholePages(page: int, limit: int)
    requires page >= 1 && limit >= 1
    ensures (page - 1) * limit >= 0
    ensures ((page - 1) * limit) % limit == 0 && ((page - 1) * limit) / limit == page - 1
  {
    var k := page - 1;
    var x := k * limit;
    var q, r := x / limit, x % limit;
    assert x == limit * q + r && 0 <= r < limit;
    var d := k - q;
    assert limit * d == r;
    assert d == 0;
  }

  /** The two readings agree wherever the page and the limit are absent, at
      least 1, non-positive or not finite: the fix only touches (0, 1). */
  lemma ClampedAgreesOutsideUnitInterval(q: Query)
    requires !Positive(RequestedPage(q)) || RequestedPage(q).x >= 1.0
    requires !Positive(RequestedLimit(q)) || RequestedLimit(q).x >= 1.0
    ensures ParsePaginationClamped(q) == ParsePagination(q)
  {
  }

  /** The page count is the ceiling of `total / limit` for a positive limit. */
  function MakeMeta(total: int, page: int, limit: int): (m: Meta)
    ensures m.total == total && m.page == page && m.perPage == limit
    ensures limit > 0 ==> (m.totalPages - 1) * limit < total <= m.totalPages * limit
    ensures limit <= 0 ==> m.totalPages == 0
  {
    Meta(total, page, limit, if limit > 0 then CeilDiv(total, limit) else 0)
  }

  /** `Math.ceil(a / b)` for a positive `b`. */
  function CeilDiv(a: int, b: int): (c: int)
    requires b > 0
    ensures (c - 1) * b < a <= c * b
  {
    var q := (-a) / b;
    var r := (-a) % b;
    assert -a == b * q + r && 0 <= r < b;
    assert (-q - 1) * b == -(b * q) - b;
    assert (-q) * b == -(b * q);
    -q
  }

  /** The expectations of the pagination unit tests. */
  lemma TestExpectations()
    ensures ParsePagination(Query(None, None, None, None)) == Window(1, 10, 0)
    ensures ParsePagination(Query(Some(Finite(2.0)), None, Some(Finite(2.0)), None)) == Window(2, 2, 2)
    ensures ParsePagination(Query(None, Some(Finite(3.0)), None, Some(Finite(5.0)))) == Window(3, 5, 10)
    ensures MakeMeta(30, 2, 10) == Meta(30, 2, 10, 3)
  {
    assert (1.0).Floor == 1 && (2.0).Floor == 2 && (3.0).Floor == 3 && (5.0).Floor == 5;
    assert (10.0).Floor == 10;
  }
}
