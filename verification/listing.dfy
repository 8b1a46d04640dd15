/**
 Listing work orders: the optional status filter, newest-first order, and
 the page arithmetic (offset, limit and page count) of the list endpoint.
 Orders are created with increasing auto-increment ids, so newest-first is
 descending id order.
 */
module Listing {
  import opened Results
  import opened WorkOrderStatus
  import opened WorkOrders

  const DefaultPage: int := 1
  const DefaultPageSize: int := 10

  /** The query string of the list endpoint; a parameter that is not sent is `None`. */
  datatype ListQuery = ListQuery(status: Option<string>, page: Option<int>, pageSize: Option<int>)

  /**
   A status filter applies only when a non-empty value is sent; an order
   passes it when its status has that name.
   */
  predicate Matches(o: Order, status: Option<string>)
  {
    status.None? || status.value == "" || Name(o.status) == status.value
  }

  /** The ids below `below` of orders passing the filter, newest (largest id) first. */
  function NewestFirst(orders: map<nat, Order>, status: Option<string>, below: nat): (r: seq<nat>)
    ensures forall i :: 0 <= i < |r| ==> r[i] < below && r[i] in orders && Matches(orders[r[i]], status)
    ensures forall i, j :: 0 <= i < j < |r| ==> r[i] > r[j]
    decreases below
  {
    if below == 0 then []
    else
      var id := below - 1;
      (if id in orders && Matches(orders[id], status) then [id] else []) + NewestFirst(orders, status, id)
  }

  /** No order passing the filter is left out. */
  lemma {:induction false} NewestFirstComplete(orders: map<nat, Order>, status: Option<string>, below: nat)
    ensures forall id :: id < below && id in orders && Matches(orders[id], status) ==> id in NewestFirst(orders, status, below)
    decreases below
  {
    if below > 0 {
      NewestFirstComplete(orders, status, below - 1);
    }
  }

  /** The ids of all orders passing the filter, newest first. */
  function MatchingOrders(st: Store, status: Option<string>): (r: seq<nat>)
    requires OrderIdsAllocated(st)
    ensures forall id :: id in r <==> id in st.orders && Matches(st.orders[id], status)
    ensures forall i, j :: 0 <= i < j < |r| ==> r[i] > r[j]
  {
    NewestFirstComplete(st.orders, status, st.nextOrderId);
    NewestFirst(st.orders, status, st.nextOrderId)
  }

  /** `ceil(a / b)` for a non-negative dividend and a non-zero divisor of either sign. */
  function CeilDiv(a: nat, b: int): (r: int)
    requires b != 0
    ensures b > 0 ==> 0 <= r && (r - 1) * b < a <= r * b
    ensures b < 0 ==> r <= 0 && r * b <= a < (r - 1) * b
  {
    if b > 0 then
      var q := (a + b - 1) / b;
      assert q * b <= a + b - 1 < q * b + b;
      q
    else
      var q := a / (-b);
      assert q * (-b) <= a < q * (-b) + (-b);
      assert -q * b == q * (-b);
      -q
  }

  /**
   The page count reported for `count` rows at `limit` per page. Dividing by
   a zero limit gives no number (it is reported as null), hence `None`.
   */
  function TotalPages(count: nat, limit: int): (r: Option<int>)
    ensures r.None? <==> limit == 0
    ensures limit > 0 ==> r.value >= 0 && (r.value == 0 <==> count == 0)
    ensures limit > 0 ==> r.value * limit >= count && (r.value - 1) * limit < count
  {
    if limit == 0 then None else Some(CeilDiv(count, limit))
  }

  /** The page, row offset and row limit a query asks for. */
  datatype PageBounds = PageBounds(page: int, offset: int, limit: int)

  /** Reads the page parameters, falling back to page 1 of 10 rows. */
  function Bounds(q: ListQuery): (b: PageBounds)
    ensures q.page.None? ==> b.page == DefaultPage
    ensures q.pageSize.None? ==> b.limit == DefaultPageSize
    ensures q.page.Some? ==> b.page == q.page.value
    ensures q.pageSize.Some? ==> b.limit == q.pageSize.value
    ensures b.offset == (b.page - 1) * b.limit
    ensures b.page >= 1 && b.limit >= 1 ==> b.offset >= 0
  {
    var page := if q.page.Some? then q.page.value else DefaultPage;
    var limit := if q.pageSize.Some? then q.pageSize.value else DefaultPageSize;
    PageBounds(page, (page - 1) * limit, limit)
  }

  /** The row of rank `n` (counting from 0) falls on page `n / limit + 1`. */
  function PageOf(n: nat, limit: int): int
    requires limit >= 1
  {
    n / limit + 1
  }

  /** The rows of ranks `offset` to `offset + limit - 1` that exist. */
  function PageSlice(all: seq<nat>, offset: nat, limit: nat): (data: seq<nat>)
    ensures |data| <= limit
    ensures forall i :: 0 <= i < |data| ==> offset + i < |all| && data[i] == all[offset + i]
    ensures offset + limit <= |all| ==> |data| == limit
    ensures offset < |all| <= offset + limit ==> |data| == |all| - offset
    ensures |all| <= offset ==> data == []
  {
    var lo := if offset < |all| then offset else |all|;
    var hi := if offset + limit < |all| then offset + limit else |all|;
    all[lo..hi]
  }

  /** One page of the listing with its metadata. */
  datatype Page = Page(data: seq<nat>, total: nat, page: int, pageSize: int, totalPages: Option<int>)

  /**
   Lists the orders passing the status filter, newest first, one page at a
   time. A negative offset or limit is rejected by the database, which the
   handler answers as an internal error.
   */
  function ListWorkOrders(st: Store, q: ListQuery): (r: Result<Page, Failure>)
    requires OrderIdsAllocated(st)
    ensures r.Err? <==> Bounds(q).offset < 0 || Bounds(q).limit < 0
    ensures r.Err? ==> r.error == Internal
    ensures r.Ok? ==>
      var b := Bounds(q);
      var all := MatchingOrders(st, q.status);
      && b.offset >= 0 && b.limit >= 0
      && r.value.total == |all|
      && r.value.page == b.page
      && r.value.pageSize == b.limit
      && r.value.totalPages == TotalPages(|all|, b.limit)
      && r.value.data == PageSlice(all, b.offset, b.limit)
  {
    var b := Bounds(q);
    if b.offset < 0 || b.limit < 0 then Err(Internal)
    else
      var all := MatchingOrders(st, q.status);
      Ok(Page(PageSlice(all, b.offset, b.limit), |all|, b.page, b.limit, TotalPages(|all|, b.limit)))
  }

  lemma MulMonotone(a: int, b: int, d: int)
    requires a <= b && d >= 0
    ensures a * d <= b * d
  {
  }

  /** `q` is the unique quotient that places `n` in the block `[q * d, q * d + d)`. */
  lemma QuotientBlock(n: nat, d: int, q: int)
    requires d >= 1 && q >= 0
    ensures q * d <= n < q * d + d <==> q == n / d
  {
    var m := n / d;
    assert m * d <= n < m * d + d;
    if q < m {
      MulMonotone(q + 1, m, d);
    } else if q > m {
      MulMonotone(m + 1, q, d);
    }
  }

  lemma MulCancelLess(a: int, b: int, d: int)
    requires d >= 1 && a * d < b * d
    ensures a < b
  {
  }

  /** The last reported page is the page of the last row, so no row lies beyond it. */
  lemma PageWithinTotalPages(count: nat, pageSize: int, n: nat)
    requires pageSize >= 1 && n < count
    ensures 1 <= PageOf(n, pageSize) <= TotalPages(count, pageSize).value
  {
    var m := n / pageSize;
    var tp := TotalPages(count, pageSize).value;
    assert m * pageSize <= n;
    MulCancelLess(m, tp, pageSize);
  }

  /** In a list without repeats, the row of rank `n` is on a page exactly when its rank is in the page's range. */
  lemma OnPageSlice(all: seq<nat>, offset: nat, limit: nat, n: nat)
    requires forall i, j :: 0 <= i < j < |all| ==> all[i] != all[j]
    requires n < |all|
    ensures all[n] in PageSlice(all, offset, limit) <==> offset <= n < offset + limit
  {
    var data := PageSlice(all, offset, limit);
    if all[n] in data {
      var i :| 0 <= i < |data| && data[i] == all[n];
      assert all[offset + i] == all[n];
    }
    if offset <= n < offset + limit {
      assert data[n - offset] == all[n];
    }
  }

  /** The row of rank `n` is on page `page` of a list without repeats exactly when `page` is its page. */
  lemma RankOnPage(all: seq<nat>, pageSize: int, page: int, n: nat)
    requires forall i, j :: 0 <= i < j < |all| ==> all[i] != all[j]
    requires n < |all| && pageSize >= 1 && page >= 1
    ensures all[n] in PageSlice(all, (page - 1) * pageSize, pageSize) <==> page == PageOf(n, pageSize)
  {
    var offset := (page - 1) * pageSize;
    QuotientBlock(n, pageSize, page - 1);
    OnPageSlice(all, offset, pageSize, n);
  }

  /**
   With a positive page size, every listed order appears on exactly one page,
   page `PageOf(rank)`, and that page is within the reported page count.
   */
  lemma EveryOrderOnExactlyOnePage(st: Store, status: Option<string>, pageSize: int, n: nat)
    requires OrderIdsAllocated(st)
    requires pageSize >= 1
    requires n < |MatchingOrders(st, status)|
    ensures PageOf(n, pageSize) <= TotalPages(|MatchingOrders(st, status)|, pageSize).value
    ensures forall page :: page >= 1 ==>
      (MatchingOrders(st, status)[n] in ListWorkOrders(st, ListQuery(status, Some(page), Some(pageSize))).value.data
       <==> page == PageOf(n, pageSize))
  {
    var all := MatchingOrders(st, status);
    PageWithinTotalPages(|all|, pageSize, n);
    forall page | page >= 1
      ensures all[n] in ListWorkOrders(st, ListQuery(status, Some(page), Some(pageSize))).value.data
              <==> page == PageOf(n, pageSize)
    {
      var q := ListQuery(status, Some(page), Some(pageSize));
      assert Bounds(q) == PageBounds(page, (page - 1) * pageSize, pageSize);
      RankOnPage(all, pageSize, page, n);
    }
  }
}
