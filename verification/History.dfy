/**
 The history panel: which page buttons it shows, how it re-centres when the table shrinks, and
 that its pages together are the table.
 */
module History {
  import opened Wrappers
  import opened Store

  // ---- the page-button window ---------------------------------------------------------

  // A number as the page code receives one; infinities are outside this model.
  datatype Number = NaN | Num(value: real)

  // Math.floor(Number(x) || fallback)
  function FloorOr(x: Number, fallback: int): int {
    if x.NaN? || x.value == 0.0 then fallback else x.value.Floor
  }

  // NaN and 0 give the fallback; any other number the whole number at or just below it.
  lemma FloorOrIs(x: Number, fallback: int)
    ensures x == NaN || x == Num(0.0) ==> FloorOr(x, fallback) == fallback
    ensures x.Num? && x.value != 0.0 ==>
              FloorOr(x, fallback) as real <= x.value < FloorOr(x, fallback) as real + 1.0
  {
  }

  predicate IsWhole(x: Number, n: int) {
    x == Num(n as real)
  }

  datatype Button = Page(n: int) | Gap

  // The page numbers the window must show: both ends and everything near the current page.
  predicate Shown(total: int, cur: int, w: int, p: int) {
    1 <= p <= total && (total <= 7 || p == 1 || p == total || cur - w <= p <= cur + w)
  }

  /* A correct layout: exactly the shown pages, in increasing order, with one gap between two
     neighbours exactly when it hides a page. */
  ghost predicate IsWindow(out: seq<Button>, total: int, cur: int, w: int) {
    && out != [] && out[0] == Page(1) && out[|out| - 1] == Page(total)
    && (forall p :: Page(p) in out <==> Shown(total, cur, w, p))
    && (forall i :: 0 <= i < |out| - 1 ==> InOrder(out, i))
  }

  // Two neighbouring pages are consecutive; a gap stands between two pages and hides at least one.
  predicate InOrder(out: seq<Button>, i: nat)
    requires i < |out| - 1
  {
    && (out[i].Page? && out[i + 1].Page? ==> out[i + 1].n == out[i].n + 1)
    && (out[i].Gap? ==> 0 < i && out[i - 1].Page? && out[i + 1].Page? && out[i + 1].n >= out[i - 1].n + 2)
  }

  // The buttons are those of the ends and of the pages at most w from the current one, or of all
  // pages when there are at most seven.
  ghost predicate ShowsExactly(out: seq<Button>, n: int, c: int, w: int) {
    forall p :: Page(p) in out <==> 1 <= p <= n && (n <= 7 || p == 1 || p == n || c - w <= p <= c + w)
  }

  lemma WindowShows(out: seq<Button>, n: int, c: int, w: int)
    requires IsWindow(out, n, c, w)
    ensures ShowsExactly(out, n, c, w)
  {
  }

  lemma WholeInputs(totalPages: Number, currentPage: Number, windowSize: Number)
    ensures forall n, c, w :: IsWhole(totalPages, n) && IsWhole(currentPage, c) && IsWhole(windowSize, w)
                              && 1 <= c <= n && w >= 0 ==>
              && Max(1, FloorOr(totalPages, 1)) == n
              && Min(n, Max(1, FloorOr(currentPage, 1))) == c
              && Max(0, FloorOr(windowSize, 0)) == w
  {
  }

  method ComputePageWindow(totalPages: Number, currentPage: Number, windowSize: Number) returns (out: seq<Button>)
    ensures var total := Max(1, FloorOr(totalPages, 1));
            var cur := Min(total, Max(1, FloorOr(currentPage, 1)));
            var w := Max(0, FloorOr(windowSize, 0));
            && IsWindow(out, total, cur, w)
            && Page(cur) in out
            && |out| <= Max(7, 2 * w + 5)
    ensures forall n, c, w :: IsWhole(totalPages, n) && IsWhole(currentPage, c) && IsWhole(windowSize, w)
                              && 1 <= c <= n && w >= 0 ==>
              IsWindow(out, n, c, w) && Page(c) in out && ShowsExactly(out, n, c, w)
  {
    WholeInputs(totalPages, currentPage, windowSize);
    hide IsWindow, ShowsExactly, FloorOr, IsWhole, Layout, Shown;
    var total := Max(1, FloorOr(totalPages, 1));
    var cur := Min(total, Max(1, FloorOr(currentPage, 1)));
    var w := Max(0, FloorOr(windowSize, 0));
    if total <= 7 {
      out := seq(total, i => Page(i + 1));
      AllPagesIsWindow(out, total, cur, w);
      WindowShows(out, total, cur, w);
      return;
    }
    out := PushWindow(total, cur, w);
    LayoutIsWindow(total, cur, w, Max(2, cur - w), Min(total - 1, cur + w));
    WindowShows(out, total, cur, w);
  }

  // The pushes: first page, gap, pages around the current one, gap, last page.
  method PushWindow(total: int, cur: int, w: int) returns (out: seq<Button>)
    requires total > 7 && 1 <= cur <= total && w >= 0
    ensures out == Layout(total, Max(2, cur - w), Min(total - 1, cur + w))
  {
    hide Pages;
    out := [Page(1)];
    var left, right := Max(2, cur - w), Min(total - 1, cur + w);
    if left > 2 {
      out := out + [Gap];
    }
    ghost var head := out;
    assert head == [Page(1)] + if left > 2 then [Gap] else [];
    var p := left;
    PagesStart(left);
    while p <= right
      invariant left <= p <= right + 1
      invariant out == head + Pages(left, p)
    {
      PagesStep(left, p);
      out := out + [Page(p)];
      p := p + 1;
    }
    ghost var body := out;
    if right < total - 1 {
      out := out + [Gap];
    }
    assert out == body + if right < total - 1 then [Gap] else [];
    out := out + [Page(total)];
  }

  function Pages(left: int, p: int): seq<Button>
    requires left <= p
  {
    seq(p - left, i requires 0 <= i => Page(left + i))
  }

  lemma PagesStart(left: int)
    ensures Pages(left, left) == []
  {
  }

  lemma PagesStep(left: int, p: int)
    requires left <= p
    ensures Pages(left, p + 1) == Pages(left, p) + [Page(p)]
  {
  }

  function Layout(total: int, left: int, right: int): (r: seq<Button>)
    requires left <= right + 1
    ensures |r| == (if left > 2 then 2 else 1) + (right + 1 - left) + if right < total - 1 then 2 else 1
  {
    [Page(1)] + (if left > 2 then [Gap] else []) + Pages(left, right + 1)
    + (if right < total - 1 then [Gap] else []) + [Page(total)]
  }

  lemma AllPagesIsWindow(out: seq<Button>, total: int, cur: int, w: int)
    requires 1 <= cur <= total <= 7 && w >= 0
    requires |out| == total && forall i :: 0 <= i < total ==> out[i] == Page(i + 1)
    ensures IsWindow(out, total, cur, w) && Page(cur) in out
  {
    assert forall p :: 1 <= p <= total ==> out[p - 1] == Page(p);
  }

  // The layout seen from one position.
  lemma LayoutAt(total: int, left: int, right: int, i: nat)
    requires 2 <= left <= right + 1 && right < total
    requires i < |Layout(total, left, right)|
    ensures var a := if left > 2 then 2 else 1;
            var b := a + right + 1 - left;
            Layout(total, left, right)[i] ==
                 if i == 0 then Page(1)
                 else if i < a then Gap
                 else if i < b then Page(left + i - a)
                 else if right < total - 1 && i == b then Gap
                 else Page(total)
  {
  }

  lemma LayoutShows(total: int, cur: int, w: int, left: int, right: int, p: int)
    requires total > 7 && 1 <= cur <= total && w >= 0
    requires left == Max(2, cur - w) && right == Min(total - 1, cur + w)
    ensures Page(p) in Layout(total, left, right) <==> Shown(total, cur, w, p)
  {
    hide Layout;
    var out, a := Layout(total, left, right), if left > 2 then 2 else 1;
    if Page(p) in out {
      var i :| 0 <= i < |out| && out[i] == Page(p);
      LayoutAt(total, left, right, i);
    }
    if Shown(total, cur, w, p) {
      var i := if p == 1 then 0 else if p == total then |out| - 1 else a + p - left;
      LayoutAt(total, left, right, 0);
      LayoutAt(total, left, right, i);
    }
  }

  lemma LayoutSteps(total: int, left: int, right: int, i: nat)
    requires total > 7 && 2 <= left <= right + 1 && right < total && i < |Layout(total, left, right)| - 1
    requires left <= right || left == 2 || right == total - 1
    ensures InOrder(Layout(total, left, right), i)
  {
    hide Layout;
    LayoutAt(total, left, right, i);
    LayoutAt(total, left, right, i + 1);
    if i > 0 {
      LayoutAt(total, left, right, i - 1);
    }
  }

  lemma LayoutIsWindow(total: int, cur: int, w: int, left: int, right: int)
    requires total > 7 && 1 <= cur <= total && w >= 0
    requires left == Max(2, cur - w) && right == Min(total - 1, cur + w)
    ensures var out := Layout(total, left, right);
            IsWindow(out, total, cur, w) && Page(cur) in out && |out| <= 2 * w + 5
  {
    hide Layout, Pages;
    var out := Layout(total, left, right);
    LayoutAt(total, left, right, 0);
    LayoutAt(total, left, right, |out| - 1);
    forall p: int
      ensures Page(p) in out <==> Shown(total, cur, w, p)
    {
      LayoutShows(total, cur, w, left, right, p);
    }
    assert Shown(total, cur, w, cur) && |out| <= 2 * w + 5;
    hide Shown, Max, Min, InOrder;
    forall i | 0 <= i < |out| - 1
      ensures InOrder(out, i)
    {
      LayoutSteps(total, left, right, i);
    }
  }

  // ---- the server's side of a page ----------------------------------------------------

  const MAX_LIST_LIMIT := 100
  const MAX_LIST_OFFSET := 1_000_000

  datatype Reply = Unreachable | HttpError | Listing(total: int, rows: seq<Row>)

  function Clamp(n: int, lo: int, hi: int): int {
    if n < lo then lo else if n > hi then hi else n
  }

  // GET /api/results?limit=&offset=
  function Listed(rows: seq<Row>, limit: int, offset: int): (r: Reply)
    ensures r.Listing?
  {
    Listing(|rows|, Slice(NewestFirst(rows), Clamp(limit, 1, MAX_LIST_LIMIT), Clamp(offset, 0, MAX_LIST_OFFSET)))
  }

  // The limit is cut to 1 .. 100 and the offset to 0 .. 1,000,000.
  method ListResults(table: Table, limit: int, offset: int) returns (r: Reply)
    requires table.Valid()
    ensures r == Listed(table.rows, limit, offset)
    ensures r.Listing? && r.total == |table.rows|
    ensures var lim := if limit < 1 then 1 else if limit > 100 then 100 else limit;
            var off := if offset < 0 then 0 else if offset > 1_000_000 then 1_000_000 else offset;
            && |r.rows| == Max(0, Min(lim, |table.rows| - off))
            && forall k :: 0 <= k < |r.rows| ==> r.rows[k] == NewestFirst(table.rows)[off + k]
  {
    var rows := table.List(Clamp(limit, 1, MAX_LIST_LIMIT), Clamp(offset, 0, MAX_LIST_OFFSET));
    var total := table.Count();
    r := if rows.Some? then Listing(total, rows.value) else HttpError;
  }

  // ---- refresh and goToPage -----------------------------------------------------------

  function TotalPages(totalRows: int, pageSize: int): (n: int)
    requires pageSize > 0
    ensures n >= 1 && (totalRows <= pageSize ==> n == 1)
    ensures totalRows > 0 ==> (n - 1) * pageSize < totalRows <= n * pageSize
  {
    Max(1, CeilDiv(totalRows, pageSize))
  }

  // The offset a page starts at.
  function Offset(page: int, size: int): int {
    (page - 1) * size
  }

  // What a server answers to the k-th fetch, which asks for this offset.
  type Server = (nat, int) -> Reply

  // Where refresh comes to rest: the page, after so many fetches, the last reply, and the last
  // total any reply carried.
  datatype Settled = Settled(page: int, fetches: nat, reply: Reply, total: int)

  // It re-centres on the last page while the reply says so.
  function Settle(page: int, size: int, server: Server, k: nat, total: int): Settled
    requires page >= 1 && size > 0
    decreases page
  {
    var reply := server(k, Offset(page, size));
    if !reply.Listing? then Settled(page, 1, reply, total)
    else if page > TotalPages(reply.total, size) then
      var s := Settle(TotalPages(reply.total, size), size, server, k + 1, reply.total);
      s.(fetches := s.fetches + 1)
    else Settled(page, 1, reply, reply.total)
  }

  // Whatever totals the server reports, refresh ends after at most `page` fetches on a page that
  // exists, showing the reply to a fetch of that very page.
  lemma {:induction false} RefreshSettles(page: int, size: int, server: Server, k: nat, total: int)
    requires page >= 1 && size > 0
    ensures var s := Settle(page, size, server, k, total);
            && 1 <= s.page <= page
            && 1 <= s.fetches <= page - s.page + 1
            && s.reply == server(k + s.fetches - 1, (s.page - 1) * size)
            && (s.reply.Listing? ==> s.page <= TotalPages(s.reply.total, size) && s.total == s.reply.total)
  {
    hide TotalPages;
    var reply := server(k, Offset(page, size));
    if reply.Listing? && page > TotalPages(reply.total, size) {
      RefreshSettles(TotalPages(reply.total, size), size, server, k + 1, reply.total);
    }
  }

  // The fetch of page p by the k-th request sends refresh to page p'.
  ghost predicate Recentres(size: int, server: Server, k: nat, p: int, p': int)
    requires size > 0
  {
    var reply := server(k, (p - 1) * size);
    reply.Listing? && p' < p && p' == TotalPages(reply.total, size)
  }

  // It moves only where a listing sends it, fetch by fetch; a failed reply moves nothing.
  lemma {:induction false} RefreshMovesByListings(page: int, size: int, server: Server, k: nat, total: int)
    returns (path: seq<int>)
    requires page >= 1 && size > 0
    ensures var s := Settle(page, size, server, k, total);
            && |path| == s.fetches && path != [] && path[0] == page && path[|path| - 1] == s.page
            && (forall i, j :: 0 <= i && j == i + 1 && j < |path| ==> Recentres(size, server, k + i, path[i], path[j]))
            && (!s.reply.Listing? ==>
                  s.total == if |path| == 1 then total
                             else server(k + |path| - 2, (path[|path| - 2] - 1) * size).total)
  {
    hide TotalPages;
    var reply := server(k, Offset(page, size));
    path := [page];
    if reply.Listing? && page > TotalPages(reply.total, size) {
      var rest := RefreshMovesByListings(TotalPages(reply.total, size), size, server, k + 1, reply.total);
      path := [page] + rest;
      forall i, j | 0 <= i && j == i + 1 && j < |path|
        ensures Recentres(size, server, k + i, path[i], path[j])
      {
        if i > 0 {
          assert Recentres(size, server, k + 1 + (i - 1), rest[i - 1], rest[j - 1]);
        }
      }
    }
  }

  datatype View = Empty | Failed | Table(rows: seq<Row>)

  class HistoryPanel {
    const pageSize: int
    var currentPage: int
    var totalRows: int
    var view: View

    ghost predicate Valid()
      reads this
    {
      5 <= pageSize <= 100 && currentPage >= 1
    }

    constructor (pageSize: Number)
      ensures Valid() && currentPage == 1 && totalRows == 0
      ensures this.pageSize == if pageSize.NaN? then 20 else Clamp(pageSize.value.Floor, 5, 100)
    {
      this.pageSize := if pageSize.NaN? then 20 else Clamp(pageSize.value.Floor, 5, 100);
      currentPage, totalRows, view := 1, 0, Empty;
    }

    method Refresh(server: Server, k: nat) returns (fetches: nat)
      requires Valid()
      modifies this
      ensures Valid()
      ensures var s := Settle(old(currentPage), pageSize, server, k, old(totalRows));
              && currentPage == s.page && fetches == s.fetches
              && totalRows == s.total
              && view == if !s.reply.Listing? then Failed
                           else if s.reply.rows == [] then Empty
                           else Table(s.reply.rows)
      decreases currentPage
    {
      var reply := server(k, Offset(currentPage, pageSize));
      if !reply.Listing? {
        view := Failed;
        return 1;
      }
      totalRows := reply.total;
      var totalPages := TotalPages(totalRows, pageSize);
      if currentPage > totalPages {
        currentPage := totalPages;
        fetches := Refresh(server, k + 1);
        return fetches + 1;
      }
      view := if reply.rows == [] then Empty else Table(reply.rows);
      fetches := 1;
    }

    // Fetches nothing when the target is the page already shown.
    method GoToPage(n: real, server: Server, k: nat) returns (fetches: nat)
      requires Valid()
      modifies this
      ensures Valid()
      ensures var target := Clamp(n.Floor, 1, TotalPages(old(totalRows), pageSize));
              if target == old(currentPage) then
                fetches == 0 && currentPage == target && view == old(view) && totalRows == old(totalRows)
              else
                var s := Settle(target, pageSize, server, k, old(totalRows));
                && currentPage == s.page && fetches == s.fetches
                && totalRows == s.total
                && view == if !s.reply.Listing? then Failed
                           else if s.reply.rows == [] then Empty
                           else Table(s.reply.rows)
    {
      var totalPages := TotalPages(totalRows, pageSize);
      var target := Min(totalPages, Max(1, n.Floor));
      if target == currentPage {
        return 0;
      }
      currentPage := target;
      fetches := Refresh(server, k);
    }
  }

  // ---- the pages together are the table -----------------------------------------------

  // The rows of pages 1 .. n as the server serves them.
  function AllPages(rows: seq<Row>, size: int, n: nat): seq<Row> {
    if n == 0 then []
    else AllPages(rows, size, n - 1) + Listed(rows, size, Offset(n, size)).rows
  }

  lemma ServedRows(rows: seq<Row>, size: int, offset: nat)
    requires 5 <= size <= 100
    ensures var from := if offset <= MAX_LIST_OFFSET then offset else MAX_LIST_OFFSET;
            Listed(rows, size, offset).rows == NewestFirst(rows)[Min(from, |rows|)..Min(from + size, |rows|)]
  {
  }

  lemma SliceJoins(s: seq<Row>, at: nat, size: nat)
    ensures s[..Min(at, |s|)] + s[Min(at, |s|)..Min(at + size, |s|)] == s[..Min(at + size, |s|)]
  {
  }

  lemma OffsetSteps(page: int, size: int)
    requires page >= 1 && size > 0
    ensures Offset(page + 1, size) == Offset(page, size) + size
    ensures Offset(page, size) >= 0 && Offset(1, size) == 0
  {
  }

  lemma OffsetOrders(p: int, p': int, size: int)
    requires size > 0
    ensures p <= p' <==> Offset(p, size) <= Offset(p', size)
  {
    assert p <= p' - 1 ==> (p - 1) * size <= (p' - 1 - 1) * size;
    assert p' <= p - 1 ==> (p' - 1) * size <= (p - 1 - 1) * size;
  }

  // As long as no offset was clamped, the first n pages are the rows before page n + 1.
  lemma {:induction false} PagesAreAPrefix(rows: seq<Row>, size: int, n: nat)
    requires 5 <= size <= 100 && (n > 0 ==> Offset(n, size) <= MAX_LIST_OFFSET)
    ensures Offset(n + 1, size) >= 0
    ensures AllPages(rows, size, n) == NewestFirst(rows)[..Min(Offset(n + 1, size), |rows|)]
  {
    hide NewestFirst, Listed, Offset;
    OffsetSteps(n + 1, size);
    if n > 0 {
      OffsetSteps(n, size);
      OffsetOrders(n - 1, n, size);
      PagesAreAPrefix(rows, size, n - 1);
      ServedRows(rows, size, Offset(n, size));
      SliceJoins(NewestFirst(rows), Offset(n, size), size);
    }
  }

  lemma {:induction false} PagesGrow(rows: seq<Row>, size: int, m: nat, n: nat)
    requires m <= n
    ensures AllPages(rows, size, m) <= AllPages(rows, size, n)
  {
    hide Listed, Offset;
    if m < n {
      PagesGrow(rows, size, m, n - 1);
    }
  }

  lemma LastPageReaches(total: nat, size: int)
    requires size > 0
    ensures var p := TotalPages(total, size);
            total <= Offset(p + 1, size) && (p > 1 ==> Offset(p, size) < total)
  {
  }

  /* For a table that does not change, pages 1 .. last together are the newest-first table,
     every row exactly once, exactly when the last page starts within the server's offset cap. */
  lemma PagesAreTheTableIff(rows: seq<Row>, size: int)
    requires DistinctIds(rows) && 5 <= size <= 100
    ensures var last := TotalPages(|rows|, size);
            AllPages(rows, size, last) == NewestFirst(rows) <==> (last - 1) * size <= 1_000_000
  {
    var last, s := TotalPages(|rows|, size), NewestFirst(rows);
    assert Offset(last, size) == (last - 1) * size;
    hide NewestFirst, TotalPages, AllPages, Offset;
    LastPageReaches(|rows|, size);
    if Offset(last, size) <= MAX_LIST_OFFSET {
      PagesAreAPrefix(rows, size, last);
    } else {
      ClampedPageRepeats(rows, size, last);
    }
  }

  // The number of the first page whose offset is clamped.
  function FirstClamped(size: int): (c: nat)
    requires 0 < size <= MAX_LIST_OFFSET
    ensures c >= 2 && Offset(c - 1, size) <= MAX_LIST_OFFSET < Offset(c, size)
  {
    MAX_LIST_OFFSET / size + 2
  }

  lemma FirstServedRow(rows: seq<Row>, size: int, offset: nat)
    requires 5 <= size <= 100 && MAX_LIST_OFFSET < offset < |rows|
    ensures var page := Listed(rows, size, offset).rows;
            page != [] && page[0] == NewestFirst(rows)[MAX_LIST_OFFSET]
  {
    hide NewestFirst, Listed;
    ServedRows(rows, size, offset);
  }

  // That page starts over at row MAX_LIST_OFFSET, which an earlier page has already shown.
  lemma ClampedPageRepeats(rows: seq<Row>, size: int, last: int)
    requires DistinctIds(rows) && 5 <= size <= 100 && last == TotalPages(|rows|, size)
    requires Offset(last, size) > MAX_LIST_OFFSET
    ensures AllPages(rows, size, last) != NewestFirst(rows)
  {
    hide NewestFirst, Listed, TotalPages, Offset, FirstClamped, DistinctIds;
    var s, c := NewestFirst(rows), FirstClamped(size);
    var at := Offset(c, size);
    LastPageReaches(|rows|, size);
    OffsetSteps(1, size);
    OffsetOrders(last, c - 1, size);
    OffsetOrders(c, last, size);
    PagesAreAPrefix(rows, size, c - 1);
    PagesGrow(rows, size, c, last);
    FirstServedRow(rows, size, at);
    assert AllPages(rows, size, c) == AllPages(rows, size, c - 1) + Listed(rows, size, at).rows;
    assert AllPages(rows, size, c)[at] == s[MAX_LIST_OFFSET];
    NewestFirstDistinct(rows, MAX_LIST_OFFSET, at);
  }

  // A table just long enough for its last page to be clamped.
  lemma LongTableRepeats() returns (rows: seq<Row>)
    ensures DistinctIds(rows) && |rows| == 1_000_101
    ensures AllPages(rows, 100, TotalPages(|rows|, 100)) != NewestFirst(rows)
  {
    rows := seq(1_000_101, i => Row(i, 0, ""));
    assert TotalPages(|rows|, 100) == 10_002;
    hide *;
    PagesAreTheTableIff(rows, 100);
  }

  // On a table that does not change, refresh settles on the nearest existing page after at most
  // two fetches and shows that page of the table.
  lemma RefreshOfFixedTable(rows: seq<Row>, page: int, size: int, k: nat, total: int)
    requires page >= 1 && 5 <= size <= 100
    ensures var s := Settle(page, size, (_, offset) => Listed(rows, size, offset), k, total);
            && s.page == Min(page, TotalPages(|rows|, size))
            && s.fetches <= 2
            && s.reply == Listed(rows, size, Offset(s.page, size)) && s.total == |rows|
  {
  }
}
