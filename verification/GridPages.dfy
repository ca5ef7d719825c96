/**
 What a page of the product grid shows, written out on the request and on the listings' own fields: which
 listings, in which order for each sort name, and which stretch of them.
 */
module GridPages {
  import opened Common
  import opened KeysetPaging

  // ----- the request in its own words

  /** Active, and in the searched set, the marketplace and the category where the request names them. */
  predicate Wanted(p: Params, r: Listing) {
    && r.isActive
    && (match p.searchIds case Some(ids) => r.id in ids case None => true)
    && (match p.marketplace case Some(m) => r.marketplace == m case None => true)
    && (match p.category case Some(ids) => r.id in ids case None => true)
  }

  /** Smaller keys first, then smaller ids; listings without the key come last. */
  predicate Ascends(a: Option<KeyValue>, b: Option<KeyValue>, idsAscend: bool) {
    match (a, b)
    case (Some(x), Some(y)) => x < y || (x == y && idsAscend)
    case (Some(_), None) => true
    case (None, Some(_)) => false
    case (None, None) => idsAscend
  }

  /** Larger keys first, then smaller ids; listings without the key come last. */
  predicate Descends(a: Option<KeyValue>, b: Option<KeyValue>, idsAscend: bool) {
    match (a, b)
    case (Some(x), Some(y)) => x > y || (x == y && idsAscend)
    case (Some(_), None) => true
    case (None, Some(_)) => false
    case (None, None) => idsAscend
  }

  function Size(change: Option<KeyValue>): Option<KeyValue> {
    match change case Some(x) => Some(if x >= 0 then x else -x) case None => None
  }

  /** Which of two listings a sort name shows first; every unknown name means the most recent. */
  predicate ShownFirst(sort: string, a: Listing, b: Listing) {
    if sort == "name_asc" then Ascends(a.name, b.name, a.id < b.id)
    else if sort == "name_desc" then Descends(a.name, b.name, a.id < b.id)
    else if sort == "price_asc" then Ascends(a.lastPrice, b.lastPrice, a.id < b.id)
    else if sort == "price_desc" then Descends(a.lastPrice, b.lastPrice, a.id < b.id)
    else if sort == "gainers" then Descends(a.changePct, b.changePct, a.id < b.id)
    else if sort == "losers" then Ascends(a.changePct, b.changePct, a.id < b.id)
    else if sort == "volatile" then Descends(Size(a.changePct), Size(b.changePct), a.id < b.id)
    else Descends(a.lastCheckedAt, b.lastCheckedAt, a.id < b.id)
  }

  /** The percentage sorts page by offset only. */
  predicate PagesByCursor(sort: string) {
    sort != "gainers" && sort != "losers" && sort != "volatile"
  }

  /** The wanted listings, each once, in the order of the sort name. */
  ghost predicate IsGrid(table: seq<Listing>, p: Params, rows: seq<Listing>) {
    && (forall r :: r in rows <==> r in table && Wanted(p, r))
    && forall i, j :: 0 <= i < j < |rows| ==> ShownFirst(p.sort, rows[i], rows[j])
  }

  /** At least one row, at most 500, twenty unless asked otherwise. */
  function AskedLimit(p: Params): int {
    match p.limit
    case None => 20
    case Some(n) => if n < 1 then 1 else if n > 500 then 500 else n
  }

  function AskedOffset(p: Params): int {
    match p.offset case Some(n) => (if n > 0 then n else 0) case None => 0
  }

  function Slice(rows: seq<Listing>, from: int, to: int): seq<Listing> {
    var a, b := Min(Max(from, 0), |rows|), Min(Max(to, 0), |rows|);
    if a <= b then rows[a..b] else []
  }

  // ----- the display order is that grid

  lemma SortNameMeaning(sort: string, a: Listing, b: Listing)
    ensures var spec := SortSpecOf(sort);
      Before(spec.desc, SortValue(spec.key, a), a.id, SortValue(spec.key, b), b.id) <==> ShownFirst(sort, a, b)
    ensures SortSpecOf(sort).keyset <==> PagesByCursor(sort)
  {
  }

  lemma FilterMeaning(p: Params, col: Column, r: Listing)
    ensures Passes(FilterConds(p), col, r) <==> Wanted(p, r)
  {
    var conds := FilterConds(p);
    var i := 1 + (if p.searchIds.Some? then 1 else 0);
    var j := i + (if p.marketplace.Some? then 1 else 0);
    assert conds[0] == IsActive;
    assert p.searchIds.Some? ==> conds[1] == IdAny(p.searchIds.value);
    assert p.marketplace.Some? ==> conds[i] == MarketplaceIs(p.marketplace.value);
    assert p.category.Some? ==> conds[j] == IdAny(p.category.value);
    assert |conds| == j + (if p.category.Some? then 1 else 0);
  }

  lemma DisplayIsGrid(table: seq<Listing>, p: Params)
    requires DistinctListings(table)
    ensures IsGrid(table, p, Display(table, p))
  {
    var rows, spec := Display(table, p), SortSpecOf(p.sort);
    DisplayComplete(table, p);
    hide Display, SortSpecOf, FilterConds, Passes, Wanted, ShownFirst, Before;
    forall r ensures r in rows <==> r in table && Wanted(p, r) {
      FilterMeaning(p, spec.key, r);
    }
    forall i, j | 0 <= i < j < |rows| ensures ShownFirst(p.sort, rows[i], rows[j]) {
      SortNameMeaning(p.sort, rows[i], rows[j]);
    }
  }

  /** There is only one such grid. */
  lemma GridIsDisplay(table: seq<Listing>, p: Params, rows: seq<Listing>)
    requires DistinctListings(table) && IsGrid(table, p, rows)
    ensures rows == Display(table, p)
  {
    var o := OrderClause(SortSpecOf(p.sort), false);
    DisplayIsGrid(table, p);
    DisplaySorted(table, p);
    forall i, j | 0 <= i < j < |rows| ensures RowLess(o, rows[i], rows[j]) {
      SortNameMeaning(p.sort, rows[i], rows[j]);
      OrderClauseMeaning(SortSpecOf(p.sort), rows[i], rows[j]);
    }
    hide *;
    SameRows(table, p, rows, Display(table, p));
    StrictlyIs(o, rows);
    SortedUnique(o, rows, Display(table, p));
  }

  lemma StrictlyIs(o: OrderBy, rows: seq<Listing>)
    requires forall i, j :: 0 <= i < j < |rows| ==> RowLess(o, rows[i], rows[j])
    ensures StrictlySorted(o, rows)
  {
    hide RowLess;
  }

  lemma SameRows(table: seq<Listing>, p: Params, a: seq<Listing>, b: seq<Listing>)
    requires IsGrid(table, p, a) && IsGrid(table, p, b)
    ensures Rows(a) == Rows(b)
  {
    hide Wanted, ShownFirst;
  }

  // ----- the page

  /** Without a cursor, or under a percentage sort: the rows from offset to offset + limit. */
  lemma OffsetPageExactly(table: seq<Listing>, p: Params, rows: seq<Listing>)
    requires DistinctListings(table) && IsGrid(table, p, rows)
    requires p.cursor.None? || !PagesByCursor(p.sort)
    ensures ExpectedPage(table, p).items == Slice(rows, AskedOffset(p), AskedOffset(p) + AskedLimit(p))
  {
    GridIsDisplay(table, p, rows);
    KeysetNames(p.sort);
    hide Display, SortSpecOf, IsGrid, CursorAt;
  }

  lemma KeysetNames(sort: string)
    ensures SortSpecOf(sort).keyset <==> PagesByCursor(sort)
  {
  }

  /** The listing a cursor was taken from, as far as the sort name looks at it. */
  predicate TakenFrom(c: Cursor, sort: string, r: Listing) {
    && c.id == r.id
    && c.value == if sort == "name_asc" || sort == "name_desc" then r.name
                  else if sort == "price_asc" || sort == "price_desc" then r.lastPrice
                  else r.lastCheckedAt
  }

  /**
   With a cursor: the limit rows shown after the listing it was taken from, or the limit rows shown before
   it. The listing itself need not be in the grid any more.
   */
  lemma CursorPageExactly(table: seq<Listing>, p: Params, rows: seq<Listing>, at: Listing, n: nat)
    requires DistinctListings(table) && IsGrid(table, p, rows)
    requires p.cursor.Some? && PagesByCursor(p.sort) && TakenFrom(p.cursor.value, p.sort, at)
    requires n <= |rows|
    requires if p.cursor.value.backwards
             then forall i :: 0 <= i < |rows| ==> (i < n <==> ShownFirst(p.sort, rows[i], at))
             else forall i :: 0 <= i < |rows| ==> (i < n <==> !ShownFirst(p.sort, at, rows[i]))
    ensures ExpectedPage(table, p).items
         == if p.cursor.value.backwards then Slice(rows, n - AskedLimit(p), n) else Slice(rows, n, n + AskedLimit(p))
  {
    hide *;
    var spec, c := SortSpecOf(p.sort), p.cursor.value;
    GridIsDisplay(table, p, rows);
    DisplayStrictly(table, p);
    forall i | 0 <= i < |rows|
      ensures RowAfter(spec, rows[i], c) <==> ShownFirst(p.sort, at, rows[i])
      ensures RowBefore(spec, rows[i], c) <==> ShownFirst(p.sort, rows[i], at)
    {
      CursorRank(p.sort, c, at, rows[i]);
    }
    if c.backwards {
      CountBeforeIs(spec, rows, c, n);
    } else {
      UpToIs(spec, rows, c, n);
    }
    CursorSlice(table, p);
  }

  lemma DisplayStrictly(table: seq<Listing>, p: Params)
    requires DistinctListings(table)
    ensures StrictlySorted(OrderClause(SortSpecOf(p.sort), false), Display(table, p))
  {
    hide *;
    DisplaySorted(table, p);
  }

  lemma OneBoundary(m: nat, n: nat, size: nat, low: nat -> bool)
    requires m <= size && n <= size
    requires forall i: nat :: i < size ==> (low(i) <==> i < m) && (low(i) <==> i < n)
    ensures m == n
  {
    assert low(m) || !low(m);
    assert low(n) || !low(n);
  }

  lemma UpToIs(spec: SortSpec, rows: seq<Listing>, c: Cursor, n: nat)
    requires StrictlySorted(OrderClause(spec, false), rows) && n <= |rows|
    requires forall i :: 0 <= i < |rows| ==> (i < n <==> !RowAfter(spec, rows[i], c))
    ensures UpTo(spec, rows, c) == n
  {
    UpToMeaning(spec, rows, c);
    hide RowAfter, UpTo, StrictlySorted;
    OneBoundary(UpTo(spec, rows, c), n, |rows|, (i: nat) => i < |rows| && !RowAfter(spec, rows[i], c));
  }

  lemma CountBeforeIs(spec: SortSpec, rows: seq<Listing>, c: Cursor, n: nat)
    requires StrictlySorted(OrderClause(spec, false), rows) && n <= |rows|
    requires forall i :: 0 <= i < |rows| ==> (i < n <==> RowBefore(spec, rows[i], c))
    ensures CountBefore(spec, rows, c) == n
  {
    CountBeforeMeaning(spec, rows, c);
    hide RowBefore, CountBefore, StrictlySorted;
    OneBoundary(CountBefore(spec, rows, c), n, |rows|, (i: nat) => i < |rows| && RowBefore(spec, rows[i], c));
  }

  /** The page as a stretch of the display order. */
  lemma CursorSlice(table: seq<Listing>, p: Params)
    requires p.cursor.Some? && PagesByCursor(p.sort)
    ensures var rows, spec, c := Display(table, p), SortSpecOf(p.sort), p.cursor.value;
      var from, end := UpTo(spec, rows, c), CountBefore(spec, rows, c);
      ExpectedPage(table, p).items
      == if c.backwards then Slice(rows, end - AskedLimit(p), end) else Slice(rows, from, from + AskedLimit(p))
  {
    KeysetNames(p.sort);
    hide Display, SortSpecOf, CursorAt, UpTo, CountBefore;
  }

  lemma CursorRank(sort: string, c: Cursor, at: Listing, r: Listing)
    requires PagesByCursor(sort) && TakenFrom(c, sort, at)
    ensures RowAfter(SortSpecOf(sort), r, c) <==> ShownFirst(sort, at, r)
    ensures RowBefore(SortSpecOf(sort), r, c) <==> ShownFirst(sort, r, at)
  {
    SortNameMeaning(sort, at, r);
    SortNameMeaning(sort, r, at);
  }

  /** Which cursors a page offers: at its ends, under cursor sorts only, the next one only where more may follow. */
  lemma PageCursorsExactly(table: seq<Listing>, p: Params)
    ensures var page := ExpectedPage(table, p);
      if !PagesByCursor(p.sort) || page.items == [] then page.next == None && page.prev == None
      else
        var first, last := page.items[0], page.items[|page.items| - 1];
        var back := p.cursor.Some? && p.cursor.value.backwards;
        && (page.next.Some? <==> |page.items| == AskedLimit(p) || back)
        && (page.next.Some? ==> !page.next.value.backwards && TakenFrom(page.next.value, p.sort, last))
        && (page.prev.Some? <==> p.cursor.Some?)
        && (page.prev.Some? ==> page.prev.value.backwards && TakenFrom(page.prev.value, p.sort, first))
  {
    KeysetNames(p.sort);
    hide Display, SortSpecOf, PageStart, PageEnd;
  }

  /** Following next cursors from the first page shows the grid once, in floor(n / limit) + 1 pages. */
  lemma WalkShowsGrid(table: seq<Listing>, p: Params, rows: seq<Listing>)
    requires DistinctListings(table) && IsGrid(table, p, rows) && PagesByCursor(p.sort)
    requires p.cursor.None? && AskedOffset(p) == 0
    ensures var pages := |rows| / AskedLimit(p) + 1;
      && (forall k :: 0 <= k < pages ==> PageNo(table, p, k).Some?)
      && PageNo(table, p, pages) == None
      && ItemsOfPages(table, p, pages) == rows
  {
    GridIsDisplay(table, p, rows);
    KeysetNames(p.sort);
    AskedIs(p);
    hide *;
    WalkShowsEverythingOnce(table, p, |rows| / AskedLimit(p) + 1);
  }

  lemma AskedIs(p: Params)
    ensures PageLimit(p) == AskedLimit(p) && PageOffset(p) == AskedOffset(p)
  {
  }

  /** The total is the size of the grid, which the count query stops counting at 10001. */
  lemma TotalIsGridSize(table: seq<Listing>, p: Params, rows: seq<Listing>)
    requires DistinctListings(table) && IsGrid(table, p, rows)
    ensures |Where(FilterConds(p), SortSpecOf(p.sort).key, table)| == |rows|
    ensures Min(|rows|, COUNT_CAP - 1) == (if |rows| <= 10000 then |rows| else 10000)
    ensures |rows| >= COUNT_CAP <==> |rows| > 10000
  {
    GridIsDisplay(table, p, rows);
    SortKeepsSize(OrderClause(SortSpecOf(p.sort), false), Where(FilterConds(p), SortSpecOf(p.sort).key, table));
  }

  lemma {:induction false} InsertGrows(o: OrderBy, sorted: seq<Listing>, r: Listing)
    ensures |InsertSorted(o, sorted, r)| == |sorted| + 1
  {
    hide RowLess;
    if sorted != [] {
      InsertGrows(o, sorted[1..], r);
    }
  }

  lemma {:induction false} SortKeepsSize(o: OrderBy, rows: seq<Listing>)
    ensures |SortRows(o, rows)| == |rows|
  {
    if rows != [] {
      SortKeepsSize(o, rows[1..]);
      InsertGrows(o, SortRows(o, rows[1..]), rows[0]);
    }
  }
}
