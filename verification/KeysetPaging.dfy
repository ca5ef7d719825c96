/**
 The product grid's keyset pagination: SQL predicate and ORDER BY are built from the sort and the
 cursor, the database answers under three-valued logic, a backward page is reversed, and the ends
 of a page become the next and prev cursors. Keys are modelled by integers: only their order matters.
 */
module KeysetPaging {
  import opened Common

  type KeyValue = int
  type Id = int

  const COUNT_CAP: nat := 10001

  datatype Listing = Listing(id: Id, isActive: bool, marketplace: Id,
                             name: Option<KeyValue>, lastPrice: Option<KeyValue>,
                             lastCheckedAt: Option<KeyValue>, changePct: Option<KeyValue>)

  datatype Column = Name | LastPrice | LastCheckedAt | ChangePct | AbsChangePct

  datatype SortSpec = SortSpec(key: Column, desc: bool, keyset: bool)

  datatype Cursor = Cursor(backwards: bool, value: Option<KeyValue>, id: Id)

  /** Decoded request; category stands for the listings its ILIKE pattern matches. */
  datatype Params = Params(sort: string, limit: Option<int>, offset: Option<int>, cursor: Option<Cursor>,
                           searchIds: Option<set<Id>>, marketplace: Option<Id>, category: Option<set<Id>>)

  datatype Page = Page(items: seq<Listing>, next: Option<Cursor>, prev: Option<Cursor>)

  function SortValue(c: Column, r: Listing): Option<KeyValue> {
    match c
    case Name => r.name
    case LastPrice => r.lastPrice
    case LastCheckedAt => r.lastCheckedAt
    case ChangePct => r.changePct
    case AbsChangePct => if r.changePct.Some? && r.changePct.value < 0 then Some(-r.changePct.value) else r.changePct
  }

  function SortSpecOf(sort: string): SortSpec {
    if sort == "name_asc" then SortSpec(Name, false, true)
    else if sort == "name_desc" then SortSpec(Name, true, true)
    else if sort == "price_asc" then SortSpec(LastPrice, false, true)
    else if sort == "price_desc" then SortSpec(LastPrice, true, true)
    else if sort == "gainers" then SortSpec(ChangePct, true, false)
    else if sort == "losers" then SortSpec(ChangePct, false, false)
    else if sort == "volatile" then SortSpec(AbsChangePct, true, false)
    else SortSpec(LastCheckedAt, true, true)
  }

  /** The item field a cursor carries, chosen by sort name a second time. */
  function KeysetValueOf(r: Listing, sort: string): Option<KeyValue> {
    if sort == "name_asc" || sort == "name_desc" then r.name
    else if sort == "price_asc" || sort == "price_desc" then r.lastPrice
    else r.lastCheckedAt
  }

  function PageLimit(p: Params): (n: nat)
    ensures 1 <= n <= 500
  {
    var asked := if p.limit.Some? then p.limit.value else 20;
    Min(Max(asked, 1), 500)
  }

  function PageOffset(p: Params): nat {
    if p.offset.Some? then Max(p.offset.value, 0) else 0
  }

  // ----- SQL conditions under three-valued logic

  datatype Tri = True | False | Unknown

  datatype Cond =
    | KeyLess(v: KeyValue) | KeyGreater(v: KeyValue) | KeyEquals(v: KeyValue) | KeyIsNull | KeyIsNotNull
    | IdLess(id: Id) | IdGreater(id: Id)
    | Both(left: Cond, right: Cond) | Either(left: Cond, right: Cond)
    | IsActive | IdAny(ids: set<Id>) | MarketplaceIs(id: Id)

  function And3(a: Tri, b: Tri): Tri {
    if a == False || b == False then False else if a == True && b == True then True else Unknown
  }

  function Or3(a: Tri, b: Tri): Tri {
    if a == True || b == True then True else if a == False && b == False then False else Unknown
  }

  function Truth(b: bool): Tri {
    if b then True else False
  }

  /** Comparing NULL with anything is unknown. */
  function Eval(cond: Cond, col: Column, r: Listing): Tri {
    var k := SortValue(col, r);
    match cond
    case KeyLess(v) => if k.None? then Unknown else Truth(k.value < v)
    case KeyGreater(v) => if k.None? then Unknown else Truth(k.value > v)
    case KeyEquals(v) => if k.None? then Unknown else Truth(k.value == v)
    case KeyIsNull => Truth(k.None?)
    case KeyIsNotNull => Truth(k.Some?)
    case IdLess(id) => Truth(r.id < id)
    case IdGreater(id) => Truth(r.id > id)
    case Both(a, b) => And3(Eval(a, col, r), Eval(b, col, r))
    case Either(a, b) => Or3(Eval(a, col, r), Eval(b, col, r))
    case IsActive => Truth(r.isActive)
    case IdAny(ids) => Truth(r.id in ids)
    case MarketplaceIs(id) => Truth(r.marketplace == id)
  }

  /** keyset_where: the rows beyond the cursor, NULL keys in the tail. */
  function KeysetWhere(spec: SortSpec, cur: Cursor): Cond {
    var forward := !cur.backwards;
    var idBeyond := if forward then IdGreater(cur.id) else IdLess(cur.id);
    match cur.value
    case Some(v) =>
      var keyBeyond := if spec.desc == forward then KeyLess(v) else KeyGreater(v);
      var beyond := Either(keyBeyond, Both(KeyEquals(v), idBeyond));
      if forward then Either(beyond, KeyIsNull) else beyond
    case None =>
      if forward then Both(KeyIsNull, idBeyond) else Either(Both(KeyIsNull, idBeyond), KeyIsNotNull)
  }

  /** A row passes WHERE when every clause is true; unknown rejects it. */
  predicate Passes(wheres: seq<Cond>, col: Column, r: Listing) {
    forall i :: 0 <= i < |wheres| ==> Eval(wheres[i], col, r) == True
  }

  function Where(wheres: seq<Cond>, col: Column, rows: seq<Listing>): seq<Listing> {
    if rows == [] then []
    else (if Passes(wheres, col, rows[0]) then [rows[0]] else []) + Where(wheres, col, rows[1..])
  }

  datatype OrderBy = OrderBy(col: Column, desc: bool, nullsFirst: bool, idDesc: bool)

  /** The ORDER BY text: backwards flips direction, NULL placement and the id tie-break. */
  function OrderClause(spec: SortSpec, backwards: bool): OrderBy {
    if backwards then OrderBy(spec.key, !spec.desc, true, true) else OrderBy(spec.key, spec.desc, false, false)
  }

  predicate RowLess(o: OrderBy, a: Listing, b: Listing) {
    var ka, kb := SortValue(o.col, a), SortValue(o.col, b);
    var idLess := if o.idDesc then a.id > b.id else a.id < b.id;
    if ka.None? && kb.None? then idLess
    else if ka.None? then o.nullsFirst
    else if kb.None? then !o.nullsFirst
    else if ka.value == kb.value then idLess
    else if o.desc then ka.value > kb.value else ka.value < kb.value
  }

  function InsertSorted(o: OrderBy, sorted: seq<Listing>, r: Listing): seq<Listing> {
    if sorted == [] || RowLess(o, r, sorted[0]) then [r] + sorted
    else [sorted[0]] + InsertSorted(o, sorted[1..], r)
  }

  function SortRows(o: OrderBy, rows: seq<Listing>): seq<Listing> {
    if rows == [] then [] else InsertSorted(o, SortRows(o, rows[1..]), rows[0])
  }

  /** SELECT .. WHERE .. ORDER BY .. LIMIT .. OFFSET .. */
  function Query(table: seq<Listing>, wheres: seq<Cond>, o: OrderBy, limit: nat, offset: nat): seq<Listing> {
    var rows := SortRows(o, Where(wheres, o.col, table));
    Take(if offset <= |rows| then rows[offset..] else [], limit)
  }

  function Reversed<T>(s: seq<T>): (r: seq<T>)
    ensures |r| == |s| && forall i :: 0 <= i < |s| ==> r[i] == s[|s| - 1 - i]
  {
    if s == [] then [] else Reversed(s[1..]) + [s[0]]
  }

  // ----- what the endpoint promises: slices of one display order

  function FilterConds(p: Params): seq<Cond> {
    [IsActive]
    + (if p.searchIds.Some? then [IdAny(p.searchIds.value)] else [])
    + (if p.marketplace.Some? then [MarketplaceIs(p.marketplace.value)] else [])
    + (if p.category.Some? then [IdAny(p.category.value)] else [])
  }

  /** Position a in the sort comes strictly before position b: key direction, NULLs last, id ascending. */
  predicate Before(desc: bool, ka: Option<KeyValue>, ida: Id, kb: Option<KeyValue>, idb: Id) {
    if ka.None? && kb.None? then ida < idb
    else if ka.None? then false
    else if kb.None? then true
    else if ka.value == kb.value then ida < idb
    else if desc then ka.value > kb.value else ka.value < kb.value
  }

  predicate RowBefore(spec: SortSpec, r: Listing, c: Cursor) {
    Before(spec.desc, SortValue(spec.key, r), r.id, c.value, c.id)
  }

  predicate RowAfter(spec: SortSpec, r: Listing, c: Cursor) {
    Before(spec.desc, c.value, c.id, SortValue(spec.key, r), r.id)
  }

  /** All filtered rows in display order. */
  function Display(table: seq<Listing>, p: Params): seq<Listing> {
    var spec := SortSpecOf(p.sort);
    SortRows(OrderClause(spec, false), Where(FilterConds(p), spec.key, table))
  }

  /** How many leading rows are not after the cursor. */
  function UpTo(spec: SortSpec, rows: seq<Listing>, c: Cursor): (n: nat)
    ensures n <= |rows|
  {
    if rows == [] || RowAfter(spec, rows[0], c) then 0 else 1 + UpTo(spec, rows[1..], c)
  }

  /** How many leading rows are before the cursor. */
  function CountBefore(spec: SortSpec, rows: seq<Listing>, c: Cursor): (n: nat)
    ensures n <= |rows|
  {
    if rows == [] || !RowBefore(spec, rows[0], c) then 0 else 1 + CountBefore(spec, rows[1..], c)
  }

  function EffectiveCursor(p: Params): Option<Cursor> {
    if SortSpecOf(p.sort).keyset then p.cursor else None
  }

  /** First and one-past-last position of the page in the display order. */
  function PageStart(table: seq<Listing>, p: Params): (n: nat)
    ensures n <= |Display(table, p)|
  {
    var rows, spec := Display(table, p), SortSpecOf(p.sort);
    match EffectiveCursor(p)
    case None => Min(PageOffset(p), |rows|)
    case Some(c) =>
      if c.backwards then Max(0, CountBefore(spec, rows, c) - PageLimit(p)) else UpTo(spec, rows, c)
  }

  function PageEnd(table: seq<Listing>, p: Params): (n: nat)
    ensures PageStart(table, p) <= n <= |Display(table, p)|
    ensures n <= PageStart(table, p) + PageLimit(p)
  {
    var rows := Display(table, p);
    var c := EffectiveCursor(p);
    if c.Some? && c.value.backwards then CountBefore(SortSpecOf(p.sort), rows, c.value)
    else Min(PageStart(table, p) + PageLimit(p), |rows|)
  }

  function CursorAt(backwards: bool, r: Listing, sort: string): Cursor {
    Cursor(backwards, KeysetValueOf(r, sort), r.id)
  }

  function ExpectedPage(table: seq<Listing>, p: Params): Page {
    var items := Display(table, p)[PageStart(table, p)..PageEnd(table, p)];
    var c := EffectiveCursor(p);
    if SortSpecOf(p.sort).keyset && items != [] then
      var backwards := c.Some? && c.value.backwards;
      Page(items,
           if |items| == PageLimit(p) || backwards then Some(CursorAt(false, items[|items| - 1], p.sort)) else None,
           if c.Some? then Some(CursorAt(true, items[0], p.sort)) else None)
    else Page(items, None, None)
  }

  predicate DistinctListings(rows: seq<Listing>) {
    forall i, j :: 0 <= i < j < |rows| ==> rows[i].id != rows[j].id
  }

  // ----- the predicate and the two orders

  /** keyset_where is true exactly beyond the cursor; unknown and false both reject. */
  lemma KeysetWhereExactly(spec: SortSpec, c: Cursor, r: Listing)
    ensures Eval(KeysetWhere(spec, c), spec.key, r) == True
      <==> if c.backwards then RowBefore(spec, r, c) else RowAfter(spec, r, c)
  {
    var e := KeysetWhere(spec, c);
    if c.value.Some? {
      var beyond := if c.backwards then e else e.left;
      assert Eval(beyond.right, spec.key, r)
          == And3(Eval(beyond.right.left, spec.key, r), Eval(beyond.right.right, spec.key, r));
      assert Eval(beyond, spec.key, r) == Or3(Eval(beyond.left, spec.key, r), Eval(beyond.right, spec.key, r));
    } else if c.backwards {
      assert Eval(e.left, spec.key, r) == And3(Eval(e.left.left, spec.key, r), Eval(e.left.right, spec.key, r));
    }
  }

  /** For keyset sorts the cursor carries the key the rows are sorted by. */
  lemma CursorCarriesSortKey(r: Listing, sort: string)
    requires SortSpecOf(sort).keyset
    ensures KeysetValueOf(r, sort) == SortValue(SortSpecOf(sort).key, r)
  {
  }

  /** The forward ORDER BY is Before, the backward one is its converse. */
  lemma OrderClauseMeaning(spec: SortSpec, a: Listing, b: Listing)
    ensures RowLess(OrderClause(spec, false), a, b)
      <==> Before(spec.desc, SortValue(spec.key, a), a.id, SortValue(spec.key, b), b.id)
    ensures RowLess(OrderClause(spec, true), a, b) <==> RowLess(OrderClause(spec, false), b, a)
  {
  }

  predicate StrictlySorted(o: OrderBy, rows: seq<Listing>) {
    forall i, j :: 0 <= i < j < |rows| ==> RowLess(o, rows[i], rows[j])
  }

  function Rows(rows: seq<Listing>): set<Listing> {
    set r | r in rows
  }

  lemma RowLessTotal(o: OrderBy, a: Listing, b: Listing)
    requires a.id != b.id
    ensures RowLess(o, a, b) <==> !RowLess(o, b, a)
  {
  }

  lemma RowLessTransitive(o: OrderBy, a: Listing, b: Listing, c: Listing)
    requires RowLess(o, a, b) && RowLess(o, b, c)
    ensures RowLess(o, a, c)
  {
  }

  lemma {:induction false} InsertRowSorts(o: OrderBy, sorted: seq<Listing>, r: Listing)
    requires StrictlySorted(o, sorted)
    requires forall i :: 0 <= i < |sorted| ==> sorted[i].id != r.id
    ensures StrictlySorted(o, InsertSorted(o, sorted, r))
    ensures Rows(InsertSorted(o, sorted, r)) == Rows(sorted) + {r}
  {
    if sorted == [] {
    } else if RowLess(o, r, sorted[0]) {
      forall i | 0 < i < |sorted| ensures RowLess(o, r, sorted[i]) {
        RowLessTransitive(o, r, sorted[0], sorted[i]);
      }
    } else {
      var rest := InsertSorted(o, sorted[1..], r);
      InsertRowSorts(o, sorted[1..], r);
      RowLessTotal(o, r, sorted[0]);
      hide InsertSorted;
      StrictlyFirst(o, sorted, r, rest);
    }
  }

  lemma StrictlyFirst(o: OrderBy, sorted: seq<Listing>, r: Listing, rest: seq<Listing>)
    requires sorted != [] && StrictlySorted(o, sorted) && RowLess(o, sorted[0], r)
    requires StrictlySorted(o, rest) && Rows(rest) == Rows(sorted[1..]) + {r}
    ensures StrictlySorted(o, [sorted[0]] + rest)
    ensures Rows([sorted[0]] + rest) == Rows(sorted) + {r}
  {
    hide RowLess;
    forall i | 0 <= i < |rest| ensures RowLess(o, sorted[0], rest[i]) {
      assert rest[i] in Rows(sorted[1..]) + {r};
      if rest[i] != r {
        var j :| 0 <= j < |sorted[1..]| && sorted[1..][j] == rest[i];
        assert sorted[j + 1] == rest[i];
      }
    }
    assert Rows([sorted[0]] + rest) == {sorted[0]} + Rows(rest);
    assert Rows(sorted) == {sorted[0]} + Rows(sorted[1..]);
  }

  lemma {:induction false} SortRowsSorts(o: OrderBy, rows: seq<Listing>)
    requires DistinctListings(rows)
    ensures StrictlySorted(o, SortRows(o, rows))
    ensures Rows(SortRows(o, rows)) == Rows(rows)
  {
    if rows != [] {
      var rest := SortRows(o, rows[1..]);
      SortRowsSorts(o, rows[1..]);
      forall i | 0 <= i < |rest| ensures rest[i].id != rows[0].id {
        assert rest[i] in Rows(rows[1..]);
        var j :| 0 <= j < |rows[1..]| && rows[1..][j] == rest[i];
        assert rows[j + 1] == rest[i];
      }
      InsertRowSorts(o, rest, rows[0]);
      assert Rows(rows) == Rows(rows[1..]) + {rows[0]};
    }
  }

  /** A set of rows has one ordering only. */
  lemma {:induction false} SortedUnique(o: OrderBy, a: seq<Listing>, b: seq<Listing>)
    requires StrictlySorted(o, a) && StrictlySorted(o, b) && Rows(a) == Rows(b)
    ensures a == b
  {
    if a == [] {
      if b != [] {
        SomeRow(b);
        assert false;
      }
    } else {
      assert a[0] in Rows(b);
      assert b != [] && b[0] in Rows(a);
      SameHead(o, a, b);
      TailRows(o, a);
      TailRows(o, b);
      SortedUnique(o, a[1..], b[1..]);
    }
  }

  lemma SomeRow(rows: seq<Listing>)
    requires rows != []
    ensures Rows(rows) != {}
  {
    assert rows[0] in Rows(rows);
  }

  lemma SameHead(o: OrderBy, a: seq<Listing>, b: seq<Listing>)
    requires a != [] && b != [] && StrictlySorted(o, a) && StrictlySorted(o, b)
    requires a[0] in Rows(b) && b[0] in Rows(a)
    ensures a[0] == b[0]
  {
    var i :| 0 <= i < |b| && b[i] == a[0];
    var j :| 0 <= j < |a| && a[j] == b[0];
    if i > 0 && j > 0 {
      RowLessTransitive(o, a[0], b[0], a[0]);
      assert false;
    }
  }

  lemma TailRows(o: OrderBy, a: seq<Listing>)
    requires a != [] && StrictlySorted(o, a)
    ensures Rows(a[1..]) == Rows(a) - {a[0]}
  {
    forall i | 0 < i < |a| ensures a[i] != a[0] {
      assert RowLess(o, a[0], a[i]);
    }
    assert Rows(a) == Rows(a[1..]) + {a[0]};
  }

  lemma {:induction false} WhereMembers(wheres: seq<Cond>, col: Column, rows: seq<Listing>)
    ensures forall r :: r in Where(wheres, col, rows) <==> r in rows && Passes(wheres, col, r)
  {
    if rows != [] {
      WhereMembers(wheres, col, rows[1..]);
      forall r ensures r in rows <==> r == rows[0] || r in rows[1..] {
        if r in rows {
          var i :| 0 <= i < |rows| && rows[i] == r;
          assert i > 0 ==> rows[1..][i - 1] == r;
        }
      }
    }
  }

  lemma {:induction false} WhereDistinct(wheres: seq<Cond>, col: Column, rows: seq<Listing>)
    requires DistinctListings(rows)
    ensures DistinctListings(Where(wheres, col, rows))
  {
    if rows != [] {
      var rest := Where(wheres, col, rows[1..]);
      WhereDistinct(wheres, col, rows[1..]);
      WhereMembers(wheres, col, rows[1..]);
      forall j | 0 <= j < |rest| ensures rest[j].id != rows[0].id {
        assert rest[j] in rest;
        var i :| 0 <= i < |rows[1..]| && rows[1..][i] == rest[j];
        assert rows[i + 1] == rest[j];
      }
    }
  }

  lemma DisplaySorted(table: seq<Listing>, p: Params)
    requires DistinctListings(table)
    ensures StrictlySorted(OrderClause(SortSpecOf(p.sort), false), Display(table, p))
    ensures Rows(Display(table, p)) == Rows(Where(FilterConds(p), SortSpecOf(p.sort).key, table))
  {
    var spec := SortSpecOf(p.sort);
    WhereDistinct(FilterConds(p), spec.key, table);
    SortRowsSorts(OrderClause(spec, false), Where(FilterConds(p), spec.key, table));
  }

  /** Every filtered row is displayed exactly once, nothing else is, and in (key, NULLs last, id) order. */
  lemma DisplayComplete(table: seq<Listing>, p: Params)
    requires DistinctListings(table)
    ensures forall r :: r in Display(table, p) <==> r in table && Passes(FilterConds(p), SortSpecOf(p.sort).key, r)
    ensures var spec, rows := SortSpecOf(p.sort), Display(table, p);
      forall i, j :: 0 <= i < j < |rows| ==>
        (rows[i] != rows[j]
         && Before(spec.desc, SortValue(spec.key, rows[i]), rows[i].id, SortValue(spec.key, rows[j]), rows[j].id))
  {
    var spec, rows := SortSpecOf(p.sort), Display(table, p);
    DisplaySorted(table, p);
    WhereMembers(FilterConds(p), spec.key, table);
    forall r ensures r in rows <==> r in table && Passes(FilterConds(p), spec.key, r) {
      assert r in rows <==> r in Rows(rows);
    }
    forall i, j | 0 <= i < j < |rows|
      ensures rows[i] != rows[j]
        && Before(spec.desc, SortValue(spec.key, rows[i]), rows[i].id, SortValue(spec.key, rows[j]), rows[j].id)
    {
      assert RowLess(OrderClause(spec, false), rows[i], rows[j]);
    }
  }

  // ----- the query answers with a slice of the display order

  lemma {:induction false} UpToMeaning(spec: SortSpec, rows: seq<Listing>, c: Cursor)
    requires StrictlySorted(OrderClause(spec, false), rows)
    ensures forall i :: 0 <= i < |rows| ==> (RowAfter(spec, rows[i], c) <==> i >= UpTo(spec, rows, c))
  {
    if rows != [] {
      if RowAfter(spec, rows[0], c) {
        forall i | 0 < i < |rows| ensures RowAfter(spec, rows[i], c) {
          assert RowLess(OrderClause(spec, false), rows[0], rows[i]);
        }
      } else {
        UpToMeaning(spec, rows[1..], c);
        forall i | 0 < i < |rows| ensures RowAfter(spec, rows[i], c) <==> i >= UpTo(spec, rows, c) {
          assert rows[1..][i - 1] == rows[i];
        }
      }
    }
  }

  lemma {:induction false} CountBeforeMeaning(spec: SortSpec, rows: seq<Listing>, c: Cursor)
    requires StrictlySorted(OrderClause(spec, false), rows)
    ensures forall i :: 0 <= i < |rows| ==> (RowBefore(spec, rows[i], c) <==> i < CountBefore(spec, rows, c))
  {
    if rows != [] {
      if !RowBefore(spec, rows[0], c) {
        forall i | 0 < i < |rows| ensures !RowBefore(spec, rows[i], c) {
          assert RowLess(OrderClause(spec, false), rows[0], rows[i]);
        }
      } else {
        CountBeforeMeaning(spec, rows[1..], c);
        forall i | 0 < i < |rows| ensures RowBefore(spec, rows[i], c) <==> i < CountBefore(spec, rows, c) {
          assert rows[1..][i - 1] == rows[i];
        }
      }
    }
  }

  /** Adding the keyset clause keeps exactly the displayed rows beyond the cursor. */
  lemma BeyondCursor(table: seq<Listing>, p: Params, c: Cursor)
    requires DistinctListings(table)
    ensures var spec := SortSpecOf(p.sort);
      forall r :: r in Where(FilterConds(p) + [KeysetWhere(spec, c)], spec.key, table)
        <==> r in Display(table, p) && (if c.backwards then RowBefore(spec, r, c) else RowAfter(spec, r, c))
  {
    var spec, filters := SortSpecOf(p.sort), FilterConds(p);
    var wheres := filters + [KeysetWhere(spec, c)];
    DisplayComplete(table, p);
    WhereMembers(wheres, spec.key, table);
    forall r
      ensures Passes(wheres, spec.key, r)
        <==> Passes(filters, spec.key, r) && Eval(KeysetWhere(spec, c), spec.key, r) == True
    {
      PassesAppend(filters, KeysetWhere(spec, c), spec.key, r);
    }
    forall r
      ensures Eval(KeysetWhere(spec, c), spec.key, r) == True
        <==> if c.backwards then RowBefore(spec, r, c) else RowAfter(spec, r, c)
    {
      KeysetWhereExactly(spec, c, r);
    }
  }

  lemma PassesAppend(wheres: seq<Cond>, last: Cond, col: Column, r: Listing)
    ensures Passes(wheres + [last], col, r) <==> Passes(wheres, col, r) && Eval(last, col, r) == True
  {
    if Passes(wheres + [last], col, r) {
      forall i | 0 <= i < |wheres| ensures Eval(wheres[i], col, r) == True {
        assert (wheres + [last])[i] == wheres[i];
      }
      assert (wheres + [last])[|wheres|] == last;
    }
  }

  lemma AfterTail(spec: SortSpec, rows: seq<Listing>, c: Cursor)
    requires StrictlySorted(OrderClause(spec, false), rows)
    ensures var tail := rows[UpTo(spec, rows, c)..];
      && StrictlySorted(OrderClause(spec, false), tail)
      && Rows(tail) == set r | r in rows && RowAfter(spec, r, c)
  {
    var n := UpTo(spec, rows, c);
    var tail := rows[n..];
    UpToMeaning(spec, rows, c);
    hide RowAfter, RowLess;
    forall r | r in rows && RowAfter(spec, r, c) ensures r in tail {
      var i :| 0 <= i < |rows| && rows[i] == r;
      assert tail[i - n] == r;
    }
  }

  lemma BeforeHead(spec: SortSpec, rows: seq<Listing>, c: Cursor)
    requires StrictlySorted(OrderClause(spec, false), rows)
    ensures var head := Reversed(rows[..CountBefore(spec, rows, c)]);
      && StrictlySorted(OrderClause(spec, true), head)
      && Rows(head) == set r | r in rows && RowBefore(spec, r, c)
  {
    var n := CountBefore(spec, rows, c);
    var head := Reversed(rows[..n]);
    CountBeforeMeaning(spec, rows, c);
    forall i, j | 0 <= i < j < |head| ensures RowLess(OrderClause(spec, true), head[i], head[j]) {
      OrderClauseMeaning(spec, head[i], head[j]);
    }
    hide RowBefore, RowLess;
    forall r | r in rows && RowBefore(spec, r, c) ensures r in head {
      var i :| 0 <= i < |rows| && rows[i] == r;
      assert head[n - 1 - i] == r;
    }
  }

  lemma ForwardRows(table: seq<Listing>, p: Params, c: Cursor)
    requires DistinctListings(table) && !c.backwards
    ensures var spec := SortSpecOf(p.sort);
      SortRows(OrderClause(spec, false), Where(FilterConds(p) + [KeysetWhere(spec, c)], spec.key, table))
      == Display(table, p)[UpTo(spec, Display(table, p), c)..]
  {
    var spec, rows := SortSpecOf(p.sort), Display(table, p);
    var o, picked := OrderClause(spec, false), Where(FilterConds(p) + [KeysetWhere(spec, c)], spec.key, table);
    hide *;
    DisplaySorted(table, p);
    AfterTail(spec, rows, c);
    BeyondCursor(table, p, c);
    WhereDistinct(FilterConds(p) + [KeysetWhere(spec, c)], spec.key, table);
    SortRowsSorts(o, picked);
    RowsMembers(picked);
    SortedUnique(o, SortRows(o, picked), rows[UpTo(spec, rows, c)..]);
  }

  lemma BackwardRows(table: seq<Listing>, p: Params, c: Cursor)
    requires DistinctListings(table) && c.backwards
    ensures var spec := SortSpecOf(p.sort);
      SortRows(OrderClause(spec, true), Where(FilterConds(p) + [KeysetWhere(spec, c)], spec.key, table))
      == Reversed(Display(table, p)[..CountBefore(spec, Display(table, p), c)])
  {
    var spec, rows := SortSpecOf(p.sort), Display(table, p);
    var o, picked := OrderClause(spec, true), Where(FilterConds(p) + [KeysetWhere(spec, c)], spec.key, table);
    hide *;
    DisplaySorted(table, p);
    BeforeHead(spec, rows, c);
    BeyondCursor(table, p, c);
    WhereDistinct(FilterConds(p) + [KeysetWhere(spec, c)], spec.key, table);
    SortRowsSorts(o, picked);
    RowsMembers(picked);
    SortedUnique(o, SortRows(o, picked), Reversed(rows[..CountBefore(spec, rows, c)]));
  }

  lemma RowsMembers(rows: seq<Listing>)
    ensures forall r :: r in Rows(rows) <==> r in rows
  {
  }

  lemma TakeReversed<T>(s: seq<T>, n: nat)
    ensures Reversed(Take(Reversed(s), n)) == s[Max(0, |s| - n)..]
  {
    hide Reversed;
    var k := Max(0, |s| - n);
    var tail := s[k..];
    assert Take(Reversed(s), n) == Reversed(tail) by {
      ReversedTail(s, k);
    }
    ReversedTwice(tail);
  }

  lemma {:induction false} ReversedTail<T>(s: seq<T>, k: nat)
    requires k <= |s|
    ensures Reversed(s)[..|s| - k] == Reversed(s[k..])
    decreases k
  {
    if k == 0 {
      assert s[0..] == s;
    } else {
      ReversedTail(s[1..], k - 1);
      assert s[1..][k - 1..] == s[k..];
      assert Reversed(s) == Reversed(s[1..]) + [s[0]];
      hide Reversed;
    }
  }

  lemma ReversedTwice<T>(s: seq<T>)
    ensures Reversed(Reversed(s)) == s
  {
    hide Reversed;
    var r := Reversed(s);
    forall i | 0 <= i < |s| ensures Reversed(r)[i] == s[i] {
      assert Reversed(r)[i] == r[|s| - 1 - i];
      assert r[|s| - 1 - i] == s[i];
    }
  }

  // ----- placeholders and bound values

  /** A clause of the WHERE text; numbers are 1-based placeholder positions. */
  datatype Clause =
    | ActiveClause | IdsClause(bind: nat) | MarketplaceClause(bind: nat) | CategoryClause(bind: nat)
    | KeysetClause(backwards: bool, valueBind: Option<nat>, idBind: nat)

  datatype Bound =
    | BoundIds(ids: set<Id>) | BoundMarketplace(id: Id) | BoundPattern(ids: set<Id>)
    | BoundKey(v: KeyValue) | BoundRow(id: Id)

  predicate At(values: seq<Bound>, n: nat, kind: Bound -> bool) {
    1 <= n <= |values| && kind(values[n - 1])
  }

  /** Every placeholder finds a value of its kind at its position. */
  predicate Bindable(clause: Clause, values: seq<Bound>) {
    match clause
    case ActiveClause => true
    case IdsClause(n) => At(values, n, (b: Bound) => b.BoundIds?)
    case MarketplaceClause(n) => At(values, n, (b: Bound) => b.BoundMarketplace?)
    case CategoryClause(n) => At(values, n, (b: Bound) => b.BoundPattern?)
    case KeysetClause(_, vn, n) =>
      At(values, n, (b: Bound) => b.BoundRow?) && (vn.Some? ==> At(values, vn.value, (b: Bound) => b.BoundKey?))
  }

  function Resolve(spec: SortSpec, clause: Clause, values: seq<Bound>): Cond
    requires Bindable(clause, values)
  {
    match clause
    case ActiveClause => IsActive
    case IdsClause(n) => IdAny(values[n - 1].ids)
    case MarketplaceClause(n) => MarketplaceIs(values[n - 1].id)
    case CategoryClause(n) => IdAny(values[n - 1].ids)
    case KeysetClause(backwards, vn, n) =>
      KeysetWhere(spec, Cursor(backwards, if vn.Some? then Some(values[vn.value - 1].v) else None, values[n - 1].id))
  }

  /** The clauses with these values bound are these conditions. */
  predicate Means(spec: SortSpec, clauses: seq<Clause>, values: seq<Bound>, conds: seq<Cond>) {
    && |clauses| == |conds|
    && forall i :: 0 <= i < |clauses| ==> Bindable(clauses[i], values) && Resolve(spec, clauses[i], values) == conds[i]
  }

  lemma MeansMore(spec: SortSpec, clauses: seq<Clause>, values: seq<Bound>, conds: seq<Cond>, more: seq<Bound>,
                  clause: Clause, cond: Cond)
    requires Means(spec, clauses, values, conds)
    requires Bindable(clause, values + more) && Resolve(spec, clause, values + more) == cond
    ensures Means(spec, clauses + [clause], values + more, conds + [cond])
  {
    forall i | 0 <= i < |clauses|
      ensures Bindable(clauses[i], values + more) && Resolve(spec, clauses[i], values + more) == conds[i]
    {
      assert Bindable(clauses[i], values);
      BindableMore(spec, clauses[i], values, more);
    }
  }

  lemma BindableMore(spec: SortSpec, clause: Clause, values: seq<Bound>, more: seq<Bound>)
    requires Bindable(clause, values)
    ensures Bindable(clause, values + more) && Resolve(spec, clause, values + more) == Resolve(spec, clause, values)
  {
    hide KeysetWhere;
  }

  /** What the count query binds, in its own order. */
  function FilterValues(p: Params): seq<Bound> {
    (if p.searchIds.Some? then [BoundIds(p.searchIds.value)] else [])
    + (if p.marketplace.Some? then [BoundMarketplace(p.marketplace.value)] else [])
    + (if p.category.Some? then [BoundPattern(p.category.value)] else [])
  }

  /** What the page query binds behind the filters. */
  function CursorValues(cursor: Option<Cursor>): seq<Bound> {
    if cursor.None? then []
    else (if cursor.value.value.Some? then [BoundKey(cursor.value.value.value)] else []) + [BoundRow(cursor.value.id)]
  }

  function KeysetConds(spec: SortSpec, cursor: Option<Cursor>): seq<Cond> {
    if cursor.None? then [] else [KeysetWhere(spec, cursor.value)]
  }

  /** One conditional filter clause: the next number, for the value bound next. */
  method PushFilter(spec: SortSpec, clauses: seq<Clause>, bindNo: nat, clause: Clause, ghost value: Bound,
                    ghost values: seq<Bound>, ghost conds: seq<Cond>)
    returns (clauses': seq<Clause>, bindNo': nat)
    requires bindNo == |values| && Means(spec, clauses, values, conds)
    requires match clause
      case IdsClause(n) => n == bindNo + 1 && value.BoundIds?
      case MarketplaceClause(n) => n == bindNo + 1 && value.BoundMarketplace?
      case CategoryClause(n) => n == bindNo + 1 && value.BoundPattern?
      case _ => false
    ensures bindNo' == |values + [value]| && Bindable(clause, values + [value])
    ensures Means(spec, clauses', values + [value], conds + [Resolve(spec, clause, values + [value])])
    ensures clauses' == clauses + [clause]
  {
    MeansMore(spec, clauses, values, conds, [value], clause, Resolve(spec, clause, values + [value]));
    clauses', bindNo' := clauses + [clause], bindNo + 1;
  }

  method AssembleFilters(p: Params, spec: SortSpec) returns (clauses: seq<Clause>, bindNo: nat)
    ensures bindNo == |FilterValues(p)|
    ensures Means(spec, clauses, FilterValues(p), FilterConds(p))
  {
    hide Means, KeysetWhere;
    clauses, bindNo := [ActiveClause], 0;
    ghost var values: seq<Bound>, conds := [], [IsActive];
    assert Means(spec, clauses, values, conds) by {
      JustActive(spec);
    }
    if p.searchIds.Some? {
      var ids := BoundIds(p.searchIds.value);
      clauses, bindNo := PushFilter(spec, clauses, bindNo, IdsClause(bindNo + 1), ids, values, conds);
      values, conds := values + [BoundIds(p.searchIds.value)], conds + [IdAny(p.searchIds.value)];
    }
    if p.marketplace.Some? {
      ghost var value := BoundMarketplace(p.marketplace.value);
      clauses, bindNo := PushFilter(spec, clauses, bindNo, MarketplaceClause(bindNo + 1), value, values, conds);
      values, conds := values + [value], conds + [MarketplaceIs(p.marketplace.value)];
    }
    if p.category.Some? {
      ghost var value := BoundPattern(p.category.value);
      clauses, bindNo := PushFilter(spec, clauses, bindNo, CategoryClause(bindNo + 1), value, values, conds);
      values, conds := values + [value], conds + [IdAny(p.category.value)];
    }
    assert values == FilterValues(p) && conds == FilterConds(p);
  }

  lemma JustActive(spec: SortSpec)
    ensures Means(spec, [ActiveClause], [], [IsActive])
  {
  }

  /**
   WHERE assembly: placeholders are numbered while clauses are pushed and values are bound later, by
   two queries; each query's numbers meet their values.
   */
  method AssembleWheres(p: Params, spec: SortSpec, cursor: Option<Cursor>)
    returns (clauses: seq<Clause>, filterEnd: nat)
    ensures filterEnd <= |clauses|
    ensures Means(spec, clauses[..filterEnd], FilterValues(p), FilterConds(p))
    ensures Means(spec, clauses, FilterValues(p) + CursorValues(cursor), FilterConds(p) + KeysetConds(spec, cursor))
  {
    var bindNo;
    clauses, bindNo := AssembleFilters(p, spec);
    ghost var filters, values, conds := clauses, FilterValues(p), FilterConds(p);
    filterEnd := 1 + (if p.searchIds.Some? then 1 else 0) + (if p.marketplace.Some? then 1 else 0)
      + (if p.category.Some? then 1 else 0);
    assert filterEnd == |conds| == |clauses|;
    hide FilterValues, FilterConds, KeysetWhere;
    if cursor.Some? {
      var c, valueBind := cursor.value, None;
      if c.value.Some? {
        bindNo := bindNo + 1;
        valueBind := Some(bindNo);
      }
      bindNo := bindNo + 1;
      var clause := KeysetClause(c.backwards, valueBind, bindNo);
      MeansMore(spec, clauses, values, conds, CursorValues(cursor), clause, KeysetWhere(spec, c));
      clauses := clauses + [clause];
    }
    assert clauses[..filterEnd] == filters;
    assert values + [] == values && conds + [] == conds;
  }

  function ResolveAll(spec: SortSpec, clauses: seq<Clause>, values: seq<Bound>): seq<Cond>
    requires forall i :: 0 <= i < |clauses| ==> Bindable(clauses[i], values)
  {
    seq(|clauses|, i requires 0 <= i < |clauses| => Resolve(spec, clauses[i], values))
  }

  lemma ResolveMeans(spec: SortSpec, clauses: seq<Clause>, values: seq<Bound>, conds: seq<Cond>)
    requires Means(spec, clauses, values, conds)
    ensures ResolveAll(spec, clauses, values) == conds
  {
    hide Bindable, Resolve;
  }

  /** pool_products: clause assembly, query, reversal, total and cursors. */
  method PoolProducts(table: seq<Listing>, p: Params, skipTotal: bool, poolStat: Option<nat>, searchCapped: bool)
    returns (page: Page, total: Option<nat>, totalIsEstimate: bool)
    requires DistinctListings(table)
    ensures page == ExpectedPage(table, p)
    ensures var unfiltered := p.searchIds.None? && p.marketplace.None? && p.category.None?;
      var n := |Where(FilterConds(p), SortSpecOf(p.sort).key, table)|;
      if skipTotal then total == None
      else if unfiltered && poolStat.Some? then total == poolStat && totalIsEstimate
      else total == Some(Min(n, COUNT_CAP - 1)) && (totalIsEstimate <==> n >= COUNT_CAP || searchCapped)
  {
    hide Display, PageStart, PageEnd, PageLimit, PageOffset, SortSpecOf, CursorAt, KeysetWhere, Query, Where, Reversed,
      FilterConds, FilterValues, CursorValues, ResolveAll, Bindable, Resolve;
    var limit, offset, spec := PageLimit(p), PageOffset(p), SortSpecOf(p.sort);
    var cursor := if spec.keyset then p.cursor else None;
    var backwards := cursor.Some? && cursor.value.backwards;
    var clauses, filterEnd := AssembleWheres(p, spec, cursor);
    var filterValues := FilterValues(p);
    ResolveMeans(spec, clauses[..filterEnd], filterValues, FilterConds(p));
    var allValues := filterValues + CursorValues(cursor);
    ResolveMeans(spec, clauses, allValues, FilterConds(p) + KeysetConds(spec, cursor));
    var wheres := ResolveAll(spec, clauses, allValues);
    var items := Query(table, wheres, OrderClause(spec, backwards), limit, if cursor.None? then offset else 0);
    if backwards {
      items := Reversed(items);
    }
    PageIsSlice(table, p, wheres, items);

    total, totalIsEstimate := None, false;
    if !skipTotal {
      if p.searchIds.None? && p.marketplace.None? && p.category.None? && poolStat.Some? {
        total, totalIsEstimate := poolStat, true;
      } else {
        var filters := ResolveAll(spec, clauses[..filterEnd], filterValues);
        var t := |Take(Where(filters, spec.key, table), COUNT_CAP)|;
        totalIsEstimate := t >= COUNT_CAP || searchCapped;
        total := Some(Min(t, COUNT_CAP - 1));
      }
    }

    var next, prev := None, None;
    if spec.keyset && items != [] {
      var first, last := items[0], items[|items| - 1];
      if |items| == limit || backwards {
        next := Some(CursorAt(false, last, p.sort));
      }
      if cursor.Some? {
        prev := Some(CursorAt(true, first, p.sort));
      }
    }
    page := Page(items, next, prev);
  }

  lemma PageIsSlice(table: seq<Listing>, p: Params, wheres: seq<Cond>, items: seq<Listing>)
    requires DistinctListings(table)
    requires var spec := SortSpecOf(p.sort);
      var c := EffectiveCursor(p);
      var backwards := c.Some? && c.value.backwards;
      var raw := Query(table, wheres, OrderClause(spec, backwards), PageLimit(p), if c.None? then PageOffset(p) else 0);
      && wheres == FilterConds(p) + (if c.None? then [] else [KeysetWhere(spec, c.value)])
      && items == if backwards then Reversed(raw) else raw
    ensures items == Display(table, p)[PageStart(table, p)..PageEnd(table, p)]
  {
    var c, rows, limit := EffectiveCursor(p), Display(table, p), PageLimit(p);
    hide SortRows, Where, KeysetWhere, UpTo, CountBefore, PageLimit, PageOffset, Reversed;
    if c.None? {
      assert wheres == FilterConds(p);
    } else if c.value.backwards {
      BackwardRows(table, p, c.value);
      var n := CountBefore(SortSpecOf(p.sort), rows, c.value);
      assert Reversed(rows[..n])[0..] == Reversed(rows[..n]);
      TakeReversed(rows[..n], limit);
    } else {
      ForwardRows(table, p, c.value);
    }
  }

  // ----- walking the pages

  /** The same request with a cursor from a page. */
  function Following(p: Params, c: Cursor): Params {
    p.(cursor := Some(c))
  }

  /** The k-th page reached by next cursors. */
  function PageNo(table: seq<Listing>, p: Params, k: nat): Option<Page> {
    if k == 0 then Some(ExpectedPage(table, p))
    else
      var before := PageNo(table, p, k - 1);
      if before.Some? && before.value.next.Some?
      then Some(ExpectedPage(table, Following(p, before.value.next.value)))
      else None
  }

  /** A forward cursor taken from displayed row i continues at row i + 1, a backward one ends before row i. */
  lemma CursorPosition(table: seq<Listing>, p: Params, i: nat)
    requires DistinctListings(table) && SortSpecOf(p.sort).keyset && i < |Display(table, p)|
    ensures var spec, rows := SortSpecOf(p.sort), Display(table, p);
      && UpTo(spec, rows, CursorAt(false, rows[i], p.sort)) == i + 1
      && CountBefore(spec, rows, CursorAt(true, rows[i], p.sort)) == i
  {
    var spec, rows := SortSpecOf(p.sort), Display(table, p);
    var c, d := CursorAt(false, rows[i], p.sort), CursorAt(true, rows[i], p.sort);
    DisplaySorted(table, p);
    CursorCarriesSortKey(rows[i], p.sort);
    UpToMeaning(spec, rows, c);
    CountBeforeMeaning(spec, rows, d);
    assert !RowAfter(spec, rows[i], c) && !RowBefore(spec, rows[i], d);
    if i + 1 < |rows| {
      assert RowLess(OrderClause(spec, false), rows[i], rows[i + 1]);
      assert RowAfter(spec, rows[i + 1], c);
    }
    if i > 0 {
      assert RowLess(OrderClause(spec, false), rows[i - 1], rows[i]);
      assert RowBefore(spec, rows[i - 1], d);
    }
  }

  /** The forward page that starts at a position of the display order. */
  predicate ForwardPage(rows: seq<Listing>, p: Params, from: nat, page: Page) {
    var end := from + PageLimit(p);
    && from <= |rows|
    && page.items == rows[from..Min(end, |rows|)]
    && page.next == if end <= |rows| then Some(CursorAt(false, rows[end - 1], p.sort)) else None
  }

  lemma FirstPage(table: seq<Listing>, p: Params)
    requires SortSpecOf(p.sort).keyset && p.cursor.None? && PageOffset(p) == 0
    ensures ForwardPage(Display(table, p), p, 0, ExpectedPage(table, p))
  {
    hide Display, PageLimit, PageOffset, KeysetValueOf, SortSpecOf;
  }

  /** A request with a cursor at a displayed row: same order, same limit, and where its page lies. */
  lemma CursorRequest(table: seq<Listing>, p: Params, i: nat, backwards: bool)
    requires DistinctListings(table) && SortSpecOf(p.sort).keyset && i < |Display(table, p)|
    ensures var rows, q := Display(table, p), Following(p, CursorAt(backwards, Display(table, p)[i], p.sort));
      && Display(table, q) == rows && PageLimit(q) == PageLimit(p) && q.sort == p.sort
      && EffectiveCursor(q) == Some(CursorAt(backwards, rows[i], p.sort))
      && CursorAt(backwards, rows[i], p.sort).backwards == backwards
      && PageStart(table, q) == (if backwards then Max(0, i - PageLimit(p)) else i + 1)
      && PageEnd(table, q) == if backwards then i else Min(i + 1 + PageLimit(p), |rows|)
  {
    CursorPosition(table, p, i);
    hide SortRows, Where, FilterConds, UpTo, CountBefore, KeysetValueOf, PageOffset;
  }

  lemma PageOf(table: seq<Listing>, q: Params)
    requires SortSpecOf(q.sort).keyset && EffectiveCursor(q).Some?
    ensures var rows, a, b := Display(table, q), PageStart(table, q), PageEnd(table, q);
      var page := ExpectedPage(table, q);
      && page.items == rows[a..b]
      && page.next == (if a < b && (b - a == PageLimit(q) || EffectiveCursor(q).value.backwards)
                       then Some(CursorAt(false, rows[b - 1], q.sort)) else None)
      && page.prev == if a < b then Some(CursorAt(true, rows[a], q.sort)) else None
  {
    var rows, a, b := Display(table, q), PageStart(table, q), PageEnd(table, q);
    assert a < b ==> rows[a..b][0] == rows[a] && rows[a..b][b - a - 1] == rows[b - 1];
    hide Display, PageStart, PageEnd, PageLimit, EffectiveCursor, CursorAt;
  }

  lemma NextPage(table: seq<Listing>, p: Params, i: nat)
    requires DistinctListings(table) && SortSpecOf(p.sort).keyset && i < |Display(table, p)|
    ensures var page := ExpectedPage(table, Following(p, CursorAt(false, Display(table, p)[i], p.sort)));
      && ForwardPage(Display(table, p), p, i + 1, page)
      && (page.items != [] ==> page.prev == Some(CursorAt(true, Display(table, p)[i + 1], p.sort)))
  {
    CursorRequest(table, p, i, false);
    PageOf(table, Following(p, CursorAt(false, Display(table, p)[i], p.sort)));
    hide Display, ExpectedPage, PageLimit, PageStart, PageEnd, EffectiveCursor, CursorAt, SortSpecOf, DistinctListings,
      Following;
  }

  /** The backward page that ends in front of a position of the display order. */
  predicate BackwardPage(rows: seq<Listing>, p: Params, end: nat, page: Page) {
    var start := Max(0, end - PageLimit(p));
    && end <= |rows|
    && page.items == rows[start..end]
    && page.next == (if end > 0 then Some(CursorAt(false, rows[end - 1], p.sort)) else None)
    && page.prev == if end > 0 then Some(CursorAt(true, rows[start], p.sort)) else None
  }

  lemma PrevPage(table: seq<Listing>, p: Params, i: nat)
    requires DistinctListings(table) && SortSpecOf(p.sort).keyset && i < |Display(table, p)|
    ensures var c := CursorAt(true, Display(table, p)[i], p.sort);
      BackwardPage(Display(table, p), p, i, ExpectedPage(table, Following(p, c)))
  {
    CursorRequest(table, p, i, true);
    PageOf(table, Following(p, CursorAt(true, Display(table, p)[i], p.sort)));
    hide Display, ExpectedPage, PageLimit, PageStart, PageEnd, EffectiveCursor, CursorAt, SortSpecOf, DistinctListings,
      Following;
  }

  /** k pages' worth of rows. */
  function Times(k: nat, limit: nat): nat {
    if k == 0 then 0 else Times(k - 1, limit) + limit
  }

  lemma {:induction false} TimesIsProduct(k: nat, limit: nat)
    ensures Times(k, limit) == k * limit
  {
    if k > 0 {
      TimesIsProduct(k - 1, limit);
    }
  }

  /** Page k starts at row k * limit, and exists as long as that is no further than the end. */
  lemma {:induction false} PageNoIsChunk(table: seq<Listing>, p: Params, k: nat)
    requires DistinctListings(table) && SortSpecOf(p.sort).keyset
    requires p.cursor.None? && PageOffset(p) == 0
    ensures var from := Times(k, PageLimit(p));
      if from <= |Display(table, p)|
      then PageNo(table, p, k).Some? && ForwardPage(Display(table, p), p, from, PageNo(table, p, k).value)
      else PageNo(table, p, k) == None
  {
    hide Display, ExpectedPage, PageLimit, PageOffset, SortSpecOf, KeysetValueOf, DistinctListings;
    if k == 0 {
      FirstPage(table, p);
    } else {
      PageNoIsChunk(table, p, k - 1);
      var from := Times(k, PageLimit(p));
      if from <= |Display(table, p)| {
        NextPage(table, p, from - 1);
      }
    }
  }

  function ItemsOfPages(table: seq<Listing>, p: Params, pages: nat): seq<Listing> {
    if pages == 0 then []
    else
      var last := PageNo(table, p, pages - 1);
      ItemsOfPages(table, p, pages - 1) + (if last.Some? then last.value.items else [])
  }

  lemma {:induction false} PagesConcatenate(table: seq<Listing>, p: Params, pages: nat)
    requires DistinctListings(table) && SortSpecOf(p.sort).keyset
    requires p.cursor.None? && PageOffset(p) == 0
    ensures ItemsOfPages(table, p, pages)
         == Display(table, p)[..Min(Times(pages, PageLimit(p)), |Display(table, p)|)]
  {
    hide Display, PageNo, PageLimit, PageOffset, SortSpecOf, KeysetValueOf, DistinctListings;
    if pages > 0 {
      PagesConcatenate(table, p, pages - 1);
      PageNoIsChunk(table, p, pages - 1);
      var rows, from := Display(table, p), Times(pages - 1, PageLimit(p));
      if from <= |rows| {
        var end := Min(from + PageLimit(p), |rows|);
        assert rows[..from] + rows[from..end] == rows[..end];
      }
    }
  }

  lemma FloorBounds(n: nat, limit: nat, k: nat)
    requires limit >= 1
    ensures k <= n / limit <==> Times(k, limit) <= n
  {
    TimesIsProduct(k, limit);
    if k <= n / limit {
      MulMonotone(k, n / limit, limit);
    } else {
      MulMonotone(n / limit + 1, k, limit);
    }
  }

  lemma MulMonotone(a: nat, b: nat, limit: nat)
    requires a <= b
    ensures a * limit <= b * limit
  {
  }

  /**
   Main result on walks: following next cursors from the start shows every filtered row exactly
   once, in display order, and ends after floor(n / limit) + 1 pages.
   */
  lemma WalkShowsEverythingOnce(table: seq<Listing>, p: Params, pages: nat)
    requires DistinctListings(table) && SortSpecOf(p.sort).keyset
    requires p.cursor.None? && PageOffset(p) == 0
    requires pages == |Display(table, p)| / PageLimit(p) + 1
    ensures forall k :: 0 <= k < pages ==> PageNo(table, p, k).Some?
    ensures PageNo(table, p, pages) == None
    ensures ItemsOfPages(table, p, pages) == Display(table, p)
  {
    hide Display, PageNo, PageLimit, PageOffset, SortSpecOf, KeysetValueOf, DistinctListings;
    var n, limit := |Display(table, p)|, PageLimit(p);
    forall k | 0 <= k < pages ensures PageNo(table, p, k).Some? {
      FloorBounds(n, limit, k);
      PageNoIsChunk(table, p, k);
    }
    FloorBounds(n, limit, pages);
    PageNoIsChunk(table, p, pages);
    PagesConcatenate(table, p, pages);
  }

  /** A page that offers a next cursor is full or starts the display order; the cursor is its last row. */
  lemma NextStartsAtEnd(table: seq<Listing>, p: Params)
    requires ExpectedPage(table, p).next.Some?
    ensures var rows, a, b := Display(table, p), PageStart(table, p), PageEnd(table, p);
      && a < b && a == Max(0, b - PageLimit(p))
      && SortSpecOf(p.sort).keyset
      && ExpectedPage(table, p).items == rows[a..b]
      && ExpectedPage(table, p).next == Some(CursorAt(false, rows[b - 1], p.sort))
  {
    hide Display, PageOffset, KeysetValueOf, CountBefore, UpTo, SortSpecOf;
  }

  /**
   Main result on turning back: from whatever page a next cursor led on to a non-empty page, the
   prev cursor of that page shows the first page again, and its next cursor leads on as before.
   */
  lemma PrevUndoesNext(table: seq<Listing>, p: Params)
    requires DistinctListings(table)
    requires ExpectedPage(table, p).next.Some?
    requires ExpectedPage(table, Following(p, ExpectedPage(table, p).next.value)).items != []
    ensures var here := ExpectedPage(table, p);
      var there := ExpectedPage(table, Following(p, here.next.value));
      && there.prev.Some?
      && ExpectedPage(table, Following(p, there.prev.value)).items == here.items
      && ExpectedPage(table, Following(p, there.prev.value)).next == here.next
  {
    hide Display, ExpectedPage, PageLimit, PageStart, PageEnd, SortSpecOf, CursorAt, DistinctListings;
    var b := PageEnd(table, p);
    NextStartsAtEnd(table, p);
    NextPage(table, p, b - 1);
    PrevPage(table, p, b);
  }

  // ----- walking back

  /** The k-th page reached by prev cursors. */
  function PrevNo(table: seq<Listing>, p: Params, k: nat): Option<Page> {
    if k == 0 then Some(ExpectedPage(table, p))
    else
      var before := PrevNo(table, p, k - 1);
      if before.Some? && before.value.prev.Some?
      then Some(ExpectedPage(table, Following(p, before.value.prev.value)))
      else None
  }

  /** The first row shown after going back k pages from row i. */
  function RowBack(i: nat, k: nat, limit: nat): nat {
    Max(0, i - Times(k, limit))
  }

  lemma PrevCursorAtStart(table: seq<Listing>, p: Params)
    requires ExpectedPage(table, p).prev.Some?
    ensures SortSpecOf(p.sort).keyset && PageStart(table, p) < |Display(table, p)|
    ensures ExpectedPage(table, p).prev == Some(CursorAt(true, Display(table, p)[PageStart(table, p)], p.sort))
  {
    hide Display, PageLimit, PageStart, PageEnd, CursorAt, SortSpecOf, EffectiveCursor;
  }

  /** The page k + 1 steps back ends in front of the row where the page k steps back began. */
  lemma {:induction false} PrevNoIsChunk(table: seq<Listing>, p: Params, k: nat)
    requires DistinctListings(table) && ExpectedPage(table, p).prev.Some?
    ensures var i, limit := PageStart(table, p), PageLimit(p);
      if k == 0 || RowBack(i, k - 1, limit) > 0
      then PrevNo(table, p, k + 1).Some?
           && BackwardPage(Display(table, p), p, RowBack(i, k, limit), PrevNo(table, p, k + 1).value)
      else PrevNo(table, p, k + 1) == None
  {
    hide *;
    var i, limit := PageStart(table, p), PageLimit(p);
    PrevCursorAtStart(table, p);
    PrevNoNext(table, p, k);
    RowBackNext(i, k, limit);
    if k == 0 {
      PrevPage(table, p, i);
    } else {
      PrevNoIsChunk(table, p, k - 1);
      RowBackNext(i, k - 1, limit);
      var end := RowBack(i, k - 1, limit);
      if k == 1 || RowBack(i, k - 2, limit) > 0 {
        BackwardPrev(Display(table, p), p, end, PrevNo(table, p, k).value);
        if end > 0 {
          PrevPage(table, p, RowBack(i, k, limit));
        }
      }
    }
  }

  lemma PrevNoNext(table: seq<Listing>, p: Params, k: nat)
    ensures PrevNo(table, p, 0) == Some(ExpectedPage(table, p))
    ensures var before := PrevNo(table, p, k);
      PrevNo(table, p, k + 1)
      == if before.Some? && before.value.prev.Some?
         then Some(ExpectedPage(table, Following(p, before.value.prev.value))) else None
  {
    hide ExpectedPage, Following;
  }

  lemma RowBackNext(i: nat, k: nat, limit: nat)
    ensures RowBack(i, k, limit) <= i
    ensures RowBack(i, k, limit) == if k == 0 then i else Max(0, RowBack(i, k - 1, limit) - limit)
    ensures k > 0 ==> RowBack(i, k, limit) <= RowBack(i, k - 1, limit)
  {
  }

  lemma BackwardPrev(rows: seq<Listing>, p: Params, end: nat, page: Page)
    requires BackwardPage(rows, p, end, page)
    ensures end <= |rows|
    ensures var start := Max(0, end - PageLimit(p));
      && page.items == rows[start..end]
      && page.prev == if end > 0 then Some(CursorAt(true, rows[start], p.sort)) else None
  {
    hide PageLimit, CursorAt;
  }

  /** The items of the first k pages back, in display order. */
  function ItemsBack(table: seq<Listing>, p: Params, k: nat): seq<Listing> {
    if k == 0 then []
    else
      var last := PrevNo(table, p, k);
      (if last.Some? then last.value.items else []) + ItemsBack(table, p, k - 1)
  }

  lemma {:induction false} PagesBackConcatenate(table: seq<Listing>, p: Params, k: nat)
    requires DistinctListings(table) && ExpectedPage(table, p).prev.Some?
    ensures PageStart(table, p) <= |Display(table, p)|
    ensures ItemsBack(table, p, k)
         == Display(table, p)[RowBack(PageStart(table, p), k, PageLimit(p))..PageStart(table, p)]
  {
    hide *;
    var rows, i, limit := Display(table, p), PageStart(table, p), PageLimit(p);
    PrevCursorAtStart(table, p);
    RowBackNext(i, k, limit);
    ItemsBackNext(table, p, k);
    if k == 0 {
      assert rows[i..i] == [];
    } else {
      PagesBackConcatenate(table, p, k - 1);
      PrevNoIsChunk(table, p, k - 1);
      var start: nat, end: nat := RowBack(i, k, limit), RowBack(i, k - 1, limit);
      RowBackNext(i, k - 1, limit);
      if k == 1 || RowBack(i, k - 2, limit) > 0 {
        BackwardPrev(rows, p, end, PrevNo(table, p, k).value);
        assert rows[start..end] + rows[end..i] == rows[start..i];
      }
    }
  }

  lemma ItemsBackNext(table: seq<Listing>, p: Params, k: nat)
    ensures var last := PrevNo(table, p, k);
      ItemsBack(table, p, k)
      == if k == 0 then [] else (if last.Some? then last.value.items else []) + ItemsBack(table, p, k - 1)
  {
    hide PrevNo;
  }

  lemma CeilBounds(n: nat, limit: nat, k: nat)
    requires limit >= 1
    ensures k >= (n + limit - 1) / limit <==> Times(k, limit) >= n
  {
    FloorBounds(n + limit - 1, limit, k + 1);
  }

  /**
   Main result on walking back: from any page that offers a prev cursor, following prev cursors shows
   every earlier row exactly once, page by page in reverse, in ceil(i / limit) pages when the page
   starts at row i; one more page is empty and offers nothing.
   */
  lemma WalkBackShowsEverythingOnce(table: seq<Listing>, p: Params, pages: nat)
    requires DistinctListings(table) && ExpectedPage(table, p).prev.Some?
    requires pages == (PageStart(table, p) + PageLimit(p) - 1) / PageLimit(p)
    ensures forall k :: 0 < k <= pages ==> PrevNo(table, p, k).Some? && PrevNo(table, p, k).value.items != []
    ensures PageStart(table, p) <= |Display(table, p)|
    ensures ItemsBack(table, p, pages) == Display(table, p)[..PageStart(table, p)]
    ensures PrevNo(table, p, pages + 1) == Some(Page([], None, None))
    ensures PrevNo(table, p, pages + 2) == None
  {
    hide Display, ExpectedPage, PrevNo, PageLimit, PageStart, PageEnd, SortSpecOf, CursorAt, DistinctListings;
    var i, limit := PageStart(table, p), PageLimit(p);
    forall k | 0 < k <= pages ensures PrevNo(table, p, k).Some? && PrevNo(table, p, k).value.items != [] {
      CeilBounds(i, limit, k - 1);
      if k > 1 {
        CeilBounds(i, limit, k - 2);
      }
      PrevNoIsChunk(table, p, k - 1);
    }
    PagesBackConcatenate(table, p, pages);
    CeilBounds(i, limit, pages);
    if pages > 0 {
      CeilBounds(i, limit, pages - 1);
    }
    PrevNoIsChunk(table, p, pages);
    PrevNoIsChunk(table, p, pages + 1);
  }
}
