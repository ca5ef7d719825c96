/**
 What an accepted call writes, said on the call's own entries: which rows go, which rows change, which cell
 each named column takes, what is counted, and which calls are refused.
 */
module GateWrites {
  import opened Common
  import opened CanonicalEncoding
  import opened WriteGate
  import opened GateTables

  // ----- names

  function TableName(t: Table): Option<string> {
    match t
    case FactPrice => Some("fact_price")
    case CurrencyRate => Some("fact_currency_rate")
    case CryptoPrice => Some("fact_crypto_price")
    case CommodityPrice => Some("fact_commodity_price")
    case DimDate => Some("dim_date")
    case DimProduct => Some("dim_product")
    case DimMarketplace => Some("dim_marketplace")
    case ScrapeJobs => Some("scrape_jobs")
    case FactListing => Some("fact_listing")
    case Users => Some("users")
    case ScrapeLogs => Some("scrape_logs")
    case ApiLogs => Some("api_logs")
    case ServiceAlerts => Some("service_alerts")
    case RejectData => Some("reject_data")
    case AiChatSessions => Some("ai_chat_sessions")
    case AiChatMessages => Some("ai_chat_messages")
    case UnknownTable => None
  }

  lemma TableNames(name: Option<string>, t: Table)
    requires t != UnknownTable
    ensures TableOf(name) == t <==> name == TableName(t)
  {
  }

  // ----- who may do what, operation by operation

  predicate MayUpdate(t: Table) {
    t == DimProduct || t == DimMarketplace || t == ScrapeJobs || t == FactListing || t == Users
  }

  predicate IsPriceTable(t: Table) {
    t == FactPrice || t == CurrencyRate || t == CryptoPrice || t == CommodityPrice
  }

  predicate MayExpire(t: Table) {
    t == ScrapeLogs || t == ApiLogs || t == ServiceAlerts || t == RejectData
  }

  predicate Permitted(t: Table, operation: Option<string>) {
    if operation == Some("insert") then t != UnknownTable && t != RejectData
    else if operation == Some("update") then MayUpdate(t)
    else if operation == Some("delete") then MayUpdate(t) || IsPriceTable(t)
    else if operation == Some("retention_delete") then MayExpire(t)
    else operation.None? && t != UnknownTable
  }

  /** The columns that find a row of an updatable or deletable table. */
  function FindingKeys(t: Table): seq<string> {
    match t
    case FactListing => ["url_hash"]
    case FactPrice => ["listing_id", "date_id"]
    case CurrencyRate => ["date_id", "currency_code", "source"]
    case CryptoPrice | CommodityPrice => ["date_id", "symbol", "source"]
    case _ => ["id"]
  }

  lemma PermittedExactly(t: Table, operation: Option<string>)
    ensures OperationAllowed(t, OperationOf(operation)) != Some(false) <==> Permitted(t, operation)
  {
    OperationNames(operation);
    ListedWrites(t);
    ListedDeletes(t);
    hide OperationOf, Listed;
  }

  lemma OperationNames(operation: Option<string>)
    ensures OperationOf(operation)
         == if operation == Some("insert") then Insert
            else if operation == Some("update") then Update
            else if operation == Some("delete") then Delete
            else if operation == Some("retention_delete") then RetentionDelete
            else if operation.None? then NullOperation
            else UnknownOperation
  {
  }

  lemma ListedWrites(t: Table)
    ensures Listed(t, Insert) <==> t != UnknownTable && t != RejectData
    ensures Listed(t, Update) <==> MayUpdate(t)
  {
  }

  lemma ListedDeletes(t: Table)
    ensures Listed(t, Delete) <==> MayUpdate(t) || IsPriceTable(t)
    ensures Listed(t, RetentionDelete) <==> MayExpire(t)
    ensures !Listed(t, UnknownOperation)
  {
  }

  lemma KeysOfTable(t: Table)
    ensures t != UnknownTable ==> LocatorKeys(t).Some?
    ensures MayUpdate(t) || IsPriceTable(t) ==> LocatorKeys(t) == Some(FindingKeys(t))
    ensures ReplaceKeys(t) == if IsPriceTable(t) then Some(FindingKeys(t)) else None
  {
  }

  // ----- entries

  predicate FirstNamed(entries: seq<FieldEntry>, key: string, i: int) {
    && 0 <= i < |entries| && entries[i].name == Some(key)
    && forall j :: 0 <= j < i ==> entries[j].name != Some(key)
  }

  /** The first entry with the key holds a text that casts to v. */
  ghost predicate Spells(env: Env, t: Table, entries: seq<FieldEntry>, key: string, v: Typed) {
    exists i :: FirstNamed(entries, key, i) && SpellsAt(env, t, entries[i], key, v)
  }

  predicate SpellsAt(env: Env, t: Table, e: FieldEntry, key: string, v: Typed) {
    e.flag == Some(false) && e.val.Some? && env.cast(t, key, e.val.value) == Some(v)
  }

  /** The row holds, in every key column, the value the entries spell out for it. */
  ghost predicate Located(env: Env, t: Table, keys: seq<string>, entries: seq<FieldEntry>, row: Row) {
    forall n :: 0 <= n < |keys| ==> LocatedIn(env, t, keys[n], entries, row)
  }

  ghost predicate LocatedIn(env: Env, t: Table, key: string, entries: seq<FieldEntry>, row: Row) {
    key in row && row[key].Val? && Spells(env, t, entries, key, row[key].v)
  }

  /** The cell an entry writes: what its text casts to, NULL when it is flagged or has no text. */
  predicate Writes(env: Env, t: Table, e: FieldEntry, cell: Cell) {
    && e.name.Some?
    && if e.flag == Some(true) || e.val.None? then cell == Null
       else cell.Val? && env.cast(t, e.name.value, e.val.value) == Some(cell.v)
  }

  lemma {:induction false} EntryOfIs(entries: seq<FieldEntry>, key: string) returns (i: nat)
    ensures i <= |entries| && forall j :: 0 <= j < i ==> entries[j].name != Some(key)
    ensures i < |entries| ==> FirstNamed(entries, key, i) && EntryOf(entries, key) == Coalesced(entries[i])
    ensures i == |entries| ==> EntryOf(entries, key) == EntryWith(key, true, None)
  {
    if entries == [] || entries[0].name == Some(key) {
      i := 0;
    } else {
      var k := EntryOfIs(entries[1..], key);
      i := k + 1;
      assert forall j :: 0 < j < i ==> entries[j] == entries[1..][j - 1];
    }
  }

  lemma SpelledCell(env: Env, t: Table, entries: seq<FieldEntry>, key: string, v: Typed)
    requires Literal(env, t, EntryOf(entries, key)).Some?
    ensures Literal(env, t, EntryOf(entries, key)) == Some(Val(v)) <==> Spells(env, t, entries, key, v)
  {
    var i := EntryOfIs(entries, key);
    FirstIsOne(entries, key, i);
  }

  lemma FirstIsOne(entries: seq<FieldEntry>, key: string, i: int)
    requires 0 <= i <= |entries| && forall j :: 0 <= j < i ==> entries[j].name != Some(key)
    requires i < |entries| ==> FirstNamed(entries, key, i)
    ensures forall k :: FirstNamed(entries, key, k) ==> k == i
  {
  }

  lemma WrittenCell(env: Env, t: Table, e: FieldEntry, cell: Cell)
    requires Literal(env, t, e) == Some(cell) && e.name.Some?
    ensures Writes(env, t, e, cell)
  {
  }

  lemma {:induction false} WherePairsAt(env: Env, t: Table, keys: seq<string>, entries: seq<FieldEntry>, i: nat)
    requires WherePairs(env, t, keys, entries).Some? && i < |keys|
    ensures |WherePairs(env, t, keys, entries).value| == |keys|
    ensures var pair := WherePairs(env, t, keys, entries).value[i];
      pair.0 == keys[i] && Literal(env, t, EntryOf(entries, keys[i])) == Some(pair.1)
  {
    var n := |keys| - 1;
    if i < n {
      WherePairsAt(env, t, keys[..n], entries, i);
    } else if n > 0 {
      WherePairsAt(env, t, keys[..n], entries, 0);
    }
  }

  lemma MatchesIsLocated(env: Env, t: Table, keys: seq<string>, entries: seq<FieldEntry>, row: Row)
    requires WherePairs(env, t, keys, entries).Some?
    ensures Matches(row, WherePairs(env, t, keys, entries).value) <==> Located(env, t, keys, entries, row)
  {
    var pairs := WherePairs(env, t, keys, entries).value;
    hide WherePairs, Literal, EntryOf, LocatedIn;
    if keys == [] {
      NoPairs(env, t, entries);
    }
    forall n | 0 <= n < |keys|
      ensures |pairs| == |keys|
      ensures pairs[n].1.Val? && CellAt(row, pairs[n].0) == pairs[n].1 <==> LocatedIn(env, t, keys[n], entries, row)
    {
      WherePairsAt(env, t, keys, entries, n);
      PairIsLocated(env, t, keys[n], entries, row, pairs[n].1);
    }
  }

  lemma PairIsLocated(env: Env, t: Table, key: string, entries: seq<FieldEntry>, row: Row, cell: Cell)
    requires Literal(env, t, EntryOf(entries, key)) == Some(cell)
    ensures cell.Val? && CellAt(row, key) == cell <==> LocatedIn(env, t, key, entries, row)
  {
    hide Literal, EntryOf, Spells;
    if cell.Val? {
      SpelledCell(env, t, entries, key, cell.v);
    }
    if key in row && row[key].Val? {
      SpelledCell(env, t, entries, key, row[key].v);
    }
  }

  lemma NoPairs(env: Env, t: Table, entries: seq<FieldEntry>)
    ensures WherePairs(env, t, [], entries) == Some([])
  {
  }

  // ----- rows that stay

  /** kept holds, in their order, exactly the rows at positions where keep is true. */
  ghost predicate KeepsExactly(rows: seq<Row>, kept: seq<Row>, keep: Row -> bool) {
    exists at :: IsChoice(rows, kept, keep, at)
  }

  ghost predicate IsChoice(rows: seq<Row>, kept: seq<Row>, keep: Row -> bool, at: seq<nat>) {
    && |at| == |kept| && Ascending(at)
    && (forall i :: 0 <= i < |at| ==> at[i] < |rows| && kept[i] == rows[at[i]])
    && (forall j :: 0 <= j < |rows| ==> (j in at <==> keep(rows[j])))
  }

  lemma KeepMore(rows: seq<Row>, kept: seq<Row>, keep: Row -> bool, row: Row)
    requires KeepsExactly(rows, kept, keep)
    ensures KeepsExactly(rows + [row], if keep(row) then kept + [row] else kept, keep)
  {
    var at :| IsChoice(rows, kept, keep, at);
    var n := |rows|;
    if keep(row) {
      AscendingMore(at, n);
      assert IsChoice(rows + [row], kept + [row], keep, at + [n]);
    } else {
      assert IsChoice(rows + [row], kept, keep, at);
    }
  }

  lemma KeepNothing(keep: Row -> bool)
    ensures KeepsExactly([], [], keep)
  {
    assert IsChoice([], [], keep, []);
  }

  lemma {:induction false} DeleteKeeps(rows: seq<Row>, pairs: seq<(string, Cell)>, keep: Row -> bool)
    requires forall row :: keep(row) <==> !Matches(row, pairs)
    ensures KeepsExactly(rows, DeleteMatching(rows, pairs), keep)
  {
    hide Matches, KeepsExactly;
    if rows == [] {
      KeepNothing(keep);
    } else {
      var front, last := rows[..|rows| - 1], rows[|rows| - 1];
      DeleteKeeps(front, pairs, keep);
      KeepMore(front, DeleteMatching(front, pairs), keep, last);
      assert rows == front + [last];
      assert DeleteMatching(front, pairs) + [] == DeleteMatching(front, pairs);
    }
  }

  lemma {:induction false} NewerKeeps(env: Env, t: Table, fields: seq<FieldEntry>, rows: seq<Row>, keep: Row -> bool)
    requires forall row :: keep(row) <==> !Expired(env, t, fields, row)
    ensures KeepsExactly(rows, KeepNewer(env, t, fields, rows), keep)
  {
    hide Expired, KeepsExactly;
    if rows == [] {
      KeepNothing(keep);
    } else {
      var front, last := rows[..|rows| - 1], rows[|rows| - 1];
      NewerKeeps(env, t, fields, front, keep);
      KeepMore(front, KeepNewer(env, t, fields, front), keep, last);
      assert rows == front + [last];
      assert KeepNewer(env, t, fields, front) + [] == KeepNewer(env, t, fields, front);
    }
  }

  // ----- accepted calls

  /** The call succeeds, counting n, and turns the rows of its table into rows'. */
  ghost predicate Succeeds(env: Env, tables: Tables, r: Record, signature: Option<string>, rows': seq<Row>, n: nat) {
    var done := Exec(env, tables, r, signature);
    done.result == Ok(n) && RowsOf(done.tables, TableOf(r.table)) == rows'
  }

  lemma SuccessIsApply(env: Env, tables: Tables, r: Record, signature: Option<string>, rows': seq<Row>, n: nat)
    requires Succeeds(env, tables, r, signature, rows', n)
    ensures var t, op := TableOf(r.table), OperationOf(r.operation);
      && Permitted(t, r.operation) && LocatorKeys(t).Some?
      && Apply(env, t, op, RowsOf(tables, t), LocatorKeys(t).value, r.locator, r.fields) == Ok((rows', n))
  {
    PermittedExactly(TableOf(r.table), r.operation);
    KeysOfTable(TableOf(r.table));
    hide Apply, CanonicalRecord, TableOf, OperationOf, OperationAllowed, LocatorKeys, Permitted;
  }

  /** A delete removes exactly the rows its locator finds, and counts them. */
  lemma DeleteRemovesExactly(env: Env, tables: Tables, r: Record, signature: Option<string>, rows': seq<Row>, n: nat)
    requires r.operation == Some("delete") && Succeeds(env, tables, r, signature, rows', n)
    ensures var t := TableOf(r.table);
      && KeepsExactly(RowsOf(tables, t), rows', (row: Row) => !Located(env, t, FindingKeys(t), r.locator, row))
      && n == |RowsOf(tables, t)| - |rows'|
  {
    var t := TableOf(r.table);
    SuccessIsApply(env, tables, r, signature, rows', n);
    PermittedExactly(t, r.operation);
    KeysOfTable(t);
    var keys := FindingKeys(t);
    var pairs := WherePairs(env, t, keys, r.locator).value;
    var keep := (row: Row) => !Located(env, t, keys, r.locator, row);
    hide *;
    forall row ensures keep(row) <==> !Matches(row, pairs) {
      MatchesIsLocated(env, t, keys, r.locator, row);
    }
    DeleteKeeps(RowsOf(tables, t), pairs, keep);
  }

  /** The row is older than the cutoff, by the texts of the first entries of these names. */
  ghost predicate Old(env: Env, t: Table, fields: seq<FieldEntry>, row: Row) {
    exists i, j ::
      && FirstNamed(fields, "cutoff_column", i) && FirstNamed(fields, "cutoff", j)
      && fields[i].val.Some? && fields[j].val.Some?
      && env.olderThan(t, row, fields[i].val.value, fields[j].val.value)
  }

  lemma ExpiredIsOld(env: Env, t: Table, fields: seq<FieldEntry>, row: Row)
    ensures Expired(env, t, fields, row) <==> Old(env, t, fields, row)
  {
    var i := EntryOfIs(fields, "cutoff_column");
    var j := EntryOfIs(fields, "cutoff");
    FirstIsOne(fields, "cutoff_column", i);
    FirstIsOne(fields, "cutoff", j);
    hide FirstNamed, EntryOf;
  }

  /** A retention delete removes exactly the rows older than its cutoff, and counts them. */
  lemma RetentionRemovesExactly(env: Env, tables: Tables, r: Record, signature: Option<string>, rows': seq<Row>, n: nat)
    requires r.operation == Some("retention_delete") && Succeeds(env, tables, r, signature, rows', n)
    ensures var t := TableOf(r.table);
      && KeepsExactly(RowsOf(tables, t), rows', (row: Row) => !Old(env, t, r.fields, row))
      && n == |RowsOf(tables, t)| - |rows'|
  {
    var t := TableOf(r.table);
    SuccessIsApply(env, tables, r, signature, rows', n);
    var rows := RowsOf(tables, t);
    var keep := (row: Row) => !Old(env, t, r.fields, row);
    assert OperationOf(r.operation) == RetentionDelete;
    RetentionIs(env, t, rows, r.fields);
    hide *;
    forall row ensures keep(row) <==> !Expired(env, t, r.fields, row) {
      ExpiredIsOld(env, t, r.fields, row);
    }
    NewerKeeps(env, t, r.fields, rows, keep);
  }

  // ----- updates

  lemma {:induction false} SetWrites(env: Env, t: Table, keys: seq<string>, fields: seq<FieldEntry>, i: nat)
    requires SetPairs(env, t, keys, fields).Some? && i < |fields|
    ensures fields[i].name.Some?
    ensures fields[i].key !in keys ==>
      && fields[i].key in SetPairs(env, t, keys, fields).value
      && Writes(env, t, fields[i], SetPairs(env, t, keys, fields).value[fields[i].key])
  {
    var n := |fields| - 1;
    hide Writes;
    if i < n {
      SetWrites(env, t, keys, fields[..n], i);
    } else if fields[n].key !in keys {
      WrittenCell(env, t, fields[n], Literal(env, t, fields[n]).value);
    }
  }

  /** What an update makes of a row: its fields' cells in the columns they name, but for the locator's. */
  ghost predicate Updated(env: Env, t: Table, keys: seq<string>, fields: seq<FieldEntry>, row: Row, row': Row) {
    && (forall i :: 0 <= i < |fields| ==> fields[i].name.Some?)
    && (forall i :: 0 <= i < |fields| && fields[i].key !in keys ==>
      fields[i].key in row' && Writes(env, t, fields[i], row'[fields[i].key]))
    && (forall c: string :: c in keys || !Names(fields, c) ==> CellAt(row', c) == CellAt(row, c))
  }

  /** The positions of the rows a locator finds. */
  ghost function Found(env: Env, t: Table, keys: seq<string>, locator: seq<FieldEntry>, rows: seq<Row>): set<nat> {
    set i: nat | i < |rows| && Located(env, t, keys, locator, rows[i])
  }

  lemma {:induction false} CountIsFound(env: Env, t: Table, keys: seq<string>, locator: seq<FieldEntry>, rows: seq<Row>)
    requires WherePairs(env, t, keys, locator).Some?
    ensures CountMatching(rows, WherePairs(env, t, keys, locator).value) == |Found(env, t, keys, locator, rows)|
  {
    hide Located, Matches, WherePairs, Found;
    if rows == [] {
      NothingFound(env, t, keys, locator);
    } else {
      var n := |rows| - 1;
      CountIsFound(env, t, keys, locator, rows[..n]);
      MatchesIsLocated(env, t, keys, locator, rows[n]);
      FoundNext(env, t, keys, locator, rows);
    }
  }

  lemma NothingFound(env: Env, t: Table, keys: seq<string>, locator: seq<FieldEntry>)
    ensures Found(env, t, keys, locator, []) == {}
  {
  }

  lemma FoundNext(env: Env, t: Table, keys: seq<string>, locator: seq<FieldEntry>, rows: seq<Row>)
    requires rows != []
    ensures var n := |rows| - 1;
      |Found(env, t, keys, locator, rows)|
      == |Found(env, t, keys, locator, rows[..n])| + if Located(env, t, keys, locator, rows[n]) then 1 else 0
  {
    hide Located;
    var n := |rows| - 1;
    var before := Found(env, t, keys, locator, rows[..n]);
    var found := Found(env, t, keys, locator, rows);
    forall i: nat ensures i in found <==> i in before || (i == n && Located(env, t, keys, locator, rows[n])) {
      if i < n {
        assert rows[..n][i] == rows[i];
      }
    }
    hide Found;
    if Located(env, t, keys, locator, rows[n]) {
      assert found == before + {n};
    } else {
      assert found == before;
    }
  }

  lemma SomethingToSet(env: Env, t: Table, keys: seq<string>, fields: seq<FieldEntry>)
    requires SetPairs(env, t, keys, fields).Some?
    ensures SetPairs(env, t, keys, fields).value == map[]
      <==> forall i :: 0 <= i < |fields| ==> fields[i].key in keys
  {
    var changes := SetPairs(env, t, keys, fields).value;
    forall i | 0 <= i < |fields| ensures fields[i].key !in keys ==> fields[i].key in changes {
      SetWrites(env, t, keys, fields, i);
    }
    if c :| c in changes {
      SetOnlyNamed(env, t, keys, fields, c);
      SetSkipsLocator(env, t, keys, fields);
      var i :| 0 <= i < |fields| && fields[i].name == Some(c);
      assert fields[i].key !in keys;
    }
  }

  lemma UpdatedIs(env: Env, t: Table, keys: seq<string>, fields: seq<FieldEntry>, row: Row)
    requires SetPairs(env, t, keys, fields).Some?
    ensures Updated(env, t, keys, fields, row, row + SetPairs(env, t, keys, fields).value)
  {
    var changes := SetPairs(env, t, keys, fields).value;
    hide SetPairs, Writes, Names;
    forall i | 0 <= i < |fields|
      ensures fields[i].name.Some?
      ensures fields[i].key !in keys ==> fields[i].key in changes && Writes(env, t, fields[i], changes[fields[i].key])
    {
      SetWrites(env, t, keys, fields, i);
    }
    SetSkipsLocator(env, t, keys, fields);
    forall c: string | c in keys || !Names(fields, c) ensures c !in changes {
      SetOnlyNamed(env, t, keys, fields, c);
    }
  }

  /**
   An update gives every row its locator finds the cells its fields spell out, leaves every other row and every
   other column alone, and counts the rows it finds. Without a field to set it does nothing.
   */
  lemma UpdateWritesExactly(env: Env, tables: Tables, r: Record, signature: Option<string>, rows': seq<Row>, n: nat)
    requires r.operation == Some("update") && Succeeds(env, tables, r, signature, rows', n)
    ensures var t := TableOf(r.table);
      var keys, rows := FindingKeys(t), RowsOf(tables, t);
      if forall i :: 0 <= i < |r.fields| ==> r.fields[i].key in keys then rows' == rows && n == 0
      else
        && |rows'| == |rows| && n == |Found(env, t, keys, r.locator, rows)|
        && forall i :: 0 <= i < |rows| ==>
             if Located(env, t, keys, r.locator, rows[i]) then Updated(env, t, keys, r.fields, rows[i], rows'[i])
             else rows'[i] == rows[i]
  {
    var t := TableOf(r.table);
    SuccessIsApply(env, tables, r, signature, rows', n);
    PermittedExactly(t, r.operation);
    KeysOfTable(t);
    assert OperationOf(r.operation) == Update;
    var keys, rows := FindingKeys(t), RowsOf(tables, t);
    hide *;
    UpdateResult(env, t, rows, keys, r.locator, r.fields, rows', n);
  }

  lemma UpdateResult(env: Env, t: Table, rows: seq<Row>, keys: seq<string>, locator: seq<FieldEntry>,
                     fields: seq<FieldEntry>, rows': seq<Row>, n: nat)
    requires UpdateFromEntries(env, t, rows, keys, locator, fields) == Ok((rows', n))
    ensures if forall i :: 0 <= i < |fields| ==> fields[i].key in keys then rows' == rows && n == 0
      else
        && |rows'| == |rows| && n == |Found(env, t, keys, locator, rows)|
        && forall i :: 0 <= i < |rows| ==>
             if Located(env, t, keys, locator, rows[i]) then Updated(env, t, keys, fields, rows[i], rows'[i])
             else rows'[i] == rows[i]
  {
    hide Located, Updated, Found, Matches, SetPairs, WherePairs, UpdateRows, CountMatching;
    var changes, pairs := SetPairs(env, t, keys, fields).value, WherePairs(env, t, keys, locator);
    SomethingToSet(env, t, keys, fields);
    if changes != map[] {
      CountIsFound(env, t, keys, locator, rows);
      UpdateKeepsLength(rows, pairs.value, changes);
      forall i | 0 <= i < |rows|
        ensures if Located(env, t, keys, locator, rows[i]) then Updated(env, t, keys, fields, rows[i], rows'[i])
                else rows'[i] == rows[i]
      {
        UpdatedRow(rows, pairs.value, changes, i);
        MatchesIsLocated(env, t, keys, locator, rows[i]);
        UpdatedIs(env, t, keys, fields, rows[i]);
      }
    }
  }

  lemma UpdateKeepsLength(rows: seq<Row>, pairs: seq<(string, Cell)>, changes: Row)
    ensures |UpdateRows(rows, pairs, changes)| == |rows|
  {
    if rows != [] {
      UpdatedRow(rows, pairs, changes, 0);
    }
  }

  // ----- inserts

  /** The row holds one cell for each entry and no other. */
  ghost predicate BuiltFrom(env: Env, t: Table, fields: seq<FieldEntry>, row: Row) {
    && (forall i :: 0 <= i < |fields| ==> fields[i].key in row && Writes(env, t, fields[i], row[fields[i].key]))
    && (forall c :: c in row ==> Names(fields, c))
    && |row| == |fields|
  }

  lemma BuildRowIsBuilt(env: Env, t: Table, fields: seq<FieldEntry>)
    requires BuildRow(env, t, fields).Some?
    ensures BuiltFrom(env, t, fields, BuildRow(env, t, fields).value)
  {
    hide Writes, Names, BuildRow;
    var row := BuildRow(env, t, fields).value;
    forall i | 0 <= i < |fields| ensures fields[i].key in row && Writes(env, t, fields[i], row[fields[i].key]) {
      BuiltCell(env, t, fields, i);
      WrittenCell(env, t, fields[i], row[fields[i].key]);
    }
    forall c | c in row ensures Names(fields, c) {
      BuiltOnlyNamed(env, t, fields, c);
    }
    BuiltSize(env, t, fields);
  }

  lemma {:induction false} BuiltOnlyNamed(env: Env, t: Table, fields: seq<FieldEntry>, c: string)
    requires BuildRow(env, t, fields).Some? && c in BuildRow(env, t, fields).value
    ensures Names(fields, c)
  {
    hide Names, Literal;
    if fields[|fields| - 1].key != c {
      BuiltOnlyNamed(env, t, fields[..|fields| - 1], c);
    }
    NamesMore(fields, c);
  }

  lemma {:induction false} BuiltSize(env: Env, t: Table, fields: seq<FieldEntry>)
    requires BuildRow(env, t, fields).Some?
    ensures |BuildRow(env, t, fields).value| == |fields|
  {
    hide Literal;
    if fields != [] {
      BuiltSize(env, t, fields[..|fields| - 1]);
    }
  }

  /** A date is there already: some row has the new row's date. */
  predicate DateThere(rows: seq<Row>, row: Row) {
    && "date_id" in row && row["date_id"].Val?
    && exists i :: 0 <= i < |rows| && CellAt(rows[i], "date_id") == row["date_id"]
  }

  lemma {:induction false} CountIsThere(rows: seq<Row>, row: Row)
    ensures CountMatching(rows, [("date_id", CellAt(row, "date_id"))]) > 0 <==> DateThere(rows, row)
  {
    if rows != [] {
      var front, last := rows[..|rows| - 1], rows[|rows| - 1];
      CountIsThere(front, row);
      DateThereMore(front, last, row);
      assert rows == front + [last];
      hide DateThere;
    }
  }

  lemma DateThereMore(rows: seq<Row>, last: Row, row: Row)
    ensures DateThere(rows + [last], row)
      <==> DateThere(rows, row) || Matches(last, [("date_id", CellAt(row, "date_id"))])
  {
    var all, pairs := rows + [last], [("date_id", CellAt(row, "date_id"))];
    assert all[|rows|] == last;
    assert |pairs| == 1 && pairs[0].0 == "date_id" && pairs[0].1 == CellAt(row, "date_id");
    assert Matches(last, pairs) <==> CellAt(row, "date_id").Val? && CellAt(last, "date_id") == CellAt(row, "date_id");
    if DateThere(rows, row) {
      var i :| 0 <= i < |rows| && CellAt(rows[i], "date_id") == row["date_id"];
      assert all[i] == rows[i];
    }
    if DateThere(all, row) {
      var i :| 0 <= i < |all| && CellAt(all[i], "date_id") == row["date_id"];
      assert i < |rows| ==> all[i] == rows[i];
    }
  }

  /** The rows an insert leaves in place: on a price table those that do not have its key, elsewhere all. */
  ghost predicate StaysBesides(env: Env, t: Table, fields: seq<FieldEntry>, rows: seq<Row>, kept: seq<Row>) {
    if IsPriceTable(t) then KeepsExactly(rows, kept, (row: Row) => !Located(env, t, FindingKeys(t), fields, row))
    else kept == rows
  }

  /**
   An insert, or a call without an operation, adds one row with the cells its fields spell out; on a price table
   the rows with its key go first. A date that is there stays and nothing is counted; no fields, no row.
   */
  lemma InsertWritesExactly(env: Env, tables: Tables, r: Record, signature: Option<string>, rows': seq<Row>, n: nat)
    requires r.operation == Some("insert") || r.operation.None?
    requires Succeeds(env, tables, r, signature, rows', n)
    ensures var t := TableOf(r.table);
      var rows := RowsOf(tables, t);
      if r.fields == [] then n == 0 && StaysBesides(env, t, [], rows, rows')
      else exists row ::
        && BuiltFrom(env, t, r.fields, row)
        && if t == DimDate && DateThere(rows, row) then n == 0 && rows' == rows
           else n == 1 && exists kept :: StaysBesides(env, t, r.fields, rows, kept) && rows' == kept + [row]
  {
    var t := TableOf(r.table);
    SuccessIsApply(env, tables, r, signature, rows', n);
    PermittedExactly(t, r.operation);
    KeysOfTable(t);
    NameInserts(r.operation);
    var rows := RowsOf(tables, t);
    hide *;
    InsertResult(env, t, OperationOf(r.operation), rows, LocatorKeys(t).value, r.locator, r.fields, rows', n);
  }

  lemma NameInserts(operation: Option<string>)
    requires operation == Some("insert") || operation.None?
    ensures Inserts(OperationOf(operation))
  {
  }

  lemma InsertResult(env: Env, t: Table, op: Operation, rows: seq<Row>, keys: seq<string>,
                     locator: seq<FieldEntry>, fields: seq<FieldEntry>, rows': seq<Row>, n: nat)
    requires Inserts(op) && Apply(env, t, op, rows, keys, locator, fields) == Ok((rows', n))
    ensures if fields == [] then n == 0 && StaysBesides(env, t, [], rows, rows')
      else exists row ::
        && BuiltFrom(env, t, fields, row)
        && if t == DimDate && DateThere(rows, row) then n == 0 && rows' == rows
           else n == 1 && exists kept :: StaysBesides(env, t, fields, rows, kept) && rows' == kept + [row]
  {
    KeysOfTable(t);
    hide WherePairs, DeleteMatching, BuildRow, StaysBesides, BuiltFrom, DateThere, CountMatching, Located;
    if fields != [] {
      BuildRowIsBuilt(env, t, fields);
    }
    if IsPriceTable(t) {
      var pairs := WherePairs(env, t, FindingKeys(t), fields).value;
      PriceRowsStay(env, t, fields, rows);
      assert fields == [] ==> rows' == DeleteMatching(rows, pairs);
      assert fields != [] ==> rows' == DeleteMatching(rows, pairs) + [BuildRow(env, t, fields).value];
    } else {
      AllStay(env, t, fields, rows);
      if t == DimDate && fields != [] {
        CountIsThere(rows, BuildRow(env, t, fields).value);
      }
    }
  }

  lemma PriceRowsStay(env: Env, t: Table, fields: seq<FieldEntry>, rows: seq<Row>)
    requires IsPriceTable(t) && WherePairs(env, t, FindingKeys(t), fields).Some?
    ensures StaysBesides(env, t, fields, rows, DeleteMatching(rows, WherePairs(env, t, FindingKeys(t), fields).value))
  {
    var keys := FindingKeys(t);
    var pairs := WherePairs(env, t, keys, fields).value;
    var keep := (row: Row) => !Located(env, t, keys, fields, row);
    hide Located, Matches, WherePairs, DeleteMatching, KeepsExactly, FindingKeys;
    forall row ensures keep(row) <==> !Matches(row, pairs) {
      MatchesIsLocated(env, t, keys, fields, row);
    }
    DeleteKeeps(rows, pairs, keep);
  }

  lemma AllStay(env: Env, t: Table, fields: seq<FieldEntry>, rows: seq<Row>)
    requires !IsPriceTable(t)
    ensures StaysBesides(env, t, fields, rows, rows)
  {
  }

  // ----- refused calls

  /** A retention delete needs a cutoff that is there and flagged as not NULL. */
  ghost predicate CutoffMissing(fields: seq<FieldEntry>) {
    forall i :: FirstNamed(fields, "cutoff", i) ==> fields[i].flag != Some(false)
  }

  lemma CutoffIsMissing(fields: seq<FieldEntry>)
    ensures EntryOf(fields, "cutoff").isNull <==> CutoffMissing(fields)
  {
    var i := EntryOfIs(fields, "cutoff");
    FirstIsOne(fields, "cutoff", i);
    hide FirstNamed, EntryOf;
  }

  /** Which calls fail for their signature, which for their operation; a failure changes nothing. */
  lemma RefusedExactly(env: Env, tables: Tables, r: Record, signature: Option<string>)
    ensures var t, done := TableOf(r.table), Exec(env, tables, r, signature);
      var accepted := signature.Some? && (LacksPart(r) || env.signed(RecordBytes(r), signature.value));
      && (done.result == Err(InvalidSignature) <==> !accepted)
      && (done.result == Err(UnsupportedOperation)
          <==> && accepted
               && (|| !Permitted(t, r.operation) || t !in env.columns
                   || (r.operation == Some("retention_delete") && CutoffMissing(r.fields))))
      && (done.result.Err? ==> done.tables == tables)
  {
    var t := TableOf(r.table);
    AcceptedExactly(env, r, signature);
    PermittedExactly(t, r.operation);
    KeysOfTable(t);
    CutoffIsMissing(r.fields);
    if Permitted(t, r.operation) {
      ApplyErrors(env, t, r.operation, RowsOf(tables, t), r.locator, r.fields);
    }
    ExecErrors(env, tables, r, signature);
    hide *;
  }

  lemma ExecErrors(env: Env, tables: Tables, r: Record, signature: Option<string>)
    ensures var t, op, done := TableOf(r.table), OperationOf(r.operation), Exec(env, tables, r, signature);
      var accepted := Accepts(env, CanonicalRecord(r), signature);
      var refused := OperationAllowed(t, op) == Some(false) || LocatorKeys(t).None? || t !in env.columns;
      && (done.result.Err? ==> done.tables == tables)
      && (!accepted ==> done.result == Err(InvalidSignature))
      && (accepted && refused ==> done.result == Err(UnsupportedOperation))
      && (accepted && !refused ==>
        match Apply(env, t, op, RowsOf(tables, t), LocatorKeys(t).value, r.locator, r.fields)
        case Err(e) => done.result == Err(e)
        case Ok(_) => done.result.Ok?)
  {
    hide Apply, CanonicalRecord, TableOf, OperationOf, OperationAllowed, LocatorKeys, Accepts;
  }

  lemma ApplyErrors(env: Env, t: Table, operation: Option<string>, rows: seq<Row>,
                    locator: seq<FieldEntry>, fields: seq<FieldEntry>)
    requires Permitted(t, operation)
    ensures LocatorKeys(t).Some?
    ensures var w := Apply(env, t, OperationOf(operation), rows, LocatorKeys(t).value, locator, fields);
      && w != Err(InvalidSignature)
      && (w == Err(UnsupportedOperation)
          <==> operation == Some("retention_delete") && EntryOf(fields, "cutoff").isNull)
  {
    OperationNames(operation);
    KeysOfTable(t);
    hide OperationOf, LocatorKeys, ReplaceKeys, WherePairs, EntryOf, InsertRow, InsertDate, ReplaceRow, Retention,
      UpdateFromEntries, DeleteMatching;
    if operation == Some("retention_delete") {
      RetentionIs(env, t, rows, fields);
    } else if operation == Some("update") {
      UpdateErrors(env, t, rows, FindingKeys(t), locator, fields);
    } else if operation != Some("delete") {
      InsertErrors(env, t, rows, FindingKeys(t), fields);
    }
  }

  lemma UpdateErrors(env: Env, t: Table, rows: seq<Row>, keys: seq<string>,
                     locator: seq<FieldEntry>, fields: seq<FieldEntry>)
    ensures var w := UpdateFromEntries(env, t, rows, keys, locator, fields); w.Ok? || w == Err(SqlFailure)
  {
    hide SetPairs, WherePairs, UpdateRows, CountMatching;
  }

  lemma InsertErrors(env: Env, t: Table, rows: seq<Row>, keys: seq<string>, fields: seq<FieldEntry>)
    ensures var w := ReplaceRow(env, t, rows, keys, fields); w.Ok? || w == Err(SqlFailure)
    ensures var w := InsertDate(env, rows, fields); w.Ok? || w == Err(SqlFailure)
    ensures var w := InsertRow(env, t, rows, fields); w.Ok? || w == Err(SqlFailure)
  {
    hide WherePairs, DeleteMatching, BuildRow, Admitted, CountMatching;
  }

  // ----- calls that fail on their data

  /** The entry becomes a typed literal: it is flagged NULL, or names a column of the table and its text casts. */
  predicate Castable(env: Env, t: Table, e: FieldEntry) {
    || e.flag == Some(true)
    || (&& e.name.Some? && e.name.value in ColumnsOf(env, t)
        && (e.val.Some? ==> env.cast(t, e.name.value, e.val.value).Some?))
  }

  /** The entries name columns of the table, each once, but for those in keys, and all of them cast. */
  predicate FieldsFit(env: Env, t: Table, keys: seq<string>, fields: seq<FieldEntry>) {
    && (forall i :: 0 <= i < |fields| ==> FieldFits(env, t, keys, fields[i]))
    && forall i, j :: 0 <= i < j < |fields| && fields[i].key !in keys ==> fields[i].key != fields[j].key
  }

  predicate FieldFits(env: Env, t: Table, keys: seq<string>, e: FieldEntry) {
    e.name.Some? && (e.key in keys || (e.key in ColumnsOf(env, t) && Castable(env, t, e)))
  }

  /** Every key is spelled out by an entry that casts, or is absent or flagged. */
  ghost predicate KeysFit(env: Env, t: Table, keys: seq<string>, entries: seq<FieldEntry>) {
    forall n, i :: 0 <= n < |keys| && 0 <= i < |entries| && FirstNamed(entries, keys[n], i) ==>
      entries[i].flag != Some(false) || Castable(env, t, entries[i])
  }

  lemma CastableIs(env: Env, t: Table, e: FieldEntry)
    ensures Literal(env, t, e).Some? <==> Castable(env, t, e)
  {
  }

  lemma KeyCasts(env: Env, t: Table, entries: seq<FieldEntry>, key: string)
    ensures Literal(env, t, EntryOf(entries, key)).Some?
      <==> forall i :: 0 <= i < |entries| && FirstNamed(entries, key, i) ==>
             entries[i].flag != Some(false) || Castable(env, t, entries[i])
  {
    var i := EntryOfIs(entries, key);
    FirstIsOne(entries, key, i);
    CastableIs(env, t, EntryOf(entries, key));
    hide EntryOf, Literal;
  }

  lemma {:induction false} WherePairsFit(env: Env, t: Table, keys: seq<string>, entries: seq<FieldEntry>)
    ensures WherePairs(env, t, keys, entries).Some? <==> KeysFit(env, t, keys, entries)
  {
    hide Literal, EntryOf, FirstNamed, Castable;
    if keys != [] {
      var n := |keys| - 1;
      WherePairsFit(env, t, keys[..n], entries);
      KeyCasts(env, t, entries, keys[n]);
      if KeysFit(env, t, keys[..n], entries) && Literal(env, t, EntryOf(entries, keys[n])).Some? {
        forall m, i | 0 <= m < |keys| && 0 <= i < |entries| && FirstNamed(entries, keys[m], i)
          ensures entries[i].flag != Some(false) || Castable(env, t, entries[i])
        {
          assert m < n ==> keys[..n][m] == keys[m];
        }
      }
      if KeysFit(env, t, keys, entries) {
        forall m, i | 0 <= m < n && 0 <= i < |entries| && FirstNamed(entries, keys[..n][m], i)
          ensures entries[i].flag != Some(false) || Castable(env, t, entries[i])
        {
          assert keys[..n][m] == keys[m];
        }
      }
    }
  }

  lemma FitMore(env: Env, t: Table, keys: seq<string>, fields: seq<FieldEntry>)
    requires fields != []
    ensures var n := |fields| - 1;
      FieldsFit(env, t, keys, fields)
      <==> FieldsFit(env, t, keys, fields[..n]) && FieldFits(env, t, keys, fields[n])
           && forall i :: 0 <= i < n && fields[i].key !in keys ==> fields[i].key != fields[n].key
  {
    hide FieldFits;
    var n := |fields| - 1;
    assert forall i :: 0 <= i < n ==> fields[..n][i] == fields[i];
  }

  predicate HasKey(fields: seq<FieldEntry>, key: string) {
    exists i :: 0 <= i < |fields| && fields[i].key == key
  }

  /** The columns to set are those the fields name, but for the locator's. */
  lemma SetMembers(env: Env, t: Table, keys: seq<string>, fields: seq<FieldEntry>, key: string)
    requires SetPairs(env, t, keys, fields).Some?
    ensures key in SetPairs(env, t, keys, fields).value <==> key !in keys && HasKey(fields, key)
  {
    var changes := SetPairs(env, t, keys, fields).value;
    hide SetPairs, Writes;
    if key in changes {
      SetOnlyNamed(env, t, keys, fields, key);
      SetSkipsLocator(env, t, keys, fields);
    }
    if key !in keys && HasKey(fields, key) {
      var i :| 0 <= i < |fields| && fields[i].key == key;
      SetWrites(env, t, keys, fields, i);
    }
  }

  lemma {:induction false} SetPairsFit(env: Env, t: Table, keys: seq<string>, fields: seq<FieldEntry>)
    ensures SetPairs(env, t, keys, fields).Some? <==> FieldsFit(env, t, keys, fields)
  {
    hide Castable, FieldsFit, Literal;
    if fields == [] {
      NothingFits(env, t, keys);
    } else {
      var n := |fields| - 1;
      SetPairsFit(env, t, keys, fields[..n]);
      FitMore(env, t, keys, fields);
      CastableIs(env, t, fields[n]);
      if SetPairs(env, t, keys, fields[..n]).Some? {
        SetMembers(env, t, keys, fields[..n], fields[n].key);
        KeyBefore(fields, n);
      }
    }
  }

  lemma NothingFits(env: Env, t: Table, keys: seq<string>)
    ensures FieldsFit(env, t, keys, [])
  {
  }

  lemma KeyBefore(fields: seq<FieldEntry>, n: nat)
    requires n < |fields|
    ensures HasKey(fields[..n], fields[n].key) <==> exists i :: 0 <= i < n && fields[i].key == fields[n].key
  {
    assert forall i :: 0 <= i < n ==> fields[..n][i] == fields[i];
  }

  lemma {:induction false} BuildIsSet(env: Env, t: Table, fields: seq<FieldEntry>)
    ensures BuildRow(env, t, fields) == SetPairs(env, t, [], fields)
  {
    hide Literal;
    if fields != [] {
      BuildIsSet(env, t, fields[..|fields| - 1]);
    }
  }

  /** A row is built iff the fields fit, each column once. */
  lemma BuildRowFit(env: Env, t: Table, fields: seq<FieldEntry>)
    ensures BuildRow(env, t, fields).Some? <==> FieldsFit(env, t, [], fields)
  {
    BuildIsSet(env, t, fields);
    SetPairsFit(env, t, [], fields);
    hide *;
  }

  /** The call is neither refused for its signature nor for its operation. */
  predicate Reaches(env: Env, tables: Tables, r: Record, signature: Option<string>) {
    var result := Exec(env, tables, r, signature).result;
    result != Err(InvalidSignature) && result != Err(UnsupportedOperation)
  }

  lemma ReachesApply(env: Env, tables: Tables, r: Record, signature: Option<string>)
    requires Reaches(env, tables, r, signature)
    ensures var t, op, result := TableOf(r.table), OperationOf(r.operation), Exec(env, tables, r, signature).result;
      && Permitted(t, r.operation) && LocatorKeys(t).Some?
      && (result.Ok? <==> Apply(env, t, op, RowsOf(tables, t), LocatorKeys(t).value, r.locator, r.fields).Ok?)
  {
    PermittedExactly(TableOf(r.table), r.operation);
    ExecErrors(env, tables, r, signature);
    hide Apply, Exec, CanonicalRecord, TableOf, OperationOf, OperationAllowed, LocatorKeys, Permitted, Accepts;
  }

  /** A delete fails on its data iff a key's text does not cast. */
  lemma DeleteFailsExactly(env: Env, tables: Tables, r: Record, signature: Option<string>)
    requires r.operation == Some("delete") && Reaches(env, tables, r, signature)
    ensures var t := TableOf(r.table);
      Exec(env, tables, r, signature).result.Ok? <==> KeysFit(env, t, FindingKeys(t), r.locator)
  {
    var t := TableOf(r.table);
    ReachesApply(env, tables, r, signature);
    KeysOfTable(t);
    WherePairsFit(env, t, FindingKeys(t), r.locator);
    OperationNames(r.operation);
    hide Exec, WherePairs, KeysFit, LocatorKeys, OperationOf, TableOf, Reaches, DeleteMatching;
  }

  /** A retention delete needs a cutoff column of the table, and a cutoff that is a timestamp if it has a text. */
  lemma RetentionFailsExactly(env: Env, tables: Tables, r: Record, signature: Option<string>)
    requires r.operation == Some("retention_delete") && Reaches(env, tables, r, signature)
    ensures var t := TableOf(r.table);
      Exec(env, tables, r, signature).result.Ok?
      <==> (exists i :: FirstNamed(r.fields, "cutoff_column", i) && r.fields[i].val.Some?
                        && r.fields[i].val.value in ColumnsOf(env, t))
           && forall j :: FirstNamed(r.fields, "cutoff", j) && r.fields[j].val.Some? ==>
                env.isTimestamp(r.fields[j].val.value)
  {
    var t := TableOf(r.table);
    ReachesApply(env, tables, r, signature);
    OperationNames(r.operation);
    RetentionIs(env, t, RowsOf(tables, t), r.fields);
    RefusedExactly(env, tables, r, signature);
    CutoffIsMissing(r.fields);
    CutoffGivenIs(env, t, r.fields);
    ApplyRetention(env, t, RowsOf(tables, t), LocatorKeys(t).value, r.locator, r.fields);
    hide *;
    ReachesMeans(env, tables, r, signature);
  }

  lemma ApplyRetention(env: Env, t: Table, rows: seq<Row>, keys: seq<string>,
                       locator: seq<FieldEntry>, fields: seq<FieldEntry>)
    ensures Apply(env, t, RetentionDelete, rows, keys, locator, fields) == Retention(env, t, rows, fields)
  {
  }

  lemma ReachesMeans(env: Env, tables: Tables, r: Record, signature: Option<string>)
    requires Reaches(env, tables, r, signature)
    ensures Exec(env, tables, r, signature).result != Err(InvalidSignature)
    ensures Exec(env, tables, r, signature).result != Err(UnsupportedOperation)
  {
    hide Exec;
  }

  lemma CutoffGivenIs(env: Env, t: Table, fields: seq<FieldEntry>)
    ensures CutoffGiven(env, t, fields)
      <==> (exists i :: FirstNamed(fields, "cutoff_column", i) && fields[i].val.Some?
                        && fields[i].val.value in ColumnsOf(env, t))
           && forall j :: FirstNamed(fields, "cutoff", j) && fields[j].val.Some? ==>
                env.isTimestamp(fields[j].val.value)
  {
    var i := EntryOfIs(fields, "cutoff_column");
    var j := EntryOfIs(fields, "cutoff");
    FirstIsOne(fields, "cutoff_column", i);
    FirstIsOne(fields, "cutoff", j);
    hide FirstNamed, EntryOf, ColumnsOf;
  }

  /** The table an update would leave, where its fields and keys fit. */
  function TableUpdated(env: Env, t: Table, rows: seq<Row>, keys: seq<string>, r: Record): seq<Row> {
    var pairs, changes := WherePairs(env, t, keys, r.locator), SetPairs(env, t, keys, r.fields);
    if pairs.Some? && changes.Some? then UpdateRows(rows, pairs.value, changes.value) else rows
  }

  /** The rows an insert would leave on a price table. */
  function TableCleared(env: Env, t: Table, rows: seq<Row>, r: Record): seq<Row> {
    var pairs := WherePairs(env, t, FindingKeys(t), r.fields);
    if IsPriceTable(t) && pairs.Some? then DeleteMatching(rows, pairs.value) else rows
  }

  function RowBuilt(env: Env, t: Table, fields: seq<FieldEntry>): Row {
    var row := BuildRow(env, t, fields);
    if row.Some? then row.value else map[]
  }

  /** An update fails on its data iff its fields or the keys it needs do not fit, or the constraints refuse it. */
  lemma UpdateFailsExactly(env: Env, tables: Tables, r: Record, signature: Option<string>)
    requires r.operation == Some("update") && Reaches(env, tables, r, signature)
    ensures var t := TableOf(r.table);
      var keys, rows := FindingKeys(t), RowsOf(tables, t);
      var idle := forall i :: 0 <= i < |r.fields| ==> r.fields[i].key in keys;
      Exec(env, tables, r, signature).result.Ok?
      <==> && FieldsFit(env, t, keys, r.fields)
           && (idle || (KeysFit(env, t, keys, r.locator)
                        && env.admitsUpdate(t, rows, TableUpdated(env, t, rows, keys, r))))
  {
    var t := TableOf(r.table);
    var keys := FindingKeys(t);
    ReachesApply(env, tables, r, signature);
    KeysOfTable(t);
    OperationNames(r.operation);
    WherePairsFit(env, t, keys, r.locator);
    SetPairsFit(env, t, keys, r.fields);
    if FieldsFit(env, t, keys, r.fields) {
      SomethingToSet(env, t, keys, r.fields);
    }
    hide Exec, WherePairs, SetPairs, KeysFit, FieldsFit, LocatorKeys, OperationOf, TableOf, Reaches, UpdateRows,
      CountMatching;
  }

  /**
   An insert fails on its data iff its fields do not fit, the row breaks its own constraints, the key it replaces
   does not cast, or, unless the date is there, the table's constraints refuse it.
   */
  lemma InsertFailsExactly(env: Env, tables: Tables, r: Record, signature: Option<string>)
    requires (r.operation == Some("insert") || r.operation.None?) && Reaches(env, tables, r, signature)
    ensures var t := TableOf(r.table);
      var rows, row := RowsOf(tables, t), RowBuilt(env, t, r.fields);
      Exec(env, tables, r, signature).result.Ok?
      <==> && (IsPriceTable(t) ==> KeysFit(env, t, FindingKeys(t), r.fields))
           && (|| r.fields == []
               || (&& FieldsFit(env, t, [], r.fields) && env.checks(t, row)
                   && (|| (t == DimDate && DateThere(rows, row))
                       || env.admits(t, TableCleared(env, t, rows, r), row))))
  {
    var t := TableOf(r.table);
    var rows := RowsOf(tables, t);
    ReachesApply(env, tables, r, signature);
    KeysOfTable(t);
    NameInserts(r.operation);
    BuildRowFit(env, t, r.fields);
    WherePairsFit(env, t, FindingKeys(t), r.fields);
    if BuildRow(env, t, r.fields).Some? {
      CountIsThere(rows, BuildRow(env, t, r.fields).value);
    }
    hide Exec, WherePairs, BuildRow, KeysFit, FieldsFit, LocatorKeys, FindingKeys, OperationOf, TableOf, Reaches,
      DeleteMatching, CountMatching, DateThere;
  }
}
