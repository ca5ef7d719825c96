/**
 The write gate: signed records become inserts, updates and deletes on the gated tables. A table
 is a sequence of rows; types, constraints and signatures are parameters of the environment. A
 raised error rolls the call back.
 */
module WriteGate {
  import opened Common
  import opened CanonicalEncoding

  datatype Table =
    | FactPrice | CurrencyRate | CryptoPrice | CommodityPrice | DimDate
    | DimProduct | DimMarketplace | ScrapeJobs | FactListing | Users
    | ScrapeLogs | ApiLogs | ServiceAlerts | RejectData | AiChatSessions | AiChatMessages
    | UnknownTable

  datatype Operation = Insert | Update | Delete | RetentionDelete | NullOperation | UnknownOperation

  /** A typed value; texts that cast to the same value are the same Typed. */
  type Typed = int

  datatype Cell = Null | Val(v: Typed)

  /** Columns that are absent hold their default, which compares like NULL. */
  type Row = map<string, Cell>

  type Tables = map<Table, seq<Row>>

  /** SqlFailure stands for unsupported columns, failed casts and violated constraints alike. */
  datatype GateError = InvalidSignature | UnsupportedOperation | HeterogeneousRows | SqlFailure

  /** What the database and the signing secret decide; checks are a row's NOT NULL and CHECK constraints. */
  datatype Env = Env(
    columns: map<Table, set<string>>,
    cast: (Table, string, string) -> Option<Typed>,
    checks: (Table, Row) -> bool,
    admits: (Table, seq<Row>, Row) -> bool,
    admitsUpdate: (Table, seq<Row>, seq<Row>) -> bool,
    isTimestamp: string -> bool,
    olderThan: (Table, Row, string, string) -> bool,
    signed: (string, string) -> bool)

  datatype Outcome = Outcome(tables: Tables, result: Result<nat, GateError>)

  type Written = Result<(seq<Row>, nat), GateError>

  function TableOf(name: Option<string>): Table {
    if name == Some("fact_price") then FactPrice
    else if name == Some("fact_currency_rate") then CurrencyRate
    else if name == Some("fact_crypto_price") then CryptoPrice
    else if name == Some("fact_commodity_price") then CommodityPrice
    else if name == Some("dim_date") then DimDate
    else if name == Some("dim_product") then DimProduct
    else if name == Some("dim_marketplace") then DimMarketplace
    else if name == Some("scrape_jobs") then ScrapeJobs
    else if name == Some("fact_listing") then FactListing
    else if name == Some("users") then Users
    else if name == Some("scrape_logs") then ScrapeLogs
    else if name == Some("api_logs") then ApiLogs
    else if name == Some("service_alerts") then ServiceAlerts
    else if name == Some("reject_data") then RejectData
    else if name == Some("ai_chat_sessions") then AiChatSessions
    else if name == Some("ai_chat_messages") then AiChatMessages
    else UnknownTable
  }

  function OperationOf(name: Option<string>): Operation {
    if name.None? then NullOperation
    else if name == Some("insert") then Insert
    else if name == Some("update") then Update
    else if name == Some("delete") then Delete
    else if name == Some("retention_delete") then RetentionDelete
    else UnknownOperation
  }

  /** The allow-list. */
  predicate Listed(t: Table, op: Operation) {
    match t
    case DimDate => op == Insert
    case DimProduct | DimMarketplace | ScrapeJobs | FactListing | Users => op == Insert || op == Update || op == Delete
    case FactPrice | CurrencyRate | CryptoPrice | CommodityPrice => op == Insert || op == Delete
    case ScrapeLogs | ApiLogs | ServiceAlerts => op == Insert || op == RetentionDelete
    case RejectData => op == RetentionDelete
    case AiChatSessions | AiChatMessages => op == Insert
    case UnknownTable => false
  }

  /** _operation_allowed; None is unknown, as a NULL operation compares with everything. */
  function OperationAllowed(t: Table, op: Operation): Option<bool> {
    if t == UnknownTable then Some(false)
    else if op == NullOperation then None
    else Some(Listed(t, op))
  }

  /** What exec_write does last, and also for an operation that compares with nothing. */
  predicate Inserts(op: Operation) {
    op == Insert || op == NullOperation
  }

  function LocatorKeys(t: Table): Option<seq<string>> {
    match t
    case DimDate => Some(["date_id"])
    case FactPrice => Some(["listing_id", "date_id"])
    case FactListing => Some(["url_hash"])
    case CurrencyRate => Some(["date_id", "currency_code", "source"])
    case CryptoPrice | CommodityPrice => Some(["date_id", "symbol", "source"])
    case DimProduct | DimMarketplace | ScrapeJobs | ServiceAlerts | Users | AiChatSessions | AiChatMessages =>
      Some(["id"])
    case ScrapeLogs | ApiLogs | RejectData => Some([])
    case UnknownTable => None
  }

  /** The columns an insert deletes on first, spelled out per table in exec_write. */
  function ReplaceKeys(t: Table): Option<seq<string>> {
    match t
    case FactPrice => Some(["listing_id", "date_id"])
    case CurrencyRate => Some(["date_id", "currency_code", "source"])
    case CryptoPrice => Some(["date_id", "symbol", "source"])
    case CommodityPrice => Some(["date_id", "symbol", "source"])
    case _ => None
  }

  // ----- entries, literals, rows

  /** COALESCE(is_null, TRUE): unlike IF, a lookup takes a NULL flag for true. */
  function Coalesced(e: FieldEntry): FieldEntry {
    e.(flag := Some(e.flag != Some(false)))
  }

  /** The first entry with a key decides, for the text and for the NULL flag; no entry reads as NULL. */
  function EntryOf(entries: seq<FieldEntry>, key: string): (e: FieldEntry) {
    if entries == [] then EntryWith(key, true, None)
    else if entries[0].name == Some(key) then Coalesced(entries[0])
    else EntryOf(entries[1..], key)
  }

  function ColumnsOf(env: Env, t: Table): set<string> {
    if t in env.columns then env.columns[t] else {}
  }

  /** A typed NULL where the text is missing. */
  function Literal(env: Env, t: Table, e: FieldEntry): Option<Cell> {
    if e.isNull then Some(Null)
    else if e.name.None? || e.key !in ColumnsOf(env, t) then None
    else if e.val.None? then Some(Null)
    else
      var v := env.cast(t, e.key, e.val.value);
      if v.Some? then Some(Val(v.value)) else None
  }

  /** The row an INSERT writes; unknown, missing or repeated columns and failed casts raise. */
  function BuildRow(env: Env, t: Table, entries: seq<FieldEntry>): Option<Row> {
    if entries == [] then Some(map[])
    else
      var last := entries[|entries| - 1];
      var before := BuildRow(env, t, entries[..|entries| - 1]);
      var cell := Literal(env, t, last);
      if before.None? || cell.None? || last.name.None? || last.key in before.value || last.key !in ColumnsOf(env, t)
      then None
      else Some(before.value[last.key := cell.value])
  }

  predicate Admitted(env: Env, t: Table, rows: seq<Row>, row: Row) {
    env.checks(t, row) && env.admits(t, rows, row)
  }

  function InsertRow(env: Env, t: Table, rows: seq<Row>, entries: seq<FieldEntry>): Written {
    if entries == [] then Ok((rows, 0))
    else
      var row := BuildRow(env, t, entries);
      if row.Some? && Admitted(env, t, rows, row.value) then Ok((rows + [row.value], 1)) else Err(SqlFailure)
  }

  function CellAt(row: Row, column: string): Cell {
    if column in row then row[column] else Null
  }

  /** "column = literal" for each locator key. */
  function WherePairs(env: Env, t: Table, keys: seq<string>, entries: seq<FieldEntry>): Option<seq<(string, Cell)>> {
    if keys == [] then Some([])
    else
      var k := keys[|keys| - 1];
      var before := WherePairs(env, t, keys[..|keys| - 1], entries);
      var cell := Literal(env, t, EntryOf(entries, k));
      if before.None? || cell.None? then None else Some(before.value + [(k, cell.value)])
  }

  /** Equality with NULL is never true. */
  predicate Matches(row: Row, pairs: seq<(string, Cell)>) {
    forall i :: 0 <= i < |pairs| ==> pairs[i].1.Val? && CellAt(row, pairs[i].0) == pairs[i].1
  }

  function DeleteMatching(rows: seq<Row>, pairs: seq<(string, Cell)>): seq<Row> {
    if rows == [] then []
    else
      var last := rows[|rows| - 1];
      DeleteMatching(rows[..|rows| - 1], pairs) + (if Matches(last, pairs) then [] else [last])
  }

  lemma {:induction false} DeleteMatchingShrinks(rows: seq<Row>, pairs: seq<(string, Cell)>)
    ensures |DeleteMatching(rows, pairs)| <= |rows|
  {
    if rows != [] {
      DeleteMatchingShrinks(rows[..|rows| - 1], pairs);
    }
  }

  function DeleteFromLocator(env: Env, t: Table, rows: seq<Row>, keys: seq<string>, locator: seq<FieldEntry>): Written {
    var pairs := WherePairs(env, t, keys, locator);
    if keys == [] then Err(UnsupportedOperation)
    else if pairs.None? then Err(SqlFailure)
    else
      DeleteMatchingShrinks(rows, pairs.value);
      Ok((DeleteMatching(rows, pairs.value), |rows| - |DeleteMatching(rows, pairs.value)|))
  }

  function SetPairs(env: Env, t: Table, keys: seq<string>, fields: seq<FieldEntry>): Option<Row> {
    if fields == [] then Some(map[])
    else
      var last := fields[|fields| - 1];
      var before := SetPairs(env, t, keys, fields[..|fields| - 1]);
      if last.name.Some? && last.key in keys then before
      else
        var cell := Literal(env, t, last);
        if before.None? || cell.None? || last.name.None? || last.key in before.value || last.key !in ColumnsOf(env, t)
        then None
        else Some(before.value[last.key := cell.value])
  }

  function UpdateRows(rows: seq<Row>, pairs: seq<(string, Cell)>, changes: Row): seq<Row> {
    if rows == [] then []
    else
      var last := rows[|rows| - 1];
      UpdateRows(rows[..|rows| - 1], pairs, changes) + [if Matches(last, pairs) then last + changes else last]
  }

  function CountMatching(rows: seq<Row>, pairs: seq<(string, Cell)>): nat {
    if rows == [] then 0
    else CountMatching(rows[..|rows| - 1], pairs) + (if Matches(rows[|rows| - 1], pairs) then 1 else 0)
  }

  function UpdateFromEntries(env: Env, t: Table, rows: seq<Row>, keys: seq<string>,
                             locator: seq<FieldEntry>, fields: seq<FieldEntry>): Written {
    var changes := SetPairs(env, t, keys, fields);
    var pairs := WherePairs(env, t, keys, locator);
    if changes.None? then Err(SqlFailure)
    else if changes.value == map[] then Ok((rows, 0))
    else if pairs.None? then Err(SqlFailure)
    else
      var updated := UpdateRows(rows, pairs.value, changes.value);
      if env.admitsUpdate(t, rows, updated) then Ok((updated, CountMatching(rows, pairs.value))) else Err(SqlFailure)
  }

  /** The row is older than the cutoff the fields give; without a cutoff text the comparison is unknown. */
  predicate Expired(env: Env, t: Table, fields: seq<FieldEntry>, row: Row) {
    var column, cutoff := EntryOf(fields, "cutoff_column").val, EntryOf(fields, "cutoff").val;
    column.Some? && cutoff.Some? && env.olderThan(t, row, column.value, cutoff.value)
  }

  function KeepNewer(env: Env, t: Table, fields: seq<FieldEntry>, rows: seq<Row>): (kept: seq<Row>)
    ensures |kept| <= |rows|
  {
    if rows == [] then []
    else
      var last := rows[|rows| - 1];
      KeepNewer(env, t, fields, rows[..|rows| - 1]) + (if Expired(env, t, fields, last) then [] else [last])
  }

  predicate CutoffGiven(env: Env, t: Table, fields: seq<FieldEntry>) {
    var column, cutoff := EntryOf(fields, "cutoff_column").val, EntryOf(fields, "cutoff").val;
    column.Some? && column.value in ColumnsOf(env, t) && (cutoff.Some? ==> env.isTimestamp(cutoff.value))
  }

  function Retention(env: Env, t: Table, rows: seq<Row>, fields: seq<FieldEntry>): Written {
    if EntryOf(fields, "cutoff").isNull then Err(UnsupportedOperation)
    else if !CutoffGiven(env, t, fields) then Err(SqlFailure)
    else
      var kept := KeepNewer(env, t, fields, rows);
      Ok((kept, |rows| - |kept|))
  }

  predicate Ascending(at: seq<nat>) {
    forall i, j :: 0 <= i < j < |at| ==> at[i] < at[j]
  }

  /** The kept rows are the rows at the positions that are not expired, in their order. */
  lemma {:induction false} KeptPositions(env: Env, t: Table, fields: seq<FieldEntry>, rows: seq<Row>)
    returns (at: seq<nat>)
    ensures |at| == |KeepNewer(env, t, fields, rows)| && Ascending(at)
    ensures forall i :: 0 <= i < |at| ==> at[i] < |rows| && KeepNewer(env, t, fields, rows)[i] == rows[at[i]]
    ensures forall j :: 0 <= j < |rows| ==> (j in at <==> !Expired(env, t, fields, rows[j]))
  {
    hide *;
    at := [];
    KeepNewerNext(env, t, fields, rows);
    if rows != [] {
      var n := |rows| - 1;
      at := KeptPositions(env, t, fields, rows[..n]);
      if !Expired(env, t, fields, rows[n]) {
        AscendingMore(at, n);
        at := at + [n];
      }
    } else {
      NothingAscends();
    }
  }

  lemma KeepNewerNext(env: Env, t: Table, fields: seq<FieldEntry>, rows: seq<Row>)
    ensures KeepNewer(env, t, fields, rows)
         == if rows == [] then []
            else KeepNewer(env, t, fields, rows[..|rows| - 1])
                 + (if Expired(env, t, fields, rows[|rows| - 1]) then [] else [rows[|rows| - 1]])
  {
    hide Expired;
  }

  lemma NothingAscends()
    ensures Ascending([])
  {
  }

  lemma AscendingMore(at: seq<nat>, n: nat)
    requires Ascending(at) && forall i :: 0 <= i < |at| ==> at[i] < n
    ensures Ascending(at + [n])
    ensures forall j :: j in at + [n] <==> j in at || j == n
  {
  }

  /**
   What a retention delete leaves: exactly the rows that are not older than the cutoff, in their order;
   it counts the rows it removes, and a second one with the same fields removes nothing.
   */
  lemma RetentionKeepsNewer(env: Env, t: Table, rows: seq<Row>, fields: seq<FieldEntry>) returns (at: seq<nat>)
    requires Retention(env, t, rows, fields).Ok?
    ensures var (kept, n) := Retention(env, t, rows, fields).value;
      && |at| == |kept| && Ascending(at)
      && (forall i :: 0 <= i < |at| ==> at[i] < |rows| && kept[i] == rows[at[i]])
      && (forall j :: 0 <= j < |rows| ==> (j in at <==> !Expired(env, t, fields, rows[j])))
      && (forall row :: row in kept <==> row in rows && !Expired(env, t, fields, row))
      && n == |rows| - |at|
      && Retention(env, t, kept, fields) == Ok((kept, 0))
  {
    hide *;
    var kept := KeepNewer(env, t, fields, rows);
    RetentionIs(env, t, rows, fields);
    at := KeptPositions(env, t, fields, rows);
    KeptRows(env, t, fields, rows, kept, at);
    KeepAgain(env, t, fields, kept);
    RetentionIs(env, t, kept, fields);
  }

  lemma KeptRows(env: Env, t: Table, fields: seq<FieldEntry>, rows: seq<Row>, kept: seq<Row>, at: seq<nat>)
    requires |at| == |kept| && forall i :: 0 <= i < |at| ==> at[i] < |rows| && kept[i] == rows[at[i]]
    requires forall j :: 0 <= j < |rows| ==> (j in at <==> !Expired(env, t, fields, rows[j]))
    ensures forall row :: row in kept <==> row in rows && !Expired(env, t, fields, row)
  {
    hide Expired;
    forall row ensures row in kept <==> row in rows && !Expired(env, t, fields, row) {
      if row in kept {
        var i :| 0 <= i < |kept| && kept[i] == row;
        assert at[i] in at;
      }
      if row in rows && !Expired(env, t, fields, row) {
        var j :| 0 <= j < |rows| && rows[j] == row;
        var i :| 0 <= i < |at| && at[i] == j;
        assert kept[i] == row;
      }
    }
  }

  lemma {:induction false} KeepAgain(env: Env, t: Table, fields: seq<FieldEntry>, rows: seq<Row>)
    requires forall row :: row in rows ==> !Expired(env, t, fields, row)
    ensures KeepNewer(env, t, fields, rows) == rows
  {
    hide Expired;
    if rows != [] {
      KeepAgain(env, t, fields, rows[..|rows| - 1]);
      assert rows[|rows| - 1] in rows;
    }
  }

  /** INSERT .. ON CONFLICT (date_id) DO NOTHING; the row's own constraints come before the conflict. */
  function InsertDate(env: Env, rows: seq<Row>, fields: seq<FieldEntry>): Written {
    if fields == [] then Ok((rows, 0))
    else
      var row := BuildRow(env, DimDate, fields);
      if row.None? || !env.checks(DimDate, row.value) then Err(SqlFailure)
      else if CountMatching(rows, [("date_id", CellAt(row.value, "date_id"))]) > 0 then Ok((rows, 0))
      else if env.admits(DimDate, rows, row.value) then Ok((rows + [row.value], 1))
      else Err(SqlFailure)
  }

  function ReplaceRow(env: Env, t: Table, rows: seq<Row>, keys: seq<string>, fields: seq<FieldEntry>): Written {
    var pairs := WherePairs(env, t, keys, fields);
    if pairs.None? then Err(SqlFailure) else InsertRow(env, t, DeleteMatching(rows, pairs.value), fields)
  }

  /** An allowed operation on the rows of its table. */
  function Apply(env: Env, t: Table, op: Operation, rows: seq<Row>, keys: seq<string>,
                 locator: seq<FieldEntry>, fields: seq<FieldEntry>): Written {
    match op
    case RetentionDelete => Retention(env, t, rows, fields)
    case Update => UpdateFromEntries(env, t, rows, keys, locator, fields)
    case Delete => DeleteFromLocator(env, t, rows, keys, locator)
    case Insert | NullOperation =>
      if ReplaceKeys(t).Some? then ReplaceRow(env, t, rows, ReplaceKeys(t).value, fields)
      else if t == DimDate then InsertDate(env, rows, fields)
      else InsertRow(env, t, rows, fields)
    case UnknownOperation => Err(UnsupportedOperation)
  }

  function RowsOf(tables: Tables, t: Table): seq<Row> {
    if t in tables then tables[t] else []
  }

  /**
   _assert_signature: the check raises where its condition is true. A missing signature makes it true;
   missing bytes make every comparison unknown, which does not raise.
   */
  predicate Accepts(env: Env, canonical: Option<string>, signature: Option<string>) {
    signature.Some? && (canonical.None? || env.signed(canonical.value, signature.value))
  }

  /** The table, the operation, a key or the text of an entry that is not flagged NULL is missing. */
  predicate LacksPart(r: Record) {
    || r.table.None? || r.operation.None?
    || exists e :: e in r.locator + r.fields && (e.name.None? || (!e.isNull && e.val.None?))
  }

  /**
   Exactly when a call passes the check: its bytes carry the signature, or it has no bytes because a part
   is missing.
   */
  lemma AcceptedExactly(env: Env, r: Record, signature: Option<string>)
    ensures Accepts(env, CanonicalRecord(r), signature)
      <==> signature.Some? && (LacksPart(r) || env.signed(RecordBytes(r), signature.value))
  {
    var all := r.locator + r.fields;
    if r.table.None? || r.operation.None? {
      assert CanonicalRecord(r).None?;
    } else if LacksPart(r) {
      var e :| e in all && (e.name.None? || (!e.isNull && e.val.None?));
      var i :| 0 <= i < |all| && all[i] == e;
      assert if i < |r.locator| then !HasText(r.locator[i]) else !HasText(r.fields[i - |r.locator|]);
    } else {
      forall i | 0 <= i < |r.locator| ensures HasText(r.locator[i]) {
        assert r.locator[i] in all;
      }
      forall i | 0 <= i < |r.fields| ensures HasText(r.fields[i]) {
        assert r.fields[i] in all;
      }
    }
    hide RecordBytes;
  }

  /** exec_write: check the signature and the operation, then apply; errors change nothing. */
  function Exec(env: Env, tables: Tables, r: Record, signature: Option<string>): Outcome {
    var t, op := TableOf(r.table), OperationOf(r.operation);
    if !Accepts(env, CanonicalRecord(r), signature) then Outcome(tables, Err(InvalidSignature))
    else if OperationAllowed(t, op) == Some(false) || LocatorKeys(t).None? || t !in env.columns then
      Outcome(tables, Err(UnsupportedOperation))
    else
      match Apply(env, t, op, RowsOf(tables, t), LocatorKeys(t).value, r.locator, r.fields)
      case Err(e) => Outcome(tables, Err(e))
      case Ok((rows, n)) => Outcome(tables[t := rows], Ok(n))
  }

  /**
   A call without an operation is an insert that neither the signature nor the allow-list decides: on
   every known table it ends as a signed and listed insert of the same fields would.
   */
  lemma NullOperationInserts(env: Env, tables: Tables, r: Record, signature: string)
    requires r.operation.None? && TableOf(r.table) != UnknownTable
    ensures var t := TableOf(r.table);
      Exec(env, tables, r, Some(signature))
      == if t !in env.columns then Outcome(tables, Err(UnsupportedOperation))
         else match Apply(env, t, Insert, RowsOf(tables, t), LocatorKeys(t).value, r.locator, r.fields)
           case Err(e) => Outcome(tables, Err(e))
           case Ok((rows, n)) => Outcome(tables[t := rows], Ok(n))
  {
    hide TableOf, InsertRow, InsertDate, ReplaceRow;
  }

  /** Exactly which calls write outside the allow-list: those without an operation. */
  lemma WritesAreListedExactly(env: Env, tables: Tables, r: Record, signature: Option<string>)
    requires Exec(env, tables, r, signature).result.Ok?
    ensures OperationAllowed(TableOf(r.table), OperationOf(r.operation)) == Some(true) <==> r.operation.Some?
  {
    hide TableOf, Apply, Accepts;
  }

  /** The tables after a call that wrote w to t and returned r; a failure leaves them alone. */
  ghost predicate Wrote(before: Tables, after: Tables, t: Table, w: Written, r: Result<nat, GateError>) {
    match w
    case Err(e) => r == Err(e) && after == before
    case Ok((rows, n)) => r == Ok(n) && forall u :: RowsOf(after, u) == if u == t then rows else RowsOf(before, u)
  }

  lemma RetentionIs(env: Env, t: Table, rows: seq<Row>, fields: seq<FieldEntry>)
    ensures var kept := KeepNewer(env, t, fields, rows);
      Retention(env, t, rows, fields)
      == if EntryOf(fields, "cutoff").isNull then Err(UnsupportedOperation)
         else if !CutoffGiven(env, t, fields) then Err(SqlFailure)
         else Ok((kept, |rows| - |kept|))
  {
    hide KeepNewer, CutoffGiven, EntryOf;
  }

  lemma WroteNothing(tables: Tables, t: Table, e: GateError)
    ensures Wrote(tables, tables, t, Err(e), Err(e))
  {
  }

  lemma WroteSame(tables: Tables, t: Table)
    ensures Wrote(tables, tables, t, Ok((RowsOf(tables, t), 0)), Ok(0))
  {
  }

  lemma WroteRows(tables: Tables, t: Table, rows: seq<Row>, n: nat)
    ensures Wrote(tables, tables[t := rows], t, Ok((rows, n)), Ok(n))
    ensures RowsOf(tables[t := rows], t) == rows
  {
  }

  // ----- the gate as it runs: loops over entries and rows, tables changed in place

  class Gate {
    const env: Env
    var tables: Tables

    constructor (env: Env, tables: Tables)
      ensures this.env == env && this.tables == tables
    {
      this.env := env;
      this.tables := tables;
    }

    method RowFromEntries(t: Table, entries: seq<FieldEntry>) returns (row: Option<Row>)
      ensures row == BuildRow(env, t, entries)
    {
      var built: Row := map[];
      for i := 0 to |entries|
        invariant BuildRow(env, t, entries[..i]) == Some(built)
      {
        assert entries[..i + 1][..i] == entries[..i];
        var cell := Literal(env, t, entries[i]);
        var column := entries[i].key;
        if cell.None? || entries[i].name.None? || column in built || column !in ColumnsOf(env, t) {
          BuildRowFails(env, t, entries, i + 1);
          return None;
        }
        built := built[column := cell.value];
      }
      assert entries[..|entries|] == entries;
      row := Some(built);
    }

    method InsertFromEntries(t: Table, entries: seq<FieldEntry>) returns (r: Result<nat, GateError>)
      modifies this
      ensures Wrote(old(tables), tables, t, InsertRow(env, t, RowsOf(old(tables), t), entries), r)
    {
      if entries == [] {
        return Ok(0);
      }
      var row := RowFromEntries(t, entries);
      if row.None? || !Admitted(env, t, RowsOf(tables, t), row.value) {
        return Err(SqlFailure);
      }
      tables := tables[t := RowsOf(tables, t) + [row.value]];
      r := Ok(1);
    }

    method WhereFromEntries(t: Table, keys: seq<string>, entries: seq<FieldEntry>)
      returns (pairs: Option<seq<(string, Cell)>>)
      ensures pairs == WherePairs(env, t, keys, entries)
    {
      var built: seq<(string, Cell)> := [];
      for i := 0 to |keys|
        invariant WherePairs(env, t, keys[..i], entries) == Some(built)
      {
        assert keys[..i + 1][..i] == keys[..i];
        var cell := Literal(env, t, EntryOf(entries, keys[i]));
        if cell.None? {
          WherePairsFails(env, t, keys, entries, i + 1);
          return None;
        }
        built := built + [(keys[i], cell.value)];
      }
      assert keys[..|keys|] == keys;
      pairs := Some(built);
    }

    method DeleteWhere(t: Table, pairs: seq<(string, Cell)>) returns (n: nat)
      modifies this
      ensures tables == old(tables)[t := DeleteMatching(RowsOf(old(tables), t), pairs)]
      ensures n == |RowsOf(old(tables), t)| - |DeleteMatching(RowsOf(old(tables), t), pairs)|
    {
      var rows := RowsOf(tables, t);
      var kept: seq<Row> := [];
      for i := 0 to |rows|
        invariant kept == DeleteMatching(rows[..i], pairs) && |kept| <= i
      {
        assert rows[..i + 1][..i] == rows[..i];
        if !Matches(rows[i], pairs) {
          kept := kept + [rows[i]];
        }
      }
      assert rows[..|rows|] == rows;
      tables := tables[t := kept];
      n := |rows| - |kept|;
    }

    method DeleteByLocator(t: Table, keys: seq<string>, locator: seq<FieldEntry>) returns (r: Result<nat, GateError>)
      modifies this
      ensures Wrote(old(tables), tables, t, DeleteFromLocator(env, t, RowsOf(old(tables), t), keys, locator), r)
    {
      var pairs := WhereFromEntries(t, keys, locator);
      if keys == [] {
        return Err(UnsupportedOperation);
      }
      if pairs.None? {
        return Err(SqlFailure);
      }
      var n := DeleteWhere(t, pairs.value);
      r := Ok(n);
    }

    /** The SET list; locator columns are skipped. */
    method SetFromEntries(t: Table, keys: seq<string>, fields: seq<FieldEntry>) returns (changes: Option<Row>)
      ensures changes == SetPairs(env, t, keys, fields)
    {
      var built: Row := map[];
      for i := 0 to |fields|
        invariant SetPairs(env, t, keys, fields[..i]) == Some(built)
      {
        assert fields[..i + 1][..i] == fields[..i];
        var column := fields[i].key;
        if fields[i].name.Some? && column in keys {
          continue;
        }
        var cell := Literal(env, t, fields[i]);
        if cell.None? || fields[i].name.None? || column in built || column !in ColumnsOf(env, t) {
          SetPairsFails(env, t, keys, fields, i + 1);
          return None;
        }
        built := built[column := cell.value];
      }
      assert fields[..|fields|] == fields;
      changes := Some(built);
    }

    /** UPDATE .. SET .. WHERE, and the number of rows it touches. */
    static method UpdatedRows(rows: seq<Row>, pairs: seq<(string, Cell)>, changes: Row)
      returns (updated: seq<Row>, n: nat)
      ensures updated == UpdateRows(rows, pairs, changes) && n == CountMatching(rows, pairs)
    {
      updated, n := [], 0;
      for i := 0 to |rows|
        invariant updated == UpdateRows(rows[..i], pairs, changes)
        invariant n == CountMatching(rows[..i], pairs)
      {
        assert rows[..i + 1][..i] == rows[..i];
        if Matches(rows[i], pairs) {
          updated, n := updated + [rows[i] + changes], n + 1;
        } else {
          updated := updated + [rows[i]];
        }
      }
      assert rows[..|rows|] == rows;
    }

    method UpdateByLocator(t: Table, keys: seq<string>, locator: seq<FieldEntry>, fields: seq<FieldEntry>)
      returns (r: Result<nat, GateError>)
      modifies this
      ensures Wrote(old(tables), tables, t, UpdateFromEntries(env, t, RowsOf(old(tables), t), keys, locator, fields), r)
    {
      hide SetPairs, WherePairs, UpdateRows, CountMatching, Wrote;
      var rows := RowsOf(tables, t);
      var changes := SetFromEntries(t, keys, fields);
      WroteNothing(tables, t, SqlFailure);
      WroteSame(tables, t);
      if changes.None? {
        return Err(SqlFailure);
      }
      if changes.value == map[] {
        return Ok(0);
      }
      var pairs := WhereFromEntries(t, keys, locator);
      if pairs.None? {
        return Err(SqlFailure);
      }
      var updated, n := UpdatedRows(rows, pairs.value, changes.value);
      if !env.admitsUpdate(t, rows, updated) {
        return Err(SqlFailure);
      }
      WroteRows(tables, t, updated, n);
      tables := tables[t := updated];
      r := Ok(n);
    }

    method RetentionDelete(t: Table, fields: seq<FieldEntry>) returns (r: Result<nat, GateError>)
      modifies this
      ensures Wrote(old(tables), tables, t, Retention(env, t, RowsOf(old(tables), t), fields), r)
      ensures r.Ok? ==> forall row ::
        row in RowsOf(tables, t) <==> row in RowsOf(old(tables), t) && !Expired(env, t, fields, row)
    {
      hide *;
      var rows := RowsOf(tables, t);
      RetentionIs(env, t, rows, fields);
      WroteNothing(tables, t, UnsupportedOperation);
      WroteNothing(tables, t, SqlFailure);
      if EntryOf(fields, "cutoff").isNull {
        return Err(UnsupportedOperation);
      }
      if !CutoffGiven(env, t, fields) {
        return Err(SqlFailure);
      }
      ghost var at := RetentionKeepsNewer(env, t, rows, fields);
      var kept := UnexpiredRows(t, fields, rows);
      WroteRows(tables, t, kept, |rows| - |kept|);
      tables := tables[t := kept];
      r := Ok(|rows| - |kept|);
    }

    method UnexpiredRows(t: Table, fields: seq<FieldEntry>, rows: seq<Row>) returns (kept: seq<Row>)
      ensures kept == KeepNewer(env, t, fields, rows)
    {
      hide Expired;
      kept := [];
      for i := 0 to |rows|
        invariant kept == KeepNewer(env, t, fields, rows[..i])
      {
        assert rows[..i + 1][..i] == rows[..i];
        if !Expired(env, t, fields, rows[i]) {
          kept := kept + [rows[i]];
        }
      }
      assert rows[..|rows|] == rows;
    }

    method InsertDimDate(fields: seq<FieldEntry>) returns (r: Result<nat, GateError>)
      modifies this
      ensures Wrote(old(tables), tables, DimDate, InsertDate(env, RowsOf(old(tables), DimDate), fields), r)
    {
      if fields == [] {
        return Ok(0);
      }
      var row := RowFromEntries(DimDate, fields);
      if row.None? || !env.checks(DimDate, row.value) {
        return Err(SqlFailure);
      }
      var rows := RowsOf(tables, DimDate);
      if CountMatching(rows, [("date_id", CellAt(row.value, "date_id"))]) > 0 {
        return Ok(0);
      }
      if !env.admits(DimDate, rows, row.value) {
        return Err(SqlFailure);
      }
      tables := tables[DimDate := rows + [row.value]];
      r := Ok(1);
    }

    /** Delete on the key columns of the new row, then insert; a failed insert undoes the delete. */
    method ReplaceFromEntries(t: Table, keys: seq<string>, fields: seq<FieldEntry>) returns (r: Result<nat, GateError>)
      modifies this
      ensures Wrote(old(tables), tables, t, ReplaceRow(env, t, RowsOf(old(tables), t), keys, fields), r)
    {
      hide WherePairs, DeleteMatching, InsertRow;
      var pairs := WhereFromEntries(t, keys, fields);
      if pairs.None? {
        return Err(SqlFailure);
      }
      var saved := tables;
      var _ := DeleteWhere(t, pairs.value);
      r := InsertFromEntries(t, fields);
      if r.Err? {
        tables := saved;
      }
    }

    /** exec_write */
    method ExecWrite(r: Record, signature: Option<string>) returns (result: Result<nat, GateError>)
      modifies this
      ensures result == Exec(env, old(tables), r, signature).result
      ensures forall t :: RowsOf(tables, t) == RowsOf(Exec(env, old(tables), r, signature).tables, t)
    {
      hide CanonicalRecord, TableOf, OperationOf, UpdateFromEntries, DeleteFromLocator, InsertDate, Retention,
        ReplaceRow, InsertRow;
      var t, op := TableOf(r.table), OperationOf(r.operation);
      if !Accepts(env, CanonicalRecord(r), signature) {
        return Err(InvalidSignature);
      }
      if OperationAllowed(t, op) == Some(false) || LocatorKeys(t).None? || t !in env.columns {
        return Err(UnsupportedOperation);
      }
      var keys := LocatorKeys(t).value;
      match op {
        case RetentionDelete =>
          result := RetentionDelete(t, r.fields);
        case Update =>
          result := UpdateByLocator(t, keys, r.locator, r.fields);
        case Delete =>
          result := DeleteByLocator(t, keys, r.locator);
        case UnknownOperation =>
          result := Err(UnsupportedOperation);
        case Insert | NullOperation =>
          if ReplaceKeys(t).Some? {
            result := ReplaceFromEntries(t, ReplaceKeys(t).value, r.fields);
          } else if t == DimDate {
            result := InsertDimDate(r.fields);
          } else {
            result := InsertFromEntries(t, r.fields);
          }
      }
    }
  }

  lemma {:induction false} SetPairsFails(env: Env, t: Table, keys: seq<string>, fields: seq<FieldEntry>, n: nat)
    requires n <= |fields| && SetPairs(env, t, keys, fields[..n]).None?
    ensures SetPairs(env, t, keys, fields).None?
    decreases |fields|
  {
    if n < |fields| {
      var front := fields[..|fields| - 1];
      assert front[..n] == fields[..n];
      SetPairsFails(env, t, keys, front, n);
    } else {
      assert fields[..n] == fields;
    }
  }

  lemma {:induction false} BuildRowFails(env: Env, t: Table, entries: seq<FieldEntry>, n: nat)
    requires n <= |entries| && BuildRow(env, t, entries[..n]).None?
    ensures BuildRow(env, t, entries).None?
    decreases |entries|
  {
    if n < |entries| {
      var front := entries[..|entries| - 1];
      assert front[..n] == entries[..n];
      BuildRowFails(env, t, front, n);
    } else {
      assert entries[..n] == entries;
    }
  }

  lemma {:induction false} WherePairsFails(env: Env, t: Table, keys: seq<string>, entries: seq<FieldEntry>, n: nat)
    requires n <= |keys| && WherePairs(env, t, keys[..n], entries).None?
    ensures WherePairs(env, t, keys, entries).None?
    decreases |keys|
  {
    if n < |keys| {
      var front := keys[..|keys| - 1];
      assert front[..n] == keys[..n];
      WherePairsFails(env, t, front, entries, n);
    } else {
      assert keys[..n] == keys;
    }
  }
}
