/**
 exec_write_rows: many signed inserts into a pool table with one statement. It is held against
 the same inserts sent through exec_write one by one in one transaction.
 */
module GateBatch {
  import opened Common
  import opened CanonicalEncoding
  import opened WriteGate

  type Fields = seq<FieldEntry>

  /** The JSON object of a row: a later entry with the same key overwrites an earlier one. */
  type RowObject = map<string, Option<string>>

  predicate IsPoolTable(t: Table) {
    t == DimProduct || t == FactListing
  }

  /** The locator a client signs: the row's own locator columns, in row order. */
  function OwnLocator(keys: seq<string>, fields: Fields): Fields {
    if fields == [] then []
    else
      var last := fields[|fields| - 1];
      OwnLocator(keys, fields[..|fields| - 1]) + (if last.name.Some? && last.key in keys then [last] else [])
  }

  function KeysOf(fields: Fields): (keys: seq<string>)
    ensures |keys| == |fields|
  {
    if fields == [] then [] else KeysOf(fields[..|fields| - 1]) + [fields[|fields| - 1].key]
  }

  /** Every entry has a key, as the building of a JSON object demands. */
  predicate AllNamed(fields: Fields) {
    forall i :: 0 <= i < |fields| ==> fields[i].name.Some?
  }

  lemma {:induction false} KeysOfAt(fields: Fields, i: nat)
    requires i < |fields|
    ensures KeysOf(fields)[i] == fields[i].key
  {
    if i < |fields| - 1 {
      KeysOfAt(fields[..|fields| - 1], i);
    }
  }

  function ObjectOf(fields: Fields): RowObject {
    if fields == [] then map[]
    else
      var last := fields[|fields| - 1];
      ObjectOf(fields[..|fields| - 1])[last.key := if last.isNull then None else last.val]
  }

  function RecordOf(table: Option<string>, fields: Fields): Record {
    var keys := LocatorKeys(TableOf(table));
    Record(table, Some("insert"), OwnLocator(if keys.Some? then keys.value else [], fields), fields)
  }

  /** (r->>'column')::type for each column of the select list. */
  function SelectRow(env: Env, t: Table, columns: seq<string>, json: RowObject): Option<Row> {
    if columns == [] then Some(map[])
    else
      var c := columns[|columns| - 1];
      var before := SelectRow(env, t, columns[..|columns| - 1], json);
      if before.None? then None
      else if c !in json || json[c].None? then Some(before.value[c := Null])
      else
        var v := env.cast(t, c, json[c].value);
        if v.Some? then Some(before.value[c := Val(v.value)]) else None
  }

  /** INSERT .. SELECT: rows stream in one after the other; any failure fails the statement. */
  function InsertSelect(env: Env, t: Table, rows: seq<Row>, columns: seq<string>,
                        payload: seq<RowObject>): Option<seq<Row>> {
    if payload == [] then Some(rows)
    else
      var before := InsertSelect(env, t, rows, columns, payload[..|payload| - 1]);
      var row := SelectRow(env, t, columns, payload[|payload| - 1]);
      if before.None? || row.None? || !Admitted(env, t, before.value, row.value) then None
      else Some(before.value + [row.value])
  }

  /** exec_write_rows, tables changed in place. */
  method ExecWriteRows(gate: Gate, table: Option<string>, rows: seq<Fields>, signatures: seq<Option<string>>)
    returns (r: Result<nat, GateError>)
    modifies gate
    ensures r == BatchResult(gate.env, old(gate.tables), table, rows, signatures).result
    ensures gate.tables == BatchResult(gate.env, old(gate.tables), table, rows, signatures).tables
  {
    hide TableOf, CheckRows, CheckRow, Payload, KeysOf, Finish, RecordOf, CanonicalRecord, ObjectOf;
    var t := TableOf(table);
    NoTableIsUnknown();
    if table.Some? && !IsPoolTable(t) {
      return Err(UnsupportedOperation);
    }
    if OperationAllowed(t, Insert) == Some(false) || t !in gate.env.columns {
      return Err(UnsupportedOperation);
    }
    if rows == [] {
      return Ok(0);
    }
    if |signatures| != |rows| {
      return Err(InvalidSignature);
    }
    var firstKeys := [];
    var payload: seq<RowObject> := [];
    NothingChecked(gate.env, table, rows, signatures);
    for i := 0 to |rows|
      invariant CheckRows(gate.env, table, rows[..i], signatures[..i]) == None
      invariant i > 0 ==> firstKeys == KeysOf(rows[0])
      invariant payload == Payload(rows[..i])
      invariant gate.tables == old(gate.tables)
    {
      CheckNext(gate.env, table, rows, signatures, i);
      PayloadNext(rows, i);
      CheckRowMeaning(gate.env, table, KeysOf(rows[0]), rows[i], signatures[i]);
      if !Accepts(gate.env, CanonicalRecord(RecordOf(table, rows[i])), signatures[i]) {
        CheckFails(gate.env, table, rows, signatures, i + 1);
        return Err(InvalidSignature);
      }
      var named, rowKeys, rowObject := ReadRow(rows[i]);
      if !named {
        CheckFails(gate.env, table, rows, signatures, i + 1);
        return Err(SqlFailure);
      }
      if i == 0 {
        firstKeys := rowKeys;
      } else if rowKeys != firstKeys {
        CheckFails(gate.env, table, rows, signatures, i + 1);
        return Err(HeterogeneousRows);
      }
      payload := payload + [rowObject];
    }
    assert rows[..|rows|] == rows && signatures[..|rows|] == signatures;
    r := InsertPayload(gate, t, firstKeys, payload);
  }

  /** A missing table passes the first check, which it makes unknown, and fails the second. */
  lemma NoTableIsUnknown()
    ensures TableOf(None) == UnknownTable
  {
  }

  lemma NothingChecked(env: Env, table: Option<string>, rows: seq<Fields>, signatures: seq<Option<string>>)
    requires |rows| == |signatures|
    ensures CheckRows(env, table, rows[..0], signatures[..0]) == None
    ensures Payload(rows[..0]) == []
  {
  }

  /** Column types are resolved once per column, then one statement inserts everything. */
  method InsertPayload(gate: Gate, t: Table, columns: seq<string>, payload: seq<RowObject>)
    returns (r: Result<nat, GateError>)
    modifies gate
    ensures Outcome(gate.tables, r) == Finish(gate.env, old(gate.tables), t, columns, payload)
  {
    for j := 0 to |columns|
      invariant forall k :: 0 <= k < j ==> columns[k] in ColumnsOf(gate.env, t)
    {
      if columns[j] !in ColumnsOf(gate.env, t) {
        return Err(SqlFailure);
      }
    }
    if columns == [] || !DistinctColumns(columns) {
      return Err(SqlFailure);
    }
    var inserted := InsertSelect(gate.env, t, RowsOf(gate.tables, t), columns, payload);
    if inserted.None? {
      return Err(SqlFailure);
    }
    gate.tables := gate.tables[t := inserted.value];
    r := Ok(|payload|);
  }

  method ReadRow(fields: Fields) returns (named: bool, rowKeys: seq<string>, rowObject: RowObject)
    ensures named <==> AllNamed(fields)
    ensures named ==> rowKeys == KeysOf(fields) && rowObject == ObjectOf(fields)
  {
    rowKeys, rowObject := [], map[];
    for i := 0 to |fields|
      invariant AllNamed(fields[..i]) && rowKeys == KeysOf(fields[..i]) && rowObject == ObjectOf(fields[..i])
    {
      assert fields[..i + 1][..i] == fields[..i];
      if fields[i].name.None? {
        return false, [], map[];
      }
      rowKeys := rowKeys + [fields[i].key];
      rowObject := rowObject[fields[i].key := if fields[i].isNull then None else fields[i].val];
    }
    assert fields[..|fields|] == fields;
    named := true;
  }

  function Payload(rows: seq<Fields>): (payload: seq<RowObject>)
    ensures |payload| == |rows|
  {
    if rows == [] then [] else Payload(rows[..|rows| - 1]) + [ObjectOf(rows[|rows| - 1])]
  }

  /** A row's own signature, its keys, then the shared column list. */
  function CheckRow(env: Env, table: Option<string>, firstKeys: seq<string>, fields: Fields,
                    signature: Option<string>): Option<GateError> {
    if !Accepts(env, CanonicalRecord(RecordOf(table, fields)), signature) then Some(InvalidSignature)
    else if !AllNamed(fields) then Some(SqlFailure)
    else if KeysOf(fields) != firstKeys then Some(HeterogeneousRows)
    else None
  }

  lemma CheckRowMeaning(env: Env, table: Option<string>, firstKeys: seq<string>, fields: Fields,
                        signature: Option<string>)
    ensures CheckRow(env, table, firstKeys, fields, signature)
         == if !Accepts(env, CanonicalRecord(RecordOf(table, fields)), signature) then Some(InvalidSignature)
            else if !AllNamed(fields) then Some(SqlFailure)
            else if KeysOf(fields) != firstKeys then Some(HeterogeneousRows)
            else None
  {
  }

  /** The first failed check of the batch. */
  function CheckRows(env: Env, table: Option<string>, rows: seq<Fields>,
                     signatures: seq<Option<string>>): Option<GateError>
    requires |rows| == |signatures|
  {
    if rows == [] then None
    else
      var n := |rows| - 1;
      var before := CheckRows(env, table, rows[..n], signatures[..n]);
      if before.Some? then before else CheckRow(env, table, KeysOf(rows[0]), rows[n], signatures[n])
  }

  predicate DistinctColumns(columns: seq<string>) {
    forall i, j :: 0 <= i < j < |columns| ==> columns[i] != columns[j]
  }

  predicate ColumnsFit(env: Env, t: Table, columns: seq<string>) {
    && DistinctColumns(columns)
    && forall i :: 0 <= i < |columns| ==> columns[i] in ColumnsOf(env, t)
  }

  /** The statement of a batch whose rows all passed their checks. */
  function Finish(env: Env, tables: Tables, t: Table, columns: seq<string>, payload: seq<RowObject>): Outcome {
    var inserted := InsertSelect(env, t, RowsOf(tables, t), columns, payload);
    if columns == [] || !ColumnsFit(env, t, columns) || inserted.None? then Outcome(tables, Err(SqlFailure))
    else Outcome(tables[t := inserted.value], Ok(|payload|))
  }

  function BatchResult(env: Env, tables: Tables, table: Option<string>, rows: seq<Fields>,
                       signatures: seq<Option<string>>): Outcome {
    var t := TableOf(table);
    if !IsPoolTable(t) || t !in env.columns then Outcome(tables, Err(UnsupportedOperation))
    else if rows == [] then Outcome(tables, Ok(0))
    else if |signatures| != |rows| then Outcome(tables, Err(InvalidSignature))
    else
      var check := CheckRows(env, table, rows, signatures);
      if check.Some? then Outcome(tables, Err(check.value))
      else Finish(env, tables, t, KeysOf(rows[0]), Payload(rows))
  }

  lemma CheckNext(env: Env, table: Option<string>, rows: seq<Fields>, signatures: seq<Option<string>>, i: nat)
    requires i < |rows| == |signatures| && CheckRows(env, table, rows[..i], signatures[..i]) == None
    ensures CheckRows(env, table, rows[..i + 1], signatures[..i + 1])
         == CheckRow(env, table, KeysOf(rows[0]), rows[i], signatures[i])
  {
    hide CheckRow, KeysOf;
    assert rows[..i + 1][..i] == rows[..i] && signatures[..i + 1][..i] == signatures[..i];
  }

  lemma PayloadNext(rows: seq<Fields>, i: nat)
    requires i < |rows|
    ensures Payload(rows[..i + 1]) == Payload(rows[..i]) + [ObjectOf(rows[i])]
  {
    assert rows[..i + 1][..i] == rows[..i];
  }

  /** The first failure is the batch's. */
  lemma {:induction false} CheckFails(env: Env, table: Option<string>, rows: seq<Fields>,
                                      signatures: seq<Option<string>>, i: nat)
    requires 0 < i <= |rows| == |signatures| && CheckRows(env, table, rows[..i], signatures[..i]).Some?
    ensures CheckRows(env, table, rows, signatures) == CheckRows(env, table, rows[..i], signatures[..i])
    decreases |rows|
  {
    hide CheckRow, KeysOf;
    if i == |rows| {
      assert rows[..i] == rows && signatures[..i] == signatures;
    } else {
      var n := |rows| - 1;
      assert rows[..n][..i] == rows[..i] && signatures[..n][..i] == signatures[..i];
      CheckFails(env, table, rows[..n], signatures[..n], i);
    }
  }

  // ----- the same inserts one by one, in one transaction

  function SinglesResult(env: Env, tables: Tables, table: Option<string>, rows: seq<Fields>,
                         signatures: seq<Option<string>>): Outcome
    requires |rows| == |signatures|
  {
    if rows == [] then Outcome(tables, Ok(0))
    else
      var n := |rows| - 1;
      var before := SinglesResult(env, tables, table, rows[..n], signatures[..n]);
      if before.result.Err? then Outcome(tables, before.result)
      else
        var last := Exec(env, before.tables, RecordOf(table, rows[n]), signatures[n]);
        if last.result.Err? then Outcome(tables, last.result)
        else Outcome(last.tables, Ok(before.result.value + last.result.value))
  }

  /** Rows that share one non-empty column list. */
  predicate OneColumnList(rows: seq<Fields>) {
    rows != [] && rows[0] != []
    && forall i :: 0 <= i < |rows| ==> KeysOf(rows[i]) == KeysOf(rows[0]) && rows[i] != []
  }

  predicate DistinctKeys(fields: Fields) {
    forall i, j :: 0 <= i < j < |fields| ==> fields[i].key != fields[j].key
  }

  lemma DistinctKeysOf(fields: Fields)
    ensures DistinctColumns(KeysOf(fields)) <==> DistinctKeys(fields)
  {
    forall i | 0 <= i < |fields| ensures KeysOf(fields)[i] == fields[i].key {
      KeysOfAt(fields, i);
    }
    if DistinctKeys(fields) {
      forall i, j | 0 <= i < j < |fields| ensures KeysOf(fields)[i] != KeysOf(fields)[j] {
        assert fields[i].key != fields[j].key;
      }
    } else {
      var i, j :| 0 <= i < j < |fields| && fields[i].key == fields[j].key;
      assert KeysOf(fields)[i] == KeysOf(fields)[j];
    }
  }

  lemma {:induction false} ObjectAt(fields: Fields, i: nat)
    requires i < |fields| && DistinctKeys(fields)
    ensures fields[i].key in ObjectOf(fields)
    ensures ObjectOf(fields)[fields[i].key] == if fields[i].isNull then None else fields[i].val
  {
    if i < |fields| - 1 {
      ObjectAt(fields[..|fields| - 1], i);
    }
  }

  lemma {:induction false} BuiltColumns(env: Env, t: Table, fields: Fields)
    requires BuildRow(env, t, fields).Some?
    ensures DistinctKeys(fields) && AllNamed(fields)
    ensures forall i :: 0 <= i < |fields| ==> fields[i].key in ColumnsOf(env, t)
    ensures forall c :: c in BuildRow(env, t, fields).value <==> exists i :: 0 <= i < |fields| && fields[i].key == c
  {
    if fields != [] {
      var n := |fields| - 1;
      var front := fields[..n];
      BuiltColumns(env, t, front);
      forall i | 0 <= i < n ensures fields[i].key != fields[n].key {
        assert front[i].key in BuildRow(env, t, front).value;
      }
      forall c
        ensures c in BuildRow(env, t, fields).value <==> exists i :: 0 <= i < |fields| && fields[i].key == c
      {
        if c in BuildRow(env, t, front).value {
          var i :| 0 <= i < n && front[i].key == c;
          assert fields[i].key == c;
        }
        if i :| 0 <= i < |fields| && fields[i].key == c {
          assert i < n ==> front[i].key == c;
        }
      }
    }
  }

  lemma SelectRowNext(env: Env, t: Table, columns: seq<string>, c: string, json: RowObject)
    ensures SelectRow(env, t, columns + [c], json)
         == var before := SelectRow(env, t, columns, json);
            if before.None? then None
            else if c !in json || json[c].None? then Some(before.value[c := Null])
            else
              var v := env.cast(t, c, json[c].value);
              if v.Some? then Some(before.value[c := Val(v.value)]) else None
  {
    assert (columns + [c])[..|columns|] == columns;
  }

  lemma BuildRowNext(env: Env, t: Table, front: Fields, e: FieldEntry)
    requires e.key in ColumnsOf(env, t) && e.name.Some?
    ensures BuildRow(env, t, front + [e])
         == var before := BuildRow(env, t, front);
            if before.None? || e.key in before.value then None
            else if e.isNull || e.val.None? then Some(before.value[e.key := Null])
            else
              var v := env.cast(t, e.key, e.val.value);
              if v.Some? then Some(before.value[e.key := Val(v.value)]) else None
  {
    assert (front + [e])[..|front|] == front;
  }

  lemma KeysOfNext(front: Fields, e: FieldEntry)
    ensures KeysOf(front + [e]) == KeysOf(front) + [e.key]
  {
    assert (front + [e])[..|front|] == front;
  }

  /** The first n columns of a row, built entry by entry or selected from the JSON object. */
  lemma {:induction false} SelectIsBuild(env: Env, t: Table, fields: Fields, n: nat)
    requires n <= |fields| && DistinctKeys(fields) && AllNamed(fields)
    requires forall i :: 0 <= i < |fields| ==> fields[i].key in ColumnsOf(env, t)
    ensures SelectRow(env, t, KeysOf(fields[..n]), ObjectOf(fields)) == BuildRow(env, t, fields[..n])
  {
    hide SelectRow, BuildRow, ObjectOf, KeysOf, ColumnsOf;
    if n == 0 {
      NoColumns(env, t, ObjectOf(fields));
      assert fields[..0] == [];
    } else {
      var front, e := fields[..n - 1], fields[n - 1];
      SelectIsBuild(env, t, fields, n - 1);
      assert fields[..n] == front + [e];
      ObjectAt(fields, n - 1);
      KeysOfNext(front, e);
      SelectRowNext(env, t, KeysOf(front), e.key, ObjectOf(fields));
      BuildRowNext(env, t, front, e);
      if BuildRow(env, t, front).Some? {
        BuiltColumns(env, t, front);
      }
    }
  }

  lemma NoColumns(env: Env, t: Table, json: RowObject)
    ensures SelectRow(env, t, KeysOf([]), json) == BuildRow(env, t, [])
  {
  }

  /** One row: the single insert and the batch's select agree when the columns fit. */
  lemma SameRow(env: Env, t: Table, fields: Fields)
    ensures ColumnsFit(env, t, KeysOf(fields)) && AllNamed(fields) ==>
      SelectRow(env, t, KeysOf(fields), ObjectOf(fields)) == BuildRow(env, t, fields)
    ensures !ColumnsFit(env, t, KeysOf(fields)) || !AllNamed(fields) ==> BuildRow(env, t, fields).None?
  {
    DistinctKeysOf(fields);
    forall i | 0 <= i < |fields| ensures KeysOf(fields)[i] == fields[i].key {
      KeysOfAt(fields, i);
    }
    if ColumnsFit(env, t, KeysOf(fields)) && AllNamed(fields) {
      forall i | 0 <= i < |fields| ensures fields[i].key in ColumnsOf(env, t) {
        assert KeysOf(fields)[i] in ColumnsOf(env, t);
      }
      SelectIsBuild(env, t, fields, |fields|);
      assert fields[..|fields|] == fields;
    } else if BuildRow(env, t, fields).Some? {
      BuiltColumns(env, t, fields);
      assert false;
    }
  }

  /** What a pool insert does to the rows of its table. */
  lemma PoolInsert(env: Env, t: Table, rows: seq<Row>, keys: seq<string>, locator: Fields, fields: Fields)
    requires IsPoolTable(t) && fields != []
    ensures Apply(env, t, Insert, rows, keys, locator, fields) == InsertRow(env, t, rows, fields)
  {
  }

  /** A single signed insert into a pool table. */
  lemma SingleInsert(env: Env, tables: Tables, table: Option<string>, fields: Fields, signature: Option<string>)
    requires IsPoolTable(TableOf(table)) && TableOf(table) in env.columns && fields != []
    ensures var t, rows := TableOf(table), RowsOf(tables, TableOf(table));
      var row := BuildRow(env, t, fields);
      var ok := Accepts(env, CanonicalRecord(RecordOf(table, fields)), signature) && row.Some?
                && Admitted(env, t, rows, row.value);
      && (Exec(env, tables, RecordOf(table, fields), signature).result.Ok? <==> ok)
      && (ok ==>
        Exec(env, tables, RecordOf(table, fields), signature) == Outcome(tables[t := rows + [row.value]], Ok(1)))
  {
    var r, t := RecordOf(table, fields), TableOf(table);
    assert r.table == table && r.operation == Some("insert") && r.fields == fields;
    assert OperationOf(Some("insert")) == Insert;
    PoolInsert(env, t, RowsOf(tables, t), LocatorKeys(t).value, r.locator, fields);
    hide CanonicalRecord, BuildRow, TableOf, RecordOf, OperationOf, Apply;
  }

  /** How far a prefix of the batch gets, in either form. */
  ghost predicate PrefixAgrees(env: Env, tables: Tables, table: Option<string>, columns: seq<string>,
                               rows: seq<Fields>, signatures: seq<Option<string>>)
    requires |rows| == |signatures|
  {
    var t := TableOf(table);
    var singles := SinglesResult(env, tables, table, rows, signatures);
    var batch := InsertSelect(env, t, RowsOf(tables, t), columns, Payload(rows));
    && (singles.result.Ok? <==> CheckRows(env, table, rows, signatures) == None && batch.Some?)
    && (singles.result.Ok? ==> singles.result.value == |rows| && RowsOf(singles.tables, t) == batch.value)
    && (singles.result.Ok? && rows != [] ==> singles.tables == tables[t := batch.value])
    && (singles.result.Err? || rows == [] ==> singles.tables == tables)
  }

  lemma SinglesNext(env: Env, tables: Tables, table: Option<string>, rows: seq<Fields>, signatures: seq<Option<string>>)
    requires |rows| == |signatures| && rows != []
    ensures var n := |rows| - 1;
      var before := SinglesResult(env, tables, table, rows[..n], signatures[..n]);
      var last := Exec(env, before.tables, RecordOf(table, rows[n]), signatures[n]);
      SinglesResult(env, tables, table, rows, signatures)
      == if before.result.Err? then Outcome(tables, before.result)
         else if last.result.Err? then Outcome(tables, last.result)
         else Outcome(last.tables, Ok(before.result.value + last.result.value))
  {
    hide Exec, RecordOf;
  }

  lemma InsertSelectNext(env: Env, t: Table, start: seq<Row>, columns: seq<string>, rows: seq<Fields>)
    requires rows != []
    ensures var n := |rows| - 1;
      var before := InsertSelect(env, t, start, columns, Payload(rows[..n]));
      var row := SelectRow(env, t, columns, ObjectOf(rows[n]));
      InsertSelect(env, t, start, columns, Payload(rows))
      == if before.None? || row.None? || !Admitted(env, t, before.value, row.value) then None
         else Some(before.value + [row.value])
  {
    var n := |rows| - 1;
    assert Payload(rows)[..n] == Payload(rows[..n]);
    hide SelectRow, ObjectOf;
  }

  lemma CheckLast(env: Env, table: Option<string>, rows: seq<Fields>, signatures: seq<Option<string>>)
    requires |rows| == |signatures| && rows != [] && KeysOf(rows[|rows| - 1]) == KeysOf(rows[0])
    ensures var n := |rows| - 1;
      var ok := Accepts(env, CanonicalRecord(RecordOf(table, rows[n])), signatures[n]);
      (CheckRows(env, table, rows, signatures) == None
       <==> CheckRows(env, table, rows[..n], signatures[..n]) == None && ok && AllNamed(rows[n]))
  {
    hide CanonicalRecord, RecordOf, KeysOf;
  }

  lemma EmptyPrefixAgrees(env: Env, tables: Tables, table: Option<string>, columns: seq<string>)
    ensures PrefixAgrees(env, tables, table, columns, [], [])
  {
  }

  lemma {:induction false} PrefixesAgree(env: Env, tables: Tables, table: Option<string>, columns: seq<string>,
                                         rows: seq<Fields>, signatures: seq<Option<string>>)
    requires IsPoolTable(TableOf(table)) && TableOf(table) in env.columns && ColumnsFit(env, TableOf(table), columns)
    requires |rows| == |signatures| && forall i :: 0 <= i < |rows| ==> KeysOf(rows[i]) == columns && rows[i] != []
    ensures PrefixAgrees(env, tables, table, columns, rows, signatures)
  {
    hide SinglesResult, InsertSelect, SelectRow, BuildRow, Exec, RecordOf, CanonicalRecord, Payload, KeysOf, TableOf,
      ColumnsFit, CheckRows, CheckRow, ObjectOf;
    if rows == [] {
      assert signatures == [];
      EmptyPrefixAgrees(env, tables, table, columns);
    } else {
      var t, n := TableOf(table), |rows| - 1;
      PrefixesAgree(env, tables, table, columns, rows[..n], signatures[..n]);
      var before := SinglesResult(env, tables, table, rows[..n], signatures[..n]);
      SinglesNext(env, tables, table, rows, signatures);
      InsertSelectNext(env, t, RowsOf(tables, t), columns, rows);
      CheckLast(env, table, rows, signatures);
      SameRow(env, t, rows[n]);
      SingleInsert(env, before.tables, table, rows[n], signatures[n]);
    }
  }

  /** A failed sequence of single inserts is rolled back. */
  lemma SinglesErrKeeps(env: Env, tables: Tables, table: Option<string>, rows: seq<Fields>,
                        signatures: seq<Option<string>>)
    requires |rows| == |signatures|
    ensures SinglesResult(env, tables, table, rows, signatures).result.Err? ==>
      SinglesResult(env, tables, table, rows, signatures).tables == tables
  {
    hide Exec, RecordOf;
  }

  /** Columns that do not fit fail the very first single insert. */
  lemma {:induction false} MisfitFailsSingles(env: Env, tables: Tables, table: Option<string>, rows: seq<Fields>,
                                              signatures: seq<Option<string>>)
    requires IsPoolTable(TableOf(table)) && TableOf(table) in env.columns
    requires |rows| == |signatures| && OneColumnList(rows) && !ColumnsFit(env, TableOf(table), KeysOf(rows[0]))
    ensures SinglesResult(env, tables, table, rows, signatures).result.Err?
    ensures SinglesResult(env, tables, table, rows, signatures).tables == tables
  {
    var n := |rows| - 1;
    assert KeysOf(rows[n]) == KeysOf(rows[0]) && rows[n] != [];
    SinglesNext(env, tables, table, rows, signatures);
    hide SinglesResult, KeysOf, ColumnsFit, BuildRow, SelectRow, TableOf, RecordOf, CanonicalRecord, ObjectOf, Exec;
    var before := SinglesResult(env, tables, table, rows[..n], signatures[..n]);
    SameRow(env, TableOf(table), rows[n]);
    SingleInsert(env, before.tables, table, rows[n], signatures[n]);
    SinglesErrKeeps(env, tables, table, rows, signatures);
  }

  /**
   Main result: on rows with one shared non-empty column list the batch succeeds exactly when the
   single inserts do; it then leaves the same table and returns the row count, and otherwise
   changes nothing.
   */
  lemma BatchRefinesSingles(env: Env, tables: Tables, table: Option<string>, rows: seq<Fields>,
                            signatures: seq<Option<string>>)
    requires IsPoolTable(TableOf(table)) && |rows| == |signatures| && OneColumnList(rows)
    ensures var batch, singles := BatchResult(env, tables, table, rows, signatures),
                                  SinglesResult(env, tables, table, rows, signatures);
      && (batch.result.Ok? <==> singles.result.Ok?)
      && batch.tables == singles.tables
      && (batch.result.Ok? ==> batch.result == Ok(|rows|) == singles.result)
      && (batch.result.Err? ==> batch.tables == tables)
  {
    hide SinglesResult, InsertSelect, KeysOf, TableOf, ColumnsFit, CheckRows, Payload;
    var t := TableOf(table);
    if t !in env.columns {
      NoTableFailsSingles(env, tables, table, rows, signatures);
    } else if ColumnsFit(env, t, KeysOf(rows[0])) {
      PrefixesAgree(env, tables, table, KeysOf(rows[0]), rows, signatures);
    } else {
      MisfitFailsSingles(env, tables, table, rows, signatures);
    }
  }

  lemma {:induction false} NoTableFailsSingles(env: Env, tables: Tables, table: Option<string>, rows: seq<Fields>,
                                               signatures: seq<Option<string>>)
    requires TableOf(table) !in env.columns && |rows| == |signatures| && rows != []
    ensures SinglesResult(env, tables, table, rows, signatures).result.Err?
    ensures SinglesResult(env, tables, table, rows, signatures).tables == tables
  {
    hide TableOf, CanonicalRecord;
  }

  /** Rows that do not share their columns are refused as a whole. */
  lemma {:induction false} MixedRowsChangeNothing(env: Env, tables: Tables, table: Option<string>, rows: seq<Fields>,
                                                  signatures: seq<Option<string>>, i: nat)
    requires i < |rows| && KeysOf(rows[i]) != KeysOf(rows[0])
    ensures BatchResult(env, tables, table, rows, signatures).result.Err?
    ensures BatchResult(env, tables, table, rows, signatures).tables == tables
  {
    if |rows| == |signatures| {
      MixedRowsFail(env, table, rows, signatures, i);
    }
    hide TableOf, CanonicalRecord, CheckRows;
  }

  lemma {:induction false} MixedRowsFail(env: Env, table: Option<string>, rows: seq<Fields>,
                                         signatures: seq<Option<string>>, i: nat)
    requires i < |rows| == |signatures| && KeysOf(rows[i]) != KeysOf(rows[0])
    ensures CheckRows(env, table, rows, signatures).Some?
  {
    var n := |rows| - 1;
    hide CanonicalRecord, KeysOf;
    if i < n {
      MixedRowsFail(env, table, rows[..n], signatures[..n], i);
    }
  }

  // ----- which batches fail, and how

  predicate RowSigned(env: Env, table: Option<string>, fields: Fields, signature: Option<string>) {
    && signature.Some?
    && (LacksPart(RecordOf(table, fields)) || env.signed(RecordBytes(RecordOf(table, fields)), signature.value))
  }

  /** What is wrong with row i: first its signature, then a missing key, then other columns than the first row's. */
  function Fault(env: Env, table: Option<string>, rows: seq<Fields>, signatures: seq<Option<string>>,
                 i: nat): Option<GateError>
    requires i < |rows| == |signatures|
  {
    if !RowSigned(env, table, rows[i], signatures[i]) then Some(InvalidSignature)
    else if exists j :: 0 <= j < |rows[i]| && rows[i][j].name.None? then Some(SqlFailure)
    else if KeysOf(rows[i]) != KeysOf(rows[0]) then Some(HeterogeneousRows)
    else None
  }

  predicate FirstFault(env: Env, table: Option<string>, rows: seq<Fields>, signatures: seq<Option<string>>, i: int)
    requires |rows| == |signatures|
  {
    && 0 <= i < |rows| && Fault(env, table, rows, signatures, i) != None
    && forall j :: 0 <= j < i ==> Fault(env, table, rows, signatures, j) == None
  }

  lemma FaultIsCheck(env: Env, table: Option<string>, rows: seq<Fields>, signatures: seq<Option<string>>, i: nat)
    requires i < |rows| == |signatures|
    ensures CheckRow(env, table, KeysOf(rows[0]), rows[i], signatures[i]) == Fault(env, table, rows, signatures, i)
  {
    AcceptedExactly(env, RecordOf(table, rows[i]), signatures[i]);
    hide CanonicalRecord, RecordOf, KeysOf, RecordBytes, LacksPart, Accepts;
  }

  /** The checks fail with the fault of the first faulty row, and pass iff there is none. */
  lemma {:induction false} CheckRowsMeaning(env: Env, table: Option<string>, rows: seq<Fields>,
                                            signatures: seq<Option<string>>)
    requires |rows| == |signatures|
    ensures CheckRows(env, table, rows, signatures) == None
      <==> forall i :: 0 <= i < |rows| ==> Fault(env, table, rows, signatures, i) == None
    ensures forall i :: FirstFault(env, table, rows, signatures, i) ==>
      CheckRows(env, table, rows, signatures) == Fault(env, table, rows, signatures, i)
  {
    hide Fault, CheckRow, KeysOf;
    if rows != [] {
      var n := |rows| - 1;
      CheckRowsMeaning(env, table, rows[..n], signatures[..n]);
      FaultIsCheck(env, table, rows, signatures, n);
      forall i | 0 <= i < n
        ensures Fault(env, table, rows[..n], signatures[..n], i) == Fault(env, table, rows, signatures, i)
      {
        FaultOfPrefix(env, table, rows, signatures, i);
      }
    }
  }

  lemma FaultOfPrefix(env: Env, table: Option<string>, rows: seq<Fields>, signatures: seq<Option<string>>, i: nat)
    requires i < |rows| - 1 && |rows| == |signatures|
    ensures var n := |rows| - 1;
      Fault(env, table, rows[..n], signatures[..n], i) == Fault(env, table, rows, signatures, i)
  {
    hide RowSigned, KeysOf;
  }

  /**
   How a batch fails: for any other table than the two pools it is refused, without rows it does nothing, and
   otherwise every row needs its signature and the first faulty row decides; a failure changes nothing.
   */
  lemma BatchFailsExactly(env: Env, tables: Tables, table: Option<string>, rows: seq<Fields>,
                          signatures: seq<Option<string>>)
    ensures var done := BatchResult(env, tables, table, rows, signatures);
      var pool := table == Some("dim_product") || table == Some("fact_listing");
      && (done.result.Err? ==> done.tables == tables)
      && (!pool || TableOf(table) !in env.columns ==> done.result == Err(UnsupportedOperation))
      && (pool && TableOf(table) in env.columns ==>
        if rows == [] then done == Outcome(tables, Ok(0))
        else if |signatures| != |rows| then done.result == Err(InvalidSignature)
        else forall i :: FirstFault(env, table, rows, signatures, i) ==>
          done.result == Err(Fault(env, table, rows, signatures, i).value))
  {
    PoolNames(table);
    if |rows| == |signatures| {
      CheckRowsMeaning(env, table, rows, signatures);
    }
    hide TableOf, Fault, CheckRows, Payload, KeysOf, InsertSelect, ColumnsFit;
  }

  lemma PoolNames(table: Option<string>)
    ensures IsPoolTable(TableOf(table)) <==> table == Some("dim_product") || table == Some("fact_listing")
  {
  }
}
