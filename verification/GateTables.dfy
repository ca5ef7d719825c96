/**
 What runs of gate writes do to a table: the price and market tables behave as maps from their key
 columns to rows with last write wins, and the date table only ever grows.
 */
module GateTables {
  import opened Common
  import opened CanonicalEncoding
  import opened WriteGate

  /** The tables whose inserts replace: prices, currency rates, crypto and commodity prices. */
  predicate IsReplaceTable(t: Table) {
    ReplaceKeys(t).Some?
  }

  type Key = seq<Cell>

  function KeyOf(row: Row, keys: seq<string>): (k: Key)
    ensures |k| == |keys|
  {
    if keys == [] then [] else KeyOf(row, keys[..|keys| - 1]) + [CellAt(row, keys[|keys| - 1])]
  }

  predicate NonNull(k: Key) {
    forall i :: 0 <= i < |k| ==> k[i].Val?
  }

  /** Every row has a full key and no two rows share one. */
  predicate Keyed(rows: seq<Row>, keys: seq<string>) {
    && (forall i :: 0 <= i < |rows| ==> NonNull(KeyOf(rows[i], keys)))
    && (forall i, j :: 0 <= i < j < |rows| ==> KeyOf(rows[i], keys) != KeyOf(rows[j], keys))
  }

  function AsMap(rows: seq<Row>, keys: seq<string>): map<Key, Row> {
    if rows == [] then map[]
    else
      var last := rows[|rows| - 1];
      AsMap(rows[..|rows| - 1], keys)[KeyOf(last, keys) := last]
  }

  /** The key cells that entries spell out, first entry per column. */
  function GivenKey(env: Env, t: Table, keys: seq<string>, entries: seq<FieldEntry>): (k: Option<Key>)
    ensures k.Some? ==> |k.value| == |keys|
  {
    if keys == [] then Some([])
    else
      var before := GivenKey(env, t, keys[..|keys| - 1], entries);
      var cell := Literal(env, t, EntryOf(entries, keys[|keys| - 1]));
      if before.None? || cell.None? then None else Some(before.value + [cell.value])
  }

  predicate Names(fields: seq<FieldEntry>, column: string) {
    exists i :: 0 <= i < |fields| && fields[i].name == Some(column)
  }

  // ----- the map reading of one write

  /** Insert is put, delete is remove; a NULL in the key of a delete removes nothing. */
  function MapWrite(env: Env, t: Table, m: map<Key, Row>, r: Record): map<Key, Row>
    requires IsReplaceTable(t)
  {
    var keys := ReplaceKeys(t).value;
    if Inserts(OperationOf(r.operation)) then
      var row := BuildRow(env, t, r.fields);
      if row.None? then m else m[KeyOf(row.value, keys) := row.value]
    else
      var k := GivenKey(env, t, keys, r.locator);
      if k.None? || !NonNull(k.value) then m else m - {k.value}
  }

  /** The columns an insert deletes on are the table's locator columns. */
  lemma ReplaceKeysAreLocatorKeys(t: Table)
    requires IsReplaceTable(t)
    ensures LocatorKeys(t) == ReplaceKeys(t) && ReplaceKeys(t).value != []
    ensures forall op :: Listed(t, op) <==> op == Insert || op == Delete
  {
  }

  predicate PairsOfKey(keys: seq<string>, pairs: seq<(string, Cell)>, k: Key) {
    |pairs| == |keys| == |k| && forall i :: 0 <= i < |keys| ==> pairs[i] == (keys[i], k[i])
  }

  lemma {:induction false} PairsAreKey(env: Env, t: Table, keys: seq<string>, entries: seq<FieldEntry>)
    ensures WherePairs(env, t, keys, entries).Some? <==> GivenKey(env, t, keys, entries).Some?
    ensures var pairs, k := WherePairs(env, t, keys, entries), GivenKey(env, t, keys, entries);
      pairs.Some? ==> PairsOfKey(keys, pairs.value, k.value)
  {
    if keys != [] {
      PairsAreKey(env, t, keys[..|keys| - 1], entries);
    }
  }

  lemma {:induction false} KeyOfAt(row: Row, keys: seq<string>, i: nat)
    requires i < |keys|
    ensures KeyOf(row, keys)[i] == CellAt(row, keys[i])
  {
    if i < |keys| - 1 {
      KeyOfAt(row, keys[..|keys| - 1], i);
    }
  }

  lemma MatchIsKey(row: Row, keys: seq<string>, pairs: seq<(string, Cell)>, k: Key)
    requires PairsOfKey(keys, pairs, k)
    ensures Matches(row, pairs) <==> NonNull(k) && KeyOf(row, keys) == k
  {
    forall i | 0 <= i < |keys| ensures KeyOf(row, keys)[i] == CellAt(row, pairs[i].0) && pairs[i].1 == k[i] {
      KeyOfAt(row, keys, i);
    }
    if Matches(row, pairs) {
      forall i | 0 <= i < |keys| ensures k[i].Val? && KeyOf(row, keys)[i] == k[i] {
        assert pairs[i].1.Val?;
      }
    } else {
      var i :| 0 <= i < |pairs| && !(pairs[i].1.Val? && CellAt(row, pairs[i].0) == pairs[i].1);
      assert !k[i].Val? || KeyOf(row, keys)[i] != k[i];
    }
  }

  lemma AsMapAppend(rows: seq<Row>, row: Row, keys: seq<string>)
    ensures AsMap(rows + [row], keys) == AsMap(rows, keys)[KeyOf(row, keys) := row]
  {
    assert (rows + [row])[..|rows|] == rows;
  }

  /** Deleting on a key removes that key from the map ... */
  lemma {:induction false} DeleteIsRemove(rows: seq<Row>, keys: seq<string>, pairs: seq<(string, Cell)>, k: Key)
    requires PairsOfKey(keys, pairs, k) && NonNull(k)
    ensures AsMap(DeleteMatching(rows, pairs), keys) == AsMap(rows, keys) - {k}
  {
    if rows != [] {
      var front, last := rows[..|rows| - 1], rows[|rows| - 1];
      DeleteIsRemove(front, keys, pairs, k);
      MatchIsKey(last, keys, pairs, k);
      var kept := DeleteMatching(front, pairs);
      assert DeleteMatching(rows, pairs) == if Matches(last, pairs) then kept else kept + [last];
      AsMapAppend(kept, last, keys);
      assert AsMap(rows, keys) == AsMap(front, keys)[KeyOf(last, keys) := last];
      hide *;
      RemovePut(AsMap(front, keys), k, KeyOf(last, keys), last);
    }
  }

  lemma RemovePut(m: map<Key, Row>, k: Key, k': Key, row: Row)
    ensures m[k' := row] - {k} == if k' == k then m - {k} else (m - {k})[k' := row]
  {
  }

  /** ... and no row with that key is left. */
  lemma {:induction false} DeleteLeavesOthers(rows: seq<Row>, keys: seq<string>, pairs: seq<(string, Cell)>, k: Key)
    requires PairsOfKey(keys, pairs, k) && NonNull(k)
    ensures forall r :: r in DeleteMatching(rows, pairs) ==> KeyOf(r, keys) != k
  {
    if rows != [] {
      DeleteLeavesOthers(rows[..|rows| - 1], keys, pairs, k);
      MatchIsKey(rows[|rows| - 1], keys, pairs, k);
      hide KeyOf, Matches, NonNull, PairsOfKey;
    }
  }

  lemma {:induction false} DeleteNothing(rows: seq<Row>, keys: seq<string>, pairs: seq<(string, Cell)>, k: Key)
    requires PairsOfKey(keys, pairs, k)
    requires !NonNull(k)
    ensures DeleteMatching(rows, pairs) == rows
  {
    hide KeyOf, Matches, NonNull, PairsOfKey;
    if rows != [] {
      DeleteNothing(rows[..|rows| - 1], keys, pairs, k);
      MatchIsKey(rows[|rows| - 1], keys, pairs, k);
    }
  }

  lemma {:induction false} DeleteKeepsRows(rows: seq<Row>, pairs: seq<(string, Cell)>)
    ensures forall r :: r in DeleteMatching(rows, pairs) ==> r in rows
  {
    if rows != [] {
      DeleteKeepsRows(rows[..|rows| - 1], pairs);
      hide Matches;
    }
  }

  lemma {:induction false} DeleteKeepsKeyed(rows: seq<Row>, keys: seq<string>, pairs: seq<(string, Cell)>)
    requires Keyed(rows, keys)
    ensures Keyed(DeleteMatching(rows, pairs), keys)
  {
    if rows != [] {
      var front, last := rows[..|rows| - 1], rows[|rows| - 1];
      DeleteKeepsKeyed(front, keys, pairs);
      DeleteKeepsRows(front, pairs);
      var kept := DeleteMatching(front, pairs);
      forall r | r in front ensures KeyOf(r, keys) != KeyOf(last, keys) {
        var i :| 0 <= i < |front| && front[i] == r;
        assert rows[i] == r;
      }
      if !Matches(last, pairs) {
        hide KeyOf, Matches, NonNull;
        AppendKeyed(kept, keys, last);
      }
    }
  }

  /** A row built from entries carries the key those entries spell out. */
  lemma {:induction false} BuiltKey(env: Env, t: Table, keys: seq<string>, entries: seq<FieldEntry>)
    requires BuildRow(env, t, entries).Some?
    requires forall i :: 0 <= i < |keys| ==> Names(entries, keys[i])
    requires GivenKey(env, t, keys, entries).Some? && NonNull(GivenKey(env, t, keys, entries).value)
    ensures GivenKey(env, t, keys, entries) == Some(KeyOf(BuildRow(env, t, entries).value, keys))
  {
    if keys != [] {
      var n := |keys| - 1;
      var given := GivenKey(env, t, keys, entries).value;
      assert given[n].Val? && given[..n] == GivenKey(env, t, keys[..n], entries).value;
      assert forall i :: 0 <= i < n ==> given[..n][i] == given[i];
      BuiltKey(env, t, keys[..n], entries);
      assert Names(entries, keys[n]);
      var j :| 0 <= j < |entries| && entries[j].name == Some(keys[n]);
      BuiltCell(env, t, entries, j);
      FirstEntry(env, t, entries, j);
      CoalescedLiteral(env, t, entries[j]);
    }
  }

  lemma CoalescedLiteral(env: Env, t: Table, e: FieldEntry)
    requires Literal(env, t, Coalesced(e)).Some? && Literal(env, t, Coalesced(e)).value.Val?
    ensures Literal(env, t, Coalesced(e)) == Literal(env, t, e)
  {
  }

  lemma {:induction false} BuiltCell(env: Env, t: Table, entries: seq<FieldEntry>, j: nat)
    requires BuildRow(env, t, entries).Some? && j < |entries|
    ensures entries[j].name.Some? && entries[j].key in BuildRow(env, t, entries).value
    ensures Literal(env, t, entries[j]) == Some(BuildRow(env, t, entries).value[entries[j].key])
  {
    if j < |entries| - 1 {
      BuiltCell(env, t, entries[..|entries| - 1], j);
    }
  }

  /** Built entries never repeat a column, so the first entry with a key is the only one. */
  lemma {:induction false} FirstEntry(env: Env, t: Table, entries: seq<FieldEntry>, j: nat)
    requires BuildRow(env, t, entries).Some? && j < |entries|
    ensures EntryOf(entries, entries[j].key) == Coalesced(entries[j])
  {
    BuiltDistinct(env, t, entries);
    BuiltCell(env, t, entries, j);
    FirstOfDistinct(entries, j);
  }

  lemma {:induction false} FirstOfDistinct(entries: seq<FieldEntry>, j: nat)
    requires j < |entries| && entries[j].name.Some?
    requires forall a, b :: 0 <= a < b < |entries| ==> entries[a].key != entries[b].key
    ensures EntryOf(entries, entries[j].key) == Coalesced(entries[j])
  {
    if j > 0 {
      assert entries[0].key != entries[j].key;
      FirstOfDistinct(entries[1..], j - 1);
    }
  }

  lemma {:induction false} BuiltDistinct(env: Env, t: Table, entries: seq<FieldEntry>)
    requires BuildRow(env, t, entries).Some?
    ensures forall a, b :: 0 <= a < b < |entries| ==> entries[a].key != entries[b].key
  {
    if entries != [] {
      var front := entries[..|entries| - 1];
      BuiltDistinct(env, t, front);
      forall a | 0 <= a < |front| ensures entries[a].key != entries[|entries| - 1].key {
        BuiltCell(env, t, front, a);
      }
    }
  }

  /** The insert's fields give every key column a value. */
  predicate KeysGiven(env: Env, t: Table, r: Record)
    requires IsReplaceTable(t)
  {
    && (forall i :: 0 <= i < |ReplaceKeys(t).value| ==> Names(r.fields, ReplaceKeys(t).value[i]))
    && (GivenKey(env, t, ReplaceKeys(t).value, r.fields).Some? ==>
      NonNull(GivenKey(env, t, ReplaceKeys(t).value, r.fields).value))
  }

  lemma AppendKeyed(rows: seq<Row>, keys: seq<string>, row: Row)
    requires Keyed(rows, keys) && NonNull(KeyOf(row, keys))
    requires forall r :: r in rows ==> KeyOf(r, keys) != KeyOf(row, keys)
    ensures Keyed(rows + [row], keys)
    ensures AsMap(rows + [row], keys) == AsMap(rows, keys)[KeyOf(row, keys) := row]
  {
    AsMapAppend(rows, row, keys);
    hide KeyOf, NonNull, AsMap;
    forall i | 0 <= i < |rows| ensures KeyOf(rows[i], keys) != KeyOf(row, keys) {
      assert rows[i] in rows;
    }
  }

  lemma PutRow(rows: seq<Row>, keys: seq<string>, pairs: seq<(string, Cell)>, k: Key, row: Row)
    requires Keyed(rows, keys) && PairsOfKey(keys, pairs, k) && NonNull(k) && KeyOf(row, keys) == k
    ensures Keyed(DeleteMatching(rows, pairs) + [row], keys)
    ensures AsMap(DeleteMatching(rows, pairs) + [row], keys) == AsMap(rows, keys)[k := row]
  {
    hide *;
    DeleteIsRemove(rows, keys, pairs, k);
    DeleteLeavesOthers(rows, keys, pairs, k);
    DeleteKeepsKeyed(rows, keys, pairs);
    AppendKeyed(DeleteMatching(rows, pairs), keys, row);
    assert (AsMap(rows, keys) - {k})[k := row] == AsMap(rows, keys)[k := row];
  }

  /** Delete-then-insert is a put. */
  lemma ReplaceIsPut(env: Env, t: Table, rows: seq<Row>, r: Record)
    requires IsReplaceTable(t) && KeysGiven(env, t, r) && r.fields != []
    requires Keyed(rows, ReplaceKeys(t).value)
    requires ReplaceRow(env, t, rows, ReplaceKeys(t).value, r.fields).Ok?
    ensures var rows' := ReplaceRow(env, t, rows, ReplaceKeys(t).value, r.fields).value.0;
      var row := BuildRow(env, t, r.fields);
      && Keyed(rows', ReplaceKeys(t).value)
      && row.Some?
      && AsMap(rows', ReplaceKeys(t).value)
      == AsMap(rows, ReplaceKeys(t).value)[KeyOf(row.value, ReplaceKeys(t).value) := row.value]
  {
    var keys := ReplaceKeys(t).value;
    var pairs := WherePairs(env, t, keys, r.fields).value;
    var row := BuildRow(env, t, r.fields).value;
    PairsAreKey(env, t, keys, r.fields);
    BuiltKey(env, t, keys, r.fields);
    var k := KeyOf(row, keys);
    assert NonNull(k);
    hide KeyOf, NonNull, BuildRow, WherePairs, GivenKey, DeleteMatching, AsMap, Keyed, KeysGiven, PairsOfKey;
    PutRow(rows, keys, pairs, k, row);
  }

  /** One accepted write to a replace table is one write to the map. */
  lemma WriteIsMapWrite(env: Env, t: Table, op: Operation, rows: seq<Row>, r: Record)
    requires IsReplaceTable(t) && OperationAllowed(t, op) != Some(false) && op == OperationOf(r.operation)
    requires Keyed(rows, ReplaceKeys(t).value)
    requires Inserts(op) ==> KeysGiven(env, t, r) && r.fields != []
    requires Apply(env, t, op, rows, LocatorKeys(t).value, r.locator, r.fields).Ok?
    ensures var rows' := Apply(env, t, op, rows, LocatorKeys(t).value, r.locator, r.fields).value.0;
      && Keyed(rows', ReplaceKeys(t).value)
      && AsMap(rows', ReplaceKeys(t).value) == MapWrite(env, t, AsMap(rows, ReplaceKeys(t).value), r)
  {
    var keys := ReplaceKeys(t).value;
    ReplaceKeysAreLocatorKeys(t);
    if Inserts(op) {
      ReplaceIsPut(env, t, rows, r);
    } else {
      PairsAreKey(env, t, keys, r.locator);
      var pairs, k := WherePairs(env, t, keys, r.locator).value, GivenKey(env, t, keys, r.locator).value;
      DeleteKeepsKeyed(rows, keys, pairs);
      if NonNull(k) {
        DeleteIsRemove(rows, keys, pairs, k);
      } else {
        DeleteNothing(rows, keys, pairs, k);
      }
    }
  }

  // ----- runs of writes

  datatype Call = Call(record: Record, signature: Option<string>)

  function ExecAll(env: Env, tables: Tables, calls: seq<Call>): Tables {
    if calls == [] then tables
    else
      var last := calls[|calls| - 1];
      Exec(env, ExecAll(env, tables, calls[..|calls| - 1]), last.record, last.signature).tables
  }

  /** The accepted writes to t, folded over its map. */
  function MapAll(env: Env, tables: Tables, t: Table, m: map<Key, Row>, calls: seq<Call>): map<Key, Row>
    requires IsReplaceTable(t)
  {
    if calls == [] then m
    else
      var before, last := calls[..|calls| - 1], calls[|calls| - 1];
      var m' := MapAll(env, tables, t, m, before);
      var done := Exec(env, ExecAll(env, tables, before), last.record, last.signature);
      if TableOf(last.record.table) == t && done.result.Ok?
      then MapWrite(env, t, m', last.record)
      else m'
  }

  /** Inserts into t spell out a non-null key. */
  predicate KeyedInserts(env: Env, t: Table, calls: seq<Call>)
    requires IsReplaceTable(t)
  {
    forall i :: 0 <= i < |calls| ==>
      var r := calls[i].record;
      TableOf(r.table) == t && Inserts(OperationOf(r.operation)) ==> KeysGiven(env, t, r) && r.fields != []
  }

  /** A call changes the rows of its own table only. */
  lemma OtherTablesUnchanged(env: Env, tables: Tables, c: Call, t: Table)
    requires TableOf(c.record.table) != t || Exec(env, tables, c.record, c.signature).result.Err?
    ensures RowsOf(Exec(env, tables, c.record, c.signature).tables, t) == RowsOf(tables, t)
  {
    hide Apply, CanonicalRecord, TableOf, OperationOf;
  }

  lemma ExecIsApply(env: Env, tables: Tables, c: Call, t: Table, op: Operation)
    requires TableOf(c.record.table) == t && OperationOf(c.record.operation) == op
    requires Exec(env, tables, c.record, c.signature).result.Ok?
    ensures OperationAllowed(t, op) != Some(false) && LocatorKeys(t).Some?
    ensures var r := c.record;
      var written := Apply(env, t, op, RowsOf(tables, t), LocatorKeys(t).value, r.locator, r.fields);
      written.Ok? && RowsOf(Exec(env, tables, c.record, c.signature).tables, t) == written.value.0
  {
    hide Apply, CanonicalRecord, TableOf, OperationOf, OperationAllowed;
  }

  /**
   Main result: over any run of gate calls, a price or market table keeps at most one row per key
   and is the map that the accepted writes build by put and remove: the last write of a key wins.
   */
  lemma {:induction false} ReplaceTablesAreMaps(env: Env, tables: Tables, t: Table, calls: seq<Call>)
    requires IsReplaceTable(t) && KeyedInserts(env, t, calls)
    requires Keyed(RowsOf(tables, t), ReplaceKeys(t).value)
    ensures Keyed(RowsOf(ExecAll(env, tables, calls), t), ReplaceKeys(t).value)
    ensures AsMap(RowsOf(ExecAll(env, tables, calls), t), ReplaceKeys(t).value)
         == MapAll(env, tables, t, AsMap(RowsOf(tables, t), ReplaceKeys(t).value), calls)
  {
    if calls != [] {
      var before, last := calls[..|calls| - 1], calls[|calls| - 1];
      var mid := ExecAll(env, tables, before);
      assert KeyedInserts(env, t, before);
      ReplaceTablesAreMaps(env, tables, t, before);
      hide Exec, MapWrite, Keyed, AsMap, KeysGiven, Apply, RowsOf, TableOf, OperationOf, LocatorKeys, ReplaceKeys;
      if TableOf(last.record.table) == t && Exec(env, mid, last.record, last.signature).result.Ok? {
        var op := OperationOf(last.record.operation);
        ExecIsApply(env, mid, last, t, op);
        WriteIsMapWrite(env, t, op, RowsOf(mid, t), last.record);
      } else {
        OtherTablesUnchanged(env, mid, last, t);
      }
    }
  }

  // ----- the date table

  const DATE_KEY := ["date_id"]

  lemma {:induction false} NoneMatch(rows: seq<Row>, pairs: seq<(string, Cell)>)
    requires CountMatching(rows, pairs) == 0
    ensures forall r :: r in rows ==> !Matches(r, pairs)
  {
    if rows != [] {
      var front, last := rows[..|rows| - 1], rows[|rows| - 1];
      assert rows == front + [last];
      NoneMatch(front, pairs);
    }
  }

  lemma DateStep(env: Env, rows: seq<Row>, fields: seq<FieldEntry>)
    requires InsertDate(env, rows, fields).Ok?
    ensures rows <= InsertDate(env, rows, fields).value.0
    ensures Keyed(rows, DATE_KEY)
      && (BuildRow(env, DimDate, fields).Some? ==> CellAt(BuildRow(env, DimDate, fields).value, "date_id").Val?)
      ==> Keyed(InsertDate(env, rows, fields).value.0, DATE_KEY)
  {
    var row := BuildRow(env, DimDate, fields);
    if fields != [] && CellAt(row.value, "date_id").Val? && Keyed(rows, DATE_KEY) {
      var k := KeyOf(row.value, DATE_KEY);
      var pairs := [("date_id", CellAt(row.value, "date_id"))];
      KeyOfAt(row.value, DATE_KEY, 0);
      if CountMatching(rows, pairs) == 0 {
        NoneMatch(rows, pairs);
        forall r | r in rows ensures KeyOf(r, DATE_KEY) != k {
          MatchIsKey(r, DATE_KEY, pairs, k);
        }
        AppendKeyed(rows, DATE_KEY, row.value);
      }
    }
  }

  /** An accepted date carries its primary key. */
  predicate DateGiven(env: Env, c: Call) {
    TableOf(c.record.table) == DimDate ==>
      var row := BuildRow(env, DimDate, c.record.fields);
      row.Some? ==> CellAt(row.value, "date_id").Val?
  }

  predicate DatesGiven(env: Env, calls: seq<Call>) {
    forall i :: 0 <= i < |calls| ==> DateGiven(env, calls[i])
  }

  lemma DateCall(env: Env, tables: Tables, c: Call)
    ensures var rows := RowsOf(tables, DimDate);
      var rows' := RowsOf(Exec(env, tables, c.record, c.signature).tables, DimDate);
      rows <= rows' && (Keyed(rows, DATE_KEY) && DateGiven(env, c) ==> Keyed(rows', DATE_KEY))
  {
    hide Exec, Keyed, TableOf, OperationOf, InsertDate, BuildRow;
    if TableOf(c.record.table) == DimDate && Exec(env, tables, c.record, c.signature).result.Ok? {
      ExecIsApply(env, tables, c, DimDate, OperationOf(c.record.operation));
      DateStep(env, RowsOf(tables, DimDate), c.record.fields);
    } else {
      OtherTablesUnchanged(env, tables, c, DimDate);
    }
  }

  /** Main result: once inserted, a date row stays as it is, for ever, and is the only one of its date. */
  lemma {:induction false} DatesNeverChange(env: Env, tables: Tables, calls: seq<Call>)
    ensures RowsOf(tables, DimDate) <= RowsOf(ExecAll(env, tables, calls), DimDate)
    ensures Keyed(RowsOf(tables, DimDate), DATE_KEY) && DatesGiven(env, calls) ==>
      Keyed(RowsOf(ExecAll(env, tables, calls), DimDate), DATE_KEY)
  {
    hide Exec, Keyed, DateGiven, RowsOf;
    if calls != [] {
      var before, last := calls[..|calls| - 1], calls[|calls| - 1];
      DatesNeverChange(env, tables, before);
      DateCall(env, ExecAll(env, tables, before), last);
    }
  }

  // ----- updates

  lemma {:induction false} SetSkipsLocator(env: Env, t: Table, keys: seq<string>, fields: seq<FieldEntry>)
    ensures var changes := SetPairs(env, t, keys, fields);
      changes.Some? ==> forall c :: c in changes.value ==> c !in keys
  {
    if fields != [] {
      SetSkipsLocator(env, t, keys, fields[..|fields| - 1]);
    }
  }

  lemma {:induction false} UpdatedRow(rows: seq<Row>, pairs: seq<(string, Cell)>, changes: Row, i: nat)
    requires i < |rows|
    ensures |UpdateRows(rows, pairs, changes)| == |rows|
    ensures UpdateRows(rows, pairs, changes)[i] == if Matches(rows[i], pairs) then rows[i] + changes else rows[i]
  {
    if i < |rows| - 1 {
      UpdatedRow(rows[..|rows| - 1], pairs, changes, i);
    } else if |rows| > 1 {
      UpdatedRow(rows[..|rows| - 1], pairs, changes, 0);
    }
  }

  lemma {:induction false} SameCellsSameKey(a: Row, b: Row, keys: seq<string>)
    requires forall c :: c in keys ==> CellAt(a, c) == CellAt(b, c)
    ensures KeyOf(a, keys) == KeyOf(b, keys)
  {
    if keys != [] {
      SameCellsSameKey(a, b, keys[..|keys| - 1]);
    }
  }

  lemma NamesMore(fields: seq<FieldEntry>, column: string)
    requires fields != []
    ensures Names(fields, column) <==>
      Names(fields[..|fields| - 1], column) || fields[|fields| - 1].name == Some(column)
  {
    var front := fields[..|fields| - 1];
    if Names(front, column) {
      var i :| 0 <= i < |front| && front[i].name == Some(column);
      assert fields[i].name == Some(column);
    }
    if i :| 0 <= i < |fields| && fields[i].name == Some(column) {
      assert i < |front| ==> front[i].name == Some(column);
    }
  }

  lemma {:induction false} SetOnlyNamed(env: Env, t: Table, keys: seq<string>, fields: seq<FieldEntry>, column: string)
    ensures var changes := SetPairs(env, t, keys, fields);
      changes.Some? && column in changes.value ==> Names(fields, column)
  {
    hide Names, Literal;
    if fields != [] {
      SetOnlyNamed(env, t, keys, fields[..|fields| - 1], column);
      NamesMore(fields, column);
    }
  }

  /** An update leaves every column alone that its fields do not name: it gives no row a new stamp by itself. */
  lemma UpdateKeepsOtherColumns(env: Env, t: Table, rows: seq<Row>, keys: seq<string>,
                                locator: seq<FieldEntry>, fields: seq<FieldEntry>, i: nat, column: string)
    requires UpdateFromEntries(env, t, rows, keys, locator, fields).Ok? && i < |rows| && !Names(fields, column)
    ensures var rows' := UpdateFromEntries(env, t, rows, keys, locator, fields).value.0;
      |rows'| == |rows| && CellAt(rows'[i], column) == CellAt(rows[i], column)
  {
    hide Names, SetPairs, WherePairs, UpdateRows, CountMatching, Matches;
    var changes, pairs := SetPairs(env, t, keys, fields).value, WherePairs(env, t, keys, locator);
    SetOnlyNamed(env, t, keys, fields, column);
    if changes != map[] {
      UpdatedRow(rows, pairs.value, changes, i);
    }
  }

  /** An update keeps every row in its place under its key and touches matching rows only. */
  lemma UpdateKeepsKeys(env: Env, t: Table, rows: seq<Row>, keys: seq<string>,
                        locator: seq<FieldEntry>, fields: seq<FieldEntry>, i: nat)
    requires UpdateFromEntries(env, t, rows, keys, locator, fields).Ok? && i < |rows|
    ensures var rows' := UpdateFromEntries(env, t, rows, keys, locator, fields).value.0;
      && |rows'| == |rows|
      && KeyOf(rows'[i], keys) == KeyOf(rows[i], keys)
      && (WherePairs(env, t, keys, locator).Some? && !Matches(rows[i], WherePairs(env, t, keys, locator).value) ==>
        rows'[i] == rows[i])
  {
    var changes, pairs := SetPairs(env, t, keys, fields).value, WherePairs(env, t, keys, locator);
    SetSkipsLocator(env, t, keys, fields);
    if changes != map[] {
      UpdatedRow(rows, pairs.value, changes, i);
      SameCellsSameKey(rows[i] + changes, rows[i], keys);
    }
  }
}
