/**
 The client's side of the write gate: how a mapping of canonical strings is signed and how it is sent. The two
 sides build their bytes separately, and they must come out the same.
 */
module ClientSigning {
  import opened Common
  import opened Decimals
  import opened CanonicalEncoding
  import opened WriteGate
  import opened GateBatch

  /** Column to canonical string; None is the slot of an SQL NULL. */
  type Mapping = map<string, Option<string>>

  // ----- sorted keys

  /** The order of strings by their characters. */
  predicate Less(a: string, b: string) {
    b != "" && (a == "" || a[0] < b[0] || (a[0] == b[0] && Less(a[1..], b[1..])))
  }

  lemma {:induction false} LessTotal(a: string, b: string)
    ensures a == b || Less(a, b) || Less(b, a)
    ensures !(Less(a, b) && Less(b, a)) && (a == b ==> !Less(a, b))
  {
    if a != "" && b != "" {
      LessTotal(a[1..], b[1..]);
      assert a == [a[0]] + a[1..] && b == [b[0]] + b[1..];
    }
  }

  lemma {:induction false} LessTransitive(a: string, b: string, c: string)
    requires Less(a, b) && Less(b, c)
    ensures Less(a, c)
  {
    if a != "" && a[0] == b[0] == c[0] {
      LessTransitive(a[1..], b[1..], c[1..]);
    }
  }

  predicate KeysAscend(keys: seq<string>) {
    forall i, j :: 0 <= i < j < |keys| ==> Less(keys[i], keys[j])
  }

  /** sorted(mapping.keys()) */
  ghost predicate IsSorted(m: Mapping, keys: seq<string>) {
    KeysAscend(keys) && forall k :: k in keys <==> k in m
  }

  lemma {:induction false} LeastKey(keys: set<string>) returns (least: string)
    requires keys != {}
    ensures least in keys && forall k :: k in keys && k != least ==> Less(least, k)
  {
    var k :| k in keys;
    if keys == {k} {
      least := k;
    } else {
      var rest := LeastKey(keys - {k});
      LessTotal(k, rest);
      least := if Less(k, rest) then k else rest;
      forall x | x in keys && x != least ensures Less(least, x) {
        if Less(k, rest) && x != rest {
          LessTransitive(k, rest, x);
        }
      }
    }
  }

  /** Every mapping has its sorted keys ... */
  lemma {:induction false} SortedExists(m: Mapping) returns (keys: seq<string>)
    ensures IsSorted(m, keys)
    decreases |m|
  {
    keys := [];
    if m != map[] {
      var least := LeastKey(m.Keys);
      var rest := SortedExists(m - {least});
      keys := [least] + rest;
      assert forall i :: 0 <= i < |rest| ==> rest[i] in rest;
      hide Less;
    }
  }

  /** ... and only these. */
  lemma {:induction false} SortedIsUnique(a: seq<string>, b: seq<string>)
    requires KeysAscend(a) && KeysAscend(b) && forall k :: k in a <==> k in b
    ensures a == b
  {
    if a == [] {
      if b != [] {
        SomeMember(b);
      }
    } else {
      assert a[0] in b;
      SameFirst(a, b);
      TailMembers(a);
      TailMembers(b);
      SortedIsUnique(a[1..], b[1..]);
      assert a == [a[0]] + a[1..] && b == [b[0]] + b[1..];
    }
  }

  lemma SomeMember(keys: seq<string>)
    requires keys != []
    ensures exists k :: k in keys
  {
    assert keys[0] in keys;
  }

  lemma SameFirst(a: seq<string>, b: seq<string>)
    requires a != [] && b != [] && KeysAscend(a) && KeysAscend(b) && forall k :: k in a <==> k in b
    ensures a[0] == b[0]
  {
    assert a[0] in b && b[0] in a;
    var i :| 0 <= i < |b| && b[i] == a[0];
    var j :| 0 <= j < |a| && a[j] == b[0];
    LessTotal(a[0], b[0]);
    hide Less;
  }

  lemma TailMembers(keys: seq<string>)
    requires keys != [] && KeysAscend(keys)
    ensures KeysAscend(keys[1..]) && forall k :: k in keys[1..] <==> k in keys && k != keys[0]
  {
    LessTotal(keys[0], keys[0]);
    hide Less;
  }

  // ----- what the client signs

  /** str(len(encoded)) + ":" + encoded */
  function Prefixed(value: string): string {
    Decimal(|value|) + ":" + value
  }

  function Value(value: Option<string>): string {
    match value case None => "N" case Some(text) => "S" + Prefixed(text)
  }

  /** b"".join(parts) of the parts appended for the first n keys. */
  function DictSigned(m: Mapping, keys: seq<string>): string
    requires forall k :: k in keys ==> k in m
  {
    if keys == [] then ""
    else
      var last := keys[|keys| - 1];
      DictSigned(m, keys[..|keys| - 1]) + (Prefixed(last) + Value(m[last]))
  }

  /** _dict_enc: the parts of the sorted keys behind their number. */
  method DictEncoded(m: Mapping, keys: seq<string>) returns (bytes: string)
    requires IsSorted(m, keys)
    ensures bytes == "D" + Decimal(|keys|) + DictSigned(m, keys)
  {
    hide Less, IsSorted;
    var parts := ["D" + Decimal(|keys|)];
    SortedMembers(m, keys);
    for i := 0 to |keys|
      invariant Flatten(parts) == "D" + Decimal(|keys|) + DictSigned(m, keys[..i])
    {
      FlattenAppend(parts, Prefixed(keys[i]));
      FlattenAppend(parts + [Prefixed(keys[i])], Value(m[keys[i]]));
      assert keys[..i + 1][..i] == keys[..i];
      Grow("D" + Decimal(|keys|), DictSigned(m, keys[..i]), Prefixed(keys[i]), Value(m[keys[i]]));
      parts := parts + [Prefixed(keys[i])] + [Value(m[keys[i]])];
    }
    assert keys[..|keys|] == keys;
    bytes := Flatten(parts);
  }

  lemma Grow(head: string, done: string, a: string, b: string)
    ensures head + done + a + b == head + (done + (a + b))
  {
  }

  lemma SortedMembers(m: Mapping, keys: seq<string>)
    requires IsSorted(m, keys)
    ensures forall k :: k in keys <==> k in m
  {
  }

  /** canonical_serialize_signed_payload */
  function SignedPayload(table: string, operation: string, locator: Mapping, locatorKeys: seq<string>,
                  fields: Mapping, fieldKeys: seq<string>): string
    requires forall k :: k in locatorKeys ==> k in locator
    requires forall k :: k in fieldKeys ==> k in fields
  {
    "T" + Prefixed(table) + "O" + Prefixed(operation)
    + "L" + ("D" + Decimal(|locatorKeys|) + DictSigned(locator, locatorKeys))
    + "F" + ("D" + Decimal(|fieldKeys|) + DictSigned(fields, fieldKeys))
  }

  // ----- what the client sends

  /** field_entry: a flag and an empty text for a NULL. */
  function WireEntry(key: string, value: Option<string>): FieldEntry {
    match value
    case None => FieldEntry(Some(key), Some(true), Some(""))
    case Some(text) => FieldEntry(Some(key), Some(false), Some(text))
  }

  /** ordered_entries_from_mapping */
  function Wire(m: Mapping, keys: seq<string>): (entries: seq<FieldEntry>)
    requires forall k :: k in keys ==> k in m
    ensures |entries| == |keys| && forall i :: 0 <= i < |keys| ==> entries[i] == WireEntry(keys[i], m[keys[i]])
  {
    seq(|keys|, i requires 0 <= i < |keys| => WireEntry(keys[i], m[keys[i]]))
  }

  lemma WireEntryBytes(key: string, value: Option<string>)
    ensures EntryBytes(WireEntry(key, value)) == Prefixed(key) + Value(value) && HasText(WireEntry(key, value))
  {
  }

  lemma {:induction false} WireBytes(m: Mapping, keys: seq<string>)
    requires forall k :: k in keys ==> k in m
    ensures EntriesBytes(Wire(m, keys)) == DictSigned(m, keys) && Texted(Wire(m, keys))
  {
    hide EntryBytes, HasText, Prefixed, Value, WireEntry;
    if keys != [] {
      var n := |keys| - 1;
      WireBytes(m, keys[..n]);
      WireEntryBytes(keys[n], m[keys[n]]);
      assert Wire(m, keys) == Wire(m, keys[..n]) + [WireEntry(keys[n], m[keys[n]])];
      EntriesEncAppend(Wire(m, keys[..n]), WireEntry(keys[n], m[keys[n]]));
    }
    forall i | 0 <= i < |keys| ensures HasText(Wire(m, keys)[i]) {
      WireEntryBytes(keys[i], m[keys[i]]);
    }
  }

  function Sent(table: string, operation: string, locator: Mapping, locatorKeys: seq<string>,
                fields: Mapping, fieldKeys: seq<string>): Record
    requires forall k :: k in locatorKeys ==> k in locator
    requires forall k :: k in fieldKeys ==> k in fields
  {
    Record(Some(table), Some(operation), Wire(locator, locatorKeys), Wire(fields, fieldKeys))
  }

  // ----- both sides agree

  /** The bytes the gate rebuilds from what was sent are the bytes the client signed. */
  lemma GateReadsSignedBytes(table: string, operation: string, locator: Mapping, lk: seq<string>,
                             fields: Mapping, fk: seq<string>)
    requires IsSorted(locator, lk) && IsSorted(fields, fk)
    ensures CanonicalRecord(Sent(table, operation, locator, lk, fields, fk))
         == Some(SignedPayload(table, operation, locator, lk, fields, fk))
  {
    WireBytes(locator, lk);
    WireBytes(fields, fk);
    hide EntriesBytes, DictSigned, Decimal;
    var l, f := "D" + Decimal(|lk|) + DictSigned(locator, lk), "D" + Decimal(|fk|) + DictSigned(fields, fk);
    assert DictBytes(Wire(locator, lk)) == l && DictBytes(Wire(fields, fk)) == f;
  }

  /** So a call the client signed passes the gate's check. */
  lemma SignedCallPasses(env: Env, table: string, operation: string, locator: Mapping, lk: seq<string>,
                         fields: Mapping, fk: seq<string>, signature: string)
    requires IsSorted(locator, lk) && IsSorted(fields, fk)
    requires env.signed(SignedPayload(table, operation, locator, lk, fields, fk), signature)
    ensures Accepts(env, CanonicalRecord(Sent(table, operation, locator, lk, fields, fk)), Some(signature))
  {
    GateReadsSignedBytes(table, operation, locator, lk, fields, fk);
    hide CanonicalRecord, SignedPayload, Sent;
  }

  ghost predicate AreSorted(rows: seq<Mapping>, keys: seq<seq<string>>) {
    |rows| == |keys| && forall i :: 0 <= i < |rows| ==> IsSorted(rows[i], keys[i])
  }

  function MappingSigned(m: Mapping, keys: seq<string>): string
    requires forall k :: k in keys ==> k in m
  {
    "D" + Decimal(|keys|) + DictSigned(m, keys)
  }

  ghost function RowsSigned(rows: seq<Mapping>, keys: seq<seq<string>>): string
    requires AreSorted(rows, keys)
  {
    if rows == [] then ""
    else
      SortedMembers(rows[0], keys[0]);
      MappingSigned(rows[0], keys[0]) + RowsSigned(rows[1..], keys[1..])
  }

  /** canonical_serialize_signed_batch_payload */
  ghost function BatchSigned(table: string, operation: string, locator: Mapping, lk: seq<string>,
                             rows: seq<Mapping>, keys: seq<seq<string>>): string
    requires IsSorted(locator, lk) && AreSorted(rows, keys)
  {
    SortedMembers(locator, lk);
    "T" + Prefixed(table) + "O" + Prefixed(operation) + "L" + MappingSigned(locator, lk)
    + "R" + Decimal(|rows|) + RowsSigned(rows, keys)
  }

  ghost function WireRows(rows: seq<Mapping>, keys: seq<seq<string>>): seq<seq<FieldEntry>>
    requires AreSorted(rows, keys)
  {
    if rows == [] then []
    else
      SortedMembers(rows[0], keys[0]);
      [Wire(rows[0], keys[0])] + WireRows(rows[1..], keys[1..])
  }

  lemma WireDict(m: Mapping, keys: seq<string>)
    requires IsSorted(m, keys)
    ensures DictBytes(Wire(m, keys)) == MappingSigned(m, keys) && Texted(Wire(m, keys))
  {
    SortedMembers(m, keys);
    WireBytes(m, keys);
    hide EntriesBytes, DictSigned, Decimal, Texted;
  }

  lemma {:induction false} WireRowsBytes(rows: seq<Mapping>, keys: seq<seq<string>>)
    requires AreSorted(rows, keys)
    ensures RowsBytes(WireRows(rows, keys)) == RowsSigned(rows, keys) && |WireRows(rows, keys)| == |rows|
    ensures forall i :: 0 <= i < |WireRows(rows, keys)| ==> Texted(WireRows(rows, keys)[i])
  {
    hide DictBytes, MappingSigned, Texted, IsSorted, Wire;
    if rows != [] {
      SortedMembers(rows[0], keys[0]);
      WireDict(rows[0], keys[0]);
      WireRowsBytes(rows[1..], keys[1..]);
      var rest := WireRows(rows[1..], keys[1..]);
      assert WireRows(rows, keys)[0] == Wire(rows[0], keys[0]) && WireRows(rows, keys)[1..] == rest;
    }
  }

  /** The bytes the gate rebuilds from a batch are the bytes the client signed for it. */
  lemma GateReadsSignedBatch(table: string, operation: string, locator: Mapping, lk: seq<string>,
                             rows: seq<Mapping>, keys: seq<seq<string>>)
    requires IsSorted(locator, lk) && AreSorted(rows, keys)
    ensures CanonicalBatch(Batch(Some(table), Some(operation), Wire(locator, lk), WireRows(rows, keys)))
         == Some(BatchSigned(table, operation, locator, lk, rows, keys))
  {
    WireDict(locator, lk);
    WireRowsBytes(rows, keys);
    hide DictBytes, MappingSigned, Texted, IsSorted, Wire, RowsBytes, RowsSigned, WireRows, Decimal, AreSorted;
  }

  predicate ColumnNames(keys: seq<string>) {
    forall i, j :: 0 <= i < |keys| && 0 <= j < |keys[i]| ==> ColumnNameChar(keys[i][j])
  }

  lemma WireIsPlain(m: Mapping, keys: seq<string>)
    requires ColumnNames(keys) && forall k :: k in keys ==> k in m
    ensures PlainDict(Wire(m, keys))
  {
    var entries := Wire(m, keys);
    forall e, i | e in entries && 0 <= i < |e.key| ensures ColumnNameChar(e.key[i]) {
      var k :| 0 <= k < |entries| && entries[k] == e;
      assert e.key == keys[k];
    }
    ColumnNamesArePlain(entries);
  }

  lemma SameWireSameMapping(a: Mapping, ka: seq<string>, b: Mapping, kb: seq<string>)
    requires IsSorted(a, ka) && IsSorted(b, kb) && SameDict(Wire(a, ka), Wire(b, kb))
    ensures a == b
  {
    var x, y := Wire(a, ka), Wire(b, kb);
    forall i | 0 <= i < |ka| ensures ka[i] == kb[i] && a[ka[i]] == b[kb[i]] {
      assert SameEntry(x[i], y[i]);
    }
    assert ka == kb;
  }

  /** The signed bytes of two writes of named columns agree iff the writes do. */
  lemma SignedBytesDetermineWrite(table: string, operation: string, locator: Mapping, lk: seq<string>,
                                  fields: Mapping, fk: seq<string>,
                                  table': string, operation': string, locator': Mapping, lk': seq<string>,
                                  fields': Mapping, fk': seq<string>)
    requires IsSorted(locator, lk) && IsSorted(fields, fk) && ColumnNames(lk) && ColumnNames(fk)
    requires IsSorted(locator', lk') && IsSorted(fields', fk') && ColumnNames(lk') && ColumnNames(fk')
    ensures SignedPayload(table, operation, locator, lk, fields, fk)
         == SignedPayload(table', operation', locator', lk', fields', fk')
      <==> table == table' && operation == operation' && locator == locator' && fields == fields'
  {
    hide *;
    SortedMembers(locator, lk);
    SortedMembers(fields, fk);
    SortedMembers(locator', lk');
    SortedMembers(fields', fk');
    var r, r' := Sent(table, operation, locator, lk, fields, fk), Sent(table', operation', locator', lk', fields', fk');
    GateReadsSignedBytes(table, operation, locator, lk, fields, fk);
    GateReadsSignedBytes(table', operation', locator', lk', fields', fk');
    SentIsPlain(table, operation, locator, lk, fields, fk);
    SentIsPlain(table', operation', locator', lk', fields', fk');
    RecordUniquelyDecodable(r, r');
    if SameRecord(r, r') {
      SameSent(table, operation, locator, lk, fields, fk, table', operation', locator', lk', fields', fk');
    }
    if table == table' && operation == operation' && locator == locator' && fields == fields' {
      SortedOnce(locator, lk, lk');
      SortedOnce(fields, fk, fk');
    }
  }

  lemma SortedOnce(m: Mapping, a: seq<string>, b: seq<string>)
    requires IsSorted(m, a) && IsSorted(m, b)
    ensures a == b
  {
    SortedIsUnique(a, b);
  }

  lemma SentIsPlain(table: string, operation: string, locator: Mapping, lk: seq<string>,
                    fields: Mapping, fk: seq<string>)
    requires IsSorted(locator, lk) && IsSorted(fields, fk) && ColumnNames(lk) && ColumnNames(fk)
    ensures PlainRecord(Sent(table, operation, locator, lk, fields, fk))
  {
    WireIsPlain(locator, lk);
    WireIsPlain(fields, fk);
  }

  lemma SameSent(table: string, operation: string, locator: Mapping, lk: seq<string>, fields: Mapping, fk: seq<string>,
                 table': string, operation': string, locator': Mapping, lk': seq<string>,
                 fields': Mapping, fk': seq<string>)
    requires IsSorted(locator, lk) && IsSorted(fields, fk) && IsSorted(locator', lk') && IsSorted(fields', fk')
    requires SameRecord(Sent(table, operation, locator, lk, fields, fk),
                        Sent(table', operation', locator', lk', fields', fk'))
    ensures table == table' && operation == operation' && locator == locator' && fields == fields'
  {
    SameWireSameMapping(locator, lk, locator', lk');
    SameWireSameMapping(fields, fk, fields', fk');
  }

  // ----- batches send no locator

  /** The locator columns of a mapping. */
  function LocatorPart(fields: Mapping, columns: seq<string>): Mapping {
    map k | k in fields && k in columns :: fields[k]
  }

  function KeysAmong(keys: seq<string>, columns: seq<string>): seq<string> {
    if keys == [] then []
    else
      var last := keys[|keys| - 1];
      KeysAmong(keys[..|keys| - 1], columns) + (if last in columns then [last] else [])
  }

  lemma {:induction false} KeysAmongAre(keys: seq<string>, columns: seq<string>)
    requires KeysAscend(keys)
    ensures KeysAscend(KeysAmong(keys, columns))
    ensures forall k :: k in KeysAmong(keys, columns) <==> k in keys && k in columns
  {
    hide Less;
    if keys != [] {
      var front, last := keys[..|keys| - 1], keys[|keys| - 1];
      KeysAmongAre(front, columns);
      assert keys == front + [last];
      var among := KeysAmong(front, columns);
      forall i | 0 <= i < |among| ensures Less(among[i], last) {
        assert among[i] in front;
        var j :| 0 <= j < |front| && front[j] == among[i];
        assert keys[j] == among[i];
      }
    }
  }

  lemma {:induction false} RebuiltLocator(fields: Mapping, keys: seq<string>, columns: seq<string>)
    requires forall k :: k in keys ==> k in fields
    requires forall k :: k in KeysAmong(keys, columns) ==> k in LocatorPart(fields, columns)
    ensures OwnLocator(columns, Wire(fields, keys)) == Wire(LocatorPart(fields, columns), KeysAmong(keys, columns))
  {
    hide WireEntry;
    if keys != [] {
      var n := |keys| - 1;
      var last, among := keys[n], KeysAmong(keys[..n], columns);
      forall k | k in among ensures k in KeysAmong(keys, columns) {
      }
      RebuiltLocator(fields, keys[..n], columns);
      WireNext(fields, keys);
      if last in columns {
        assert last in KeysAmong(keys, columns);
        assert KeysAmong(keys, columns) == among + [last];
        WireNext(LocatorPart(fields, columns), among + [last]);
        assert (among + [last])[..|among|] == among;
      } else {
        assert KeysAmong(keys, columns) == among;
      }
      OwnLocatorNext(columns, Wire(fields, keys));
      hide *;
    }
  }

  lemma WireNext(m: Mapping, keys: seq<string>)
    requires keys != [] && forall k :: k in keys ==> k in m
    ensures var n := |keys| - 1;
      Wire(m, keys) == Wire(m, keys[..n]) + [WireEntry(keys[n], m[keys[n]])]
      && WireEntry(keys[n], m[keys[n]]).name == Some(keys[n]) && WireEntry(keys[n], m[keys[n]]).key == keys[n]
  {
  }

  lemma OwnLocatorNext(columns: seq<string>, entries: seq<FieldEntry>)
    requires entries != []
    ensures var n := |entries| - 1;
      OwnLocator(columns, entries)
      == OwnLocator(columns, entries[..n])
         + (if entries[n].name.Some? && entries[n].key in columns then [entries[n]] else [])
  {
  }

  /** The locator that the batch insert rebuilds from a row's fields is the one the client signed with them. */
  lemma BatchReadsSignedBytes(table: string, fields: Mapping, keys: seq<string>, columns: seq<string>, lk: seq<string>)
    requires IsSorted(fields, keys) && LocatorKeys(TableOf(Some(table))) == Some(columns)
    requires IsSorted(LocatorPart(fields, columns), lk)
    ensures CanonicalRecord(RecordOf(Some(table), Wire(fields, keys)))
         == Some(SignedPayload(table, "insert", LocatorPart(fields, columns), lk, fields, keys))
  {
    KeysAmongAre(keys, columns);
    SortedOnce(LocatorPart(fields, columns), KeysAmong(keys, columns), lk);
    RebuiltLocator(fields, keys, columns);
    GateReadsSignedBytes(table, "insert", LocatorPart(fields, columns), lk, fields, keys);
    hide CanonicalRecord, SignedPayload, TableOf, LocatorKeys, OwnLocator, Wire;
  }

  // ----- the client's own table of locator columns

  function ClientLocator(table: string): Option<seq<string>> {
    if table in ["dim_product", "dim_marketplace", "scrape_jobs", "service_alerts", "users", "ai_chat_sessions",
                 "ai_chat_messages"] then Some(["id"])
    else if table in ["scrape_logs", "api_logs", "reject_data"] then Some([])
    else if table == "dim_date" then Some(["date_id"])
    else if table == "fact_price" then Some(["listing_id", "date_id"])
    else if table == "fact_listing" then Some(["url_hash"])
    else if table == "fact_currency_rate" then Some(["date_id", "currency_code", "source"])
    else if table in ["fact_crypto_price", "fact_commodity_price"] then Some(["date_id", "symbol", "source"])
    else None
  }

  /** Client and gate agree on the locator columns of every table the gate knows. */
  lemma LocatorTablesAgree(table: string)
    ensures LocatorKeys(TableOf(Some(table))) == ClientLocator(table)
  {
  }
}
