/**
 The byte string the write gate signs (B2 canonical form). Text is modelled by its
 UTF-8 octets, one char per octet, so |s| is octet_length(s). None is an SQL NULL: a
 concatenation with a NULL part is NULL as a whole.
 */
module CanonicalEncoding {
  import opened Common
  import opened Decimals

  /** gate.field_entry, where any part may be NULL; val is ignored when the entry is flagged. */
  datatype FieldEntry = FieldEntry(name: Option<string>, flag: Option<bool>, val: Option<string>) {
    const key: string := Given(name)
    /** IF is_null: a NULL flag reads as false. */
    const isNull: bool := flag == Some(true)
  }

  function EntryWith(key: string, isNull: bool, val: Option<string>): (e: FieldEntry)
    ensures e.key == key && e.isNull == isNull && e.val == val && e.name.Some?
  {
    FieldEntry(Some(key), Some(isNull), val)
  }

  datatype Record = Record(table: Option<string>, operation: Option<string>,
                           locator: seq<FieldEntry>, fields: seq<FieldEntry>)

  datatype Batch = Batch(table: Option<string>, operation: Option<string>,
                         locator: seq<FieldEntry>, rows: seq<seq<FieldEntry>>)

  function LpString(s: string): string {
    Decimal(|s|) + ":" + s
  }

  /** An entry without a key, or without a text where it needs one, makes everything around it NULL. */
  predicate HasText(e: FieldEntry) {
    e.name.Some? && (e.isNull || e.val.Some?)
  }

  predicate Texted(entries: seq<FieldEntry>) {
    forall i :: 0 <= i < |entries| ==> HasText(entries[i])
  }

  function Given(s: Option<string>): string {
    if s.Some? then s.value else ""
  }

  function Text(e: FieldEntry): string {
    Given(e.val)
  }

  function ValBytes(e: FieldEntry): string {
    if e.isNull then "N" else "S" + LpString(Text(e))
  }

  function EntryBytes(e: FieldEntry): string {
    LpString(e.key) + ValBytes(e)
  }

  function EntriesBytes(entries: seq<FieldEntry>): string {
    if entries == [] then "" else EntryBytes(entries[0]) + EntriesBytes(entries[1..])
  }

  /** The count is written with no delimiter, straight in front of the first key's length. */
  function DictBytes(entries: seq<FieldEntry>): string {
    "D" + Decimal(|entries|) + EntriesBytes(entries)
  }

  function RecordBytes(r: Record): string {
    "T" + LpString(Given(r.table)) + "O" + LpString(Given(r.operation)) + "L" + DictBytes(r.locator)
    + "F" + DictBytes(r.fields)
  }

  function RowsBytes(rows: seq<seq<FieldEntry>>): string {
    if rows == [] then "" else DictBytes(rows[0]) + RowsBytes(rows[1..])
  }

  function BatchBytes(b: Batch): string {
    "T" + LpString(Given(b.table)) + "O" + LpString(Given(b.operation)) + "L" + DictBytes(b.locator)
    + "R" + Decimal(|b.rows|) + RowsBytes(b.rows)
  }

  function DictEnc(entries: seq<FieldEntry>): Option<string> {
    if Texted(entries) then Some(DictBytes(entries)) else None
  }

  function CanonicalRecord(r: Record): Option<string> {
    if r.table.Some? && r.operation.Some? && Texted(r.locator) && Texted(r.fields) then Some(RecordBytes(r)) else None
  }

  function CanonicalBatch(b: Batch): Option<string> {
    if b.table.Some? && b.operation.Some? && Texted(b.locator) && forall i :: 0 <= i < |b.rows| ==> Texted(b.rows[i])
    then Some(BatchBytes(b))
    else None
  }

  lemma {:induction false} EntriesEncAppend(entries: seq<FieldEntry>, last: FieldEntry)
    ensures EntriesBytes(entries + [last]) == EntriesBytes(entries) + EntryBytes(last)
  {
    if entries == [] {
      assert entries + [last] == [last];
      assert EntriesBytes([last]) == EntryBytes(last) + EntriesBytes([]);
    } else {
      assert (entries + [last])[1..] == entries[1..] + [last];
      EntriesEncAppend(entries[1..], last);
    }
  }

  lemma OneMoreEntry(count: string, entries: seq<FieldEntry>, i: nat)
    requires i < |entries|
    ensures count + EntriesBytes(entries[..i]) + LpString(entries[i].key) + ValBytes(entries[i])
         == count + EntriesBytes(entries[..i + 1])
  {
    hide LpString, ValBytes, EntriesBytes;
    EntriesEncAppend(entries[..i], entries[i]);
    assert entries[..i + 1] == entries[..i] + [entries[i]];
    RegroupFour(count, EntriesBytes(entries[..i]), LpString(entries[i].key), ValBytes(entries[i]));
  }

  lemma RegroupFour(a: string, b: string, c: string, d: string)
    ensures a + b + c + d == a + (b + (c + d))
  {
    Regroup(a, b, c + d);
    Regroup(a + b, c, d);
  }

  /** The || of two nullable byte strings. */
  function Concat(a: Option<string>, b: Option<string>): Option<string> {
    if a.Some? && b.Some? then Some(a.value + b.value) else None
  }

  /** _lp_string is STRICT. */
  function LpEnc(s: Option<string>): Option<string> {
    if s.Some? then Some(LpString(s.value)) else None
  }

  function ValEnc(flag: Option<bool>, val: Option<string>): Option<string> {
    if flag == Some(true) then Some("N") else Concat(Some("S"), LpEnc(val))
  }

  /** gate._dict_enc: the accumulating loop builds the specified bytes, or NULL once a text is missing. */
  method BuildDictEnc(entries: seq<FieldEntry>) returns (result: Option<string>)
    ensures result == DictEnc(entries)
  {
    hide *;
    result := Some("D" + Decimal(|entries|));
    DictSoFarStarts(entries);
    for i := 0 to |entries|
      invariant result == DictSoFar(entries, i)
    {
      DictSoFarNext(entries, i);
      result := Concat(Concat(result, LpEnc(entries[i].name)), ValEnc(entries[i].flag, entries[i].val));
    }
    DictSoFarEnds(entries);
  }

  /** The bytes after the first i entries. */
  function DictSoFar(entries: seq<FieldEntry>, i: nat): Option<string>
    requires i <= |entries|
  {
    if Texted(entries[..i]) then Some("D" + Decimal(|entries|) + EntriesBytes(entries[..i])) else None
  }

  lemma DictSoFarStarts(entries: seq<FieldEntry>)
    ensures DictSoFar(entries, 0) == Some("D" + Decimal(|entries|))
  {
    assert "D" + Decimal(|entries|) + EntriesBytes(entries[..0]) == "D" + Decimal(|entries|);
  }

  lemma DictSoFarNext(entries: seq<FieldEntry>, i: nat)
    requires i < |entries|
    ensures var e := entries[i];
      DictSoFar(entries, i + 1) == Concat(Concat(DictSoFar(entries, i), LpEnc(e.name)), ValEnc(e.flag, e.val))
  {
    hide LpString, EntriesBytes, ValBytes, ValEnc, LpEnc, Texted, HasText, Decimal;
    OneMoreEntry("D" + Decimal(|entries|), entries, i);
    OneMoreText(entries, i);
    ValEncIs(entries[i]);
  }

  lemma DictSoFarEnds(entries: seq<FieldEntry>)
    ensures DictSoFar(entries, |entries|) == DictEnc(entries)
  {
    assert entries[..|entries|] == entries;
    hide EntriesBytes, Texted, Decimal;
  }

  lemma OneMoreText(entries: seq<FieldEntry>, i: nat)
    requires i < |entries|
    ensures Texted(entries[..i + 1]) <==> Texted(entries[..i]) && HasText(entries[i])
  {
    assert entries[..i + 1] == entries[..i] + [entries[i]];
  }

  lemma ValEncIs(e: FieldEntry)
    ensures LpEnc(e.name).None? || ValEnc(e.flag, e.val).None? <==> !HasText(e)
    ensures HasText(e) ==> LpEnc(e.name) == Some(LpString(e.key)) && ValEnc(e.flag, e.val) == Some(ValBytes(e))
  {
  }

  // ----- what two encoded things must share to be the same thing

  /** Two entries the gate cannot tell apart: the text behind an SQL NULL is irrelevant. */
  predicate SameEntry(a: FieldEntry, b: FieldEntry) {
    a.name == b.name && a.isNull == b.isNull && (!a.isNull ==> a.val == b.val)
  }

  predicate SameDict(a: seq<FieldEntry>, b: seq<FieldEntry>) {
    |a| == |b| && forall i :: 0 <= i < |a| ==> SameEntry(a[i], b[i])
  }

  predicate SameRecord(a: Record, b: Record) {
    && a.table == b.table
    && a.operation == b.operation
    && SameDict(a.locator, b.locator)
    && SameDict(a.fields, b.fields)
  }

  predicate SameBatch(a: Batch, b: Batch) {
    && a.table == b.table
    && a.operation == b.operation
    && SameDict(a.locator, b.locator)
    && |a.rows| == |b.rows|
    && forall i :: 0 <= i < |a.rows| ==> SameDict(a.rows[i], b.rows[i])
  }

  predicate IsTag(c: char) {
    c == 'N' || c == 'S'
  }

  /** Somewhere in the key a value tag, a number and a colon stand in a row. */
  predicate HoldsLength(key: string) {
    exists i, j :: 0 <= i && i + 1 < j < |key| && IsTag(key[i]) && key[j] == ':' && AllDigits(key[i + 1..j])
  }

  /** No part of the key can be mistaken for the start of a value. */
  predicate PlainKey(key: string) {
    !HoldsLength(key)
  }

  /** Only the first key stands behind the undelimited count. */
  predicate PlainDict(entries: seq<FieldEntry>) {
    entries != [] ==> PlainKey(entries[0].key)
  }

  predicate PlainRecord(r: Record) {
    PlainDict(r.locator) && PlainDict(r.fields)
  }

  predicate PlainBatch(b: Batch) {
    PlainDict(b.locator) && forall i :: 0 <= i < |b.rows| ==> PlainDict(b.rows[i])
  }

  predicate ColumnNameChar(c: char) {
    'a' <= c <= 'z' || '0' <= c <= '9' || c == '_'
  }

  lemma ColumnNamesArePlain(entries: seq<FieldEntry>)
    requires forall e, i :: e in entries && 0 <= i < |e.key| ==> ColumnNameChar(e.key[i])
    ensures PlainDict(entries)
  {
    if entries != [] {
      assert entries[0] in entries;
      assert forall i :: 0 <= i < |entries[0].key| ==> !IsTag(entries[0].key[i]);
    }
  }

  // ----- the same bytes in front of a remainder r, grouped from the right

  function LpThen(s: string, r: string): string {
    Decimal(|s|) + ([':'] + (s + r))
  }

  function ValThen(e: FieldEntry, r: string): string {
    if e.isNull then ['N'] + r else ['S'] + LpThen(Text(e), r)
  }

  function EntriesThen(entries: seq<FieldEntry>, r: string): string {
    if entries == [] then r
    else LpThen(entries[0].key, ValThen(entries[0], EntriesThen(entries[1..], r)))
  }

  function DictThen(entries: seq<FieldEntry>, r: string): string {
    ['D'] + (Decimal(|entries|) + EntriesThen(entries, r))
  }

  function RowsThen(rows: seq<seq<FieldEntry>>): string {
    if rows == [] then "" else DictThen(rows[0], RowsThen(rows[1..]))
  }

  function HeaderThen(table: string, operation: string, locator: seq<FieldEntry>, r: string): string {
    ['T'] + LpThen(table, ['O'] + LpThen(operation, ['L'] + DictThen(locator, r)))
  }

  lemma LpGrouping(s: string, r: string)
    ensures LpString(s) + r == LpThen(s, r)
  {
    assert LpString(s) + r == Decimal(|s|) + ((":" + s) + r);
  }

  lemma ValGrouping(e: FieldEntry, r: string)
    ensures ValBytes(e) + r == ValThen(e, r)
  {
    if !e.isNull {
      LpGrouping(Text(e), r);
      Regroup("S", LpString(Text(e)), r);
    }
  }

  lemma {:induction false} EntriesGrouping(entries: seq<FieldEntry>, r: string)
    ensures EntriesBytes(entries) + r == EntriesThen(entries, r)
  {
    if entries == [] {
      assert EntriesBytes(entries) + r == r;
    } else {
      var e, rest := entries[0], EntriesBytes(entries[1..]);
      EntriesGrouping(entries[1..], r);
      Regroup(EntryBytes(e), rest, r);
      Regroup(LpString(e.key), ValBytes(e), rest + r);
      ValGrouping(e, rest + r);
      LpGrouping(e.key, ValThen(e, rest + r));
    }
  }

  lemma DictGrouping(entries: seq<FieldEntry>, r: string)
    ensures DictBytes(entries) + r == DictThen(entries, r)
  {
    EntriesGrouping(entries, r);
    Regroup("D" + Decimal(|entries|), EntriesBytes(entries), r);
    Regroup("D", Decimal(|entries|), EntriesThen(entries, r));
  }

  lemma {:induction false} RowsGrouping(rows: seq<seq<FieldEntry>>)
    ensures RowsBytes(rows) == RowsThen(rows)
  {
    if rows != [] {
      RowsGrouping(rows[1..]);
      DictGrouping(rows[0], RowsBytes(rows[1..]));
    }
  }

  function Header(table: string, operation: string, locator: seq<FieldEntry>): string {
    "T" + LpString(table) + "O" + LpString(operation) + "L" + DictBytes(locator)
  }

  lemma HeaderGrouping(t: string, o: string, l: seq<FieldEntry>, r: string)
    ensures Header(t, o, l) + r == HeaderThen(t, o, l, r)
  {
    var d := DictBytes(l);
    Regroup("T" + LpString(t) + "O" + LpString(o) + "L", d, r);
    DictGrouping(l, r);
    Regroup("T" + LpString(t) + "O" + LpString(o), "L", d + r);
    Regroup("T" + LpString(t) + "O", LpString(o), "L" + (d + r));
    LpGrouping(o, "L" + (d + r));
    var x := LpThen(o, "L" + (d + r));
    Regroup("T" + LpString(t), "O", x);
    Regroup("T", LpString(t), "O" + x);
    LpGrouping(t, "O" + x);
  }

  lemma RecordGrouping(r: Record)
    ensures RecordBytes(r)
         == HeaderThen(Given(r.table), Given(r.operation), r.locator, ['F'] + DictThen(r.fields, ""))
  {
    var h, d := Header(Given(r.table), Given(r.operation), r.locator), DictBytes(r.fields);
    Regroup(h, "F", d);
    DictGrouping(r.fields, "");
    assert d + "" == d;
    HeaderGrouping(Given(r.table), Given(r.operation), r.locator, "F" + d);
  }

  lemma BatchGrouping(b: Batch)
    ensures BatchBytes(b)
         == HeaderThen(Given(b.table), Given(b.operation), b.locator, ['R'] + (Decimal(|b.rows|) + RowsThen(b.rows)))
  {
    var h, n, d := Header(Given(b.table), Given(b.operation), b.locator), Decimal(|b.rows|), RowsBytes(b.rows);
    Regroup(h + "R", n, d);
    Regroup(h, "R", n + d);
    RowsGrouping(b.rows);
    HeaderGrouping(Given(b.table), Given(b.operation), b.locator, "R" + (n + d));
  }

  // ----- unique decoding, piece by piece, in front of any remainder

  lemma Peel(a: string, b: string, r: string, s: string)
    requires a + r == b + s && |a| == |b|
    ensures a == b && r == s
  {
    assert a == (a + r)[..|a|] && b == (b + s)[..|b|];
    assert r == (a + r)[|a|..] && s == (b + s)[|b|..];
  }

  predicate StartsOutsideDigits(r: string) {
    r == "" || !IsDigit(r[0])
  }

  function LeadingDigits(x: string): nat {
    if StartsOutsideDigits(x) then 0 else 1 + LeadingDigits(x[1..])
  }

  lemma {:induction false} LeadingDigitsOfNumeral(a: string, r: string)
    requires AllDigits(a) && StartsOutsideDigits(r)
    ensures LeadingDigits(a + r) == |a|
  {
    if a == "" {
      assert a + r == r;
    } else {
      assert (a + r)[1..] == a[1..] + r;
      LeadingDigitsOfNumeral(a[1..], r);
    }
  }

  /** A numeral followed by a non-digit is the whole leading digit run. */
  lemma NumeralUnique(a: string, b: string, r: string, s: string)
    requires AllDigits(a) && AllDigits(b)
    requires StartsOutsideDigits(r) && StartsOutsideDigits(s)
    requires a + r == b + s
    ensures a == b && r == s
  {
    LeadingDigitsOfNumeral(a, r);
    LeadingDigitsOfNumeral(b, s);
    Peel(a, b, r, s);
  }

  lemma LpUnique(a: string, b: string, r: string, s: string)
    requires LpThen(a, r) == LpThen(b, s)
    ensures a == b && r == s
  {
    NumeralUnique(Decimal(|a|), Decimal(|b|), [':'] + (a + r), [':'] + (b + s));
    DecimalInjective(|a|, |b|);
    Peel([':'], [':'], a + r, b + s);
    Peel(a, b, r, s);
  }

  lemma ValUnique(a: FieldEntry, b: FieldEntry, r: string, s: string)
    requires HasText(a) && HasText(b) && ValThen(a, r) == ValThen(b, s)
    ensures a.isNull == b.isNull && (!a.isNull ==> a.val == b.val) && r == s
  {
    assert ValThen(a, r)[0] == (if a.isNull then 'N' else 'S');
    assert ValThen(b, s)[0] == (if b.isNull then 'N' else 'S');
    if a.isNull {
      Peel(['N'], ['N'], r, s);
    } else {
      Peel(['S'], ['S'], LpThen(Text(a), r), LpThen(Text(b), s));
      LpUnique(Text(a), Text(b), r, s);
    }
  }

  lemma {:induction false} EntriesUnique(a: seq<FieldEntry>, b: seq<FieldEntry>, r: string, s: string)
    requires |a| == |b| && Texted(a) && Texted(b)
    requires EntriesThen(a, r) == EntriesThen(b, s)
    ensures SameDict(a, b) && r == s
  {
    if a != [] {
      var ra, rb := EntriesThen(a[1..], r), EntriesThen(b[1..], s);
      GivenSame(a[0].name, a[0].name);
      LpUnique(a[0].key, b[0].key, ValThen(a[0], ra), ValThen(b[0], rb));
      ValUnique(a[0], b[0], ra, rb);
      EntriesUnique(a[1..], b[1..], r, s);
    }
  }

  lemma {:induction false} PositiveValue(x: string)
    requires x != "" && AllDigits(x) && x[0] != '0'
    ensures ValueOf(x) >= 1
  {
    if |x| > 1 {
      PositiveValue(x[..|x| - 1]);
    }
  }

  lemma PrefixGrows(x: string, d: string)
    requires x != "" && AllDigits(x) && x[0] != '0' && AllDigits(d)
    ensures AllDigits(x + d) && ValueOf(x + d) > ValueOf(d)
  {
    PositiveValue(x);
    ValueOfAppend(x, d);
    ValueOfBound(d);
    Scaled(ValueOf(x), Pow10(|d|));
  }

  lemma Scaled(k: nat, p: nat)
    requires k >= 1
    ensures k * p >= p
  {
  }

  /** Extra digits in front make a larger number: numerals carry no leading zeros. */
  lemma LongerNumeral(m: nat, n: nat, x: string)
    requires x != "" && AllDigits(x)
    requires Decimal(m) == x + Decimal(n)
    ensures m > n
  {
    assert Decimal(m)[0] == x[0] && |Decimal(m)| > 1;
    NoLeadingZero(m);
    PrefixGrows(x, Decimal(n));
    DecimalValue(m);
    DecimalValue(n);
  }

  /**
   Two dictionaries that disagree on where the count ends: the one with the shorter count has a
   longer first key, and that key swallows the other one's value tag and the number behind it.
   */
  lemma LongKeySwallowsTag(a: seq<FieldEntry>, b: seq<FieldEntry>, r: string, s: string)
    requires a != [] && b != []
    requires Decimal(|a|) + EntriesThen(a, r) == Decimal(|b|) + EntriesThen(b, s)
    requires |Decimal(|a|)| < |Decimal(|b|)|
    ensures HoldsLength(a[0].key)
  {
    var ca, cb := Decimal(|a|), Decimal(|b|);
    var ka, kb := a[0].key, b[0].key;
    var ra, rb := ValThen(a[0], EntriesThen(a[1..], r)), ValThen(b[0], EntriesThen(b[1..], s));
    var x := FirstNumeralEnds(ca, Decimal(|ka|), cb, Decimal(|kb|), ka + ra, kb + rb);
    LongerNumeral(|ka|, |kb|, x);
    NumeralLength(|b|, 1);
    var n, w := NumberBehindTag(b, s);
    assert IsTag(ra[0]);
    hide *;
    KeyHoldsNumber(ka, ra, kb, rb, n, w);
  }

  /** Behind the tag of a first value, with more entries to come, stands a number and a colon. */
  lemma NumberBehindTag(b: seq<FieldEntry>, s: string) returns (n: string, w: string)
    requires |b| >= 2
    ensures AllDigits(n) && n != ""
    ensures var v := ValThen(b[0], EntriesThen(b[1..], s)); v != "" && IsTag(v[0]) && v[1..] == n + ([':'] + w)
  {
    var rest := EntriesThen(b[1..], s);
    if b[0].isNull {
      n := Decimal(|b[1].key|);
      w := b[1].key + ValThen(b[1], EntriesThen(b[2..], s));
      assert b[1..][1..] == b[2..];
      assert rest == n + ([':'] + w);
    } else {
      n := Decimal(|Text(b[0])|);
      w := Text(b[0]) + rest;
    }
  }

  /** A longer key cannot end inside that number, because its own value starts with a tag. */
  lemma KeyHoldsNumber(ka: string, ra: string, kb: string, rb: string, n: string, w: string)
    requires ka + ra == kb + rb && |ka| > |kb|
    requires ra != "" && IsTag(ra[0]) && rb != "" && IsTag(rb[0])
    requires AllDigits(n) && n != "" && rb[1..] == n + ([':'] + w)
    ensures HoldsLength(ka)
  {
    var i, j := |kb|, |kb| + 1 + |n|;
    var all := kb + rb;
    assert all[i] == rb[0];
    forall p | i < p < j ensures all[p] == n[p - i - 1] {
      assert all[p] == rb[1..][p - i - 1];
    }
    assert all[j] == rb[1..][|n|] == ':';
    assert all[|ka|] == ra[0];
    assert |ka| > j;
    assert ka == all[..|ka|];
    assert ka[i + 1..j] == n;
    assert IsTag(ka[i]) && ka[j] == ':';
  }

  /** Count and key length form one digit run; the shorter count leaves digits to the key length. */
  lemma FirstNumeralEnds(ca: string, la: string, cb: string, lb: string, r: string, s: string) returns (x: string)
    requires AllDigits(ca) && AllDigits(la) && AllDigits(cb) && AllDigits(lb)
    requires ca + (la + ([':'] + r)) == cb + (lb + ([':'] + s))
    requires |ca| < |cb|
    ensures x != "" && AllDigits(x) && la == x + lb && r == s
  {
    Regroup(ca, la, [':'] + r);
    Regroup(cb, lb, [':'] + s);
    NumeralUnique(ca + la, cb + lb, [':'] + r, [':'] + s);
    Peel([':'], [':'], r, s);
    x := cb[|ca|..];
    assert la == (ca + la)[|ca|..];
    assert (cb + lb)[|ca|..] == x + lb;
  }

  lemma EmptyDictUnique(b: seq<FieldEntry>, r: string, s: string)
    requires StartsOutsideDigits(r)
    requires Decimal(0) + r == Decimal(|b|) + EntriesThen(b, s)
    ensures b == []
  {
    assert (Decimal(0) + r)[0] == '0';
    NoLeadingZero(|b|);
  }

  /** A dictionary in front of a non-digit remainder decodes uniquely. */
  lemma DictUnique(a: seq<FieldEntry>, b: seq<FieldEntry>, r: string, s: string)
    requires PlainDict(a) && PlainDict(b) && Texted(a) && Texted(b)
    requires StartsOutsideDigits(r) && StartsOutsideDigits(s)
    requires DictThen(a, r) == DictThen(b, s)
    ensures SameDict(a, b) && r == s
  {
    var ca, cb := Decimal(|a|), Decimal(|b|);
    var ea, eb := EntriesThen(a, r), EntriesThen(b, s);
    Peel(['D'], ['D'], ca + ea, cb + eb);
    if a == [] {
      EmptyDictUnique(b, r, s);
    } else if b == [] {
      EmptyDictUnique(a, s, r);
    } else if |ca| < |cb| {
      LongKeySwallowsTag(a, b, r, s);
    } else if |cb| < |ca| {
      LongKeySwallowsTag(b, a, s, r);
    }
    Peel(ca, cb, ea, eb);
    DecimalInjective(|a|, |b|);
    EntriesUnique(a, b, r, s);
  }

  lemma HeaderUnique(t: string, o: string, l: seq<FieldEntry>, t': string, o': string, l': seq<FieldEntry>,
                     r: string, s: string)
    requires PlainDict(l) && PlainDict(l') && Texted(l) && Texted(l')
    requires StartsOutsideDigits(r) && StartsOutsideDigits(s)
    requires HeaderThen(t, o, l, r) == HeaderThen(t', o', l', s)
    ensures t == t' && o == o' && SameDict(l, l') && r == s
  {
    var d, d' := DictThen(l, r), DictThen(l', s);
    var x, x' := LpThen(o, ['L'] + d), LpThen(o', ['L'] + d');
    Peel(['T'], ['T'], LpThen(t, ['O'] + x), LpThen(t', ['O'] + x'));
    LpUnique(t, t', ['O'] + x, ['O'] + x');
    Peel(['O'], ['O'], x, x');
    LpUnique(o, o', ['L'] + d, ['L'] + d');
    Peel(['L'], ['L'], d, d');
    DictUnique(l, l', r, s);
  }

  lemma {:induction false} SameEncodesSame(a: seq<FieldEntry>, b: seq<FieldEntry>)
    requires SameDict(a, b)
    ensures EntriesBytes(a) == EntriesBytes(b)
  {
    if a != [] {
      assert SameEntry(a[0], b[0]);
      SameEncodesSame(a[1..], b[1..]);
    }
  }

  lemma {:induction false} SameTexted(a: seq<FieldEntry>, b: seq<FieldEntry>)
    requires SameDict(a, b)
    ensures Texted(a) <==> Texted(b)
  {
    forall i | 0 <= i < |a| ensures HasText(a[i]) <==> HasText(b[i]) {
      assert SameEntry(a[i], b[i]);
    }
  }

  lemma SameBytesSameRecord(a: Record, b: Record)
    requires PlainRecord(a) && PlainRecord(b) && RecordBytes(a) == RecordBytes(b)
    requires CanonicalRecord(a).Some? && CanonicalRecord(b).Some?
    ensures SameRecord(a, b)
  {
    var fa, fb := DictThen(a.fields, ""), DictThen(b.fields, "");
    RecordGrouping(a);
    RecordGrouping(b);
    HeaderUnique(Given(a.table), Given(a.operation), a.locator, Given(b.table), Given(b.operation), b.locator,
                 ['F'] + fa, ['F'] + fb);
    Peel(['F'], ['F'], fa, fb);
    DictUnique(a.fields, b.fields, "", "");
  }

  /** Main result: signed bytes, where there are any, determine the write and nothing but the write. */
  lemma RecordUniquelyDecodable(a: Record, b: Record)
    requires PlainRecord(a) && PlainRecord(b)
    requires CanonicalRecord(a).Some?
    ensures CanonicalRecord(a) == CanonicalRecord(b) <==> SameRecord(a, b)
  {
    if CanonicalRecord(a) == CanonicalRecord(b) {
      SameBytesSameRecord(a, b);
    }
    if SameRecord(a, b) {
      SameEncodesSame(a.locator, b.locator);
      SameEncodesSame(a.fields, b.fields);
      SameTexted(a.locator, b.locator);
      SameTexted(a.fields, b.fields);
    }
    hide PlainRecord, EntriesBytes, SameDict, Texted;
  }

  lemma {:induction false} RowsUnique(a: seq<seq<FieldEntry>>, b: seq<seq<FieldEntry>>)
    requires |a| == |b|
    requires forall i :: 0 <= i < |a| ==> PlainDict(a[i]) && PlainDict(b[i]) && Texted(a[i]) && Texted(b[i])
    requires RowsThen(a) == RowsThen(b)
    ensures forall i :: 0 <= i < |a| ==> SameDict(a[i], b[i])
  {
    if a != [] {
      DictUnique(a[0], b[0], RowsThen(a[1..]), RowsThen(b[1..]));
      RowsUnique(a[1..], b[1..]);
      forall i | 0 < i < |a| ensures SameDict(a[i], b[i]) {
        assert a[i] == a[1..][i - 1] && b[i] == b[1..][i - 1];
      }
    }
  }

  lemma {:induction false} SameRowsEncodeSame(a: seq<seq<FieldEntry>>, b: seq<seq<FieldEntry>>)
    requires |a| == |b|
    requires forall i :: 0 <= i < |a| ==> SameDict(a[i], b[i])
    ensures RowsBytes(a) == RowsBytes(b)
  {
    if a != [] {
      SameEncodesSame(a[0], b[0]);
      SameRowsEncodeSame(a[1..], b[1..]);
    }
  }

  lemma SameBytesSameBatch(a: Batch, b: Batch)
    requires PlainBatch(a) && PlainBatch(b) && BatchBytes(a) == BatchBytes(b)
    requires CanonicalBatch(a).Some? && CanonicalBatch(b).Some?
    ensures SameBatch(a, b)
  {
    hide *;
    var ca, cb := Decimal(|a.rows|), Decimal(|b.rows|);
    var ra, rb := RowsThen(a.rows), RowsThen(b.rows);
    BatchGrouping(a);
    BatchGrouping(b);
    BatchParts(a);
    BatchParts(b);
    HeaderUnique(Given(a.table), Given(a.operation), a.locator, Given(b.table), Given(b.operation), b.locator,
                 ['R'] + (ca + ra), ['R'] + (cb + rb));
    Peel(['R'], ['R'], ca + ra, cb + rb);
    NumeralUnique(ca, cb, ra, rb);
    DecimalInjective(|a.rows|, |b.rows|);
    RowsUnique(a.rows, b.rows);
    GivenSame(a.table, b.table);
    GivenSame(a.operation, b.operation);
    SameBatchIs(a, b);
  }

  lemma GivenSame(a: Option<string>, b: Option<string>)
    requires a.Some? && b.Some? && Given(a) == Given(b)
    ensures a == b
  {
  }

  lemma BatchParts(b: Batch)
    ensures PlainBatch(b) ==> PlainDict(b.locator) && forall i :: 0 <= i < |b.rows| ==> PlainDict(b.rows[i])
    ensures CanonicalBatch(b).Some? ==>
      b.table.Some? && b.operation.Some? && Texted(b.locator) && forall i :: 0 <= i < |b.rows| ==> Texted(b.rows[i])
    ensures StartsOutsideDigits(RowsThen(b.rows))
    ensures StartsOutsideDigits(['R'] + (Decimal(|b.rows|) + RowsThen(b.rows)))
  {
    hide PlainDict, Texted, Decimal, EntriesThen;
  }

  lemma SameBatchIs(a: Batch, b: Batch)
    ensures SameBatch(a, b)
      <==> a.table == b.table && a.operation == b.operation && SameDict(a.locator, b.locator) && |a.rows| == |b.rows|
           && forall i :: 0 <= i < |a.rows| ==> SameDict(a.rows[i], b.rows[i])
  {
    hide SameDict;
  }

  lemma BatchUniquelyDecodable(a: Batch, b: Batch)
    requires PlainBatch(a) && PlainBatch(b)
    requires CanonicalBatch(a).Some?
    ensures CanonicalBatch(a) == CanonicalBatch(b) <==> SameBatch(a, b)
  {
    if CanonicalBatch(a) == CanonicalBatch(b) {
      SameBytesSameBatch(a, b);
    }
    if SameBatch(a, b) {
      SameEncodesSame(a.locator, b.locator);
      SameTexted(a.locator, b.locator);
      SameRowsEncodeSame(a.rows, b.rows);
      forall i | 0 <= i < |b.rows| ensures Texted(b.rows[i]) {
        SameTexted(a.rows[i], b.rows[i]);
      }
    }
    hide PlainBatch, EntriesBytes, RowsBytes, SameDict, Texted;
  }

  /** A signature for one record can never stand for a batch. */
  lemma RecordIsNoBatch(a: Record, b: Batch)
    requires PlainDict(a.locator) && PlainDict(b.locator) && CanonicalRecord(a).Some?
    ensures CanonicalRecord(a) != CanonicalBatch(b)
  {
    if CanonicalRecord(a) == CanonicalBatch(b) {
      RecordGrouping(a);
      BatchGrouping(b);
      var fa, fb := ['F'] + DictThen(a.fields, ""), ['R'] + (Decimal(|b.rows|) + RowsThen(b.rows));
      assert fa[0] != fb[0];
      HeaderUnique(Given(a.table), Given(a.operation), a.locator, Given(b.table), Given(b.operation), b.locator,
                   fa, fb);
      assert false;
    }
  }
}
