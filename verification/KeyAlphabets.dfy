/**
 Over which alphabets of first keys the canonical bytes decode uniquely: the counterexamples for
 every alphabet that does not, and the exact condition.
 */
module KeyAlphabets {
  import opened Common
  import opened Decimals
  import opened CanonicalEncoding

  type Alphabet = char -> bool

  predicate Drawn(letters: Alphabet, key: string) {
    forall i :: 0 <= i < |key| ==> letters(key[i])
  }

  predicate DictDrawn(letters: Alphabet, entries: seq<FieldEntry>) {
    entries != [] ==> Drawn(letters, entries[0].key)
  }

  predicate RecordDrawn(letters: Alphabet, r: Record) {
    DictDrawn(letters, r.locator) && DictDrawn(letters, r.fields)
  }

  /** A key over these letters cannot hold a tag, or no colon, or no number. */
  ghost predicate Harmless(letters: Alphabet) {
    (!letters('N') && !letters('S')) || !letters(':') || forall c :: IsDigit(c) ==> !letters(c)
  }

  lemma HarmlessIsPlain(letters: Alphabet, key: string)
    requires Harmless(letters) && Drawn(letters, key)
    ensures PlainKey(key)
  {
    forall i, j | 0 <= i && i + 1 < j < |key|
      ensures !(IsTag(key[i]) && key[j] == ':' && AllDigits(key[i + 1..j]))
    {
      assert key[i + 1..j][0] == key[i + 1];
      assert letters(key[i]) && letters(key[i + 1]) && letters(key[j]);
    }
  }

  /** One dictionary whose single key holds the start of another dictionary's first value. */
  ghost predicate Collides(letters: Alphabet, a: seq<FieldEntry>, b: seq<FieldEntry>) {
    && DictDrawn(letters, a) && DictDrawn(letters, b)
    && Texted(a) && Texted(b)
    && DictBytes(a) == DictBytes(b)
    && |a| == 1 && |b| > 1
  }

  function NullEntries(n: nat): (entries: seq<FieldEntry>)
    ensures |entries| == n && Texted(entries)
  {
    if n == 0 then [] else [EntryWith("", true, None)] + NullEntries(n - 1)
  }

  lemma {:induction false} NullEntriesLength(n: nat)
    ensures |EntriesThen(NullEntries(n), "")| == 3 * n
  {
    if n > 0 {
      NullEntriesLength(n - 1);
      assert NullEntries(n)[1..] == NullEntries(n - 1);
    }
  }

  function Fill(n: nat): (s: string)
    ensures |s| == n
  {
    seq(n, _ => 'x')
  }

  lemma DictReading(entries: seq<FieldEntry>, count: string, body: string)
    requires Decimal(|entries|) == count && EntriesThen(entries, "") == body
    ensures DictBytes(entries) == "D" + (count + body)
  {
    DictGrouping(entries, "");
    assert DictBytes(entries) + "" == DictBytes(entries);
  }

  /** The tag, a two-digit number and a colon, filled up to ten letters. */
  function SwallowingKey(tag: char, c: char): (key: string)
    ensures |key| == 10
  {
    [tag, c, c, ':'] + "::::::"
  }

  lemma TwoDigits(c: char)
    requires IsDigit(c) && c != '0'
    ensures var d := DigitValue(c); Decimal(11 * d) == [c, c]
  {
    var d := DigitValue(c);
    assert 11 * d / 10 == d && 11 * d % 10 == d;
    assert Decimal(d) == [c];
  }

  lemma SmallNumerals()
    ensures Decimal(0) == "0" && Decimal(1) == "1"
    ensures Decimal(10) == "10" && Decimal(11) == "11" && Decimal(500) == "500"
  {
    assert Decimal(1) == "1" && Decimal(5) == "5";
    assert Decimal(50) == Decimal(5) + [DigitChar(0)];
  }

  lemma ThreeDigits(q: nat)
    requires 100 <= q < 1000
    ensures |Decimal(q)| == 3
  {
    NumeralLength(q, 2);
    NumeralLength(q, 3);
    assert Pow10(1) == 10 && Pow10(2) == 100 && Pow10(3) == 1000;
  }

  /** A single entry whose key takes ten letters and whose value takes 500. */
  lemma OneEntryReading(key: string, v: string)
    requires |key| == 10 && |v| == 500
    ensures DictBytes([EntryWith(key, false, Some(v))])
         == "D" + ("1" + ("10" + ([':'] + (key + (['S'] + ("500" + ([':'] + v)))))))
  {
    var a := [EntryWith(key, false, Some(v))];
    SmallNumerals();
    assert v + "" == v;
    assert a[1..] == [];
    assert EntriesThen(a, "") == "10" + ([':'] + (key + (['S'] + ("500" + ([':'] + v)))));
    DictReading(a, "1", EntriesThen(a, ""));
  }

  /** Eleven entries, the first with an empty key; y is what stands behind that key. */
  lemma ElevenEntriesReading(b: seq<FieldEntry>)
    requires |b| == 11 && b[0].key == ""
    ensures DictBytes(b) == "D" + ("11" + ("0" + ([':'] + ValThen(b[0], EntriesThen(b[1..], "")))))
  {
    SmallNumerals();
    var y := ValThen(b[0], EntriesThen(b[1..], ""));
    assert "" + y == y;
    DictReading(b, "11", EntriesThen(b, ""));
  }

  lemma CountsReadAlike(key: string, head: string, rest: string, v: string, y: string)
    requires y == head + rest && key + "S500:" + v == y
    ensures "D" + ("1" + ("10" + ([':'] + (key + (['S'] + ("500" + ([':'] + v)))))))
         == "D" + ("11" + ("0" + ([':'] + y)))
  {
    assert key + (['S'] + ("500" + ([':'] + v))) == key + "S500:" + v;
    assert "1" + ("10" + ([':'] + y)) == "11" + ("0" + ([':'] + y));
  }

  /** The text whose number the key swallows, the single entry's value, and the many entries. */
  function SwallowedText(d: nat): (t: string)
    requires 1 <= d <= 9
    ensures |t| == 11 * d
  {
    "::::::" + "S500:" + Fill(11 * d - 11)
  }

  function ManyEntries(tag: char, d: nat): (b: seq<FieldEntry>)
    requires IsTag(tag) && 1 <= d <= 9
    ensures |b| == 11 && b[0].key == "" && Texted(b)
  {
    if tag == 'N' then
      [EntryWith("", true, None), EntryWith(SwallowedText(d), false, Some(Fill(479 - 11 * d)))] + NullEntries(9)
    else
      [EntryWith("", false, Some(SwallowedText(d))), EntryWith("", false, Some(Fill(477 - 11 * d)))] + NullEntries(9)
  }

  /** What stands behind the swallowed text: 511 letters less the text. */
  function ManyTail(tag: char, d: nat): string
    requires IsTag(tag) && 1 <= d <= 9
  {
    var nulls := EntriesThen(NullEntries(9), "");
    if tag == 'N' then ['S'] + LpThen(Fill(479 - 11 * d), nulls)
    else LpThen("", ['S'] + LpThen(Fill(477 - 11 * d), nulls))
  }

  lemma ManyTailLength(tag: char, d: nat)
    requires IsTag(tag) && 1 <= d <= 9
    ensures |ManyTail(tag, d)| == 511 - 11 * d
  {
    NullEntriesLength(9);
    SmallNumerals();
    ThreeDigits(479 - 11 * d);
    ThreeDigits(477 - 11 * d);
    hide NullEntries, EntriesThen, Decimal;
  }

  lemma ManyReading(tag: char, c: char)
    requires IsTag(tag) && IsDigit(c) && c != '0'
    ensures var d := DigitValue(c);
      var b := ManyEntries(tag, d);
      ValThen(b[0], EntriesThen(b[1..], "")) == [tag] + ([c, c] + ([':'] + (SwallowedText(d) + ManyTail(tag, d))))
  {
    var d := DigitValue(c);
    var b := ManyEntries(tag, d);
    TwoDigits(c);
    assert b[1..][1..] == NullEntries(9);
    assert EntriesThen(b[1..], "") == LpThen(b[1].key, ValThen(b[1], EntriesThen(NullEntries(9), "")));
    hide NullEntries, EntriesThen, Decimal, Fill, SwallowedText;
  }

  lemma DigitCollides(letters: Alphabet, tag: char, c: char) returns (a: seq<FieldEntry>, b: seq<FieldEntry>)
    requires IsTag(tag) && IsDigit(c) && c != '0' && letters(tag) && letters(c) && letters(':')
    ensures Collides(letters, a, b) && |b| == 11
  {
    hide *;
    var d := DigitValue(c);
    var key, v := SwallowingKey(tag, c), Fill(11 * d - 11) + ManyTail(tag, d);
    a, b := [EntryWith(key, false, Some(v))], ManyEntries(tag, d);
    SwallowingKeyDrawn(letters, tag, c);
    OneEntryDrawn(letters, key, v);
    ManyEntriesDrawn(letters, tag, d);
    ManyTailLength(tag, d);
    ManyReading(tag, c);
    SwallowedReading(tag, c);
    OneEntryReading(key, v);
    ElevenEntriesReading(b);
    var y := ValThen(b[0], EntriesThen(b[1..], ""));
    CountsReadAlike(key, y, "", v, y);
    CollidesIs(letters, a, b);
  }

  function DigitValue(c: char): (d: nat)
    requires IsDigit(c)
    ensures d <= 9 && (c != '0' ==> d >= 1)
    ensures d == c as int - '0' as int
  {
    c as int - '0' as int
  }

  lemma SwallowingKeyDrawn(letters: Alphabet, tag: char, c: char)
    requires letters(tag) && letters(c) && letters(':')
    ensures Drawn(letters, SwallowingKey(tag, c))
  {
  }

  lemma OneEntryDrawn(letters: Alphabet, key: string, v: string)
    requires Drawn(letters, key)
    ensures DictDrawn(letters, [EntryWith(key, false, Some(v))]) && Texted([EntryWith(key, false, Some(v))])
  {
  }

  lemma ManyEntriesDrawn(letters: Alphabet, tag: char, d: nat)
    requires IsTag(tag) && 1 <= d <= 9
    ensures DictDrawn(letters, ManyEntries(tag, d))
  {
    hide Fill, SwallowedText, NullEntries;
  }

  lemma CollidesIs(letters: Alphabet, a: seq<FieldEntry>, b: seq<FieldEntry>)
    requires DictDrawn(letters, a) && DictDrawn(letters, b) && Texted(a) && Texted(b) && DictBytes(a) == DictBytes(b)
    requires |a| == 1 && |b| > 1
    ensures Collides(letters, a, b)
  {
  }

  lemma SwallowedReading(tag: char, c: char)
    requires IsTag(tag) && IsDigit(c) && c != '0'
    ensures var d := DigitValue(c);
      SwallowingKey(tag, c) + "S500:" + (Fill(11 * d - 11) + ManyTail(tag, d))
      == [tag] + ([c, c] + ([':'] + (SwallowedText(d) + ManyTail(tag, d))))
  {
    hide ManyTail, Fill, Decimal;
    var d := DigitValue(c);
    SevenParts([tag], [c, c], [':'], "::::::", "S500:", Fill(11 * d - 11), ManyTail(tag, d));
    assert [tag] + ([c, c] + ([':'] + "::::::")) == SwallowingKey(tag, c);
  }

  lemma SevenParts(p: string, q: string, r: string, h: string, m: string, pad: string, t: string)
    ensures p + (q + (r + h)) + m + (pad + t) == p + (q + (r + (h + m + pad + t)))
  {
    Regroup(h + m, pad, t);
    Regroup(h, m, pad + t);
    Regroup(p + (q + (r + h)), m, pad + t);
    Regroup(p, q + (r + h), m + (pad + t));
    Regroup(q, r + h, m + (pad + t));
    Regroup(r, h, m + (pad + t));
  }

  // ----- the alphabet whose only digit is 0: longer dictionaries

  function Repeat(w: string, n: nat): (s: string)
    ensures |s| == n * |w|
  {
    if n == 0 then "" else w + Repeat(w, n - 1)
  }

  lemma {:induction false} RepeatDrawn(letters: Alphabet, w: string, n: nat)
    requires Drawn(letters, w)
    ensures Drawn(letters, Repeat(w, n))
  {
    if n > 0 {
      RepeatDrawn(letters, w, n - 1);
    }
  }

  function EmptyEntry(tag: char): FieldEntry {
    EntryWith("", tag == 'N', Some(""))
  }

  /** n entries with empty keys and empty or NULL values. */
  function EmptyEntries(tag: char, n: nat): (entries: seq<FieldEntry>)
    ensures |entries| == n && Texted(entries)
    ensures n > 0 ==> entries[0] == EmptyEntry(tag)
  {
    if n == 0 then [] else [EmptyEntry(tag)] + EmptyEntries(tag, n - 1)
  }

  function EmptyValue(tag: char): string {
    if tag == 'N' then "N" else "S0:"
  }

  lemma EmptyValueThen(tag: char, r: string)
    requires IsTag(tag)
    ensures ValThen(EmptyEntry(tag), r) == EmptyValue(tag) + r
  {
    SmallNumerals();
    assert "" + r == r;
    assert tag == 'S' ==> ['S'] + ("0" + ([':'] + r)) == "S0:" + r;
  }

  /** Read from behind the first key's number, such entries repeat a word that starts with the tag. */
  lemma {:induction false} EmptyEntriesReading(tag: char, n: nat)
    requires IsTag(tag) && n >= 1
    ensures EntriesThen(EmptyEntries(tag, n), "")
         == "0:" + (Repeat(EmptyValue(tag) + "0:", n - 1) + EmptyValue(tag))
  {
    EmptyEntriesNext(tag, n);
    RepeatNext(EmptyValue(tag) + "0:", n - 1);
    hide *;
    var v := EmptyValue(tag);
    if n == 1 {
      assert v + "" == v && "" + v == v;
    } else {
      EmptyEntriesReading(tag, n - 1);
      FourParts(v, "0:", Repeat(v + "0:", n - 2), v);
    }
  }

  lemma EmptyEntriesNext(tag: char, n: nat)
    requires IsTag(tag) && n >= 1
    ensures EntriesThen(EmptyEntries(tag, n), "")
         == "0:" + (EmptyValue(tag) + EntriesThen(EmptyEntries(tag, n - 1), ""))
    ensures n == 1 ==> EntriesThen(EmptyEntries(tag, n - 1), "") == ""
  {
    hide *;
    var v, rest := EmptyValue(tag), EntriesThen(EmptyEntries(tag, n - 1), "");
    EmptyEntriesCons(tag, n);
    EntriesThenCons(EmptyEntry(tag), EmptyEntries(tag, n - 1), "");
    EmptyKey(tag);
    EmptyValueThen(tag, rest);
    EmptyKeyThen(v + rest);
  }

  lemma EmptyEntriesCons(tag: char, n: nat)
    requires n >= 1
    ensures EmptyEntries(tag, n) == [EmptyEntry(tag)] + EmptyEntries(tag, n - 1)
    ensures n == 1 ==> EntriesThen(EmptyEntries(tag, n - 1), "") == ""
  {
  }

  lemma EntriesThenCons(e: FieldEntry, rest: seq<FieldEntry>, r: string)
    ensures EntriesThen([e] + rest, r) == LpThen(e.key, ValThen(e, EntriesThen(rest, r)))
  {
    assert ([e] + rest)[1..] == rest;
    hide LpThen, ValThen;
  }

  lemma EmptyKey(tag: char)
    ensures EmptyEntry(tag).key == ""
  {
  }

  lemma EmptyKeyThen(x: string)
    ensures LpThen("", x) == "0:" + x
  {
    SmallNumerals();
    assert "" + x == x;
    assert "0" + ([':'] + x) == "0:" + x;
    hide Decimal;
  }

  lemma RepeatNext(w: string, n: nat)
    ensures Repeat(w, n) == if n == 0 then "" else w + Repeat(w, n - 1)
  {
  }

  lemma FourParts(v: string, z: string, more: string, w: string)
    ensures v + (z + (more + w)) == ((v + z) + more) + w
  {
    Regroup(v, z, more + w);
    Regroup(v + z, more, w);
  }

  /** 1, m against n, 0: the digits read alike. */
  lemma ZeroCollides(letters: Alphabet, tag: char, n: nat) returns (a: seq<FieldEntry>, b: seq<FieldEntry>)
    requires IsTag(tag) && letters(tag) && letters('0') && letters(':')
    requires n > 1 && Decimal(n) + "0" == "1" + Decimal((n - 1) * |EmptyValue(tag) + "0:"|)
    ensures Collides(letters, a, b)
  {
    var v := EmptyValue(tag);
    var key := Repeat(v + "0:", n - 1);
    a, b := [EntryWith(key, tag == 'N', Some(""))], EmptyEntries(tag, n);
    assert Drawn(letters, v + "0:");
    RepeatDrawn(letters, v + "0:", n - 1);
    assert DictDrawn(letters, a) && DictDrawn(letters, b) && Texted(a);
    SmallNumerals();
    OneEmptyReading(key, tag);
    hide *;
    EmptyEntriesReading(tag, n);
    DictReading(a, "1", Decimal(|key|) + ([':'] + (key + v)));
    DictReading(b, Decimal(n), "0:" + (key + v));
    ZeroDigits(Decimal(n), Decimal(|key|), key + v);
    CollidesIs(letters, a, b);
  }

  lemma OneEmptyReading(key: string, tag: char)
    requires IsTag(tag)
    ensures EntriesThen([EntryWith(key, tag == 'N', Some(""))], "")
         == Decimal(|key|) + ([':'] + (key + EmptyValue(tag)))
  {
    var a := [EntryWith(key, tag == 'N', Some(""))];
    assert a[1..] == [];
    ValOfEmpty(key, tag);
    hide ValThen, Decimal, EmptyValue;
  }

  lemma ValOfEmpty(key: string, tag: char)
    requires IsTag(tag)
    ensures ValThen(EntryWith(key, tag == 'N', Some("")), "") == EmptyValue(tag)
  {
    SmallNumerals();
    assert ['N'] + "" == "N";
    assert ['S'] + ("0" + ([':'] + ("" + ""))) == "S0:";
    hide Decimal;
  }

  lemma ZeroDigits(n: string, m: string, x: string)
    requires n + "0" == "1" + m
    ensures "1" + (m + ([':'] + x)) == n + ("0:" + x)
  {
    assert "1" + (m + ([':'] + x)) == ("1" + m) + ([':'] + x);
    assert n + ("0:" + x) == (n + "0") + ([':'] + x);
  }

  lemma NextNumeral(n: nat, d: nat, s: string, t: string)
    requires n >= 1 && d < 10 && Decimal(n) == s && t == s + [DigitChar(d)]
    ensures Decimal(10 * n + d) == t
  {
  }

  lemma DigitNumeral(d: nat)
    requires d < 10
    ensures Decimal(d) == [DigitChar(d)]
  {
  }

  /** 19 entries with empty texts: a key of 90 letters. */
  lemma NineteenAndNinety()
    ensures Decimal(19) + "0" == "1" + Decimal(18 * 5)
  {
    hide Decimal;
    DigitNumeral(1);
    DigitNumeral(9);
    NextNumeral(1, 9, "1", "19");
    NextNumeral(9, 0, "9", "90");
    assert "19" + "0" == "1" + "90";
  }

  /** 1428571 entries with NULLs: a key of 4285710 letters. */
  lemma CyclicNumber()
    ensures Decimal(1428571) + "0" == "1" + Decimal(1428570 * 3)
  {
    hide *;
    CyclicLow();
    CyclicHigh();
    assert "1428571" + "0" == "1" + "4285710";
  }

  lemma CyclicLow()
    ensures Decimal(1428571) == "1428571"
  {
    hide Decimal;
    DigitNumeral(1);
    NextNumeral(1, 4, "1", "14");
    NextNumeral(14, 2, "14", "142");
    NextNumeral(142, 8, "142", "1428");
    NextNumeral(1428, 5, "1428", "14285");
    NextNumeral(14285, 7, "14285", "142857");
    NextNumeral(142857, 1, "142857", "1428571");
  }

  lemma CyclicHigh()
    ensures Decimal(4285710) == "4285710"
  {
    hide Decimal;
    DigitNumeral(4);
    NextNumeral(4, 2, "4", "42");
    NextNumeral(42, 8, "42", "428");
    NextNumeral(428, 5, "428", "4285");
    NextNumeral(4285, 7, "4285", "42857");
    NextNumeral(42857, 1, "42857", "428571");
    NextNumeral(428571, 0, "428571", "4285710");
  }

  lemma HarmfulCollides(letters: Alphabet) returns (a: seq<FieldEntry>, b: seq<FieldEntry>)
    requires !Harmless(letters)
    ensures Collides(letters, a, b)
  {
    var tag := if letters('N') then 'N' else 'S';
    var c :| IsDigit(c) && letters(c);
    if c != '0' {
      a, b := DigitCollides(letters, tag, c);
    } else if tag == 'S' {
      NineteenAndNinety();
      a, b := ZeroCollides(letters, tag, 19);
    } else {
      CyclicNumber();
      a, b := ZeroCollides(letters, tag, 1428571);
    }
    hide Collides;
  }

  ghost predicate DictsDecode(letters: Alphabet) {
    forall a, b :: DictDrawn(letters, a) && DictDrawn(letters, b) && DictEnc(a).Some? && DictEnc(a) == DictEnc(b) ==>
      SameDict(a, b)
  }

  predicate SameBytes(a: Record, b: Record) {
    CanonicalRecord(a).Some? && CanonicalRecord(a) == CanonicalRecord(b)
  }

  ghost predicate RecordsDecode(letters: Alphabet) {
    forall a, b :: RecordDrawn(letters, a) && RecordDrawn(letters, b) && SameBytes(a, b) ==> SameRecord(a, b)
  }

  /** Dictionaries over an alphabet decode uniquely iff the alphabet is harmless. */
  lemma DictsDecodeExactly(letters: Alphabet)
    ensures DictsDecode(letters) <==> Harmless(letters)
  {
    if Harmless(letters) {
      forall a, b | DictDrawn(letters, a) && DictDrawn(letters, b) && DictEnc(a).Some? && DictEnc(a) == DictEnc(b)
        ensures SameDict(a, b)
      {
        DrawnIsPlain(letters, a);
        DrawnIsPlain(letters, b);
        DictGrouping(a, "");
        DictGrouping(b, "");
        DictUnique(a, b, "", "");
      }
    } else {
      var a, b := HarmfulCollides(letters);
      assert DictEnc(a) == DictEnc(b);
    }
  }

  lemma DrawnIsPlain(letters: Alphabet, entries: seq<FieldEntry>)
    requires Harmless(letters) && DictDrawn(letters, entries)
    ensures PlainDict(entries)
  {
    if entries != [] {
      HarmlessIsPlain(letters, entries[0].key);
    }
  }

  /** The exact condition: signed bytes determine the write iff the alphabet of the first keys is harmless. */
  lemma RecordsDecodeExactly(letters: Alphabet)
    ensures RecordsDecode(letters) <==> Harmless(letters)
  {
    if Harmless(letters) {
      forall a, b | RecordDrawn(letters, a) && RecordDrawn(letters, b) && SameBytes(a, b)
        ensures SameRecord(a, b)
      {
        DrawnIsPlain(letters, a.locator);
        DrawnIsPlain(letters, a.fields);
        DrawnIsPlain(letters, b.locator);
        DrawnIsPlain(letters, b.fields);
        RecordUniquelyDecodable(a, b);
      }
    } else {
      var a, b := HarmfulCollides(letters);
      var ra, rb := Record(Some(""), Some(""), a, []), Record(Some(""), Some(""), b, []);
      assert SameBytes(ra, rb);
      assert RecordDrawn(letters, ra) && RecordDrawn(letters, rb) && !SameRecord(ra, rb);
    }
  }

  /** For one, a first key that holds N, 1 and a colon. */
  lemma ArbitraryKeysCollide()
    ensures exists a, b :: DictEnc(a).Some? && DictEnc(a) == DictEnc(b) && |a| == 1 && |b| == 11
  {
    var a, b := DigitCollides(_ => true, 'N', '1');
    assert DictEnc(a) == DictEnc(b);
  }
}
