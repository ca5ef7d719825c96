/**
 Dates in priced text: which ten characters make a date, that a number in one is no price, and what the
 search for dates misses.
 */
module PriceDates {
  import opened Common
  import opened Decimals
  import opened CurrencyWords
  import opened PriceNumbers
  import opened PriceText
  import opened PriceRoundTrip

  // ----- the two shapes, character by character

  predicate Digits(s: string, i: nat, n: nat) {
    i + n <= |s| && forall k :: i <= k < i + n ==> '0' <= s[k] <= '9'
  }

  predicate Separator(s: string, i: nat) {
    i < |s| && (s[i] == '-' || s[i] == '/' || s[i] == '.')
  }

  /** Four digits, a mark, two digits, a mark, two digits. */
  predicate YearFirst(s: string, i: nat) {
    Digits(s, i, 4) && Separator(s, i + 4) && Digits(s, i + 5, 2) && Separator(s, i + 7) && Digits(s, i + 8, 2)
  }

  /** Two digits, a mark, two digits, a mark, four digits. */
  predicate YearLast(s: string, i: nat) {
    Digits(s, i, 2) && Separator(s, i + 2) && Digits(s, i + 3, 2) && Separator(s, i + 5) && Digits(s, i + 6, 4)
  }

  predicate Shape(s: string, i: nat, yearFirst: bool) {
    if yearFirst then YearFirst(s, i) else YearLast(s, i)
  }

  lemma ShapeIsDateAt(s: string, i: nat, yearFirst: bool)
    ensures DateAt(s, i, yearFirst) <==> Shape(s, i, yearFirst)
  {
    if yearFirst {
      YearFirstIs(s, i);
    } else {
      YearLastIs(s, i);
    }
  }

  lemma YearFirstIs(s: string, i: nat)
    ensures DateAt(s, i, true) <==> YearFirst(s, i)
  {
    if DateAt(s, i, true) {
      assert IsDateMark(s[i + 4]) && IsDateMark(s[i + 7]);
      forall k | i <= k < i + 10 && k != i + 4 && k != i + 7 ensures '0' <= s[k] <= '9' {
        assert IsDigit(s[k]);
      }
    }
  }

  lemma YearLastIs(s: string, i: nat)
    ensures DateAt(s, i, false) <==> YearLast(s, i)
  {
    if DateAt(s, i, false) {
      assert IsDateMark(s[i + 2]) && IsDateMark(s[i + 5]);
      forall k | i <= k < i + 10 && k != i + 2 && k != i + 5 ensures '0' <= s[k] <= '9' {
        assert IsDigit(s[k]);
      }
    }
  }

  // ----- which dates are found

  /** The date at i shares an octet with the range. */
  predicate Overlaps(s: string, i: nat, start: nat, end: nat) {
    i + 10 <= |s| && start < OctetsBefore(s, i + 10) && end > OctetsBefore(s, i)
  }

  /** No date of the same shape begins in the nine characters before. */
  predicate Isolated(s: string, i: nat, yearFirst: bool) {
    forall j: nat :: j < i < j + 10 ==> !Shape(s, j, yearFirst)
  }

  lemma {:induction false} IsolatedIsFound(s: string, from: nat, i: nat, yearFirst: bool, start: nat, end: nat)
    requires from <= i && Shape(s, i, yearFirst) && Isolated(s, i, yearFirst) && Overlaps(s, i, start, end)
    ensures MeetsDate(s, from, yearFirst, start, end)
    decreases |s| - from
  {
    hide Shape, OctetsBefore;
    ShapeIsDateAt(s, from, yearFirst);
    if from < i {
      if DateAt(s, from, yearFirst) {
        assert from + 10 <= i;
        IsolatedIsFound(s, from + 10, i, yearFirst, start, end);
      } else {
        IsolatedIsFound(s, from + 1, i, yearFirst, start, end);
      }
    }
  }

  lemma {:induction false} FoundIsShape(s: string, from: nat, yearFirst: bool, start: nat, end: nat) returns (i: nat)
    requires MeetsDate(s, from, yearFirst, start, end)
    ensures Shape(s, i, yearFirst) && Overlaps(s, i, start, end)
    decreases |s| - from
  {
    hide Shape, OctetsBefore;
    ShapeIsDateAt(s, from, yearFirst);
    if DateAt(s, from, yearFirst) {
      i := from;
      if !Overlaps(s, from, start, end) {
        i := FoundIsShape(s, from + 10, yearFirst, start, end);
      }
    } else {
      i := FoundIsShape(s, from + 1, yearFirst, start, end);
    }
  }

  /**
   A range that shares an octet with an isolated date stands in a date; one that stands in a date shares an octet
   with one. Dates of a shape that begin inside an earlier one of that shape may be missed.
   */
  lemma InDateMeaning(s: string, start: nat, end: nat)
    ensures (exists i: nat, yearFirst ::
      Shape(s, i, yearFirst) && Isolated(s, i, yearFirst) && Overlaps(s, i, start, end)) ==> InDate(s, start, end)
    ensures InDate(s, start, end) ==> exists i: nat, yearFirst :: Shape(s, i, yearFirst) && Overlaps(s, i, start, end)
  {
    hide Shape, OctetsBefore, MeetsDate, Isolated, Overlaps;
    if i: nat, yearFirst :| Shape(s, i, yearFirst) && Isolated(s, i, yearFirst) && Overlaps(s, i, start, end) {
      IsolatedIsFound(s, 0, i, yearFirst, start, end);
    }
    if MeetsDate(s, 0, true, start, end) {
      var i := FoundIsShape(s, 0, true, start, end);
    } else if MeetsDate(s, 0, false, start, end) {
      var i := FoundIsShape(s, 0, false, start, end);
    }
  }

  /** A number that shares an octet with an isolated date is never a candidate. */
  lemma DatedNumberIsNone(w: Letters, raw: string, a: nat, b: nat, i: nat, yearFirst: bool)
    requires a <= b <= |raw|
    requires var s := Lowered(w, raw);
      Shape(s, i, yearFirst) && Isolated(s, i, yearFirst) && Overlaps(s, i, OctetsBefore(raw, a), OctetsBefore(raw, b))
    ensures Judge(w, raw, a, b) == []
  {
    hide Shape, OctetsBefore, Isolated, Overlaps, InDate, JudgedToken, Lowered;
    InDateMeaning(Lowered(w, raw), OctetsBefore(raw, a), OctetsBefore(raw, b));
  }

  // ----- a text with nothing but a date

  /** Lowercasing leaves digits digits, and date marks and white space alone. */
  ghost predicate KeepsMarks(w: Letters) {
    KeepsDigits(w) && forall c :: IsDateMark(c) || IsSpace(c) ==> w.lower(c) == c
  }

  /** It also keeps the octet length of every character. */
  ghost predicate KeepsOctets(w: Letters) {
    forall c :: Utf8Length(w.lower(c)) == Utf8Length(c)
  }

  ghost predicate KeepsDates(w: Letters) {
    KeepsMarks(w) && KeepsOctets(w)
  }

  lemma {:induction false} SameOctets(w: Letters, s: string, i: nat)
    requires KeepsDates(w) && i <= |s|
    ensures OctetsBefore(Lowered(w, s), i) == OctetsBefore(s, i)
  {
    if i > 0 {
      SameOctets(w, s, i - 1);
    }
  }

  lemma ShapeLowered(w: Letters, a: string, date: string, b: string, yearFirst: bool)
    requires KeepsDates(w) && |date| == 10 && Shape(date, 0, yearFirst)
    ensures Shape(Lowered(w, a + date + b), |a|, yearFirst)
  {
    var s := Lowered(w, a + date + b);
    forall k | 0 <= k < 10
      ensures IsDigit(date[k]) ==> IsDigit(s[|a| + k])
      ensures IsDateMark(date[k]) ==> s[|a| + k] == date[k]
    {
      assert (a + date + b)[|a| + k] == date[k];
    }
    ShapeIsDateAt(date, 0, yearFirst);
    ShapeIsDateAt(s, |a|, yearFirst);
    hide Lowered, Shape;
  }

  lemma QuietIsIsolated(w: Letters, a: string, rest: string, yearFirst: bool)
    requires KeepsDates(w) && NoDigits(a)
    ensures Isolated(Lowered(w, a + rest), |a|, yearFirst)
  {
    var s := Lowered(w, a + rest);
    forall j: nat | j < |a| < j + 10 ensures !Shape(s, j, yearFirst) {
      assert s[j] == w.lower(a[j]) && !IsDigit(s[j]);
    }
  }

  lemma TokenStartsWithDigit(s: string)
    requires TokenLength(s) > 0
    ensures s != [] && IsDigit(s[0])
  {
    hide GroupRun;
  }

  /** Every number of the text begins inside the date. */
  lemma {:induction false} OnlyDateNumbers(w: Letters, a: string, date: string, b: string, yearFirst: bool, from: nat)
    requires KeepsDates(w) && NoDigits(a) && NoDigits(b) && |date| == 10 && Shape(date, 0, yearFirst)
    requires from <= |a + date + b|
    ensures CandidatesFrom(w, a + date + b, from) == []
    decreases |a + date + b| - from
  {
    var raw := a + date + b;
    hide *;
    if from == |raw| {
      ScanEnd(w, raw);
    } else {
      ScanStep(w, raw, from);
      var k := TokenLength(raw[from..]);
      if k == 0 {
        OnlyDateNumbers(w, a, date, b, yearFirst, from + 1);
      } else {
        OnlyDateNumbers(w, a, date, b, yearFirst, from + k);
        TokenStartsWithDigit(raw[from..]);
        DigitInDate(a, date, b, from);
        NumberInDate(w, a, date, b, yearFirst, from, from + k);
      }
    }
  }

  lemma DigitInDate(a: string, date: string, b: string, i: nat)
    requires NoDigits(a) && NoDigits(b) && i < |a + date + b| && IsDigit((a + date + b)[i..][0])
    ensures |a| <= i < |a| + |date|
  {
    var s := a + date + b;
    assert s[i..][0] == s[i];
    assert forall k :: 0 <= k < |a| ==> s[k] == a[k];
    assert forall k :: 0 <= k < |b| ==> s[|a| + |date| + k] == b[k];
    assert i >= |a| + |date| ==> i == |a| + |date| + (i - |a| - |date|);
  }

  lemma NumberInDate(w: Letters, a: string, date: string, b: string, yearFirst: bool, from: nat, to: nat)
    requires KeepsDates(w) && NoDigits(a) && |date| == 10 && Shape(date, 0, yearFirst)
    requires |a| <= from < |a| + 10 && from < to <= |a + date + b|
    ensures Judge(w, a + date + b, from, to) == []
  {
    var raw := a + date + b;
    assert raw == a + (date + b);
    hide Shape, Isolated, Lowered, Judge, OctetsBefore;
    ShapeLowered(w, a, date, b, yearFirst);
    QuietIsIsolated(w, a, date + b, yearFirst);
    SameOctets(w, raw, |a|);
    SameOctets(w, raw, |a| + 10);
    OctetsInOrder(raw, |a|, from);
    OctetsGrow(raw, from, to);
    OctetsGrow(raw, from, |a| + 10);
    DatedNumberIsNone(w, raw, from, to, |a|, yearFirst);
  }

  /** A text whose only digits are those of a date has no price. */
  lemma DateHasNoPrice(w: Letters, pre: string, date: string, post: string, yearFirst: bool)
    requires KeepsDates(w) && NoDigits(pre) && NoDigits(post) && |date| == 10 && Shape(date, 0, yearFirst)
    ensures PriceIn(w, pre + date + post) == None
  {
    var a, b := Unify(SkipSpaces(pre)), Unify(TrimEnd(post));
    DateText(pre, date, post, yearFirst);
    OnlyDateNumbers(w, a, date, b, yearFirst, 0);
    hide Unify, Trim, CandidatesFrom;
  }

  lemma DateText(pre: string, date: string, post: string, yearFirst: bool)
    requires NoDigits(pre) && NoDigits(post) && |date| == 10 && Shape(date, 0, yearFirst)
    ensures var a, b := Unify(SkipSpaces(pre)), Unify(TrimEnd(post));
      Unify(Trim(pre + date + post)) == a + date + b && NoDigits(a) && NoDigits(b)
  {
    ShapeIsDateAt(date, 0, yearFirst);
    assert IsDigit(date[0]) && IsDigit(date[9]);
    DateIsPlain(date, yearFirst);
    hide *;
    TrimAround(pre, date, post);
    SkipKeepsQuiet(pre);
    TrimKeepsQuiet(post);
    UnifyAround(SkipSpaces(pre), date, TrimEnd(post));
    UnifyKeepsQuiet(SkipSpaces(pre));
    UnifyKeepsQuiet(TrimEnd(post));
  }

  lemma DateIsPlain(date: string, yearFirst: bool)
    requires |date| == 10 && DateAt(date, 0, yearFirst)
    ensures Unify(date) == date
  {
    UnifyAt(date);
    hide Unify;
    forall k | 0 <= k < 10 ensures UnifyChar(date[k]) == date[k] {
      assert IsDigit(date[k]) || IsDateMark(date[k]);
    }
  }

  // ----- letters that change their octet length hide a date

  const DATE := "10.10.1010"

  lemma DateParts()
    ensures |DATE| == 10 && Shape(DATE, 0, false) && !Shape(DATE, 0, true)
    ensures DATE == "10.10" + ".1010" && DATE[5..] == ['.'] + "1010"
    ensures forall k :: 0 <= k < 10 ==> IsDigit(DATE[k]) || IsDateMark(DATE[k])
  {
  }

  function Repeated(c: char, n: nat): (s: string)
    ensures |s| == n && forall i :: 0 <= i < n ==> s[i] == c
  {
    if n == 0 then [] else Repeated(c, n - 1) + [c]
  }

  /** Offsets in a text that begins with copies of one character and goes on with characters of one octet. */
  lemma {:induction false} CopyOctets(c: char, n: nat, rest: string, k: nat)
    requires k <= n + |rest| && forall i :: 0 <= i < |rest| ==> Utf8Length(rest[i]) == 1
    ensures OctetsBefore(Repeated(c, n) + rest, k) == if k <= n then k * Utf8Length(c) else n * Utf8Length(c) + (k - n)
  {
    var s := Repeated(c, n) + rest;
    if k > 0 {
      CopyOctets(c, n, rest, k - 1);
      assert s[k - 1] == if k <= n then c else rest[k - 1 - n];
      hide Utf8Length;
      StepOctets(k - 1, Utf8Length(c));
    }
  }

  lemma StepOctets(k: nat, u: nat)
    ensures (k + 1) * u == k * u + u
  {
  }

  lemma LoweredCopies(w: Letters, c: char)
    requires KeepsMarks(w) && !IsDigit(c)
    ensures exists rest :: IsLoweredDate(w, c, rest)
  {
    DateParts();
    var rest := Lowered(w, DATE);
    assert Lowered(w, Repeated(c, 10) + DATE) == Repeated(w.lower(c), 10) + rest;
    forall i | 0 <= i < 10 ensures Utf8Length(rest[i]) == 1 {
      assert IsDigit(DATE[i]) || IsDateMark(DATE[i]);
    }
    assert IsLoweredDate(w, c, rest);
  }

  ghost predicate IsLoweredDate(w: Letters, c: char, rest: string) {
    && |rest| == 10 && Lowered(w, Repeated(c, 10) + DATE) == Repeated(w.lower(c), 10) + rest
    && forall i :: 0 <= i < 10 ==> Utf8Length(rest[i]) == 1
  }

  /** Ten letters of another octet length move the lowered date away from the numbers of the text. */
  lemma DateMovedAway(w: Letters, c: char, a: nat, b: nat)
    requires KeepsMarks(w) && !IsDigit(c) && Utf8Length(w.lower(c)) != Utf8Length(c)
    requires 10 <= a < b <= 20
    ensures var raw := Repeated(c, 10) + DATE; !InDate(Lowered(w, raw), OctetsBefore(raw, a), OctetsBefore(raw, b))
  {
    var raw := Repeated(c, 10) + DATE;
    LoweredCopies(w, c);
    var rest :| IsLoweredDate(w, c, rest);
    var lowered := Repeated(w.lower(c), 10) + rest;
    DateOctets();
    CopyOctets(c, 10, DATE, a);
    CopyOctets(c, 10, DATE, b);
    CopyOctets(w.lower(c), 10, rest, 10);
    CopyOctets(w.lower(c), 10, rest, 20);
    InDateMeaning(lowered, OctetsBefore(raw, a), OctetsBefore(raw, b));
    forall i: nat, yearFirst | Shape(lowered, i, yearFirst) ensures i == 10 {
      OnlyShape(w, c, rest, i, yearFirst);
    }
    hide Shape, OctetsBefore, Lowered, InDate, Utf8Length, DATE;
  }

  lemma DateOctets()
    ensures |DATE| == 10 && forall i :: 0 <= i < |DATE| ==> Utf8Length(DATE[i]) == 1
  {
    DateParts();
  }

  lemma OnlyShape(w: Letters, c: char, rest: string, i: nat, yearFirst: bool)
    requires KeepsMarks(w) && !IsDigit(c) && |rest| == 10
    requires Shape(Repeated(w.lower(c), 10) + rest, i, yearFirst)
    ensures i == 10
  {
    var s := Repeated(w.lower(c), 10) + rest;
    assert forall k :: 0 <= k < 10 ==> s[k] == w.lower(c) && !IsDigit(s[k]);
    assert |s| == 20 && i + 10 <= |s|;
    assert Digits(s, i, 2) || Digits(s, i, 4);
    assert IsDigit(s[i]);
  }

  lemma HiddenNumber(w: Letters, c: char, a: nat, b: nat, n: nat, fraction: string, rest: string)
    requires KeepsMarks(w) && !IsDigit(c) && Utf8Length(w.lower(c)) != Utf8Length(c)
    requires 10 <= a < b <= 20 && IsFraction(fraction) && 0.0 < AmountOf(n, fraction) <= 5000000.0
    requires !BareYear(n, fraction, Style(None, '.')) && EndsHere(fraction, rest)
    requires var raw, token := Repeated(c, 10) + DATE, PrintAmount(n, fraction, Style(None, '.'));
      b <= |raw| && raw[a..] == token + rest && b == a + |token| && raw[a..b] == token
    ensures var raw := Repeated(c, 10) + DATE;
      && TokenLength(raw[a..]) == b - a
      && |Judge(w, raw, a, b)| == 1 && Judge(w, raw, a, b)[0].amount <= 5000000.0
  {
    hide *;
    var raw, style := Repeated(c, 10) + DATE, Style(None, '.');
    DotStyle();
    PrintedToken(n, fraction, style, rest);
    DateMovedAway(w, c, a, b);
    JudgeUndated(w, raw, a, b);
    JudgedAs(n, fraction, style, NearNumber(w, raw, a, b));
    JudgedOnce(n, fraction, style, NearNumber(w, raw, a, b));
  }

  lemma DotStyle()
    ensures IsStyle(Style(None, '.')) && IsTextStyle(Style(None, '.'))
  {
  }

  lemma JudgedOnce(n: nat, fraction: string, style: Style, near: Near)
    requires style == Style(None, '.') && IsFraction(fraction)
    requires 0.0 < AmountOf(n, fraction) <= 5000000.0 && !BareYear(n, fraction, style)
    ensures |Judged(n, fraction, style, near)| == 1 && Judged(n, fraction, style, near)[0].amount <= 5000000.0
  {
    hide AmountOf, Score;
  }

  /** The two numbers of the hidden date. */
  lemma DateTokens(c: char)
    ensures var raw, style := Repeated(c, 10) + DATE, Style(None, '.');
      && IsFraction("10") && IsFraction("") && AmountOf(10, "10") == 10.1 && AmountOf(1010, "") == 1010.0
      && !BareYear(10, "10", style) && !BareYear(1010, "", style)
      && PrintAmount(10, "10", style) == "10.10" && PrintAmount(1010, "", style) == "1010"
      && EndsHere("10", ".1010") && EndsHere("", "")
      && raw[10..] == "10.10" + ".1010" && raw[16..] == "1010" + "" && raw[10..15] == "10.10" && raw[16..20] == "1010"
      && raw[15..][0] == '.' && |raw| == 20
  {
    Numerals();
    DateParts();
    var raw := Repeated(c, 10) + DATE;
    assert raw[10..] == DATE;
    assert raw[10..15] == DATE[..5] && raw[16..20] == DATE[6..];
    hide Repeated, Decimal;
  }

  lemma Numerals()
    ensures Decimal(10) == "10" && Decimal(1010) == "1010"
    ensures ValueOf("10") == 10 && ValueOf("") == 0 && Pow10(2) == 100 && Pow10(0) == 1
  {
    assert Decimal(1) == "1";
    assert Decimal(101) == Decimal(10) + "1";
    assert ValueOf("1") == 1;
  }

  lemma HiddenCandidates(w: Letters, c: char)
    requires KeepsMarks(w) && !IsDigit(c) && Utf8Length(w.lower(c)) != Utf8Length(c)
    ensures var found := CandidatesFrom(w, Repeated(c, 10) + DATE, 0);
      found != [] && forall x :: x in found ==> x.amount <= 5000000.0
  {
    hide *;
    var raw := Repeated(c, 10) + DATE;
    DateTokens(c);
    HiddenNumber(w, c, 10, 15, 10, "10", ".1010");
    HiddenNumber(w, c, 16, 20, 1010, "", "");
    NoCopyIsDigit(c);
    QuietScan(w, raw, 0, 10);
    ScanStep(w, raw, 10);
    ScanStep(w, raw, 15);
    NoToken(raw[15..]);
    ScanStep(w, raw, 16);
    ScanEnd(w, raw);
    var first, second := Judge(w, raw, 10, 15), Judge(w, raw, 16, 20);
    assert CandidatesFrom(w, raw, 0) == first + (second + []);
  }

  lemma NoCopyIsDigit(c: char)
    requires !IsDigit(c)
    ensures var raw := Repeated(c, 10) + DATE; 10 <= |raw| && NoDigits(raw[0..10])
  {
    var raw := Repeated(c, 10) + DATE;
    assert forall i :: 0 <= i < 10 ==> raw[i] == c;
  }

  lemma NoToken(s: string)
    requires s != [] && s[0] == '.'
    ensures TokenLength(s) == 0
  {
  }

  /** For instance a letter whose capital and small form differ in length: ten of them give a date a price. */
  lemma HiddenDateIsPriced(w: Letters, c: char)
    requires KeepsMarks(w) && Utf8Length(w.lower(c)) != Utf8Length(c)
    ensures NoDigits(Repeated(c, 10)) && PriceIn(w, Repeated(c, 10) + DATE) != None
  {
    assert !IsDigit(c) && !IsSpace(c);
    HiddenCandidates(w, c);
    CopiesStay(c);
    hide CandidatesFrom, Unify, Trim, DATE, Repeated, Utf8Length;
    PriceWins(w, Repeated(c, 10) + DATE);
  }

  lemma CopiesStay(c: char)
    requires !IsDigit(c) && !IsSpace(c)
    ensures Unify(Trim(Repeated(c, 10) + DATE)) == Repeated(c, 10) + DATE
  {
    var pre := Repeated(c, 10);
    DateParts();
    UnifyAt(pre);
    assert Unify(pre) == pre;
    assert SkipSpaces(pre) == pre && TrimEnd([]) == [] && Unify([]) == [];
    DateText(pre, DATE, [], false);
    assert pre + DATE + [] == pre + DATE;
  }

  /** Every text whose only digits are those of a date has no price. */
  ghost predicate DatesHaveNoPrice(w: Letters) {
    forall pre, date, post, yearFirst ::
      NoDigits(pre) && NoDigits(post) && |date| == 10 && Shape(date, 0, yearFirst) ==>
        PriceIn(w, pre + date + post) == None
  }

  /** The exact condition: that is so iff lowercasing keeps the octet length of every character. */
  lemma DatesHaveNoPriceExactly(w: Letters)
    requires KeepsMarks(w)
    ensures DatesHaveNoPrice(w) <==> KeepsOctets(w)
  {
    hide Shape, NoDigits, PriceIn, DATE;
    if KeepsOctets(w) {
      forall pre, date, post, yearFirst |
        NoDigits(pre) && NoDigits(post) && |date| == 10 && Shape(date, 0, yearFirst)
        ensures PriceIn(w, pre + date + post) == None
      {
        DateHasNoPrice(w, pre, date, post, yearFirst);
      }
    } else {
      var c :| Utf8Length(w.lower(c)) != Utf8Length(c);
      HiddenDateIsPriced(w, c);
      DateParts();
      NothingIsQuiet();
      assert Repeated(c, 10) + DATE + [] == Repeated(c, 10) + DATE;
    }
  }

  lemma NothingIsQuiet()
    ensures NoDigits([])
  {
  }

  // ----- what the search misses

  const OVERLAPPING := "1111-22-3333-44-55"

  /** Dates that share characters: the second of one shape is skipped, and a number in it stays a candidate. */
  lemma OverlappingDateIsMissed()
    ensures Shape(OVERLAPPING, 8, true) && Overlaps(OVERLAPPING, 8, 13, 15) && !InDate(OVERLAPPING, 13, 15)
  {
    var s := OVERLAPPING;
    OverlappingShapes();
    OverlappingGaps();
    forall i: nat, yearFirst ensures DateAt(s, i, yearFirst) <==> Shape(s, i, yearFirst) {
      ShapeIsDateAt(s, i, yearFirst);
    }
    forall i: nat | i <= 18 ensures OctetsBefore(s, i) == i {
      AsciiOctets(s, i);
    }
    assert |s| == 18;
    hide OctetsBefore, Shape, DateAt, OVERLAPPING;
    assert !MeetsDate(s, 10, true, 13, 15);
    assert !MeetsDate(s, 12, false, 13, 15);
    assert !MeetsDate(s, 2, false, 13, 15);
    assert !MeetsDate(s, 1, false, 13, 15);
  }

  lemma OverlappingShapes()
    ensures var s := OVERLAPPING; Shape(s, 0, true) && Shape(s, 8, true) && Shape(s, 2, false)
    ensures |OVERLAPPING| == 18 && forall k :: 0 <= k < 18 ==> OVERLAPPING[k] < '\U{80}'
  {
  }

  lemma OverlappingGaps()
    ensures !Shape(OVERLAPPING, 0, false) && !Shape(OVERLAPPING, 1, false)
  {
    var s := OVERLAPPING;
    assert s[2] == '1' && s[3] == '1';
  }

  lemma {:induction false} AsciiOctets(s: string, i: nat)
    requires i <= |s| && forall k :: 0 <= k < |s| ==> s[k] < '\U{80}'
    ensures OctetsBefore(s, i) == i
  {
    if i > 0 {
      AsciiOctets(s, i - 1);
    }
  }
}
