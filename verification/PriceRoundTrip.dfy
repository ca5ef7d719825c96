/**
 The price parser inverts the printers in running text: a printed amount among words that hold no
 other digits is found, read whole and returned.
 */
module PriceRoundTrip {
  import opened Common
  import opened Decimals
  import opened CurrencyWords
  import opened PriceNumbers
  import opened PriceText

  predicate NoDigits(s: string) {
    forall i :: 0 <= i < |s| ==> !IsDigit(s[i])
  }

  predicate StartsPlain(s: string) {
    s == [] || !IsDigit(s[0])
  }

  // ----- the token pattern matches exactly the printed amount

  lemma {:induction false} DigitRunOf(digits: string, rest: string)
    requires AllDigits(digits) && StartsPlain(rest)
    ensures DigitRun(digits + rest) == |digits|
  {
    if digits == [] {
      assert digits + rest == rest;
    } else {
      assert (digits + rest)[1..] == digits[1..] + rest;
      DigitRunOf(digits[1..], rest);
    }
  }

  /** The digits before the first group. */
  function Lead(digits: string): (k: nat)
    requires digits != []
    ensures 1 <= k <= 3 && k <= |digits|
  {
    if |digits| <= 3 then |digits| else Lead(digits[..|digits| - 3])
  }

  lemma GroupRunNext(mark: char, three: string, rest: string)
    requires IsGroupMark(mark) && AllDigits(three) && |three| == 3
    ensures GroupRun([mark] + three + rest) == 4 + GroupRun(rest)
  {
    var s := [mark] + three + rest;
    assert s[1] == three[0] && s[2] == three[1] && s[3] == three[2];
    assert s[4..] == rest;
  }

  /** Grouped digits, read from the left: a short lead, then nothing but groups. */
  lemma {:induction false} GroupedFromLeft(digits: string, mark: char, rest: string)
    requires digits != [] && AllDigits(digits) && IsGroupMark(mark) && StartsPlain(rest)
    ensures |Grouped(digits, mark)| >= Lead(digits)
    ensures var k, s := Lead(digits), Grouped(digits, mark) + rest;
      DigitRun(s) == k && GroupRun(s[k..]) == |Grouped(digits, mark)| - k + GroupRun(rest)
  {
    if |digits| <= 3 {
      DigitRunOf(digits, rest);
      assert (digits + rest)[|digits|..] == rest;
    } else {
      var n := |digits| - 3;
      var front, rest' := Grouped(digits[..n], mark), [mark] + digits[n..] + rest;
      assert Grouped(digits, mark) + rest == front + rest';
      assert StartsPlain(rest');
      GroupRunNext(mark, digits[n..], rest);
      GroupedFromLeft(digits[..n], mark, rest');
      assert |Grouped(digits, mark)| == |front| + 4 && Lead(digits) == Lead(digits[..n]);
      hide *;
    }
  }

  function Tail(fraction: string, point: char): string {
    if fraction == [] then [] else [point] + fraction
  }

  /** The text behind a printed amount does not continue the number. */
  predicate EndsHere(fraction: string, rest: string) {
    StartsPlain(rest) && (fraction == [] ==> GroupRun(rest) == 0 && FractionLength(rest) == 0)
  }

  lemma QuietEnds(fraction: string, rest: string)
    requires NoDigits(rest)
    ensures EndsHere(fraction, rest)
  {
    assert !DigitAt(rest, 1);
  }

  lemma TailPattern(fraction: string, point: char, rest: string)
    requires IsFraction(fraction) && IsMark(point) && EndsHere(fraction, rest)
    ensures var t := Tail(fraction, point) + rest;
      StartsPlain(t) && GroupRun(t) == 0 && FractionLength(t) == |Tail(fraction, point)|
  {
    var t := Tail(fraction, point) + rest;
    if fraction == [] {
      assert t == rest;
    } else {
      assert t[1] == fraction[0];
      assert |fraction| == 2 ==> t[2] == fraction[1];
      assert |t| > 1 + |fraction| ==> t[1 + |fraction|] == rest[0];
      assert !DigitAt(t, 1 + |fraction|);
    }
  }

  predicate IsTextStyle(style: Style) {
    IsMark(style.point) && (style.group.Some? ==> IsGroupMark(style.group.value))
  }

  lemma TokenFromParts(whole: string, t: string, lead: nat)
    requires 1 <= lead <= |whole| && DigitRun(whole + t) == lead
    requires if lead <= 3 then GroupRun((whole + t)[lead..]) == |whole| - lead else lead == |whole|
    ensures TokenLength(whole + t) == |whole| + FractionLength(t)
  {
    assert (whole + t)[|whole|..] == t;
    hide DigitRun, GroupRun, FractionLength;
  }

  /** The pattern takes the whole printed amount and not a character more, unless the number goes on. */
  lemma PrintedToken(n: nat, fraction: string, style: Style, rest: string)
    requires IsTextStyle(style) && IsFraction(fraction) && EndsHere(fraction, rest)
    ensures TokenLength(PrintAmount(n, fraction, style) + rest) == |PrintAmount(n, fraction, style)|
  {
    var digits, whole := Decimal(n), Whole(n, style);
    var t := Tail(fraction, style.point) + rest;
    TailPattern(fraction, style.point, rest);
    assert PrintAmount(n, fraction, style) + rest == whole + t;
    if style.group.Some? {
      GroupedFromLeft(digits, style.group.value, t);
      TokenFromParts(whole, t, Lead(digits));
    } else {
      DigitRunOf(digits, t);
      assert (whole + t)[|whole|..] == t;
      TokenFromParts(whole, t, |digits|);
    }
  }

  // ----- no date hides in a printed amount

  predicate Apart(s: string) {
    && (forall p, q :: 0 <= p < q < |s| && !IsDigit(s[p]) && !IsDigit(s[q]) ==> q - p >= 4)
  }

  predicate EndsWithThree(s: string) {
    forall p :: 0 <= p < |s| && !IsDigit(s[p]) ==> p + 4 <= |s|
  }

  lemma ApartJoin(a: string, c: char, b: string)
    requires Apart(a) && EndsWithThree(a) && AllDigits(b)
    ensures Apart(a + [c] + b)
    ensures |b| >= 3 ==> EndsWithThree(a + [c] + b)
  {
    var s := a + [c] + b;
    forall p | |a| < p < |s| ensures IsDigit(s[p]) {
      assert s[p] == b[p - |a| - 1];
    }
  }

  lemma {:induction false} GroupedApart(digits: string, mark: char)
    requires AllDigits(digits)
    ensures Apart(Grouped(digits, mark)) && EndsWithThree(Grouped(digits, mark))
  {
    if |digits| > 3 {
      var n := |digits| - 3;
      GroupedApart(digits[..n], mark);
      ApartJoin(Grouped(digits[..n], mark), mark, digits[n..]);
    }
  }

  lemma PrintedApart(n: nat, fraction: string, style: Style)
    requires IsFraction(fraction)
    ensures Apart(PrintAmount(n, fraction, style))
  {
    var whole := Whole(n, style);
    if style.group.Some? {
      GroupedApart(Decimal(n), style.group.value);
    }
    if fraction == [] {
      assert PrintAmount(n, fraction, style) == whole;
    } else {
      ApartJoin(whole, style.point, fraction);
      assert PrintAmount(n, fraction, style) == whole + [style.point] + fraction;
    }
  }

  /** A date has two marks three apart and digits at both ends. */
  lemma NoDateAt(a: string, mid: string, b: string, i: nat, yearFirst: bool)
    requires NoDigits(a) && NoDigits(b) && Apart(mid)
    ensures !DateAt(a + mid + b, i, yearFirst)
  {
    var s := a + mid + b;
    if i + 10 <= |s| {
      if i < |a| {
        assert s[i] == a[i];
      } else if i + 9 >= |a| + |mid| {
        assert s[i + 9] == b[i + 9 - |a| - |mid|];
      } else {
        var p := if yearFirst then i + 4 else i + 2;
        assert s[p] == mid[p - |a|] && s[p + 3] == mid[p + 3 - |a|];
        assert IsDigit(s[p]) || IsDigit(s[p + 3]);
      }
    }
  }

  lemma {:induction false} NoDateMet(s: string, from: nat, yearFirst: bool, start: nat, end: nat)
    requires forall i: nat :: !DateAt(s, i, yearFirst)
    ensures !MeetsDate(s, from, yearFirst, start, end)
    decreases |s| - from
  {
    if from + 10 <= |s| {
      NoDateMet(s, from + 1, yearFirst, start, end);
    }
  }

  lemma NotInDate(a: string, mid: string, b: string, start: nat, end: nat)
    requires NoDigits(a) && NoDigits(b) && Apart(mid)
    ensures !InDate(a + mid + b, start, end)
  {
    var s := a + mid + b;
    forall i: nat, yearFirst: bool ensures !DateAt(s, i, yearFirst) {
      NoDateAt(a, mid, b, i, yearFirst);
    }
    NoDateMet(s, 0, true, start, end);
    NoDateMet(s, 0, false, start, end);
  }

  /** Lowercasing neither makes digits nor loses them. */
  ghost predicate KeepsDigits(w: Letters) {
    forall c :: IsDigit(w.lower(c)) <==> IsDigit(c)
  }

  lemma LoweredNotInDate(w: Letters, a: string, mid: string, b: string, start: nat, end: nat)
    requires KeepsDigits(w) && NoDigits(a) && NoDigits(b) && Apart(mid)
    ensures !InDate(Lowered(w, a + mid + b), start, end)
  {
    var la, lm, lb := Lowered(w, a), Lowered(w, mid), Lowered(w, b);
    assert Lowered(w, a + mid + b) == la + lm + lb;
    assert NoDigits(la) && NoDigits(lb);
    assert Apart(lm);
    NotInDate(la, lm, lb, start, end);
  }

  // ----- trimming and plain spaces leave the printed amount in place

  lemma {:induction false} SkipKeepsQuiet(s: string)
    requires NoDigits(s)
    ensures NoDigits(SkipSpaces(s))
  {
    if s != [] {
      SkipKeepsQuiet(s[1..]);
    }
  }

  lemma {:induction false} TrimKeepsQuiet(s: string)
    requires NoDigits(s)
    ensures NoDigits(TrimEnd(s))
  {
    if s != [] {
      TrimKeepsQuiet(s[..|s| - 1]);
    }
  }

  lemma {:induction false} SwapAt(s: string, x: char, y: char)
    ensures |Swap(s, x, y)| == |s|
    ensures forall i :: 0 <= i < |s| ==> Swap(s, x, y)[i] == if s[i] == x then y else s[i]
  {
    if s != [] {
      SwapAt(s[..|s| - 1], x, y);
    }
  }

  lemma UnifyAt(s: string)
    ensures |Unify(s)| == |s|
    ensures forall i :: 0 <= i < |s| ==> Unify(s)[i] == UnifyChar(s[i])
  {
    var s1 := Swap(s, '\U{00A0}', ' ');
    var s2 := Swap(s1, '\U{2009}', ' ');
    SwapAt(s, '\U{00A0}', ' ');
    SwapAt(s1, '\U{2009}', ' ');
    SwapAt(s2, '\U{202F}', ' ');
    hide Swap;
  }

  function UnifyChar(c: char): char {
    if c == '\U{00A0}' || c == '\U{2009}' || c == '\U{202F}' then ' ' else c
  }

  lemma UnifyAround(a: string, mid: string, b: string)
    ensures Unify(a + mid + b) == Unify(a) + Unify(mid) + Unify(b)
  {
    UnifyAt(a);
    UnifyAt(mid);
    UnifyAt(b);
    UnifyAt(a + mid + b);
    hide Unify;
  }

  lemma UnifyKeepsQuiet(s: string)
    requires NoDigits(s)
    ensures NoDigits(Unify(s))
  {
    UnifyAt(s);
  }

  /** The style the parser sees. */
  function PlainStyle(style: Style): Style {
    if style.group.Some? then style.(group := Some(UnifyChar(style.group.value))) else style
  }

  lemma {:induction false} UnifyGrouped(digits: string, mark: char)
    requires AllDigits(digits)
    ensures Unify(Grouped(digits, mark)) == Grouped(digits, UnifyChar(mark))
  {
    if |digits| <= 3 {
      UnifyDigits(digits);
    } else {
      var n := |digits| - 3;
      var front, tail := Grouped(digits[..n], mark), digits[n..];
      assert Grouped(digits, UnifyChar(mark)) == Grouped(digits[..n], UnifyChar(mark)) + [UnifyChar(mark)] + tail;
      UnifyGrouped(digits[..n], mark);
      UnifyDigits(tail);
      hide Unify, Swap;
      UnifyAround(front, [mark], tail);
      UnifyOne(mark);
    }
  }

  lemma UnifyDigits(digits: string)
    requires AllDigits(digits)
    ensures Unify(digits) == digits
  {
    UnifyAt(digits);
    hide Unify;
  }

  lemma UnifyOne(c: char)
    ensures Unify([c]) == [UnifyChar(c)]
  {
    UnifyAt([c]);
    hide Unify;
  }

  lemma UnifyPrinted(n: nat, fraction: string, style: Style)
    requires IsTextStyle(style) && IsFraction(fraction)
    ensures Unify(PrintAmount(n, fraction, style)) == PrintAmount(n, fraction, PlainStyle(style))
  {
    hide *;
    var whole, t := Whole(n, style), Tail(fraction, style.point);
    PrintedParts(n, fraction, style);
    PrintedParts(n, fraction, PlainStyle(style));
    UnifyWhole(n, style);
    PlainPoint(style);
    UnifyTail(fraction, style.point);
    UnifyAround(whole, t, []);
    UnifyAt([]);
    assert Unify(whole) + Unify(t) + Unify([]) == Unify(whole) + Unify(t);
  }

  lemma PrintedParts(n: nat, fraction: string, style: Style)
    ensures PrintAmount(n, fraction, style) == Whole(n, style) + Tail(fraction, style.point)
    ensures PrintAmount(n, fraction, style) == Whole(n, style) + Tail(fraction, style.point) + []
  {
    hide Whole;
  }

  lemma PlainPoint(style: Style)
    requires IsTextStyle(style)
    ensures IsMark(style.point) && PlainStyle(style).point == style.point
  {
  }

  lemma UnifyWhole(n: nat, style: Style)
    ensures Unify(Whole(n, style)) == Whole(n, PlainStyle(style))
  {
    if style.group.Some? {
      UnifyGrouped(Decimal(n), style.group.value);
    } else {
      UnifyDigits(Decimal(n));
    }
    hide Unify, Grouped, Decimal;
  }

  lemma UnifyTail(fraction: string, point: char)
    requires IsMark(point) && IsFraction(fraction)
    ensures Unify(Tail(fraction, point)) == Tail(fraction, point)
  {
    UnifyAt(Tail(fraction, point));
    hide Unify;
  }

  // ----- scanning

  lemma {:induction false} QuietScan(w: Letters, raw: string, from: nat, to: nat)
    requires from <= to <= |raw| && NoDigits(raw[from..to])
    ensures CandidatesFrom(w, raw, from) == CandidatesFrom(w, raw, to)
    decreases |raw| - from
  {
    if from < to {
      assert !IsDigit(raw[from..to][0]);
      assert TokenLength(raw[from..]) == 0;
      assert raw[from + 1..to] == raw[from..to][1..];
      QuietScan(w, raw, from + 1, to);
      ScanStep(w, raw, from);
      hide CandidatesFrom;
    }
  }

  lemma ThreeParts(a: string, mid: string, b: string)
    ensures var s := a + mid + b;
      s[0..|a|] == a && s[|a|..] == mid + b && s[|a| + |mid|..|s|] == b
  {
    var s := a + mid + b;
    assert s == a + (mid + b);
    assert s[..|a|] == a && s[|a|..] == mid + b;
    assert s[|a| + |mid|..] == b;
  }

  /** One number in the text is judged once, as a whole. */
  lemma SoleCandidate(w: Letters, a: string, mid: string, b: string)
    requires NoDigits(a) && NoDigits(b) && mid != [] && TokenLength(mid + b) == |mid|
    ensures CandidatesFrom(w, a + mid + b, 0) == Judge(w, a + mid + b, |a|, |a| + |mid|)
  {
    var raw := a + mid + b;
    var start, end := |a|, |a| + |mid|;
    hide *;
    ThreeParts(a, mid, b);
    QuietScan(w, raw, 0, start);
    ScanStep(w, raw, start);
    QuietScan(w, raw, end, |raw|);
    ScanEnd(w, raw);
  }

  // ----- the theorem

  predicate BareYear(n: nat, fraction: string, style: Style) {
    1900 <= n <= 2099 && fraction == [] && style.group == None
  }

  lemma FourDigits(n: nat)
    ensures |Decimal(n)| == 4 <==> 1000 <= n < 10000
  {
    NumeralLength(n, 3);
    NumeralLength(n, 4);
    assert Pow10(1) == 10 && Pow10(2) == 100 && Pow10(3) == 1000 && Pow10(4) == 10000;
  }

  /** A printed amount looks like a year exactly when it is one, printed bare. */
  lemma YearIsBare(n: nat, fraction: string, style: Style)
    requires IsStyle(style) && IsFraction(fraction)
    ensures IsYear(PrintAmount(n, fraction, style)) <==> BareYear(n, fraction, style)
  {
    var s := PrintAmount(n, fraction, style);
    PrintedCompact(n, fraction, style);
    CompactUntouched(s);
    FourDigits(n);
    DecimalValue(n);
    LongFromThousand(n);
    if fraction != [] {
      assert s[|Whole(n, style)|] == style.point;
    } else {
      assert s == Whole(n, style);
      if style.group.Some? && n >= 1000 {
        GroupedHolds(Decimal(n), style.group.value, style.group.value);
        var i :| 0 <= i < |s| && s[i] == style.group.value;
        assert !AllDigits(s);
      }
    }
    hide Trim, Decimal, Grouped, PrintAmount, Whole;
  }

  function Judged(n: nat, fraction: string, style: Style, near: Near): seq<Candidate>
    requires IsFraction(fraction)
  {
    var amount := AmountOf(n, fraction);
    if amount == 0.0 || DottedTwice(n, fraction, style) then []
    else if BareYear(n, fraction, style) && !near.currency then []
    else if amount > MAX_REALISTIC_PRICE && !near.currency then []
    else [Candidate(amount, Score(amount, near))]
  }

  /** What one printed amount is judged to be. */
  lemma JudgePrinted(w: Letters, a: string, n: nat, fraction: string, style: Style, b: string)
    requires KeepsDigits(w) && IsStyle(style) && IsFraction(fraction) && NoDigits(a) && NoDigits(b)
    ensures var s := PrintAmount(n, fraction, style);
      var raw := a + s + b;
      Judge(w, raw, |a|, |a| + |s|) == Judged(n, fraction, style, NearNumber(w, raw, |a|, |a| + |s|))
  {
    hide *;
    var s := PrintAmount(n, fraction, style);
    var raw := a + s + b;
    MiddlePart(a, s, b);
    PrintedApart(n, fraction, style);
    LoweredNotInDate(w, a, s, b, OctetsBefore(raw, |a|), OctetsBefore(raw, |a| + |s|));
    JudgeUndated(w, raw, |a|, |a| + |s|);
    JudgedAs(n, fraction, style, NearNumber(w, raw, |a|, |a| + |s|));
  }

  lemma MiddlePart(a: string, s: string, b: string)
    ensures (a + s + b)[|a|..|a| + |s|] == s
  {
  }

  lemma JudgeUndated(w: Letters, raw: string, start: nat, end: nat)
    requires start <= end <= |raw| && !InDate(Lowered(w, raw), OctetsBefore(raw, start), OctetsBefore(raw, end))
    ensures Judge(w, raw, start, end) == JudgedToken(raw[start..end], NearNumber(w, raw, start, end))
  {
    hide JudgedToken, InDate, NearNumber, Lowered, OctetsBefore;
  }

  lemma JudgedAs(n: nat, fraction: string, style: Style, near: Near)
    requires IsStyle(style) && IsFraction(fraction)
    ensures JudgedToken(PrintAmount(n, fraction, style), near) == Judged(n, fraction, style, near)
  {
    YearIsBare(n, fraction, style);
    ParseUndoesPrint(n, fraction, style);
    AmountNotNegative(n, fraction);
    hide ParseNumberToken, PrintAmount, IsYear, BareYear, AmountOf, DottedTwice, Score, IsStyle;
  }

  /** What a reader takes from a printed amount; a bare year needs a currency nearby. */
  function PrintedPrice(n: nat, fraction: string, style: Style, currency: bool): Option<real>
    requires IsFraction(fraction)
  {
    var amount := AmountOf(n, fraction);
    if amount == 0.0 || amount > MAX_REALISTIC_PRICE || DottedTwice(n, fraction, style) then None
    else if BareYear(n, fraction, style) && !currency then None
    else Some(amount)
  }

  predicate CurrencyNear(w: Letters, text: string, start: nat, end: nat) {
    start <= end <= |Unify(Trim(text))| && NearNumber(w, Unify(Trim(text)), start, end).currency
  }

  /**
   Main result: a printed amount in text without other digits is the price, unless it is zero, above
   the realistic maximum, dotted twice, or a bare year with no currency nearby.
   */
  lemma PriceTextRoundTrip(w: Letters, pre: string, n: nat, fraction: string, style: Style, post: string)
    requires KeepsDigits(w) && IsTextStyle(style) && IsFraction(fraction) && NoDigits(pre) && NoDigits(post)
    ensures var s, start := PrintAmount(n, fraction, style), |SkipSpaces(pre)|;
      var text := pre + s + post;
      PriceIn(w, text) == PrintedPrice(n, fraction, style, CurrencyNear(w, text, start, start + |s|))
  {
    hide *;
    var s := PrintAmount(n, fraction, style);
    var a, b := Unify(SkipSpaces(pre)), Unify(TrimEnd(post));
    RawText(pre, n, fraction, style, post);
    PlainStyleAgrees(n, fraction, style);
    RawPrice(w, pre + s + post, a, n, fraction, PlainStyle(style), b);
  }

  lemma PlainStyleAgrees(n: nat, fraction: string, style: Style)
    requires IsTextStyle(style) && IsFraction(fraction)
    ensures var plain := PlainStyle(style);
      && IsStyle(plain) && IsTextStyle(plain)
      && PrintedPrice(n, fraction, plain, true) == PrintedPrice(n, fraction, style, true)
      && PrintedPrice(n, fraction, plain, false) == PrintedPrice(n, fraction, style, false)
  {
    hide AmountOf;
  }

  lemma RawPrice(w: Letters, text: string, a: string, n: nat, fraction: string, style: Style, b: string)
    requires KeepsDigits(w) && IsStyle(style) && IsTextStyle(style) && IsFraction(fraction)
    requires NoDigits(a) && NoDigits(b)
    requires Unify(Trim(text)) == a + PrintAmount(n, fraction, style) + b && PrintAmount(n, fraction, style) != []
    ensures var s := PrintAmount(n, fraction, style);
      PriceIn(w, text) == PrintedPrice(n, fraction, style, CurrencyNear(w, text, |a|, |a| + |s|))
  {
    hide *;
    var s := PrintAmount(n, fraction, style);
    var near := NearNumber(w, a + s + b, |a|, |a| + |s|);
    CurrencyNearIs(w, text, |a|, |a| + |s|);
    QuietEnds(fraction, b);
    PrintedToken(n, fraction, style, b);
    SoleCandidate(w, a, s, b);
    JudgePrinted(w, a, n, fraction, style, b);
    ChoosesIt(w, text, a + s + b);
    JudgedPrice(n, fraction, style, near);
  }

  /** The text the scanner sees around the printed amount. */
  lemma RawText(pre: string, n: nat, fraction: string, style: Style, post: string)
    requires IsTextStyle(style) && IsFraction(fraction) && NoDigits(pre) && NoDigits(post)
    ensures var s, mid := PrintAmount(n, fraction, style), PrintAmount(n, fraction, PlainStyle(style));
      var a, b := Unify(SkipSpaces(pre)), Unify(TrimEnd(post));
      && Unify(Trim(pre + s + post)) == a + mid + b
      && NoDigits(a) && NoDigits(b) && |a| == |SkipSpaces(pre)| && |mid| == |s| > 0
  {
    var s := PrintAmount(n, fraction, style);
    PrintedCompact(n, fraction, style);
    assert s != [];
    hide *;
    TrimAround(pre, s, post);
    SkipKeepsQuiet(pre);
    TrimKeepsQuiet(post);
    UnifyAround(SkipSpaces(pre), s, TrimEnd(post));
    UnifyKeepsQuiet(SkipSpaces(pre));
    UnifyKeepsQuiet(TrimEnd(post));
    UnifyPrinted(n, fraction, style);
    UnifyAt(SkipSpaces(pre));
    UnifyAt(s);
  }

  lemma CurrencyNearIs(w: Letters, text: string, start: nat, end: nat)
    requires start <= end <= |Unify(Trim(text))|
    ensures CurrencyNear(w, text, start, end) == NearNumber(w, Unify(Trim(text)), start, end).currency
  {
  }

  lemma ChoosesIt(w: Letters, text: string, raw: string)
    requires raw == Unify(Trim(text))
    ensures PriceIn(w, text) == Choose(CandidatesFrom(w, raw, 0))
  {
    hide CandidatesFrom, Unify, Trim, Choose;
  }

  lemma JudgedPrice(n: nat, fraction: string, style: Style, near: Near)
    requires IsFraction(fraction)
    ensures Choose(Judged(n, fraction, style, near)) == PrintedPrice(n, fraction, style, near.currency)
  {
    hide AmountOf, DottedTwice, BareYear, Score;
  }
}
