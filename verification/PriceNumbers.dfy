/**
 Number tokens in scraped prices: the parser for the EU, CIS and Anglo-Saxon forms, against the
 printers of those forms. Amounts are exact reals.
 */
module PriceNumbers {
  import opened Common
  import opened Decimals

  // ----- strings

  /** Unicode White_Space, which trim and the pattern's whitespace class share. */
  predicate IsSpace(c: char) {
    || '\U{0009}' <= c <= '\U{000D}' || c == ' ' || c == '\U{0085}' || c == '\U{00A0}'
    || c == '\U{1680}' || '\U{2000}' <= c <= '\U{200A}' || c == '\U{2028}' || c == '\U{2029}'
    || c == '\U{202F}' || c == '\U{205F}' || c == '\U{3000}'
  }

  predicate IsMark(c: char) {
    c == ',' || c == '.'
  }

  function SkipSpaces(s: string): (rest: string)
    ensures |rest| <= |s|
  {
    if s != [] && IsSpace(s[0]) then SkipSpaces(s[1..]) else s
  }

  function TrimEnd(s: string): string {
    if s != [] && IsSpace(s[|s| - 1]) then TrimEnd(s[..|s| - 1]) else s
  }

  function Trim(s: string): string {
    TrimEnd(SkipSpaces(s))
  }

  /** Every comma or dot loses the whitespace around it. */
  function Squeeze(s: string): string
    decreases |s|
  {
    if s == [] then []
    else if IsMark(s[0]) then [s[0]] + Squeeze(SkipSpaces(s[1..]))
    else
      var rest := SkipSpaces(s);
      if |rest| < |s| && rest != [] && IsMark(rest[0]) then Squeeze(rest)
      else [s[0]] + Squeeze(s[1..])
  }

  /** s without the character c. */
  function Drop(s: string, c: char): string {
    if s == [] then []
    else
      var n := |s| - 1;
      Drop(s[..n], c) + (if s[n] == c then [] else [s[n]])
  }

  /** s with b in place of a. */
  function Swap(s: string, a: char, b: char): string {
    if s == [] then []
    else
      var n := |s| - 1;
      Swap(s[..n], a, b) + [if s[n] == a then b else s[n]]
  }

  /** The pieces between the occurrences of c. */
  function SplitOn(s: string, c: char): (parts: seq<string>)
    ensures |parts| >= 1
  {
    if s == [] then [[]]
    else
      var n := |s| - 1;
      var before := SplitOn(s[..n], c);
      var last := |before| - 1;
      if s[n] == c then before + [[]] else before[..last] + [before[last] + [s[n]]]
  }

  function LastIndex(s: string, c: char): (i: int)
    ensures -1 <= i < |s|
  {
    if s == [] then -1
    else if s[|s| - 1] == c then |s| - 1
    else LastIndex(s[..|s| - 1], c)
  }

  function FirstIndex(s: string, c: char): (i: nat)
    ensures i <= |s|
    ensures i < |s| ==> s[i] == c
  {
    if s == [] || s[0] == c then 0 else 1 + FirstIndex(s[1..], c)
  }

  // ----- the parser

  function Amount(whole: string, fraction: string): real
    requires AllDigits(whole + fraction)
  {
    (ValueOf(whole + fraction) as real) / (Pow10(|fraction|) as real)
  }

  /** Digits with at most one dot among them; signs and exponents do not occur in tokens. */
  function ParseDecimal(s: string): Option<real> {
    var p := FirstIndex(s, '.');
    var whole, fraction := s[..p], if p < |s| then s[p + 1..] else [];
    if whole + fraction != [] && AllDigits(whole + fraction) then Some(Amount(whole, fraction)) else None
  }

  /** A mark that may be a decimal comma: which reading the pieces suggest. */
  function CommaForm(noSpace: string): string {
    var parts := SplitOn(noSpace, ',');
    var last := parts[|parts| - 1];
    if |parts| == 2 && (|parts[1]| == 1 || |parts[1]| == 2) then Swap(noSpace, ',', '.')
    else if |parts| >= 2 && forall i :: 1 <= i < |parts| ==> |parts[i]| == 3 then Drop(noSpace, ',')
    else if |last| <= 2 then Drop(Flatten(parts[..|parts| - 1]), ' ') + "." + last
    else Drop(noSpace, ',')
  }

  function DotForm(noSpace: string): string {
    var parts := SplitOn(noSpace, '.');
    if |parts| == 2 && (|parts[1]| == 1 || |parts[1]| == 2) then noSpace
    else if |parts| >= 2 && forall i :: 1 <= i < |parts| ==> |parts[i]| == 3 then Drop(noSpace, '.')
    else noSpace
  }

  function Normalize(value: string): string {
    if ',' in value && '.' in value then
      if LastIndex(value, ',') > LastIndex(value, '.') then Swap(Drop(Drop(value, ' '), '.'), ',', '.')
      else Drop(Drop(value, ' '), ',')
    else if ',' in value then CommaForm(Drop(value, ' '))
    else if '.' in value then DotForm(Drop(value, ' '))
    else if ' ' in value then Drop(value, ' ')
    else value
  }

  function Positive(amount: Option<real>): Option<real> {
    if amount.Some? && amount.value > 0.0 then amount else None
  }

  function ParseNumberToken(token: string): Option<real> {
    var value := Trim(token);
    if value == [] then None else Positive(ParseDecimal(Normalize(Squeeze(value))))
  }

  // ----- the printers

  /** Digits in groups of three from the right. */
  function Grouped(digits: string, mark: char): string {
    if |digits| <= 3 then digits
    else
      var n := |digits| - 3;
      Grouped(digits[..n], mark) + [mark] + digits[n..]
  }

  datatype Style = Style(group: Option<char>, point: char)

  predicate IsStyle(style: Style) {
    && IsMark(style.point)
    && (style.group.Some? ==> IsMark(style.group.value) || style.group.value == ' ')
  }

  predicate IsFraction(fraction: string) {
    |fraction| <= 2 && AllDigits(fraction)
  }

  function Whole(n: nat, style: Style): string {
    if style.group.Some? then Grouped(Decimal(n), style.group.value) else Decimal(n)
  }

  function PrintAmount(n: nat, fraction: string, style: Style): string {
    Whole(n, style) + (if fraction == [] then [] else [style.point] + fraction)
  }

  function AmountOf(n: nat, fraction: string): real
    requires AllDigits(fraction)
  {
    n as real + (ValueOf(fraction) as real) / (Pow10(|fraction|) as real)
  }

  // ----- laws of the string operations

  lemma {:induction false} DropAppend(a: string, b: string, c: char)
    ensures Drop(a + b, c) == Drop(a, c) + Drop(b, c)
  {
    if b == [] {
      assert a + b == a;
    } else {
      var n := |b| - 1;
      assert (a + b)[..|a| + n] == a + b[..n];
      DropAppend(a, b[..n], c);
    }
  }

  lemma {:induction false} DropAbsent(s: string, c: char)
    requires c !in s
    ensures Drop(s, c) == s
  {
    if s != [] {
      DropAbsent(s[..|s| - 1], c);
    }
  }

  lemma {:induction false} SwapAppend(a: string, b: string, x: char, y: char)
    ensures Swap(a + b, x, y) == Swap(a, x, y) + Swap(b, x, y)
  {
    if b == [] {
      assert a + b == a;
    } else {
      var n := |b| - 1;
      assert (a + b)[..|a| + n] == a + b[..n];
      SwapAppend(a, b[..n], x, y);
    }
  }

  lemma {:induction false} SwapAbsent(s: string, x: char, y: char)
    requires x !in s
    ensures Swap(s, x, y) == s
  {
    if s != [] {
      SwapAbsent(s[..|s| - 1], x, y);
    }
  }

  lemma {:induction false} SplitAbsent(s: string, c: char)
    requires c !in s
    ensures SplitOn(s, c) == [s]
  {
    if s != [] {
      SplitAbsent(s[..|s| - 1], c);
      assert s[..|s| - 1] + [s[|s| - 1]] == s;
    }
  }

  lemma {:induction false} SplitAtLast(a: string, c: char, b: string)
    requires c !in b
    ensures SplitOn(a + [c] + b, c) == SplitOn(a, c) + [b]
  {
    var s := a + [c] + b;
    if b == [] {
      assert s[..|s| - 1] == a;
    } else {
      var n := |b| - 1;
      assert s[..|s| - 1] == a + [c] + b[..n];
      SplitAtLast(a, c, b[..n]);
      assert b[..n] + [b[n]] == b;
    }
  }

  /** Joining the pieces drops the mark. */
  lemma {:induction false} FlattenSplit(s: string, c: char)
    ensures Flatten(SplitOn(s, c)) == Drop(s, c)
  {
    hide *;
    if s == [] {
      NothingSplits(c);
    } else {
      var n := |s| - 1;
      FlattenSplit(s[..n], c);
      SplitNext(s, c);
      DropNext(s, c);
      if s[n] == c {
        FlattenAppend(SplitOn(s[..n], c), []);
      } else {
        JoinLast(SplitOn(s[..n], c), [s[n]]);
      }
    }
  }

  lemma NothingSplits(c: char)
    ensures Flatten(SplitOn([], c)) == Drop([], c)
  {
    var none: string := [];
    assert Flatten([none]) == none;
  }

  lemma JoinLast(parts: seq<string>, more: string)
    requires parts != []
    ensures var last := |parts| - 1;
      Flatten(parts[..last] + [parts[last] + more]) == Flatten(parts) + more
  {
    hide *;
    var front, x := parts[..|parts| - 1], parts[|parts| - 1];
    LastPart(parts);
    FlattenAppend(front, x);
    FlattenAppend(front, x + more);
    Regroup(Flatten(front), x, more);
  }

  lemma LastPart(parts: seq<string>)
    requires parts != []
    ensures parts == parts[..|parts| - 1] + [parts[|parts| - 1]]
  {
  }

  lemma SplitNext(s: string, c: char)
    requires s != []
    ensures var n, before := |s| - 1, SplitOn(s[..|s| - 1], c);
      SplitOn(s, c) == if s[n] == c then before + [[]] else before[..|before| - 1] + [before[|before| - 1] + [s[n]]]
  {
  }

  lemma DropNext(s: string, c: char)
    requires s != []
    ensures var n := |s| - 1;
      Drop(s, c) == Drop(s[..n], c) + (if s[n] == c then [] else [s[n]])
  {
  }

  lemma {:induction false} LastIndexIs(a: string, c: char, b: string)
    requires c !in b
    ensures LastIndex(a + [c] + b, c) == |a|
  {
    var s := a + [c] + b;
    if b == [] {
      assert s[..|s| - 1] == a;
    } else {
      assert s[..|s| - 1] == a + [c] + b[..|b| - 1];
      LastIndexIs(a, c, b[..|b| - 1]);
    }
  }

  lemma {:induction false} FirstIndexIs(a: string, c: char, b: string)
    requires c !in a
    ensures FirstIndex(a + [c] + b, c) == |a|
  {
    var s := a + [c] + b;
    if a != [] {
      assert s[1..] == a[1..] + [c] + b;
      FirstIndexIs(a[1..], c, b);
    }
  }

  lemma {:induction false} FirstIndexAbsent(s: string, c: char)
    requires c !in s
    ensures FirstIndex(s, c) == |s|
  {
    if s != [] {
      FirstIndexAbsent(s[1..], c);
    }
  }

  // ----- laws of grouping

  lemma DigitsHold(s: string, c: char)
    requires AllDigits(s) && !IsDigit(c)
    ensures c !in s
  {
  }

  lemma DropAroundMark(a: string, mark: char, b: string)
    requires mark !in b
    ensures Drop(a + [mark] + b, mark) == Drop(a, mark) + b
  {
    hide Drop;
    DropOne(mark);
    DropAppend(a + [mark], b, mark);
    DropAppend(a, [mark], mark);
    DropAbsent(b, mark);
  }

  lemma DropOne(c: char)
    ensures Drop([c], c) == []
  {
  }

  lemma {:induction false} DropGrouped(digits: string, mark: char)
    requires AllDigits(digits) && !IsDigit(mark)
    ensures Drop(Grouped(digits, mark), mark) == digits
  {
    if |digits| <= 3 {
      DropAbsent(digits, mark);
    } else {
      var n := |digits| - 3;
      var front, tail := Grouped(digits[..n], mark), digits[n..];
      DigitsHold(tail, mark);
      DropGrouped(digits[..n], mark);
      hide Drop, AllDigits, IsDigit;
      DropAroundMark(front, mark, tail);
    }
  }

  /** Grouped digits hold the mark exactly when there are more than three, and nothing else. */
  lemma {:induction false} GroupedHolds(digits: string, mark: char, c: char)
    requires AllDigits(digits) && !IsDigit(mark) && !IsDigit(c)
    ensures c in Grouped(digits, mark) <==> c == mark && |digits| > 3
  {
    if |digits| > 3 {
      GroupedHolds(digits[..|digits| - 3], mark, c);
    }
  }

  lemma {:induction false} SplitGrouped(digits: string, mark: char)
    requires AllDigits(digits) && !IsDigit(mark)
    ensures var parts := SplitOn(Grouped(digits, mark), mark);
      && (|parts| > 1 <==> |digits| > 3)
      && forall i :: 1 <= i < |parts| ==> |parts[i]| == 3
  {
    if |digits| <= 3 {
      SplitAbsent(digits, mark);
    } else {
      var n := |digits| - 3;
      SplitGrouped(digits[..n], mark);
      SplitAtLast(Grouped(digits[..n], mark), mark, digits[n..]);
    }
  }

  /** A printed amount: digits at both ends, and no mark or space next to another. */
  predicate Compact(s: string) {
    && s != [] && IsDigit(s[0]) && IsDigit(s[|s| - 1])
    && forall i :: 0 <= i < |s| - 1 ==> IsDigit(s[i]) || IsDigit(s[i + 1])
  }

  lemma CompactJoin(a: string, c: char, b: string)
    requires Compact(a) && Compact(b)
    ensures Compact(a + [c] + b)
  {
    var s := a + [c] + b;
    forall i | 0 <= i < |s| - 1 ensures IsDigit(s[i]) || IsDigit(s[i + 1]) {
      if i == |a| {
        assert s[i + 1] == b[0];
      } else if i > |a| {
        assert s[i] == b[i - |a| - 1] && s[i + 1] == b[i - |a|];
      }
    }
    assert s[|s| - 1] == b[|b| - 1];
  }

  lemma {:induction false} GroupedCompact(digits: string, mark: char)
    requires AllDigits(digits) && digits != []
    ensures Compact(Grouped(digits, mark))
  {
    if |digits| > 3 {
      var n := |digits| - 3;
      GroupedCompact(digits[..n], mark);
      CompactJoin(Grouped(digits[..n], mark), mark, digits[n..]);
    }
  }

  lemma PrintedCompact(n: nat, fraction: string, style: Style)
    requires IsFraction(fraction)
    ensures Compact(PrintAmount(n, fraction, style))
  {
    if style.group.Some? {
      GroupedCompact(Decimal(n), style.group.value);
    }
    if fraction == [] {
      assert PrintAmount(n, fraction, style) == Whole(n, style);
    } else {
      CompactJoin(Whole(n, style), style.point, fraction);
      assert PrintAmount(n, fraction, style) == Whole(n, style) + [style.point] + fraction;
    }
  }

  /** Nothing to trim and nothing to squeeze. */
  lemma CompactUntouched(s: string)
    requires Compact(s)
    ensures Trim(s) == s && Squeeze(s) == s
  {
    SqueezeKeeps(s);
    hide Squeeze;
    NothingToTrim(s);
  }

  lemma NothingToTrim(s: string)
    requires s != [] && IsDigit(s[0]) && IsDigit(s[|s| - 1])
    ensures Trim(s) == s
  {
  }

  /** Digits at the end, and one of any two neighbours is a digit. */
  predicate Spaced(s: string) {
    && (s != [] ==> IsDigit(s[|s| - 1]))
    && forall i :: 0 <= i < |s| - 1 ==> IsDigit(s[i]) || IsDigit(s[i + 1])
  }

  lemma SpacedTail(s: string)
    requires Spaced(s) && s != []
    ensures Spaced(s[1..])
    ensures IsDigit(s[0]) || (s[1..] != [] && IsDigit(s[1..][0]))
  {
    assert forall i :: 0 <= i < |s| - 1 ==> s[1..][i] == s[i + 1];
  }

  lemma SqueezeKeeps(s: string)
    requires Spaced(s)
    ensures Squeeze(s) == s
  {
    SqueezeAfter(s, []);
    assert s + [] == s;
  }

  /** Squeezing leaves spaced text as it is and goes on behind it. */
  lemma {:induction false} SqueezeAfter(s: string, rest: string)
    requires Spaced(s)
    ensures Squeeze(s + rest) == s + Squeeze(rest)
  {
    hide *;
    if s == [] {
      assert s + rest == rest;
      assert s + Squeeze(rest) == Squeeze(rest);
    } else {
      var c, t := s[0], s[1..];
      SpacedTail(s);
      SqueezeAfter(t, rest);
      HeadStays(t, rest);
      SqueezeStep(c, t + rest);
      HeadAndTail(s, rest);
      HeadAndTail(s, Squeeze(rest));
    }
  }

  lemma HeadStays(t: string, rest: string)
    ensures t != [] ==> t + rest != [] && (t + rest)[0] == t[0]
  {
  }

  lemma HeadAndTail(s: string, rest: string)
    requires s != []
    ensures [s[0]] + (s[1..] + rest) == s + rest
  {
  }

  lemma SqueezeStep(c: char, t: string)
    requires IsDigit(c) || (t != [] && IsDigit(t[0]))
    ensures Squeeze([c] + t) == [c] + Squeeze(t)
  {
    var s := [c] + t;
    assert s[1..] == t;
    assert t != [] && IsDigit(t[0]) ==> SkipSpaces(t) == t;
    assert IsDigit(c) ==> SkipSpaces(s) == s;
    assert !IsDigit(c) ==> SkipSpaces(s) == if IsSpace(c) then t else s;
    hide SkipSpaces;
  }

  // ----- the round trip

  lemma ParseDigits(digits: string)
    requires AllDigits(digits) && digits != []
    ensures ParseDecimal(digits) == Some(ValueOf(digits) as real)
  {
    FirstIndexAbsent(digits, '.');
    assert digits[..|digits|] + [] == digits;
  }

  lemma PointedAmount(n: nat, fraction: string)
    requires IsFraction(fraction) && fraction != []
    ensures AllDigits(Decimal(n) + fraction) && Amount(Decimal(n), fraction) == AmountOf(n, fraction)
  {
    hide Decimal, ValueOf, Pow10;
    ValueOfAppend(Decimal(n), fraction);
    DecimalValue(n);
    SmallPowers();
  }

  lemma SmallPowers()
    ensures Pow10(1) == 10 && Pow10(2) == 100
  {
  }

  lemma ParsePointed(n: nat, fraction: string)
    requires IsFraction(fraction) && fraction != []
    ensures ParseDecimal(Decimal(n) + "." + fraction) == Some(AmountOf(n, fraction))
  {
    var whole := Decimal(n);
    var s := whole + ['.'] + fraction;
    FirstIndexIs(whole, '.', fraction);
    assert s[..|whole|] == whole && s[|whole| + 1..] == fraction;
    assert s == whole + "." + fraction;
    PointedAmount(n, fraction);
    hide Amount, AmountOf, FirstIndex, Decimal;
  }

  /** A second dot among the digits is not a number. */
  lemma ParseTwoDots(a: string, b: string)
    requires '.' in a
    ensures ParseDecimal(a + ['.'] + b) == None
  {
    var s := a + ['.'] + b;
    var p := FirstIndex(s, '.');
    FirstDot(a, ['.'] + b);
    assert a + (['.'] + b) == s;
    assert s[p + 1..][|a| - p - 1] == s[|a|] == '.';
    assert (s[..p] + s[p + 1..])[|a| - 1] == '.';
  }

  lemma {:induction false} FirstDot(a: string, b: string)
    requires '.' in a
    ensures FirstIndex(a + b, '.') < |a|
  {
    if a[0] != '.' {
      assert (a + b)[1..] == a[1..] + b;
      FirstDot(a[1..], b);
    }
  }

  lemma NormalizeDigits(digits: string)
    requires AllDigits(digits)
    ensures Normalize(digits) == digits
  {
    DigitsHold(digits, ',');
    DigitsHold(digits, '.');
    DigitsHold(digits, ' ');
    hide *;
    hide AllDigits, IsDigit;
    NormalizePlain(digits);
  }

  lemma NormalizePlain(s: string)
    requires ',' !in s && '.' !in s && ' ' !in s
    ensures Normalize(s) == s
  {
  }

  /** How the branches of the normalization are chosen. */
  lemma NormalizeBranches(s: string)
    ensures ',' in s && '.' in s && LastIndex(s, ',') > LastIndex(s, '.') ==>
      Normalize(s) == Swap(Drop(Drop(s, ' '), '.'), ',', '.')
    ensures ',' in s && '.' in s && LastIndex(s, ',') <= LastIndex(s, '.') ==>
      Normalize(s) == Drop(Drop(s, ' '), ',')
    ensures ',' in s && '.' !in s ==> Normalize(s) == CommaForm(Drop(s, ' '))
    ensures ',' !in s && '.' in s ==> Normalize(s) == DotForm(Drop(s, ' '))
    ensures ',' !in s && '.' !in s && ' ' in s ==> Normalize(s) == Drop(s, ' ')
  {
    hide Swap, Drop, LastIndex, CommaForm, DotForm;
  }

  /** Pieces of three after the first one: the marks group. */
  lemma AllThrees(s: string)
    ensures var parts := SplitOn(s, ',');
      |parts| > 1 && (forall i :: 1 <= i < |parts| ==> |parts[i]| == 3) ==> CommaForm(s) == Drop(s, ',')
    ensures var parts := SplitOn(s, '.');
      |parts| > 1 && (forall i :: 1 <= i < |parts| ==> |parts[i]| == 3) ==> DotForm(s) == Drop(s, '.')
  {
    hide Swap, Drop, SplitOn, Flatten;
  }

  /** An amount without a fraction normalizes to its bare digits. */
  lemma NormalizeGrouped(digits: string, mark: char)
    requires AllDigits(digits) && |digits| > 3 && (IsMark(mark) || mark == ' ')
    ensures Normalize(Grouped(digits, mark)) == digits
  {
    assert !IsDigit(mark) && !IsDigit(',') && !IsDigit('.') && !IsDigit(' ');
    assert mark == ',' || mark == '.' || mark == ' ';
    hide *;
    var s := Grouped(digits, mark);
    GroupedHolds(digits, mark, ',');
    GroupedHolds(digits, mark, '.');
    GroupedHolds(digits, mark, ' ');
    DropGrouped(digits, mark);
    SplitGrouped(digits, mark);
    NormalizeBranches(s);
    if mark != ' ' {
      DropAbsent(s, ' ');
      AllThrees(s);
    }
  }

  lemma NormalizeWhole(n: nat, style: Style)
    requires IsStyle(style)
    ensures Normalize(Whole(n, style)) == Decimal(n)
  {
    var digits := Decimal(n);
    if style.group.None? || |digits| <= 3 {
      NormalizeDigits(digits);
    } else {
      NormalizeGrouped(digits, style.group.value);
    }
    hide Normalize, Decimal;
  }

  /** The digits with a decimal comma, once the grouping is gone. */
  lemma SwapPoint(digits: string, fraction: string)
    requires AllDigits(digits) && AllDigits(fraction)
    ensures Swap(digits + [','] + fraction, ',', '.') == digits + ['.'] + fraction
  {
    SwapAppend(digits + [','], fraction, ',', '.');
    SwapAppend(digits, [','], ',', '.');
    SwapAbsent(digits, ',', '.');
    SwapAbsent(fraction, ',', '.');
    assert Swap([','], ',', '.') == ['.'];
  }

  lemma DropFromPrinted(whole: string, point: char, fraction: string, c: char)
    requires AllDigits(fraction) && !IsDigit(c) && c != point
    ensures Drop(whole + [point] + fraction, c) == Drop(whole, c) + [point] + fraction
  {
    DropAppend(whole + [point], fraction, c);
    DropAppend(whole, [point], c);
    DropAbsent(fraction, c);
    DropAbsent([point], c);
  }

  /** Grouping and decimal mark differ, and both are printed: the decimal mark comes last. */
  lemma BothMarks(digits: string, mark: char, point: char, fraction: string)
    requires AllDigits(digits) && |digits| > 3 && AllDigits(fraction)
    requires IsMark(mark) && IsMark(point) && mark != point
    ensures var s := Grouped(digits, mark) + [point] + fraction;
      && mark in s && point in s && LastIndex(s, mark) < LastIndex(s, point)
      && Drop(Drop(s, ' '), mark) == digits + [point] + fraction
  {
    assert !IsDigit(mark) && !IsDigit(point) && !IsDigit(' ') && mark != ' ' && point != ' ';
    DigitsHold(fraction, mark);
    DigitsHold(fraction, point);
    DigitsHold(fraction, ' ');
    hide *;
    var whole := Grouped(digits, mark);
    var s := whole + [point] + fraction;
    GroupedHolds(digits, mark, mark);
    GroupedHolds(digits, mark, ' ');
    assert ' ' !in s;
    DropAbsent(s, ' ');
    DropFromPrinted(whole, point, fraction, mark);
    DropGrouped(digits, mark);
    LastIndexIs(whole, point, fraction);
    MarkBefore(whole, point, fraction, mark);
  }

  lemma MarkBefore(whole: string, point: char, fraction: string, mark: char)
    requires mark != point && mark !in fraction
    ensures LastIndex(whole + [point] + fraction, mark) < |whole|
  {
    assert whole + ([point] + fraction) == whole + [point] + fraction;
    LastMarkIn(whole, [point] + fraction, mark);
    hide LastIndex;
  }

  lemma NormalizeBoth(digits: string, mark: char, point: char, fraction: string)
    requires AllDigits(digits) && |digits| > 3 && AllDigits(fraction)
    requires IsMark(mark) && IsMark(point) && mark != point
    ensures Normalize(Grouped(digits, mark) + [point] + fraction) == digits + ['.'] + fraction
  {
    assert (mark == ',' && point == '.') || (mark == '.' && point == ',');
    hide *;
    var s := Grouped(digits, mark) + [point] + fraction;
    BothMarks(digits, mark, point, fraction);
    NormalizeBranches(s);
    SwapPoint(digits, fraction);
  }

  lemma {:induction false} LastMarkIn(a: string, b: string, c: char)
    requires c !in b
    ensures LastIndex(a + b, c) < |a|
  {
    if b == [] {
      assert a + b == a;
    } else {
      assert (a + b)[..|a + b| - 1] == a + b[..|b| - 1];
      LastMarkIn(a, b[..|b| - 1], c);
    }
  }

  /** Bare digits, a decimal mark and a fraction. */
  lemma NormalizePointed(digits: string, point: char, fraction: string)
    requires AllDigits(digits) && IsFraction(fraction) && fraction != [] && IsMark(point)
    ensures CommaForm(digits + [','] + fraction) == digits + ['.'] + fraction
    ensures DotForm(digits + ['.'] + fraction) == digits + ['.'] + fraction
  {
    SplitAbsent(digits, ',');
    SplitAbsent(digits, '.');
    SplitAtLast(digits, ',', fraction);
    SplitAtLast(digits, '.', fraction);
    SwapPoint(digits, fraction);
  }

  /** At most one comma or dot is printed, before the fraction; spaces may group. */
  lemma NormalizeOneMark(whole: string, digits: string, point: char, fraction: string)
    requires AllDigits(digits) && IsFraction(fraction) && fraction != [] && IsMark(point)
    requires ',' !in whole && '.' !in whole && Drop(whole, ' ') == digits
    ensures Normalize(whole + [point] + fraction) == digits + ['.'] + fraction
  {
    var s := whole + [point] + fraction;
    assert point in s;
    assert ',' in s ==> point == ',';
    assert '.' in s ==> point == '.';
    DropFromPrinted(whole, point, fraction, ' ');
    NormalizePointed(digits, point, fraction);
  }

  /** More pieces than two, and a short last one. */
  lemma ShortLast(s: string)
    ensures var parts := SplitOn(s, ',');
      |parts| > 2 && 1 <= |parts[|parts| - 1]| <= 2 ==>
        CommaForm(s) == Drop(Flatten(parts[..|parts| - 1]), ' ') + "." + parts[|parts| - 1]
    ensures var parts := SplitOn(s, '.');
      |parts| > 2 && 1 <= |parts[|parts| - 1]| <= 2 ==> DotForm(s) == s
  {
    hide Swap, Drop, SplitOn, Flatten;
  }

  /** Commas for both: the third reading of the comma form. */
  lemma NormalizeCommas(digits: string, fraction: string)
    requires AllDigits(digits) && |digits| > 3 && IsFraction(fraction) && fraction != []
    ensures Normalize(Grouped(digits, ',') + [','] + fraction) == digits + ['.'] + fraction
  {
    assert !IsDigit(',') && !IsDigit('.') && !IsDigit(' ') && 1 <= |fraction| <= 2;
    DigitsHold(fraction, ',');
    DigitsHold(fraction, '.');
    DigitsHold(fraction, ' ');
    DigitsHold(digits, ' ');
    hide *;
    var whole := Grouped(digits, ',');
    var s := whole + [','] + fraction;
    GroupedHolds(digits, ',', '.');
    GroupedHolds(digits, ',', ' ');
    assert ',' in s && '.' !in s && ' ' !in s;
    DropAbsent(s, ' ');
    NormalizeBranches(s);
    SplitGrouped(digits, ',');
    SplitAtLast(whole, ',', fraction);
    var parts := SplitOn(s, ',');
    assert parts[..|parts| - 1] == SplitOn(whole, ',');
    FlattenSplit(whole, ',');
    DropGrouped(digits, ',');
    DropAbsent(digits, ' ');
    ShortLast(s);
  }

  /** Dots for both: no reading is left. */
  lemma NormalizeDots(digits: string, fraction: string)
    requires AllDigits(digits) && |digits| > 3 && IsFraction(fraction) && fraction != []
    ensures Normalize(Grouped(digits, '.') + ['.'] + fraction) == Grouped(digits, '.') + ['.'] + fraction
  {
    assert !IsDigit(',') && !IsDigit('.') && !IsDigit(' ') && 1 <= |fraction| <= 2;
    DigitsHold(fraction, ',');
    DigitsHold(fraction, '.');
    DigitsHold(fraction, ' ');
    hide *;
    var whole := Grouped(digits, '.');
    var s := whole + ['.'] + fraction;
    GroupedHolds(digits, '.', ',');
    GroupedHolds(digits, '.', ' ');
    assert '.' in s && ',' !in s && ' ' !in s;
    DropAbsent(s, ' ');
    NormalizeBranches(s);
    SplitGrouped(digits, '.');
    SplitAtLast(whole, '.', fraction);
    ShortLast(s);
  }

  /** The one printed form the parser cannot read: dots as grouping and as decimal mark at once. */
  predicate DottedTwice(n: nat, fraction: string, style: Style) {
    style == Style(Some('.'), '.') && n >= 1000 && fraction != []
  }

  lemma LongFromThousand(n: nat)
    ensures |Decimal(n)| > 3 <==> n >= 1000
  {
    NumeralLength(n, 3);
    assert Pow10(1) == 10 && Pow10(2) == 100 && Pow10(3) == 1000;
  }

  lemma NormalizePrinted(n: nat, fraction: string, style: Style)
    requires IsStyle(style) && IsFraction(fraction) && fraction != [] && !DottedTwice(n, fraction, style)
    ensures Normalize(PrintAmount(n, fraction, style)) == Decimal(n) + ['.'] + fraction
  {
    var digits, point, whole := Decimal(n), style.point, Whole(n, style);
    assert PrintAmount(n, fraction, style) == whole + [point] + fraction;
    LongFromThousand(n);
    if style.group == None || |digits| <= 3 {
      DropAbsent(digits, ' ');
      NormalizeOneMark(digits, digits, point, fraction);
    } else if style.group == Some(' ') {
      GroupedHolds(digits, ' ', ',');
      GroupedHolds(digits, ' ', '.');
      DropGrouped(digits, ' ');
      NormalizeOneMark(whole, digits, point, fraction);
    } else if style.group != Some(point) {
      NormalizeBoth(digits, style.group.value, point, fraction);
    } else {
      NormalizeCommas(digits, fraction);
    }
  }

  /**
   Main result: whatever the length of the amount, the grouping and the decimal mark, the parser
   returns exactly the printed amount; zero reads as no price, and dots used for both marks at
   once are the only form that is not read.
   */
  lemma ParseUndoesPrint(n: nat, fraction: string, style: Style)
    requires IsStyle(style) && IsFraction(fraction)
    ensures ParseNumberToken(PrintAmount(n, fraction, style))
         == if AmountOf(n, fraction) > 0.0 && !DottedTwice(n, fraction, style)
            then Some(AmountOf(n, fraction))
            else None
  {
    var s := PrintAmount(n, fraction, style);
    PrintedCompact(n, fraction, style);
    CompactUntouched(s);
    assert s != [];
    hide Trim, Squeeze, Normalize, PrintAmount, ParseDecimal, Compact, AmountOf, DottedTwice, IsStyle, IsFraction;
    if fraction == [] {
      WholeForm(n, style);
    } else if DottedTwice(n, fraction, style) {
      DottedForm(n, fraction, style);
    } else {
      NormalizePrinted(n, fraction, style);
      ParsePointed(n, fraction);
    }
  }

  lemma WholeForm(n: nat, style: Style)
    requires IsStyle(style)
    ensures ParseDecimal(Normalize(PrintAmount(n, [], style))) == Some(AmountOf(n, []))
    ensures !DottedTwice(n, [], style)
  {
    assert PrintAmount(n, [], style) == Whole(n, style);
    NormalizeWhole(n, style);
    ParseDigits(Decimal(n));
    DecimalValue(n);
    assert AmountOf(n, []) == n as real;
    hide ParseDecimal, Normalize, Whole, PrintAmount, Decimal;
  }

  lemma DottedForm(n: nat, fraction: string, style: Style)
    requires DottedTwice(n, fraction, style) && IsFraction(fraction)
    ensures ParseDecimal(Normalize(PrintAmount(n, fraction, style))) == None
  {
    var whole := Grouped(Decimal(n), '.');
    assert PrintAmount(n, fraction, style) == whole + ['.'] + fraction;
    LongFromThousand(n);
    NormalizeDots(Decimal(n), fraction);
    GroupedHolds(Decimal(n), '.', '.');
    ParseTwoDots(whole, fraction);
    hide ParseDecimal, Normalize, PrintAmount, Grouped, Decimal;
  }

  // ----- spacing

  lemma {:induction false} SkipBefore(pre: string, rest: string)
    requires rest != [] && !IsSpace(rest[0])
    ensures SkipSpaces(pre + rest) == SkipSpaces(pre) + rest
  {
    if pre == [] {
      assert pre + rest == rest;
    } else {
      assert (pre + rest)[1..] == pre[1..] + rest;
      SkipBefore(pre[1..], rest);
    }
  }

  lemma {:induction false} TrimAfter(front: string, post: string)
    requires front != [] && !IsSpace(front[|front| - 1])
    ensures TrimEnd(front + post) == front + TrimEnd(post)
  {
    if post == [] {
      assert front + post == front;
    } else {
      assert (front + post)[..|front + post| - 1] == front + post[..|post| - 1];
      TrimAfter(front, post[..|post| - 1]);
    }
  }

  lemma TrimAround(pre: string, mid: string, post: string)
    requires mid != [] && IsDigit(mid[0]) && IsDigit(mid[|mid| - 1])
    ensures Trim(pre + mid + post) == SkipSpaces(pre) + mid + TrimEnd(post)
  {
    assert !IsSpace(mid[0]) && !IsSpace(mid[|mid| - 1]);
    assert pre + mid + post == pre + (mid + post);
    SkipBefore(pre, mid + post);
    Regroup(SkipSpaces(pre), mid, post);
    TrimAfter(SkipSpaces(pre) + mid, post);
  }

  predicate AllSpaces(s: string) {
    forall i :: 0 <= i < |s| ==> IsSpace(s[i])
  }

  lemma {:induction false} SkipAll(spaces: string, rest: string)
    requires AllSpaces(spaces) && (rest == [] || !IsSpace(rest[0]))
    ensures SkipSpaces(spaces + rest) == rest
  {
    if spaces == [] {
      assert spaces + rest == rest;
    } else {
      assert (spaces + rest)[1..] == spaces[1..] + rest;
      SkipAll(spaces[1..], rest);
    }
  }

  lemma {:induction false} TrimAll(spaces: string)
    requires AllSpaces(spaces)
    ensures TrimEnd(spaces) == []
  {
    if spaces != [] {
      TrimAll(spaces[..|spaces| - 1]);
    }
  }

  lemma SqueezeMark(s1: string, mark: char, s2: string, b: string)
    requires AllSpaces(s1) && AllSpaces(s2) && IsMark(mark) && b != [] && !IsSpace(b[0])
    ensures Squeeze(s1 + ([mark] + (s2 + b))) == [mark] + Squeeze(b)
  {
    var tail := [mark] + (s2 + b);
    SkipAll(s1, tail);
    SkipAll(s2, b);
    assert tail[1..] == s2 + b;
    assert Squeeze(tail) == [mark] + Squeeze(b);
    if s1 == [] {
      assert s1 + tail == tail;
    } else {
      assert IsSpace((s1 + tail)[0]);
    }
  }

  lemma TrimPadded(before: string, mid: string, after: string)
    requires AllSpaces(before) && AllSpaces(after) && mid != [] && IsDigit(mid[0]) && IsDigit(mid[|mid| - 1])
    ensures Trim(before + mid + after) == mid
  {
    hide *;
    TrimAround(before, mid, after);
    SkipOnly(before);
    TrimAll(after);
    assert [] + mid + [] == mid;
  }

  lemma SkipOnly(spaces: string)
    requires AllSpaces(spaces)
    ensures SkipSpaces(spaces) == []
  {
    SkipAll(spaces, []);
    assert spaces + [] == spaces;
  }

  lemma SqueezeSpaced(whole: string, s1: string, point: char, s2: string, fraction: string)
    requires AllSpaces(s1) && AllSpaces(s2) && Compact(whole) && Compact(fraction) && IsMark(point)
    ensures Squeeze(whole + (s1 + ([point] + (s2 + fraction)))) == whole + [point] + fraction
  {
    assert !IsSpace(fraction[0]);
    SqueezeAfter(whole, s1 + ([point] + (s2 + fraction)));
    CompactUntouched(fraction);
    hide *;
    SqueezeMark(s1, point, s2, fraction);
    Regroup(whole, [point], fraction);
  }

  lemma SameNumber(a: string, b: string)
    requires Trim(a) != [] && Trim(b) != [] && Squeeze(Trim(a)) == Squeeze(Trim(b))
    ensures ParseNumberToken(a) == ParseNumberToken(b)
  {
    hide Trim, Squeeze, Normalize, ParseDecimal;
  }

  /** White space around a number and around its decimal mark changes nothing. */
  lemma SpacingIsIgnored(before: string, whole: string, s1: string, point: char, s2: string, fraction: string,
                         after: string)
    requires AllSpaces(before) && AllSpaces(s1) && AllSpaces(s2) && AllSpaces(after)
    requires Compact(whole) && Compact(fraction) && IsMark(point)
    ensures ParseNumberToken(before + (whole + (s1 + ([point] + (s2 + fraction)))) + after)
         == ParseNumberToken(whole + [point] + fraction)
  {
    var mid, plain := whole + (s1 + ([point] + (s2 + fraction))), whole + [point] + fraction;
    assert mid[0] == whole[0] && mid[|mid| - 1] == fraction[|fraction| - 1];
    assert IsDigit(mid[0]) && IsDigit(mid[|mid| - 1]);
    CompactJoin(whole, point, fraction);
    hide *;
    TrimPadded(before, mid, after);
    CompactUntouched(plain);
    SqueezeSpaced(whole, s1, point, s2, fraction);
    SameNumber(before + mid + after, plain);
  }

  /** So two printed amounts that read alike are the same amount. */
  lemma PrintsAreUnambiguous(n: nat, f: string, s: Style, m: nat, g: string, t: Style)
    requires IsStyle(s) && IsStyle(t) && IsFraction(f) && IsFraction(g)
    requires !DottedTwice(n, f, s) && !DottedTwice(m, g, t)
    requires PrintAmount(n, f, s) == PrintAmount(m, g, t)
    ensures AmountOf(n, f) == AmountOf(m, g)
  {
    ParseUndoesPrint(n, f, s);
    ParseUndoesPrint(m, g, t);
    AmountNotNegative(n, f);
    AmountNotNegative(m, g);
  }

  lemma AmountNotNegative(n: nat, fraction: string)
    requires IsFraction(fraction)
    ensures AmountOf(n, fraction) >= 0.0
  {
    assert Pow10(0) == 1 && Pow10(1) == 10 && Pow10(2) == 100;
  }

  /** Groups of three are read as digits whatever the mark, leading zeros included. */
  lemma GroupedIsWhole(digits: string, mark: char)
    requires AllDigits(digits) && |digits| > 3 && (IsMark(mark) || mark == ' ')
    ensures ParseNumberToken(Grouped(digits, mark)) == Positive(Some(ValueOf(digits) as real))
  {
    GroupedCompact(digits, mark);
    CompactUntouched(Grouped(digits, mark));
    NormalizeGrouped(digits, mark);
    ParseDigits(digits);
    assert Grouped(digits, mark) != [];
    hide Trim, Squeeze, Normalize, ParseDecimal, Positive, Grouped, ValueOf;
  }

  /** So a mark before three digits never starts a fraction: 1.234 reads as 1234, 0.500 as 500. */
  lemma ThreeDecimalsAreGroups(whole: string, mark: char, three: string)
    requires AllDigits(whole) && 1 <= |whole| <= 3 && AllDigits(three) && |three| == 3
    requires IsMark(mark) || mark == ' '
    ensures ParseNumberToken(whole + [mark] + three) == Positive(Some(ValueOf(whole + three) as real))
  {
    var digits := whole + three;
    assert digits[..|whole|] == whole && digits[|whole|..] == three;
    assert Grouped(digits, mark) == whole + [mark] + three;
    GroupedIsWhole(digits, mark);
    hide ParseNumberToken, Grouped, ValueOf;
  }
}
