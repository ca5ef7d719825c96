/**
 Prices in scraped text: which numbers count as candidates, what the words within twenty octets
 of a number add to its score, and which candidate wins.
 */
module PriceText {
  import opened Common
  import opened Decimals
  import opened CurrencyWords
  import opened PriceNumbers

  const MAX_REALISTIC_PRICE := 5000000.0

  /** The currency and context words within twenty octets of a number. */
  datatype Near = Near(currency: bool, positive: bool, negative: bool)

  datatype Candidate = Candidate(amount: real, score: int)

  // ----- the patterns, matched at the head of the rest of the text

  predicate IsGroupMark(c: char) {
    c == ' ' || c == '\U{00A0}' || c == '\U{2009}' || c == '\U{202F}' || IsMark(c)
  }

  predicate DigitAt(s: string, i: nat) {
    i < |s| && IsDigit(s[i])
  }

  function DigitRun(s: string): (k: nat)
    ensures k <= |s|
  {
    if DigitAt(s, 0) then 1 + DigitRun(s[1..]) else 0
  }

  /** As many groups as there are: a mark and three digits each. */
  function GroupRun(s: string): (k: nat)
    ensures k <= |s|
  {
    if s != [] && IsGroupMark(s[0]) && DigitAt(s, 1) && DigitAt(s, 2) && DigitAt(s, 3) then 4 + GroupRun(s[4..]) else 0
  }

  function FractionLength(s: string): (k: nat)
    ensures k <= |s|
  {
    if s == [] || !IsMark(s[0]) || !DigitAt(s, 1) then 0
    else if DigitAt(s, 2) then 3
    else 2
  }

  /**
   The number pattern: one to three digits and groups, or else any digits; then a fraction. A mark
   must follow the leading digits at once, so groups need a run of at most three digits. 0 is no match.
   */
  function TokenLength(s: string): (k: nat)
    ensures k <= |s|
  {
    var lead := DigitRun(s);
    if lead == 0 then 0
    else
      var whole := lead + if lead <= 3 then GroupRun(s[lead..]) else 0;
      whole + FractionLength(s[whole..])
  }

  predicate IsDateMark(c: char) {
    c == '-' || c == '/' || c == '.'
  }

  // ----- octet offsets of characters

  function Utf8Length(c: char): (n: nat)
    ensures 1 <= n <= 4
  {
    if c < '\U{80}' then 1 else if c < '\U{800}' then 2 else if c < '\U{10000}' then 3 else 4
  }

  function OctetsBefore(s: string, i: nat): nat
    requires i <= |s|
  {
    if i == 0 then 0 else OctetsBefore(s, i - 1) + Utf8Length(s[i - 1])
  }

  lemma {:induction false} OctetsGrow(s: string, i: nat, j: nat)
    requires i < j <= |s|
    ensures OctetsBefore(s, i) < OctetsBefore(s, j)
  {
    if i < j - 1 {
      OctetsGrow(s, i, j - 1);
    }
  }

  /** The last character boundary at or before an offset, searched from boundary i down. */
  function BoundaryDown(s: string, at: nat, i: nat): (b: nat)
    requires i <= |s|
    ensures b <= i && OctetsBefore(s, b) <= at
    ensures b < i ==> at < OctetsBefore(s, b + 1)
  {
    if OctetsBefore(s, i) <= at then i else BoundaryDown(s, at, i - 1)
  }

  /** The first character boundary at or behind an offset, or the end, searched from boundary i up. */
  function BoundaryUp(s: string, at: nat, i: nat): (b: nat)
    requires i <= |s|
    ensures i <= b <= |s| && (b < |s| ==> OctetsBefore(s, b) >= at)
    ensures i < b ==> OctetsBefore(s, b - 1) < at
    decreases |s| - i
  {
    if i == |s| || OctetsBefore(s, i) >= at then i else BoundaryUp(s, at, i + 1)
  }

  /** The two date patterns, year first and year last. */
  predicate DateAt(s: string, i: nat, yearFirst: bool) {
    var p, q := if yearFirst then i + 4 else i + 2, if yearFirst then i + 7 else i + 5;
    && i + 10 <= |s|
    && forall j :: i <= j < i + 10 ==> if j == p || j == q then IsDateMark(s[j]) else IsDigit(s[j])
  }

  /** Some match of the pattern, found from left to right without overlaps, meets the range of octets. */
  predicate MeetsDate(s: string, from: nat, yearFirst: bool, start: nat, end: nat)
    decreases |s| - from
  {
    if from + 10 > |s| then false
    else if DateAt(s, from, yearFirst) then
      || (start < OctetsBefore(s, from + 10) && end > OctetsBefore(s, from))
      || MeetsDate(s, from + 10, yearFirst, start, end)
    else MeetsDate(s, from + 1, yearFirst, start, end)
  }

  predicate InDate(s: string, start: nat, end: nat) {
    MeetsDate(s, 0, true, start, end) || MeetsDate(s, 0, false, start, end)
  }

  predicate IsYear(token: string) {
    && |Trim(token)| == 4
    && AllDigits(Trim(token))
    && 1900 <= ValueOf(Trim(token)) <= 2099
  }

  // ----- candidates

  function Score(amount: real, near: Near): int {
    (if near.currency then 8 else 0) + (if near.positive then 4 else 0) - (if near.negative then 6 else 0)
    - (if amount < 1.0 then 3 else 0) - (if amount > MAX_REALISTIC_PRICE then 20 else 0)
  }

  /** The lowered text within twenty octets of a range of octets, widened to whole characters. */
  function Window(lowered: string, start: nat, end: nat): string
    requires start <= end
  {
    var from, to := BoundaryDown(lowered, Max(0, start - 20), |lowered|), BoundaryUp(lowered, end + 20, 0);
    WindowIsOrdered(lowered, start, end);
    lowered[from..to]
  }

  lemma WindowIsOrdered(s: string, start: nat, end: nat)
    requires start <= end
    ensures BoundaryDown(s, Max(0, start - 20), |s|) <= BoundaryUp(s, end + 20, 0)
  {
    var from, to := BoundaryDown(s, Max(0, start - 20), |s|), BoundaryUp(s, end + 20, 0);
    if to < from {
      OctetsGrow(s, to, from);
    }
  }

  function NearOf(w: Letters, context: string): Near {
    Near(HasCurrency(w, context), HasAny(context, PRICE_CONTEXT_POSITIVE), HasAny(context, PRICE_CONTEXT_NEGATIVE))
  }

  /** Offsets are taken in the text itself and applied to the lowered one. */
  function NearNumber(w: Letters, raw: string, start: nat, end: nat): Near
    requires start <= end <= |raw|
  {
    OctetsInOrder(raw, start, end);
    NearOf(w, Window(Lowered(w, raw), OctetsBefore(raw, start), OctetsBefore(raw, end)))
  }

  lemma OctetsInOrder(s: string, i: nat, j: nat)
    requires i <= j <= |s|
    ensures OctetsBefore(s, i) <= OctetsBefore(s, j)
  {
    if i < j {
      OctetsGrow(s, i, j);
    }
  }

  /** What a number with these words around it contributes. */
  function JudgedToken(token: string, near: Near): seq<Candidate> {
    var parsed := ParseNumberToken(token);
    if parsed.None? then []
    else if IsYear(token) && !near.currency then []
    else if parsed.value > MAX_REALISTIC_PRICE && !near.currency then []
    else [Candidate(parsed.value, Score(parsed.value, near))]
  }

  /** What a matched number contributes; numbers inside dates contribute nothing. */
  function Judge(w: Letters, raw: string, start: nat, end: nat): seq<Candidate>
    requires start <= end <= |raw|
  {
    if InDate(Lowered(w, raw), OctetsBefore(raw, start), OctetsBefore(raw, end)) then []
    else JudgedToken(raw[start..end], NearNumber(w, raw, start, end))
  }

  function CandidatesFrom(w: Letters, raw: string, from: nat): seq<Candidate>
    requires from <= |raw|
    decreases |raw| - from
  {
    if from == |raw| then []
    else
      var k := TokenLength(raw[from..]);
      if k == 0 then CandidatesFrom(w, raw, from + 1)
      else Judge(w, raw, from, from + k) + CandidatesFrom(w, raw, from + k)
  }

  /** The sort order of candidates: the score first, then the larger amount. */
  predicate Precedes(a: Candidate, b: Candidate) {
    a.score > b.score || (a.score == b.score && a.amount > b.amount)
  }

  function Best(candidates: seq<Candidate>): Candidate
    requires candidates != []
  {
    var n := |candidates| - 1;
    if n == 0 then candidates[0]
    else
      var before := Best(candidates[..n]);
      if Precedes(candidates[n], before) then candidates[n] else before
  }

  function Choose(candidates: seq<Candidate>): Option<real> {
    if candidates == [] || Best(candidates).amount > MAX_REALISTIC_PRICE then None else Some(Best(candidates).amount)
  }

  /** The three typographic spaces become plain ones. */
  function Unify(s: string): string {
    Swap(Swap(Swap(s, '\U{00A0}', ' '), '\U{2009}', ' '), '\U{202F}', ' ')
  }

  function PriceIn(w: Letters, text: string): Option<real> {
    Choose(CandidatesFrom(w, Unify(Trim(text)), 0))
  }

  method CollectCandidates(w: Letters, raw: string) returns (candidates: seq<Candidate>)
    ensures candidates == CandidatesFrom(w, raw, 0)
  {
    hide *;
    candidates := [];
    var from := 0;
    ghost var all := CandidatesFrom(w, raw, 0);
    while from < |raw|
      invariant 0 <= from <= |raw|
      invariant candidates + CandidatesFrom(w, raw, from) == all
    {
      var k := TokenLength(raw[from..]);
      ScanStep(w, raw, from);
      if k == 0 {
        from := from + 1;
      } else {
        var judged := Judge(w, raw, from, from + k);
        Regroup(candidates, judged, CandidatesFrom(w, raw, from + k));
        candidates := candidates + judged;
        from := from + k;
      }
    }
    ScanEnd(w, raw);
    assert candidates + [] == candidates;
  }

  method ParsePriceText(w: Letters, text: string) returns (r: Option<real>)
    ensures r == PriceIn(w, text)
  {
    if text == [] {
      EmptyText(w);
      return None;
    }
    var candidates := CollectCandidates(w, Unify(Trim(text)));
    r := Choose(candidates);
    hide Unify, Trim, Choose, CandidatesFrom;
  }

  lemma ScanStep(w: Letters, raw: string, from: nat)
    requires from < |raw|
    ensures var k := TokenLength(raw[from..]);
      CandidatesFrom(w, raw, from)
      == if k == 0 then CandidatesFrom(w, raw, from + 1)
         else Judge(w, raw, from, from + k) + CandidatesFrom(w, raw, from + k)
  {
    hide Judge, TokenLength;
  }

  lemma ScanEnd(w: Letters, raw: string)
    ensures CandidatesFrom(w, raw, |raw|) == []
  {
  }

  lemma EmptyText(w: Letters)
    ensures PriceIn(w, []) == None
  {
  }

  lemma {:induction false} BestLeads(candidates: seq<Candidate>)
    requires candidates != []
    ensures Best(candidates) in candidates
    ensures forall c :: c in candidates ==> !Precedes(c, Best(candidates))
  {
    var n := |candidates| - 1;
    if n > 0 {
      BestLeads(candidates[..n]);
      assert candidates == candidates[..n] + [candidates[n]];
    }
  }

  predicate AllPositive(found: seq<Candidate>) {
    forall c :: c in found ==> c.amount > 0.0
  }

  lemma NonePositive()
    ensures AllPositive([])
  {
  }

  lemma PositiveJoin(a: seq<Candidate>, b: seq<Candidate>)
    requires AllPositive(a) && AllPositive(b)
    ensures AllPositive(a + b)
  {
  }

  lemma JudgePositive(w: Letters, raw: string, start: nat, end: nat)
    requires start <= end <= |raw|
    ensures AllPositive(Judge(w, raw, start, end))
  {
    hide Trim, Squeeze, Normalize, ParseDecimal, InDate, IsYear, Score;
  }

  lemma {:induction false} CandidatesPositive(w: Letters, raw: string, from: nat)
    requires from <= |raw|
    ensures AllPositive(CandidatesFrom(w, raw, from))
    decreases |raw| - from
  {
    hide *;
    if from == |raw| {
      ScanEnd(w, raw);
      NonePositive();
    } else {
      var k := TokenLength(raw[from..]);
      ScanStep(w, raw, from);
      if k == 0 {
        CandidatesPositive(w, raw, from + 1);
      } else {
        CandidatesPositive(w, raw, from + k);
        JudgePositive(w, raw, from, from + k);
        PositiveJoin(Judge(w, raw, from, from + k), CandidatesFrom(w, raw, from + k));
      }
    }
  }

  /** Whatever sort by score and amount is used, its first element is the best candidate. */
  lemma BestHeadsEverySort(candidates: seq<Candidate>, sorted: seq<Candidate>)
    requires candidates != [] && multiset(sorted) == multiset(candidates)
    requires forall i, j :: 0 <= i < j < |sorted| ==> !Precedes(sorted[j], sorted[i])
    ensures sorted != [] && sorted[0] == Best(candidates)
  {
    BestLeads(candidates);
    assert Best(candidates) in multiset(sorted);
    assert sorted[0] in multiset(candidates);
    var i :| 0 <= i < |sorted| && sorted[i] == Best(candidates);
    assert !Precedes(sorted[0], Best(candidates));
    assert i > 0 ==> !Precedes(sorted[i], sorted[0]);
    hide Best;
  }

  /** A returned price is a positive, realistic candidate that no other candidate beats. */
  lemma PriceWins(w: Letters, text: string)
    ensures var found, price := CandidatesFrom(w, Unify(Trim(text)), 0), PriceIn(w, text);
      && (price.Some? ==> 0.0 < price.value <= MAX_REALISTIC_PRICE)
      && (price.Some? ==> exists c :: c in found && c.amount == price.value && Unbeaten(c, found))
      && (price.None? ==> found == [] || exists c :: c in found && c.amount > MAX_REALISTIC_PRICE && Unbeaten(c, found))
  {
    var found := CandidatesFrom(w, Unify(Trim(text)), 0);
    CandidatesPositive(w, Unify(Trim(text)), 0);
    if found != [] {
      BestLeads(found);
    }
    hide CandidatesFrom, Unify, Trim, Best, Precedes;
  }

  predicate Unbeaten(c: Candidate, found: seq<Candidate>) {
    forall d :: d in found ==> !Precedes(d, c)
  }
}
