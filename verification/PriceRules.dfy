/**
 Which number of a text is its price, said without scores and scans: numbers compete unless they stand in a
 date, pass for a bare year or are too large; the words around them and their size decide who comes first.
 */
module PriceRules {
  import opened Common
  import opened Decimals
  import opened CurrencyWords
  import opened PriceNumbers
  import opened PriceText
  import opened PriceRoundTrip

  // ----- the numbers of a text

  /** First and one-past-last position of each number the pattern finds from left to right. */
  function Spans(raw: string, from: nat): (spans: seq<(nat, nat)>)
    requires from <= |raw|
    ensures forall i :: 0 <= i < |spans| ==> from <= spans[i].0 <= spans[i].1 <= |raw|
    decreases |raw| - from
  {
    if from == |raw| then []
    else
      var k := TokenLength(raw[from..]);
      if k == 0 then Spans(raw, from + 1) else [(from, from + k)] + Spans(raw, from + k)
  }

  /** The number a..b of the text has this amount and may be a price. */
  predicate Eligible(w: Letters, raw: string, a: nat, b: nat, amount: real)
    requires a <= b <= |raw|
  {
    && ParseNumberToken(raw[a..b]) == Some(amount)
    && !InDate(Lowered(w, raw), OctetsBefore(raw, a), OctetsBefore(raw, b))
    && (NearNumber(w, raw, a, b).currency || (!IsYear(raw[a..b]) && amount <= 5000000.0))
  }

  predicate Competes(w: Letters, raw: string, a: nat, b: nat, amount: real) {
    a <= b <= |raw| && (a, b) in Spans(raw, 0) && Eligible(w, raw, a, b, amount)
  }

  // ----- who comes first

  /**
   The places from first to last. Company counts before size: currency and a good word, currency alone, currency
   among mixed words, a good word, currency with a bad word, nothing, mixed words, a bad word; an amount below one
   steps back between them, one above five million goes behind almost everything.
   */
  function Place(near: Near, amount: real): nat {
    var c, p, n := near.currency, near.positive, near.negative;
    var small := amount < 1.0;
    if amount > 5000000.0 then (if p && !n then 15 else if !n then 17 else if p then 18 else 19)
    else if c && p && !n then (if small then 1 else 0)
    else if c && !p && !n then (if small then 4 else 2)
    else if c && p && n then (if small then 6 else 3)
    else if c then (if small then 10 else 7)
    else if p && !n then (if small then 8 else 5)
    else if !p && !n then (if small then 12 else 9)
    else if p then (if small then 13 else 11)
    else if small then 16 else 14
  }

  predicate Ahead(near: Near, amount: real, near': Near, amount': real) {
    Place(near, amount) < Place(near', amount') || (Place(near, amount) == Place(near', amount') && amount > amount')
  }

  /** The points a place stands for. */
  function Points(place: nat): int {
    if place == 0 then 12
    else if place == 1 then 9
    else if place == 2 then 8
    else if place == 3 then 6
    else if place == 4 then 5
    else if place < 10 then 9 - place
    else if place < 13 then 9 - place
    else if place == 13 then -5
    else if place == 14 then -6
    else if place == 15 then -8
    else if place == 16 then -9
    else if place == 17 then -12
    else if place == 18 then -14
    else -18
  }

  lemma ScoreIsPoints(near: Near, amount: real)
    requires amount > 5000000.0 ==> near.currency
    ensures Place(near, amount) < 20 && Score(amount, near) == Points(Place(near, amount))
  {
  }

  lemma PointsDescend(i: nat, j: nat)
    requires i < 20 && j < 20
    ensures Points(i) > Points(j) <==> i < j
  {
  }

  lemma AheadIsPrecedes(near: Near, amount: real, near': Near, amount': real)
    requires amount > 5000000.0 ==> near.currency
    requires amount' > 5000000.0 ==> near'.currency
    ensures Precedes(Candidate(amount, Score(amount, near)), Candidate(amount', Score(amount', near')))
      <==> Ahead(near, amount, near', amount')
  {
    ScoreIsPoints(near, amount);
    ScoreIsPoints(near', amount');
    PointsDescend(Place(near, amount), Place(near', amount'));
    PointsDescend(Place(near', amount'), Place(near, amount));
    hide Points, Place, Score;
  }

  // ----- competitors are the candidates

  lemma JudgeIsEligible(w: Letters, raw: string, a: nat, b: nat)
    requires a <= b <= |raw|
    ensures var near := NearNumber(w, raw, a, b);
      && (forall c :: c in Judge(w, raw, a, b) ==> Eligible(w, raw, a, b, c.amount) && c.score == Score(c.amount, near))
      && (forall x :: Eligible(w, raw, a, b, x) ==> Candidate(x, Score(x, near)) in Judge(w, raw, a, b))
  {
    hide InDate, NearNumber, ParseNumberToken, IsYear, Score, OctetsBefore;
  }

  lemma {:induction false} CandidateSpan(w: Letters, raw: string, from: nat, c: Candidate) returns (a: nat, b: nat)
    requires from <= |raw| && c in CandidatesFrom(w, raw, from)
    ensures a <= b <= |raw| && (a, b) in Spans(raw, from)
    ensures Eligible(w, raw, a, b, c.amount) && c.score == Score(c.amount, NearNumber(w, raw, a, b))
    decreases |raw| - from
  {
    hide Eligible, Judge, TokenLength, NearNumber, Score;
    ScanStep(w, raw, from);
    var k := TokenLength(raw[from..]);
    if k == 0 {
      a, b := CandidateSpan(w, raw, from + 1, c);
    } else if c in Judge(w, raw, from, from + k) {
      JudgeIsEligible(w, raw, from, from + k);
      a, b := from, from + k;
    } else {
      a, b := CandidateSpan(w, raw, from + k, c);
    }
  }

  lemma {:induction false} SpanCandidate(w: Letters, raw: string, from: nat, a: nat, b: nat, x: real)
    requires from <= |raw| && a <= b <= |raw| && (a, b) in Spans(raw, from) && Eligible(w, raw, a, b, x)
    ensures Candidate(x, Score(x, NearNumber(w, raw, a, b))) in CandidatesFrom(w, raw, from)
    decreases |raw| - from
  {
    hide Eligible, Judge, TokenLength, NearNumber, Score;
    ScanStep(w, raw, from);
    var k := TokenLength(raw[from..]);
    if k == 0 {
      SpanCandidate(w, raw, from + 1, a, b, x);
    } else if (a, b) == (from, from + k) {
      JudgeIsEligible(w, raw, from, from + k);
    } else {
      SpanCandidate(w, raw, from + k, a, b, x);
    }
  }

  lemma EligibleIsUsual(w: Letters, raw: string, a: nat, b: nat, x: real)
    requires a <= b <= |raw| && Eligible(w, raw, a, b, x)
    ensures x > 5000000.0 ==> NearNumber(w, raw, a, b).currency
  {
    hide InDate, NearNumber, ParseNumberToken, IsYear, OctetsBefore;
  }

  // ----- the price

  /** The number a..b comes before every other competitor, or level with it. */
  ghost predicate Leads(w: Letters, raw: string, a: nat, b: nat, amount: real) {
    && Competes(w, raw, a, b, amount)
    && forall c, d, x :: Competes(w, raw, c, d, x) ==>
         !Ahead(NearNumber(w, raw, c, d), x, NearNumber(w, raw, a, b), amount)
  }

  lemma BestIsLeader(w: Letters, raw: string) returns (a: nat, b: nat)
    requires CandidatesFrom(w, raw, 0) != []
    ensures Leads(w, raw, a, b, Best(CandidatesFrom(w, raw, 0)).amount)
  {
    hide Eligible, Spans, CandidatesFrom, NearNumber, Score, Ahead, Precedes, Best;
    var found := CandidatesFrom(w, raw, 0);
    var best := Best(found);
    BestLeads(found);
    a, b := CandidateSpan(w, raw, 0, best);
    EligibleIsUsual(w, raw, a, b, best.amount);
    forall c, d, x | Competes(w, raw, c, d, x)
      ensures !Ahead(NearNumber(w, raw, c, d), x, NearNumber(w, raw, a, b), best.amount)
    {
      SpanCandidate(w, raw, 0, c, d, x);
      EligibleIsUsual(w, raw, c, d, x);
      AheadIsPrecedes(NearNumber(w, raw, c, d), x, NearNumber(w, raw, a, b), best.amount);
    }
  }

  lemma LeaderIsBest(w: Letters, raw: string, a: nat, b: nat, amount: real)
    requires Leads(w, raw, a, b, amount)
    ensures CandidatesFrom(w, raw, 0) != [] && Best(CandidatesFrom(w, raw, 0)).amount == amount
  {
    hide Eligible, Spans, CandidatesFrom, NearNumber, Score, Best, Place;
    var found := CandidatesFrom(w, raw, 0);
    SpanCandidate(w, raw, 0, a, b, amount);
    EligibleIsUsual(w, raw, a, b, amount);
    var best := Best(found);
    BestLeads(found);
    var c, d := CandidateSpan(w, raw, 0, best);
    EligibleIsUsual(w, raw, c, d, best.amount);
    assert Competes(w, raw, c, d, best.amount);
    AheadIsPrecedes(NearNumber(w, raw, c, d), best.amount, NearNumber(w, raw, a, b), amount);
    AheadIsPrecedes(NearNumber(w, raw, a, b), amount, NearNumber(w, raw, c, d), best.amount);
  }

  /**
   Main result: the price of a text is the amount of the leading number, and there is none exactly when no number
   competes or the leading one is above five million.
   */
  lemma PriceIsLeader(w: Letters, text: string)
    ensures var raw, price := Unify(Trim(text)), PriceIn(w, text);
      && (forall a, b, x :: Leads(w, raw, a, b, x) ==> price == if x > 5000000.0 then None else Some(x))
      && ((exists a, b, x :: Competes(w, raw, a, b, x)) ==> exists a, b, x :: Leads(w, raw, a, b, x))
      && (!(exists a, b, x :: Competes(w, raw, a, b, x)) ==> price == None)
  {
    hide Eligible, Spans, CandidatesFrom, NearNumber, Score, Ahead, Best, Unify, Trim;
    var raw, price := Unify(Trim(text)), PriceIn(w, text);
    var found := CandidatesFrom(w, raw, 0);
    forall a, b, x | Leads(w, raw, a, b, x) ensures price == if x > 5000000.0 then None else Some(x) {
      LeaderIsBest(w, raw, a, b, x);
    }
    if a, b, x :| Competes(w, raw, a, b, x) {
      SpanCandidate(w, raw, 0, a, b, x);
      var c, d := BestIsLeader(w, raw);
      assert Leads(w, raw, c, d, Best(found).amount);
    } else if found != [] {
      var c, d := BestIsLeader(w, raw);
      assert false;
    }
  }

  /** The same words near both numbers, but for one more that speaks for the first or against the second. */
  predicate BetterCompany(near: Near, near': Near) {
    || (near == near'.(currency := true) && !near'.currency)
    || (near == near'.(positive := true) && !near'.positive)
    || (near == near'.(negative := false) && near'.negative)
  }

  predicate Ordinary(w: Letters, raw: string, a: nat, b: nat, amount: real) {
    Competes(w, raw, a, b, amount) && 1.0 <= amount <= 5000000.0
  }

  /** Of two numbers between one and five million alike in all but their company, the better company is the price. */
  lemma CompanyDecides(w: Letters, text: string, raw: string, a: nat, b: nat, x: real, c: nat, d: nat, y: real)
    requires raw == Unify(Trim(text)) && Ordinary(w, raw, a, b, x) && Ordinary(w, raw, c, d, y)
    requires forall e, f, z :: Competes(w, raw, e, f, z) ==>
      (e == a && f == b && z == x) || (e == c && f == d && z == y)
    requires BetterCompany(NearNumber(w, raw, a, b), NearNumber(w, raw, c, d))
    ensures PriceIn(w, text) == Some(x)
  {
    hide *;
    OrdinaryCompetes(w, raw, a, b, x);
    OrdinaryCompetes(w, raw, c, d, y);
    var near, near' := NearNumber(w, raw, a, b), NearNumber(w, raw, c, d);
    BetterIsAhead(near, x, near', y);
    NeverAheadOfItself(near, x);
    TwoLead(w, raw, a, b, x, c, d, y);
    PriceIsLeader(w, text);
  }

  lemma OrdinaryCompetes(w: Letters, raw: string, a: nat, b: nat, x: real)
    requires Ordinary(w, raw, a, b, x)
    ensures Competes(w, raw, a, b, x) && a <= b <= |raw| && 1.0 <= x <= 5000000.0
  {
    hide Eligible, Spans;
  }

  lemma BetterIsAhead(near: Near, x: real, near': Near, y: real)
    requires BetterCompany(near, near') && 1.0 <= x <= 5000000.0 && 1.0 <= y <= 5000000.0
    ensures !Ahead(near', y, near, x)
  {
  }

  lemma NeverAheadOfItself(near: Near, x: real)
    ensures !Ahead(near, x, near, x)
  {
    hide Place;
  }

  lemma TwoLead(w: Letters, raw: string, a: nat, b: nat, x: real, c: nat, d: nat, y: real)
    requires Competes(w, raw, a, b, x) && a <= b <= |raw| && c <= d <= |raw|
    requires forall e, f, z :: Competes(w, raw, e, f, z) ==>
      (e == a && f == b && z == x) || (e == c && f == d && z == y)
    requires !Ahead(NearNumber(w, raw, c, d), y, NearNumber(w, raw, a, b), x)
    requires !Ahead(NearNumber(w, raw, a, b), x, NearNumber(w, raw, a, b), x)
    ensures Leads(w, raw, a, b, x)
  {
    hide Eligible, Spans, NearNumber, Ahead;
  }

  ghost predicate SpeaksFor(s: string) {
    || Includes(s, "price") || Includes(s, "цена") || Includes(s, "стоимость") || Includes(s, "total")
    || Includes(s, "итого") || Includes(s, "sale") || Includes(s, "our price")
  }

  ghost predicate SpeaksAgainst(s: string) {
    || Includes(s, "%") || Includes(s, "cashback") || Includes(s, "кэшбэк") || Includes(s, "bonus")
    || Includes(s, "бонус") || Includes(s, "скидка") || Includes(s, "discount") || Includes(s, "save")
    || Includes(s, "эконом")
  }

  /** Which words speak for a number and which against it. */
  lemma ContextWords(w: Letters, context: string)
    ensures NearOf(w, context).currency <==> HasCurrency(w, context)
    ensures NearOf(w, context).positive <==> SpeaksFor(context)
    ensures NearOf(w, context).negative <==> SpeaksAgainst(context)
  {
    hide Includes, Contains, HasCurrency, HasAny;
    forall part ensures Includes(context, part) <==> Contains(context, part) {
      IncludesIsContains(context, part);
    }
    GoodWords(context);
    BadWords(context);
  }

  lemma GoodWords(context: string)
    ensures HasAny(context, PRICE_CONTEXT_POSITIVE)
      <==> Contains(context, "price") || Contains(context, "цена") || Contains(context, "стоимость")
           || Contains(context, "total") || Contains(context, "итого") || Contains(context, "sale")
           || Contains(context, "our price")
  {
    hide Contains;
    var words := PRICE_CONTEXT_POSITIVE;
    assert |words| == 7;
    assert words[0] == "price" && words[1] == "цена" && words[2] == "стоимость" && words[3] == "total";
    assert words[4] == "итого" && words[5] == "sale" && words[6] == "our price";
    hide PRICE_CONTEXT_POSITIVE;
  }

  lemma BadWords(context: string)
    ensures HasAny(context, PRICE_CONTEXT_NEGATIVE)
      <==> Contains(context, "%") || Contains(context, "cashback") || Contains(context, "кэшбэк")
           || Contains(context, "bonus") || Contains(context, "бонус") || Contains(context, "скидка")
           || Contains(context, "discount") || Contains(context, "save") || Contains(context, "эконом")
  {
    hide Contains;
    var words := PRICE_CONTEXT_NEGATIVE;
    assert |words| == 9;
    assert words[0] == "%" && words[1] == "cashback" && words[2] == "кэшбэк" && words[3] == "bonus";
    assert words[4] == "бонус" && words[5] == "скидка" && words[6] == "discount" && words[7] == "save";
    assert words[8] == "эконом";
    hide PRICE_CONTEXT_NEGATIVE;
  }

  /** The octets of a character by the bits of its code point: section 3 of RFC 3629. */
  lemma OctetsByBits(c: char)
    ensures Utf8Length(c) <= 1 <==> c as int < Pow2(7)
    ensures Utf8Length(c) <= 2 <==> c as int < Pow2(11)
    ensures Utf8Length(c) <= 3 <==> c as int < Pow2(16)
    ensures Utf8Length(c) <= 4
  {
    assert Pow2(7) == 128 && Pow2(11) == 16 * Pow2(7) && Pow2(16) == 32 * Pow2(11);
  }

  function Pow2(n: nat): nat {
    if n == 0 then 1 else 2 * Pow2(n - 1)
  }

  /** The 25 white space characters of Unicode, by code point. */
  lemma WhiteSpace(c: char)
    ensures IsSpace(c) <==>
      var n := c as int;
      || 9 <= n <= 13 || n == 32 || n == 133 || n == 160 || n == 5760
      || 8192 <= n <= 8202 || n == 8232 || n == 8233 || n == 8239 || n == 8287 || n == 12288
  {
  }

  /** from..to is the shortest stretch of whole characters that covers twenty octets around first..last. */
  predicate IsWindow(s: string, first: nat, last: nat, from: nat, to: nat) {
    && from <= to <= |s|
    && OctetsBefore(s, from) <= Max(0, first - 20)
    && (from < |s| ==> OctetsBefore(s, from + 1) > first - 20)
    && (to < |s| ==> OctetsBefore(s, to) >= last + 20)
    && (to > 0 ==> OctetsBefore(s, to - 1) < last + 20)
  }

  /** The words near a number are those in the lowered text within twenty octets of it. */
  lemma NearMeaning(w: Letters, raw: string, a: nat, b: nat) returns (from: nat, to: nat)
    requires a <= b <= |raw|
    ensures IsWindow(Lowered(w, raw), OctetsBefore(raw, a), OctetsBefore(raw, b), from, to)
    ensures NearNumber(w, raw, a, b) == NearOf(w, Lowered(w, raw)[from..to])
  {
    OctetsInOrder(raw, a, b);
    from, to := WindowMeaning(Lowered(w, raw), OctetsBefore(raw, a), OctetsBefore(raw, b));
    hide NearOf, Lowered, Window, OctetsBefore;
  }

  lemma WindowMeaning(s: string, first: nat, last: nat) returns (from: nat, to: nat)
    requires first <= last
    ensures IsWindow(s, first, last, from, to) && Window(s, first, last) == s[from..to]
  {
    from, to := BoundaryDown(s, Max(0, first - 20), |s|), BoundaryUp(s, last + 20, 0);
    WindowIsOrdered(s, first, last);
    hide BoundaryDown, BoundaryUp, OctetsBefore;
  }

  // ----- what counts as one number

  predicate Digit(s: string, i: nat) {
    i < |s| && '0' <= s[i] <= '9'
  }

  predicate Mark(s: string) {
    s != "" && (s[0] == ',' || s[0] == '.')
  }

  /** A comma or dot, or a plain, no-break, thin or narrow no-break space, and three digits. */
  predicate Group(s: string) {
    && (Mark(s) || (s != "" && (s[0] == ' ' || s[0] == '\U{00A0}' || s[0] == '\U{2009}' || s[0] == '\U{202F}')))
    && Digit(s, 1) && Digit(s, 2) && Digit(s, 3)
  }

  predicate Groups(s: string, n: nat) {
    n == 0 || (Group(s) && Groups(s[4..], n - 1))
  }

  /** As many groups as there are. */
  predicate AllGroups(s: string, n: nat) {
    4 * n <= |s| && Groups(s, n) && !Group(s[4 * n..])
  }

  /** A mark and two digits, or one, or no fraction. */
  function Fraction(s: string): nat {
    if Mark(s) && Digit(s, 1) then (if Digit(s, 2) then 3 else 2) else 0
  }

  /** All leading digits, behind three of them at most all groups, and a fraction if there is one. */
  predicate NumberParts(s: string, lead: nat, groups: nat) {
    && 1 <= lead <= |s| && (forall i :: 0 <= i < lead ==> Digit(s, i)) && !Digit(s, lead)
    && if lead <= 3 then AllGroups(s[lead..], groups) else groups == 0
  }

  lemma {:induction false} DigitRunIs(s: string)
    ensures forall i :: 0 <= i < DigitRun(s) ==> Digit(s, i)
    ensures !Digit(s, DigitRun(s))
  {
    if DigitAt(s, 0) {
      var rest := s[1..];
      DigitRunIs(rest);
      forall i: nat | 0 < i <= |s| ensures Digit(s, i) <==> Digit(rest, i - 1) {
        assert i < |s| ==> s[i] == rest[i - 1];
      }
      assert DigitRun(s) == 1 + DigitRun(rest);
    }
  }

  lemma {:induction false} GroupRunIs(s: string) returns (n: nat)
    ensures GroupRun(s) == 4 * n && AllGroups(s, n)
  {
    n := 0;
    assert s[0..] == s;
    if Group(s) {
      var rest := GroupRunIs(s[4..]);
      n := rest + 1;
      assert s[4..][4 * rest..] == s[4 * n..];
    }
  }

  /** The number pattern at the head of a text; without a leading digit there is no number. */
  lemma NumberShape(s: string)
    ensures TokenLength(s) == 0 <==> !Digit(s, 0)
    ensures Digit(s, 0) ==> exists lead: nat, groups: nat ::
      NumberParts(s, lead, groups) && lead + 4 * groups <= |s|
      && TokenLength(s) == lead + 4 * groups + Fraction(s[lead + 4 * groups..])
  {
    var lead := DigitRun(s);
    DigitRunIs(s);
    if Digit(s, 0) {
      var groups := 0;
      if lead <= 3 {
        groups := GroupRunIs(s[lead..]);
      }
      assert NumberParts(s, lead, groups);
      hide DigitRun, GroupRun, Groups, Group;
    }
  }
}
