/**
 The words around a price: currency symbols and codes, found as whole tokens, and the context words
 that make a number more or less likely to be a price.
 */
module CurrencyWords {
  import opened Common

  /** char::to_lowercase, one character for one, and the alphanumeric characters with the underscore. */
  datatype Letters = Letters(lower: char -> char, word: char -> bool)

  /** A token and the ISO code it stands for. */
  type CurrencyToken = (string, string)

  const CURRENCY_SYMBOLS: seq<CurrencyToken> := [
    ("€", "EUR"), ("$", "USD"), ("£", "GBP"), ("₴", "UAH"), ("₽", "RUB"), ("zł", "PLN"), ("₺", "TRY"),
    ("₸", "KZT"), ("₾", "GEL"), ("₼", "AZN"), ("лв", "BGN"), ("kč", "CZK"), ("kr", "SEK"), ("ft", "HUF"),
    ("lei", "RON"), ("din", "RSD"), ("ден", "MKD"), ("сўм", "UZS"), ("сом", "KGS"), ("br", "BYN")
  ]

  const CURRENCY_TEXT_CODES: seq<CurrencyToken> := [
    ("usd", "USD"), ("eur", "EUR"), ("gbp", "GBP"), ("uah", "UAH"), ("грн", "UAH"), ("rub", "RUB"),
    ("руб", "RUB"), ("р.", "RUB"), ("pln", "PLN"), ("ron", "RON"), ("try", "TRY"), ("tl", "TRY"),
    ("kzt", "KZT"), ("тг", "KZT"), ("тенге", "KZT"), ("byn", "BYN"), ("бел.руб", "BYN"), ("gel", "GEL"),
    ("azn", "AZN"), ("man", "AZN"), ("bgn", "BGN"), ("czk", "CZK"), ("sek", "SEK"), ("nok", "NOK"),
    ("dkk", "DKK"), ("huf", "HUF"), ("hrk", "HRK"), ("rsd", "RSD"), ("mdl", "MDL"), ("лей", "MDL"),
    ("лэй", "MDL"), ("chf", "CHF"), ("uzs", "UZS"), ("kgs", "KGS"), ("tjs", "TJS")
  ]

  const PRICE_CONTEXT_POSITIVE: seq<string> := [
    "price", "цена", "стоимость", "total", "итого", "sale", "our price"
  ]

  const PRICE_CONTEXT_NEGATIVE: seq<string> := [
    "%", "cashback", "кэшбэк", "bonus", "бонус", "скидка", "discount", "save", "эконом"
  ]

  function Lowered(w: Letters, s: string): (r: string)
    ensures |r| == |s| && forall i :: 0 <= i < |s| ==> r[i] == w.lower(s[i])
  {
    seq(|s|, i requires 0 <= i < |s| => w.lower(s[i]))
  }

  predicate WordEnd(word: char -> bool, text: string, i: int) {
    0 <= i < |text| ==> !word(text[i])
  }

  /** An occurrence with no word character on either side. */
  predicate WordAt(word: char -> bool, text: string, token: string, i: nat) {
    OccursAt(text, token, i) && WordEnd(word, text, i - 1) && WordEnd(word, text, i + |token|)
  }

  /** Each failed occurrence moves the search by one character, so overlapping ones are not lost. */
  method TokenWithBoundaries(word: char -> bool, text: string, token: string) returns (found: bool)
    requires token != []
    ensures found <==> exists i :: 0 <= i <= |text| && WordAt(word, text, token, i)
  {
    var from := 0;
    while true
      invariant 0 <= from <= |text|
      invariant forall i :: 0 <= i < from ==> !WordAt(word, text, token, i)
      decreases |text| - from
    {
      NextMatchMeaning(text, token, from);
      var next := NextMatch(text, token, from);
      if next.None? {
        return false;
      }
      var start := next.value;
      if WordEnd(word, text, start - 1) && WordEnd(word, text, start + |token|) {
        assert WordAt(word, text, token, start);
        return true;
      }
      from := start + 1;
    }
  }

  /** The token stands in the text as a whole word. */
  predicate HasToken(word: char -> bool, text: string, token: string) {
    exists i :: 0 <= i <= |text| && WordAt(word, text, token, i)
  }

  /** A one-character symbol counts wherever it stands, a longer one as a whole word only. */
  predicate SymbolMatches(w: Letters, text: string, symbol: string) {
    if |symbol| == 1 then Contains(text, symbol) else HasToken(w.word, Lowered(w, text), symbol)
  }

  predicate HasSymbol(w: Letters, text: string) {
    exists k :: 0 <= k < |CURRENCY_SYMBOLS| && SymbolMatches(w, text, CURRENCY_SYMBOLS[k].0)
  }

  predicate CodeMatches(w: Letters, text: string, k: nat)
    requires k < |CURRENCY_TEXT_CODES|
  {
    HasToken(w.word, Lowered(w, text), CURRENCY_TEXT_CODES[k].0)
  }

  predicate HasCode(w: Letters, text: string) {
    exists k :: 0 <= k < |CURRENCY_TEXT_CODES| && CodeMatches(w, text, k)
  }

  /** The text names a currency. */
  predicate HasCurrency(w: Letters, text: string) {
    HasSymbol(w, text) || HasCode(w, text)
  }

  predicate HasAny(text: string, markers: seq<string>) {
    exists k :: 0 <= k < |markers| && Contains(text, markers[k])
  }

  lemma TablesNotEmpty()
    ensures forall k :: 0 <= k < |CURRENCY_SYMBOLS| ==> CURRENCY_SYMBOLS[k].0 != []
    ensures forall k :: 0 <= k < |CURRENCY_TEXT_CODES| ==> CURRENCY_TEXT_CODES[k].0 != []
  {
  }

  /** str::contains by search. */
  method ContainsText(text: string, part: string) returns (found: bool)
    ensures found <==> Contains(text, part)
  {
    NextMatchMeaning(text, part, 0);
    found := NextMatch(text, part, 0).Some?;
  }

  /** The symbol found first in table order. */
  predicate FirstSymbol(w: Letters, text: string, code: string) {
    exists k ::
      && 0 <= k < |CURRENCY_SYMBOLS| && SymbolMatches(w, text, CURRENCY_SYMBOLS[k].0) && code == CURRENCY_SYMBOLS[k].1
      && forall j :: 0 <= j < k ==> !SymbolMatches(w, text, CURRENCY_SYMBOLS[j].0)
  }

  method ParseCurrencySymbol(w: Letters, text: string) returns (code: Option<string>)
    ensures code.Some? <==> HasSymbol(w, text)
    ensures code.Some? ==> FirstSymbol(w, text, code.value)
  {
    TablesNotEmpty();
    for k := 0 to |CURRENCY_SYMBOLS|
      invariant forall j :: 0 <= j < k ==> !SymbolMatches(w, text, CURRENCY_SYMBOLS[j].0)
    {
      var symbol, found := CURRENCY_SYMBOLS[k].0, false;
      if |symbol| == 1 {
        found := ContainsText(text, symbol);
      } else {
        found := TokenWithBoundaries(w.word, Lowered(w, text), symbol);
      }
      assert found == SymbolMatches(w, text, symbol);
      if found {
        return Some(CURRENCY_SYMBOLS[k].1);
      }
    }
    code := None;
  }

  // ----- textual codes, longest first

  function CodeLength(k: nat): nat
    requires k < |CURRENCY_TEXT_CODES|
  {
    |CURRENCY_TEXT_CODES[k].0|
  }

  /** Longer tokens come first, equally long ones in table order. */
  predicate TriedBefore(j: nat, k: nat)
    requires j < |CURRENCY_TEXT_CODES| && k < |CURRENCY_TEXT_CODES|
  {
    CodeLength(j) > CodeLength(k) || (CodeLength(j) == CodeLength(k) && j < k)
  }

  predicate InTable(ks: seq<nat>) {
    forall a :: 0 <= a < |ks| ==> ks[a] < |CURRENCY_TEXT_CODES|
  }

  predicate InTrialOrder(ks: seq<nat>)
    requires InTable(ks)
  {
    forall a, b :: 0 <= a < b < |ks| ==> TriedBefore(ks[a], ks[b])
  }

  /** A stable sort by descending length: the n-th token goes behind all earlier ones that are not shorter. */
  function InsertToken(k: nat, ks: seq<nat>): (r: seq<nat>)
    requires k < |CURRENCY_TEXT_CODES| && InTable(ks)
    ensures InTable(r)
  {
    if ks == [] then [k]
    else if CodeLength(ks[0]) >= CodeLength(k) then [ks[0]] + InsertToken(k, ks[1..])
    else [k] + ks
  }

  function ByLength(n: nat): (ks: seq<nat>)
    requires n <= |CURRENCY_TEXT_CODES|
    ensures InTable(ks)
  {
    if n == 0 then [] else InsertToken(n - 1, ByLength(n - 1))
  }

  lemma {:induction false} InsertKeepsMembers(k: nat, ks: seq<nat>)
    requires k < |CURRENCY_TEXT_CODES| && InTable(ks)
    ensures forall j :: j in InsertToken(k, ks) <==> j == k || j in ks
  {
    hide CodeLength;
    if ks != [] {
      InsertKeepsMembers(k, ks[1..]);
    }
  }

  lemma {:induction false} InsertKeepsRanked(k: nat, ks: seq<nat>)
    requires k < |CURRENCY_TEXT_CODES| && InTable(ks) && InTrialOrder(ks) && forall j :: j in ks ==> j < k
    ensures InTrialOrder(InsertToken(k, ks))
  {
    hide CodeLength;
    if ks != [] && CodeLength(ks[0]) >= CodeLength(k) {
      var rest := InsertToken(k, ks[1..]);
      RankedTail(ks);
      InsertKeepsRanked(k, ks[1..]);
      InsertKeepsMembers(k, ks[1..]);
      assert ks[0] in ks;
      forall b | 0 <= b < |rest| ensures TriedBefore(ks[0], rest[b]) {
        assert rest[b] in rest;
      }
      RankedCons(ks[0], rest);
    } else if ks != [] {
      RankedTail(ks);
      RankedCons(k, ks);
    }
  }

  lemma RankedTail(ks: seq<nat>)
    requires InTable(ks) && InTrialOrder(ks) && ks != []
    ensures InTable(ks[1..]) && InTrialOrder(ks[1..]) && forall j :: j in ks[1..] ==> j in ks && TriedBefore(ks[0], j)
  {
    hide TriedBefore;
    var rest := ks[1..];
    forall a | 0 <= a < |rest| ensures rest[a] == ks[a + 1] {
    }
    forall a, b | 0 <= a < b < |rest| ensures TriedBefore(rest[a], rest[b]) {
      assert TriedBefore(ks[a + 1], ks[b + 1]);
    }
  }

  lemma RankedCons(k: nat, ks: seq<nat>)
    requires k < |CURRENCY_TEXT_CODES| && InTable(ks) && InTrialOrder(ks)
    requires forall b :: 0 <= b < |ks| ==> TriedBefore(k, ks[b])
    ensures InTable([k] + ks) && InTrialOrder([k] + ks)
  {
    hide TriedBefore;
  }

  lemma {:induction false} ByLengthRanks(n: nat)
    requires n <= |CURRENCY_TEXT_CODES|
    ensures InTrialOrder(ByLength(n))
    ensures forall j: nat :: j in ByLength(n) <==> j < n
  {
    hide CodeLength, TriedBefore;
    if n > 0 {
      ByLengthRanks(n - 1);
      InsertKeepsRanked(n - 1, ByLength(n - 1));
      InsertKeepsMembers(n - 1, ByLength(n - 1));
    }
  }

  /** The longest matching token, the first one in the table among equally long ones. */
  predicate LongestCode(w: Letters, text: string, code: string) {
    exists k ::
      && 0 <= k < |CURRENCY_TEXT_CODES| && CodeMatches(w, text, k) && code == CURRENCY_TEXT_CODES[k].1
      && forall j :: 0 <= j < |CURRENCY_TEXT_CODES| && j != k && CodeMatches(w, text, j) ==> TriedBefore(k, j)
  }

  method ParseCurrencyCode(w: Letters, text: string) returns (code: Option<string>)
    ensures code.Some? <==> HasCode(w, text)
    ensures code.Some? ==> LongestCode(w, text, code.value)
  {
    hide HasToken, CodeLength, TriedBefore, ByLength;
    TablesNotEmpty();
    var order := ByLength(|CURRENCY_TEXT_CODES|);
    ByLengthRanks(|CURRENCY_TEXT_CODES|);
    for a := 0 to |order|
      invariant forall b :: 0 <= b < a ==> !CodeMatches(w, text, order[b])
    {
      var k := order[a];
      var found := TokenWithBoundaries(w.word, Lowered(w, text), CURRENCY_TEXT_CODES[k].0);
      TokenIsCode(w, text, k, found);
      if found {
        FirstIsLongest(w, text, order, a);
        return Some(CURRENCY_TEXT_CODES[k].1);
      }
    }
    NoneIsCode(w, text, order);
    code := None;
  }

  lemma NoneIsCode(w: Letters, text: string, order: seq<nat>)
    requires InTable(order) && forall j: nat :: j < |CURRENCY_TEXT_CODES| ==> j in order
    requires forall b :: 0 <= b < |order| ==> !CodeMatches(w, text, order[b])
    ensures !HasCode(w, text)
  {
    hide CodeMatches;
    forall k | 0 <= k < |CURRENCY_TEXT_CODES| ensures !CodeMatches(w, text, k) {
      assert k in order;
    }
  }

  lemma TokenIsCode(w: Letters, text: string, k: nat, found: bool)
    requires k < |CURRENCY_TEXT_CODES|
    requires found
      <==> exists i :: 0 <= i <= |Lowered(w, text)| && WordAt(w.word, Lowered(w, text), CURRENCY_TEXT_CODES[k].0, i)
    ensures found <==> CodeMatches(w, text, k)
  {
    hide WordAt, Lowered;
  }

  lemma FirstIsLongest(w: Letters, text: string, order: seq<nat>, a: nat)
    requires InTable(order) && InTrialOrder(order) && a < |order| && CodeMatches(w, text, order[a])
    requires forall j: nat :: j < |CURRENCY_TEXT_CODES| ==> j in order
    requires forall b :: 0 <= b < a ==> !CodeMatches(w, text, order[b])
    ensures LongestCode(w, text, CURRENCY_TEXT_CODES[order[a]].1)
  {
    hide CodeMatches, TriedBefore, CodeLength;
    var k := order[a];
    forall j | 0 <= j < |CURRENCY_TEXT_CODES| && j != k && CodeMatches(w, text, j) ensures TriedBefore(k, j) {
      assert j in order;
      var b :| 0 <= b < |order| && order[b] == j;
      assert a < b;
    }
  }

  /** detect_currency: symbols go first, then textual codes, longest first. */
  method DetectCurrency(w: Letters, text: string) returns (code: Option<string>)
    ensures code.Some? <==> HasSymbol(w, text) || HasCode(w, text)
    ensures code.Some? ==>
      if HasSymbol(w, text) then FirstSymbol(w, text, code.value) else LongestCode(w, text, code.value)
  {
    hide HasSymbol, HasCode, FirstSymbol, LongestCode;
    code := ParseCurrencySymbol(w, text);
    if code.None? {
      code := ParseCurrencyCode(w, text);
    }
  }

  // ----- the words, character by character

  predicate PartAt(text: string, part: string, k: nat) {
    k + |part| <= |text| && forall i :: 0 <= i < |part| ==> text[k + i] == part[i]
  }

  /** The part stands in the text, and no word character touches it. */
  predicate StandsAlone(word: char -> bool, text: string, part: string, k: nat) {
    && PartAt(text, part, k)
    && (k > 0 ==> !word(text[k - 1]))
    && (k + |part| < |text| ==> !word(text[k + |part|]))
  }

  ghost predicate Includes(text: string, part: string) {
    exists k :: PartAt(text, part, k)
  }

  ghost predicate IncludesWord(word: char -> bool, text: string, part: string) {
    exists k :: StandsAlone(word, text, part, k)
  }

  lemma StandsIsOccurs(text: string, part: string, k: nat)
    ensures PartAt(text, part, k) <==> OccursAt(text, part, k)
  {
    if PartAt(text, part, k) {
      assert text[k..k + |part|] == part;
    }
    if OccursAt(text, part, k) {
      var cut := text[k..k + |part|];
      forall i | 0 <= i < |part| ensures text[k + i] == part[i] {
        assert cut[i] == text[k + i];
      }
    }
  }

  lemma IncludesIsContains(text: string, part: string)
    ensures Includes(text, part) <==> Contains(text, part)
  {
    forall k: nat ensures PartAt(text, part, k) <==> OccursAt(text, part, k) {
      StandsIsOccurs(text, part, k);
    }
  }

  lemma WordMeaning(word: char -> bool, text: string, token: string)
    ensures HasToken(word, text, token) <==> IncludesWord(word, text, token)
  {
    forall k: nat ensures StandsAlone(word, text, token, k) <==> k <= |text| && WordAt(word, text, token, k) {
      StandsIsOccurs(text, token, k);
    }
  }

  /** A symbol of one character counts anywhere, a longer one as a word of the lowered text. */
  ghost predicate ShowsSymbol(w: Letters, text: string, symbol: string) {
    if |symbol| == 1 then symbol[0] in text else IncludesWord(w.word, Lowered(w, text), symbol)
  }

  lemma SymbolMeaning(w: Letters, text: string, symbol: string)
    ensures SymbolMatches(w, text, symbol) <==> ShowsSymbol(w, text, symbol)
  {
    if |symbol| == 1 {
      IncludesIsContains(text, symbol);
      if symbol[0] in text {
        var k :| 0 <= k < |text| && text[k] == symbol[0];
        assert PartAt(text, symbol, k);
      }
    } else {
      WordMeaning(w.word, Lowered(w, text), symbol);
    }
  }

  /** A text names a currency iff it shows a symbol or, lowered, holds a textual code as a word. */
  lemma CurrencyMeaning(w: Letters, text: string)
    ensures HasCurrency(w, text)
      <==> || (exists k :: 0 <= k < |CURRENCY_SYMBOLS| && ShowsSymbol(w, text, CURRENCY_SYMBOLS[k].0))
           || (exists k :: 0 <= k < |CURRENCY_TEXT_CODES|
                           && IncludesWord(w.word, Lowered(w, text), CURRENCY_TEXT_CODES[k].0))
  {
    hide SymbolMatches, HasToken, ShowsSymbol, IncludesWord, CURRENCY_SYMBOLS, CURRENCY_TEXT_CODES;
    forall k | 0 <= k < |CURRENCY_SYMBOLS|
      ensures SymbolMatches(w, text, CURRENCY_SYMBOLS[k].0) <==> ShowsSymbol(w, text, CURRENCY_SYMBOLS[k].0)
    {
      SymbolMeaning(w, text, CURRENCY_SYMBOLS[k].0);
    }
    forall k | 0 <= k < |CURRENCY_TEXT_CODES|
      ensures CodeMatches(w, text, k) <==> IncludesWord(w.word, Lowered(w, text), CURRENCY_TEXT_CODES[k].0)
    {
      WordMeaning(w.word, Lowered(w, text), CURRENCY_TEXT_CODES[k].0);
    }
    hide CodeMatches;
  }

  /** A euro sign anywhere decides, whatever else the text names. */
  lemma EuroSignDecides(w: Letters, text: string, code: string)
    requires '€' in text && FirstSymbol(w, text, code)
    ensures HasSymbol(w, text) && code == "EUR"
  {
    var i :| 0 <= i < |text| && text[i] == '€';
    assert text[i..i + 1] == "€";
    assert OccursAt(text, "€", i);
    assert SymbolMatches(w, text, CURRENCY_SYMBOLS[0].0);
  }

  /** Belarusian roubles are not taken for Russian ones, although their abbreviation ends in the same word. */
  lemma LongerAbbreviationDecides(w: Letters, text: string, code: string)
    requires HasToken(w.word, Lowered(w, text), "бел.руб") && LongestCode(w, text, code)
    ensures code == "BYN"
  {
    hide HasToken;
    assert CURRENCY_TEXT_CODES[16] == ("бел.руб", "BYN");
    assert CodeMatches(w, text, 16);
    LongestToken();
    hide CodeMatches, CURRENCY_TEXT_CODES;
  }

  lemma LongestToken()
    ensures |CURRENCY_TEXT_CODES| == 35
    ensures forall k :: 0 <= k < |CURRENCY_TEXT_CODES| && k != 16 ==>
      |CURRENCY_TEXT_CODES[k].0| < |CURRENCY_TEXT_CODES[16].0|
  {
  }
}
