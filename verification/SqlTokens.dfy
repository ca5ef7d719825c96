/**
 What the splitter does to a batch, said on the batch itself: quoted sections, dollar-quoted bodies and
 placeholders stay whole, the semicolons between them cut, and a statement is the text between two cuts
 without the white space around it.
 */
module SqlTokens {
  import opened SqlSplitter

  // ----- trimming

  predicate Blank(k: CharClass, s: string) {
    forall i :: 0 <= i < |s| ==> k.space(s[i])
  }

  /** t is s without the white space at its ends. */
  predicate IsTrimOf(k: CharClass, s: string, t: string, i: int, j: int) {
    && 0 <= i < j <= |s| && t == s[i..j]
    && Blank(k, s[..i]) && !k.space(s[i])
    && Blank(k, s[j..]) && !k.space(s[j - 1])
  }

  /** The statements are the pieces that are not blank, trimmed, in their order. */
  ghost predicate AreTrims(k: CharClass, pieces: seq<string>, statements: seq<string>) {
    if pieces == [] then statements == []
    else if Blank(k, pieces[0]) then AreTrims(k, pieces[1..], statements)
    else
      && statements != []
      && (exists i, j :: IsTrimOf(k, pieces[0], statements[0], i, j))
      && AreTrims(k, pieces[1..], statements[1..])
  }

  lemma {:induction false} StripLeftIs(k: CharClass, s: string) returns (i: nat)
    ensures i <= |s| && StripLeft(k, s) == s[i..] && Blank(k, s[..i])
    ensures i < |s| ==> !k.space(s[i])
  {
    i := 0;
    if s != "" && k.space(s[0]) {
      var rest := StripLeftIs(k, s[1..]);
      i := rest + 1;
      assert s[1..][rest..] == s[i..];
      assert forall a :: 0 < a < i ==> s[a] == s[1..][..rest][a - 1];
    }
  }

  lemma {:induction false} StripRightIs(k: CharClass, s: string) returns (j: nat)
    ensures j <= |s| && StripRight(k, s) == s[..j] && Blank(k, s[j..])
    ensures j > 0 ==> !k.space(s[j - 1])
    decreases |s|
  {
    j := |s|;
    if s != "" && k.space(s[|s| - 1]) {
      var t := s[..|s| - 1];
      j := StripRightIs(k, t);
      assert t[..j] == s[..j];
      assert forall a :: 0 <= a < |t[j..]| ==> t[j..][a] == s[j..][a];
    }
  }

  /** Trimming takes away the white space at both ends and nothing else. */
  lemma StripExactly(k: CharClass, s: string)
    ensures if Blank(k, s) then Strip(k, s) == "" else exists i, j :: IsTrimOf(k, s, Strip(k, s), i, j)
  {
    var i := StripLeftIs(k, s);
    var l := s[i..];
    var j := StripRightIs(k, l);
    if i == |s| {
      assert s[..i] == s;
      assert l == "";
    } else {
      assert l[0] == s[i];
      assert !Blank(k, s) && !Blank(k, l);
      assert l[0..] == l;
      assert l[..j] == s[i..i + j] && l[j..] == s[i + j..];
      assert l[j - 1] == s[i + j - 1];
      assert IsTrimOf(k, s, Strip(k, s), i, i + j);
    }
  }

  lemma {:induction false} CleanTrims(k: CharClass, pieces: seq<string>)
    ensures AreTrims(k, pieces, Clean(k, pieces))
  {
    if pieces != [] {
      var t := Strip(k, pieces[0]);
      StripExactly(k, pieces[0]);
      CleanTrims(k, pieces[1..]);
      hide Strip, Blank;
      var cleaned, rest := Clean(k, pieces), Clean(k, pieces[1..]);
      if Blank(k, pieces[0]) {
        assert cleaned == rest;
      } else {
        var i, j :| IsTrimOf(k, pieces[0], t, i, j);
        assert cleaned == [t] + rest;
        assert cleaned[0] == t && cleaned[1..] == rest;
      }
    }
  }

  /** Every text is its statements again, once the white space around them and the semicolons are put back. */
  lemma StatementsRestoreText(k: CharClass, sql: string)
    ensures Join(Cuts(k, Neutral, sql)) == sql
    ensures AreTrims(k, Cuts(k, Neutral, sql), Split(k, sql))
  {
    CutsSound(k, Neutral, sql);
    CleanTrims(k, Cuts(k, Neutral, sql));
  }

  // ----- the parts of a batch

  datatype Token =
    | Words(text: string)
    | SingleQuoted(body: string)
    | DoubleQuoted(body: string)
    | DollarQuoted(tag: string, body: string)
    | Placeholder(word: string)
    | Semicolon

  predicate Word(k: CharClass, s: string) {
    forall i :: 0 <= i < |s| ==> k.alnum(s[i]) || s[i] == '_'
  }

  function TokenText(t: Token): string {
    match t
    case Words(text) => text
    case SingleQuoted(body) => "'" + body + "'"
    case DoubleQuoted(body) => "\"" + body + "\""
    case DollarQuoted(tag, body) => "$" + tag + "$" + body + "$" + tag + "$"
    case Placeholder(word) => "$" + word
    case Semicolon => ";"
  }

  predicate Occurs(s: string, t: string, i: int) {
    0 <= i && i + |t| <= |s| && s[i..i + |t|] == t
  }

  /** The closing tag does not show before the end of the body. */
  ghost predicate ClosesAtEnd(body: string, closing: string) {
    forall i :: Occurs(body + closing, closing, i) ==> i == |body|
  }

  ghost predicate IsToken(k: CharClass, t: Token) {
    match t
    case Words(text) => text != "" && forall i :: 0 <= i < |text| ==> text[i] !in "'\"$;"
    case SingleQuoted(body) => '\'' !in body
    case DoubleQuoted(body) => '"' !in body
    case DollarQuoted(tag, body) => Word(k, tag) && ClosesAtEnd(body, "$" + tag + "$")
    case Placeholder(word) => Word(k, word)
    case Semicolon => true
  }

  /** A placeholder ends where its word does. */
  predicate Separated(k: CharClass, t: Token, next: Token) {
    t.Placeholder? ==> TokenText(next) != "" && TokenText(next)[0] != '$' && !Word(k, [TokenText(next)[0]])
  }

  ghost predicate IsBatch(k: CharClass, tokens: seq<Token>) {
    && (forall i :: 0 <= i < |tokens| ==> IsToken(k, tokens[i]))
    && forall i :: 0 <= i < |tokens| - 1 ==> Separated(k, tokens[i], tokens[i + 1])
  }

  function BatchText(tokens: seq<Token>): string {
    if tokens == [] then "" else TokenText(tokens[0]) + BatchText(tokens[1..])
  }

  /** The texts between the semicolons that are tokens of their own. */
  function Between(tokens: seq<Token>): (pieces: seq<string>)
    ensures pieces != []
  {
    if tokens == [] then [""]
    else if tokens[0] == Semicolon then [""] + Between(tokens[1..])
    else Prepend(TokenText(tokens[0]), Between(tokens[1..]))
  }

  // ----- the automaton on one token

  /** The automaton is between tokens: neutral, or behind a placeholder that the next character ends. */
  predicate Ready(k: CharClass, m: Mode, rest: string) {
    m.Neutral? || (m.Probe? && (rest == "" || (rest[0] != '$' && !WordChar(k, rest[0]))))
  }

  /** Reading x as a whole: no cut, and neutral again behind it. */
  predicate ReadsWhole(k: CharClass, m: Mode, x: string) {
    NoCut(k, m, x) && Run(k, m, x) == Neutral
  }

  lemma ReadyStep(k: CharClass, m: Mode, s: string)
    requires Ready(k, m, s) && s != ""
    ensures Step(k, m, s[0]) == NeutralStep(s[0])
  {
  }

  lemma {:induction false} WordsPass(k: CharClass, m: Mode, s: string)
    requires s != "" && Ready(k, m, s) && forall i :: 0 <= i < |s| ==> s[i] !in "'\"$;"
    ensures ReadsWhole(k, m, s)
    decreases |s|
  {
    ReadyStep(k, m, s);
    assert s[0] in s;
    if |s| > 1 {
      WordsPass(k, Neutral, s[1..]);
    } else {
      assert s[1..] == "";
    }
  }

  lemma {:induction false} SinglePasses(k: CharClass, body: string)
    requires '\'' !in body
    ensures ReadsWhole(k, Single, body + "'")
    decreases |body|
  {
    if body == "" {
      assert (body + "'")[1..] == "";
    } else {
      assert (body + "'")[1..] == body[1..] + "'";
      SinglePasses(k, body[1..]);
    }
  }

  lemma {:induction false} DoublePasses(k: CharClass, body: string)
    requires '"' !in body
    ensures ReadsWhole(k, Double, body + "\"")
    decreases |body|
  {
    if body == "" {
      assert (body + "\"")[1..] == "";
    } else {
      assert (body + "\"")[1..] == body[1..] + "\"";
      DoublePasses(k, body[1..]);
    }
  }

  /** Behind an opening dollar, a word is read without leaving the probe. */
  lemma {:induction false} ProbeReads(k: CharClass, seen: string, word: string, rest: string)
    requires Word(k, word) && forall c :: WordChar(k, c) ==> c != '$' && c != ';'
    ensures Run(k, Probe(seen), word + rest) == Run(k, Probe(seen + word), rest)
    ensures NoCut(k, Probe(seen), word + rest) == NoCut(k, Probe(seen + word), rest)
    decreases |word|
  {
    if word == "" {
      assert word + rest == rest && seen + word == seen;
    } else {
      var s := word + rest;
      assert s[0] == word[0] && s[1..] == word[1..] + rest;
      assert WordChar(k, s[0]);
      ProbeReads(k, seen + [word[0]], word[1..], rest);
      assert seen + [word[0]] + word[1..] == seen + word;
    }
  }

  /** Inside a dollar quote: done characters of the body are read, the rest and the closing tag are to come. */
  lemma {:induction false} DollarPasses(k: CharClass, tag: string, done: string, rest: string)
    requires tag != "" && rest != ""
    requires EndsWith(done + rest, tag)
    requires forall n :: |done| < n < |done + rest| ==> !EndsWith((done + rest)[..n], tag)
    ensures ReadsWhole(k, Dollar(tag, done), rest)
    decreases |rest|
  {
    var c, more := rest[0], rest[1..];
    assert done + rest == (done + [c]) + more;
    assert (done + rest)[..|done| + 1] == done + [c];
    if more == "" {
      assert done + rest == done + [c];
    } else {
      DollarPasses(k, tag, done + [c], more);
    }
  }

  lemma ClosingTagLast(body: string, closing: string)
    requires closing != "" && ClosesAtEnd(body, closing)
    ensures EndsWith(body + closing, closing)
    ensures forall n :: 0 < n < |body + closing| ==> !EndsWith((body + closing)[..n], closing)
  {
    var all := body + closing;
    forall n | 0 < n < |all| ensures !EndsWith(all[..n], closing) {
      if EndsWith(all[..n], closing) {
        assert all[..n][n - |closing|..] == all[n - |closing|..n];
        assert Occurs(all, closing, n - |closing|);
        assert false;
      }
    }
  }

  lemma QuotedPasses(k: CharClass, m: Mode, t: Token)
    requires t.SingleQuoted? || t.DoubleQuoted?
    requires IsToken(k, t) && Ready(k, m, TokenText(t))
    ensures ReadsWhole(k, m, TokenText(t))
  {
    var x := TokenText(t);
    ReadyStep(k, m, x);
    if t.SingleQuoted? {
      assert x[1..] == t.body + "'";
      SinglePasses(k, t.body);
    } else {
      assert x[1..] == t.body + "\"";
      DoublePasses(k, t.body);
    }
  }

  lemma WordsAreNotSpecial(k: CharClass)
    requires Sane(k)
    ensures forall c :: WordChar(k, c) ==> c != '$' && c != ';'
  {
  }

  /** A dollar, a word and a dollar open a dollar quote. */
  lemma DollarOpens(k: CharClass, tag: string, tail: string)
    requires Sane(k) && Word(k, tag)
    ensures var m, text := Dollar("$" + tag + "$", ""), ['$'] + (tag + (['$'] + tail));
      NoCut(k, Neutral, text) == NoCut(k, m, tail) && Run(k, Neutral, text) == Run(k, m, tail)
  {
    var rest := ['$'] + tail;
    var text := ['$'] + (tag + rest);
    WordsAreNotSpecial(k);
    ProbeReads(k, "$", tag, rest);
    assert text[0] == '$' && text[1..] == tag + rest;
    assert rest[0] == '$' && rest[1..] == tail;
    assert Step(k, Probe("$" + tag), '$') == Dollar("$" + tag + "$", "");
    hide Word;
  }

  lemma DollarText(t: Token)
    requires t.DollarQuoted?
    ensures TokenText(t) == ['$'] + (t.tag + (['$'] + (t.body + ("$" + t.tag + "$"))))
  {
    var closing := "$" + t.tag + "$";
    assert closing == "$" + (t.tag + "$");
    assert TokenText(t) == "$" + t.tag + "$" + t.body + closing;
  }

  lemma DollarQuotedPasses(k: CharClass, t: Token)
    requires Sane(k) && t.DollarQuoted? && IsToken(k, t)
    ensures ReadsWhole(k, Neutral, TokenText(t))
  {
    var closing := "$" + t.tag + "$";
    var tail := t.body + closing;
    hide Run, NoCut, TokenText, Step, Word, EndsWith, ClosesAtEnd;
    DollarText(t);
    DollarOpens(k, t.tag, tail);
    ClosingTagLast(t.body, closing);
    assert "" + tail == tail;
    DollarPasses(k, closing, "", tail);
  }

  lemma PlaceholderWaits(k: CharClass, word: string)
    requires Sane(k) && Word(k, word)
    ensures NoCut(k, Neutral, "$" + word) && Run(k, Neutral, "$" + word) == Probe("$" + word)
  {
    WordsAreNotSpecial(k);
    assert ("$" + word)[1..] == word + "";
    ProbeReads(k, "$", word, "");
  }

  // ----- batches

  lemma BatchTail(k: CharClass, tokens: seq<Token>)
    requires IsBatch(k, tokens) && tokens != []
    ensures IsBatch(k, tokens[1..]) && IsToken(k, tokens[0]) && TokenText(tokens[0]) != ""
    ensures |tokens| > 1 ==> Separated(k, tokens[0], tokens[1])
  {
    hide IsToken, Separated;
    var rest := tokens[1..];
    forall i | 0 <= i < |rest| - 1 ensures Separated(k, rest[i], rest[i + 1]) {
      assert Separated(k, tokens[i + 1], tokens[i + 2]);
    }
    assert IsToken(k, tokens[0]);
    NotEmpty(k, tokens[0]);
  }

  lemma NotEmpty(k: CharClass, t: Token)
    requires IsToken(k, t)
    ensures TokenText(t) != ""
  {
  }

  /** Behind a token the automaton is ready for the next one. */
  lemma TokenRead(k: CharClass, m: Mode, t: Token, rest: string)
    requires Sane(k) && IsToken(k, t) && t != Semicolon && Ready(k, m, TokenText(t))
    requires t.Placeholder? ==> Ready(k, Probe(""), rest)
    requires (t.DollarQuoted? || t.Placeholder?) ==> m == Neutral
    ensures NoCut(k, m, TokenText(t)) && Ready(k, Run(k, m, TokenText(t)), rest)
  {
    match t
    case Words(text) => WordsPass(k, m, text);
    case SingleQuoted(_) => QuotedPasses(k, m, t);
    case DoubleQuoted(_) => QuotedPasses(k, m, t);
    case DollarQuoted(_, _) => DollarQuotedPasses(k, t);
    case Placeholder(word) => PlaceholderWaits(k, word);
  }

  lemma {:induction false} BatchCuts(k: CharClass, m: Mode, tokens: seq<Token>)
    requires Sane(k) && IsBatch(k, tokens) && Ready(k, m, BatchText(tokens))
    ensures Cuts(k, m, BatchText(tokens)) == Between(tokens)
    decreases |tokens|
  {
    if tokens != [] {
      var t, rest := tokens[0], BatchText(tokens[1..]);
      BatchTail(k, tokens);
      FirstOfBatch(k, m, tokens);
      hide IsBatch, IsToken, Ready, Separated, Cuts, Run;
      if t == Semicolon {
        CutsAtSemicolon(k, m, rest);
        BatchCuts(k, Neutral, tokens[1..]);
      } else {
        TokenRead(k, m, t, rest);
        SkipNoCut(k, m, TokenText(t), rest);
        BatchCuts(k, Run(k, m, TokenText(t)), tokens[1..]);
      }
    }
  }

  lemma CutsAtSemicolon(k: CharClass, m: Mode, rest: string)
    requires Ready(k, m, ";" + rest)
    ensures Cuts(k, m, ";" + rest) == [""] + Cuts(k, Neutral, rest)
    ensures Ready(k, Neutral, rest)
  {
    assert (";" + rest)[1..] == rest;
  }

  /** The conditions of reading the first token hold. */
  lemma FirstOfBatch(k: CharClass, m: Mode, tokens: seq<Token>)
    requires IsBatch(k, tokens) && tokens != [] && Ready(k, m, BatchText(tokens))
    ensures var t, rest := tokens[0], BatchText(tokens[1..]);
      && Ready(k, m, TokenText(t))
      && (t.Placeholder? ==> Ready(k, Probe(""), rest))
      && ((t.DollarQuoted? || t.Placeholder?) ==> m == Neutral)
  {
    BatchTail(k, tokens);
    var t, all := tokens[0], BatchText(tokens);
    assert all[0] == TokenText(t)[0];
    if t.Placeholder? && |tokens| > 1 {
      BatchTail(k, tokens[1..]);
      assert BatchText(tokens[1..])[0] == TokenText(tokens[1])[0];
    }
  }

  /**
   Main result: a batch of words, quoted sections, dollar-quoted bodies, placeholders and semicolons is split at
   exactly the semicolons that stand between them, and the statements are the trimmed texts between those.
   */
  lemma SplitsBetweenTokens(k: CharClass, tokens: seq<Token>)
    requires Sane(k) && IsBatch(k, tokens)
    ensures AreTrims(k, Between(tokens), Split(k, BatchText(tokens)))
  {
    BatchCuts(k, Neutral, tokens);
    CleanTrims(k, Between(tokens));
  }
}
