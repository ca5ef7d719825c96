/**
 Splitting a SQL batch into statements. The splitter is an index loop with look-ahead; its
 specification is a character-by-character automaton that cuts at semicolons outside quotes.
 */
module SqlSplitter {

  /** str.isalnum and the characters str.strip removes; the proofs only use that they are Sane. */
  datatype CharClass = CharClass(alnum: char -> bool, space: char -> bool)

  predicate Special(c: char) {
    c == '\'' || c == '"' || c == '$' || c == ';'
  }

  ghost predicate Sane(k: CharClass) {
    forall c :: Special(c) ==> !k.alnum(c) && !k.space(c)
  }

  predicate WordChar(k: CharClass, c: char) {
    k.alnum(c) || c == '_'
  }

  /**
   The automaton. Probe has read "$word", which may turn out to open a dollar quote; it is
   neutral otherwise. Dollar remembers the tag and the body read so far.
   */
  datatype Mode = Neutral | Single | Double | Probe(seen: string) | Dollar(tag: string, body: string)

  predicate Open(m: Mode) {
    m.Neutral? || m.Probe?
  }

  predicate EndsWith(s: string, t: string) {
    |t| <= |s| && s[|s| - |t|..] == t
  }

  function NeutralStep(c: char): Mode {
    if c == '\'' then Single else if c == '"' then Double else if c == '$' then Probe("$") else Neutral
  }

  function Step(k: CharClass, m: Mode, c: char): Mode {
    match m
    case Neutral => NeutralStep(c)
    case Single => if c == '\'' then Neutral else Single
    case Double => if c == '"' then Neutral else Double
    case Probe(seen) =>
      if c == '$' then Dollar(seen + "$", "")
      else if WordChar(k, c) then Probe(seen + [c])
      else NeutralStep(c)
    case Dollar(tag, body) => if EndsWith(body + [c], tag) then Neutral else Dollar(tag, body + [c])
  }

  predicate IsCut(m: Mode, c: char) {
    Open(m) && c == ';'
  }

  function Run(k: CharClass, m: Mode, s: string): Mode
    decreases |s|
  {
    if s == "" then m else Run(k, Step(k, m, s[0]), s[1..])
  }

  predicate NoCut(k: CharClass, m: Mode, s: string)
    decreases |s|
  {
    s == "" || (!IsCut(m, s[0]) && NoCut(k, Step(k, m, s[0]), s[1..]))
  }

  function Prepend(x: string, pieces: seq<string>): (r: seq<string>)
    requires pieces != []
    ensures r != []
  {
    [x + pieces[0]] + pieces[1..]
  }

  /** The text between the cuts. */
  function Cuts(k: CharClass, m: Mode, s: string): (pieces: seq<string>)
    ensures pieces != []
    decreases |s|
  {
    if s == "" then [""]
    else if IsCut(m, s[0]) then [""] + Cuts(k, Neutral, s[1..])
    else Prepend([s[0]], Cuts(k, Step(k, m, s[0]), s[1..]))
  }

  function StripLeft(k: CharClass, s: string): (r: string)
    ensures r == "" || !k.space(r[0])
  {
    if s != "" && k.space(s[0]) then StripLeft(k, s[1..]) else s
  }

  function StripRight(k: CharClass, s: string): (r: string)
    ensures r <= s
    ensures r == "" || !k.space(r[|r| - 1])
  {
    if s != "" && k.space(s[|s| - 1]) then StripRight(k, s[..|s| - 1]) else s
  }

  function Strip(k: CharClass, s: string): string {
    StripRight(k, StripLeft(k, s))
  }

  /** Trimmed pieces, the empty ones dropped. */
  function Clean(k: CharClass, pieces: seq<string>): seq<string> {
    if pieces == [] then []
    else
      var t := Strip(k, pieces[0]);
      (if t == "" then [] else [t]) + Clean(k, pieces[1..])
  }

  function Split(k: CharClass, sql: string): seq<string> {
    Clean(k, Cuts(k, Neutral, sql))
  }

  // ----- the loop refines the automaton

  predicate StartsAt(s: string, t: string, i: nat) {
    i + |t| <= |s| && s[i..i + |t|] == t
  }

  /** What the loop still has to produce: the buffer glued to the pieces of the unread text. */
  function Remaining(k: CharClass, m: Mode, buffer: string, rest: string): seq<string> {
    Clean(k, Prepend(buffer, Cuts(k, m, rest)))
  }

  /** Reading x without a cut moves x from the unread text into the buffer. */
  lemma {:induction false} ReadNoCut(k: CharClass, m: Mode, buffer: string, x: string, rest: string)
    requires NoCut(k, m, x)
    ensures Prepend(buffer, Cuts(k, m, x + rest)) == Prepend(buffer + x, Cuts(k, Run(k, m, x), rest))
    decreases |x|
  {
    if x == "" {
      assert x + rest == rest && buffer + x == buffer;
    } else {
      assert (x + rest)[0] == x[0] && (x + rest)[1..] == x[1..] + rest;
      ReadNoCut(k, Step(k, m, x[0]), buffer + [x[0]], x[1..], rest);
      assert buffer + [x[0]] + x[1..] == buffer + x;
      var inner := Cuts(k, Step(k, m, x[0]), x[1..] + rest);
      assert Cuts(k, m, x + rest) == Prepend([x[0]], inner);
      assert buffer + ([x[0]] + inner[0]) == buffer + [x[0]] + inner[0];
    }
  }

  /** Reading a cut emits the trimmed buffer. */
  lemma ReadCut(k: CharClass, m: Mode, buffer: string, rest: string)
    requires rest != "" && IsCut(m, rest[0])
    ensures Remaining(k, m, buffer, rest)
         == (if Strip(k, buffer) == "" then [] else [Strip(k, buffer)]) + Remaining(k, Neutral, "", rest[1..])
  {
    var inner := Cuts(k, Neutral, rest[1..]);
    assert buffer + "" == buffer;
    assert Prepend(buffer, Cuts(k, m, rest)) == [buffer] + inner;
    assert ([buffer] + inner)[1..] == inner;
    assert "" + inner[0] == inner[0];
    assert Prepend("", inner) == inner;
    assert Clean(k, [buffer]) == (if Strip(k, buffer) == "" then [] else [Strip(k, buffer)]) + Clean(k, []);
  }

  lemma ScanBegins(k: CharClass, sql: string)
    ensures Split(k, sql) == Remaining(k, Neutral, "", sql[0..])
  {
    assert sql[0..] == sql;
    assert "" + Cuts(k, Neutral, sql)[0] == Cuts(k, Neutral, sql)[0];
    assert Prepend("", Cuts(k, Neutral, sql)) == Cuts(k, Neutral, sql);
  }

  lemma Flush(k: CharClass, m: Mode, buffer: string, rest: string)
    requires rest == ""
    ensures Remaining(k, m, buffer, rest) == if Strip(k, buffer) == "" then [] else [Strip(k, buffer)]
  {
    assert buffer + "" == buffer;
    assert Prepend(buffer, [""]) == [buffer];
    assert Clean(k, [buffer][1..]) == [];
  }

  /** A "$word" that is not followed by "$" was plain text all along. */
  lemma {:induction false} ProbeFails(k: CharClass, seen: string, word: string, rest: string)
    requires Sane(k)
    requires forall i :: 0 <= i < |word| ==> WordChar(k, word[i])
    requires rest == "" || (rest[0] != '$' && !WordChar(k, rest[0]))
    ensures Cuts(k, Probe(seen), word + rest) == Cuts(k, Neutral, word + rest)
    decreases |word|
  {
    if word == "" {
      assert word + rest == rest;
    } else {
      assert (word + rest)[0] == word[0] && (word + rest)[1..] == word[1..] + rest;
      assert WordChar(k, word[0]);
      assert !Special(word[0]);
      ProbeFails(k, seen + [word[0]], word[1..], rest);
    }
  }

  /** A "$word$" opens a dollar quote with itself as the tag. */
  lemma {:induction false} ProbeSucceeds(k: CharClass, seen: string, word: string)
    requires Sane(k)
    requires forall i :: 0 <= i < |word| ==> WordChar(k, word[i])
    ensures NoCut(k, Probe(seen), word + "$")
    ensures Run(k, Probe(seen), word + "$") == Dollar(seen + word + "$", "")
    decreases |word|
  {
    if word == "" {
      assert word + "$" == "$" && seen + word == seen;
      assert "$"[1..] == "";
    } else {
      assert (word + "$")[0] == word[0] && (word + "$")[1..] == word[1..] + "$";
      assert WordChar(k, word[0]);
      assert !Special(word[0]);
      ProbeSucceeds(k, seen + [word[0]], word[1..]);
      assert seen + [word[0]] + word[1..] == seen + word;
    }
  }

  /** Inside a dollar quote everything is body until the tag comes up as a whole. */
  lemma {:induction false} DollarBody(k: CharClass, tag: string, body: string, x: string)
    requires forall j :: 0 < j <= |x| ==> !EndsWith(body + x[..j], tag)
    ensures NoCut(k, Dollar(tag, body), x)
    ensures Run(k, Dollar(tag, body), x) == Dollar(tag, body + x)
    decreases |x|
  {
    if x == "" {
      assert body + x == body;
    } else {
      assert x[..1] == [x[0]];
      assert !EndsWith(body + x[..1], tag);
      forall j | 0 < j <= |x[1..]| ensures !EndsWith(body + [x[0]] + x[1..][..j], tag) {
        assert body + [x[0]] + x[1..][..j] == body + x[..j + 1];
      }
      DollarBody(k, tag, body + [x[0]], x[1..]);
      assert body + [x[0]] + x[1..] == body + x;
    }
  }

  lemma {:induction false} RunAppend(k: CharClass, m: Mode, a: string, b: string)
    ensures Run(k, m, a + b) == Run(k, Run(k, m, a), b)
    ensures NoCut(k, m, a + b) <==> NoCut(k, m, a) && NoCut(k, Run(k, m, a), b)
    decreases |a|
  {
    if a == "" {
      assert a + b == b;
    } else {
      assert (a + b)[0] == a[0] && (a + b)[1..] == a[1..] + b;
      RunAppend(k, Step(k, m, a[0]), a[1..], b);
    }
  }

  /** The tag of the quote that started before index start has not come up in sql[start..index]. */
  predicate Unclosed(sql: string, tag: string, start: nat, index: nat) {
    start <= index <= |sql| && forall p :: start <= p < index ==> !StartsAt(sql, tag, p)
  }

  lemma TagEndsLater(sql: string, tag: string, start: nat, index: nat, end: nat)
    requires Unclosed(sql, tag, start, index) && index < end <= |sql| && end < index + |tag|
    ensures !EndsWith(sql[start..end], tag)
  {
    if EndsWith(sql[start..end], tag) {
      assert sql[start..end][end - start - |tag|..] == sql[end - |tag|..end];
      assert StartsAt(sql, tag, end - |tag|);
    }
  }

  lemma DollarCloses(k: CharClass, sql: string, tag: string, start: nat, index: nat)
    requires |tag| >= 2 && Unclosed(sql, tag, start, index) && StartsAt(sql, tag, index)
    ensures NoCut(k, Dollar(tag, sql[start..index]), tag)
    ensures Run(k, Dollar(tag, sql[start..index]), tag) == Neutral
  {
    hide *;
    UnclosedBounds(sql, tag, start, index);
    var body, x, last := sql[start..index], tag[..|tag| - 1], tag[|tag| - 1..];
    TagStaysOpen(sql, tag, start, index);
    DollarBody(k, tag, body, x);
    RunAppend(k, Dollar(tag, body), x, last);
    assert x + last == tag;
    LastTagChar(k, tag, body, x, last);
  }

  lemma UnclosedBounds(sql: string, tag: string, start: nat, index: nat)
    requires Unclosed(sql, tag, start, index)
    ensures start <= index <= |sql|
  {
  }

  /** No proper prefix of the closing tag closes the quote. */
  lemma TagStaysOpen(sql: string, tag: string, start: nat, index: nat)
    requires |tag| >= 2 && Unclosed(sql, tag, start, index) && StartsAt(sql, tag, index)
    ensures start <= index <= |sql|
    ensures var body, x := sql[start..index], tag[..|tag| - 1];
      forall j :: 0 < j <= |x| ==> !EndsWith(body + x[..j], tag)
  {
    var body, x := sql[start..index], tag[..|tag| - 1];
    forall j | 0 < j <= |x| ensures !EndsWith(body + x[..j], tag) {
      TagEndsLater(sql, tag, start, index, index + j);
      assert sql[index..index + |tag|][..j] == sql[index..index + j];
      assert x[..j] == tag[..j];
      hide EndsWith;
      assert body + x[..j] == sql[start..index + j];
    }
  }

  lemma LastTagChar(k: CharClass, tag: string, body: string, x: string, last: string)
    requires tag == x + last && |last| == 1
    ensures NoCut(k, Dollar(tag, body + x), last) && Run(k, Dollar(tag, body + x), last) == Neutral
  {
    assert last[1..] == "";
    assert body + x + [last[0]] == body + tag;
    assert EndsWith(body + tag, tag);
  }

  /** Inside a dollar quote, away from its tag, one character is one character of body. */
  lemma DollarContinues(k: CharClass, sql: string, tag: string, start: nat, index: nat)
    requires |tag| >= 2 && index < |sql| && Unclosed(sql, tag, start, index)
    ensures Step(k, Dollar(tag, sql[start..index]), sql[index]) == Dollar(tag, sql[start..index + 1])
  {
    assert sql[start..index] + [sql[index]] == sql[start..index + 1];
    TagEndsLater(sql, tag, start, index, index + 1);
  }

  /** The mode the loop variables stand for. */
  function LoopMode(inSingle: bool, inDouble: bool, tag: string, body: string): Mode {
    if tag != "" then Dollar(tag, body) else if inSingle then Single else if inDouble then Double else Neutral
  }

  lemma ReadOne(k: CharClass, m: Mode, buffer: string, sql: string, index: nat)
    requires index < |sql| && !IsCut(m, sql[index])
    ensures Remaining(k, m, buffer, sql[index..])
         == Remaining(k, Step(k, m, sql[index]), buffer + [sql[index]], sql[index + 1..])
  {
    var x := [sql[index]];
    assert sql[index..] == x + sql[index + 1..];
    assert x[1..] == "";
    ReadNoCut(k, m, buffer, x, sql[index + 1..]);
  }

  lemma ReadTwo(k: CharClass, m: Mode, buffer: string, sql: string, index: nat)
    requires index + 1 < |sql| && !IsCut(m, sql[index]) && !IsCut(Step(k, m, sql[index]), sql[index + 1])
    ensures Remaining(k, m, buffer, sql[index..])
         == Remaining(k, Step(k, Step(k, m, sql[index]), sql[index + 1]),
                      buffer + [sql[index]] + [sql[index + 1]], sql[index + 2..])
  {
    ReadOne(k, m, buffer, sql, index);
    ReadOne(k, Step(k, m, sql[index]), buffer + [sql[index]], sql, index + 1);
  }

  lemma ReadTag(k: CharClass, buffer: string, sql: string, index: nat, probe: nat)
    requires Sane(k) && index < probe < |sql| && sql[index] == '$' == sql[probe]
    requires forall i :: index < i < probe ==> WordChar(k, sql[i])
    ensures Remaining(k, Neutral, buffer, sql[index..])
         == Remaining(k, Dollar(sql[index..probe + 1], ""), buffer + sql[index..probe + 1], sql[probe + 1..])
  {
    NeutralDollar(k);
    hide *;
    var word, rest := sql[index + 1..probe], sql[probe + 1..];
    ReadOne(k, Neutral, buffer, sql, index);
    ProbeSucceeds(k, "$", word);
    TagParts(buffer, sql, index, probe);
    RemainingRead(k, Probe("$"), buffer + [sql[index]], word + "$", rest);
  }

  lemma NeutralDollar(k: CharClass)
    ensures !IsCut(Neutral, '$') && Step(k, Neutral, '$') == Probe("$")
  {
  }

  lemma TagParts(buffer: string, sql: string, index: nat, probe: nat)
    requires index < probe < |sql| && sql[index] == '$' == sql[probe]
    ensures var word := sql[index + 1..probe];
      && sql[index + 1..] == (word + "$") + sql[probe + 1..]
      && "$" + word + "$" == sql[index..probe + 1]
      && buffer + [sql[index]] + (word + "$") == buffer + sql[index..probe + 1]
  {
  }

  lemma RemainingRead(k: CharClass, m: Mode, buffer: string, x: string, rest: string)
    requires NoCut(k, m, x)
    ensures Remaining(k, m, buffer, x + rest) == Remaining(k, Run(k, m, x), buffer + x, rest)
  {
    ReadNoCut(k, m, buffer, x, rest);
    hide Cuts, Clean, Prepend, Run;
  }

  lemma ReadLoneDollar(k: CharClass, buffer: string, sql: string, index: nat, probe: nat)
    requires Sane(k) && index < probe <= |sql| && sql[index] == '$'
    requires forall i :: index < i < probe ==> WordChar(k, sql[i])
    requires probe < |sql| ==> !WordChar(k, sql[probe]) && sql[probe] != '$'
    ensures Remaining(k, Neutral, buffer, sql[index..])
         == Remaining(k, Neutral, buffer + [sql[index]], sql[index + 1..])
  {
    var word, rest := sql[index + 1..probe], sql[probe..];
    ReadOne(k, Neutral, buffer, sql, index);
    assert sql[index + 1..] == word + rest;
    ProbeFails(k, "$", word, rest);
  }

  lemma ReadClosingTag(k: CharClass, buffer: string, sql: string, tag: string, start: nat, index: nat)
    requires |tag| >= 2 && Unclosed(sql, tag, start, index) && StartsAt(sql, tag, index)
    ensures Remaining(k, Dollar(tag, sql[start..index]), buffer, sql[index..])
         == Remaining(k, Neutral, buffer + tag, sql[index + |tag|..])
  {
    DollarCloses(k, sql, tag, start, index);
    assert sql[index..] == tag + sql[index + |tag|..];
    ReadNoCut(k, Dollar(tag, sql[start..index]), buffer, tag, sql[index + |tag|..]);
  }

  /** The end of the word that follows a dollar sign. */
  method ProbeWord(k: CharClass, sql: string, from: nat) returns (probe: nat)
    requires from <= |sql|
    ensures from <= probe <= |sql|
    ensures forall i :: from <= i < probe ==> WordChar(k, sql[i])
    ensures probe < |sql| ==> !WordChar(k, sql[probe])
  {
    probe := from;
    while probe < |sql| && WordChar(k, sql[probe])
      invariant from <= probe <= |sql|
      invariant forall i :: from <= i < probe ==> WordChar(k, sql[i])
    {
      probe := probe + 1;
    }
  }

  /** _split_sql_statements: the loop with look-ahead computes the automaton's split. */
  method SplitSqlStatements(k: CharClass, sql: string) returns (statements: seq<string>)
    requires Sane(k)
    ensures statements == Split(k, sql)
  {
    ScanBegins(k, sql);
    hide Split, Cuts, Clean, Prepend;
    statements := [];
    var buffer := "";
    var index := 0;
    var inSingle, inDouble := false, false;
    var dollarTag := "";
    ghost var start := 0;
    while index < |sql|
      invariant 0 <= start <= index <= |sql|
      invariant dollarTag != "" ==> |dollarTag| >= 2 && Unclosed(sql, dollarTag, start, index)
      invariant dollarTag != "" ==> !inSingle && !inDouble
      invariant !(inSingle && inDouble)
      invariant Split(k, sql) == statements
        + Remaining(k, LoopMode(inSingle, inDouble, dollarTag, sql[start..index]), buffer, sql[index..])
    {
      var c := sql[index];
      ghost var mode := LoopMode(inSingle, inDouble, dollarTag, sql[start..index]);
      ghost var unread := buffer;
      if dollarTag != "" {
        if StartsAt(sql, dollarTag, index) {
          ReadClosingTag(k, buffer, sql, dollarTag, start, index);
          buffer := buffer + dollarTag;
          index := index + |dollarTag|;
          dollarTag := "";
          continue;
        }
        DollarContinues(k, sql, dollarTag, start, index);
        ReadOne(k, mode, buffer, sql, index);
        buffer := buffer + [c];
        index := index + 1;
        continue;
      }
      if inSingle {
        buffer := buffer + [c];
        if c == '\'' {
          if index + 1 < |sql| && sql[index + 1] == '\'' {
            ReadTwo(k, mode, unread, sql, index);
            buffer := buffer + "'";
            index := index + 2;
            continue;
          }
          inSingle := false;
        }
        ReadOne(k, mode, unread, sql, index);
        index := index + 1;
        continue;
      }
      if inDouble {
        buffer := buffer + [c];
        if c == '"' {
          if index + 1 < |sql| && sql[index + 1] == '"' {
            ReadTwo(k, mode, unread, sql, index);
            buffer := buffer + "\"";
            index := index + 2;
            continue;
          }
          inDouble := false;
        }
        ReadOne(k, mode, unread, sql, index);
        index := index + 1;
        continue;
      }
      if c == '\'' {
        ReadOne(k, mode, unread, sql, index);
        inSingle := true;
        buffer := buffer + [c];
        index := index + 1;
        continue;
      }
      if c == '"' {
        ReadOne(k, mode, unread, sql, index);
        inDouble := true;
        buffer := buffer + [c];
        index := index + 1;
        continue;
      }
      if c == '$' {
        var probe := ProbeWord(k, sql, index + 1);
        if probe < |sql| && sql[probe] == '$' {
          ReadTag(k, buffer, sql, index, probe);
          dollarTag := sql[index..probe + 1];
          buffer := buffer + dollarTag;
          index := probe + 1;
          start := index;
          assert sql[start..index] == "";
          continue;
        }
        ReadLoneDollar(k, buffer, sql, index, probe);
      } else if c == ';' {
        ReadCut(k, mode, buffer, sql[index..]);
        assert sql[index..][1..] == sql[index + 1..];
        var statement := Strip(k, buffer);
        if statement != "" {
          statements := statements + [statement];
        }
        buffer := [];
        index := index + 1;
        continue;
      } else {
        ReadOne(k, mode, buffer, sql, index);
      }
      buffer := buffer + [c];
      index := index + 1;
    }
    Flush(k, LoopMode(inSingle, inDouble, dollarTag, sql[start..index]), buffer, sql[index..]);
    var trailing := Strip(k, buffer);
    if trailing != "" {
      statements := statements + [trailing];
    }
  }

  // ----- what the split means

  function Join(pieces: seq<string>): string {
    if pieces == [] then ""
    else if |pieces| == 1 then pieces[0]
    else pieces[0] + ";" + Join(pieces[1..])
  }

  /** A statement list whose joints the automaton sees: each part has no cut, all but the last end neutral. */
  predicate Separable(k: CharClass, m: Mode, pieces: seq<string>)
    decreases |pieces|
  {
    pieces != [] ==>
      && NoCut(k, m, pieces[0])
      && (|pieces| > 1 ==> Open(Run(k, m, pieces[0])))
      && Separable(k, Neutral, pieces[1..])
  }

  /** Putting the cut semicolons back restores the text; no piece holds a cut; every joint is neutral. */
  lemma {:induction false} CutsSound(k: CharClass, m: Mode, s: string)
    ensures Join(Cuts(k, m, s)) == s
    ensures Separable(k, m, Cuts(k, m, s))
    decreases |s|
  {
    if s != "" {
      var pieces := Cuts(k, m, s);
      if IsCut(m, s[0]) {
        CutsSound(k, Neutral, s[1..]);
        assert pieces[1..] == Cuts(k, Neutral, s[1..]);
      } else {
        var rest := Cuts(k, Step(k, m, s[0]), s[1..]);
        CutsSound(k, Step(k, m, s[0]), s[1..]);
        assert pieces[1..] == rest[1..];
        assert pieces[0][0] == s[0] && pieces[0][1..] == rest[0];
        assert Join(pieces) == [s[0]] + Join(rest);
      }
    }
  }

  /** Such a list is the only one: splitting its join gives it back. */
  lemma {:induction false} CutsComplete(k: CharClass, m: Mode, pieces: seq<string>)
    requires pieces != [] && Separable(k, m, pieces)
    ensures Cuts(k, m, Join(pieces)) == pieces
    decreases |pieces|
  {
    var p := pieces[0];
    if |pieces| == 1 {
      assert p + "" == p;
      SkipNoCut(k, m, p, "");
    } else {
      var rest := ";" + Join(pieces[1..]);
      assert Join(pieces) == p + rest;
      SkipNoCut(k, m, p, rest);
      assert rest[1..] == Join(pieces[1..]);
      CutsComplete(k, Neutral, pieces[1..]);
      assert p + "" == p;
    }
  }

  lemma SkipNoCut(k: CharClass, m: Mode, x: string, rest: string)
    requires NoCut(k, m, x)
    ensures Cuts(k, m, x + rest) == Prepend(x, Cuts(k, Run(k, m, x), rest))
  {
    ReadNoCut(k, m, "", x, rest);
    var a := Cuts(k, m, x + rest);
    assert "" + a[0] == a[0];
    assert Prepend("", a) == a;
    assert "" + x == x;
  }

  // ----- trimming

  predicate Trimmed(k: CharClass, s: string) {
    s != "" && !k.space(s[0]) && !k.space(s[|s| - 1])
  }

  lemma StripTrimmed(k: CharClass, s: string)
    requires Trimmed(k, s)
    ensures Strip(k, s) == s
  {
  }

  lemma {:induction false} CleanTrimmed(k: CharClass, pieces: seq<string>)
    requires forall i :: 0 <= i < |pieces| ==> Trimmed(k, pieces[i])
    ensures Clean(k, pieces) == pieces
  {
    if pieces != [] {
      StripTrimmed(k, pieces[0]);
      CleanTrimmed(k, pieces[1..]);
    }
  }

  /** Main result: the splitter undoes joining. */
  lemma SplitUndoesJoin(k: CharClass, statements: seq<string>)
    requires Separable(k, Neutral, statements)
    requires forall i :: 0 <= i < |statements| ==> Trimmed(k, statements[i])
    ensures Split(k, Join(statements)) == statements
  {
    if statements != [] {
      CutsComplete(k, Neutral, statements);
      CleanTrimmed(k, statements);
    } else {
      assert Cuts(k, Neutral, "") == [""];
      assert Clean(k, [""]) == Clean(k, []);
    }
  }

  /** Reading never leaves a dollar quote through white space. */
  predicate Tagged(k: CharClass, m: Mode) {
    m.Dollar? ==> m.tag != "" && m.tag[|m.tag| - 1] == '$'
  }

  lemma {:induction false} RunTagged(k: CharClass, m: Mode, s: string)
    requires Tagged(k, m)
    ensures Tagged(k, Run(k, m, s))
    decreases |s|
  {
    if s != "" {
      RunTagged(k, Step(k, m, s[0]), s[1..]);
    }
  }

  lemma SpaceKeepsQuotes(k: CharClass, m: Mode, c: char)
    requires Sane(k) && k.space(c) && Tagged(k, m) && Open(Step(k, m, c))
    ensures Open(m)
  {
    assert !Special(c);
    if m.Dollar? {
      LastOfSuffix(m.body + [c], m.tag);
    }
  }

  lemma LastOfSuffix(s: string, t: string)
    requires t != ""
    ensures EndsWith(s, t) ==> s[|s| - 1] == t[|t| - 1]
  {
    if EndsWith(s, t) {
      assert s[|s| - |t|..][|t| - 1] == s[|s| - 1];
    }
  }

  lemma {:induction false} StripLeftKeeps(k: CharClass, s: string)
    requires Sane(k) && NoCut(k, Neutral, s)
    ensures NoCut(k, Neutral, StripLeft(k, s))
    ensures Run(k, Neutral, StripLeft(k, s)) == Run(k, Neutral, s)
  {
    if s != "" && k.space(s[0]) {
      assert !Special(s[0]);
      StripLeftKeeps(k, s[1..]);
    }
  }

  lemma {:induction false} StripRightKeeps(k: CharClass, s: string)
    requires Sane(k) && NoCut(k, Neutral, s)
    ensures NoCut(k, Neutral, StripRight(k, s))
    ensures Open(Run(k, Neutral, s)) ==> Open(Run(k, Neutral, StripRight(k, s)))
    decreases |s|
  {
    if s != "" && k.space(s[|s| - 1]) {
      var t, c := s[..|s| - 1], s[|s| - 1];
      assert s == t + [c] && [c][1..] == "";
      RunAppend(k, Neutral, t, [c]);
      RunTagged(k, Neutral, t);
      StripRightKeeps(k, t);
      if Open(Run(k, Neutral, s)) {
        SpaceKeepsQuotes(k, Run(k, Neutral, t), c);
      }
    }
  }

  lemma StripResult(k: CharClass, s: string)
    ensures Strip(k, s) != "" ==> Trimmed(k, Strip(k, s))
  {
    var l, t := StripLeft(k, s), Strip(k, s);
    if t != "" {
      assert t <= l && t[0] == l[0];
    }
  }

  /** The cleaned pieces are trimmed statements that keep the joints. */
  lemma {:induction false} CleanSeparable(k: CharClass, pieces: seq<string>)
    requires Sane(k) && Separable(k, Neutral, pieces)
    ensures Separable(k, Neutral, Clean(k, pieces))
    ensures forall i :: 0 <= i < |Clean(k, pieces)| ==> Trimmed(k, Clean(k, pieces)[i])
    ensures pieces == [] ==> Clean(k, pieces) == []
    decreases |pieces|
  {
    if pieces != [] {
      CleanSeparable(k, pieces[1..]);
      StripLeftKeeps(k, pieces[0]);
      StripRightKeeps(k, StripLeft(k, pieces[0]));
      StripResult(k, pieces[0]);
      var t := Strip(k, pieces[0]);
      var cleaned := Clean(k, pieces);
      if t == "" {
        assert cleaned == Clean(k, pieces[1..]);
      } else {
        assert cleaned == [t] + Clean(k, pieces[1..]);
        assert cleaned[1..] == Clean(k, pieces[1..]);
      }
    }
  }

  /** Main result, for every text: joining the statements and splitting again changes nothing. */
  lemma SplitIsIdempotent(k: CharClass, sql: string)
    requires Sane(k)
    ensures Split(k, Join(Split(k, sql))) == Split(k, sql)
  {
    CutsSound(k, Neutral, sql);
    CleanSeparable(k, Cuts(k, Neutral, sql));
    SplitUndoesJoin(k, Split(k, sql));
  }

  lemma {:induction false} SeparableEach(k: CharClass, pieces: seq<string>, i: nat)
    requires Separable(k, Neutral, pieces) && i < |pieces|
    ensures NoCut(k, Neutral, pieces[i])
    decreases |pieces|
  {
    if i > 0 {
      assert pieces[1..][i - 1] == pieces[i];
      SeparableEach(k, pieces[1..], i - 1);
    }
  }

  /** Every statement of a split is a single statement on its own. */
  lemma ResplitStatement(k: CharClass, sql: string, i: nat)
    requires Sane(k) && i < |Split(k, sql)|
    ensures Split(k, Split(k, sql)[i]) == [Split(k, sql)[i]]
  {
    CutsSound(k, Neutral, sql);
    CleanSeparable(k, Cuts(k, Neutral, sql));
    var t := Split(k, sql)[i];
    SeparableEach(k, Split(k, sql), i);
    assert Separable(k, Neutral, [t][1..]);
    SplitUndoesJoin(k, [t]);
  }
}
