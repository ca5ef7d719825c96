/**
 What a search over the assembled arenas means: the plain scan of the names, name by name. And
 exactly which needles that holds for.
 */
module SearchMeaning {
  import opened Common
  import opened SearchIndex

  predicate CleanNames(names: seq<Named>) {
    forall i :: 0 <= i < |names| ==> NEWLINE !in names[i].name
  }

  /** A needle that is not empty and, if it holds a newline at all, starts with one. */
  predicate SafeNeedle(pat: Bytes) {
    pat != [] && (NEWLINE in pat ==> pat[0] == NEWLINE)
  }

  lemma {:induction false} ArenaGrows(names: seq<Named>, i: nat, n: nat)
    requires i <= n <= |names|
    ensures OffsetOf(names, i) + (n - i) <= OffsetOf(names, n)
    ensures Arena(names, n)[..OffsetOf(names, i)] == Arena(names, i)
    decreases n
  {
    if i < n {
      ArenaGrows(names, i, n - 1);
      var a, b := Arena(names, n - 1), names[n - 1].name + [NEWLINE];
      assert Arena(names, n) == a + b;
      assert (a + b)[..OffsetOf(names, i)] == a[..OffsetOf(names, i)];
    }
  }

  /** Entry i of the arena: its name, then a newline, then entry i + 1. */
  lemma ArenaEntry(names: seq<Named>, i: nat)
    requires i < |names|
    ensures var a, off, name := Arena(names, |names|), OffsetOf(names, i), names[i].name;
      && OffsetOf(names, i + 1) == off + |name| + 1 <= |a|
      && a[off..off + |name|] == name
      && a[off + |name|] == NEWLINE
  {
    ArenaGrows(names, i + 1, |names|);
    PrefixParts(Arena(names, |names|), Arena(names, i), names[i].name, NEWLINE);
  }

  lemma PrefixParts(a: Bytes, front: Bytes, mid: Bytes, last: Byte)
    requires |front| + |mid| + 1 <= |a| && a[..|front| + |mid| + 1] == front + mid + [last]
    ensures a[|front|..|front| + |mid|] == mid && a[|front| + |mid|] == last
  {
    var head := a[..|front| + |mid| + 1];
    assert a[|front| + |mid|] == head[|front| + |mid|];
    forall k | 0 <= k < |mid| ensures a[|front|..|front| + |mid|][k] == mid[k] {
      assert a[|front| + k] == head[|front| + k];
    }
  }

  lemma SliceOfSlice(a: Bytes, i: nat, j: nat, x: nat, y: nat)
    requires i <= j <= |a| && x <= y <= j - i
    ensures a[i..j][x..y] == a[i + x..i + y]
  {
    forall k | 0 <= k < y - x ensures a[i..j][x..y][k] == a[i + x..i + y][k] {
      assert a[i..j][x..y][k] == a[i..j][x + k] == a[i + x + k];
    }
  }

  /** A match that starts inside a line of text lies inside that line. */
  lemma MatchInsideLine(a: Bytes, off: nat, line: Bytes, pat: Bytes, k: nat)
    requires off + |line| < |a| && a[off..off + |line|] == line && a[off + |line|] == NEWLINE
    requires SafeNeedle(pat) && NEWLINE !in line && k < |line|
    ensures OccursAt(a, pat, off + k) <==> OccursAt(line, pat, k)
  {
    if k + |pat| <= |line| {
      SliceOfSlice(a, off, off + |line|, k, k + |pat|);
    } else if off + k + |pat| <= |a| {
      var j, m := |line| - k, a[off + k..off + k + |pat|];
      assert m[0] == a[off + k] == a[off..off + |line|][k] == line[k];
      assert m[j] == a[off + |line|] && m[j] in m;
    }
  }

  lemma MatchInsideEntry(names: seq<Named>, pat: Bytes, i: nat, k: nat)
    requires SafeNeedle(pat) && CleanNames(names) && i < |names| && k < |names[i].name|
    ensures OccursAt(Arena(names, |names|), pat, OffsetOf(names, i) + k) <==> OccursAt(names[i].name, pat, k)
  {
    assert NEWLINE !in names[i].name;
    hide *;
    ArenaEntry(names, i);
    MatchInsideLine(Arena(names, |names|), OffsetOf(names, i), names[i].name, pat, k);
  }

  lemma {:induction false} NextMatchSkips(hay: Bytes, pat: Bytes, from: nat, to: nat)
    requires from <= to <= |hay|
    requires forall k :: from <= k < to ==> !OccursAt(hay, pat, k)
    ensures NextMatch(hay, pat, from) == NextMatch(hay, pat, to)
    decreases |hay| - from
  {
    if from < to {
      NextMatchSkips(hay, pat, from + 1, to);
    }
  }

  predicate Addressable(names: seq<Named>) {
    |Arena(names, |names|)| < U32
  }

  lemma {:induction false} EntriesOfAt(names: seq<Named>, n: nat, i: nat)
    requires i < n <= |names|
    ensures EntriesOf(names, n)[i] == PlacedEntry(names, i)
  {
    if i < n - 1 {
      EntriesOfAt(names, n - 1, i);
    }
  }

  lemma ShardEntries(names: seq<Named>, i: nat)
    requires Addressable(names) && i < |names|
    ensures |ShardOf(names).entries| == |names|
    ensures ShardOf(names).entries[i] == Entry(OffsetOf(names, i), |names[i].name|, names[i].id)
  {
    ArenaEntry(names, i);
    EntriesOfAt(names, |names|, i);
    AsU32Small(OffsetOf(names, i));
    AsU32Small(|names[i].name|);
    hide Arena, EntriesOf, AsU32;
  }

  lemma ShardFits(names: seq<Named>)
    requires Addressable(names)
    ensures EntriesFit(ShardOf(names))
  {
    var s := ShardOf(names);
    forall i | 0 <= i < |s.entries| ensures s.entries[i].off + s.entries[i].len + 1 <= |s.arena| {
      ShardEntries(names, i);
      ArenaEntry(names, i);
    }
    forall i, j | 0 <= i < j < |s.entries| ensures s.entries[i].off < s.entries[j].off {
      ShardEntries(names, i);
      ShardEntries(names, j);
      ArenaGrows(names, i, j);
    }
  }

  /** Any position of entry i, its newline included, is looked up as entry i. */
  lemma LookupInside(names: seq<Named>, i: nat, pos: nat)
    requires Addressable(names) && i < |names|
    requires OffsetOf(names, i) <= pos < OffsetOf(names, i + 1)
    ensures |ShardOf(names).entries| == |names|
    ensures EntryIndex(ShardOf(names).entries, pos) == i
  {
    var s := ShardOf(names);
    ShardFits(names);
    ShardEntries(names, i);
    if i + 1 < |names| {
      ShardEntries(names, i + 1);
    }
    EntryIndexIs(s.entries, pos, i);
  }

  lemma FirstOccurrence(name: Bytes, pat: Bytes) returns (k: nat)
    requires pat != [] && Contains(name, pat)
    ensures k < |name| && OccursAt(name, pat, k) && forall j :: 0 <= j < k ==> !OccursAt(name, pat, j)
  {
    NextMatchMeaning(name, pat, 0);
    k := NextMatch(name, pat, 0).value;
  }

  lemma MatchFound(names: seq<Named>, pat: Bytes, i: nat)
    requires SafeNeedle(pat) && CleanNames(names) && i < |names| && Contains(names[i].name, pat)
    ensures OffsetOf(names, i) <= |Arena(names, |names|)|
    ensures var m := NextMatch(Arena(names, |names|), pat, OffsetOf(names, i));
      m.Some? && OffsetOf(names, i) <= m.value < OffsetOf(names, i) + |names[i].name|
  {
    var a, off := Arena(names, |names|), OffsetOf(names, i);
    ArenaEntry(names, i);
    var k := FirstOccurrence(names[i].name, pat);
    MatchInsideEntry(names, pat, i, k);
    NextMatchMeaning(a, pat, off);
  }

  /** Without a match in the name, the next one is the entry's newline or lies behind it. */
  lemma MatchMissed(names: seq<Named>, pat: Bytes, i: nat)
    requires SafeNeedle(pat) && CleanNames(names) && i < |names| && !Contains(names[i].name, pat)
    ensures OffsetOf(names, i) <= OffsetOf(names, i + 1) <= |Arena(names, |names|)|
    ensures var a, off, next := Arena(names, |names|), OffsetOf(names, i), OffsetOf(names, i + 1);
      NextMatch(a, pat, off) == Some(next - 1) || NextMatch(a, pat, off) == NextMatch(a, pat, next)
  {
    hide *;
    var a, off, name := Arena(names, |names|), OffsetOf(names, i), names[i].name;
    ArenaEntry(names, i);
    NoMatchInside(names, pat, i);
    NextMatchSkips(a, pat, off, off + |name|);
    NextMatchStep(a, pat, off + |name|);
  }

  lemma NoMatchInside(names: seq<Named>, pat: Bytes, i: nat)
    requires SafeNeedle(pat) && CleanNames(names) && i < |names| && !Contains(names[i].name, pat)
    ensures var a, off := Arena(names, |names|), OffsetOf(names, i);
      forall j :: off <= j < off + |names[i].name| ==> !OccursAt(a, pat, j)
  {
    hide Arena, OffsetOf, SafeNeedle, CleanNames, OccursAt;
    var a, off, name := Arena(names, |names|), OffsetOf(names, i), names[i].name;
    forall j | off <= j < off + |name| ensures !OccursAt(a, pat, j) {
      MatchInsideEntry(names, pat, i, j - off);
    }
  }

  lemma NextMatchStep(hay: Bytes, pat: Bytes, from: nat)
    requires from < |hay|
    ensures NextMatch(hay, pat, from) == Some(from) || NextMatch(hay, pat, from) == NextMatch(hay, pat, from + 1)
  {
  }

  lemma SafeIsNotEmpty(pat: Bytes)
    requires SafeNeedle(pat)
    ensures pat != []
  {
  }

  lemma ScanHit(s: Shard, pat: Bytes, from: nat, room: nat, pos: nat, i: nat)
    requires room > 0 && from <= |s.arena| && SafeNeedle(pat) && EntriesFit(s)
    requires i < |s.entries| && NextMatch(s.arena, pat, from) == Some(pos) && EntryIndex(s.entries, pos) == i
    ensures Scan(s, pat, from, room)
         == if pos < s.entries[i].off + s.entries[i].len
            then [s.entries[i].id] + Scan(s, pat, s.entries[i].off + s.entries[i].len + 1, room - 1)
            else Scan(s, pat, pos + 1, room)
  {
    hide *;
    SafeIsNotEmpty(pat);
    MatchHasEntry(s, pat, from, pos);
    if pos < s.entries[i].off + s.entries[i].len {
      ScanTakes(s, pat, from, room, pos, s.entries[i]);
    } else {
      ScanSkips(s, pat, from, room, pos, s.entries[i]);
    }
  }

  lemma ScanSame(s: Shard, pat: Bytes, from: nat, to: nat, room: nat)
    requires from <= |s.arena| && to <= |s.arena|
    requires NextMatch(s.arena, pat, from) == NextMatch(s.arena, pat, to)
    ensures Scan(s, pat, from, room) == Scan(s, pat, to, room)
  {
    hide NextMatch, EntryIndex;
  }

  lemma ShardArena(names: seq<Named>)
    ensures ShardOf(names).arena == Arena(names, |names|)
  {
  }

  /** Where the scan goes from the start of an entry that contains the pattern ... */
  lemma ScanMatchingEntry(names: seq<Named>, pat: Bytes, i: nat, room: nat)
    requires Addressable(names) && CleanNames(names) && SafeNeedle(pat) && i < |names| && room > 0
    requires Contains(names[i].name, pat)
    ensures Scan(ShardOf(names), pat, OffsetOf(names, i), room)
         == [names[i].id] + Scan(ShardOf(names), pat, OffsetOf(names, i + 1), room - 1)
  {
    hide *;
    var s, off := ShardOf(names), OffsetOf(names, i);
    ShardArena(names);
    ShardFits(names);
    ArenaEntry(names, i);
    ShardEntries(names, i);
    MatchFound(names, pat, i);
    var pos := NextMatch(s.arena, pat, off).value;
    LookupInside(names, i, pos);
    ScanHit(s, pat, off, room, pos, i);
  }

  /** ... and of one that does not. */
  lemma ScanOtherEntry(names: seq<Named>, pat: Bytes, i: nat, room: nat)
    requires Addressable(names) && CleanNames(names) && SafeNeedle(pat) && i < |names| && room > 0
    requires !Contains(names[i].name, pat)
    ensures Scan(ShardOf(names), pat, OffsetOf(names, i), room)
         == Scan(ShardOf(names), pat, OffsetOf(names, i + 1), room)
  {
    hide *;
    var s, off, next := ShardOf(names), OffsetOf(names, i), OffsetOf(names, i + 1);
    ShardArena(names);
    ShardFits(names);
    ArenaEntry(names, i);
    ShardEntries(names, i);
    MatchMissed(names, pat, i);
    LookupInside(names, i, next - 1);
    if NextMatch(s.arena, pat, off) == Some(next - 1) {
      ScanHit(s, pat, off, room, next - 1, i);
    } else {
      ScanSame(s, pat, off, next, room);
    }
  }

  lemma ScanAtEnd(names: seq<Named>, pat: Bytes, room: nat)
    requires SafeNeedle(pat)
    ensures Scan(ShardOf(names), pat, OffsetOf(names, |names|), room) == []
  {
  }

  /** The plain scan of the names from position i on. */
  function HitsFrom(names: seq<Named>, pat: Bytes, i: nat): seq<Uuid>
    requires i <= |names|
    decreases |names| - i
  {
    if i == |names| then []
    else if Contains(names[i].name, pat) then [names[i].id] + HitsFrom(names, pat, i + 1)
    else HitsFrom(names, pat, i + 1)
  }

  lemma {:induction false} HitsFromIsHits(names: seq<Named>, pat: Bytes, i: nat)
    requires i <= |names|
    ensures HitsFrom(names, pat, i) == Hits(names[i..], pat)
    decreases |names| - i
  {
    hide Contains;
    if i < |names| {
      assert names[i..][1..] == names[i + 1..];
      HitsFromIsHits(names, pat, i + 1);
    }
  }

  lemma TakeCons<T>(x: T, s: seq<T>, n: nat)
    requires n > 0
    ensures Take([x] + s, n) == [x] + Take(s, n - 1)
  {
  }

  /** From the start of entry i the scan finds what the plain scan of the entries from i on finds. */
  lemma {:induction false} ScanIsHits(names: seq<Named>, pat: Bytes, i: nat, room: nat)
    requires Addressable(names) && CleanNames(names) && SafeNeedle(pat) && i <= |names|
    ensures Scan(ShardOf(names), pat, OffsetOf(names, i), room) == Take(HitsFrom(names, pat, i), room)
    decreases |names| - i
  {
    hide Scan, ShardOf, OffsetOf, Contains, Addressable, SafeNeedle, CleanNames;
    if room == 0 {
      ScanFull(ShardOf(names), pat, OffsetOf(names, i));
    } else if i == |names| {
      ScanAtEnd(names, pat, room);
    } else if Contains(names[i].name, pat) {
      ScanMatchingEntry(names, pat, i, room);
      ScanIsHits(names, pat, i + 1, room - 1);
      TakeCons(names[i].id, HitsFrom(names, pat, i + 1), room);
    } else {
      ScanOtherEntry(names, pat, i, room);
      ScanIsHits(names, pat, i + 1, room);
    }
  }

  // ----- the whole index

  lemma TakeLeft<T>(a: seq<T>, b: seq<T>, n: nat)
    ensures Take(Take(a, n) + b, n) == Take(a + b, n)
  {
    if n < |a| {
      assert (a[..n] + b)[..n] == a[..n] == (a + b)[..n];
    }
  }

  /** Cutting each shard at the cap costs nothing once the whole is cut at the cap. */
  lemma {:induction false} CappedShards(chunks: seq<seq<Named>>, extra: seq<Uuid>, pat: Bytes, cap: nat)
    requires SafeNeedle(pat)
    requires forall i :: 0 <= i < |chunks| ==> Addressable(chunks[i]) && CleanNames(chunks[i])
    ensures Take(ShardScans(ShardsOf(chunks), pat, cap) + extra, cap)
         == Take(Hits(Flatten(chunks), pat) + extra, cap)
  {
    if chunks != [] {
      var c, rest := chunks[0], ShardScans(ShardsOf(chunks[1..]), pat, cap);
      var own := Hits(c, pat);
      assert ShardsOf(chunks)[1..] == ShardsOf(chunks[1..]);
      assert c[0..] == c;
      ScanIsHits(c, pat, 0, cap);
      HitsFromIsHits(c, pat, 0);
      HitsAppend(c, Flatten(chunks[1..]), pat);
      CappedShards(chunks[1..], extra, pat, cap);
      hide *;
      CappedStep(own, rest, Hits(Flatten(chunks[1..]), pat), extra, cap);
    }
  }

  lemma CappedStep(own: seq<Uuid>, rest: seq<Uuid>, others: seq<Uuid>, extra: seq<Uuid>, cap: nat)
    requires Take(rest + extra, cap) == Take(others + extra, cap)
    ensures Take(Take(own, cap) + rest + extra, cap) == Take(own + others + extra, cap)
  {
    Regroup(Take(own, cap), rest, extra);
    Regroup(own, others, extra);
    TakeLeft(own, rest + extra, cap);
    TakeRight(own, rest + extra, others + extra, cap);
  }

  lemma TakeRight<T>(a: seq<T>, b: seq<T>, c: seq<T>, n: nat)
    requires Take(b, n) == Take(c, n)
    ensures Take(a + b, n) == Take(a + c, n)
  {
    var m := if n < |a| then 0 else n - |a|;
    assert Take(a + b, n) == Take(a, n) + Take(Take(b, n), m);
    assert Take(a + c, n) == Take(a, n) + Take(Take(c, n), m);
  }

  lemma {:induction false} ChunksFlatten(names: seq<Named>, size: nat)
    requires size >= 1
    ensures Flatten(Chunks(names, size)) == names
  {
    if names != [] && |names| > size {
      ChunksFlatten(names[size..], size);
      assert names[..size] + names[size..] == names;
    } else if names != [] {
      assert [names][1..] == [];
      assert names + [] == names;
    }
  }

  lemma {:induction false} ChunksClean(names: seq<Named>, size: nat)
    requires size >= 1 && CleanNames(names)
    ensures forall i :: 0 <= i < |Chunks(names, size)| ==> CleanNames(Chunks(names, size)[i])
  {
    if |names| > size {
      ChunksClean(names[size..], size);
    }
  }

  /** Every chunk assemble makes can be addressed with u32 offsets. */
  predicate AllAddressable(names: seq<Named>) {
    forall i :: 0 <= i < |Chunks(names, PerShard(|names|))| ==> Addressable(Chunks(names, PerShard(|names|))[i])
  }

  /**
   Main result: on an assembled index with any delta, a search returns the first cap ids of a plain
   scan over the base names in order and then the delta.
   */
  lemma SearchIsPlainScan(names: seq<Named>, delta: seq<Named>, watermark: Time, len: nat, pat: Bytes, cap: nat)
    requires AllAddressable(names) && CleanNames(names) && SafeNeedle(pat)
    ensures Search(Index(Assembled(names, watermark).shards, delta, watermark, len), pat, cap)
         == Take(Hits(names + delta, pat), cap)
  {
    var chunks := Chunks(names, PerShard(|names|));
    ChunksClean(names, PerShard(|names|));
    CappedShards(chunks, Hits(delta, pat), pat, cap);
    ChunksFlatten(names, PerShard(|names|));
    HitsAppend(names, delta, pat);
  }

  // ----- every other needle finds names that do not contain it

  /** The lines of a text as entries. */
  function LinesOf(s: Bytes): (names: seq<Named>)
    ensures names != []
    decreases |s|
  {
    if NEWLINE !in s then [Named(s, 0)]
    else
      var i := IndexOf(s, NEWLINE);
      [Named(s[..i], 0)] + LinesOf(s[i + 1..])
  }

  function IndexOf(s: Bytes, b: Byte): (i: nat)
    requires b in s
    ensures i < |s| && s[i] == b && b !in s[..i]
  {
    if s[0] == b then 0
    else
      assert s == [s[0]] + s[1..];
      1 + IndexOf(s[1..], b)
  }

  lemma {:induction false} ArenaPrepend(first: Named, names: seq<Named>, n: nat)
    requires n <= |names|
    ensures Arena([first] + names, n + 1) == first.name + [NEWLINE] + Arena(names, n)
  {
    var all := [first] + names;
    if n == 0 {
      assert Arena(all, 0) + first.name == first.name;
      assert Arena(all, 1) == first.name + [NEWLINE];
    } else {
      ArenaPrepend(first, names, n - 1);
      assert all[n] == names[n - 1];
      var head, tail := first.name + [NEWLINE], names[n - 1].name;
      Regroup(head, Arena(names, n - 1), tail);
      Regroup(head, Arena(names, n - 1) + tail, [NEWLINE]);
    }
  }

  /** Laid out as an arena, the lines are the text again. */
  lemma {:induction false} LinesOfArena(s: Bytes)
    ensures Arena(LinesOf(s), |LinesOf(s)|) == s + [NEWLINE]
    ensures CleanNames(LinesOf(s))
    decreases |s|
  {
    if NEWLINE in s {
      var i := IndexOf(s, NEWLINE);
      LinesOfArena(s[i + 1..]);
      LinesOfNext(s, i);
    } else {
      ArenaPrepend(Named(s, 0), [], 0);
      assert [Named(s, 0)] + [] == [Named(s, 0)];
    }
  }

  lemma LinesOfNext(s: Bytes, i: nat)
    requires NEWLINE in s && i == IndexOf(s, NEWLINE)
    requires var rest := LinesOf(s[i + 1..]); Arena(rest, |rest|) == s[i + 1..] + [NEWLINE] && CleanNames(rest)
    ensures Arena(LinesOf(s), |LinesOf(s)|) == s + [NEWLINE]
    ensures CleanNames(LinesOf(s))
  {
    hide *;
    var first, rest := Named(s[..i], 0), LinesOf(s[i + 1..]);
    LinesOfIs(s, i);
    ArenaPrepend(first, rest, |rest|);
    CutAt(s, i);
    Regroup(s[..i] + [NEWLINE], s[i + 1..], [NEWLINE]);
    CleanCons(first, rest);
  }

  lemma LinesOfIs(s: Bytes, i: nat)
    requires NEWLINE in s && i == IndexOf(s, NEWLINE)
    ensures i < |s| && s[i] == NEWLINE && NEWLINE !in s[..i]
    ensures LinesOf(s) == [Named(s[..i], 0)] + LinesOf(s[i + 1..])
  {
    hide IndexOf;
  }

  lemma CutAt(s: Bytes, i: nat)
    requires i < |s| && s[i] == NEWLINE
    ensures s == s[..i] + [NEWLINE] + s[i + 1..]
  {
  }

  lemma CleanCons(first: Named, rest: seq<Named>)
    requires NEWLINE !in first.name && CleanNames(rest)
    ensures CleanNames([first] + rest)
  {
  }

  function Copies(names: seq<Named>, n: nat): (r: seq<Named>)
    ensures |r| == n * |names|
  {
    if n == 0 then [] else names + Copies(names, n - 1)
  }

  lemma {:induction false} CopiesIn(names: seq<Named>, n: nat)
    ensures forall x :: x in Copies(names, n) ==> x in names
  {
    if n > 0 {
      CopiesIn(names, n - 1);
    }
  }

  predicate DistinctIds(names: seq<Named>) {
    forall i, j :: 0 <= i < j < |names| ==> names[i].id != names[j].id
  }

  /** The same names with ids counted up. */
  function Numbered(names: seq<Named>, from: nat): (r: seq<Named>)
    ensures |r| == |names| && forall i :: 0 <= i < |names| ==> r[i] == Named(names[i].name, from + i)
  {
    seq(|names|, i requires 0 <= i < |names| => Named(names[i].name, from + i))
  }

  lemma {:induction false} NumberedArena(names: seq<Named>, from: nat, n: nat)
    requires n <= |names|
    ensures Arena(Numbered(names, from), n) == Arena(names, n)
  {
    if n > 0 {
      NumberedArena(names, from, n - 1);
    }
  }

  /** Numbered copies fill the chunks one by one. */
  lemma {:induction false} CopiesChunks(names: seq<Named>, n: nat, from: nat)
    requires names != [] && n >= 1 && Addressable(names)
    ensures var chunks := Chunks(Numbered(Copies(names, n), from), |names|);
      chunks != [] && chunks[0] == Numbered(names, from) && forall i :: 0 <= i < |chunks| ==> Addressable(chunks[i])
    decreases n
  {
    hide *;
    var m, all := |names|, Numbered(Copies(names, n), from);
    NumberedAddressable(names, from);
    CopiesSplit(names, n, from);
    if n > 1 {
      MoreThanOne(n, m);
      CopiesChunks(names, n - 1, from + m);
      ChunksCons(all, m);
    } else {
      ChunksOne(all, m);
    }
  }

  lemma NumberedAddressable(names: seq<Named>, from: nat)
    requires Addressable(names)
    ensures Addressable(Numbered(names, from))
  {
    NumberedArena(names, from, |names|);
    hide Arena, Numbered;
  }

  lemma CopiesSplit(names: seq<Named>, n: nat, from: nat)
    requires names != [] && n >= 1
    ensures var m, all := |names|, Numbered(Copies(names, n), from);
      && |all| == n * m
      && (n == 1 ==> all == Numbered(names, from))
      && (n > 1 ==>
        m < |all| && all[..m] == Numbered(names, from) && all[m..] == Numbered(Copies(names, n - 1), from + m))
  {
    var m := |names|;
    assert Copies(names, n) == names + Copies(names, n - 1);
    hide Copies;
    if n > 1 {
      MoreThanOne(n, m);
      assert Numbered(names + Copies(names, n - 1), from)[..m] == Numbered(names, from);
      assert Numbered(names + Copies(names, n - 1), from)[m..] == Numbered(Copies(names, n - 1), from + m);
    }
  }

  lemma ChunksCons(all: seq<Named>, m: nat)
    requires 1 <= m < |all|
    ensures Chunks(all, m) == [all[..m]] + Chunks(all[m..], m)
  {
  }

  lemma ChunksOne(all: seq<Named>, m: nat)
    requires |all| == m >= 1
    ensures Chunks(all, m) == [all]
  {
  }

  lemma MoreThanOne(n: nat, m: nat)
    requires n > 1 && m >= 1
    ensures n * m > m
  {
  }

  /** The arena of the needle's own lines holds the needle at position 0. */
  lemma LinesMatchAtStart(pat: Bytes)
    requires pat != [] && !SafeNeedle(pat) && |pat| + 1 < U32
    ensures Addressable(LinesOf(pat)) && LinesOf(pat)[0].name != []
    ensures Scan(ShardOf(Numbered(LinesOf(pat), 0)), pat, 0, 1) == [0]
  {
    var lines := LinesOf(pat);
    var names := Numbered(lines, 0);
    LinesOfArena(pat);
    assert lines[0].name == pat[..IndexOf(pat, NEWLINE)] && |lines[0].name| > 0;
    NumberedArena(lines, 0, |lines|);
    assert Addressable(lines) && Addressable(names) && OffsetOf(names, 0) == 0;
    hide *;
    ScanAtStart(names, pat);
  }

  lemma ScanAtStart(names: seq<Named>, pat: Bytes)
    requires Addressable(names) && names != [] && names[0].name != [] && pat != []
    requires Arena(names, |names|) == pat + [NEWLINE] && OffsetOf(names, 0) == 0
    ensures Scan(ShardOf(names), pat, 0, 1) == [names[0].id]
  {
    var s := ShardOf(names);
    ShardArena(names);
    ShardFits(names);
    ShardEntries(names, 0);
    ArenaEntry(names, 0);
    LookupInside(names, 0, 0);
    assert NextMatch(s.arena, pat, 0) == Some(0) by {
      assert (pat + [NEWLINE])[0..|pat|] == pat;
    }
    ScanTakes(s, pat, 0, 1, 0, s.entries[0]);
    ScanFull(s, pat, s.entries[0].off + s.entries[0].len + 1);
  }

  lemma CleanHoldsNoNewline(name: Bytes, pat: Bytes)
    requires NEWLINE !in name && NEWLINE in pat
    ensures !Contains(name, pat)
  {
    forall k | 0 <= k <= |name| ensures !OccursAt(name, pat, k) {
      var i :| 0 <= i < |pat| && pat[i] == NEWLINE;
      if k + |pat| <= |name| {
        assert name[k..k + |pat|][i] == name[k + i];
        assert name[k + i] in name;
      }
    }
  }

  lemma {:induction false} NoHits(names: seq<Named>, pat: Bytes)
    requires CleanNames(names) && NEWLINE in pat
    ensures Hits(names, pat) == []
  {
    if names != [] {
      CleanHoldsNoNewline(names[0].name, pat);
      NoHits(names[1..], pat);
    }
  }

  /** Eight copies of the needle's lines fill the shards so that each holds the needle across entries. */
  function NeedleInLines(pat: Bytes): seq<Named> {
    Numbered(Copies(LinesOf(pat), SHARDS), 0)
  }

  /** On that index the search returns a product whose name does not contain the needle. */
  lemma UnsafeNeedleDiffers(pat: Bytes)
    requires pat != [] && !SafeNeedle(pat) && |pat| + 1 < U32
    ensures var names := NeedleInLines(pat);
            && CleanNames(names) && AllAddressable(names) && DistinctIds(names) && names != []
            && Search(Assembled(names, 0), pat, 1) == [names[0].id] && !Contains(names[0].name, pat)
            && Hits(names, pat) == []
  {
    assert SHARDS >= 1;
    assert NeedleInLines(pat) == Numbered(Copies(LinesOf(pat), SHARDS), 0);
    hide *;
    var lines := LinesOf(pat);
    var names := NeedleInLines(pat);
    LinesOfArena(pat);
    LinesMatchAtStart(pat);
    CopiesChunks(lines, SHARDS, 0);
    CopiesClean(lines, SHARDS);
    NewlineInside(pat);
    EightChunks(lines, names);
    NoHits(names, pat);
    CleanFirst(names);
    CleanHoldsNoNewline(names[0].name, pat);
    ScansStart(Chunks(names, |lines|), Numbered(lines, 0), pat);
    SearchOf(names, pat);
  }

  lemma CopiesClean(names: seq<Named>, n: nat)
    requires CleanNames(names) && names != [] && n >= 1
    ensures var all := Numbered(Copies(names, n), 0); CleanNames(all) && DistinctIds(all) && all != []
  {
    CopiesIn(names, n);
    var all := Numbered(Copies(names, n), 0);
    forall i | 0 <= i < |all| ensures NEWLINE !in all[i].name {
      assert Copies(names, n)[i] in names;
    }
    MoreThanNone(n, |names|);
    hide Copies;
  }

  lemma MoreThanNone(n: nat, m: nat)
    requires n >= 1 && m >= 1
    ensures n * m >= 1
  {
  }

  lemma NewlineInside(pat: Bytes)
    requires pat != [] && !SafeNeedle(pat)
    ensures NEWLINE in pat
  {
  }

  lemma EightChunks(lines: seq<Named>, names: seq<Named>)
    requires lines != [] && names == Numbered(Copies(lines, SHARDS), 0)
    requires forall i :: 0 <= i < |Chunks(names, |lines|)| ==> Addressable(Chunks(names, |lines|)[i])
    ensures PerShard(|names|) == |lines| && AllAddressable(names)
  {
    hide Chunks, Addressable, Copies;
  }

  lemma CleanFirst(names: seq<Named>)
    requires CleanNames(names) && names != []
    ensures NEWLINE !in names[0].name
  {
  }

  lemma SearchOf(names: seq<Named>, pat: Bytes)
    requires pat != []
    ensures Search(Assembled(names, 0), pat, 1)
         == Take(ShardScans(ShardsOf(Chunks(names, PerShard(|names|))), pat, 1) + Hits([], pat), 1)
  {
    hide Chunks, ShardScans, ShardsOf, PerShard, Hits;
  }

  lemma ScansStart(chunks: seq<seq<Named>>, first: seq<Named>, pat: Bytes)
    requires chunks != [] && chunks[0] == first && Scan(ShardOf(first), pat, 0, 1) == [0]
    ensures Take(ShardScans(ShardsOf(chunks), pat, 1) + Hits([], pat), 1) == [0]
  {
  }

  /** On every index the code can build, a search for pat is the plain scan. */
  ghost predicate SearchesPlainly(pat: Bytes) {
    forall names, delta, cap :: CleanNames(names) && AllAddressable(names) && DistinctIds(names) ==>
      Search(Index(Assembled(names, 0).shards, delta, 0, |names|), pat, cap) == Take(Hits(names + delta, pat), cap)
  }

  /**
   The exact condition: searches agree with the plain scan on every index iff the needle holds no
   newline, or starts with one.
   */
  lemma SearchIsPlainScanExactly(pat: Bytes)
    requires pat != [] && |pat| + 1 < U32
    ensures SearchesPlainly(pat) <==> SafeNeedle(pat)
  {
    if SafeNeedle(pat) {
      forall names, delta, cap | CleanNames(names) && AllAddressable(names) && DistinctIds(names)
        ensures Search(Index(Assembled(names, 0).shards, delta, 0, |names|), pat, cap)
             == Take(Hits(names + delta, pat), cap)
      {
        SearchIsPlainScan(names, delta, 0, |names|, pat, cap);
      }
    } else {
      var names := NeedleInLines(pat);
      UnsafeNeedleDiffers(pat);
      var none: seq<Named> := [];
      assert names + none == names;
      assert Assembled(names, 0) == Index(Assembled(names, 0).shards, none, 0, |names|);
      assert Search(Index(Assembled(names, 0).shards, none, 0, |names|), pat, 1) != Take(Hits(names + none, pat), 1);
    }
  }
}
