/**
 The in-memory name index: names of a chunk are laid out in one byte arena, a substring scan runs
 over the arena and maps each match back to its entry, and a small delta layer is scanned name by
 name. Names and needles are octet strings.
 */
module SearchIndex {
  import opened Common

  /** One char per octet of the UTF-8 text. */
  type Byte = char
  type Bytes = string
  type Uuid = nat
  type Time = nat

  const NEWLINE: Byte := '\n'
  const NUL: Byte := '\0'
  const SPACE: Byte := ' '
  const MAX_NAME_BYTES: nat := 120
  const SHARDS: nat := 8
  const U32: nat := 0x1_0000_0000

  datatype Named = Named(name: Bytes, id: Uuid)

  datatype Entry = Entry(off: nat, len: nat, id: Uuid)

  datatype Shard = Shard(arena: Bytes, entries: seq<Entry>)

  datatype Index = Index(shards: seq<Shard>, delta: seq<Named>, watermark: Time, len: nat)

  // ----- substring search

  /** memchr: the first position of a byte. */
  method Memchr(b: Byte, hay: Bytes) returns (r: Option<nat>)
    ensures r.None? ==> b !in hay
    ensures r.Some? ==> r.value < |hay| && hay[r.value] == b && b !in hay[..r.value]
  {
    for i := 0 to |hay|
      invariant b !in hay[..i]
    {
      if hay[i] == b {
        return Some(i);
      }
    }
    return None;
  }

  /** find_sub: the leftmost occurrence, hopping from first byte to first byte. */
  method FindSub(hay: Bytes, pat: Bytes) returns (r: Option<nat>)
    ensures r.Some? ==> pat != [] && OccursAt(hay, pat, r.value)
    ensures r.Some? ==> forall k :: 0 <= k < r.value ==> !OccursAt(hay, pat, k)
    ensures r.None? ==> pat == [] || !Contains(hay, pat)
  {
    if pat == [] || |hay| < |pat| {
      return None;
    }
    var i := 0;
    while true
      invariant 0 <= i <= |hay|
      invariant forall k :: 0 <= k < i ==> !OccursAt(hay, pat, k)
      decreases |hay| - i
    {
      var rel := Memchr(pat[0], hay[i..]);
      if rel.None? {
        NoFirstByte(hay, pat, i, |hay|);
        return None;
      }
      var start := i + rel.value;
      NoFirstByte(hay, pat, i, start);
      if start + |pat| > |hay| {
        return None;
      }
      if hay[start..start + |pat|] == pat {
        return Some(start);
      }
      i := start + 1;
    }
  }

  lemma NoFirstByte(hay: Bytes, pat: Bytes, i: nat, end: nat)
    requires pat != [] && i <= end <= |hay| && pat[0] !in hay[i..][..end - i]
    ensures forall k :: i <= k < end ==> !OccursAt(hay, pat, k)
  {
    forall k | i <= k < end ensures !OccursAt(hay, pat, k) {
      assert hay[k] == hay[i..][..end - i][k - i];
      if k + |pat| <= |hay| {
        assert hay[k..k + |pat|][0] == hay[k];
      }
    }
  }

  // ----- arena layout

  /** The arena of the first n names, each followed by a newline. */
  function Arena(names: seq<Named>, n: nat): Bytes
    requires n <= |names|
  {
    if n == 0 then [] else Arena(names, n - 1) + names[n - 1].name + [NEWLINE]
  }

  function OffsetOf(names: seq<Named>, i: nat): nat
    requires i <= |names|
  {
    |Arena(names, i)|
  }

  /** Offsets and lengths are stored with an as-u32 cast. */
  function AsU32(n: nat): nat {
    n % U32
  }

  lemma AsU32Small(n: nat)
    requires n < U32
    ensures AsU32(n) == n
  {
  }

  function PlacedEntry(names: seq<Named>, i: nat): Entry
    requires i < |names|
  {
    Entry(AsU32(OffsetOf(names, i)), AsU32(|names[i].name|), names[i].id)
  }

  function EntriesOf(names: seq<Named>, n: nat): (entries: seq<Entry>)
    requires n <= |names|
    ensures |entries| == n
  {
    if n == 0 then [] else EntriesOf(names, n - 1) + [PlacedEntry(names, n - 1)]
  }

  function ShardOf(names: seq<Named>): Shard {
    Shard(Arena(names, |names|), EntriesOf(names, |names|))
  }

  function Chunks(names: seq<Named>, size: nat): seq<seq<Named>>
    requires size >= 1
  {
    if names == [] then []
    else if |names| <= size then [names]
    else [names[..size]] + Chunks(names[size..], size)
  }

  function PerShard(n: nat): (size: nat)
    ensures size >= 1
  {
    Max((n + SHARDS - 1) / SHARDS, 1)
  }

  function ShardsOf(chunks: seq<seq<Named>>): seq<Shard> {
    if chunks == [] then [] else [ShardOf(chunks[0])] + ShardsOf(chunks[1..])
  }

  /** What assemble builds. */
  function Assembled(names: seq<Named>, watermark: Time): Index {
    Index(ShardsOf(Chunks(names, PerShard(|names|))), [], watermark, |names|)
  }

  lemma {:induction false} ShardsOfAppend(chunks: seq<seq<Named>>, last: seq<Named>)
    ensures ShardsOf(chunks + [last]) == ShardsOf(chunks) + [ShardOf(last)]
  {
    if chunks == [] {
      assert chunks + [last] == [last];
    } else {
      assert (chunks + [last])[1..] == chunks[1..] + [last];
      ShardsOfAppend(chunks[1..], last);
    }
  }

  method BuildShard(names: seq<Named>) returns (shard: Shard)
    ensures shard == ShardOf(names)
  {
    var arena: Bytes, entries: seq<Entry> := [], [];
    for i := 0 to |names|
      invariant arena == Arena(names, i)
      invariant entries == EntriesOf(names, i)
    {
      var off := AsU32(|arena|);
      arena := arena + names[i].name;
      entries := entries + [Entry(off, AsU32(|names[i].name|), names[i].id)];
      arena := arena + [NEWLINE];
    }
    shard := Shard(arena, entries);
  }

  lemma FirstChunk(names: seq<Named>, size: nat, i: nat)
    requires size >= 1 && i < |names|
    ensures var end := if i + size <= |names| then i + size else |names|;
      Chunks(names[i..], size) == [names[i..end]] + Chunks(names[end..], size)
  {
    if i + size < |names| {
      assert names[i..][..size] == names[i..i + size] && names[i..][size..] == names[i + size..];
    } else {
      assert names[i..|names|] == names[i..] && names[|names|..] == [];
    }
  }

  method Assemble(names: seq<Named>, watermark: Time) returns (index: Index)
    ensures index == Assembled(names, watermark)
  {
    hide *;
    var size := PerShard(|names|);
    var shards: seq<Shard> := [];
    ghost var done: seq<seq<Named>> := [];
    var i := 0;
    AssembledIs(names, watermark);
    while i < |names|
      invariant 0 <= i <= |names|
      invariant shards == ShardsOf(done)
      invariant Chunks(names, size) == done + Chunks(names[i..], size)
    {
      var end := if i + size <= |names| then i + size else |names|;
      FirstChunk(names, size, i);
      var shard := BuildShard(names[i..end]);
      ShardsOfAppend(done, names[i..end]);
      Regroup(done, [names[i..end]], Chunks(names[end..], size));
      shards := shards + [shard];
      done := done + [names[i..end]];
      i := end;
    }
    ChunksOfNothing(names[i..], size);
    assert done + [] == done;
    index := Index(shards, [], watermark, |names|);
  }

  lemma AssembledIs(names: seq<Named>, watermark: Time)
    ensures Assembled(names, watermark) == Index(ShardsOf(Chunks(names, PerShard(|names|))), [], watermark, |names|)
    ensures ShardsOf([]) == [] && names[0..] == names
  {
  }

  lemma ChunksOfNothing(names: seq<Named>, size: nat)
    requires size >= 1 && names == []
    ensures Chunks(names, size) == []
  {
  }

  // ----- the scan over one shard

  /** The entry a position belongs to: the last one that starts at or before it. */
  function EntryIndex(entries: seq<Entry>, pos: nat): (i: nat)
    requires entries != []
    ensures i < |entries|
  {
    if |entries| == 1 || entries[|entries| - 1].off <= pos then |entries| - 1
    else EntryIndex(entries[..|entries| - 1], pos)
  }

  predicate OffsetsAscend(entries: seq<Entry>) {
    forall i, j :: 0 <= i < j < |entries| ==> entries[i].off < entries[j].off
  }

  lemma {:induction false} EntryIndexIs(entries: seq<Entry>, pos: nat, i: nat)
    requires i < |entries| && OffsetsAscend(entries)
    requires i == 0 || entries[i].off <= pos
    requires i + 1 < |entries| ==> pos < entries[i + 1].off
    ensures EntryIndex(entries, pos) == i
  {
    var n := |entries|;
    if i < n - 1 {
      assert pos < entries[n - 1].off;
      EntryIndexIs(entries[..n - 1], pos, i);
    }
  }

  /** binary_search_by offset, with Err(i) mapped to the entry before i. */
  method LookupEntry(entries: seq<Entry>, pos: nat) returns (idx: nat)
    requires entries != [] && OffsetsAscend(entries)
    ensures idx == EntryIndex(entries, pos)
  {
    var lo, hi := 0, |entries|;
    while lo < hi
      invariant 0 <= lo <= hi <= |entries|
      invariant forall k :: 0 <= k < lo ==> entries[k].off < pos
      invariant forall k :: hi <= k < |entries| ==> pos < entries[k].off
    {
      var mid := (lo + hi) / 2;
      if entries[mid].off == pos {
        EntryIndexIs(entries, pos, mid);
        return mid;
      } else if entries[mid].off < pos {
        lo := mid + 1;
      } else {
        hi := mid;
      }
    }
    idx := if lo == 0 then 0 else lo - 1;
    EntryIndexIs(entries, pos, idx);
  }

  /** One hit per entry from position from on, at most room of them. */
  function Scan(shard: Shard, pat: Bytes, from: nat, room: nat): seq<Uuid>
    decreases room, |shard.arena| - from
  {
    if room == 0 || from > |shard.arena| || shard.entries == [] then []
    else
      var m := NextMatch(shard.arena, pat, from);
      if m.None? then []
      else
        var e := shard.entries[EntryIndex(shard.entries, m.value)];
        if m.value < e.off + e.len
        then [e.id] + Scan(shard, pat, e.off + e.len + 1, room - 1)
        else if m.value < |shard.arena| then Scan(shard, pat, m.value + 1, room)
        else []
  }

  lemma OccursInSuffix(hay: Bytes, pat: Bytes, from: nat, k: nat)
    requires from <= |hay|
    ensures OccursAt(hay[from..], pat, k) <==> OccursAt(hay, pat, from + k)
  {
    if from + k + |pat| <= |hay| {
      assert hay[from..][k..k + |pat|] == hay[from + k..from + k + |pat|];
    }
  }

  lemma NextMatchIs(hay: Bytes, pat: Bytes, from: nat, r: Option<nat>)
    requires from <= |hay| && pat != []
    requires r.Some? ==>
      OccursAt(hay[from..], pat, r.value) && forall k :: 0 <= k < r.value ==> !OccursAt(hay[from..], pat, k)
    requires r.None? ==> !Contains(hay[from..], pat)
    ensures NextMatch(hay, pat, from) == if r.Some? then Some(from + r.value) else None
  {
    NextMatchMeaning(hay, pat, from);
    forall k | from <= k <= |hay| && (r.Some? ==> k < from + r.value) ensures !OccursAt(hay, pat, k) {
      OccursInSuffix(hay, pat, from, k - from);
      assert !OccursAt(hay[from..], pat, k - from);
    }
    if r.Some? {
      OccursInSuffix(hay, pat, from, r.value);
    }
  }

  /** Positions a scan may start from never leave the arena: entries lie inside it. */
  predicate EntriesFit(shard: Shard) {
    && OffsetsAscend(shard.entries)
    && (shard.entries == [] ==> shard.arena == [])
    && forall i :: 0 <= i < |shard.entries| ==> shard.entries[i].off + shard.entries[i].len + 1 <= |shard.arena|
  }

  /** find_sub on the suffix, as a position of the whole arena. */
  method FindFrom(hay: Bytes, pat: Bytes, from: nat) returns (pos: Option<nat>)
    requires pat != [] && from <= |hay|
    ensures pos == NextMatch(hay, pat, from)
  {
    var rel := FindSub(hay[from..], pat);
    NextMatchIs(hay, pat, from, rel);
    pos := if rel.Some? then Some(from + rel.value) else None;
  }

  lemma ScanEnds(shard: Shard, pat: Bytes, from: nat, room: nat)
    requires from <= |shard.arena| && NextMatch(shard.arena, pat, from) == None
    ensures Scan(shard, pat, from, room) == []
  {
  }

  lemma MatchHasEntry(shard: Shard, pat: Bytes, from: nat, pos: nat)
    requires from <= |shard.arena| && pat != [] && EntriesFit(shard)
    requires NextMatch(shard.arena, pat, from) == Some(pos)
    ensures from <= pos < |shard.arena| && shard.entries != []
    ensures var e := shard.entries[EntryIndex(shard.entries, pos)]; e.off + e.len + 1 <= |shard.arena|
  {
    NextMatchMeaning(shard.arena, pat, from);
  }

  lemma ScanTakes(shard: Shard, pat: Bytes, from: nat, room: nat, pos: nat, e: Entry)
    requires room > 0 && from <= |shard.arena| && NextMatch(shard.arena, pat, from) == Some(pos)
    requires shard.entries != [] && e == shard.entries[EntryIndex(shard.entries, pos)] && pos < e.off + e.len
    ensures Scan(shard, pat, from, room) == [e.id] + Scan(shard, pat, e.off + e.len + 1, room - 1)
  {
  }

  lemma ScanSkips(shard: Shard, pat: Bytes, from: nat, room: nat, pos: nat, e: Entry)
    requires room > 0 && from <= |shard.arena| && NextMatch(shard.arena, pat, from) == Some(pos) && pos < |shard.arena|
    requires shard.entries != [] && e == shard.entries[EntryIndex(shard.entries, pos)] && pos >= e.off + e.len
    ensures Scan(shard, pat, from, room) == Scan(shard, pat, pos + 1, room)
  {
  }

  /** shard_hits: the loop computes the scan. */
  method ShardHits(shard: Shard, pat: Bytes, cap: nat) returns (hits: seq<Uuid>)
    requires pat != [] && EntriesFit(shard)
    ensures hits == Scan(shard, pat, 0, cap)
  {
    hide *;
    FitAscends(shard);
    hits := [];
    var from := 0;
    ghost var all, room := Scan(shard, pat, 0, cap), cap;
    ghost var rest := all;
    while |hits| < cap
      invariant 0 <= from <= |shard.arena|
      invariant room == cap - |hits| >= 0
      invariant rest == Scan(shard, pat, from, room)
      invariant all == hits + rest
      decreases room, |shard.arena| - from
    {
      var m := FindFrom(shard.arena, pat, from);
      if m.None? {
        ScanEnds(shard, pat, from, room);
        return;
      }
      var pos := m.value;
      MatchHasEntry(shard, pat, from, pos);
      var idx := LookupEntry(shard.entries, pos);
      var e := shard.entries[idx];
      var end := e.off + e.len;
      if pos < end {
        ScanTakes(shard, pat, from, room, pos, e);
        room := room - 1;
        rest := Scan(shard, pat, end + 1, room);
        Regroup(hits, [e.id], rest);
        hits := hits + [e.id];
        from := end + 1;
      } else {
        ScanSkips(shard, pat, from, room, pos, e);
        from := pos + 1;
      }
    }
    ScanFull(shard, pat, from);
  }

  lemma FitAscends(shard: Shard)
    requires EntriesFit(shard)
    ensures OffsetsAscend(shard.entries)
  {
  }

  lemma ScanFull(shard: Shard, pat: Bytes, from: nat)
    ensures Scan(shard, pat, from, 0) == []
  {
  }

  // ----- clipping names

  /** UTF-8 continuation octets are 0x80..0xBF; a boundary is anywhere else. */
  predicate IsCharBoundary(s: Bytes, i: nat)
    requires i <= |s|
  {
    i == 0 || i == |s| || !(0x80 <= s[i] as int < 0xC0)
  }

  function Cleaned(s: Bytes): (r: Bytes)
    ensures |r| == |s|
    ensures forall i :: 0 <= i < |s| ==> r[i] == if s[i] == NEWLINE || s[i] == NUL then SPACE else s[i]
  {
    if s == "" then ""
    else Cleaned(s[..|s| - 1]) + [if s[|s| - 1] == NEWLINE || s[|s| - 1] == NUL then SPACE else s[|s| - 1]]
  }

  /** clip_lower: one line, no NUL, at most 120 octets, cut at the last character boundary that fits. */
  method ClipLower(name: Bytes, lower: Bytes -> Bytes) returns (clipped: Bytes)
    ensures clipped <= Cleaned(lower(name)) && |clipped| <= MAX_NAME_BYTES
    ensures NEWLINE !in clipped && NUL !in clipped
    ensures |lower(name)| <= MAX_NAME_BYTES ==> clipped == Cleaned(lower(name))
    ensures IsCharBoundary(Cleaned(lower(name)), |clipped|)
    ensures forall k :: |clipped| < k <= Min(MAX_NAME_BYTES, |lower(name)|) ==> !IsCharBoundary(Cleaned(lower(name)), k)
    ensures clipped == Clipped(lower(name))
  {
    var text := Cleaned(lower(name));
    if |text| <= MAX_NAME_BYTES {
      return text;
    }
    var end := MAX_NAME_BYTES;
    while !IsCharBoundary(text, end)
      invariant 0 <= end <= MAX_NAME_BYTES
      invariant forall k :: end < k <= MAX_NAME_BYTES ==> !IsCharBoundary(text, k)
      invariant LastBoundary(text, MAX_NAME_BYTES) == LastBoundary(text, end)
      decreases end
    {
      end := end - 1;
    }
    clipped := text[..end];
  }

  function LastBoundary(s: Bytes, i: nat): (k: nat)
    requires i <= |s|
    ensures k <= i
  {
    if IsCharBoundary(s, i) then i else LastBoundary(s, i - 1)
  }

  /** The name as the index stores it, given its lowercase form. */
  function Clipped(lowered: Bytes): Bytes {
    var text := Cleaned(lowered);
    if |text| <= MAX_NAME_BYTES then text else text[..LastBoundary(text, MAX_NAME_BYTES)]
  }

  lemma ClippedIsClean(lowered: Bytes)
    ensures NEWLINE !in Clipped(lowered)
  {
    var text := Cleaned(lowered);
    assert forall i :: 0 <= i < |text| ==> text[i] != NEWLINE;
  }

  // ----- the search

  /** The reference: names in order, those that contain the needle. */
  function Hits(names: seq<Named>, pat: Bytes): seq<Uuid> {
    if names == [] then []
    else (if Contains(names[0].name, pat) then [names[0].id] else []) + Hits(names[1..], pat)
  }

  function ShardScans(shards: seq<Shard>, pat: Bytes, cap: nat): seq<Uuid> {
    if shards == [] then [] else Scan(shards[0], pat, 0, cap) + ShardScans(shards[1..], pat, cap)
  }

  /** search_into on the lowered needle. */
  function Search(index: Index, pat: Bytes, cap: nat): seq<Uuid> {
    if pat == [] then [] else Take(ShardScans(index.shards, pat, cap) + Hits(index.delta, pat), cap)
  }

  predicate WellFormed(index: Index) {
    forall i :: 0 <= i < |index.shards| ==> EntriesFit(index.shards[i])
  }

  lemma HitsCons(x: Named, names: seq<Named>, pat: Bytes)
    ensures Hits([x] + names, pat) == (if Contains(x.name, pat) then [x.id] else []) + Hits(names, pat)
  {
    assert ([x] + names)[1..] == names;
    hide Contains;
  }

  lemma {:induction false} HitsAppend(a: seq<Named>, b: seq<Named>, pat: Bytes)
    ensures Hits(a + b, pat) == Hits(a, pat) + Hits(b, pat)
  {
    hide *;
    if a == [] {
      assert a + b == b;
      NoNamesNoHits(pat);
    } else {
      HitsAppend(a[1..], b, pat);
      HitsCons(a[0], a[1..], pat);
      HitsCons(a[0], a[1..] + b, pat);
      assert [a[0]] + a[1..] == a;
      assert [a[0]] + (a[1..] + b) == a + b;
      Regroup(if Contains(a[0].name, pat) then [a[0].id] else [], Hits(a[1..], pat), Hits(b, pat));
    }
  }

  lemma NoNamesNoHits(pat: Bytes)
    ensures Hits([], pat) == []
  {
  }

  lemma {:induction false} ShardScansAppend(shards: seq<Shard>, last: Shard, pat: Bytes, cap: nat)
    ensures ShardScans(shards + [last], pat, cap) == ShardScans(shards, pat, cap) + Scan(last, pat, 0, cap)
  {
    if shards == [] {
      assert shards + [last] == [last] && [last][1..] == [];
      assert ShardScans([last], pat, cap) == Scan(last, pat, 0, cap) + [];
    } else {
      assert (shards + [last])[1..] == shards[1..] + [last];
      ShardScansAppend(shards[1..], last, pat, cap);
      Regroup(Scan(shards[0], pat, 0, cap), ShardScans(shards[1..], pat, cap), Scan(last, pat, 0, cap));
    }
  }

  method SearchInto(index: Index, needle: Bytes, cap: nat, lower: Bytes -> Bytes) returns (out: seq<Uuid>)
    requires WellFormed(index)
    ensures out == Search(index, lower(needle), cap)
  {
    var pat := lower(needle);
    if pat == [] {
      return [];
    }
    out := [];
    for i := 0 to |index.shards|
      invariant out == ShardScans(index.shards[..i], pat, cap)
    {
      var hits := ShardHits(index.shards[i], pat, cap);
      ShardScansAppend(index.shards[..i], index.shards[i], pat, cap);
      assert index.shards[..i + 1] == index.shards[..i] + [index.shards[i]];
      out := out + hits;
    }
    assert index.shards[..|index.shards|] == index.shards;
    ghost var base := out;
    for i := 0 to |index.delta|
      invariant out == base + Hits(index.delta[..i], pat)
    {
      var d := index.delta[i];
      var at := FindSub(d.name, pat);
      HitsAppend(index.delta[..i], [d], pat);
      assert index.delta[..i + 1] == index.delta[..i] + [d];
      assert Hits([d], pat) == (if Contains(d.name, pat) then [d.id] else []) + Hits([d][1..], pat);
      if at.Some? {
        assert Contains(d.name, pat);
        out := out + [d.id];
      }
    }
    assert index.delta[..|index.delta|] == index.delta;
    out := Take(out, cap);
  }
}
