/**
 What the name index holds and finds, said on names, rows and octets: how a name is cut, how many shards there
 are, what a build and a refresh store, and which products a search returns.
 */
module IndexContents {
  import opened Common
  import opened SearchIndex
  import opened SearchMeaning
  import opened IndexRefresh

  // ----- names stay UTF-8 text

  /** The octets a first octet announces: table 3-6 of the Unicode standard, by length only. */
  function CharLength(b: Byte): nat {
    var n := b as int;
    if n < 0x80 then 1
    else if 0xC0 <= n < 0xE0 then 2
    else if 0xE0 <= n < 0xF0 then 3
    else if 0xF0 <= n < 0xF8 then 4
    else 0
  }

  predicate Continues(b: Byte) {
    0x80 <= b as int <= 0xBF
  }

  /** Whole characters, one after the other. */
  predicate IsUtf8(s: Bytes) {
    s == "" ||
    var k := CharLength(s[0]);
    && 0 < k <= |s|
    && (forall i :: 0 < i < k ==> Continues(s[i]))
    && IsUtf8(s[k..])
  }

  lemma {:induction false} BoundaryKeepsUtf8(s: Bytes, i: nat)
    requires IsUtf8(s) && i <= |s| && IsCharBoundary(s, i)
    ensures IsUtf8(s[..i])
    decreases |s|
  {
    if i > 0 {
      var k := CharLength(s[0]);
      assert forall j :: 0 < j < k ==> Continues(s[j]);
      assert i < |s| ==> s[k..][i - k] == s[i];
      BoundaryKeepsUtf8(s[k..], i - k);
      assert s[..i][k..] == s[k..][..i - k];
      assert forall j :: 0 < j < k ==> s[..i][j] == s[j];
    }
  }

  /** A character takes at most four octets, so a boundary is never far. */
  lemma {:induction false} BoundaryNear(s: Bytes, n: nat) returns (j: nat)
    requires IsUtf8(s) && n < |s|
    ensures n - 3 <= j <= n && IsCharBoundary(s, j)
    decreases |s|
  {
    var k := CharLength(s[0]);
    if n < k {
      j := 0;
    } else {
      if n == k && k < |s| {
        StartsCharacter(s, k);
      }
      if n - k < |s[k..]| {
        var i := BoundaryNear(s[k..], n - k);
        j := i + k;
        assert i < |s[k..]| ==> s[k..][i] == s[j];
        if i == 0 {
          StartsCharacter(s, k);
        }
      }
    }
  }

  lemma StartsCharacter(s: Bytes, k: nat)
    requires k < |s| && IsUtf8(s[k..])
    ensures IsCharBoundary(s, k)
  {
    assert s[k..][0] == s[k];
  }

  lemma {:induction false} LastBoundaryIsLast(s: Bytes, n: nat)
    requires n <= |s|
    ensures IsCharBoundary(s, LastBoundary(s, n))
    ensures forall j :: LastBoundary(s, n) < j <= n ==> !IsCharBoundary(s, j)
  {
    if !IsCharBoundary(s, n) {
      LastBoundaryIsLast(s, n - 1);
    }
  }

  lemma {:induction false} CleaningKeepsUtf8(s: Bytes, t: Bytes)
    requires IsUtf8(s) && |t| == |s|
    requires forall i :: 0 <= i < |s| ==> t[i] == if s[i] == NEWLINE || s[i] == NUL then SPACE else s[i]
    ensures IsUtf8(t)
  {
    if s != "" {
      var k := CharLength(s[0]);
      assert CharLength(t[0]) == k;
      assert forall i :: 0 < i < k ==> Continues(s[i]);
      CleaningKeepsUtf8(s[k..], t[k..]);
    }
  }

  /**
   A stored name: the lowered name octet by octet, with spaces for newlines and NULs, as a whole up to 120 octets;
   a longer one loses its end, and no more of it than the last character that does not fit.
   */
  lemma ClippedExactly(lowered: Bytes)
    requires IsUtf8(lowered)
    ensures var clipped := Clipped(lowered);
      && IsUtf8(clipped)
      && |clipped| <= |lowered| && (if |lowered| <= 120 then |clipped| == |lowered| else 117 <= |clipped| <= 120)
      && forall i :: 0 <= i < |clipped| ==>
           clipped[i] == if lowered[i] == '\n' || lowered[i] == '\0' then ' ' else lowered[i]
  {
    var text := Cleaned(lowered);
    CleaningKeepsUtf8(lowered, text);
    if |text| > 120 {
      var j := BoundaryNear(text, 120);
      LastBoundaryIsLast(text, 120);
      BoundaryKeepsUtf8(text, LastBoundary(text, 120));
    }
  }

  // ----- shards

  lemma {:induction false} ChunkSizes(names: seq<Named>, size: nat)
    requires size >= 1
    ensures var chunks := Chunks(names, size);
      && (forall i :: 0 <= i < |chunks| ==> 1 <= |chunks[i]| <= size)
      && (forall i :: 0 <= i < |chunks| - 1 ==> |chunks[i]| == size)
      && (names != [] ==> (|chunks| - 1) * size < |names|) && (names == [] ==> chunks == [])
  {
    if |names| > size {
      ChunkSizes(names[size..], size);
      var rest := Chunks(names[size..], size);
      assert (|rest| - 1) * size + size == |rest| * size;
    }
  }

  lemma {:induction false} ShardSizes(chunks: seq<seq<Named>>, i: nat)
    requires i < |chunks|
    ensures |ShardsOf(chunks)| == |chunks| && |ShardsOf(chunks)[i].entries| == |chunks[i]|
  {
    if i > 0 {
      ShardSizes(chunks[1..], i - 1);
    } else if |chunks| > 1 {
      ShardSizes(chunks[1..], 0);
    }
  }

  /** At most eight shards; all but the last hold an eighth of the names, rounded up. */
  lemma ShardsAreBalanced(names: seq<Named>, watermark: Time)
    ensures var shards, per := Assembled(names, watermark).shards, (|names| + 7) / 8;
      && |shards| <= 8
      && (forall i :: 0 <= i < |shards| - 1 ==> |shards[i].entries| == per)
      && (shards != [] ==> 1 <= |shards[|shards| - 1].entries| <= per)
  {
    var size := PerShard(|names|);
    var chunks := Chunks(names, size);
    assert names != [] ==> size == (|names| + 7) / 8;
    ChunkSizes(names, size);
    forall i | 0 <= i < |chunks|
      ensures |ShardsOf(chunks)| == |chunks| && |ShardsOf(chunks)[i].entries| == |chunks[i]|
    {
      ShardSizes(chunks, i);
    }
    if names != [] {
      EightChunksFit(|chunks|, size, |names|);
    }
    hide Chunks, ShardsOf;
  }

  lemma EightChunksFit(chunks: nat, size: nat, n: nat)
    requires chunks >= 1 && (chunks - 1) * size < n && size == (n + 7) / 8
    ensures chunks <= 8
  {
    TimesGrows(chunks - 1, 8, size);
  }

  lemma TimesGrows(a: nat, b: nat, size: nat)
    ensures a >= b ==> a * size >= b * size
  {
    if a > b {
      TimesGrows(a - 1, b, size);
    }
  }

  // ----- builds and refreshes

  /** What a build stores: every row under its clipped name, in order, and the latest stamp. */
  lemma BuiltContents(rows: seq<Row>, lower: Lower)
    ensures var l := Built(rows, lower);
      && l.delta == [] && |l.base| == |rows|
      && (forall i :: 0 <= i < |rows| ==> l.base[i] == Named(Clipped(lower(rows[i].name)), rows[i].id))
      && (forall i :: 0 <= i < |rows| ==> rows[i].updatedAt <= l.watermark)
      && (l.watermark == 0 || exists i :: 0 <= i < |rows| && rows[i].updatedAt == l.watermark)
  {
    forall i | 0 <= i < |rows|
      ensures NamesOf(rows, lower)[i] == Named(Clipped(lower(rows[i].name)), rows[i].id) && rows[i] in rows
    {
      NamesOfAt(rows, lower, i);
    }
    LatestIsMaximum(rows, 0);
    hide NamesOf, Latest, Clipped;
  }

  /** What a refresh stores: the same behind the old delta, over the same base, and no earlier a watermark. */
  lemma RefreshedContents(l: Layers, rows: seq<Row>, lower: Lower)
    ensures var l' := Refreshed(l, rows, lower);
      && l'.base == l.base && |l'.delta| == |l.delta| + |rows| && l'.delta[..|l.delta|] == l.delta
      && (forall i :: 0 <= i < |rows| ==> l'.delta[|l.delta| + i] == Named(Clipped(lower(rows[i].name)), rows[i].id))
      && l.watermark <= l'.watermark && (forall i :: 0 <= i < |rows| ==> rows[i].updatedAt <= l'.watermark)
      && (l'.watermark == l.watermark || exists i :: 0 <= i < |rows| && rows[i].updatedAt == l'.watermark)
  {
    forall i | 0 <= i < |rows|
      ensures NamesOf(rows, lower)[i] == Named(Clipped(lower(rows[i].name)), rows[i].id) && rows[i] in rows
    {
      NamesOfAt(rows, lower, i);
    }
    LatestIsMaximum(rows, l.watermark);
    hide NamesOf, Latest, Clipped;
  }

  /** A refresh becomes a rebuild iff the delta would hold more than a tenth of the base. */
  lemma RebuildsBeyondTenth(l: Layers, rows: seq<Row>)
    ensures Outgrown(l, rows) <==> 10 * (|l.delta| + |rows|) > |l.base|
  {
  }

  // ----- searches

  predicate HoldsAt(name: Bytes, pat: Bytes, k: nat) {
    k + |pat| <= |name| && forall i :: 0 <= i < |pat| ==> name[k + i] == pat[i]
  }

  /** The needle's octets stand one after the other somewhere in the name. */
  ghost predicate Holds(name: Bytes, pat: Bytes) {
    exists k :: HoldsAt(name, pat, k)
  }

  lemma HoldsIsContains(name: Bytes, pat: Bytes)
    ensures Holds(name, pat) <==> Contains(name, pat)
  {
    forall k: nat | k <= |name| ensures HoldsAt(name, pat, k) <==> OccursAt(name, pat, k) {
      if HoldsAt(name, pat, k) {
        assert name[k..k + |pat|] == pat;
      }
      if OccursAt(name, pat, k) {
        var part := name[k..k + |pat|];
        forall i | 0 <= i < |pat| ensures name[k + i] == pat[i] {
          assert part[i] == name[k + i];
        }
      }
    }
  }

  /** at lists, in ascending order, the positions of the names that hold the needle. */
  ghost predicate AreHolders(names: seq<Named>, pat: Bytes, at: seq<nat>) {
    && (forall i, j :: 0 <= i < j < |at| ==> at[i] < at[j])
    && (forall i :: 0 <= i < |at| ==> at[i] < |names|)
    && (forall k :: 0 <= k < |names| ==> (k in at <==> Holds(names[k].name, pat)))
  }

  ghost predicate AreIdsAt(names: seq<Named>, at: seq<nat>, ids: seq<Uuid>) {
    |ids| == |at| && forall i :: 0 <= i < |at| ==> at[i] < |names| && ids[i] == names[at[i]].id
  }

  function Shifted(at: seq<nat>): (r: seq<nat>)
    ensures |r| == |at| && forall i :: 0 <= i < |at| ==> r[i] == at[i] + 1
  {
    seq(|at|, i requires 0 <= i < |at| => at[i] + 1)
  }

  lemma {:induction false} HitsAre(names: seq<Named>, pat: Bytes) returns (at: seq<nat>)
    ensures AreHolders(names, pat, at) && AreIdsAt(names, at, Hits(names, pat))
  {
    hide Holds, Contains, AreHolders, AreIdsAt;
    if names == [] {
      at := [];
      NothingHolds(pat);
    } else {
      var rest := HitsAre(names[1..], pat);
      at := (if Holds(names[0].name, pat) then [0] else []) + Shifted(rest);
      HitsFront(names, pat);
      HoldsIsContains(names[0].name, pat);
      ShiftedHolders(names, pat, rest, Shifted(rest));
      ShiftedIds(names, rest, Hits(names[1..], pat), Holds(names[0].name, pat));
    }
  }

  lemma NothingHolds(pat: Bytes)
    ensures AreHolders([], pat, []) && AreIdsAt([], [], Hits([], pat))
  {
  }

  lemma ShiftedIds(names: seq<Named>, rest: seq<nat>, ids: seq<Uuid>, first: bool)
    requires names != [] && AreIdsAt(names[1..], rest, ids)
    ensures AreIdsAt(names, (if first then [0] else []) + Shifted(rest), (if first then [names[0].id] else []) + ids)
  {
  }

  lemma HitsFront(names: seq<Named>, pat: Bytes)
    requires names != []
    ensures Hits(names, pat) == (if Contains(names[0].name, pat) then [names[0].id] else []) + Hits(names[1..], pat)
  {
  }

  lemma ShiftedHolders(names: seq<Named>, pat: Bytes, rest: seq<nat>, shifted: seq<nat>)
    requires names != [] && AreHolders(names[1..], pat, rest)
    requires |shifted| == |rest| && forall i :: 0 <= i < |rest| ==> shifted[i] == rest[i] + 1
    ensures AreHolders(names, pat, (if Holds(names[0].name, pat) then [0] else []) + shifted)
  {
    hide Holds;
    var at := (if Holds(names[0].name, pat) then [0] else []) + shifted;
    forall k | 0 <= k < |names| ensures k in at <==> Holds(names[k].name, pat) {
      if k > 0 {
        assert names[k] == names[1..][k - 1];
        if k - 1 in rest {
          var i :| 0 <= i < |rest| && rest[i] == k - 1;
          assert shifted[i] == k;
        }
        if k in shifted {
          var i :| 0 <= i < |shifted| && shifted[i] == k;
          assert rest[i] == k - 1;
        }
      }
    }
  }

  /** A search returns the ids at the first cap positions, in base and then delta, whose names hold the needle. */
  lemma SearchFinds(names: seq<Named>, delta: seq<Named>, watermark: Time, len: nat, pat: Bytes, cap: nat)
    requires AllAddressable(names) && CleanNames(names) && SafeNeedle(pat)
    ensures exists at ::
      && AreHolders(names + delta, pat, at)
      && AreIdsAt(names + delta, if |at| <= cap then at else at[..cap],
                  Search(Index(Assembled(names, watermark).shards, delta, watermark, len), pat, cap))
  {
    SearchIsPlainScan(names, delta, watermark, len, pat, cap);
    var at := HitsAre(names + delta, pat);
    hide Hits, Search, AreHolders, Assembled;
    assert AreIdsAt(names + delta, if |at| <= cap then at else at[..cap], Take(Hits(names + delta, pat), cap));
  }
}
