/**
 What a search shows beyond the products it should: the delta layer repeats products of the base and
 the base keeps old names, so a product can be returned twice, or under a name it no longer has.
 */
module SearchStaleness {
  import opened Common
  import opened SearchIndex
  import opened SearchMeaning
  import opened IndexRefresh

  predicate Searchable(l: Layers) {
    AllAddressable(l.base) && CleanNames(l.base) && CleanNames(l.delta)
  }

  function Entries(l: Layers): seq<Named> {
    l.base + l.delta
  }

  predicate NoneTwice(ids: seq<Uuid>) {
    forall i, j :: 0 <= i < j < |ids| ==> ids[i] != ids[j]
  }

  lemma SearchScansEntries(l: Layers, pat: Bytes, cap: nat)
    requires Searchable(l) && SafeNeedle(pat)
    ensures Search(IndexFor(l), pat, cap) == Take(Hits(Entries(l), pat), cap)
  {
    hide *;
    LayersIndex(l);
    SearchIsPlainScan(l.base, l.delta, l.watermark, |l.base| + |l.delta|, pat, cap);
  }

  lemma LayersIndex(l: Layers)
    ensures IndexFor(l) == Index(Assembled(l.base, l.watermark).shards, l.delta, l.watermark, |l.base| + |l.delta|)
    ensures Searchable(l) ==> AllAddressable(l.base) && CleanNames(l.base)
    ensures Entries(l) == l.base + l.delta
  {
  }

  // ----- hits and the entries they come from

  lemma {:induction false} HitComesFrom(names: seq<Named>, pat: Bytes, id: Uuid) returns (k: nat)
    requires id in Hits(names, pat)
    ensures k < |names| && names[k].id == id && Contains(names[k].name, pat)
  {
    hide Contains;
    if Contains(names[0].name, pat) && names[0].id == id {
      k := 0;
    } else {
      var j := HitComesFrom(names[1..], pat, id);
      k := j + 1;
    }
  }

  lemma EntryIsHit(names: seq<Named>, pat: Bytes, k: nat)
    requires k < |names| && Contains(names[k].name, pat)
    ensures names[k].id in Hits(names, pat)
  {
    hide *;
    HitsInclude(names, pat, names[k]);
  }

  lemma TwoEntriesHitTwice(names: seq<Named>, pat: Bytes, i: nat, j: nat)
    requires i < j < |names| && names[i].id == names[j].id
    requires Contains(names[i].name, pat) && Contains(names[j].name, pat)
    ensures !NoneTwice(Hits(names, pat))
  {
    hide Contains, Hits;
    var front, back := names[..j], names[j..];
    assert names == front + back && front[i] == names[i] && back[0] == names[j];
    HitsAppend(front, back, pat);
    EntryIsHit(front, pat, i);
    EntryIsHit(back, pat, 0);
    var a :| 0 <= a < |Hits(front, pat)| && Hits(front, pat)[a] == names[i].id;
    var b :| 0 <= b < |Hits(back, pat)| && Hits(back, pat)[b] == names[i].id;
    assert Hits(names, pat)[|Hits(front, pat)| + b] == Hits(names, pat)[a];
  }

  lemma {:induction false} HitTwiceHasEntries(names: seq<Named>, pat: Bytes) returns (i: nat, j: nat)
    requires !NoneTwice(Hits(names, pat))
    ensures i < j < |names| && names[i].id == names[j].id
    ensures Contains(names[i].name, pat) && Contains(names[j].name, pat)
  {
    hide Contains;
    var rest := names[1..];
    if NoneTwice(Hits(rest, pat)) {
      var k := HitComesFrom(rest, pat, names[0].id);
      i, j := 0, k + 1;
    } else {
      var a, b := HitTwiceHasEntries(rest, pat);
      i, j := a + 1, b + 1;
    }
  }

  lemma ContainsOctet(name: Bytes, c: char)
    requires c in name
    ensures Contains(name, [c])
  {
    var k :| 0 <= k < |name| && name[k] == c;
    assert name[k..k + 1] == [c];
    assert OccursAt(name, [c], k);
  }

  lemma ContainedOctet(name: Bytes, pat: Bytes)
    requires Contains(name, pat) && pat != []
    ensures pat[0] in name
  {
    var k :| 0 <= k <= |name| && OccursAt(name, pat, k);
    assert name[k..k + |pat|][0] == name[k];
  }

  lemma ContainsThrough(a: Bytes, b: Bytes, c: Bytes)
    requires Contains(a, b) && Contains(b, c)
    ensures Contains(a, c)
  {
    var i :| 0 <= i <= |a| && OccursAt(a, b, i);
    var j :| 0 <= j <= |b| && OccursAt(b, c, j);
    SliceOfSlice(a, i, i + |b|, j, j + |c|);
    assert OccursAt(a, c, i + j);
  }

  lemma ContainsItself(a: Bytes)
    ensures Contains(a, a)
  {
    assert OccursAt(a, a, 0);
  }

  lemma TakeNoneTwice(ids: seq<Uuid>, n: nat)
    requires NoneTwice(ids)
    ensures NoneTwice(Take(ids, n))
  {
  }

  // ----- no product twice

  predicate ShareOctet(a: Bytes, b: Bytes) {
    exists c :: c in a && c in b
  }

  /** Two entries of one product have no octet in common. */
  predicate TwinsApart(names: seq<Named>) {
    forall i, j :: 0 <= i < j < |names| && names[i].id == names[j].id ==> !ShareOctet(names[i].name, names[j].name)
  }

  /** No search returns a product twice. */
  ghost predicate ShowsOnce(l: Layers) {
    forall pat, cap :: SafeNeedle(pat) ==> NoneTwice(Search(IndexFor(l), pat, cap))
  }

  /** The exact condition: two entries of one product share no octet. */
  lemma ShowsOnceExactly(l: Layers)
    requires Searchable(l)
    ensures ShowsOnce(l) <==> TwinsApart(Entries(l))
  {
    if TwinsApart(Entries(l)) {
      forall pat, cap | SafeNeedle(pat) ensures NoneTwice(Search(IndexFor(l), pat, cap)) {
        TwinsShowOnce(l, pat, cap);
      }
    } else {
      TwinsShowTwice(l);
    }
    hide *;
  }

  lemma TwinsShowOnce(l: Layers, pat: Bytes, cap: nat)
    requires Searchable(l) && TwinsApart(Entries(l)) && SafeNeedle(pat)
    ensures NoneTwice(Search(IndexFor(l), pat, cap))
  {
    hide Searchable, Contains, Search, IndexFor, Entries, Hits, NoneTwice, Take;
    SearchScansEntries(l, pat, cap);
    if !NoneTwice(Hits(Entries(l), pat)) {
      var i, j := HitTwiceHasEntries(Entries(l), pat);
      ContainedOctet(Entries(l)[i].name, pat);
      ContainedOctet(Entries(l)[j].name, pat);
      assert false;
    }
    TakeNoneTwice(Hits(Entries(l), pat), cap);
  }

  lemma TwinsShowTwice(l: Layers)
    requires Searchable(l) && !TwinsApart(Entries(l))
    ensures !ShowsOnce(l)
  {
    hide Searchable, Contains, Search, IndexFor, Entries, Hits, NoneTwice, Take;
    var names := Entries(l);
    var i, j :| 0 <= i < j < |names| && names[i].id == names[j].id && ShareOctet(names[i].name, names[j].name);
    var c :| c in names[i].name && c in names[j].name;
    ContainsOctet(names[i].name, c);
    ContainsOctet(names[j].name, c);
    TwoEntriesHitTwice(names, [c], i, j);
    SearchScansEntries(l, [c], |names|);
    HitsSize(names, [c]);
    TakeAll(Hits(names, [c]), |names|);
    assert SafeNeedle([c]);
  }

  // ----- no stale name

  /** The product is active and its current clipped name holds the needle. */
  predicate HoldsNow(db: Database, lower: Lower, id: Uuid, pat: Bytes) {
    id in db && db[id].isActive && Contains(Clipped(lower(db[id].name)), pat)
  }

  /** Every search returns only products that hold its needle now. */
  ghost predicate ShowsCurrent(l: Layers, db: Database, lower: Lower) {
    forall pat, cap, id :: SafeNeedle(pat) && id in Search(IndexFor(l), pat, cap) ==> HoldsNow(db, lower, id, pat)
  }

  /** The stored names are parts of what their products are called now. */
  predicate NamesHold(names: seq<Named>, db: Database, lower: Lower) {
    forall k :: 0 <= k < |names| && names[k].name != [] ==> HoldsNow(db, lower, names[k].id, names[k].name)
  }

  /** The exact condition: every stored name is part of its product's current name. */
  lemma ShowsCurrentExactly(l: Layers, db: Database, lower: Lower)
    requires Searchable(l)
    ensures ShowsCurrent(l, db, lower) <==> NamesHold(Entries(l), db, lower)
  {
    if NamesHold(Entries(l), db, lower) {
      forall pat, cap, id | SafeNeedle(pat) && id in Search(IndexFor(l), pat, cap)
        ensures HoldsNow(db, lower, id, pat)
      {
        HitHoldsNow(l, db, lower, pat, cap, id);
      }
    }
    if ShowsCurrent(l, db, lower) {
      forall k | 0 <= k < |Entries(l)| && Entries(l)[k].name != []
        ensures HoldsNow(db, lower, Entries(l)[k].id, Entries(l)[k].name)
      {
        NameFindsItself(l, k);
        assert SafeNeedle(Entries(l)[k].name);
      }
    }
    hide *;
  }

  lemma HitHoldsNow(l: Layers, db: Database, lower: Lower, pat: Bytes, cap: nat, id: Uuid)
    requires Searchable(l) && NamesHold(Entries(l), db, lower)
    requires SafeNeedle(pat) && id in Search(IndexFor(l), pat, cap)
    ensures HoldsNow(db, lower, id, pat)
  {
    hide Searchable, Contains, Search, IndexFor, Entries, Hits, Clipped;
    SearchScansEntries(l, pat, cap);
    var k := HitComesFrom(Entries(l), pat, id);
    var name := Entries(l)[k].name;
    ContainedOctet(name, pat);
    ContainsThrough(Clipped(lower(db[id].name)), name, pat);
  }

  lemma NameFindsItself(l: Layers, k: nat)
    requires Searchable(l) && k < |Entries(l)| && Entries(l)[k].name != []
    ensures SafeNeedle(Entries(l)[k].name)
    ensures Entries(l)[k].id in Search(IndexFor(l), Entries(l)[k].name, |Entries(l)|)
  {
    hide AllAddressable, Contains, Search, IndexFor, Hits;
    var names, name := Entries(l), Entries(l)[k].name;
    assert NEWLINE !in name;
    ContainsItself(name);
    SearchScansEntries(l, name, |names|);
    EntryIsHit(names, name, k);
    HitsSize(names, name);
    TakeAll(Hits(names, name), |names|);
  }

  // ----- right after a build

  /** A build shows every product once, and only under its current name, until the database moves on. */
  lemma BuildShowsOnceAndCurrent(rows: seq<Row>, db: Database, lower: Lower)
    requires IsSnapshot(rows, db) && AllAddressable(NamesOf(rows, lower))
    ensures ShowsOnce(Built(rows, lower)) && ShowsCurrent(Built(rows, lower), db, lower)
  {
    hide AllAddressable, Clipped, Contains, Latest, NamesOf, ShowsOnce, ShowsCurrent;
    var l := Built(rows, lower);
    NamesOfClean(rows, lower);
    forall k | 0 <= k < |rows| ensures Entries(l)[k] == NameOf(rows[k], lower) && rows[k] in rows {
      NamesOfAt(rows, lower, k);
    }
    forall k | 0 <= k < |rows| ensures HoldsNow(db, lower, Entries(l)[k].id, Entries(l)[k].name) {
      ContainsItself(Entries(l)[k].name);
    }
    ShowsOnceExactly(l);
    ShowsCurrentExactly(l, db, lower);
  }
}
