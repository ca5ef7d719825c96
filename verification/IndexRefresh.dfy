/**
 Keeping the name index fresh: a full build from a snapshot, then incremental pulls by updated_at
 watermark, and a rebuild when the delta layer outgrows a tenth of the base. The database goes on
 changing while a query is in flight.
 */
module IndexRefresh {
  import opened Common
  import opened SearchIndex
  import opened SearchMeaning

  const PULL_LIMIT: nat := 20000
  const REBUILD_RATIO: real := 0.10

  datatype Product = Product(name: Bytes, isActive: bool, updatedAt: Time)

  type Database = map<Uuid, Product>

  /** A selected row: id, name, updated_at. */
  datatype Row = Row(id: Uuid, name: Bytes, updatedAt: Time)

  datatype SqlError = SqlError

  type Lower = Bytes -> Bytes

  /** What the index holds, apart from its layout. */
  datatype Layers = Layers(base: seq<Named>, delta: seq<Named>, watermark: Time)

  function IndexFor(l: Layers): Index {
    Index(Assembled(l.base, l.watermark).shards, l.delta, l.watermark, |l.base| + |l.delta|)
  }

  function NameOf(r: Row, lower: Lower): Named {
    Named(Clipped(lower(r.name)), r.id)
  }

  function NamesOf(rows: seq<Row>, lower: Lower): (names: seq<Named>)
    ensures |names| == |rows|
  {
    if rows == [] then [] else NamesOf(rows[..|rows| - 1], lower) + [NameOf(rows[|rows| - 1], lower)]
  }

  lemma {:induction false} NamesOfAt(rows: seq<Row>, lower: Lower, i: nat)
    requires i < |rows|
    ensures NamesOf(rows, lower)[i] == NameOf(rows[i], lower)
  {
    if i < |rows| - 1 {
      NamesOfAt(rows[..|rows| - 1], lower, i);
    }
  }

  /** The running maximum of stamps, starting from a watermark. */
  function Latest(rows: seq<Row>, from: Time): (t: Time)
    ensures from <= t
  {
    if rows == [] then from
    else
      var before, last := Latest(rows[..|rows| - 1], from), rows[|rows| - 1].updatedAt;
      if last > before then last else before
  }

  lemma {:induction false} LatestIsMaximum(rows: seq<Row>, from: Time)
    ensures forall r :: r in rows ==> r.updatedAt <= Latest(rows, from)
    ensures Latest(rows, from) == from || exists r :: r in rows && r.updatedAt == Latest(rows, from)
  {
    if rows != [] {
      var front, last := rows[..|rows| - 1], rows[|rows| - 1];
      LatestIsMaximum(front, from);
      assert rows == front + [last];
      assert last in rows;
      if Latest(rows, from) == Latest(front, from) && Latest(front, from) != from {
        var r :| r in front && r.updatedAt == Latest(front, from);
        assert r in rows;
      }
    }
  }

  function Built(rows: seq<Row>, lower: Lower): Layers {
    Layers(NamesOf(rows, lower), [], Latest(rows, 0))
  }

  function Refreshed(l: Layers, rows: seq<Row>, lower: Lower): Layers {
    Layers(l.base, l.delta + NamesOf(rows, lower), Latest(rows, l.watermark))
  }

  predicate Outgrown(l: Layers, rows: seq<Row>) {
    (|l.delta| + |rows|) as real > |l.base| as real * REBUILD_RATIO
  }

  // ----- the holder of the current index

  lemma {:induction false} EntriesCount(chunks: seq<seq<Named>>)
    ensures EntryTotal(ShardsOf(chunks)) == |Flatten(chunks)|
  {
    if chunks != [] {
      assert ShardsOf(chunks)[1..] == ShardsOf(chunks[1..]);
      EntriesCount(chunks[1..]);
    }
  }

  function EntryTotal(shards: seq<Shard>): nat {
    if shards == [] then 0 else |shards[0].entries| + EntryTotal(shards[1..])
  }

  lemma {:induction false} EntryTotalAppend(shards: seq<Shard>, last: Shard)
    ensures EntryTotal(shards + [last]) == EntryTotal(shards) + |last.entries|
  {
    if shards == [] {
      assert shards + [last] == [last] && [last][1..] == [];
    } else {
      assert (shards + [last])[1..] == shards[1..] + [last];
      EntryTotalAppend(shards[1..], last);
    }
  }

  lemma BaseLenIs(l: Layers)
    ensures EntryTotal(IndexFor(l).shards) == |l.base|
  {
    EntriesCount(Chunks(l.base, PerShard(|l.base|)));
    ChunksFlatten(l.base, PerShard(|l.base|));
  }

  lemma ShardsIgnoreWatermark(names: seq<Named>, a: Time, b: Time)
    ensures Assembled(names, a).shards == Assembled(names, b).shards
  {
  }

  lemma BuiltIndex(rows: seq<Row>, lower: Lower)
    ensures [] + NamesOf(rows, lower) == NamesOf(rows, lower)
    ensures IndexFor(Built(rows, lower)) == Assembled(NamesOf(rows, lower), Latest(rows, 0))
  {
    hide NamesOf, Latest, Chunks, ShardsOf, PerShard;
  }

  class Holder {
    const lower: Lower
    var current: Option<Index>
    ghost var layers: Option<Layers>

    /** The published index is the layout of its layers; in particular len is base plus delta. */
    ghost predicate Valid()
      reads this
    {
      current == if layers.Some? then Some(IndexFor(layers.value)) else None
    }

    constructor (lower: Lower)
      ensures Valid() && layers == None && this.lower == lower
    {
      this.lower := lower;
      current, layers := None, None;
    }

    method Len() returns (n: nat)
      requires Valid()
      ensures n == if layers.Some? then |layers.value.base| + |layers.value.delta| else 0
    {
      n := if current.Some? then current.value.len else 0;
    }

    /** The row loop both queries share: names are clipped and appended, the watermark follows. */
    method Absorb(rows: seq<Row>, names: seq<Named>, watermark: Time) returns (names': seq<Named>, watermark': Time)
      ensures names' == names + NamesOf(rows, lower)
      ensures watermark' == Latest(rows, watermark)
    {
      names', watermark' := names, watermark;
      for i := 0 to |rows|
        invariant names' == names + NamesOf(rows[..i], lower) && watermark' == Latest(rows[..i], watermark)
      {
        assert rows[..i + 1][..i] == rows[..i];
        if rows[i].updatedAt > watermark' {
          watermark' := rows[i].updatedAt;
        }
        var clipped := ClipLower(rows[i].name, lower);
        names' := names' + [Named(clipped, rows[i].id)];
      }
      assert rows[..|rows|] == rows;
    }

    /** build_full: one streamed pass over the rows, then a new index; a failed query changes nothing. */
    method BuildFull(fetched: Result<seq<Row>, SqlError>) returns (r: Result<nat, SqlError>)
      requires Valid()
      modifies this
      ensures Valid()
      ensures fetched.Err? ==> r.Err? && layers == old(layers)
      ensures fetched.Ok? ==> r == Ok(|fetched.value|) && layers == Some(Built(fetched.value, lower))
    {
      hide NamesOf, Latest, Chunks, ShardsOf, PerShard, Assembled, IndexFor, Built;
      if fetched.Err? {
        return Err(SqlError);
      }
      var names, watermark := Absorb(fetched.value, [], 0);
      var index := Assemble(names, watermark);
      BuiltIndex(fetched.value, lower);
      current := Some(index);
      layers := Some(Built(fetched.value, lower));
      r := Ok(|names|);
    }

    /** refresh_delta: pulled answers the watermark query, snapshot the rebuild's query if there is one. */
    method RefreshDelta(pulled: Result<seq<Row>, SqlError>, snapshot: Result<seq<Row>, SqlError>)
      returns (r: Result<nat, SqlError>)
      requires Valid()
      modifies this
      ensures Valid()
      ensures old(layers).None? ==> r == Ok(0) && layers == None
      ensures old(layers).Some? && pulled.Err? ==> r.Err? && layers == old(layers)
      ensures old(layers).Some? && pulled.Ok? && pulled.value == [] ==> r == Ok(0) && layers == old(layers)
      ensures old(layers).Some? && pulled.Ok? && pulled.value != [] ==>
        if Outgrown(old(layers).value, pulled.value)
        then match snapshot
          case Ok(all) => r == Ok(|all|) && layers == Some(Built(all, lower))
          case Err(_) => r.Err? && layers == old(layers)
        else r == Ok(|pulled.value|) && layers == Some(Refreshed(old(layers).value, pulled.value, lower))
    {
      hide NamesOf, Latest, Chunks, ShardsOf, PerShard, EntryTotal, Built;
      if current.None? {
        return Ok(0);
      }
      var cur := current.value;
      if pulled.Err? {
        return Err(SqlError);
      }
      var rows := pulled.value;
      if rows == [] {
        return Ok(0);
      }
      ghost var l := layers.value;
      var delta, watermark := Absorb(rows, cur.delta, cur.watermark);
      var baseLen := BaseLen(cur.shards);
      BaseLenIs(l);
      if |delta| as real > baseLen as real * REBUILD_RATIO {
        r := BuildFull(snapshot);
        return;
      }
      current := Some(Index(cur.shards, delta, watermark, cur.len + |rows|));
      layers := Some(Refreshed(l, rows, lower));
      ShardsIgnoreWatermark(l.base, l.watermark, watermark);
      r := Ok(|rows|);
    }

    static method BaseLen(shards: seq<Shard>) returns (n: nat)
      ensures n == EntryTotal(shards)
    {
      n := 0;
      for i := 0 to |shards|
        invariant n == EntryTotal(shards[..i])
      {
        assert shards[..i + 1] == shards[..i] + [shards[i]];
        EntryTotalAppend(shards[..i], shards[i]);
        n := n + |shards[i].entries|;
      }
      assert shards[..|shards|] == shards;
    }
  }

  // ----- the refresher and the database, step by step

  /** A query in flight reads the database as it was, at clock time 'at', when it began. */
  datatype Phase = Idle | Building(snapshot: Database, at: Time) | Pulling(snapshot: Database, at: Time)

  /** The clock is the latest stamp handed out so far. */
  datatype System = System(db: Database, clock: Time, layers: Option<Layers>, phase: Phase)

  predicate DistinctRows(rows: seq<Row>) {
    forall i, j :: 0 <= i < j < |rows| ==> rows[i].id != rows[j].id
  }

  /** SELECT .. WHERE is_active, in any order. */
  ghost predicate IsSnapshot(rows: seq<Row>, db: Database) {
    && DistinctRows(rows)
    && (forall r :: r in rows ==> r.id in db && db[r.id] == Product(r.name, true, r.updatedAt))
    && (forall id :: id in db && db[id].isActive ==> Row(id, db[id].name, db[id].updatedAt) in rows)
  }

  /** SELECT .. WHERE is_active AND updated_at > watermark ORDER BY updated_at LIMIT 20000. */
  ghost predicate IsPull(rows: seq<Row>, db: Database, watermark: Time) {
    && |rows| <= PULL_LIMIT && DistinctRows(rows)
    && (forall r :: r in rows ==>
      r.id in db && db[r.id] == Product(r.name, true, r.updatedAt) && r.updatedAt > watermark)
    && (forall id :: id in db && db[id].isActive && db[id].updatedAt > watermark ==>
      || Row(id, db[id].name, db[id].updatedAt) in rows
      || (|rows| == PULL_LIMIT && forall r :: r in rows ==> r.updatedAt <= db[id].updatedAt))
  }

  ghost predicate DistinctStamps(db: Database) {
    forall a, b :: a in db && b in db && a != b ==> db[a].updatedAt != db[b].updatedAt
  }

  ghost predicate StampsUpTo(db: Database, clock: Time) {
    forall id :: id in db ==> db[id].updatedAt <= clock
  }

  ghost predicate Init(s: System) {
    s.layers == None && s.phase == Idle && StampsUpTo(s.db, s.clock)
  }

  /**
   Commits: products come, go and change in any way. A stamp is the start of its transaction, so a late
   commit may carry an early one, and an update that does not name updated_at leaves it as it is.
   */
  ghost predicate DatabaseStep(s: System, s': System) {
    && s'.layers == s.layers && s'.phase == s.phase && s.clock <= s'.clock
    && StampsUpTo(s'.db, s'.clock)
  }

  /** The product stands in the later database as it did in the earlier one. */
  predicate Unchanged(before: Database, after: Database, id: Uuid)
    requires id in after
  {
    id in before && before[id] == after[id]
  }

  predicate BeginStep(s: System, s': System) {
    && s.phase == Idle
    && s' == s.(phase := if s.layers.Some? then Pulling(s.db, s.clock) else Building(s.db, s.clock))
  }

  predicate FailStep(s: System, s': System) {
    s' == s.(phase := Idle)
  }

  ghost predicate BuildsFrom(s: System, s': System, lower: Lower, rows: seq<Row>) {
    && s.phase.Building? && IsSnapshot(rows, s.phase.snapshot)
    && s' == s.(layers := Some(Built(rows, lower)), phase := Idle)
  }

  ghost predicate PullsFrom(s: System, s': System, lower: Lower, rows: seq<Row>) {
    && s.phase.Pulling? && s.layers.Some? && IsPull(rows, s.phase.snapshot, s.layers.value.watermark)
    && s' == if rows == [] then s.(phase := Idle)
             else if Outgrown(s.layers.value, rows) then s.(phase := Building(s.db, s.clock))
             else s.(layers := Some(Refreshed(s.layers.value, rows, lower)), phase := Idle)
  }

  ghost predicate Step(s: System, s': System, lower: Lower) {
    || DatabaseStep(s, s')
    || BeginStep(s, s')
    || FailStep(s, s')
    || (exists rows :: BuildsFrom(s, s', lower, rows))
    || (exists rows :: PullsFrom(s, s', lower, rows))
  }

  ghost predicate IsRun(states: seq<System>, lower: Lower) {
    && states != [] && Init(states[0])
    && forall i :: 0 <= i < |states| - 1 ==> Step(states[i], states[i + 1], lower)
  }

  // ----- freshness

  /** The product is stored under its current clipped name. */
  predicate Covered(l: Layers, id: Uuid, p: Product, lower: Lower) {
    Named(Clipped(lower(p.name)), id) in l.base || Named(Clipped(lower(p.name)), id) in l.delta
  }

  ghost predicate Fresh(l: Layers, db: Database, lower: Lower) {
    forall id :: id in db && db[id].isActive && db[id].updatedAt <= l.watermark ==> Covered(l, id, db[id], lower)
  }

  predicate DeltaSmall(l: Layers) {
    10 * |l.delta| <= |l.base|
  }

  ghost predicate LayersSound(l: Layers, clock: Time) {
    l.watermark <= clock && DeltaSmall(l) && CleanNames(l.base) && CleanNames(l.delta)
  }

  /** What holds in every reachable state, fresh or not. */
  ghost predicate Inv(s: System) {
    && StampsUpTo(s.db, s.clock)
    && (!s.phase.Idle? ==> s.phase.at <= s.clock && StampsUpTo(s.phase.snapshot, s.phase.at))
    && (s.layers.Some? ==> LayersSound(s.layers.value, s.clock))
  }

  ghost predicate FreshIn(s: System, lower: Lower) {
    s.layers.Some? ==> Fresh(s.layers.value, s.db, lower)
  }

  lemma NamesOfIn(rows: seq<Row>, r: Row, lower: Lower)
    requires r in rows
    ensures NameOf(r, lower) in NamesOf(rows, lower)
  {
    var i :| 0 <= i < |rows| && rows[i] == r;
    NamesOfAt(rows, lower, i);
  }

  lemma NamesOfFrom(rows: seq<Row>, x: Named, lower: Lower)
    requires x in NamesOf(rows, lower)
    ensures exists r :: r in rows && NameOf(r, lower) == x
  {
    var i :| 0 <= i < |rows| && NamesOf(rows, lower)[i] == x;
    NamesOfAt(rows, lower, i);
    assert rows[i] in rows;
  }

  lemma NamesOfClean(rows: seq<Row>, lower: Lower)
    ensures CleanNames(NamesOf(rows, lower))
  {
    forall i | 0 <= i < |rows| ensures NEWLINE !in NamesOf(rows, lower)[i].name {
      NamesOfAt(rows, lower, i);
      ClippedIsClean(lower(rows[i].name));
    }
  }

  /** Every product that changed while the query ran, at or before the new watermark, is stored as it is now. */
  ghost predicate NoneOvertaken(l: Layers, snapshot: Database, db: Database, lower: Lower) {
    forall id :: id in db && db[id].isActive && db[id].updatedAt <= l.watermark && !Unchanged(snapshot, db, id) ==>
      Covered(l, id, db[id], lower)
  }

  lemma BuildIsSound(rows: seq<Row>, snapshot: Database, at: Time, clock: Time, lower: Lower)
    requires IsSnapshot(rows, snapshot) && StampsUpTo(snapshot, at) && at <= clock
    ensures LayersSound(Built(rows, lower), clock) && Built(rows, lower).watermark <= at
  {
    NamesOfClean(rows, lower);
    LatestIsMaximum(rows, 0);
  }

  /** The exact condition: a build leaves the index fresh iff no change overtook its query. */
  lemma BuildIsFreshExactly(rows: seq<Row>, snapshot: Database, db: Database, lower: Lower)
    requires IsSnapshot(rows, snapshot)
    ensures Fresh(Built(rows, lower), db, lower) <==> NoneOvertaken(Built(rows, lower), snapshot, db, lower)
  {
    var l := Built(rows, lower);
    if NoneOvertaken(l, snapshot, db, lower) {
      forall id | id in db && db[id].isActive && db[id].updatedAt <= l.watermark
        ensures Covered(l, id, db[id], lower)
      {
        if Unchanged(snapshot, db, id) {
          NamesOfIn(rows, Row(id, db[id].name, db[id].updatedAt), lower);
        }
      }
    }
  }

  /** A pull misses nothing below its new watermark, and nothing at it unless it was cut at 20000 rows. */
  lemma PullComplete(rows: seq<Row>, snapshot: Database, watermark: Time, id: Uuid)
    requires IsPull(rows, snapshot, watermark)
    requires id in snapshot && snapshot[id].isActive && watermark < snapshot[id].updatedAt
    requires snapshot[id].updatedAt < Latest(rows, watermark) || |rows| < PULL_LIMIT
    ensures Row(id, snapshot[id].name, snapshot[id].updatedAt) in rows
  {
    LatestIsMaximum(rows, watermark);
  }

  /** Every active product that shares the new watermark's stamp was pulled or is already stored. */
  ghost predicate CutClean(l: Layers, rows: seq<Row>, snapshot: Database, db: Database, lower: Lower) {
    var cut := Latest(rows, l.watermark);
    forall id :: id in db && db[id].isActive && db[id].updatedAt == cut && Unchanged(snapshot, db, id) ==>
      Row(id, db[id].name, db[id].updatedAt) in rows || Covered(l, id, db[id], lower)
  }

  lemma StoredRowIsCurrent(rows: seq<Row>, snapshot: Database, db: Database, watermark: Time, id: Uuid, lower: Lower)
    requires IsPull(rows, snapshot, watermark)
    requires id in db && Unchanged(snapshot, db, id)
    requires Named(Clipped(lower(db[id].name)), id) in NamesOf(rows, lower)
    ensures Row(id, db[id].name, db[id].updatedAt) in rows
  {
    NamesOfFrom(rows, Named(Clipped(lower(db[id].name)), id), lower);
  }

  lemma LatestInSnapshot(rows: seq<Row>, snapshot: Database, at: Time, watermark: Time)
    requires IsPull(rows, snapshot, watermark) && StampsUpTo(snapshot, at)
    ensures Latest(rows, watermark) <= at || (rows == [] && Latest(rows, watermark) == watermark)
  {
    LatestIsMaximum(rows, watermark);
    if rows != [] {
      assert rows[0] in rows;
    }
  }

  /**
   The exact condition: a refresh that is not a rebuild keeps the index fresh iff its cut is clean and
   no change overtook its query.
   */
  lemma RefreshIsFreshExactly(l: Layers, rows: seq<Row>, snapshot: Database, db: Database, lower: Lower)
    requires IsPull(rows, snapshot, l.watermark) && Fresh(l, db, lower)
    ensures var l' := Refreshed(l, rows, lower);
      Fresh(l', db, lower) <==> CutClean(l, rows, snapshot, db, lower) && NoneOvertaken(l', snapshot, db, lower)
  {
    var l' := Refreshed(l, rows, lower);
    if CutClean(l, rows, snapshot, db, lower) && NoneOvertaken(l', snapshot, db, lower) {
      forall id | id in db && db[id].isActive && db[id].updatedAt <= l'.watermark
        ensures Covered(l', id, db[id], lower)
      {
        if db[id].updatedAt > l.watermark && Unchanged(snapshot, db, id) {
          PulledIsCovered(l, rows, snapshot, db, lower, id);
        } else if db[id].updatedAt <= l.watermark {
          assert Covered(l, id, db[id], lower);
        }
      }
    }
    if Fresh(l', db, lower) {
      forall id | id in db && db[id].isActive && db[id].updatedAt == l'.watermark && Unchanged(snapshot, db, id)
                  && !Covered(l, id, db[id], lower)
        ensures Row(id, db[id].name, db[id].updatedAt) in rows
      {
        assert Covered(l', id, db[id], lower);
        StoredRowIsCurrent(rows, snapshot, db, l.watermark, id, lower);
      }
    }
  }

  lemma PulledIsCovered(l: Layers, rows: seq<Row>, snapshot: Database, db: Database, lower: Lower, id: Uuid)
    requires IsPull(rows, snapshot, l.watermark) && CutClean(l, rows, snapshot, db, lower)
    requires id in db && db[id].isActive && Unchanged(snapshot, db, id)
    requires l.watermark < db[id].updatedAt <= Latest(rows, l.watermark)
    ensures Covered(Refreshed(l, rows, lower), id, db[id], lower)
  {
    if db[id].updatedAt < Latest(rows, l.watermark) {
      PullComplete(rows, snapshot, l.watermark, id);
    }
    if Row(id, db[id].name, db[id].updatedAt) in rows {
      NamesOfIn(rows, Row(id, db[id].name, db[id].updatedAt), lower);
    }
  }

  /** Cuts are clean when the pull was not full, and when no two products share a stamp. */
  lemma ShortOrDistinctIsClean(l: Layers, rows: seq<Row>, snapshot: Database, db: Database, lower: Lower)
    requires IsPull(rows, snapshot, l.watermark) && Fresh(l, db, lower)
    requires |rows| < PULL_LIMIT || DistinctStamps(snapshot)
    ensures CutClean(l, rows, snapshot, db, lower)
  {
    LatestIsMaximum(rows, l.watermark);
    forall id | id in db && db[id].isActive && Unchanged(snapshot, db, id)
                && db[id].updatedAt == Latest(rows, l.watermark) && !Covered(l, id, db[id], lower)
      ensures Row(id, db[id].name, db[id].updatedAt) in rows
    {
      if |rows| < PULL_LIMIT {
        PullComplete(rows, snapshot, l.watermark, id);
      } else {
        var r :| r in rows && r.updatedAt == Latest(rows, l.watermark);
        assert r.id == id;
      }
    }
  }

  lemma PullKeepsSound(l: Layers, rows: seq<Row>, snapshot: Database, at: Time, clock: Time, lower: Lower)
    requires IsPull(rows, snapshot, l.watermark) && StampsUpTo(snapshot, at) && at <= clock
    requires LayersSound(l, clock) && !Outgrown(l, rows)
    ensures LayersSound(Refreshed(l, rows, lower), clock)
  {
    LatestInSnapshot(rows, snapshot, at, l.watermark);
    NamesOfClean(rows, lower);
  }

  lemma StepKeeps(s: System, s': System, lower: Lower)
    requires Inv(s) && Step(s, s', lower)
    ensures Inv(s')
  {
    if rows :| BuildsFrom(s, s', lower, rows) {
      BuildIsSound(rows, s.phase.snapshot, s.phase.at, s.clock, lower);
    } else if rows :| PullsFrom(s, s', lower, rows) {
      if rows != [] && !Outgrown(s.layers.value, rows) {
        PullKeepsSound(s.layers.value, rows, s.phase.snapshot, s.phase.at, s.clock, lower);
      }
    }
  }

  // ----- the steps that lose a product

  ghost predicate RefreshesFrom(s: System, s': System, lower: Lower, rows: seq<Row>) {
    PullsFrom(s, s', lower, rows) && rows != [] && !Outgrown(s.layers.value, rows)
  }

  ghost predicate TornBy(s: System, s': System, lower: Lower, rows: seq<Row>) {
    RefreshesFrom(s, s', lower, rows) && !CutClean(s.layers.value, rows, s.phase.snapshot, s.db, lower)
  }

  /** A refresh, not a rebuild, whose cut separates products with one stamp. */
  ghost predicate TornPull(s: System, s': System, lower: Lower) {
    exists rows :: TornBy(s, s', lower, rows)
  }

  /** The result of a query lands, and a product that changed at or before its watermark is not stored as it is now. */
  ghost predicate Overtaken(s: System, s': System, lower: Lower) {
    exists rows ::
      && (BuildsFrom(s, s', lower, rows) || RefreshesFrom(s, s', lower, rows))
      && !NoneOvertaken(s'.layers.value, s.phase.snapshot, s.db, lower)
  }

  /** A product changes at or before the watermark into one that is not stored. */
  ghost predicate HiddenChange(s: System, s': System, lower: Lower) {
    && DatabaseStep(s, s') && s.layers.Some?
    && exists id :: id in s'.db && HiddenAt(s.layers.value, s.db, s'.db, lower, id)
  }

  predicate HiddenAt(l: Layers, before: Database, after: Database, lower: Lower, id: Uuid)
    requires id in after
  {
    && !Unchanged(before, after, id)
    && after[id].isActive && after[id].updatedAt <= l.watermark && !Covered(l, id, after[id], lower)
  }

  ghost predicate Loses(s: System, s': System, lower: Lower) {
    TornPull(s, s', lower) || Overtaken(s, s', lower) || HiddenChange(s, s', lower)
  }

  lemma ChangeIsFreshExactly(s: System, s': System, lower: Lower)
    requires DatabaseStep(s, s') && FreshIn(s, lower)
    ensures FreshIn(s', lower) <==> !HiddenChange(s, s', lower)
  {
    hide Covered;
    if s.layers.Some? && !HiddenChange(s, s', lower) {
      var l := s.layers.value;
      forall id | id in s'.db && s'.db[id].isActive && s'.db[id].updatedAt <= l.watermark
        ensures Covered(l, id, s'.db[id], lower)
      {
        assert !HiddenAt(l, s.db, s'.db, lower, id);
      }
    }
  }

  /**
   A product that takes a new name and keeps its stamp, as a gate update of its name does, stays findable
   iff its stamp is later than the watermark or it is already stored under the new clipped name.
   */
  lemma RenameIsFreshExactly(s: System, s': System, lower: Lower, id: Uuid, name: Bytes)
    requires Inv(s) && FreshIn(s, lower) && s.layers.Some?
    requires id in s.db && s.db[id].isActive && s' == s.(db := s.db[id := s.db[id].(name := name)])
    ensures DatabaseStep(s, s')
    ensures FreshIn(s', lower)
      <==> s.db[id].updatedAt > s.layers.value.watermark || Covered(s.layers.value, id, s'.db[id], lower)
  {
    ChangeIsFreshExactly(s, s', lower);
    hide Covered;
    assert forall k :: k in s'.db && k != id ==> Unchanged(s.db, s'.db, k);
    if Unchanged(s.db, s'.db, id) {
      assert s.db[id].updatedAt <= s.layers.value.watermark ==> Covered(s.layers.value, id, s.db[id], lower);
    }
    if s.db[id].updatedAt <= s.layers.value.watermark && !Covered(s.layers.value, id, s'.db[id], lower) {
      assert HiddenAt(s.layers.value, s.db, s'.db, lower, id);
    }
  }

  /** From a fresh state, the next one is fresh unless the step loses a product ... */
  lemma StepKeepsFresh(s: System, s': System, lower: Lower)
    requires FreshIn(s, lower) && Step(s, s', lower) && !Loses(s, s', lower)
    ensures FreshIn(s', lower)
  {
    hide Fresh, IsSnapshot, IsPull, CutClean, NoneOvertaken, Outgrown, HiddenChange;
    if DatabaseStep(s, s') {
      ChangeIsFreshExactly(s, s', lower);
    } else if rows :| BuildsFrom(s, s', lower, rows) {
      assert NoneOvertaken(s'.layers.value, s.phase.snapshot, s.db, lower);
      BuildIsFreshExactly(rows, s.phase.snapshot, s.db, lower);
    } else if rows :| PullsFrom(s, s', lower, rows) {
      if RefreshesFrom(s, s', lower, rows) {
        assert !TornBy(s, s', lower, rows) && NoneOvertaken(s'.layers.value, s.phase.snapshot, s.db, lower);
        RefreshIsFreshExactly(s.layers.value, rows, s.phase.snapshot, s.db, lower);
      }
    }
  }

  /** ... and then it is not. */
  lemma LossIsStale(s: System, s': System, lower: Lower)
    requires FreshIn(s, lower) && Loses(s, s', lower)
    ensures !FreshIn(s', lower)
  {
    hide Fresh, IsSnapshot, IsPull, CutClean, NoneOvertaken, Outgrown, HiddenChange, DatabaseStep;
    if rows :| TornBy(s, s', lower, rows) {
      RefreshIsFreshExactly(s.layers.value, rows, s.phase.snapshot, s.db, lower);
    } else if HiddenChange(s, s', lower) {
      HiddenChangeIsChange(s, s', lower);
      ChangeIsFreshExactly(s, s', lower);
    } else {
      var rows :|
        && (BuildsFrom(s, s', lower, rows) || RefreshesFrom(s, s', lower, rows))
        && !NoneOvertaken(s'.layers.value, s.phase.snapshot, s.db, lower);
      if BuildsFrom(s, s', lower, rows) {
        BuildIsFreshExactly(rows, s.phase.snapshot, s.db, lower);
      } else {
        RefreshIsFreshExactly(s.layers.value, rows, s.phase.snapshot, s.db, lower);
      }
    }
  }

  lemma HiddenChangeIsChange(s: System, s': System, lower: Lower)
    requires HiddenChange(s, s', lower)
    ensures DatabaseStep(s, s') && s.layers.Some?
  {
  }

  ghost predicate Untorn(states: seq<System>, lower: Lower) {
    forall i :: 0 <= i < |states| - 1 ==> !TornPull(states[i], states[i + 1], lower)
  }

  ghost predicate Lossless(states: seq<System>, lower: Lower) {
    forall i :: 0 <= i < |states| - 1 ==> !Loses(states[i], states[i + 1], lower)
  }

  lemma RunPrefix(states: seq<System>, lower: Lower, n: nat)
    requires IsRun(states, lower) && 0 < n <= |states|
    ensures IsRun(states[..n], lower)
    ensures Lossless(states, lower) ==> Lossless(states[..n], lower)
    ensures InOrder(states) ==> InOrder(states[..n])
  {
    var before := states[..n];
    hide Step, Init, Loses, InOrderStep;
    forall i | 0 <= i < |before| - 1
      ensures Step(before[i], before[i + 1], lower)
      ensures Lossless(states, lower) ==> !Loses(before[i], before[i + 1], lower)
      ensures InOrder(states) ==> InOrderStep(before[i], before[i + 1])
    {
      assert before[i] == states[i] && before[i + 1] == states[i + 1];
      assert Step(states[i], states[i + 1], lower);
    }
  }

  lemma LastStep(states: seq<System>, lower: Lower)
    requires IsRun(states, lower) && |states| > 1
    ensures var s, s' := states[|states| - 2], states[|states| - 1];
      && Step(s, s', lower)
      && (Lossless(states, lower) ==> !Loses(s, s', lower))
      && (InOrder(states) ==> InOrderStep(s, s'))
  {
    var n := |states| - 2;
    assert states[n + 1] == states[|states| - 1];
    hide Step, Loses, InOrderStep;
  }

  lemma InitHolds(s: System, lower: Lower)
    requires Init(s)
    ensures Inv(s) && FreshIn(s, lower) && Settled(s)
  {
  }

  lemma RunStarts(states: seq<System>, lower: Lower)
    requires IsRun(states, lower)
    ensures Init(states[0])
  {
  }

  lemma {:induction false} InvAlways(states: seq<System>, lower: Lower)
    requires IsRun(states, lower)
    ensures Inv(states[|states| - 1])
    ensures Lossless(states, lower) ==> FreshIn(states[|states| - 1], lower)
    ensures InOrder(states) ==> Settled(states[|states| - 1])
    decreases |states|
  {
    hide *;
    RunNotEmpty(states, lower);
    var n := |states| - 1;
    if n == 0 {
      RunStarts(states, lower);
      InitHolds(states[0], lower);
    } else {
      var before := states[..n];
      assert before[n - 1] == states[n - 1];
      RunPrefix(states, lower, n);
      LastStep(states, lower);
      InvAlways(before, lower);
      StepKeeps(states[n - 1], states[n], lower);
      if Lossless(states, lower) {
        StepKeepsFresh(states[n - 1], states[n], lower);
      }
      if InOrder(states) {
        StepKeepsSettled(states[n - 1], states[n], lower);
      }
    }
  }

  /**
   Main result: in every state reached without a loss, with changes of any kind landing between and during
   queries, every active product stamped at or before the watermark is stored under its current clipped
   name. Losses or not, the delta layer is at most a tenth of the base and no stored name
   holds a newline.
   */
  lemma AlwaysFresh(states: seq<System>, lower: Lower)
    requires IsRun(states, lower)
    ensures var s := states[|states| - 1];
      s.layers.Some? ==>
        && (Lossless(states, lower) ==> Fresh(s.layers.value, s.db, lower))
        && DeltaSmall(s.layers.value)
        && CleanNames(s.layers.value.base) && CleanNames(s.layers.value.delta)
  {
    InvAlways(states, lower);
    hide Fresh, CleanNames, IsRun, StampsUpTo, Lossless, InOrder, Settled;
  }

  /**
   The exact condition over whole runs: the index is fresh in every state iff no pull tears a stamp, no
   change overtakes a query and no change at or before the watermark goes unstored.
   */
  lemma FreshExactly(states: seq<System>, lower: Lower)
    requires IsRun(states, lower)
    ensures (forall i :: 0 <= i < |states| ==> FreshIn(states[i], lower)) <==> Lossless(states, lower)
  {
    hide Step, Loses, FreshIn;
    if Lossless(states, lower) {
      forall i | 0 <= i < |states| ensures FreshIn(states[i], lower) {
        PrefixInv(states, lower, i);
      }
    } else if forall i :: 0 <= i < |states| ==> FreshIn(states[i], lower) {
      var i :| 0 <= i < |states| - 1 && Loses(states[i], states[i + 1], lower);
      LossIsStale(states[i], states[i + 1], lower);
      assert false;
    }
  }

  lemma PrefixInv(states: seq<System>, lower: Lower, i: nat)
    requires IsRun(states, lower) && i < |states|
    ensures Inv(states[i])
    ensures Lossless(states, lower) ==> FreshIn(states[i], lower)
    ensures InOrder(states) ==> Settled(states[i])
  {
    hide *;
    RunPrefix(states, lower, i + 1);
    InvAlways(states[..i + 1], lower);
  }

  // ----- when every change carries a later stamp

  /** All changes of the step carry stamps later than any before. */
  ghost predicate InOrderStep(s: System, s': System) {
    forall id :: id in s'.db ==> Unchanged(s.db, s'.db, id) || s.clock < s'.db[id].updatedAt
  }

  ghost predicate InOrder(states: seq<System>) {
    forall i :: 0 <= i < |states| - 1 ==> InOrderStep(states[i], states[i + 1])
  }

  /** Whatever is stamped by the time the query began still stands as the query sees it. */
  ghost predicate Settled(s: System) {
    !s.phase.Idle? ==>
      forall id :: id in s.db && s.db[id].updatedAt <= s.phase.at ==> Unchanged(s.phase.snapshot, s.db, id)
  }

  lemma StepKeepsSettled(s: System, s': System, lower: Lower)
    requires Inv(s) && Settled(s) && Step(s, s', lower) && InOrderStep(s, s')
    ensures Settled(s')
  {
    hide IsSnapshot, IsPull, Outgrown, NamesOf, Latest;
  }

  /** Then pulls that tear a stamp are the only losses. */
  lemma InOrderLosesByTearing(s: System, s': System, lower: Lower)
    requires Inv(s) && Settled(s) && InOrderStep(s, s')
    ensures Loses(s, s', lower) <==> TornPull(s, s', lower)
  {
    hide TornPull, Covered, NamesOf, Latest;
    if Overtaken(s, s', lower) {
      var rows :|
        && (BuildsFrom(s, s', lower, rows) || RefreshesFrom(s, s', lower, rows))
        && !NoneOvertaken(s'.layers.value, s.phase.snapshot, s.db, lower);
      LandsBefore(s, s', lower, rows);
      assert false;
    }
  }

  /** The new watermark lies no later than the query's beginning. */
  lemma LandsBefore(s: System, s': System, lower: Lower, rows: seq<Row>)
    requires Inv(s) && (BuildsFrom(s, s', lower, rows) || RefreshesFrom(s, s', lower, rows))
    ensures s'.layers.Some? && s'.layers.value.watermark <= s.phase.at
  {
    if BuildsFrom(s, s', lower, rows) {
      BuildIsSound(rows, s.phase.snapshot, s.phase.at, s.clock, lower);
    } else {
      LatestInSnapshot(rows, s.phase.snapshot, s.phase.at, s.layers.value.watermark);
    }
  }

  /** The exact condition for runs in which every change carries a later stamp. */
  lemma InOrderFreshExactly(states: seq<System>, lower: Lower)
    requires IsRun(states, lower) && InOrder(states)
    ensures (forall i :: 0 <= i < |states| ==> FreshIn(states[i], lower)) <==> Untorn(states, lower)
  {
    FreshExactly(states, lower);
    hide Step, Loses, FreshIn, TornPull, InOrderStep, IsRun;
    forall i | 0 <= i < |states| - 1
      ensures Loses(states[i], states[i + 1], lower) <==> TornPull(states[i], states[i + 1], lower)
    {
      PrefixInv(states, lower, i);
      InOrderLosesByTearing(states[i], states[i + 1], lower);
    }
  }

  /** A pull of fewer rows than its limit brings the watermark past every active product it saw. */
  lemma ShortPullCatchesUp(l: Layers, rows: seq<Row>, snapshot: Database, lower: Lower)
    requires IsPull(rows, snapshot, l.watermark) && |rows| < PULL_LIMIT
    ensures forall id :: id in snapshot && snapshot[id].isActive ==>
      snapshot[id].updatedAt <= Refreshed(l, rows, lower).watermark
  {
    LatestIsMaximum(rows, l.watermark);
  }

  // ----- a run that loses a product

  /** n active products with one stamp. */
  function Products(first: nat, n: nat, stamp: Time): (db: Database)
    ensures forall id :: id in db <==> first <= id < first + n
    ensures forall id :: id in db ==> db[id] == Product("", true, stamp)
  {
    if n == 0 then map[] else Products(first, n - 1, stamp)[first + n - 1 := Product("", true, stamp)]
  }

  /** One transaction adds one product more than a pull can take to a base of the given size. */
  function Grown(base: nat): Database {
    Products(0, base, 1) + Products(base, PULL_LIMIT + 1, 2)
  }

  function RowsFrom(first: nat, n: nat, stamp: Time): (rows: seq<Row>)
    ensures |rows| == n
    ensures forall i :: 0 <= i < n ==> rows[i] == Row(first + i, "", stamp)
  {
    seq(n, i requires 0 <= i < n => Row(first + i, "", stamp))
  }

  lemma RowsFromIn(first: nat, n: nat, stamp: Time, id: nat)
    requires first <= id < first + n
    ensures Row(id, "", stamp) in RowsFrom(first, n, stamp)
  {
    assert RowsFrom(first, n, stamp)[id - first] == Row(id, "", stamp);
  }

  lemma LatestOfEqual(rows: seq<Row>, stamp: Time, from: Time)
    requires rows != [] && from <= stamp && forall r :: r in rows ==> r.updatedAt == stamp
    ensures Latest(rows, from) == stamp
  {
    LatestIsMaximum(rows, from);
    assert rows[0] in rows;
  }

  lemma OldRowsAreSnapshot(base: nat)
    ensures IsSnapshot(RowsFrom(0, base, 1), Products(0, base, 1))
  {
    hide Products;
    forall id | id in Products(0, base, 1)
      ensures Row(id, Products(0, base, 1)[id].name, Products(0, base, 1)[id].updatedAt) in RowsFrom(0, base, 1)
    {
      RowsFromIn(0, base, 1, id);
    }
  }

  lemma NewRowsArePull(base: nat)
    ensures IsPull(RowsFrom(base, PULL_LIMIT, 2), Grown(base), 1)
  {
    hide Products;
    forall id | id in Grown(base) && Grown(base)[id].updatedAt > 1
      ensures Grown(base)[id] == Product("", true, 2)
    {
    }
  }

  lemma NotNamed(first: nat, n: nat, stamp: Time, lower: Lower, x: Named)
    requires x.id < first || x.id >= first + n
    ensures x !in NamesOf(RowsFrom(first, n, stamp), lower)
  {
    if x in NamesOf(RowsFrom(first, n, stamp), lower) {
      NamesOfFrom(RowsFrom(first, n, stamp), x, lower);
      assert false;
    }
  }

  function LostRun(lower: Lower, base: nat): (states: seq<System>)
    ensures |states| == 6
  {
    var before, after := Products(0, base, 1), Grown(base);
    var l := Built(RowsFrom(0, base, 1), lower);
    var l' := Refreshed(l, RowsFrom(base, PULL_LIMIT, 2), lower);
    [ System(before, 1, None, Idle),
      System(before, 1, None, Building(before, 1)),
      System(before, 1, Some(l), Idle),
      System(after, 2, Some(l), Idle),
      System(after, 2, Some(l), Pulling(after, 2)),
      System(after, 2, Some(l'), Idle) ]
  }

  /**
   The losing input, over every base of 200000 products or more: one transaction stamps 20001 products,
   the pull takes 20000 of them, its watermark reaches the last one, and no later pull asks for it.
   */
  lemma OneStampTooMany(lower: Lower, base: nat)
    requires base >= 200000
    ensures IsRun(LostRun(lower, base), lower)
    ensures var s, id := LostRun(lower, base)[5], base + 20000;
      && id in s.db && s.db[id].isActive && s.db[id].updatedAt <= s.layers.value.watermark
      && !Covered(s.layers.value, id, s.db[id], lower)
  {
    var oldRows, newRows := RowsFrom(0, base, 1), RowsFrom(base, PULL_LIMIT, 2);
    var id := base + PULL_LIMIT;
    hide Products, NamesOf, Latest, RowsFrom, Clipped;
    LatestOfEqual(oldRows, 1, 0);
    LatestOfEqual(newRows, 2, 1);
    LostRunSteps(lower, base);
    NotNamed(0, base, 1, lower, Named(Clipped(lower("")), id));
    NotNamed(base, PULL_LIMIT, 2, lower, Named(Clipped(lower("")), id));
    assert Grown(base)[id] == Product("", true, 2);
  }

  lemma LostRunSteps(lower: Lower, base: nat)
    requires base >= 10 * PULL_LIMIT && Latest(RowsFrom(0, base, 1), 0) == 1
    ensures IsRun(LostRun(lower, base), lower)
  {
    hide Products, NamesOf, Latest, RowsFrom, IsSnapshot, IsPull;
    var states := LostRun(lower, base);
    OldRowsAreSnapshot(base);
    NewRowsArePull(base);
    assert DatabaseStep(states[2], states[3]);
    assert BuildsFrom(states[1], states[2], lower, RowsFrom(0, base, 1));
    assert PullsFrom(states[4], states[5], lower, RowsFrom(base, PULL_LIMIT, 2));
    assert Step(states[0], states[1], lower) && Step(states[1], states[2], lower) && Step(states[2], states[3], lower);
    assert Step(states[3], states[4], lower) && Step(states[4], states[5], lower);
  }

  // ----- renames that keep their stamp

  /** A product renamed while a build is in flight, stamp kept: the build shows it iff the clipped names are one. */
  lemma RenameDuringBuild(rows: seq<Row>, snapshot: Database, lower: Lower, id: Uuid, name: Bytes)
    requires IsSnapshot(rows, snapshot) && id in snapshot && snapshot[id].isActive
    ensures Fresh(Built(rows, lower), snapshot[id := snapshot[id].(name := name)], lower)
      <==> Clipped(lower(name)) == Clipped(lower(snapshot[id].name))
  {
    hide Clipped;
    var l, db := Built(rows, lower), snapshot[id := snapshot[id].(name := name)];
    var row := Row(id, snapshot[id].name, snapshot[id].updatedAt);
    LatestIsMaximum(rows, 0);
    BuildIsFreshExactly(rows, snapshot, db, lower);
    if Clipped(lower(name)) == Clipped(lower(snapshot[id].name)) {
      NamesOfIn(rows, row, lower);
    } else if Covered(l, id, db[id], lower) {
      NamesOfFrom(rows, Named(Clipped(lower(name)), id), lower);
      assert false;
    }
  }

  /** One product, indexed under one name and then renamed without a new stamp. */
  function RenamedRun(lower: Lower, before: Bytes, after: Bytes): (states: seq<System>)
    ensures |states| == 4
  {
    var db, db' := map[0 := Product(before, true, 1)], map[0 := Product(after, true, 1)];
    var l := Built([Row(0, before, 1)], lower);
    [ System(db, 1, None, Idle),
      System(db, 1, None, Building(db, 1)),
      System(db, 1, Some(l), Idle),
      System(db', 1, Some(l), Idle) ]
  }

  lemma RenamedLayers(lower: Lower, before: Bytes)
    ensures Built([Row(0, before, 1)], lower) == Layers([Named(Clipped(lower(before)), 0)], [], 1)
  {
    hide Clipped;
    var rows := [Row(0, before, 1)];
    assert rows[..0] == [];
    assert NamesOf(rows, lower) == NamesOf(rows[..0], lower) + [NameOf(rows[0], lower)];
    assert Latest(rows[..0], 0) == 0;
  }

  lemma RenamedRunSteps(lower: Lower, before: Bytes, after: Bytes)
    ensures IsRun(RenamedRun(lower, before, after), lower) && Untorn(RenamedRun(lower, before, after), lower)
  {
    hide Built, IsPull;
    var states := RenamedRun(lower, before, after);
    var rows := [Row(0, before, 1)];
    assert IsSnapshot(rows, states[0].db);
    assert BuildsFrom(states[1], states[2], lower, rows);
    assert BeginStep(states[0], states[1]) && DatabaseStep(states[2], states[3]);
    assert Step(states[0], states[1], lower) && Step(states[1], states[2], lower) && Step(states[2], states[3], lower);
  }

  /**
   The losing input: no pull is torn, but a search for the current name finds nothing, and no later pull
   asks for the product.
   */
  lemma UnstampedRename(lower: Lower, before: Bytes, after: Bytes)
    requires !Contains(Clipped(lower(before)), Clipped(lower(after)))
    ensures IsRun(RenamedRun(lower, before, after), lower) && Untorn(RenamedRun(lower, before, after), lower)
    ensures var s := RenamedRun(lower, before, after)[3];
      && s.db == map[0 := Product(after, true, 1)]
      && (forall cap :: Search(IndexFor(s.layers.value), Clipped(lower(after)), cap) == [])
      && (forall rows :: IsPull(rows, s.db, s.layers.value.watermark) ==> rows == [])
  {
    var s, x := RenamedRun(lower, before, after)[3], Named(Clipped(lower(before)), 0);
    RenamedRunSteps(lower, before, after);
    RenamedLayers(lower, before);
    ClippedIsClean(lower(before));
    ClippedIsClean(lower(after));
    ClippedIsShort(lower(before));
    OneIsAddressable(x);
    forall cap ensures Search(IndexFor(s.layers.value), Clipped(lower(after)), cap) == [] {
      NoHitInOne(x, Clipped(lower(after)), cap);
    }
    hide *;
    forall rows | IsPull(rows, s.db, s.layers.value.watermark) ensures rows == [] {
      NothingToPull(rows, after);
    }
  }

  lemma NothingToPull(rows: seq<Row>, name: Bytes)
    requires IsPull(rows, map[0 := Product(name, true, 1)], 1)
    ensures rows == []
  {
    hide DistinctRows;
    if rows != [] {
      FirstRow(rows);
    }
  }

  lemma FirstRow(rows: seq<Row>)
    requires rows != []
    ensures exists r :: r in rows
  {
    assert rows[0] in rows;
  }

  /** The product is active and stamped at or before the watermark, but not stored under its name. */
  ghost predicate Missing(s: System, lower: Lower, id: Uuid) {
    && s.layers.Some? && id in s.db && s.db[id].isActive && s.db[id].updatedAt <= s.layers.value.watermark
    && !Covered(s.layers.value, id, s.db[id], lower)
    && (s.phase.Pulling? ==> Unchanged(s.phase.snapshot, s.db, id))
  }

  ghost predicate Rebuild(s: System, s': System, lower: Lower) {
    exists rows :: BuildsFrom(s, s', lower, rows)
  }

  /** A step that neither rebuilds the index nor touches the product. */
  ghost predicate PassesBy(s: System, s': System, lower: Lower, id: Uuid) {
    Step(s, s', lower) && !Rebuild(s, s', lower) && id in s'.db && Unchanged(s.db, s'.db, id)
  }

  lemma StepKeepsMissing(s: System, s': System, lower: Lower, id: Uuid)
    requires Missing(s, lower, id) && PassesBy(s, s', lower, id)
    ensures Missing(s', lower, id)
  {
    hide Clipped, Latest, NamesOf, Outgrown;
    if rows :| PullsFrom(s, s', lower, rows) {
      if RefreshesFrom(s, s', lower, rows) && Covered(s'.layers.value, id, s.db[id], lower) {
        NamesOfFrom(rows, Named(Clipped(lower(s.db[id].name)), id), lower);
        assert false;
      }
    }
  }

  /** Such a product stays missing, over any further run, until it changes or the index is rebuilt. */
  lemma {:induction false} MissingUntilRebuilt(states: seq<System>, lower: Lower, id: Uuid)
    requires states != [] && Missing(states[0], lower, id)
    requires forall i :: 0 <= i < |states| - 1 ==> PassesBy(states[i], states[i + 1], lower, id)
    ensures Missing(states[|states| - 1], lower, id)
  {
    hide PassesBy, Missing;
    if |states| > 1 {
      var n := |states| - 2;
      assert states[n + 1] == states[|states| - 1];
      MissingUntilRebuilt(states[..n + 1], lower, id);
      StepKeepsMissing(states[n], states[n + 1], lower, id);
    }
  }

  // ----- what a searcher sees

  lemma {:induction false} HitsInclude(names: seq<Named>, pat: Bytes, x: Named)
    requires x in names && Contains(x.name, pat)
    ensures x.id in Hits(names, pat)
  {
    hide Contains;
    if names[0] != x {
      assert x in names[1..];
      HitsInclude(names[1..], pat, x);
    }
  }

  lemma {:induction false} HitsSize(names: seq<Named>, pat: Bytes)
    ensures |Hits(names, pat)| <= |names|
  {
    hide Contains;
    if names != [] {
      HitsSize(names[1..], pat);
    }
  }

  /** Freshness as a searcher sees it: such a product is found by any safe part of its current name. */
  lemma FreshProductIsFound(states: seq<System>, lower: Lower, id: Uuid, pat: Bytes)
    requires IsRun(states, lower) && Lossless(states, lower)
    requires var s := states[|states| - 1];
      && s.layers.Some? && AllAddressable(s.layers.value.base)
      && id in s.db && s.db[id].isActive && s.db[id].updatedAt <= s.layers.value.watermark
      && SafeNeedle(pat) && Contains(Clipped(lower(s.db[id].name)), pat)
    ensures var l := states[|states| - 1].layers.value;
      id in Search(IndexFor(l), pat, |l.base| + |l.delta|)
  {
    hide *;
    RunNotEmpty(states, lower);
    var s := states[|states| - 1];
    AlwaysFresh(states, lower);
    FreshCovers(s.layers.value, s.db, lower, id);
    CoveredIsFound(s.layers.value, id, s.db[id], lower, pat);
  }

  lemma RunNotEmpty(states: seq<System>, lower: Lower)
    requires IsRun(states, lower)
    ensures states != []
  {
  }

  lemma FreshCovers(l: Layers, db: Database, lower: Lower, id: Uuid)
    requires Fresh(l, db, lower) && id in db && db[id].isActive && db[id].updatedAt <= l.watermark
    ensures Covered(l, id, db[id], lower)
  {
  }

  lemma CoveredIsFound(l: Layers, id: Uuid, p: Product, lower: Lower, pat: Bytes)
    requires Covered(l, id, p, lower) && CleanNames(l.base) && AllAddressable(l.base)
    requires SafeNeedle(pat) && Contains(Clipped(lower(p.name)), pat)
    ensures id in Search(IndexFor(l), pat, |l.base| + |l.delta|)
  {
    var x := Named(Clipped(lower(p.name)), id);
    assert x in l.base + l.delta;
    var n := |l.base| + |l.delta|;
    assert IndexFor(l) == Index(Assembled(l.base, l.watermark).shards, l.delta, l.watermark, n);
    hide *;
    SearchIsPlainScan(l.base, l.delta, l.watermark, n, pat, n);
    HitsInclude(l.base + l.delta, pat, x);
    HitsSize(l.base + l.delta, pat);
    TakeAll(Hits(l.base + l.delta, pat), n);
  }

  lemma OneIsAddressable(x: Named)
    requires |x.name| + 1 < U32
    ensures AllAddressable([x])
  {
    assert PerShard(1) == 1;
    assert Chunks([x], 1) == [[x]];
    assert |Arena([x], 1)| == |Arena([x], 0)| + |x.name| + 1;
  }

  lemma ClippedIsShort(lowered: Bytes)
    ensures |Clipped(lowered)| <= MAX_NAME_BYTES
  {
  }

  lemma NoHitInOne(x: Named, pat: Bytes, cap: nat)
    requires CleanNames([x]) && AllAddressable([x]) && NEWLINE !in pat && !Contains(x.name, pat)
    ensures Search(IndexFor(Layers([x], [], 1)), pat, cap) == []
  {
    if pat != [] {
      SearchIsPlainScan([x], [], 1, 1, pat, cap);
      assert [x] + [] == [x];
      assert [x][1..] == [];
    }
  }

  lemma TakeAll<T>(s: seq<T>, n: nat)
    requires |s| <= n
    ensures Take(s, n) == s
  {
  }
}
