/**
 Fan-out of one sitemap enumeration: the coordinator chunks the sub-sitemaps and sets a pending
 counter; each shard call stashes its categories, records its count and decrements the counter;
 the call that sees the counter exhausted totals the run and publishes the categories.
 Redis executes single commands atomically, so calls interleave command by command.
 */
module ShardFanout {
  import opened Common

  const SHARD_SUBFILES: nat := 3

  /** One arrival of a shard message; redeliveries are further deliveries of the same shard. */
  datatype Delivery = Delivery(shard: nat, productLike: nat, categories: set<string>)

  /** The Redis keys of one run. */
  datatype Keys = Keys(pending: int, counts: map<nat, nat>, categories: set<string>)

  /** Where one call stands between its Redis commands. */
  datatype Phase =
    | Received
    | Stashed
    | Recorded
    | Decremented(remaining: int)
    | Returned(outcome: Option<nat>)
    | Popped(total: nat, members: set<string>)
    | Published(total: nat, members: set<string>)

  /** History variables: recorded has the calls in the order of their HSET, seen the hash as each HVALS returned it. */
  datatype Run = Run(keys: Keys, calls: seq<Phase>, recorded: seq<nat>, seen: seq<map<nat, nat>>)

  // ----- coordinator

  /** Every sub-sitemap goes to exactly one shard, in order, three to a shard. */
  method ChunkSubfiles(files: seq<string>) returns (chunks: seq<seq<string>>)
    ensures Flatten(chunks) == files
    ensures |chunks| == (|files| + 2) / 3
    ensures forall i :: 0 <= i < |chunks| ==> 1 <= |chunks[i]| <= 3
    ensures forall i :: 0 <= i < |chunks| - 1 ==> |chunks[i]| == 3
  {
    chunks := [];
    var i := 0;
    while i < |files|
      invariant 0 <= i <= |files|
      invariant i == |files| || i == SHARD_SUBFILES * |chunks|
      invariant |chunks| == (i + SHARD_SUBFILES - 1) / SHARD_SUBFILES
      invariant Flatten(chunks) == files[..i]
      invariant forall k :: 0 <= k < |chunks| ==> 1 <= |chunks[k]| <= SHARD_SUBFILES
      invariant i < |files| ==> forall k :: 0 <= k < |chunks| ==> |chunks[k]| == SHARD_SUBFILES
      invariant forall k :: 0 <= k < |chunks| - 1 ==> |chunks[k]| == SHARD_SUBFILES
    {
      var end := Min(i + SHARD_SUBFILES, |files|);
      FlattenAppend(chunks, files[i..end]);
      assert files[..end] == files[..i] + files[i..end];
      chunks := chunks + [files[i..end]];
      i := end;
    }
    assert files[..i] == files;
  }

  // ----- Redis commands

  function Sadd(k: Keys, urls: set<string>): Keys {
    k.(categories := k.categories + urls)
  }

  function Hset(k: Keys, shard: nat, count: nat): Keys {
    k.(counts := k.counts[shard := count])
  }

  function Decr(k: Keys): Keys {
    k.(pending := k.pending - 1)
  }

  /** sum(HVALS): one addend per shard number below n. */
  function SumOf(counts: map<nat, nat>, n: nat): nat {
    if n == 0 then 0 else SumOf(counts, n - 1) + (if n - 1 in counts then counts[n - 1] else 0)
  }

  function Del(k: Keys): Keys {
    k.(categories := {})
  }

  /** The shared keys as the workers see them, changed in place one command at a time. */
  class RunKeys {
    const shards: nat
    var pending: int
    var counts: map<nat, nat>
    var categories: set<string>

    function View(): Keys
      reads this
    {
      Keys(pending, counts, categories)
    }

    constructor (chunks: nat)
      ensures shards == chunks && View() == Start(chunks)
    {
      shards := chunks;
      pending := chunks;
      counts := map[];
      categories := {};
    }

    method StashShardCategories(urls: set<string>)
      modifies this
      ensures View() == Sadd(old(View()), urls)
    {
      if urls != {} {
        categories := categories + urls;
      }
    }

    method TotalCounts() returns (total: nat)
      ensures total == SumOf(counts, shards)
    {
      total := 0;
      for k := 0 to shards
        invariant total == SumOf(counts, k)
      {
        if k in counts {
          total := total + counts[k];
        }
      }
    }

    /** _record_shard_done when nobody interferes; interleavings are the subject of Next below. */
    method RecordShardDone(shard: nat, productLike: nat) returns (total: Option<nat>)
      modifies this
      ensures View() == Decr(Hset(old(View()), shard, productLike))
      ensures total.Some? <==> old(pending) <= 1
      ensures total.Some? ==> total.value == SumOf(old(counts)[shard := productLike], shards)
    {
      counts := counts[shard := productLike];
      pending := pending - 1;
      if pending > 0 {
        return None;
      }
      var sum := TotalCounts();
      return Some(sum);
    }

    method PopRunCategories() returns (members: set<string>)
      modifies this
      ensures members == old(categories)
      ensures View() == Del(old(View()))
    {
      members := categories;
      categories := {};
    }
  }

  // ----- interleavings

  function Start(n: nat): Keys {
    Keys(n, map[], {})
  }

  function Init(n: nat, ds: seq<Delivery>): Run {
    Run(Start(n), seq(|ds|, _ => Received), [], [])
  }

  /** Call i executes its next Redis command; a finished call has none left. */
  function Next(n: nat, ds: seq<Delivery>, s: Run, i: nat): (s': Run)
    requires i < |ds| == |s.calls|
    ensures |s'.calls| == |ds|
  {
    var k := s.keys;
    match s.calls[i]
    case Received => s.(keys := Sadd(k, ds[i].categories), calls := s.calls[i := Stashed])
    case Stashed =>
      s.(keys := Hset(k, ds[i].shard, ds[i].productLike), calls := s.calls[i := Recorded],
      recorded := s.recorded + [i])
    case Recorded => s.(keys := Decr(k), calls := s.calls[i := Decremented(k.pending - 1)])
    case Decremented(remaining) =>
      if remaining > 0 then s.(calls := s.calls[i := Returned(None)])
      else s.(calls := s.calls[i := Returned(Some(SumOf(k.counts, n)))], seen := s.seen + [k.counts])
    case Returned(None) => s
    case Returned(Some(total)) => s.(calls := s.calls[i := Popped(total, k.categories)])
    case Popped(total, members) => s.(keys := Del(k), calls := s.calls[i := Published(total, members)])
    case Published(_, _) => s
  }

  predicate IsSchedule(ds: seq<Delivery>, schedule: seq<nat>) {
    forall j :: 0 <= j < |schedule| ==> schedule[j] < |ds|
  }

  /** The state after the commands of the given calls ran in the given order. */
  function Exec(n: nat, ds: seq<Delivery>, schedule: seq<nat>): (s: Run)
    requires IsSchedule(ds, schedule)
    ensures |s.calls| == |ds|
  {
    if schedule == [] then Init(n, ds)
    else Next(n, ds, Exec(n, ds, schedule[..|schedule| - 1]), schedule[|schedule| - 1])
  }

  predicate Finished(p: Phase) {
    p == Returned(None) || p.Published?
  }

  predicate Complete(s: Run) {
    forall i :: 0 <= i < |s.calls| ==> Finished(s.calls[i])
  }

  predicate HasRecorded(p: Phase) {
    !p.Received? && !p.Stashed?
  }

  predicate HasDecremented(p: Phase) {
    HasRecorded(p) && !p.Recorded?
  }

  /** The call found the counter exhausted: it is a finisher. */
  predicate IsFinisher(p: Phase) {
    (p.Decremented? && p.remaining <= 0) || (p.Returned? && p.outcome.Some?) || p.Popped? || p.Published?
  }

  function TotalReturned(p: Phase): Option<nat> {
    match p
    case Returned(outcome) => outcome
    case Popped(total, _) => Some(total)
    case Published(total, _) => Some(total)
    case _ => None
  }

  function Count(calls: seq<Phase>, p: Phase -> bool): (c: nat)
    ensures c <= |calls|
  {
    if calls == [] then 0 else (if p(calls[0]) then 1 else 0) + Count(calls[1..], p)
  }

  lemma {:induction false} CountUpdate(calls: seq<Phase>, i: nat, x: Phase, p: Phase -> bool)
    requires i < |calls|
    ensures Count(calls[i := x], p)
         == Count(calls, p) - (if p(calls[i]) then 1 else 0) + (if p(x) then 1 else 0)
  {
    if i == 0 {
      assert calls[i := x][1..] == calls[1..];
    } else {
      assert calls[i := x][1..] == calls[1..][i - 1 := x];
      CountUpdate(calls[1..], i - 1, x, p);
    }
  }

  lemma {:induction false} CountAll(calls: seq<Phase>, p: Phase -> bool)
    ensures Count(calls, p) == |calls| <==> forall i :: 0 <= i < |calls| ==> p(calls[i])
  {
    if calls != [] {
      CountAll(calls[1..], p);
      if forall i :: 0 <= i < |calls| ==> p(calls[i]) {
        forall i | 0 <= i < |calls[1..]| ensures p(calls[1..][i]) {
          assert calls[1..][i] == calls[i + 1];
        }
      } else {
        var i :| 0 <= i < |calls| && !p(calls[i]);
        if i > 0 {
          assert calls[1..][i - 1] == calls[i];
        }
      }
    }
  }

  lemma {:induction false} CountNone(m: nat, p: Phase -> bool)
    requires !p(Received)
    ensures Count(seq(m, _ => Received), p) == 0
  {
    if m > 0 {
      assert seq(m, _ => Received)[1..] == seq(m - 1, _ => Received);
      CountNone(m - 1, p);
    }
  }

  // ----- the counter protocol, for any deliveries at all

  function Finishers(n: nat, decremented: nat): nat {
    if decremented < n then 0 else decremented - n + 1
  }

  /** Counter = shards minus decrements; the finishers are the decrements from the n-th on. */
  ghost predicate CounterInv(n: nat, ds: seq<Delivery>, s: Run) {
    && |s.calls| == |ds|
    && s.keys.pending == n - Count(s.calls, HasDecremented)
    && Count(s.calls, IsFinisher) == Finishers(n, Count(s.calls, HasDecremented))
  }

  lemma CounterStep(n: nat, ds: seq<Delivery>, s: Run, i: nat)
    requires n >= 1 && i < |ds| && CounterInv(n, ds, s)
    ensures CounterInv(n, ds, Next(n, ds, s, i))
  {
    var s' := Next(n, ds, s, i);
    CountUpdate(s.calls, i, s'.calls[i], HasDecremented);
    CountUpdate(s.calls, i, s'.calls[i], IsFinisher);
    assert s'.calls == s.calls[i := s'.calls[i]];
  }

  lemma {:induction false} CounterAlways(n: nat, ds: seq<Delivery>, schedule: seq<nat>)
    requires n >= 1 && IsSchedule(ds, schedule)
    ensures CounterInv(n, ds, Exec(n, ds, schedule))
  {
    if schedule == [] {
      CountNone(|ds|, HasDecremented);
      CountNone(|ds|, IsFinisher);
    } else {
      var before := schedule[..|schedule| - 1];
      CounterAlways(n, ds, before);
      CounterStep(n, ds, Exec(n, ds, before), schedule[|schedule| - 1]);
    }
  }

  /**
   However deliveries repeat and interleave, a completed run has returned one total for the
   n-th decrement and one for each later one; so exactly one total iff there were n deliveries.
   */
  lemma TotalsReturned(n: nat, ds: seq<Delivery>, schedule: seq<nat>)
    requires n >= 1 && IsSchedule(ds, schedule)
    requires Complete(Exec(n, ds, schedule))
    ensures Count(Exec(n, ds, schedule).calls, IsFinisher) == Finishers(n, |ds|)
    ensures Count(Exec(n, ds, schedule).calls, IsFinisher) == 1 <==> |ds| == n
    ensures forall i :: 0 <= i < |ds| ==>
      (IsFinisher(Exec(n, ds, schedule).calls[i]) <==> TotalReturned(Exec(n, ds, schedule).calls[i]).Some?)
  {
    var s := Exec(n, ds, schedule);
    CounterAlways(n, ds, schedule);
    forall i | 0 <= i < |ds| ensures HasDecremented(s.calls[i]) {
      assert Finished(s.calls[i]);
    }
    CountAll(s.calls, HasDecremented);
    forall i | 0 <= i < |ds|
      ensures IsFinisher(s.calls[i]) <==> TotalReturned(s.calls[i]).Some?
    {
      assert Finished(s.calls[i]);
    }
  }

  // ----- totals never double count, for any deliveries at all

  /** The count of the latest recorded delivery of a shard. */
  function LatestCount(ds: seq<Delivery>, recorded: seq<nat>, shard: nat): Option<nat>
    requires IsSchedule(ds, recorded)
  {
    if recorded == [] then None
    else
      var last := recorded[|recorded| - 1];
      if ds[last].shard == shard then Some(ds[last].productLike)
      else LatestCount(ds, recorded[..|recorded| - 1], shard)
  }

  function SumLatest(ds: seq<Delivery>, recorded: seq<nat>, n: nat): nat
    requires IsSchedule(ds, recorded)
  {
    if n == 0 then 0
    else
      var l := LatestCount(ds, recorded, n - 1);
      SumLatest(ds, recorded, n - 1) + (if l.Some? then l.value else 0)
  }

  /** The largest count any delivery of the shard carries. */
  function Largest(ds: seq<Delivery>, shard: nat): nat {
    if ds == [] then 0
    else Max(if ds[0].shard == shard then ds[0].productLike else 0, Largest(ds[1..], shard))
  }

  function SumLargest(ds: seq<Delivery>, n: nat): nat {
    if n == 0 then 0 else SumLargest(ds, n - 1) + Largest(ds, n - 1)
  }

  lemma {:induction false} LargestBounds(ds: seq<Delivery>, i: nat)
    requires i < |ds|
    ensures ds[i].productLike <= Largest(ds, ds[i].shard)
  {
    if i > 0 {
      assert ds[1..][i - 1] == ds[i];
      LargestBounds(ds[1..], i - 1);
    }
  }

  lemma {:induction false} LatestBounded(ds: seq<Delivery>, recorded: seq<nat>, shard: nat)
    requires IsSchedule(ds, recorded)
    ensures LatestCount(ds, recorded, shard).Some? ==> LatestCount(ds, recorded, shard).value <= Largest(ds, shard)
  {
    if recorded != [] {
      LargestBounds(ds, recorded[|recorded| - 1]);
      LatestBounded(ds, recorded[..|recorded| - 1], shard);
    }
  }

  lemma {:induction false} SumLatestBounded(ds: seq<Delivery>, recorded: seq<nat>, n: nat)
    requires IsSchedule(ds, recorded)
    ensures SumLatest(ds, recorded, n) <= SumLargest(ds, n)
  {
    if n > 0 {
      LatestBounded(ds, recorded, n - 1);
      SumLatestBounded(ds, recorded, n - 1);
    }
  }

  /** The counts hash holds exactly the latest count of every recorded shard. */
  ghost predicate CountsInv(n: nat, ds: seq<Delivery>, s: Run) {
    && |s.calls| == |ds|
    && IsSchedule(ds, s.recorded)
    && (forall k :: k in s.keys.counts <==> LatestCount(ds, s.recorded, k).Some?)
    && (forall k :: k in s.keys.counts ==> s.keys.counts[k] == LatestCount(ds, s.recorded, k).value)
    && (forall i :: 0 <= i < |ds| && TotalReturned(s.calls[i]).Some? ==>
      TotalReturned(s.calls[i]).value <= SumLargest(ds, n))
  }

  lemma {:induction false} SumOfLatest(ds: seq<Delivery>, counts: map<nat, nat>, recorded: seq<nat>, n: nat)
    requires IsSchedule(ds, recorded)
    requires forall k :: k in counts <==> LatestCount(ds, recorded, k).Some?
    requires forall k :: k in counts ==> counts[k] == LatestCount(ds, recorded, k).value
    ensures SumOf(counts, n) == SumLatest(ds, recorded, n)
  {
    if n > 0 {
      SumOfLatest(ds, counts, recorded, n - 1);
    }
  }

  lemma CountsStep(n: nat, ds: seq<Delivery>, s: Run, i: nat)
    requires i < |ds| && CountsInv(n, ds, s)
    ensures CountsInv(n, ds, Next(n, ds, s, i))
  {
    var s' := Next(n, ds, s, i);
    if s.calls[i].Stashed? {
      assert s'.recorded[..|s'.recorded| - 1] == s.recorded;
    } else {
      assert s'.recorded == s.recorded;
      SumOfLatest(ds, s.keys.counts, s.recorded, n);
      SumLatestBounded(ds, s.recorded, n);
    }
  }

  lemma {:induction false} CountsAlways(n: nat, ds: seq<Delivery>, schedule: seq<nat>)
    requires IsSchedule(ds, schedule)
    ensures CountsInv(n, ds, Exec(n, ds, schedule))
  {
    if schedule != [] {
      var before := schedule[..|schedule| - 1];
      CountsAlways(n, ds, before);
      CountsStep(n, ds, Exec(n, ds, before), schedule[|schedule| - 1]);
    }
  }

  /**
   Whatever was delivered how often and in which order: a call that returns a total returns the
   sum of the latest counts, one per shard, and never more than the per-shard maxima.
   */
  lemma TotalNeverDoubleCounts(n: nat, ds: seq<Delivery>, schedule: seq<nat>, i: nat)
    requires IsSchedule(ds, schedule) && i < |ds|
    requires Exec(n, ds, schedule).calls[i].Decremented? && Exec(n, ds, schedule).calls[i].remaining <= 0
    ensures var s := Exec(n, ds, schedule);
      && CountsInv(n, ds, s)
      && TotalReturned(Next(n, ds, s, i).calls[i]) == Some(SumLatest(ds, s.recorded, n))
      && SumLatest(ds, s.recorded, n) <= SumLargest(ds, n)
  {
    var s := Exec(n, ds, schedule);
    CountsAlways(n, ds, schedule);
    SumOfLatest(ds, s.keys.counts, s.recorded, n);
    SumLatestBounded(ds, s.recorded, n);
  }

  // ----- each shard delivered once: one finisher, full total, all categories

  /** Each shard below n is delivered once, in whatever order. */
  predicate DeliveredOnce(n: nat, ds: seq<Delivery>) {
    && |ds| == n
    && (forall i :: 0 <= i < n ==> ds[i].shard < n)
    && (forall i, j :: 0 <= i < j < n ==> ds[i].shard != ds[j].shard)
  }

  function RunTotal(ds: seq<Delivery>, n: nat): nat
    requires n <= |ds|
  {
    if n == 0 then 0 else RunTotal(ds, n - 1) + ds[n - 1].productLike
  }

  /** Categories of the calls that have stashed theirs. */
  function StashedBy(ds: seq<Delivery>, calls: seq<Phase>): set<string>
    requires |calls| == |ds|
  {
    set i, c | 0 <= i < |ds| && !calls[i].Received? && c in ds[i].categories :: c
  }

  function AllCategories(ds: seq<Delivery>): set<string> {
    set i, c | 0 <= i < |ds| && c in ds[i].categories :: c
  }

  ghost predicate OnceCounts(n: nat, ds: seq<Delivery>, s: Run)
    requires |ds| == n == |s.calls|
  {
    && (forall k :: k in s.keys.counts ==>
      exists i :: 0 <= i < n && ds[i].shard == k && HasRecorded(s.calls[i]))
    && (forall i :: 0 <= i < n && HasRecorded(s.calls[i]) ==>
      ds[i].shard in s.keys.counts && s.keys.counts[ds[i].shard] == ds[i].productLike)
  }

  /** Every total was computed from a hash that held all shards. */
  ghost predicate FullReads(ds: seq<Delivery>, s: Run) {
    forall r, i :: 0 <= r < |s.seen| && 0 <= i < |ds| ==> ds[i].shard in s.seen[r]
  }

  /** Nobody has deleted the stash yet, so it holds what was stashed. */
  ghost predicate OnceStash(n: nat, ds: seq<Delivery>, s: Run)
    requires |ds| == n == |s.calls|
  {
    (forall i :: 0 <= i < n ==> !s.calls[i].Published?) ==> s.keys.categories == StashedBy(ds, s.calls)
  }

  predicate OnceResult(n: nat, ds: seq<Delivery>, p: Phase)
    requires |ds| == n
  {
    && (TotalReturned(p).Some? ==> TotalReturned(p).value == RunTotal(ds, n))
    && (p.Popped? || p.Published? ==> p.members == AllCategories(ds))
  }

  ghost predicate OnceInv(n: nat, ds: seq<Delivery>, s: Run)
    requires |ds| == n
  {
    && CounterInv(n, ds, s)
    && OnceCounts(n, ds, s)
    && OnceStash(n, ds, s)
    && FullReads(ds, s)
    && forall i :: 0 <= i < n ==> OnceResult(n, ds, s.calls[i])
  }

  /** Once anyone is a finisher, every call has recorded and decremented. */
  lemma FinisherIsLast(n: nat, ds: seq<Delivery>, s: Run, i: nat)
    requires n >= 1 && DeliveredOnce(n, ds) && CounterInv(n, ds, s) && i < n && IsFinisher(s.calls[i])
    ensures forall k :: 0 <= k < n ==> HasDecremented(s.calls[k])
    ensures forall k :: 0 <= k < n && k != i ==> !IsFinisher(s.calls[k])
  {
    var quiet := s.calls[i := Received];
    CountUpdate(s.calls, i, Received, IsFinisher);
    assert Count(s.calls, IsFinisher) >= 1;
    CountAll(s.calls, HasDecremented);
    assert Count(quiet, IsFinisher) == 0;
    forall k | 0 <= k < n && k != i ensures !IsFinisher(s.calls[k]) {
      CountUpdate(quiet, k, Received, IsFinisher);
      assert quiet[k] == s.calls[k];
    }
  }

  /** The hash after the first m deliveries. */
  function CountsOf(ds: seq<Delivery>, m: nat): map<nat, nat>
    requires m <= |ds|
  {
    if m == 0 then map[] else CountsOf(ds, m - 1)[ds[m - 1].shard := ds[m - 1].productLike]
  }

  lemma {:induction false} CountsOfHolds(ds: seq<Delivery>, m: nat)
    requires m <= |ds| && forall i, j :: 0 <= i < j < m ==> ds[i].shard != ds[j].shard
    ensures forall k :: k in CountsOf(ds, m) <==> exists i :: 0 <= i < m && ds[i].shard == k
    ensures forall i :: 0 <= i < m ==> CountsOf(ds, m)[ds[i].shard] == ds[i].productLike
  {
    if m > 0 {
      CountsOfHolds(ds, m - 1);
    }
  }

  lemma {:induction false} SumOfMore(counts: map<nat, nat>, k: nat, v: nat, n: nat)
    requires k !in counts
    ensures SumOf(counts[k := v], n) == SumOf(counts, n) + (if k < n then v else 0)
  {
    if n > 0 {
      SumOfMore(counts, k, v, n - 1);
    }
  }

  lemma {:induction false} SumOfCounts(ds: seq<Delivery>, m: nat, n: nat)
    requires m <= |ds| && forall i, j :: 0 <= i < j < m ==> ds[i].shard != ds[j].shard
    requires forall i :: 0 <= i < m ==> ds[i].shard < n
    ensures SumOf(CountsOf(ds, m), n) == RunTotal(ds, m)
  {
    if m > 0 {
      SumOfCounts(ds, m - 1, n);
      CountsOfHolds(ds, m - 1);
      SumOfMore(CountsOf(ds, m - 1), ds[m - 1].shard, ds[m - 1].productLike, n);
    } else {
      SumOfNothing(n);
    }
  }

  lemma {:induction false} SumOfNothing(n: nat)
    ensures SumOf(map[], n) == 0
  {
    if n > 0 {
      SumOfNothing(n - 1);
    }
  }

  lemma FullSum(n: nat, ds: seq<Delivery>, s: Run)
    requires DeliveredOnce(n, ds) && |s.calls| == n && OnceCounts(n, ds, s)
    requires forall i :: 0 <= i < n ==> HasRecorded(s.calls[i])
    ensures SumOf(s.keys.counts, n) == RunTotal(ds, n)
  {
    CountsOfHolds(ds, n);
    SumOfCounts(ds, n, n);
    assert s.keys.counts == CountsOf(ds, n);
  }

  lemma StashStep(n: nat, ds: seq<Delivery>, s: Run, i: nat)
    requires |ds| == n == |s.calls| && i < n && OnceStash(n, ds, s)
    ensures OnceStash(n, ds, Next(n, ds, s, i))
  {
    var s' := Next(n, ds, s, i);
    if s.calls[i].Received? {
      assert StashedBy(ds, s'.calls) == StashedBy(ds, s.calls) + ds[i].categories;
    } else {
      assert StashedBy(ds, s'.calls) == StashedBy(ds, s.calls);
    }
    if forall k :: 0 <= k < n ==> !s'.calls[k].Published? {
      forall k | 0 <= k < n ensures !s.calls[k].Published? {
        assert !s'.calls[k].Published?;
      }
      assert !s'.calls[i].Published?;
      assert s'.keys.categories
          == if s.calls[i].Received? then s.keys.categories + ds[i].categories else s.keys.categories;
    }
  }

  lemma ResultStep(n: nat, ds: seq<Delivery>, s: Run, i: nat)
    requires n >= 1 && DeliveredOnce(n, ds) && OnceInv(n, ds, s) && i < n
    ensures OnceResult(n, ds, Next(n, ds, s, i).calls[i])
    ensures FullReads(ds, Next(n, ds, s, i))
  {
    hide *;
    OnceInvParts(n, ds, s, i);
    if IsFinisher(s.calls[i]) && !s.calls[i].Published? {
      AllDone(n, ds, s, i);
      FinisherStep(n, ds, s, i);
    } else {
      QuietStep(n, ds, s, i);
    }
  }

  lemma OnceInvParts(n: nat, ds: seq<Delivery>, s: Run, i: nat)
    requires DeliveredOnce(n, ds) && OnceInv(n, ds, s) && i < n
    ensures |ds| == n == |s.calls| && FullReads(ds, s) && OnceResult(n, ds, s.calls[i])
  {
  }

  lemma FinisherStep(n: nat, ds: seq<Delivery>, s: Run, i: nat)
    requires |ds| == n == |s.calls| && i < n && FullReads(ds, s) && OnceResult(n, ds, s.calls[i])
    requires IsFinisher(s.calls[i]) && !s.calls[i].Published?
    requires SumOf(s.keys.counts, n) == RunTotal(ds, n) && s.keys.categories == AllCategories(ds)
    requires forall k :: 0 <= k < n ==> ds[k].shard in s.keys.counts
    ensures OnceResult(n, ds, Next(n, ds, s, i).calls[i])
    ensures FullReads(ds, Next(n, ds, s, i))
  {
    hide SumOf, RunTotal, AllCategories;
  }

  lemma QuietStep(n: nat, ds: seq<Delivery>, s: Run, i: nat)
    requires |ds| == n == |s.calls| && i < n && FullReads(ds, s) && OnceResult(n, ds, s.calls[i])
    requires !IsFinisher(s.calls[i]) || s.calls[i].Published?
    ensures OnceResult(n, ds, Next(n, ds, s, i).calls[i])
    ensures FullReads(ds, Next(n, ds, s, i))
  {
    hide SumOf, RunTotal, AllCategories;
  }

  /** What a finisher finds: every shard's count and every category. */
  lemma AllDone(n: nat, ds: seq<Delivery>, s: Run, i: nat)
    requires n >= 1 && DeliveredOnce(n, ds) && OnceInv(n, ds, s) && i < n
    requires IsFinisher(s.calls[i]) && !s.calls[i].Published?
    ensures SumOf(s.keys.counts, n) == RunTotal(ds, n)
    ensures s.keys.categories == AllCategories(ds)
    ensures forall k :: 0 <= k < n ==> ds[k].shard in s.keys.counts
  {
    FinisherIsLast(n, ds, s, i);
    FullSum(n, ds, s);
    hide SumOf, RunTotal, CounterInv, DeliveredOnce, Count, OnceResult, FullReads;
    forall k | 0 <= k < n ensures !s.calls[k].Published? {
      assert k != i ==> !IsFinisher(s.calls[k]);
    }
    assert StashedBy(ds, s.calls) == AllCategories(ds);
  }

  /** What a step does to the hash and to who has recorded. */
  lemma StepRecords(n: nat, ds: seq<Delivery>, s: Run, i: nat)
    requires i < |ds| == |s.calls|
    ensures var s' := Next(n, ds, s, i);
      if s.calls[i].Stashed? then
        && s'.keys.counts == s.keys.counts[ds[i].shard := ds[i].productLike]
        && HasRecorded(s'.calls[i]) && forall k :: 0 <= k < |ds| && k != i ==> s'.calls[k] == s.calls[k]
      else
        && s'.keys.counts == s.keys.counts
        && forall k :: 0 <= k < |ds| ==> HasRecorded(s'.calls[k]) == HasRecorded(s.calls[k])
  {
  }

  lemma CountsOnceStep(n: nat, ds: seq<Delivery>, s: Run, i: nat)
    requires DeliveredOnce(n, ds) && |s.calls| == n && i < n && OnceCounts(n, ds, s)
    ensures OnceCounts(n, ds, Next(n, ds, s, i))
  {
    StepRecords(n, ds, s, i);
    hide Next, HasRecorded;
    var s' := Next(n, ds, s, i);
    forall k | k in s'.keys.counts
      ensures exists j :: 0 <= j < n && ds[j].shard == k && HasRecorded(s'.calls[j])
    {
      if k in s.keys.counts {
        var j :| 0 <= j < n && ds[j].shard == k && HasRecorded(s.calls[j]);
        assert HasRecorded(s'.calls[j]);
      } else {
        assert ds[i].shard == k && HasRecorded(s'.calls[i]);
      }
    }
  }

  lemma OnceStep(n: nat, ds: seq<Delivery>, s: Run, i: nat)
    requires n >= 1 && DeliveredOnce(n, ds) && OnceInv(n, ds, s) && i < n
    ensures OnceInv(n, ds, Next(n, ds, s, i))
  {
    var s' := Next(n, ds, s, i);
    CounterStep(n, ds, s, i);
    CountsOnceStep(n, ds, s, i);
    StashStep(n, ds, s, i);
    ResultStep(n, ds, s, i);
    OtherCalls(n, ds, s, i);
    hide Next, OnceResult, OnceStash, OnceCounts, CounterInv, FullReads, DeliveredOnce;
  }

  lemma OtherCalls(n: nat, ds: seq<Delivery>, s: Run, i: nat)
    requires i < |ds| == |s.calls|
    ensures forall k :: 0 <= k < |ds| && k != i ==> Next(n, ds, s, i).calls[k] == s.calls[k]
  {
  }

  lemma {:induction false} OnceAlways(n: nat, ds: seq<Delivery>, schedule: seq<nat>)
    requires n >= 1 && DeliveredOnce(n, ds) && IsSchedule(ds, schedule)
    ensures OnceInv(n, ds, Exec(n, ds, schedule))
  {
    if schedule == [] {
      CounterAlways(n, ds, schedule);
    } else {
      var before := schedule[..|schedule| - 1];
      OnceAlways(n, ds, before);
      OnceStep(n, ds, Exec(n, ds, before), schedule[|schedule| - 1]);
    }
  }

  /**
   Main result: in every interleaving of once-delivered shards exactly one call returns a total,
   the total is the sum over all shards, and the finisher publishes every shard's categories.
   */
  lemma ExactlyOneFinisher(n: nat, ds: seq<Delivery>, schedule: seq<nat>) returns (finisher: nat)
    requires n >= 1 && DeliveredOnce(n, ds) && IsSchedule(ds, schedule)
    requires Complete(Exec(n, ds, schedule))
    ensures finisher < n
    ensures Exec(n, ds, schedule).calls[finisher] == Published(RunTotal(ds, n), AllCategories(ds))
    ensures forall i :: 0 <= i < n && i != finisher ==> Exec(n, ds, schedule).calls[i] == Returned(None)
  {
    var s := Exec(n, ds, schedule);
    OnceAlways(n, ds, schedule);
    TotalsReturned(n, ds, schedule);
    finisher := SomeCounted(s.calls, IsFinisher);
    FinisherIsLast(n, ds, s, finisher);
    forall i | 0 <= i < n
      ensures i != finisher ==> s.calls[i] == Returned(None)
      ensures i == finisher ==> s.calls[i] == Published(RunTotal(ds, n), AllCategories(ds))
    {
      assert Finished(s.calls[i]);
    }
  }

  // ----- and only then: the exact condition

  predicate HasTotal(p: Phase) {
    TotalReturned(p).Some?
  }

  function ShardsIn(ds: seq<Delivery>): (shards: set<nat>) {
    set i | 0 <= i < |ds| :: ds[i].shard
  }

  /** One read per returned total, and only delivered shards are ever read. */
  ghost predicate ReadsInv(ds: seq<Delivery>, s: Run) {
    && |s.calls| == |ds|
    && |s.seen| == Count(s.calls, HasTotal)
    && (forall k :: k in s.keys.counts ==> k in ShardsIn(ds))
    && (forall r, k :: 0 <= r < |s.seen| && k in s.seen[r] ==> k in ShardsIn(ds))
  }

  lemma ReadsStep(n: nat, ds: seq<Delivery>, s: Run, i: nat)
    requires i < |ds| && ReadsInv(ds, s)
    ensures ReadsInv(ds, Next(n, ds, s, i))
  {
    var s' := Next(n, ds, s, i);
    CountUpdate(s.calls, i, s'.calls[i], HasTotal);
    assert s'.calls == s.calls[i := s'.calls[i]];
    assert ds[i].shard in ShardsIn(ds);
    hide Count, ShardsIn;
  }

  lemma {:induction false} ReadsAlways(n: nat, ds: seq<Delivery>, schedule: seq<nat>)
    requires IsSchedule(ds, schedule)
    ensures ReadsInv(ds, Exec(n, ds, schedule))
  {
    if schedule == [] {
      CountNone(|ds|, HasTotal);
    } else {
      var before := schedule[..|schedule| - 1];
      ReadsAlways(n, ds, before);
      ReadsStep(n, ds, Exec(n, ds, before), schedule[|schedule| - 1]);
    }
  }

  lemma {:induction false} CountSame(calls: seq<Phase>, p: Phase -> bool, q: Phase -> bool)
    requires forall i :: 0 <= i < |calls| ==> p(calls[i]) == q(calls[i])
    ensures Count(calls, p) == Count(calls, q)
  {
    if calls != [] {
      CountSame(calls[1..], p, q);
    }
  }

  function Below(n: nat): (numbers: set<nat>)
    ensures forall k: nat :: k in numbers <==> k < n
    ensures |numbers| == n
  {
    if n == 0 then {} else Below(n - 1) + {n - 1}
  }

  /** A list of n shard numbers names n different shards iff none repeats. */
  lemma {:induction false} ShardsInSize(ds: seq<Delivery>)
    ensures |ShardsIn(ds)| <= |ds|
    ensures |ShardsIn(ds)| == |ds| <==> forall i, j :: 0 <= i < j < |ds| ==> ds[i].shard != ds[j].shard
  {
    if ds == [] {
      assert ShardsIn(ds) == {};
    } else {
      var n := |ds| - 1;
      var front, last := ds[..n], ds[n].shard;
      ShardsInSize(front);
      assert ShardsIn(ds) == ShardsIn(front) + {last};
      LastShardRepeats(ds);
      hide ShardsIn;
      assert forall i :: 0 <= i < n ==> ds[i] == front[i];
    }
  }

  lemma LastShardRepeats(ds: seq<Delivery>)
    requires ds != []
    ensures var n := |ds| - 1;
      ds[n].shard in ShardsIn(ds[..n]) <==> exists i :: 0 <= i < n && ds[i].shard == ds[n].shard
  {
    var n := |ds| - 1;
    var front := ds[..n];
    if ds[n].shard in ShardsIn(front) {
      var i :| 0 <= i < n && front[i].shard == ds[n].shard;
      assert ds[i].shard == ds[n].shard;
    }
    if i :| 0 <= i < n && ds[i].shard == ds[n].shard {
      assert front[i].shard in ShardsIn(front);
    }
  }

  /** n deliveries name every shard below n iff each is delivered once. */
  lemma CoveringIsOnce(n: nat, ds: seq<Delivery>)
    requires |ds| == n
    ensures Below(n) <= ShardsIn(ds) <==> DeliveredOnce(n, ds)
  {
    ShardsInSize(ds);
    forall i | 0 <= i < n ensures ds[i].shard in ShardsIn(ds) {
    }
    if Below(n) <= ShardsIn(ds) {
      SubsetSize(Below(n), ShardsIn(ds));
    }
    if DeliveredOnce(n, ds) {
      SubsetSize(ShardsIn(ds), Below(n));
    }
    hide Below, ShardsIn;
  }

  /** One total was returned, from a hash in which every shard had recorded. */
  ghost predicate OneFullTotal(n: nat, s: Run) {
    |s.seen| == 1 && forall k :: 0 <= k < n ==> k in s.seen[0]
  }

  lemma OneTotalPerRead(n: nat, ds: seq<Delivery>, schedule: seq<nat>)
    requires n >= 1 && IsSchedule(ds, schedule) && Complete(Exec(n, ds, schedule))
    ensures var s := Exec(n, ds, schedule);
      |s.seen| == Count(s.calls, HasTotal) && (|s.seen| == 1 <==> |ds| == n)
  {
    var s := Exec(n, ds, schedule);
    ReadsAlways(n, ds, schedule);
    TotalsReturned(n, ds, schedule);
    CountSame(s.calls, IsFinisher, HasTotal);
  }

  lemma FullIsOnce(n: nat, ds: seq<Delivery>, s: Run)
    requires |ds| == n && ReadsInv(ds, s) && OneFullTotal(n, s)
    ensures DeliveredOnce(n, ds)
  {
    CoveringIsOnce(n, ds);
    forall k | k in Below(n) ensures k in ShardsIn(ds) {
      assert k in s.seen[0];
    }
  }

  lemma OnceIsFull(n: nat, ds: seq<Delivery>, s: Run)
    requires DeliveredOnce(n, ds) && FullReads(ds, s) && |s.seen| == 1
    ensures OneFullTotal(n, s)
  {
    CoveringIsOnce(n, ds);
    forall k | 0 <= k < n ensures k in s.seen[0] {
      assert k in Below(n);
      var i :| 0 <= i < n && ds[i].shard == k;
    }
  }

  /**
   The exact condition: a completed run returns a single total, and that with every shard recorded,
   iff each shard is delivered exactly once.
   */
  lemma FinishesExactly(n: nat, ds: seq<Delivery>, schedule: seq<nat>)
    requires n >= 1 && IsSchedule(ds, schedule)
    requires Complete(Exec(n, ds, schedule))
    ensures |Exec(n, ds, schedule).seen| == Count(Exec(n, ds, schedule).calls, HasTotal)
    ensures OneFullTotal(n, Exec(n, ds, schedule)) <==> DeliveredOnce(n, ds)
  {
    var s := Exec(n, ds, schedule);
    OneTotalPerRead(n, ds, schedule);
    ReadsAlways(n, ds, schedule);
    if DeliveredOnce(n, ds) {
      OnceAlways(n, ds, schedule);
      OnceIsFull(n, ds, s);
    } else if OneFullTotal(n, s) {
      FullIsOnce(n, ds, s);
    }
    hide *;
  }

  lemma {:induction false} SomeCounted(calls: seq<Phase>, p: Phase -> bool) returns (i: nat)
    requires Count(calls, p) > 0
    ensures i < |calls| && p(calls[i])
  {
    if p(calls[0]) {
      i := 0;
    } else {
      var j := SomeCounted(calls[1..], p);
      i := j + 1;
    }
  }

  /** Without the once-only premise it fails: shard 0 delivered twice closes a two-shard run early. */
  lemma RedeliveryFinishesEarly(d0: Delivery, d1: Delivery)
    requires d0.shard == 0 && d1.shard == 1 && d1.productLike > 0
    ensures var ds := [d0, d0, d1];
      var s := Exec(2, ds, [0, 0, 0, 1, 1, 1, 1]);
      s.calls[1] == Returned(Some(d0.productLike)) && s.calls[2] == Received
  {
    hide Exec;
    var ds := [d0, d0, d1];
    ExecNothing(2, ds);
    var s1 := ExecMore(2, ds, [], 0, [0]);
    var s2 := ExecMore(2, ds, [0], 0, [0, 0]);
    var s3 := ExecMore(2, ds, [0, 0], 0, [0, 0, 0]);
    var s4 := ExecMore(2, ds, [0, 0, 0], 1, [0, 0, 0, 1]);
    var s5 := ExecMore(2, ds, [0, 0, 0, 1], 1, [0, 0, 0, 1, 1]);
    var s6 := ExecMore(2, ds, [0, 0, 0, 1, 1], 1, [0, 0, 0, 1, 1, 1]);
    var s7 := ExecMore(2, ds, [0, 0, 0, 1, 1, 1], 1, [0, 0, 0, 1, 1, 1, 1]);
    assert s7.keys.counts == map[0 := d0.productLike];
    assert SumOf(map[0 := d0.productLike], 1) == d0.productLike;
  }

  /** A repeated shard stands in for a lost one: the run completes with one total that lacks shard 1. */
  lemma LostShardGoesUnnoticed(d0: Delivery)
    requires d0.shard == 0
    ensures var s := Exec(2, [d0, d0], [0, 0, 0, 1, 1, 1, 1, 0, 1, 1]);
      && Complete(s) && |s.seen| == 1 && 1 !in s.seen[0]
      && s.calls == [Returned(None), Published(d0.productLike, d0.categories)]
  {
    hide Exec;
    var ds := [d0, d0];
    ExecNothing(2, ds);
    var s1 := ExecMore(2, ds, [], 0, [0]);
    var s2 := ExecMore(2, ds, [0], 0, [0, 0]);
    var s3 := ExecMore(2, ds, [0, 0], 0, [0, 0, 0]);
    var s4 := ExecMore(2, ds, [0, 0, 0], 1, [0, 0, 0, 1]);
    var s5 := ExecMore(2, ds, [0, 0, 0, 1], 1, [0, 0, 0, 1, 1]);
    var s6 := ExecMore(2, ds, [0, 0, 0, 1, 1], 1, [0, 0, 0, 1, 1, 1]);
    var s7 := ExecMore(2, ds, [0, 0, 0, 1, 1, 1], 1, [0, 0, 0, 1, 1, 1, 1]);
    var s8 := ExecMore(2, ds, [0, 0, 0, 1, 1, 1, 1], 0, [0, 0, 0, 1, 1, 1, 1, 0]);
    var s9 := ExecMore(2, ds, [0, 0, 0, 1, 1, 1, 1, 0], 1, [0, 0, 0, 1, 1, 1, 1, 0, 1]);
    var s10 := ExecMore(2, ds, [0, 0, 0, 1, 1, 1, 1, 0, 1], 1, [0, 0, 0, 1, 1, 1, 1, 0, 1, 1]);
    assert s6.keys.counts == map[0 := d0.productLike] && s6.keys.categories == d0.categories;
    assert SumOf(map[0 := d0.productLike], 1) == d0.productLike;
    assert s7.calls[1] == Returned(Some(d0.productLike)) && s7.keys.categories == d0.categories;
    assert s8.calls[0] == Returned(None);
    assert s10.calls == [Returned(None), Published(d0.productLike, d0.categories)];
  }

  lemma ExecNothing(n: nat, ds: seq<Delivery>)
    ensures Exec(n, ds, []) == Init(n, ds)
  {
  }

  lemma ExecMore(n: nat, ds: seq<Delivery>, before: seq<nat>, i: nat, after: seq<nat>) returns (s: Run)
    requires IsSchedule(ds, before) && i < |ds| && after == before + [i]
    ensures IsSchedule(ds, after)
    ensures s == Exec(n, ds, after) == Next(n, ds, Exec(n, ds, before), i)
  {
    assert after[..|before|] == before;
    s := Exec(n, ds, after);
    hide Next;
  }
}
