/**
 Fan-out runs in which a worker may die: a call can stop for good after any of its commands. A schedule
 that never names a call again is such a stop, so the statements here are about all schedules.
 */
module ShardStops {
  import opened Common
  import opened ShardFanout

  /** The counter was exhausted when the call decremented it, but the call has not read the counts. */
  predicate AboutToRead(p: Phase) {
    p.Decremented? && p.remaining <= 0
  }

  lemma {:induction false} FinishersSplit(calls: seq<Phase>)
    ensures Count(calls, IsFinisher) == Count(calls, HasTotal) + Count(calls, AboutToRead)
  {
    if calls != [] {
      FinishersSplit(calls[1..]);
    }
  }

  lemma {:induction false} HasTotalDecremented(calls: seq<Phase>)
    ensures Count(calls, HasTotal) <= Count(calls, HasDecremented)
  {
    if calls != [] {
      HasTotalDecremented(calls[1..]);
    }
  }

  /**
   For any deliveries, interleaving and stops: every decrement from the n-th on returns a total, except
   by a call that stopped between its decrement and its read.
   */
  lemma TotalsWithStops(n: nat, ds: seq<Delivery>, schedule: seq<nat>)
    requires n >= 1 && IsSchedule(ds, schedule)
    ensures var s := Exec(n, ds, schedule);
      && |s.seen| == Count(s.calls, HasTotal)
      && |s.seen| + Count(s.calls, AboutToRead) == Finishers(n, Count(s.calls, HasDecremented))
  {
    CounterAlways(n, ds, schedule);
    ReadsAlways(n, ds, schedule);
    FinishersSplit(Exec(n, ds, schedule).calls);
    hide Count;
  }

  // ----- shards that decrement once

  /** No two calls of one shard have decremented; calls that stopped before may repeat any shard. */
  predicate DecrementOnce(ds: seq<Delivery>, calls: seq<Phase>)
    requires |calls| == |ds|
  {
    forall i, j :: 0 <= i < j < |ds| && HasDecremented(calls[i]) && HasDecremented(calls[j]) ==>
      ds[i].shard != ds[j].shard
  }

  predicate OfRun(n: nat, ds: seq<Delivery>) {
    forall i :: 0 <= i < |ds| ==> ds[i].shard < n
  }

  ghost predicate EveryReadFull(n: nat, s: Run) {
    forall r, k :: 0 <= r < |s.seen| && 0 <= k < n ==> k in s.seen[r]
  }

  function Decremented(ds: seq<Delivery>, calls: seq<Phase>): (done: seq<Delivery>)
    requires |calls| == |ds|
    ensures |done| == Count(calls, HasDecremented)
  {
    if ds == [] then []
    else (if HasDecremented(calls[0]) then [ds[0]] else []) + Decremented(ds[1..], calls[1..])
  }

  lemma {:induction false} DecrementedFrom(ds: seq<Delivery>, calls: seq<Phase>, k: nat) returns (i: nat)
    requires |calls| == |ds| && k < |Decremented(ds, calls)|
    ensures i < |ds| && HasDecremented(calls[i]) && ds[i] == Decremented(ds, calls)[k]
  {
    if HasDecremented(calls[0]) && k == 0 {
      i := 0;
    } else {
      var j := DecrementedFrom(ds[1..], calls[1..], if HasDecremented(calls[0]) then k - 1 else k);
      i := j + 1;
    }
  }

  predicate DistinctShards(ds: seq<Delivery>) {
    forall a, b :: 0 <= a < b < |ds| ==> ds[a].shard != ds[b].shard
  }

  lemma {:induction false} DecrementedDistinct(ds: seq<Delivery>, calls: seq<Phase>)
    requires |calls| == |ds| && DecrementOnce(ds, calls)
    ensures DistinctShards(Decremented(ds, calls))
  {
    hide HasDecremented, DistinctShards, Count;
    if ds == [] {
      NothingDistinct();
    } else {
      var rest := Decremented(ds[1..], calls[1..]);
      DecrementedDistinct(ds[1..], calls[1..]);
      if HasDecremented(calls[0]) {
        forall b | 0 <= b < |rest| ensures ds[0].shard != rest[b].shard {
          var j := DecrementedFrom(ds[1..], calls[1..], b);
          assert calls[1..][j] == calls[j + 1] && ds[1..][j] == ds[j + 1];
        }
        InFrontDistinct(ds[0], rest);
      } else {
        assert Decremented(ds, calls) == rest;
      }
    }
  }

  lemma NothingDistinct()
    ensures DistinctShards([])
  {
  }

  lemma InFrontDistinct(d: Delivery, rest: seq<Delivery>)
    requires DistinctShards(rest) && forall b :: 0 <= b < |rest| ==> d.shard != rest[b].shard
    ensures DistinctShards([d] + rest)
  {
  }

  predicate ShardDone(ds: seq<Delivery>, calls: seq<Phase>, k: nat)
    requires |calls| == |ds|
  {
    exists i :: 0 <= i < |ds| && HasDecremented(calls[i]) && ds[i].shard == k
  }

  /** Then at most n calls decrement, and n of them are one for each shard. */
  lemma DecrementsCover(n: nat, ds: seq<Delivery>, calls: seq<Phase>)
    requires |calls| == |ds| && DecrementOnce(ds, calls) && OfRun(n, ds)
    ensures Count(calls, HasDecremented) <= n
    ensures Count(calls, HasDecremented) == n ==>
      forall k :: 0 <= k < n ==> ShardDone(ds, calls, k)
  {
    hide Count, HasDecremented, DecrementOnce, Decremented;
    var done := Decremented(ds, calls);
    DecrementedDistinct(ds, calls);
    ShardsInSize(done);
    forall k | k in ShardsIn(done) ensures k in Below(n) && ShardDone(ds, calls, k) {
      var a :| 0 <= a < |done| && done[a].shard == k;
      var i := DecrementedFrom(ds, calls, a);
    }
    SubsetSize(ShardsIn(done), Below(n));
  }

  ghost predicate RecordedIsIn(ds: seq<Delivery>, s: Run) {
    |s.calls| == |ds| && forall i :: 0 <= i < |ds| && HasRecorded(s.calls[i]) ==> ds[i].shard in s.keys.counts
  }

  lemma RecordedStep(n: nat, ds: seq<Delivery>, s: Run, i: nat)
    requires i < |ds| && RecordedIsIn(ds, s)
    ensures RecordedIsIn(ds, Next(n, ds, s, i))
  {
    StepRecords(n, ds, s, i);
  }

  lemma {:induction false} RecordedAlways(n: nat, ds: seq<Delivery>, schedule: seq<nat>)
    requires IsSchedule(ds, schedule)
    ensures RecordedIsIn(ds, Exec(n, ds, schedule))
  {
    if schedule != [] {
      var before := schedule[..|schedule| - 1];
      RecordedAlways(n, ds, before);
      RecordedStep(n, ds, Exec(n, ds, before), schedule[|schedule| - 1]);
    }
  }

  lemma StaysDecremented(n: nat, ds: seq<Delivery>, s: Run, i: nat)
    requires i < |ds| == |s.calls| && DecrementOnce(ds, Next(n, ds, s, i).calls)
    ensures DecrementOnce(ds, s.calls)
  {
    var s' := Next(n, ds, s, i);
    forall k | 0 <= k < |ds| && HasDecremented(s.calls[k]) ensures HasDecremented(s'.calls[k]) {
      assert k != i ==> s'.calls[k] == s.calls[k];
    }
    hide Next, HasDecremented;
  }

  /** A call that finds the counter exhausted finds every shard recorded. */
  lemma ReaderFindsAll(n: nat, ds: seq<Delivery>, s: Run, i: nat)
    requires i < |ds| && CounterInv(n, ds, s) && RecordedIsIn(ds, s) && OfRun(n, ds) && DecrementOnce(ds, s.calls)
    requires AboutToRead(s.calls[i])
    ensures forall k :: 0 <= k < n ==> k in s.keys.counts
  {
    hide DecrementOnce, OfRun, Count;
    CountedOne(s.calls, IsFinisher, i);
    DecrementsCover(n, ds, s.calls);
    forall k | 0 <= k < n ensures k in s.keys.counts {
      assert ShardDone(ds, s.calls, k);
      var j :| 0 <= j < |ds| && HasDecremented(s.calls[j]) && ds[j].shard == k;
      assert HasRecorded(s.calls[j]);
    }
  }

  lemma {:induction false} CountedOne(calls: seq<Phase>, p: Phase -> bool, i: nat)
    requires i < |calls| && p(calls[i])
    ensures Count(calls, p) > 0
  {
    if i > 0 {
      CountedOne(calls[1..], p, i - 1);
    }
  }

  lemma ReadStep(n: nat, ds: seq<Delivery>, s: Run, i: nat)
    requires i < |ds| == |s.calls| && EveryReadFull(n, s)
    requires AboutToRead(s.calls[i]) ==> forall k :: 0 <= k < n ==> k in s.keys.counts
    ensures EveryReadFull(n, Next(n, ds, s, i))
  {
    hide SumOf;
  }

  lemma {:induction false} ReadsFull(n: nat, ds: seq<Delivery>, schedule: seq<nat>)
    requires n >= 1 && IsSchedule(ds, schedule) && OfRun(n, ds)
    requires DecrementOnce(ds, Exec(n, ds, schedule).calls)
    ensures EveryReadFull(n, Exec(n, ds, schedule))
  {
    hide DecrementOnce, OfRun, CounterInv, Next, RecordedIsIn;
    if schedule == [] {
      assert Exec(n, ds, schedule).seen == [];
    } else {
      var before, i := schedule[..|schedule| - 1], schedule[|schedule| - 1];
      var s := Exec(n, ds, before);
      StaysDecremented(n, ds, s, i);
      ReadsFull(n, ds, before);
      CounterAlways(n, ds, before);
      RecordedAlways(n, ds, before);
      if AboutToRead(s.calls[i]) {
        ReaderFindsAll(n, ds, s, i);
      }
      ReadStep(n, ds, s, i);
    }
  }

  /**
   Redeliveries do no harm as long as only one call of each shard gets as far as the decrement, wherever the
   others stopped: at most one total is returned, with every shard recorded, and one is returned iff all
   shards decremented and the last one went on to read.
   */
  lemma RedeliveryAfterDeath(n: nat, ds: seq<Delivery>, schedule: seq<nat>)
    requires n >= 1 && IsSchedule(ds, schedule) && OfRun(n, ds)
    requires DecrementOnce(ds, Exec(n, ds, schedule).calls)
    ensures var s := Exec(n, ds, schedule);
      && |s.seen| <= 1 && EveryReadFull(n, s)
      && (OneFullTotal(n, s) <==> Count(s.calls, HasDecremented) == n && Count(s.calls, AboutToRead) == 0)
  {
    hide DecrementOnce, Count, Exec;
    TotalsWithStops(n, ds, schedule);
    ReadsFull(n, ds, schedule);
    DecrementsCover(n, ds, Exec(n, ds, schedule).calls);
  }

  // ----- the exact condition over all schedules

  /** However the calls interleave and wherever they stop, no second total and no partial one is returned. */
  ghost predicate NeverWrong(n: nat, ds: seq<Delivery>) {
    forall schedule :: IsSchedule(ds, schedule) ==>
      |Exec(n, ds, schedule).seen| <= 1 && EveryReadFull(n, Exec(n, ds, schedule))
  }

  function CommandsLeft(p: Phase): nat {
    match p
    case Received => 6
    case Stashed => 5
    case Recorded => 4
    case Decremented(_) => 3
    case Returned(None) => 0
    case Returned(Some(_)) => 2
    case Popped(_, _) => 1
    case Published(_, _) => 0
  }

  lemma NextAdvances(n: nat, ds: seq<Delivery>, s: Run, i: nat)
    requires i < |ds| == |s.calls|
    ensures Finished(s.calls[i]) <==> CommandsLeft(s.calls[i]) == 0
    ensures !Finished(s.calls[i]) ==> CommandsLeft(Next(n, ds, s, i).calls[i]) < CommandsLeft(s.calls[i])
    ensures forall k :: 0 <= k < |ds| && k != i ==> Next(n, ds, s, i).calls[k] == s.calls[k]
  {
  }

  lemma {:induction false} RunCallOut(n: nat, ds: seq<Delivery>, schedule: seq<nat>, i: nat) returns (longer: seq<nat>)
    requires IsSchedule(ds, schedule) && i < |ds|
    ensures IsSchedule(ds, longer) && Finished(Exec(n, ds, longer).calls[i])
    ensures forall k :: 0 <= k < |ds| && k != i ==> Exec(n, ds, longer).calls[k] == Exec(n, ds, schedule).calls[k]
    decreases CommandsLeft(Exec(n, ds, schedule).calls[i])
  {
    hide Exec, CommandsLeft, Finished;
    longer := schedule;
    NextAdvances(n, ds, Exec(n, ds, schedule), i);
    if !Finished(Exec(n, ds, schedule).calls[i]) {
      var _ := ExecMore(n, ds, schedule, i, schedule + [i]);
      longer := RunCallOut(n, ds, schedule + [i], i);
    }
  }

  /** Every call can be run to its end. */
  lemma {:induction false} RunOut(n: nat, ds: seq<Delivery>, m: nat) returns (schedule: seq<nat>)
    requires m <= |ds|
    ensures IsSchedule(ds, schedule)
    ensures forall i :: 0 <= i < m ==> Finished(Exec(n, ds, schedule).calls[i])
  {
    hide Exec, Finished;
    schedule := [];
    if m > 0 {
      var before := RunOut(n, ds, m - 1);
      schedule := RunCallOut(n, ds, before, m - 1);
    }
  }

  lemma TooFewReadNothing(n: nat, ds: seq<Delivery>, schedule: seq<nat>)
    requires n >= 1 && |ds| < n && IsSchedule(ds, schedule)
    ensures Exec(n, ds, schedule).seen == []
  {
    hide Exec, Count;
    TotalsWithStops(n, ds, schedule);
  }

  /**
   The exact condition: over every interleaving and every stop no second and no partial total is returned
   iff there are too few deliveries for any total, or each shard is delivered exactly once.
   */
  lemma NeverWrongExactly(n: nat, ds: seq<Delivery>)
    requires n >= 1
    ensures NeverWrong(n, ds) <==> |ds| < n || DeliveredOnce(n, ds)
  {
    hide Exec, Count, EveryReadFull, DecrementOnce;
    if |ds| < n || DeliveredOnce(n, ds) {
      forall schedule | IsSchedule(ds, schedule)
        ensures |Exec(n, ds, schedule).seen| <= 1 && EveryReadFull(n, Exec(n, ds, schedule))
      {
        if |ds| < n {
          TooFewReadNothing(n, ds, schedule);
          NothingReadIsFull(n, Exec(n, ds, schedule));
        } else {
          OnceDecrementsOnce(n, ds, Exec(n, ds, schedule).calls);
          RedeliveryAfterDeath(n, ds, schedule);
        }
      }
    } else if NeverWrong(n, ds) {
      var schedule := RunOut(n, ds, |ds|);
      WrongWhenRunOut(n, ds, schedule);
    }
  }

  lemma NothingReadIsFull(n: nat, s: Run)
    requires s.seen == []
    ensures EveryReadFull(n, s)
  {
  }

  lemma OnceDecrementsOnce(n: nat, ds: seq<Delivery>, calls: seq<Phase>)
    requires DeliveredOnce(n, ds) && |calls| == n
    ensures DecrementOnce(ds, calls) && OfRun(n, ds)
  {
  }

  lemma WrongWhenRunOut(n: nat, ds: seq<Delivery>, schedule: seq<nat>)
    requires n >= 1 && |ds| >= n && !DeliveredOnce(n, ds) && IsSchedule(ds, schedule)
    requires Complete(Exec(n, ds, schedule))
    ensures !(|Exec(n, ds, schedule).seen| <= 1 && EveryReadFull(n, Exec(n, ds, schedule)))
  {
    hide Exec, DeliveredOnce, Count;
    TotalsReturned(n, ds, schedule);
    OneTotalPerRead(n, ds, schedule);
    CountSame(Exec(n, ds, schedule).calls, IsFinisher, HasTotal);
    FinishesExactly(n, ds, schedule);
  }
}
