/**
 Which shops a harvest tick dispatches: the least recently harvested ones, by the last-run
 scores of a Redis sorted set. The subject is how long a shop can wait for its turn.
 */
module HarvestRotation {
  import opened Common

  const SHOPS_PER_TICK: nat := 6

  /** The sorted set: shop code to last-run time. */
  type Scores = map<string, real>

  /** A shop that never ran ranks as time zero. */
  function ScoreOf(scores: Scores, code: string): real {
    if code in scores then scores[code] else 0.0
  }

  /** One step of a stable sort: the newcomer goes behind its equals. */
  function InsertRanked(scores: Scores, ranked: seq<string>, code: string): seq<string> {
    if ranked == [] then [code]
    else if ScoreOf(scores, ranked[|ranked| - 1]) <= ScoreOf(scores, code) then ranked + [code]
    else InsertRanked(scores, ranked[..|ranked| - 1], code) + [ranked[|ranked| - 1]]
  }

  /** sorted(zip(codes, scores), key=score) */
  function Ranked(scores: Scores, codes: seq<string>): seq<string> {
    if codes == [] then []
    else InsertRanked(scores, Ranked(scores, codes[..|codes| - 1]), codes[|codes| - 1])
  }

  /** ZADD of the picked shops at the tick's time. */
  function Stamp(scores: Scores, picked: set<string>, now: real): Scores {
    scores + (map code | code in picked :: now)
  }

  lemma StampScore(scores: Scores, picked: set<string>, now: real)
    ensures forall s :: ScoreOf(Stamp(scores, picked, now), s) == if s in picked then now else ScoreOf(scores, s)
  {
  }

  function SetOf(codes: seq<string>): set<string> {
    set code | code in codes
  }

  lemma StampNobody(scores: Scores, codes: seq<string>, now: real)
    ensures Stamp(scores, SetOf(codes[..0]), now) == scores
  {
  }

  lemma StampNext(scores: Scores, codes: seq<string>, i: nat, now: real)
    requires i < |codes|
    ensures Stamp(scores, SetOf(codes[..i + 1]), now) == Stamp(scores, SetOf(codes[..i]), now)[codes[i] := now]
  {
    assert SetOf(codes[..i + 1]) == SetOf(codes[..i]) + {codes[i]};
    hide SetOf;
  }

  predicate Distinct(codes: seq<string>) {
    forall i, j :: 0 <= i < j < |codes| ==> codes[i] != codes[j]
  }

  /** The rotation state, as one worker updates it. */
  class Rotation {
    var scores: Scores

    constructor ()
      ensures scores == map[]
    {
      scores := map[];
    }

    method PickRotationShops(codes: seq<string>, count: nat, now: real) returns (picked: seq<string>)
      modifies this
      ensures picked == Take(Ranked(old(scores), codes), count)
      ensures scores == Stamp(old(scores), SetOf(picked), now)
    {
      hide Stamp, SetOf, Ranked, Take;
      var ranked := Ranked(scores, codes);
      picked := Take(ranked, count);
      ghost var before := scores;
      StampNobody(before, picked, now);
      for i := 0 to |picked|
        invariant scores == Stamp(before, SetOf(picked[..i]), now)
      {
        StampNext(before, picked, i, now);
        scores := scores[picked[i] := now];
      }
      assert picked[..|picked|] == picked;
    }
  }

  // ----- ranking

  predicate Sorted(scores: Scores, ranked: seq<string>) {
    forall i, j :: 0 <= i < j < |ranked| ==> ScoreOf(scores, ranked[i]) <= ScoreOf(scores, ranked[j])
  }

  lemma {:induction false} InsertRankedKeeps(scores: Scores, ranked: seq<string>, code: string)
    ensures multiset(InsertRanked(scores, ranked, code)) == multiset(ranked) + multiset{code}
  {
    if ranked != [] {
      var front, last := ranked[..|ranked| - 1], ranked[|ranked| - 1];
      assert ranked == front + [last];
      InsertRankedKeeps(scores, front, code);
    }
  }

  predicate AllAtMost(scores: Scores, codes: seq<string>, bound: real) {
    forall i :: 0 <= i < |codes| ==> ScoreOf(scores, codes[i]) <= bound
  }

  lemma {:induction false} InsertRankedBound(scores: Scores, ranked: seq<string>, code: string, bound: real)
    requires AllAtMost(scores, ranked, bound) && ScoreOf(scores, code) <= bound
    ensures AllAtMost(scores, InsertRanked(scores, ranked, code), bound)
  {
    if ranked != [] {
      InsertRankedBound(scores, ranked[..|ranked| - 1], code, bound);
    }
  }

  lemma {:induction false} InsertRankedSorts(scores: Scores, ranked: seq<string>, code: string)
    requires Sorted(scores, ranked)
    ensures Sorted(scores, InsertRanked(scores, ranked, code))
  {
    if ranked != [] && ScoreOf(scores, ranked[|ranked| - 1]) > ScoreOf(scores, code) {
      var front, last := ranked[..|ranked| - 1], ranked[|ranked| - 1];
      InsertRankedSorts(scores, front, code);
      InsertRankedBound(scores, front, code, ScoreOf(scores, last));
    }
  }

  lemma {:induction false} RankedSorts(scores: Scores, codes: seq<string>)
    ensures Sorted(scores, Ranked(scores, codes))
    ensures multiset(Ranked(scores, codes)) == multiset(codes)
  {
    if codes != [] {
      var front, last := codes[..|codes| - 1], codes[|codes| - 1];
      RankedSorts(scores, front);
      InsertRankedSorts(scores, Ranked(scores, front), last);
      InsertRankedKeeps(scores, Ranked(scores, front), last);
      assert codes == front + [last];
    }
  }

  /** The picked set a tick may choose: six shops (or all), none staler left behind. Ties are free. */
  predicate IsPick(scores: Scores, shops: set<string>, picked: set<string>) {
    && picked <= shops
    && |picked| == Min(SHOPS_PER_TICK, |shops|)
    && forall p, q :: p in picked && q in shops - picked ==> ScoreOf(scores, p) <= ScoreOf(scores, q)
  }

  lemma {:induction false} DistinctSize(codes: seq<string>)
    requires Distinct(codes)
    ensures |SetOf(codes)| == |codes|
  {
    if codes != [] {
      var front, last := codes[..|codes| - 1], codes[|codes| - 1];
      DistinctSize(front);
      assert SetOf(codes) == SetOf(front) + {last};
      assert last !in SetOf(front);
    }
  }

  lemma {:induction false} MultisetDistinct(a: seq<string>, b: seq<string>)
    requires Distinct(b) && multiset(a) == multiset(b)
    ensures Distinct(a)
  {
    forall i, j | 0 <= i < j < |a| ensures a[i] != a[j] {
      if a[i] == a[j] {
        assert a == a[..j] + a[j..] && a[..j][i] == a[i] && a[j..][0] == a[j];
        assert multiset(a)[a[i]] == multiset(a[..j])[a[i]] + multiset(a[j..])[a[i]] >= 2;
        SingleOccurrence(b, a[i]);
        assert false;
      }
    }
  }

  lemma {:induction false} SingleOccurrence(b: seq<string>, x: string)
    requires Distinct(b)
    ensures multiset(b)[x] <= 1
  {
    if b != [] {
      var front, last := b[..|b| - 1], b[|b| - 1];
      assert b == front + [last];
      SingleOccurrence(front, x);
      assert last !in front;
    }
  }

  /** The code's ranking realises such a pick, whatever the order of its input. */
  lemma PickIsStalest(scores: Scores, codes: seq<string>)
    requires Distinct(codes)
    ensures IsPick(scores, SetOf(codes), SetOf(Take(Ranked(scores, codes), SHOPS_PER_TICK)))
  {
    var ranked := Ranked(scores, codes);
    var picked := Take(ranked, SHOPS_PER_TICK);
    RankedSorts(scores, codes);
    MultisetDistinct(ranked, codes);
    DistinctSize(codes);
    DistinctSize(picked);
    assert |ranked| == |multiset(ranked)| == |codes|;
    forall c ensures c in ranked <==> c in codes {
      assert c in multiset(ranked) <==> c in multiset(codes);
    }
    forall p, q | p in SetOf(picked) && q in SetOf(codes) - SetOf(picked)
      ensures ScoreOf(scores, p) <= ScoreOf(scores, q)
    {
      var i :| 0 <= i < |picked| && picked[i] == p;
      assert q in ranked;
      var j :| 0 <= j < |ranked| && ranked[j] == q;
      assert forall m :: 0 <= m < |picked| ==> picked[m] in SetOf(picked);
      assert ranked[i] == p;
    }
  }

  // ----- runs of ticks over a fixed set of shops

  datatype Tick = Tick(now: real, picked: set<string>)

  predicate IsRun(shops: set<string>, scores: Scores, ticks: seq<Tick>)
    decreases |ticks|
  {
    ticks != [] ==>
      && IsPick(scores, shops, ticks[0].picked)
      && IsRun(shops, Stamp(scores, ticks[0].picked, ticks[0].now), ticks[1..])
  }

  predicate Increasing(ticks: seq<Tick>) {
    forall i, j :: 0 <= i < j < |ticks| ==> ticks[i].now < ticks[j].now
  }

  function PickedIn(ticks: seq<Tick>): set<string> {
    set i, code | 0 <= i < |ticks| && code in ticks[i].picked :: code
  }

  function Rounds(shops: set<string>): nat {
    (|shops| + SHOPS_PER_TICK - 1) / SHOPS_PER_TICK
  }

  lemma PickedInSplit(ticks: seq<Tick>)
    requires ticks != []
    ensures PickedIn(ticks) == ticks[0].picked + PickedIn(ticks[1..])
  {
    forall code | code in PickedIn(ticks) ensures code in ticks[0].picked + PickedIn(ticks[1..]) {
      var i :| 0 <= i < |ticks| && code in ticks[i].picked;
      if i > 0 {
        assert ticks[1..][i - 1] == ticks[i];
      }
    }
    forall code | code in PickedIn(ticks[1..]) ensures code in PickedIn(ticks) {
      var i :| 0 <= i < |ticks[1..]| && code in ticks[1..][i].picked;
      assert ticks[i + 1] == ticks[1..][i];
    }
  }

  /** A waiting shop has a score older than the window; a tick takes waiting shops first. */
  lemma FreshFirst(shops: set<string>, scores: Scores, picked: set<string>, waiting: set<string>, t0: real)
    requires IsPick(scores, shops, picked)
    requires waiting <= shops
    requires forall s :: s in waiting ==> ScoreOf(scores, s) < t0
    requires forall s :: s in shops - waiting ==> t0 <= ScoreOf(scores, s)
    ensures |waiting - picked| <= Max(0, |waiting| - SHOPS_PER_TICK)
  {
    if waiting <= picked {
      assert waiting - picked == {};
    } else {
      var u :| u in waiting && u !in picked;
      forall p | p in picked ensures p in waiting {
        assert ScoreOf(scores, p) <= ScoreOf(scores, u);
      }
      if |shops| < SHOPS_PER_TICK {
        SubsetSize(picked, shops);
      }
      SubtractSize(waiting, picked);
    }
  }

  lemma SubtractSize(a: set<string>, b: set<string>)
    requires b <= a
    ensures |a - b| == |a| - |b|
  {
    assert a == (a - b) + b;
  }

  lemma {:induction false} FreshAllPicked(shops: set<string>, scores: Scores, ticks: seq<Tick>, waiting: set<string>,
                                          t0: real)
    requires IsRun(shops, scores, ticks)
    requires forall i :: 0 <= i < |ticks| ==> t0 <= ticks[i].now
    requires waiting <= shops
    requires forall s :: s in waiting ==> ScoreOf(scores, s) < t0
    requires forall s :: s in shops - waiting ==> t0 <= ScoreOf(scores, s)
    requires |waiting| <= SHOPS_PER_TICK * |ticks|
    ensures waiting <= PickedIn(ticks)
    decreases |ticks|
  {
    if ticks != [] {
      var picked, rest := ticks[0].picked, ticks[1..];
      FreshFirst(shops, scores, picked, waiting, t0);
      StampScore(scores, picked, ticks[0].now);
      FreshAllPicked(shops, Stamp(scores, picked, ticks[0].now), rest, waiting - picked, t0);
      PickedInSplit(ticks);
    }
  }

  function ScoresAfter(scores: Scores, ticks: seq<Tick>): Scores
    decreases |ticks|
  {
    if ticks == [] then scores else ScoresAfter(Stamp(scores, ticks[0].picked, ticks[0].now), ticks[1..])
  }

  /** A run continues as a run; scores stay behind any time later than the ticks so far. */
  lemma {:induction false} RunContinues(shops: set<string>, scores: Scores, before: seq<Tick>, window: seq<Tick>,
                                        bound: real)
    requires IsRun(shops, scores, before + window)
    requires forall s :: s in shops ==> ScoreOf(scores, s) < bound
    requires forall i :: 0 <= i < |before| ==> before[i].now < bound
    ensures IsRun(shops, ScoresAfter(scores, before), window)
    ensures forall s :: s in shops ==> ScoreOf(ScoresAfter(scores, before), s) < bound
    decreases |before|
  {
    if before == [] {
      assert before + window == window;
    } else {
      assert (before + window)[0] == before[0] && (before + window)[1..] == before[1..] + window;
      StampScore(scores, before[0].picked, before[0].now);
      RunContinues(shops, Stamp(scores, before[0].picked, before[0].now), before[1..], window, bound);
    }
  }

  lemma FirstWindow(shops: set<string>, scores: Scores, ticks: seq<Tick>)
    requires IsRun(shops, scores, ticks) && Increasing(ticks)
    requires |ticks| == Rounds(shops) && ticks != []
    requires forall s :: s in shops ==> ScoreOf(scores, s) < ticks[0].now
    ensures PickedIn(ticks) >= shops
  {
    assert shops - shops == {};
    FreshAllPicked(shops, scores, ticks, shops, ticks[0].now);
  }

  /**
   Bounded waiting: when no score lies ahead of the clock, every window of ceil(N/6) consecutive
   ticks picks every shop, whatever the scores and however ties break.
   */
  lemma BoundedWaiting(shops: set<string>, scores: Scores, before: seq<Tick>, window: seq<Tick>)
    requires IsRun(shops, scores, before + window) && Increasing(before + window)
    requires |window| == Rounds(shops)
    requires before + window != [] ==> forall s :: s in shops ==> ScoreOf(scores, s) < (before + window)[0].now
    ensures PickedIn(window) >= shops
  {
    if window == [] {
      EmptyWhenNoRounds(shops);
    } else {
      IncreasingParts(before, window);
      RunContinues(shops, scores, before, window, window[0].now);
      FirstWindow(shops, ScoresAfter(scores, before), window);
    }
  }

  lemma IncreasingParts(before: seq<Tick>, window: seq<Tick>)
    requires Increasing(before + window) && window != []
    ensures Increasing(window)
    ensures forall i :: 0 <= i < |before| ==> before[i].now < window[0].now
    ensures (before + window)[0].now <= window[0].now
  {
    var all := before + window;
    forall i, j | 0 <= i < j < |window| ensures window[i].now < window[j].now {
      assert all[|before| + i] == window[i] && all[|before| + j] == window[j];
    }
    assert all[|before|] == window[0];
    forall i | 0 <= i < |before| ensures before[i].now < window[0].now {
      assert all[i] == before[i];
    }
  }

  lemma EmptyWhenNoRounds(shops: set<string>)
    requires Rounds(shops) == 0
    ensures shops == {}
  {
    assert |shops| == 0;
  }

  /** Nobody with a later score gets a turn before everyone with an earlier one had it. */
  lemma {:induction false} EarlierScoresFirst(shops: set<string>, scores: Scores, ticks: seq<Tick>, h: string,
                                              earlier: set<string>)
    requires IsRun(shops, scores, ticks) && h in shops && earlier <= shops
    requires forall e :: e in earlier ==> ScoreOf(scores, e) < ScoreOf(scores, h)
    requires h in PickedIn(ticks)
    ensures earlier <= PickedIn(ticks)
    decreases |ticks|
  {
    assert ticks != [];
    var picked, rest := ticks[0].picked, ticks[1..];
    PickedInSplit(ticks);
    if h in picked {
      forall e | e in earlier ensures e in picked {
        assert ScoreOf(scores, e) < ScoreOf(scores, h);
      }
    } else {
      EarlierScoresFirst(shops, Stamp(scores, picked, ticks[0].now), rest, h, earlier - picked);
    }
  }

  lemma {:induction false} PickedInSize(shops: set<string>, scores: Scores, ticks: seq<Tick>)
    requires IsRun(shops, scores, ticks)
    ensures |PickedIn(ticks)| <= SHOPS_PER_TICK * |ticks|
    ensures PickedIn(ticks) <= shops
    decreases |ticks|
  {
    if ticks == [] {
      assert PickedIn(ticks) == {};
    } else {
      PickedInSplit(ticks);
      PickedInSize(shops, Stamp(scores, ticks[0].picked, ticks[0].now), ticks[1..]);
      var a, b := ticks[0].picked, PickedIn(ticks[1..]);
      assert |a + b| == |a| + |b| - |a * b|;
    }
  }

  /** One score ahead of the clock: if everybody is reached, everybody is reached without the first tick. */
  lemma FutureScoreWastesTick(shops: set<string>, scores: Scores, ticks: seq<Tick>, x: string)
    requires ticks != [] && IsRun(shops, scores, ticks) && PickedIn(ticks) == shops
    requires |shops| > SHOPS_PER_TICK && x in shops && ScoreOf(scores, x) > ticks[0].now
    ensures PickedIn(ticks[1..]) == shops
  {
    var first, rest := ticks[0].picked, ticks[1..];
    var stamped := Stamp(scores, first, ticks[0].now);
    StampScore(scores, first, ticks[0].now);
    PickedInSplit(ticks);
    var h := x;
    if x in first {
      assert first != shops;
      h :| h in shops && h !in first;
      assert ScoreOf(scores, x) <= ScoreOf(scores, h);
    }
    EarlierScoresFirst(shops, stamped, rest, h, first);
  }

  /** With more than six shops the remaining ticks are too few: the first window misses somebody. */
  lemma FutureScoreStarves(shops: set<string>, scores: Scores, ticks: seq<Tick>, x: string)
    requires IsRun(shops, scores, ticks) && |ticks| == Rounds(shops)
    requires |shops| > SHOPS_PER_TICK && x in shops && ScoreOf(scores, x) > ticks[0].now
    ensures PickedIn(ticks) != shops
  {
    PickedInSize(shops, Stamp(scores, ticks[0].picked, ticks[0].now), ticks[1..]);
    if PickedIn(ticks) == shops {
      FutureScoreWastesTick(shops, scores, ticks, x);
      assert false;
    }
  }

  // ----- scores equal to the first tick's time: ties can keep a shop waiting

  /** A stable ranking puts the newcomer behind everybody with at most its score. */
  lemma {:induction false} NewcomerIsBehind(scores: Scores, ranked: seq<string>, x: string, i: nat, y: string)
    returns (j: nat)
    requires x !in ranked && y in ranked && ScoreOf(scores, y) <= ScoreOf(scores, x)
    requires i < |InsertRanked(scores, ranked, x)| && InsertRanked(scores, ranked, x)[i] == x
    ensures j < i && InsertRanked(scores, ranked, x)[j] == y
  {
    var n := |ranked| - 1;
    var front, last := ranked[..n], ranked[n];
    if ScoreOf(scores, last) <= ScoreOf(scores, x) {
      j :| 0 <= j < |ranked| && ranked[j] == y;
      forall k | 0 <= k < |ranked| ensures InsertRanked(scores, ranked, x)[k] != x {
        assert ranked[k] in ranked;
      }
    } else {
      assert ranked == front + [last];
      assert last in ranked && y != last;
      assert i < |InsertRanked(scores, front, x)|;
      j := NewcomerIsBehind(scores, front, x, i, y);
    }
  }

  lemma {:induction false} SetToSeq(shops: set<string>) returns (codes: seq<string>)
    ensures Distinct(codes) && SetOf(codes) == shops
  {
    codes := [];
    if shops != {} {
      var x :| x in shops;
      var rest := SetToSeq(shops - {x});
      SetOfMembers(rest);
      codes := rest + [x];
      SetOfMembers(codes);
    }
  }

  lemma SetOfMembers(codes: seq<string>)
    ensures forall c :: c in SetOf(codes) <==> c in codes
  {
  }

  lemma SameMembers(a: seq<string>, b: seq<string>)
    requires multiset(a) == multiset(b)
    ensures forall c :: c in a <==> c in b
  {
    forall c ensures c in a <==> c in b {
      assert c in multiset(a) <==> c in multiset(b);
    }
  }

  /** Some pick prefers everybody else with the same score to x: the code's own, with x last in its input. */
  lemma PickAvoiding(scores: Scores, shops: set<string>, x: string) returns (picked: set<string>)
    requires x in shops
    ensures IsPick(scores, shops, picked)
    ensures x in picked ==> forall y :: y in shops && y != x && ScoreOf(scores, y) <= ScoreOf(scores, x) ==> y in picked
  {
    var others := SetToSeq(shops - {x});
    var codes, behind := others + [x], Ranked(scores, others);
    LastInLine(scores, shops, others, x);
    hide InsertRanked, Ranked, Sorted, IsPick, ScoreOf, Distinct;
    PickIsStalest(scores, codes);
    var ranked := InsertRanked(scores, behind, x);
    picked := SetOf(Take(ranked, SHOPS_PER_TICK));
    if x in picked {
      var i :| 0 <= i < |Take(ranked, SHOPS_PER_TICK)| && Take(ranked, SHOPS_PER_TICK)[i] == x;
      forall y | y in shops && y != x && ScoreOf(scores, y) <= ScoreOf(scores, x) ensures y in picked {
        var j := NewcomerIsBehind(scores, behind, x, i, y);
        assert Take(ranked, SHOPS_PER_TICK)[j] == y;
      }
    }
  }

  lemma LastInLine(scores: Scores, shops: set<string>, others: seq<string>, x: string)
    requires x in shops && Distinct(others) && SetOf(others) == shops - {x}
    ensures Distinct(others + [x]) && SetOf(others + [x]) == shops
    ensures Ranked(scores, others + [x]) == InsertRanked(scores, Ranked(scores, others), x)
    ensures x !in Ranked(scores, others)
    ensures forall y :: y in shops && y != x ==> y in Ranked(scores, others)
  {
    hide *;
    SetOfMembers(others);
    DistinctMore(others, x);
    RankedMore(scores, others, x);
    RankedSorts(scores, others);
    SameMembers(Ranked(scores, others), others);
  }

  lemma DistinctMore(others: seq<string>, x: string)
    requires Distinct(others) && x !in others
    ensures Distinct(others + [x]) && SetOf(others + [x]) == SetOf(others) + {x}
  {
    forall i | 0 <= i < |others| ensures others[i] != x {
    }
  }

  lemma RankedMore(scores: Scores, others: seq<string>, x: string)
    ensures Ranked(scores, others + [x]) == InsertRanked(scores, Ranked(scores, others), x)
  {
    assert (others + [x])[..|others|] == others;
    hide InsertRanked;
  }

  predicate RunFrom(shops: set<string>, scores: Scores, ticks: seq<Tick>, now: real, n: nat) {
    && IsRun(shops, scores, ticks) && Increasing(ticks)
    && |ticks| == n && (ticks != [] ==> ticks[0].now == now)
  }

  lemma TickFirst(shops: set<string>, scores: Scores, picked: set<string>, now: real, rest: seq<Tick>, n: nat)
    requires IsPick(scores, shops, picked) && RunFrom(shops, Stamp(scores, picked, now), rest, now + 1.0, n)
    ensures RunFrom(shops, scores, [Tick(now, picked)] + rest, now, n + 1)
    ensures PickedIn([Tick(now, picked)] + rest) == picked + PickedIn(rest)
  {
    var ticks := [Tick(now, picked)] + rest;
    assert ticks[1..] == rest;
    PickedInSplit(ticks);
    forall i, j | 0 <= i < j < |ticks| ensures ticks[i].now < ticks[j].now {
      if i > 0 {
        assert ticks[i] == rest[i - 1] && ticks[j] == rest[j - 1];
      } else if j > 1 {
        assert rest[0].now < rest[j - 1].now;
      }
    }
  }

  lemma {:induction false} SomeRun(shops: set<string>, scores: Scores, now: real, n: nat) returns (ticks: seq<Tick>)
    requires shops != {}
    ensures RunFrom(shops, scores, ticks, now, n)
    decreases n
  {
    ticks := [];
    if n > 0 {
      var x :| x in shops;
      var picked := PickAvoiding(scores, shops, x);
      var rest := SomeRun(shops, Stamp(scores, picked, now), now + 1.0, n - 1);
      TickFirst(shops, scores, picked, now, rest, n - 1);
      ticks := [Tick(now, picked)] + rest;
    }
  }

  /** The shops that rank in front of x when ties go against x. */
  ghost predicate InFront(shops: set<string>, scores: Scores, x: string, front: set<string>) {
    && x in shops && front <= shops - {x}
    && forall y :: y in shops && y != x ==> (y in front <==> ScoreOf(scores, y) <= ScoreOf(scores, x))
  }

  /** With six or more shops in front of x, a tick can leave x out and pick only from them. */
  lemma XIsLeftOut(shops: set<string>, scores: Scores, x: string, front: set<string>) returns (picked: set<string>)
    requires InFront(shops, scores, x, front) && |front| >= SHOPS_PER_TICK
    ensures IsPick(scores, shops, picked) && picked <= front && |picked| == SHOPS_PER_TICK
  {
    picked := PickAvoiding(scores, shops, x);
    SubsetSize(front + {x}, shops);
    if x in picked {
      SubsetSize(front + {x}, picked);
      assert false;
    }
  }

  lemma {:induction false} XKeepsWaiting(shops: set<string>, scores: Scores, x: string, front: set<string>, now: real,
                                         n: nat)
    returns (ticks: seq<Tick>)
    requires InFront(shops, scores, x, front) && ScoreOf(scores, x) < now
    requires |front| >= SHOPS_PER_TICK * n
    ensures RunFrom(shops, scores, ticks, now, n) && x !in PickedIn(ticks)
    decreases n
  {
    ticks := [];
    if n > 0 {
      var picked := XIsLeftOut(shops, scores, x, front);
      StampScore(scores, picked, now);
      SubtractSize(front, picked);
      var rest := XKeepsWaiting(shops, Stamp(scores, picked, now), x, front - picked, now + 1.0, n - 1);
      TickFirst(shops, scores, picked, now, rest, n - 1);
      ticks := [Tick(now, picked)] + rest;
    }
  }

  /** A first tick at x's own score stamps its picks with that score, so they stay in front of x. */
  lemma TieStarves(shops: set<string>, scores: Scores, x: string, now: real) returns (ticks: seq<Tick>)
    requires |shops| > SHOPS_PER_TICK && x in shops && ScoreOf(scores, x) == now
    requires forall s :: s in shops ==> ScoreOf(scores, s) <= now
    ensures RunFrom(shops, scores, ticks, now, Rounds(shops)) && x !in PickedIn(ticks)
  {
    var front := shops - {x};
    SubtractSize(shops, {x});
    var picked := XIsLeftOut(shops, scores, x, front);
    StampScore(scores, picked, now);
    var rest := XKeepsWaiting(shops, Stamp(scores, picked, now), x, front, now + 1.0, Rounds(shops) - 1);
    TickFirst(shops, scores, picked, now, rest, Rounds(shops) - 1);
    ticks := [Tick(now, picked)] + rest;
  }

  /** Whatever the ties, ceil(N/6) ticks that start at the given time pick every shop. */
  ghost predicate EveryRunReachesAll(shops: set<string>, scores: Scores, now: real) {
    forall ticks :: RunFrom(shops, scores, ticks, now, Rounds(shops)) ==> PickedIn(ticks) == shops
  }

  lemma FewOrEarlierReach(shops: set<string>, scores: Scores, now: real, ticks: seq<Tick>)
    requires RunFrom(shops, scores, ticks, now, Rounds(shops))
    requires |shops| <= SHOPS_PER_TICK || forall s :: s in shops ==> ScoreOf(scores, s) < now
    ensures PickedIn(ticks) == shops
  {
    PickedInSize(shops, scores, ticks);
    if shops == {} {
      assert PickedIn(ticks) == {};
    } else if |shops| <= SHOPS_PER_TICK {
      SubsetSize(ticks[0].picked, shops);
      PickedInSplit(ticks);
    } else {
      FirstWindow(shops, scores, ticks);
    }
  }

  lemma LateScoreStarves(shops: set<string>, scores: Scores, x: string, now: real) returns (ticks: seq<Tick>)
    requires |shops| > SHOPS_PER_TICK && x in shops && ScoreOf(scores, x) >= now
    ensures RunFrom(shops, scores, ticks, now, Rounds(shops)) && PickedIn(ticks) != shops
  {
    if y :| y in shops && ScoreOf(scores, y) > now {
      ticks := SomeRun(shops, scores, now, Rounds(shops));
      FutureScoreStarves(shops, scores, ticks, y);
    } else {
      ticks := TieStarves(shops, scores, x, now);
    }
  }

  /**
   The exact condition: every run of ceil(N/6) ticks reaches every shop iff six shops or fewer are
   eligible or every stored score lies before the first tick.
   */
  lemma WaitingBoundExactly(shops: set<string>, scores: Scores, now: real)
    ensures EveryRunReachesAll(shops, scores, now)
      <==> |shops| <= SHOPS_PER_TICK || forall s :: s in shops ==> ScoreOf(scores, s) < now
  {
    if |shops| <= SHOPS_PER_TICK || forall s :: s in shops ==> ScoreOf(scores, s) < now {
      forall ticks | RunFrom(shops, scores, ticks, now, Rounds(shops)) ensures PickedIn(ticks) == shops {
        FewOrEarlierReach(shops, scores, now, ticks);
      }
    } else {
      var x :| x in shops && ScoreOf(scores, x) >= now;
      var ticks := LateScoreStarves(shops, scores, x, now);
    }
  }

  // ----- the same in terms of what is stored

  /** What the picks do to the stored times. */
  lemma StampIs(scores: Scores, picked: set<string>, now: real, code: string)
    ensures var after := Stamp(scores, picked, now);
      && (code in after <==> code in scores || code in picked)
      && (code in picked ==> after[code] == now)
      && (code in scores && code !in picked ==> after[code] == scores[code])
  {
  }

  /** A shop's turn does not come after another's: a missing time counts as zero. */
  predicate NotAfter(scores: Scores, p: string, q: string) {
    if p in scores && q in scores then scores[p] <= scores[q]
    else if p in scores then scores[p] <= 0.0
    else if q in scores then 0.0 <= scores[q]
    else true
  }

  /**
   The picks are as many different codes as were asked for, or all there are, in the order of their stored
   times, and nobody who is left behind should have come before them.
   */
  lemma PickedByStoredTimes(scores: Scores, codes: seq<string>, count: nat)
    requires Distinct(codes)
    ensures var picked := Take(Ranked(scores, codes), count);
      && |picked| == (if count < |codes| then count else |codes|)
      && Distinct(picked) && (forall p :: p in picked ==> p in codes)
      && (forall i, j :: 0 <= i < j < |picked| ==> NotAfter(scores, picked[i], picked[j]))
      && (forall p, q :: p in picked && q in codes && q !in picked ==> NotAfter(scores, p, q))
  {
    var ranked := Ranked(scores, codes);
    var picked := Take(ranked, count);
    RankedSorts(scores, codes);
    MultisetDistinct(ranked, codes);
    assert |ranked| == |multiset(ranked)| == |codes|;
    forall c ensures c in ranked <==> c in codes {
      assert c in multiset(ranked) <==> c in multiset(codes);
    }
    FrontComesFirst(scores, ranked, count);
    hide Ranked, NotAfter, Sorted;
  }

  lemma TimesCompare(scores: Scores, p: string, q: string)
    ensures NotAfter(scores, p, q) <==> ScoreOf(scores, p) <= ScoreOf(scores, q)
  {
  }

  lemma FrontComesFirst(scores: Scores, ranked: seq<string>, n: nat)
    requires Sorted(scores, ranked)
    ensures var front := Take(ranked, n);
      && (forall i, j :: 0 <= i < j < |front| ==> NotAfter(scores, front[i], front[j]))
      && (forall p, q :: p in front && q in ranked && q !in front ==> NotAfter(scores, p, q))
  {
    var front := Take(ranked, n);
    forall p, q ensures NotAfter(scores, p, q) <==> ScoreOf(scores, p) <= ScoreOf(scores, q) {
      TimesCompare(scores, p, q);
    }
    hide ScoreOf, NotAfter;
    forall p, q | p in front && q in ranked && q !in front ensures NotAfter(scores, p, q) {
      var i :| 0 <= i < |front| && front[i] == p;
      var j :| 0 <= j < |ranked| && ranked[j] == q;
      assert ranked[i] == p;
      NotInFront(ranked, n, j);
    }
  }

  lemma NotInFront(ranked: seq<string>, n: nat, j: nat)
    requires j < |ranked| && ranked[j] !in Take(ranked, n)
    ensures |Take(ranked, n)| <= j
  {
    var front := Take(ranked, n);
    forall i | 0 <= i < |front| ensures ranked[i] in front {
      assert front[i] == ranked[i];
    }
  }

  /** A shop without a stored time goes first: when a shop with one is picked, every shop without one is. */
  lemma NeverRunGoesFirst(scores: Scores, codes: seq<string>, count: nat, p: string, q: string)
    requires Distinct(codes) && q in codes && q !in scores
    requires p in Take(Ranked(scores, codes), count) && p in scores && scores[p] > 0.0
    ensures q in Take(Ranked(scores, codes), count)
  {
    PickedByStoredTimes(scores, codes, count);
    hide Ranked, Take, Distinct;
  }

  /** From an empty store and a running clock, the first ceil(N/6) ticks pick every shop, however ties break. */
  lemma EverybodyRunsAtFirst(shops: set<string>, ticks: seq<Tick>, now: real)
    requires now > 0.0 && RunFrom(shops, map[], ticks, now, (|shops| + 5) / 6)
    ensures PickedIn(ticks) == shops
  {
    WaitingBoundExactly(shops, map[], now);
    hide PickedIn, RunFrom;
  }
}
