/**
 Cutting one harvest run into several. The visited set dies with each run, so a cut is invisible
 exactly when no category's chain of next links comes back to an earlier page.
 */
module HarvestSplit {
  import opened Common
  import opened HarvestWalk

  /** A shop that answers every fetch of a URL alike. */
  type Shop = Url -> Fetched

  ghost predicate Answers(shop: Shop) {
    forall u :: !shop(u).Skipped?
  }

  function Always(shop: Shop): Site {
    (k, u) => shop(u)
  }

  /** The daily budget is spent after the given number of fetches. */
  function Within(shop: Shop, budget: nat): Site {
    (k, u) => if k < budget then shop(u) else Skipped
  }

  /** The link a run would follow from u if it had seen nothing else; a self-link is none. */
  function LinkFrom(shop: Shop, u: Url): Option<Url> {
    match shop(u)
    case Offers(count, Some(next)) => if count > 0 && next != "" && next != u then Some(next) else None
    case _ => None
  }

  /** The n-th page of the category that opens at u. */
  function Chain(shop: Shop, u: Url, n: nat): Option<Url> {
    if n == 0 then Some(u)
    else
      var before := Chain(shop, u, n - 1);
      if before.Some? then LinkFrom(shop, before.value) else None
  }

  predicate StraightUpTo(shop: Shop, u: Url, m: nat) {
    forall i, j :: 0 <= i < j < m && Chain(shop, u, j).Some? ==> Chain(shop, u, i) != Chain(shop, u, j)
  }

  /** The category's pages, as far as the page cap reads them, are all different. */
  predicate Straight(shop: Shop, u: Url) {
    StraightUpTo(shop, u, MAX_PAGES_PER_CATEGORY)
  }

  /** Positions a walk over this shop can store: the current URL is the page-th of its category. */
  predicate OnTrack(cats: seq<Url>, shop: Shop, p: Position) {
    && ValidPosition(p)
    && (p.catIdx < |cats| ==> Chain(shop, cats[p.catIdx], p.page) == Some(CurrentUrl(cats, p)))
  }

  // ----- the walk without a memory of visited pages

  function FreeNext(cats: seq<Url>, shop: Shop, p: Position): Position
    requires p.catIdx < |cats|
  {
    var link := LinkFrom(shop, CurrentUrl(cats, p));
    if link.Some? && p.page + 1 < MAX_PAGES_PER_CATEGORY then FollowLink(p, link.value) else AdvanceCategory(p)
  }

  function FreeEnd(cats: seq<Url>, shop: Shop, p: Position, n: nat): Position
    requires cats != []
    decreases n
  {
    if n == 0 then p else FreeEnd(cats, shop, FreeNext(cats, shop, Wrap(cats, p)), n - 1)
  }

  function FreeTrace(cats: seq<Url>, shop: Shop, p: Position, n: nat): seq<Visit>
    requires cats != []
    decreases n
  {
    if n == 0 then []
    else
      var here := Wrap(cats, p);
      [VisitAt(cats, here)] + FreeTrace(cats, shop, FreeNext(cats, shop, here), n - 1)
  }

  lemma {:induction false} FreeSplits(cats: seq<Url>, shop: Shop, p: Position, a: nat, b: nat)
    requires cats != []
    ensures FreeEnd(cats, shop, p, a + b) == FreeEnd(cats, shop, FreeEnd(cats, shop, p, a), b)
    ensures FreeTrace(cats, shop, p, a + b)
         == FreeTrace(cats, shop, p, a) + FreeTrace(cats, shop, FreeEnd(cats, shop, p, a), b)
    decreases a
  {
    if a > 0 {
      FreeSplits(cats, shop, FreeNext(cats, shop, Wrap(cats, p)), a - 1, b);
    }
  }

  lemma TrackWrap(cats: seq<Url>, shop: Shop, p: Position)
    requires cats != [] && OnTrack(cats, shop, p)
    ensures OnTrack(cats, shop, Wrap(cats, p)) && Wrap(cats, p).catIdx < |cats|
  {
  }

  lemma TrackNext(cats: seq<Url>, shop: Shop, p: Position)
    requires p.catIdx < |cats| && OnTrack(cats, shop, p)
    ensures OnTrack(cats, shop, FreeNext(cats, shop, p))
  {
  }

  lemma {:induction false} TrackEnd(cats: seq<Url>, shop: Shop, p: Position, n: nat)
    requires cats != [] && OnTrack(cats, shop, p)
    ensures OnTrack(cats, shop, FreeEnd(cats, shop, p, n))
    decreases n
  {
    if n > 0 {
      TrackWrap(cats, shop, p);
      TrackNext(cats, shop, Wrap(cats, p));
      TrackEnd(cats, shop, FreeNext(cats, shop, Wrap(cats, p)), n - 1);
    }
  }

  ghost predicate AllStraight(cats: seq<Url>, shop: Shop) {
    forall c :: c in cats ==> Straight(shop, c)
  }

  /** Everything visited since the category was opened is an earlier page of it. */
  ghost predicate Behind(cats: seq<Url>, shop: Shop, w: Walk) {
    w.at.catIdx < |cats| ==>
      forall u :: u in w.visited ==>
        exists i :: 0 <= i < w.at.page && Chain(shop, cats[w.at.catIdx], i) == Some(u)
  }

  /** On straight chains the visited set never decides anything. */
  lemma FreeStep(cats: seq<Url>, shop: Shop, w: Walk)
    requires cats != [] && Answers(shop) && AllStraight(cats, shop)
    requires w.at.catIdx < |cats| && OnTrack(cats, shop, w.at) && Behind(cats, shop, w)
    ensures var w' := After(cats, w, shop(CurrentUrl(cats, w.at)));
      w'.at == FreeNext(cats, shop, w.at) && Behind(cats, shop, w')
  {
    var p := w.at;
    var c, url := cats[p.catIdx], CurrentUrl(cats, p);
    var w' := After(cats, w, shop(url));
    assert Straight(shop, c);
    assert Chain(shop, c, p.page + 1) == LinkFrom(shop, url);
    if LinkFrom(shop, url).Some? && p.page + 1 < MAX_PAGES_PER_CATEGORY {
      var next := LinkFrom(shop, url).value;
      forall i | 0 <= i < p.page ensures Chain(shop, c, i) != Some(next) {
        assert Chain(shop, c, i) != Chain(shop, c, p.page + 1);
      }
      assert next !in w.visited;
      forall u | u in w'.visited
        ensures exists i :: 0 <= i < p.page + 1 && Chain(shop, c, i) == Some(u)
      {
        if u == url {
          assert Chain(shop, c, p.page) == Some(u);
        }
      }
    }
  }

  lemma RunOne(cats: seq<Url>, shop: Shop, limit: nat, w: Walk)
    requires cats != [] && Answers(shop) && |w.trace| < limit
    ensures var here := WrapWalk(cats, w);
      RunFrom(cats, Always(shop), limit, w)
      == RunFrom(cats, Always(shop), limit, After(cats, here, shop(CurrentUrl(cats, here.at))))
  {
  }

  lemma Reassociate(a: seq<Visit>, v: Visit, b: seq<Visit>)
    ensures a + [v] + b == a + ([v] + b)
  {
  }

  lemma {:induction false} StraightRun(cats: seq<Url>, shop: Shop, limit: nat, w: Walk, n: nat)
    requires cats != [] && Answers(shop) && AllStraight(cats, shop)
    requires OnTrack(cats, shop, w.at) && Behind(cats, shop, w)
    requires |w.trace| + n == limit
    ensures RunFrom(cats, Always(shop), limit, w).at == FreeEnd(cats, shop, w.at, n)
    ensures RunFrom(cats, Always(shop), limit, w).trace == w.trace + FreeTrace(cats, shop, w.at, n)
    decreases n
  {
    if n > 0 {
      var here := WrapWalk(cats, w);
      var next := After(cats, here, shop(CurrentUrl(cats, here.at)));
      RunOne(cats, shop, limit, w);
      TrackWrap(cats, shop, w.at);
      FreeStep(cats, shop, here);
      TrackNext(cats, shop, here.at);
      assert next.trace == w.trace + [VisitAt(cats, here.at)];
      assert FreeEnd(cats, shop, w.at, n) == FreeEnd(cats, shop, next.at, n - 1);
      assert FreeTrace(cats, shop, w.at, n) == [VisitAt(cats, here.at)] + FreeTrace(cats, shop, next.at, n - 1);
      hide *;
      StraightRun(cats, shop, limit, next, n - 1);
      Reassociate(w.trace, VisitAt(cats, here.at), FreeTrace(cats, shop, next.at, n - 1));
    }
  }

  lemma StraightFromStart(cats: seq<Url>, shop: Shop, n: nat, p: Position)
    requires cats != [] && Answers(shop) && AllStraight(cats, shop) && OnTrack(cats, shop, p)
    ensures Run(cats, Always(shop), n, p).at == FreeEnd(cats, shop, p, n)
    ensures Run(cats, Always(shop), n, p).trace == FreeTrace(cats, shop, p, n)
  {
    StraightRun(cats, shop, n, Start(p), n);
    assert [] + FreeTrace(cats, shop, p, n) == FreeTrace(cats, shop, p, n);
  }

  /** A run of a fetches and, from the stored cursor, one of b, against one run of a + b. */
  ghost predicate SplitAgrees(cats: seq<Url>, shop: Shop, p: Position, a: nat, b: nat)
    requires cats != []
  {
    var first := Run(cats, Always(shop), a, p);
    var second := Run(cats, Always(shop), b, first.at);
    var whole := Run(cats, Always(shop), a + b, p);
    whole.at == second.at && whole.trace == first.trace + second.trace
  }

  lemma StraightSplits(cats: seq<Url>, shop: Shop, p: Position, a: nat, b: nat)
    requires cats != [] && Answers(shop) && AllStraight(cats, shop) && OnTrack(cats, shop, p)
    ensures SplitAgrees(cats, shop, p, a, b)
  {
    StraightFromStart(cats, shop, a, p);
    StraightFromStart(cats, shop, a + b, p);
    TrackEnd(cats, shop, p, a);
    StraightFromStart(cats, shop, b, FreeEnd(cats, shop, p, a));
    FreeSplits(cats, shop, p, a, b);
  }

  // ----- a run stopped by the budget

  /** A budget stop leaves the run where a limit would have, but for a pass already wrapped. */
  lemma {:induction false} BudgetRun(cats: seq<Url>, shop: Shop, budget: nat, limit: nat, w: Walk)
    requires cats != [] && Answers(shop) && |w.trace| <= budget < limit
    ensures RunFrom(cats, Within(shop, budget), limit, w)
         == WrapWalk(cats, RunFrom(cats, Always(shop), budget, w))
    decreases budget - |w.trace|
  {
    if |w.trace| < budget {
      var here := WrapWalk(cats, w);
      BudgetRun(cats, shop, budget, limit, After(cats, here, shop(CurrentUrl(cats, here.at))));
    }
  }

  /**
   A run stopped by the budget and resumed later through the stored cursor fetches what one
   uninterrupted run would have fetched and ends at the same position.
   */
  lemma BudgetStopIsInvisible(cats: seq<Url>, shop: Shop, p: Position, budget: nat, limit: nat, more: nat,
                              ema: real, round2: real -> real)
    requires cats != [] && Answers(shop) && AllStraight(cats, shop) && OnTrack(cats, shop, p)
    requires budget < limit && more >= 1
    ensures var stopped := Run(cats, Within(shop, budget), limit, p);
      var resumed := Run(cats, Always(shop), more,
                         LoadCursor(Some(SaveCursor(Cursor(stopped.at, ema), round2))).at);
      var whole := Run(cats, Always(shop), budget + more, p);
      resumed.at == whole.at && stopped.trace + resumed.trace == whole.trace
  {
    BudgetRun(cats, shop, budget, limit, Start(p));
    StraightFromStart(cats, shop, budget, p);
    var q := FreeEnd(cats, shop, p, budget);
    TrackEnd(cats, shop, p, budget);
    TrackWrap(cats, shop, q);
    LoadUndoesSave(Cursor(Wrap(cats, q), ema), round2);
    StraightFromStart(cats, shop, more, Wrap(cats, q));
    StraightFromStart(cats, shop, budget + more, p);
    FreeSplits(cats, shop, p, budget, more);
    assert Wrap(cats, Wrap(cats, q)) == Wrap(cats, q);
  }

  // ----- and otherwise a cut shows

  lemma {:induction false} RunResumes(cats: seq<Url>, shop: Shop, a: nat, b: nat, w: Walk)
    requires cats != [] && Answers(shop) && |w.trace| <= a <= b
    ensures |RunFrom(cats, Always(shop), a, w).trace| == a
    ensures RunFrom(cats, Always(shop), b, w)
         == RunFrom(cats, Always(shop), b, RunFrom(cats, Always(shop), a, w))
    decreases a - |w.trace|
  {
    if |w.trace| < a {
      var here := WrapWalk(cats, w);
      RunResumes(cats, shop, a, b, After(cats, here, shop(CurrentUrl(cats, here.at))));
    }
  }

  lemma {:induction false} ChainPrefix(shop: Shop, u: Url, i: nat, j: nat)
    requires i <= j && Chain(shop, u, j).Some?
    ensures Chain(shop, u, i).Some?
    decreases j
  {
    if i < j {
      ChainPrefix(shop, u, i, j - 1);
    }
  }

  function PageAt(shop: Shop, cats: seq<Url>, c: nat, k: nat): Position
    requires c < |cats|
  {
    Position(c, if k == 0 then None else Chain(shop, cats[c], k), k, 0)
  }

  /** The run stands on page k of category c and has seen exactly the pages from..k since it started. */
  ghost predicate StandsAt(cats: seq<Url>, shop: Shop, w: Walk, c: nat, from: nat, k: nat)
    requires c < |cats|
  {
    && w.at == PageAt(shop, cats, c, k)
    && (forall u :: u in w.visited <==> exists i :: from <= i < k && Chain(shop, cats[c], i) == Some(u))
  }

  lemma StandNext(cats: seq<Url>, shop: Shop, w: Walk, c: nat, from: nat, k: nat, m: nat)
    requires c < |cats| && StandsAt(cats, shop, w, c, from, k) && from <= k && Answers(shop)
    requires k + 1 < m <= MAX_PAGES_PER_CATEGORY && StraightUpTo(shop, cats[c], m)
    requires Chain(shop, cats[c], k + 1).Some?
    ensures StandsAt(cats, shop, After(cats, w, shop(CurrentUrl(cats, w.at))), c, from, k + 1)
  {
    var u0, url := cats[c], CurrentUrl(cats, w.at);
    ChainPrefix(shop, u0, k, k + 1);
    ChainNotEmpty(shop, u0, k);
    assert Chain(shop, u0, k) == Some(url);
    var next := Chain(shop, u0, k + 1).value;
    assert LinkFrom(shop, url) == Some(next);
    assert next !in w.visited && next != url;
    hide Chain, StraightUpTo;
    var w' := After(cats, w, shop(url));
    assert w'.visited == w.visited + {url} && w'.at == PageAt(shop, cats, c, k + 1);
    forall u | u in w'.visited
      ensures exists i :: from <= i < k + 1 && Chain(shop, u0, i) == Some(u)
    {
      if u == url {
        assert from <= k < k + 1 && Chain(shop, u0, k) == Some(u);
      }
    }
  }

  /** While pages stay new, the run goes from page k to page k + 1. */
  lemma StandStep(cats: seq<Url>, shop: Shop, limit: nat, w: Walk, c: nat, from: nat, k: nat, m: nat)
    requires c < |cats| && StandsAt(cats, shop, w, c, from, k) && from <= k && Answers(shop)
    requires k + 1 < m <= MAX_PAGES_PER_CATEGORY && StraightUpTo(shop, cats[c], m)
    requires Chain(shop, cats[c], k + 1).Some? && |w.trace| < limit
    ensures var next := After(cats, w, shop(CurrentUrl(cats, w.at)));
      && StandsAt(cats, shop, next, c, from, k + 1)
      && |next.trace| == |w.trace| + 1
      && RunFrom(cats, Always(shop), limit, w) == RunFrom(cats, Always(shop), limit, next)
  {
    RunOne(cats, shop, limit, w);
    assert WrapWalk(cats, w) == w;
    hide RunFrom, Chain, StraightUpTo;
    StandNext(cats, shop, w, c, from, k, m);
  }

  lemma ChainNotEmpty(shop: Shop, u: Url, k: nat)
    ensures k > 0 && Chain(shop, u, k).Some? ==> Chain(shop, u, k).value != ""
  {
  }

  lemma RunDone(cats: seq<Url>, shop: Shop, w: Walk)
    requires cats != []
    ensures RunFrom(cats, Always(shop), |w.trace|, w) == w
  {
  }

  lemma Standing(cats: seq<Url>, shop: Shop, w: Walk, c: nat, from: nat, k: nat)
    requires c < |cats| && StandsAt(cats, shop, w, c, from, k) && Answers(shop)
    ensures w.at.catIdx < |cats| && !shop(CurrentUrl(cats, w.at)).Skipped?
  {
  }

  lemma {:induction false} StandRun(cats: seq<Url>, shop: Shop, w: Walk, c: nat, from: nat, k: nat, n: nat, m: nat)
    requires c < |cats| && StandsAt(cats, shop, w, c, from, k) && from <= k && Answers(shop)
    requires k + n < m <= MAX_PAGES_PER_CATEGORY && StraightUpTo(shop, cats[c], m)
    requires Chain(shop, cats[c], k + n).Some?
    ensures StandsAt(cats, shop, RunFrom(cats, Always(shop), |w.trace| + n, w), c, from, k + n)
    decreases n
  {
    hide *;
    if n == 0 {
      RunDone(cats, shop, w);
    } else {
      ChainPrefix(shop, cats[c], k + 1, k + n);
      Standing(cats, shop, w, c, from, k);
      StandStep(cats, shop, |w.trace| + n, w, c, from, k, m);
      StandRun(cats, shop, After(cats, w, shop(CurrentUrl(cats, w.at))), c, from, k + 1, n - 1, m);
    }
  }

  lemma {:induction false} FirstRepeat(shop: Shop, u: Url, m: nat) returns (i: nat, j: nat)
    requires !StraightUpTo(shop, u, m)
    ensures i < j < m && Chain(shop, u, j).Some? && Chain(shop, u, i) == Chain(shop, u, j)
    ensures StraightUpTo(shop, u, j)
  {
    if !StraightUpTo(shop, u, m - 1) {
      i, j := FirstRepeat(shop, u, m - 1);
    } else {
      i, j :| 0 <= i < j < m && Chain(shop, u, j).Some? && Chain(shop, u, i) == Chain(shop, u, j);
    }
  }

  lemma NoImmediateRepeat(shop: Shop, u: Url, j: nat)
    requires j > 0 && Chain(shop, u, j).Some?
    ensures Chain(shop, u, j - 1) != Chain(shop, u, j)
  {
  }

  /** A run that still remembers the repeated page leaves the category ... */
  lemma RepeatRemembered(cats: seq<Url>, shop: Shop, w: Walk, c: nat, from: nat, i: nat, j: nat)
    requires c < |cats| && Answers(shop)
    requires from <= i < j - 1 && j < MAX_PAGES_PER_CATEGORY
    requires Chain(shop, cats[c], j).Some? && Chain(shop, cats[c], i) == Chain(shop, cats[c], j)
    requires StandsAt(cats, shop, w, c, from, j - 1)
    ensures After(cats, w, shop(CurrentUrl(cats, w.at))).at.catIdx == c + 1
  {
    LinkOfLastPage(cats, shop, w, c, from, j);
    assert Chain(shop, cats[c], j).value in w.visited;
  }

  /** ... and one that has forgotten it goes back to it. */
  lemma RepeatForgotten(cats: seq<Url>, shop: Shop, w: Walk, c: nat, from: nat, i: nat, j: nat)
    requires c < |cats| && Answers(shop)
    requires i < from <= j - 1 && j < MAX_PAGES_PER_CATEGORY
    requires Chain(shop, cats[c], j).Some? && Chain(shop, cats[c], i) == Chain(shop, cats[c], j)
    requires StraightUpTo(shop, cats[c], j)
    requires StandsAt(cats, shop, w, c, from, j - 1)
    ensures After(cats, w, shop(CurrentUrl(cats, w.at))).at.catIdx == c
  {
    LinkOfLastPage(cats, shop, w, c, from, j);
    forall k | from <= k < j - 1 ensures Chain(shop, cats[c], k) != Chain(shop, cats[c], j) {
      ChainPrefix(shop, cats[c], k, j);
      assert Chain(shop, cats[c], i) != Chain(shop, cats[c], k);
    }
    assert Chain(shop, cats[c], j).value !in w.visited;
  }

  lemma LinkOfLastPage(cats: seq<Url>, shop: Shop, w: Walk, c: nat, from: nat, j: nat)
    requires c < |cats| && 0 < j && Chain(shop, cats[c], j).Some?
    requires StandsAt(cats, shop, w, c, from, j - 1)
    ensures Chain(shop, cats[c], j - 1) == Some(CurrentUrl(cats, w.at))
    ensures LinkFrom(shop, CurrentUrl(cats, w.at)) == Chain(shop, cats[c], j)
  {
    ChainPrefix(shop, cats[c], j - 1, j);
    ChainNotEmpty(shop, cats[c], j - 1);
  }

  lemma StandsAtStart(cats: seq<Url>, shop: Shop, c: nat, from: nat)
    requires c < |cats|
    ensures StandsAt(cats, shop, Start(PageAt(shop, cats, c, from)), c, from, from)
  {
  }

  lemma StandsOnPage(cats: seq<Url>, shop: Shop, w: Walk, c: nat, from: nat, k: nat)
    requires c < |cats| && StandsAt(cats, shop, w, c, from, k)
    ensures w.at == PageAt(shop, cats, c, k)
  {
  }

  /** A run of n fetches through pages that stay new. */
  lemma FreshRun(cats: seq<Url>, shop: Shop, c: nat, from: nat, n: nat, m: nat)
    requires c < |cats| && Answers(shop)
    requires from + n < m <= MAX_PAGES_PER_CATEGORY && StraightUpTo(shop, cats[c], m)
    requires Chain(shop, cats[c], from + n).Some?
    ensures StandsAt(cats, shop, Run(cats, Always(shop), n, PageAt(shop, cats, c, from)), c, from, from + n)
  {
    var w := Start(PageAt(shop, cats, c, from));
    assert |w.trace| + n == n;
    assert Run(cats, Always(shop), n, PageAt(shop, cats, c, from)) == RunFrom(cats, Always(shop), n, w);
    hide *;
    StandsAtStart(cats, shop, c, from);
    StandRun(cats, shop, w, c, from, from, n, m);
  }

  /** The last fetch of a run of n + 1. */
  lemma LastFetch(cats: seq<Url>, shop: Shop, n: nat, p: Position)
    requires cats != [] && Answers(shop) && Run(cats, Always(shop), n, p).at.catIdx < |cats|
    ensures var w := Run(cats, Always(shop), n, p);
      Run(cats, Always(shop), n + 1, p) == After(cats, w, shop(CurrentUrl(cats, w.at)))
  {
    var w := Run(cats, Always(shop), n, p);
    RunResumes(cats, shop, n, n + 1, Start(p));
    RunOne(cats, shop, n + 1, w);
    RunDone(cats, shop, After(cats, w, shop(CurrentUrl(cats, w.at))));
  }

  /** Pages 0..j of category c, of which only the last one repeats: page i. */
  ghost predicate RepeatsAt(cats: seq<Url>, shop: Shop, c: nat, i: nat, j: nat)
    requires c < |cats|
  {
    && i < j - 1 && j < MAX_PAGES_PER_CATEGORY
    && Chain(shop, cats[c], j).Some? && Chain(shop, cats[c], i) == Chain(shop, cats[c], j)
    && StraightUpTo(shop, cats[c], j)
  }

  lemma RepeatExists(cats: seq<Url>, shop: Shop, c: nat) returns (i: nat, j: nat)
    requires c < |cats| && !Straight(shop, cats[c])
    ensures RepeatsAt(cats, shop, c, i, j)
  {
    i, j := FirstRepeat(shop, cats[c], MAX_PAGES_PER_CATEGORY);
    NoImmediateRepeat(shop, cats[c], j);
  }

  lemma WholeRunLeaves(cats: seq<Url>, shop: Shop, c: nat, i: nat, j: nat)
    requires c < |cats| && Answers(shop) && RepeatsAt(cats, shop, c, i, j)
    ensures Run(cats, Always(shop), j, PageAt(shop, cats, c, 0)).at.catIdx == c + 1
  {
    hide Run, Chain, StraightUpTo, StandsAt;
    var p := PageAt(shop, cats, c, 0);
    var w := Run(cats, Always(shop), j - 1, p);
    ChainPrefix(shop, cats[c], j - 1, j);
    FreshRun(cats, shop, c, 0, j - 1, j);
    StandsOnPage(cats, shop, w, c, 0, j - 1);
    LastFetch(cats, shop, j - 1, p);
    RepeatRemembered(cats, shop, w, c, 0, i, j);
  }

  lemma CutRunStays(cats: seq<Url>, shop: Shop, c: nat, i: nat, j: nat)
    requires c < |cats| && Answers(shop) && RepeatsAt(cats, shop, c, i, j)
    ensures Run(cats, Always(shop), i + 1, PageAt(shop, cats, c, 0)).at == PageAt(shop, cats, c, i + 1)
    ensures Run(cats, Always(shop), j - 1 - i, PageAt(shop, cats, c, i + 1)).at.catIdx == c
  {
    hide Run, Chain, StraightUpTo, StandsAt;
    ChainPrefix(shop, cats[c], i + 1, j);
    FreshRun(cats, shop, c, 0, i + 1, j);
    StandsOnPage(cats, shop, Run(cats, Always(shop), i + 1, PageAt(shop, cats, c, 0)), c, 0, i + 1);
    var p, n := PageAt(shop, cats, c, i + 1), j - 2 - i;
    var w := Run(cats, Always(shop), n, p);
    ChainPrefix(shop, cats[c], j - 1, j);
    FreshRun(cats, shop, c, i + 1, n, j);
    StandsOnPage(cats, shop, w, c, i + 1, j - 1);
    LastFetch(cats, shop, n, p);
    RepeatForgotten(cats, shop, w, c, i + 1, i, j);
  }

  /** One run through a repeating category against the same run cut just behind the repeated page. */
  lemma RepeatShows(cats: seq<Url>, shop: Shop, c: nat)
    requires c < |cats| && Answers(shop) && !Straight(shop, cats[c])
    ensures exists p, a, b :: OnTrack(cats, shop, p) && !SplitAgrees(cats, shop, p, a, b)
  {
    var i, j := RepeatExists(cats, shop, c);
    var p := PageAt(shop, cats, c, 0);
    assert OnTrack(cats, shop, p);
    var a: nat, b: nat := i + 1, j - 1 - i;
    assert a + b == j;
    hide *;
    WholeRunLeaves(cats, shop, c, i, j);
    CutRunStays(cats, shop, c, i, j);
    CutShows(cats, shop, p, a, b);
  }

  lemma CutShows(cats: seq<Url>, shop: Shop, p: Position, a: nat, b: nat)
    requires cats != []
    requires Run(cats, Always(shop), a + b, p).at.catIdx
          != Run(cats, Always(shop), b, Run(cats, Always(shop), a, p).at).at.catIdx
    ensures !SplitAgrees(cats, shop, p, a, b)
  {
  }

  /** Main result on runs: cutting a harvest is invisible iff every category's chain is straight. */
  lemma SplittingIsInvisibleExactly(cats: seq<Url>, shop: Shop)
    requires cats != [] && Answers(shop)
    ensures (forall p, a, b :: OnTrack(cats, shop, p) ==> SplitAgrees(cats, shop, p, a, b))
      <==> AllStraight(cats, shop)
  {
    if AllStraight(cats, shop) {
      forall p, a, b | OnTrack(cats, shop, p) ensures SplitAgrees(cats, shop, p, a, b) {
        StraightSplits(cats, shop, p, a, b);
      }
    } else {
      var u :| u in cats && !Straight(shop, u);
      var c :| 0 <= c < |cats| && cats[c] == u;
      RepeatShows(cats, shop, c);
    }
  }
}
