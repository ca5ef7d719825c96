/**
 The resumable walk over a shop's categories and their pages. A run fetches up to a limit of
 pages from a stored cursor; the next run, with a fresh visited set, goes on where it stopped.
 A fetch is an arbitrary answer of the environment.
 */
module HarvestWalk {
  import opened Common

  type Url = string

  const MAX_PAGES_PER_CATEGORY: nat := 500
  const OFFERS_PER_PAGE_INIT: real := 30.0

  /** The part of the cursor that decides what is fetched next. */
  datatype Position = Position(catIdx: nat, nextUrl: Option<Url>, page: nat, passNo: nat)

  datatype Cursor = Cursor(at: Position, yieldEma: real)

  /** What a fetch brings: a spent budget, no HTML, no offers, or offers and perhaps a next link. */
  datatype Fetched = Skipped | NoHtml | NoOffers | Offers(count: nat, next: Option<Url>)

  /** One counted fetch. */
  datatype Visit = Visit(passNo: nat, catIdx: nat, page: nat, url: Url)

  /** A run in progress: position, URLs seen since the category was opened, fetches, offer counts. */
  datatype Walk = Walk(at: Position, visited: set<Url>, trace: seq<Visit>, counts: seq<nat>)

  /** The environment of one run: the answer to its k-th fetch attempt. */
  type Site = (nat, Url) -> Fetched

  // ----- one step

  function CurrentUrl(cats: seq<Url>, p: Position): Url
    requires p.catIdx < |cats|
  {
    if p.nextUrl.Some? && p.nextUrl.value != "" then p.nextUrl.value else cats[p.catIdx]
  }

  /** Past the last category a new pass begins. */
  function Wrap(cats: seq<Url>, p: Position): Position {
    if p.catIdx >= |cats| then Position(0, None, 0, p.passNo + 1) else p
  }

  function WrapWalk(cats: seq<Url>, w: Walk): Walk {
    if w.at.catIdx >= |cats| then w.(at := Wrap(cats, w.at), visited := {}) else w
  }

  function AdvanceCategory(p: Position): Position {
    Position(p.catIdx + 1, None, 0, p.passNo)
  }

  function FollowLink(p: Position, next: Url): Position {
    Position(p.catIdx, Some(next), p.page + 1, p.passNo)
  }

  /** The next link is followed when it is new to this run and the category's page cap allows. */
  predicate Follows(p: Position, url: Url, next: Option<Url>, visited: set<Url>) {
    && next.Some? && next.value != ""
    && next.value != url
    && next.value !in visited
    && p.page + 1 < MAX_PAGES_PER_CATEGORY
  }

  function VisitAt(cats: seq<Url>, p: Position): Visit
    requires p.catIdx < |cats|
  {
    Visit(p.passNo, p.catIdx, p.page, CurrentUrl(cats, p))
  }

  /** A counted fetch at a wrapped position. */
  function After(cats: seq<Url>, w: Walk, f: Fetched): Walk
    requires w.at.catIdx < |cats| && !f.Skipped?
  {
    var url := CurrentUrl(cats, w.at);
    var visited := w.visited + {url};
    var trace := w.trace + [VisitAt(cats, w.at)];
    if f.Offers? && f.count > 0 then
      var counts := w.counts + [f.count];
      if Follows(w.at, url, f.next, visited)
      then Walk(FollowLink(w.at, f.next.value), visited, trace, counts)
      else Walk(AdvanceCategory(w.at), {}, trace, counts)
    else Walk(AdvanceCategory(w.at), {}, trace, w.counts)
  }

  /** The rest of a run: until limit fetches are counted or the budget is spent. */
  function RunFrom(cats: seq<Url>, site: Site, limit: nat, w: Walk): Walk
    requires cats != []
    decreases limit - |w.trace|
  {
    if |w.trace| >= limit then w
    else
      var here := WrapWalk(cats, w);
      var f := site(|here.trace|, CurrentUrl(cats, here.at));
      if f.Skipped? then here else RunFrom(cats, site, limit, After(cats, here, f))
  }

  function Start(p: Position): Walk {
    Walk(p, {}, [], [])
  }

  function Run(cats: seq<Url>, site: Site, limit: nat, p: Position): Walk
    requires cats != []
  {
    RunFrom(cats, site, limit, Start(p))
  }

  /** The exponential moving average of offers per page. */
  function Ema(ema: real, counts: seq<nat>): real {
    if counts == [] then ema
    else 0.8 * Ema(ema, counts[..|counts| - 1]) + 0.2 * (counts[|counts| - 1] as real)
  }

  /** The cursor loop of _harvest. */
  method Harvest(cats: seq<Url>, site: Site, limit: nat, stored: Cursor)
    returns (cursor: Cursor, pages: nat, budgetStopped: bool, ghost trace: seq<Visit>)
    requires cats != []
    ensures cursor.at == Run(cats, site, limit, stored.at).at
    ensures cursor.yieldEma == Ema(stored.yieldEma, Run(cats, site, limit, stored.at).counts)
    ensures trace == Run(cats, site, limit, stored.at).trace && pages == |trace| <= limit
    ensures budgetStopped <==> pages < limit
  {
    var at, yieldEma := stored.at, stored.yieldEma;
    var visited: set<Url> := {};
    ghost var counts: seq<nat> := [];
    pages, budgetStopped, trace := 0, false, [];
    while pages < limit
      invariant pages == |trace| <= limit
      invariant yieldEma == Ema(stored.yieldEma, counts)
      invariant RunFrom(cats, site, limit, Walk(at, visited, trace, counts)) == Run(cats, site, limit, stored.at)
    {
      ghost var here := WrapWalk(cats, Walk(at, visited, trace, counts));
      if at.catIdx >= |cats| {
        at := Position(0, None, 0, at.passNo + 1);
        visited := {};
      }
      var url := CurrentUrl(cats, at);
      var f := site(pages, url);
      if f.Skipped? {
        budgetStopped := true;
        break;
      }
      pages := pages + 1;
      visited := visited + {url};
      trace := trace + [VisitAt(cats, at)];
      if f.Offers? && f.count > 0 {
        yieldEma := 0.8 * yieldEma + 0.2 * (f.count as real);
        assert (counts + [f.count])[..|counts|] == counts;
        counts := counts + [f.count];
        if Follows(at, url, f.next, visited) {
          at := FollowLink(at, f.next.value);
        } else {
          at := AdvanceCategory(at);
          visited := {};
        }
      } else {
        at := AdvanceCategory(at);
        visited := {};
      }
      assert Walk(at, visited, trace, counts) == After(cats, here, f);
    }
    cursor := Cursor(at, yieldEma);
  }

  // ----- the stored cursor

  /** The Redis hash of a cursor; an absent hash or field reads as its default. */
  datatype Stored = Stored(catIdx: nat, nextUrl: string, page: nat, passNo: nat, yieldEma: real)

  function SaveCursor(c: Cursor, round2: real -> real): Stored {
    Stored(c.at.catIdx, if c.at.nextUrl.Some? then c.at.nextUrl.value else "", c.at.page, c.at.passNo,
           round2(c.yieldEma))
  }

  function LoadCursor(raw: Option<Stored>): Cursor {
    match raw
    case None => Cursor(Position(0, None, 0, 0), OFFERS_PER_PAGE_INIT)
    case Some(s) =>
      Cursor(Position(s.catIdx, if s.nextUrl == "" then None else Some(s.nextUrl), s.page, s.passNo), s.yieldEma)
  }

  /** No run ever stores an empty next link. */
  predicate ValidPosition(p: Position) {
    && p.page < MAX_PAGES_PER_CATEGORY
    && (p.nextUrl.None? <==> p.page == 0)
    && p.nextUrl != Some("")
  }

  lemma {:induction false} RunKeepsValid(cats: seq<Url>, site: Site, limit: nat, w: Walk)
    requires cats != [] && ValidPosition(w.at)
    ensures ValidPosition(RunFrom(cats, site, limit, w).at)
    decreases limit - |w.trace|
  {
    if |w.trace| < limit {
      var here := WrapWalk(cats, w);
      var f := site(|here.trace|, CurrentUrl(cats, here.at));
      if !f.Skipped? {
        RunKeepsValid(cats, site, limit, After(cats, here, f));
      }
    }
  }

  /** Storing and loading keeps the position exactly; only the average is rounded. */
  lemma LoadUndoesSave(c: Cursor, round2: real -> real)
    requires ValidPosition(c.at)
    ensures LoadCursor(Some(SaveCursor(c, round2))) == c.(yieldEma := round2(c.yieldEma))
  {
  }

  // ----- passes, for any environment and any split into runs

  datatype Session = Session(limit: nat, site: Site)

  /** Several runs in a row: the position is carried over, the visited set is not. */
  function RunAll(cats: seq<Url>, sessions: seq<Session>, p: Position): (Position, seq<Visit>)
    requires cats != []
  {
    if sessions == [] then (p, [])
    else
      var (before, trace) := RunAll(cats, sessions[..|sessions| - 1], p);
      var last := sessions[|sessions| - 1];
      var w := Run(cats, last.site, last.limit, before);
      (w.at, trace + w.trace)
  }

  function Measure(cats: seq<Url>, p: Position): int {
    if p.catIdx >= |cats| then 0 else (|cats| - p.catIdx) * MAX_PAGES_PER_CATEGORY - p.page
  }

  /** The fetches of one pass. */
  function FetchesOf(trace: seq<Visit>, pass: nat): nat {
    if trace == [] then 0
    else FetchesOf(trace[..|trace| - 1], pass) + (if trace[|trace| - 1].passNo == pass then 1 else 0)
  }

  /** The URLs a pass fetched as first pages. */
  function OpenersOf(trace: seq<Visit>, pass: nat): seq<Url> {
    if trace == [] then []
    else
      var v := trace[|trace| - 1];
      OpenersOf(trace[..|trace| - 1], pass) + (if v.passNo == pass && v.page == 0 then [v.url] else [])
  }

  /** How many categories the pass has opened at p. */
  function Opened(cats: seq<Url>, p: Position): nat {
    if p.catIdx >= |cats| then |cats| else if p.page == 0 then p.catIdx else p.catIdx + 1
  }

  /** Bookkeeping of all passes since the start of pass first. */
  ghost predicate PassInv(cats: seq<Url>, first: nat, p: Position, trace: seq<Visit>) {
    && ValidPosition(p)
    && first <= p.passNo
    && (forall pass: nat :: pass > p.passNo || pass < first ==>
      FetchesOf(trace, pass) == 0 && OpenersOf(trace, pass) == [])
    && (forall pass: nat :: first <= pass < p.passNo ==>
      FetchesOf(trace, pass) <= MAX_PAGES_PER_CATEGORY * |cats| && OpenersOf(trace, pass) == cats)
    && FetchesOf(trace, p.passNo) <= MAX_PAGES_PER_CATEGORY * |cats| - Measure(cats, p)
    && OpenersOf(trace, p.passNo) == cats[..Opened(cats, p)]
  }

  lemma PassWrap(cats: seq<Url>, first: nat, p: Position, trace: seq<Visit>)
    requires cats != [] && PassInv(cats, first, p, trace)
    ensures PassInv(cats, first, Wrap(cats, p), trace)
  {
    assert cats[..|cats|] == cats && cats[..0] == [];
  }

  lemma PassFetch(cats: seq<Url>, first: nat, w: Walk, f: Fetched, earlier: seq<Visit>)
    requires cats != [] && w.at.catIdx < |cats| && !f.Skipped?
    requires PassInv(cats, first, w.at, earlier + w.trace)
    ensures PassInv(cats, first, After(cats, w, f).at, earlier + After(cats, w, f).trace)
  {
    var p, trace := w.at, earlier + w.trace;
    var v, p' := VisitAt(cats, p), After(cats, w, f).at;
    OneMoreVisit(trace, v);
    assert earlier + After(cats, w, f).trace == trace + [v];
    NextPosition(cats, w, f);
    hide FetchesOf, OpenersOf, After, Measure;
    assert Measure(cats, p') < Measure(cats, p);
    assert cats[..p.catIdx] + [cats[p.catIdx]] == cats[..p.catIdx + 1];
  }

  lemma OneMoreVisit(trace: seq<Visit>, v: Visit)
    ensures forall pass: nat ::
      FetchesOf(trace + [v], pass) == FetchesOf(trace, pass) + (if v.passNo == pass then 1 else 0)
    ensures forall pass: nat ::
      OpenersOf(trace + [v], pass) == OpenersOf(trace, pass) + (if v.passNo == pass && v.page == 0 then [v.url] else [])
  {
    assert (trace + [v])[..|trace|] == trace;
  }

  /** A counted fetch makes progress in the pass and has the current category opened. */
  lemma NextPosition(cats: seq<Url>, w: Walk, f: Fetched)
    requires w.at.catIdx < |cats| && !f.Skipped? && ValidPosition(w.at)
    ensures var p' := After(cats, w, f).at;
      && ValidPosition(p')
      && p'.passNo == w.at.passNo
      && Measure(cats, p') < Measure(cats, w.at)
      && Opened(cats, p') == w.at.catIdx + 1
  {
  }

  lemma {:induction false} PassRun(cats: seq<Url>, first: nat, site: Site, limit: nat, w: Walk, earlier: seq<Visit>)
    requires cats != [] && PassInv(cats, first, w.at, earlier + w.trace)
    ensures PassInv(cats, first, RunFrom(cats, site, limit, w).at, earlier + RunFrom(cats, site, limit, w).trace)
    decreases limit - |w.trace|
  {
    if |w.trace| < limit {
      var here := WrapWalk(cats, w);
      PassWrap(cats, first, w.at, earlier + w.trace);
      var f := site(|here.trace|, CurrentUrl(cats, here.at));
      if !f.Skipped? {
        PassFetch(cats, first, here, f, earlier);
        PassRun(cats, first, site, limit, After(cats, here, f), earlier);
      }
    }
  }

  lemma {:induction false} PassAlways(cats: seq<Url>, sessions: seq<Session>, pass: nat)
    requires cats != []
    ensures PassInv(cats, pass, RunAll(cats, sessions, Position(0, None, 0, pass)).0,
                    RunAll(cats, sessions, Position(0, None, 0, pass)).1)
  {
    if sessions == [] {
      assert cats[..0] == [];
    } else {
      PassAlways(cats, sessions[..|sessions| - 1], pass);
      var (before, trace) := RunAll(cats, sessions[..|sessions| - 1], Position(0, None, 0, pass));
      var last := sessions[|sessions| - 1];
      assert trace + [] == trace;
      PassRun(cats, pass, last.site, last.limit, Start(before), trace);
    }
  }

  /**
   Main result on passes: whatever the site answers and however the walk is cut into runs, from
   the start of a pass at most 500 fetches per category are spent on it, every pass left behind
   opened each category's first URL once and in order, and 500 fetches per category complete it.
   */
  lemma PassesAreBoundedAndOrdered(cats: seq<Url>, sessions: seq<Session>, pass: nat)
    requires cats != []
    ensures var (p, trace) := RunAll(cats, sessions, Position(0, None, 0, pass));
      && FetchesOf(trace, pass) <= MAX_PAGES_PER_CATEGORY * |cats|
      && (forall done :: pass <= done < p.passNo ==>
        OpenersOf(trace, done) == cats && FetchesOf(trace, done) <= MAX_PAGES_PER_CATEGORY * |cats|)
      && (|trace| >= MAX_PAGES_PER_CATEGORY * |cats| ==>
        OpenersOf(trace, pass) == cats && (p.passNo > pass || p.catIdx >= |cats|))
  {
    PassAlways(cats, sessions, pass);
    var (p, trace) := RunAll(cats, sessions, Position(0, None, 0, pass));
    assert cats[..|cats|] == cats;
    if |trace| >= MAX_PAGES_PER_CATEGORY * |cats| && p.passNo == pass {
      OnePassOnly(trace, pass);
    }
  }

  lemma {:induction false} OnePassOnly(trace: seq<Visit>, pass: nat)
    requires forall other: nat :: other != pass ==> FetchesOf(trace, other) == 0
    ensures FetchesOf(trace, pass) == |trace|
  {
    if trace != [] {
      var front, last := trace[..|trace| - 1], trace[|trace| - 1];
      forall other: nat | other != pass ensures FetchesOf(front, other) == 0 {
        assert FetchesOf(trace, other) == 0;
      }
      OnePassOnly(front, pass);
      assert FetchesOf(trace, last.passNo) > 0;
    }
  }

  // ----- single fetches, spelled out

  /** Where the walk stands before its next fetch: behind the last category a new pass begins. */
  lemma FetchedUrl(cats: seq<Url>, w: Walk)
    requires cats != []
    ensures var here := WrapWalk(cats, w);
      && here.at.catIdx < |cats| && here.trace == w.trace && here.counts == w.counts
      && (if w.at.catIdx < |cats| then here == w
          else here.at == Position(0, None, 0, w.at.passNo + 1) && here.visited == {})
      && CurrentUrl(cats, here.at)
         == match here.at.nextUrl
            case Some(link) => (if link == "" then cats[here.at.catIdx] else link)
            case None => cats[here.at.catIdx]
  {
  }

  /**
   What a fetch does: it is recorded; a page with offers counts, and its next link is followed when it is there,
   new to this category in this run, and not beyond the 500th page; in every other case the next category's
   first page comes next.
   */
  lemma FetchMeaning(cats: seq<Url>, w: Walk, f: Fetched)
    requires w.at.catIdx < |cats| && f != Skipped
    ensures var p, url, w' := w.at, CurrentUrl(cats, w.at), After(cats, w, f);
      && w'.trace == w.trace + [Visit(p.passNo, p.catIdx, p.page, url)]
      && w'.counts == (if f.Offers? && f.count != 0 then w.counts + [f.count] else w.counts)
      && if f.Offers? && f.count != 0 && f.next.Some? && f.next.value != "" && f.next.value != url
            && f.next.value !in w.visited && p.page + 1 < 500
         then w'.at == Position(p.catIdx, f.next, p.page + 1, p.passNo) && w'.visited == w.visited + {url}
         else w'.at == Position(p.catIdx + 1, None, 0, p.passNo) && w'.visited == {}
  {
  }

  /** A run of one page more: unless the budget had stopped it, it goes on with one more fetch. */
  lemma {:induction false} OnePageMore(cats: seq<Url>, site: Site, limit: nat, w: Walk)
    requires cats != [] && |w.trace| <= limit
    ensures var before, after := RunFrom(cats, site, limit, w), RunFrom(cats, site, limit + 1, w);
      var here := WrapWalk(cats, before);
      && |before.trace| <= limit
      && if |before.trace| < limit then after == before
         else
           var f := site(limit, CurrentUrl(cats, here.at));
           after == if f.Skipped? then here else After(cats, here, f)
    decreases limit - |w.trace|
  {
    hide After, CurrentUrl, WrapWalk;
    var here := WrapWalk(cats, w);
    FetchedUrl(cats, w);
    if |w.trace| < limit {
      var f := site(|here.trace|, CurrentUrl(cats, here.at));
      if f.Skipped? {
        StoppedRun(cats, site, limit, w);
      } else {
        FetchMeaning(cats, here, f);
        OnePageMore(cats, site, limit, After(cats, here, f));
      }
    } else {
      var f := site(limit, CurrentUrl(cats, here.at));
      if !f.Skipped? {
        FetchMeaning(cats, here, f);
      }
    }
  }

  lemma StoppedRun(cats: seq<Url>, site: Site, limit: nat, w: Walk)
    requires cats != [] && |w.trace| < limit
    requires WrapWalk(cats, w).at.catIdx < |cats|
    requires site(|WrapWalk(cats, w).trace|, CurrentUrl(cats, WrapWalk(cats, w).at)).Skipped?
    ensures RunFrom(cats, site, limit, w) == RunFrom(cats, site, limit + 1, w) == WrapWalk(cats, w)
    ensures |RunFrom(cats, site, limit, w).trace| == |w.trace|
  {
  }

  /** A counted page moves the average a fifth of the way to its number of offers. */
  lemma PageMovesAverage(ema: real, counts: seq<nat>, count: nat)
    ensures Ema(ema, []) == ema
    ensures Ema(ema, counts + [count]) == Ema(ema, counts) + (count as real - Ema(ema, counts)) / 5.0
  {
    assert (counts + [count])[..|counts|] == counts;
  }

  /**
   A shop without a stored cursor starts with its first category and an average of thirty: whatever the site
   answers, the first pass opens every category once and in order, within 500 fetches for each.
   */
  lemma FirstHarvestOpensAll(cats: seq<Url>, sessions: seq<Session>)
    requires cats != []
    ensures LoadCursor(None).yieldEma == 30.0
    ensures var (p, trace) := RunAll(cats, sessions, LoadCursor(None).at);
      && FetchesOf(trace, 0) <= 500 * |cats|
      && (p.passNo > 0 || |trace| >= 500 * |cats| ==> OpenersOf(trace, 0) == cats)
  {
    PassesAreBoundedAndOrdered(cats, sessions, 0);
    hide RunAll, FetchesOf, OpenersOf;
  }
}
