/** The order in which a crawl first checks pages, and when it is done. */
module BreadthFirst {
  import opened Options
  import opened Tables
  import opened Frontier
  import opened Machine
  import opened Crawl

  /** The step checks page `p` for the first time. */
  predicate FirstCheck(db: Db, step: Step, s: nat, p: nat) {
    Takes(db, step, s, p) && !db.pages[p].isChecked
  }

  /** Only the frontier, with no schedule due, makes first checks; pages are checked again at will. */
  ghost predicate FrontierFirst(s: nat, states: seq<Db>, steps: seq<Step>)
    requires |states| == |steps| + 1
  {
    forall i, p :: 0 <= i < |steps| && FirstCheck(states[i], steps[i], s, p) ==>
      steps[i].CheckNext? && steps[i].site == s && Due(states[i], s) == {}
  }

  ghost function DistOf(web: Web, seed: Key, db: Db, s: nat, p: nat): nat
    requires CrawlOk(web, seed, db, s) && p in PagesOf(db, s)
  {
    Dist(web, seed, db.pages[p].key)
  }

  /**
   Of two pages, the one created first is no further away; none is more than one
   link beyond an unchecked one; and the checked one was created first.
   */
  ghost predicate LayeredPair(web: Web, seed: Key, db: Db, s: nat, p: nat, q: nat)
    requires CrawlOk(web, seed, db, s) && p in PagesOf(db, s) && q in PagesOf(db, s)
  {
    && (db.pages[p].createdAt <= db.pages[q].createdAt ==> DistOf(web, seed, db, s, p) <= DistOf(web, seed, db, s, q))
    && (!db.pages[q].isChecked ==> DistOf(web, seed, db, s, p) <= DistOf(web, seed, db, s, q) + 1)
    && (db.pages[p].isChecked && !db.pages[q].isChecked ==> db.pages[p].createdAt < db.pages[q].createdAt)
  }

  ghost predicate Layered(web: Web, seed: Key, db: Db, s: nat)
    requires CrawlOk(web, seed, db, s)
  {
    forall p, q :: p in PagesOf(db, s) && q in PagesOf(db, s) ==> LayeredPair(web, seed, db, s, p, q)
  }

  lemma FreshIsLayered(web: Web, seed: Key, db: Db, s: nat)
    requires FreshSite(db, s, seed) && CrawlOk(web, seed, db, s)
    ensures Layered(web, seed, db, s)
  {
  }

  /** Every key no further than the oldest unchecked page is stored already. */
  lemma {:induction false} NearKeysStored(web: Web, seed: Key, db: Db, s: nat, h: nat, k: Key, n: nat)
    requires CrawlOk(web, seed, db, s) && Layered(web, seed, db, s)
    requires FirstCreated(db, Unchecked(db, s), h)
    requires Walk(web, seed, k, n) && n <= DistOf(web, seed, db, s, h)
    ensures Stored(db, s, k)
    decreases n
  {
    if n > 0 {
      var j :| Walk(web, seed, j, n - 1) && k in web(j);
      NearKeysStored(web, seed, db, s, h, j, n - 1);
      DistAtMost(web, seed, j, n - 1);
      var p := Lookup(db, s, j);
      assert LayeredPair(web, seed, db, s, h, p);
      assert db.pages[p].isChecked;
    }
  }

  /** So whatever its check discovers is exactly one link further away. */
  lemma DiscoveredDist(web: Web, seed: Key, db: Db, s: nat, h: nat, k: Key)
    requires CrawlOk(web, seed, db, s) && Layered(web, seed, db, s)
    requires FirstCreated(db, Unchecked(db, s), h)
    requires k in web(db.pages[h].key) && !Stored(db, s, k)
    ensures Reachable(web, seed, k) && Dist(web, seed, k) == DistOf(web, seed, db, s, h) + 1
  {
    DistOfTarget(web, seed, db.pages[h].key, k);
    if Dist(web, seed, k) <= DistOf(web, seed, db, s, h) {
      NearKeysStored(web, seed, db, s, h, k, Dist(web, seed, k));
    }
  }

  /** The layers depend only on the pages' keys, creation times and check marks. */
  lemma SameLayers(web: Web, seed: Key, db: Db, db': Db, s: nat)
    requires CrawlOk(web, seed, db, s) && CrawlOk(web, seed, db', s) && Layered(web, seed, db, s)
    requires PagesOf(db', s) == PagesOf(db, s)
    requires forall p :: p in PagesOf(db, s) ==>
               db'.pages[p].key == db.pages[p].key && db'.pages[p].createdAt == db.pages[p].createdAt
               && db'.pages[p].isChecked == db.pages[p].isChecked
    ensures Layered(web, seed, db', s)
  {
    forall p, q | p in PagesOf(db', s) && q in PagesOf(db', s) ensures LayeredPair(web, seed, db', s, p, q) {
      assert LayeredPair(web, seed, db, s, p, q);
    }
  }

  lemma OnlyNamedAreNew(db: Db, db': Db, s: nat, p: nat, targets: set<Key>)
    requires IsVisit(db, db', s, p, targets)
    ensures forall q :: q in PagesOf(db', s) ==>
              q in PagesOf(db, s) || (db'.pages[q].key in targets && !Stored(db, s, db'.pages[q].key))
  {
    forall q | q in PagesOf(db', s) && q !in PagesOf(db, s) ensures NewTarget(db, db', s, targets, q) {
    }
  }

  /** A page checked before, whose targets are stored, discovers nothing new. */
  lemma RevisitAddsNothing(web: Web, db: Db, db': Db, s: nat, p: nat)
    requires p in db.pages && IsVisit(db, db', s, p, web(db.pages[p].key))
    requires db.pages[p].isChecked && forall k :: k in web(db.pages[p].key) ==> Stored(db, s, k)
    ensures PagesOf(db', s) == PagesOf(db, s)
    ensures Unchecked(db', s) == Unchecked(db, s) && CheckedPages(db', s) == CheckedPages(db, s)
  {
    OnlyNamedAreNew(db, db', s, p, web(db.pages[p].key));
  }

  /** The pages after the oldest unchecked one was visited. */
  lemma VisitedDist(web: Web, seed: Key, db: Db, db': Db, s: nat, h: nat, q: nat)
    requires Inv(db) && CrawlOk(web, seed, db, s) && CrawlOk(web, seed, db', s) && Layered(web, seed, db, s)
    requires FirstCreated(db, Unchecked(db, s), h) && IsVisit(db, db', s, h, web(db.pages[h].key))
    requires q in PagesOf(db', s)
    ensures if q in PagesOf(db, s)
            then DistOf(web, seed, db', s, q) == DistOf(web, seed, db, s, q)
                 && db'.pages[q].createdAt == db.pages[q].createdAt <= db.clock
                 && (q in Unchecked(db', s) <==> q in Unchecked(db, s) && q != h)
            else DistOf(web, seed, db', s, q) == DistOf(web, seed, db, s, h) + 1
                 && db.clock < db'.pages[q].createdAt && q in Unchecked(db', s)
  {
    if q in PagesOf(db, s) {
      assert RowOk(db, q);
    } else {
      assert NewTarget(db, db', s, web(db.pages[h].key), q);
      DiscoveredDist(web, seed, db, s, h, db'.pages[q].key);
    }
  }

  lemma VisitIsLayered(web: Web, seed: Key, db: Db, db': Db, s: nat, h: nat)
    requires Inv(db) && CrawlOk(web, seed, db, s) && CrawlOk(web, seed, db', s) && Layered(web, seed, db, s)
    requires FirstCreated(db, Unchecked(db, s), h) && IsVisit(db, db', s, h, web(db.pages[h].key))
    ensures Layered(web, seed, db', s)
  {
    forall p, q | p in PagesOf(db', s) && q in PagesOf(db', s) ensures LayeredPair(web, seed, db', s, p, q) {
      VisitedPair(web, seed, db, db', s, h, p, q);
    }
  }

  lemma VisitedPair(web: Web, seed: Key, db: Db, db': Db, s: nat, h: nat, p: nat, q: nat)
    requires Inv(db) && CrawlOk(web, seed, db, s) && CrawlOk(web, seed, db', s) && Layered(web, seed, db, s)
    requires FirstCreated(db, Unchecked(db, s), h) && IsVisit(db, db', s, h, web(db.pages[h].key))
    requires p in PagesOf(db', s) && q in PagesOf(db', s)
    ensures LayeredPair(web, seed, db', s, p, q)
  {
    VisitedDist(web, seed, db, db', s, h, p);
    VisitedDist(web, seed, db, db', s, h, q);
    assert p in PagesOf(db, s) ==> LayeredPair(web, seed, db, s, p, h);
    assert q in PagesOf(db, s) ==> LayeredPair(web, seed, db, s, h, q);
    assert p in PagesOf(db, s) && q in PagesOf(db, s) ==> LayeredPair(web, seed, db, s, p, q);
    if q in PagesOf(db, s) && q != h {
      assert Apart(db.pages[h], db.pages[q]);
    }
  }

  // ----- along a run -----

  /** Without a due schedule, an unchecked page that the frontier offers is the oldest one. */
  lemma OffersOldest(db: Db, s: nat, coin: bool, p: nat)
    requires NextPage(db, s, coin, Some(p)) && Due(db, s) == {}
    ensures p in PagesOf(db, s)
    ensures db.pages[p].isChecked || FirstCreated(db, Unchecked(db, s), p)
  {
    var _ := SelectionIsTotal(db, s, coin);
    assert PagesOf(db, s) == CheckedPages(db, s) + Unchecked(db, s);
  }

  lemma RevisitIsLayered(web: Web, seed: Key, s: nat, db: Db, db': Db, p: nat)
    requires CrawlOk(web, seed, db, s) && CrawlOk(web, seed, db', s) && Layered(web, seed, db, s)
    requires Visit(web, db, db', s, p) && db.pages[p].isChecked
    ensures Layered(web, seed, db', s)
  {
    VisitIs(web, db, db', s, p);
    RevisitAddsNothing(web, db, db', s, p);
    SameLayers(web, seed, db, db', s);
  }

  lemma FirstVisitIsLayered(web: Web, seed: Key, s: nat, db: Db, coin: bool, db': Db, p: nat)
    requires Inv(db) && CrawlOk(web, seed, db, s) && CrawlOk(web, seed, db', s) && Layered(web, seed, db, s)
    requires NextPage(db, s, coin, Some(p)) && Due(db, s) == {} && Visit(web, db, db', s, p)
    requires !db.pages[p].isChecked
    ensures Layered(web, seed, db', s)
  {
    VisitIs(web, db, db', s, p);
    OffersOldest(db, s, coin, p);
    VisitIsLayered(web, seed, db, db', s, p);
  }

  lemma QuietIsLayered(web: Web, seed: Key, s: nat, db: Db, db': Db)
    requires CrawlOk(web, seed, db, s) && CrawlOk(web, seed, db', s) && Layered(web, seed, db, s)
    requires Quiet(db, db', s)
    ensures Layered(web, seed, db', s)
  {
    SameLayers(web, seed, db, db', s);
  }

  /** The frontier, with no schedule due, chose the page that the step checks. */
  ghost predicate FromFrontier(db: Db, step: Step, s: nat) {
    step.CheckNext? && step.site == s && Due(db, s) == {} && NextPage(db, s, step.coin, step.chosen)
  }

  lemma TakenIsLayered(web: Web, seed: Key, s: nat, db: Db, step: Step, db': Db, p: nat)
    requires Inv(db) && CrawlOk(web, seed, db, s) && CrawlOk(web, seed, db', s) && Layered(web, seed, db, s)
    requires Takes(db, step, s, p) && Visit(web, db, db', s, p)
    requires FirstCheck(db, step, s, p) ==> FromFrontier(db, step, s)
    ensures Layered(web, seed, db', s)
  {
    if db.pages[p].isChecked {
      RevisitIsLayered(web, seed, s, db, db', p);
    } else {
      FirstVisitIsLayered(web, seed, s, db, step.coin, db', p);
    }
  }

  lemma StepIsLayered(web: Web, seed: Key, s: nat, db: Db, step: Step, db': Db)
    requires Inv(db) && s in db.sites
    requires CrawlOk(web, seed, db, s) && CrawlOk(web, seed, db', s) && Layered(web, seed, db, s)
    requires Next(db, step, db') && StaticStep(web, s, db, step)
    requires forall p :: FirstCheck(db, step, s, p) ==> FromFrontier(db, step, s)
    ensures Layered(web, seed, db', s)
  {
    StepOnSite(web, s, db, step, db');
    if p :| Takes(db, step, s, p) {
      TakenIsLayered(web, seed, s, db, step, db', p);
    } else {
      QuietIsLayered(web, seed, s, db, db');
    }
  }

  lemma {:induction false} CrawlStaysLayered(web: Web, s: nat, seed: Key, states: seq<Db>, steps: seq<Step>, n: nat)
    requires StaticRun(web, s, states, steps) && FreshSite(states[0], s, seed) && FrontierFirst(s, states, steps)
    requires n < |states|
    ensures CrawlOk(web, seed, states[n], s) && Layered(web, seed, states[n], s)
  {
    CrawlStaysOk(web, s, seed, states, steps, n);
    if n == 0 {
      FreshIsLayered(web, seed, states[0], s);
    } else {
      var i := n - 1;
      CrawlStaysLayered(web, s, seed, states, steps, i);
      StaticRunAt(web, s, states, steps, i);
      assert Next(states[i], steps[i], states[i + 1]);
      StepIsLayered(web, seed, s, states[i], steps[i], states[i + 1]);
    }
  }

  predicate CheckedUnder(db: Db, s: nat, p: nat, k: Key) {
    p in CheckedPages(db, s) && db.pages[p].key == k
  }

  lemma StepKeepsChecked(web: Web, s: nat, db: Db, step: Step, db': Db, p: nat, k: Key)
    requires Inv(db) && s in db.sites
    requires Next(db, step, db') && StaticStep(web, s, db, step)
    requires CheckedUnder(db, s, p, k) || (Takes(db, step, s, p) && db.pages[p].key == k)
    ensures CheckedUnder(db', s, p, k)
  {
    StepOnSite(web, s, db, step, db');
    if q :| Takes(db, step, s, q) {
      VisitKeepsChecked(web, s, db, db', q, p, k);
    } else {
      QuietKeepsChecked(s, db, db', p, k);
    }
  }

  lemma VisitKeepsChecked(web: Web, s: nat, db: Db, db': Db, q: nat, p: nat, k: Key)
    requires Visit(web, db, db', s, q)
    requires CheckedUnder(db, s, p, k) || (q == p && db.pages[p].key == k)
    ensures CheckedUnder(db', s, p, k)
  {
    VisitIs(web, db, db', s, q);
  }

  lemma QuietKeepsChecked(s: nat, db: Db, db': Db, p: nat, k: Key)
    requires Quiet(db, db', s) && CheckedUnder(db, s, p, k)
    ensures CheckedUnder(db', s, p, k)
  {
  }

  /** A page once checked stays stored, checked and under its key. */
  lemma {:induction false} StaysChecked(web: Web, s: nat, states: seq<Db>, steps: seq<Step>,
      i: nat, j: nat, p: nat, k: Key)
    requires StaticRun(web, s, states, steps)
    requires i < j < |states| && Takes(states[i], steps[i], s, p) && states[i].pages[p].key == k
    ensures CheckedUnder(states[j], s, p, k)
  {
    var n := j - 1;
    StaticRunAt(web, s, states, steps, n);
    assert Next(states[n], steps[n], states[n + 1]);
    if i < n {
      StaysChecked(web, s, states, steps, i, n, p, k);
      StepKeepsChecked(web, s, states[n], steps[n], states[j], p, k);
    } else {
      StepKeepsChecked(web, s, states[i], steps[i], states[j], p, k);
    }
  }

  /**
   Breadth-first order: however the coins fall, and whatever schedules and hands
   check again meanwhile, a page first checked later is at least as far from the seed.
   */
  lemma FirstChecksByDistance(web: Web, s: nat, seed: Key, states: seq<Db>, steps: seq<Step>,
      i: nat, j: nat, p: nat, q: nat)
    requires StaticRun(web, s, states, steps) && FreshSite(states[0], s, seed) && FrontierFirst(s, states, steps)
    requires i < j < |steps|
    requires FirstCheck(states[i], steps[i], s, p) && FirstCheck(states[j], steps[j], s, q)
    ensures Reachable(web, seed, states[i].pages[p].key) && Reachable(web, seed, states[j].pages[q].key)
    ensures Dist(web, seed, states[i].pages[p].key) <= Dist(web, seed, states[j].pages[q].key)
  {
    CrawlStaysLayered(web, s, seed, states, steps, j);
    StaysChecked(web, s, states, steps, i, j, p, states[i].pages[p].key);
    assert LayeredPair(web, seed, states[j], s, p, q);
  }

  // ----- counting the first checks -----

  ghost predicate Done(db: Db, s: nat, k: Key) {
    exists p :: p in CheckedPages(db, s) && db.pages[p].key == k
  }

  /** The reachable keys still to be checked. */
  ghost function Remaining(db: Db, s: nat, reach: set<Key>): set<Key> {
    set k | k in reach && !Done(db, s, k)
  }

  ghost predicate MakesFirstCheck(db: Db, step: Step, s: nat) {
    exists p :: FirstCheck(db, step, s, p)
  }

  ghost function FirstChecks(states: seq<Db>, steps: seq<Step>, s: nat, n: nat): nat
    requires n <= |steps| < |states|
  {
    if n == 0 then 0
    else FirstChecks(states, steps, s, n - 1)
         + if MakesFirstCheck(states[n - 1], steps[n - 1], s) then 1 else 0
  }

  lemma QuietRemaining(db: Db, db': Db, s: nat, reach: set<Key>)
    requires Quiet(db, db', s)
    ensures Remaining(db', s, reach) == Remaining(db, s, reach)
  {
    assert CheckedPages(db', s) == CheckedPages(db, s);
    forall k ensures Done(db', s, k) <==> Done(db, s, k) {
      assert forall p :: p in CheckedPages(db, s) ==> db'.pages[p].key == db.pages[p].key;
    }
  }

  lemma VisitRemaining(web: Web, db: Db, db': Db, s: nat, p: nat, reach: set<Key>)
    requires Inv(db) && p in db.pages && IsVisit(db, db', s, p, web(db.pages[p].key))
    ensures Remaining(db', s, reach) == Remaining(db, s, reach) - {db.pages[p].key}
    ensures !db.pages[p].isChecked ==> !Done(db, s, db.pages[p].key)
  {
    forall q | q in PagesOf(db', s) && q !in PagesOf(db, s) ensures q !in CheckedPages(db', s) {
      assert NewTarget(db, db', s, web(db.pages[p].key), q);
    }
    forall k ensures Done(db', s, k) <==> Done(db, s, k) || k == db.pages[p].key {
      if Done(db, s, k) {
        var q :| q in CheckedPages(db, s) && db.pages[q].key == k;
        assert q in CheckedPages(db', s) && db'.pages[q].key == k;
      }
      if k == db.pages[p].key {
        assert p in CheckedPages(db', s) && db'.pages[p].key == k;
      }
      if Done(db', s, k) {
        var q :| q in CheckedPages(db', s) && db'.pages[q].key == k;
        assert q != p ==> q in CheckedPages(db, s) && db.pages[q].key == k;
      }
    }
    forall q | q in CheckedPages(db, s) && q != p ensures db.pages[q].key != db.pages[p].key {
      assert Apart(db.pages[q], db.pages[p]);
    }
  }

  lemma TakenRemaining(web: Web, seed: Key, s: nat, reach: set<Key>, db: Db, db': Db, p: nat)
    requires Inv(db) && CrawlOk(web, seed, db, s)
    requires Visit(web, db, db', s, p)
    requires forall k :: k in reach <==> Reachable(web, seed, k)
    ensures |Remaining(db', s, reach)| + (if db.pages[p].isChecked then 0 else 1) == |Remaining(db, s, reach)|
  {
    VisitIs(web, db, db', s, p);
    VisitRemaining(web, db, db', s, p, reach);
    var k := db.pages[p].key;
    if db.pages[p].isChecked {
      assert p in CheckedPages(db, s) && Done(db, s, k);
      assert Remaining(db', s, reach) == Remaining(db, s, reach);
    } else {
      assert p in PagesOf(db, s) && k in reach;
      assert k in Remaining(db, s, reach);
    }
  }

  lemma StepRemaining(web: Web, seed: Key, s: nat, reach: set<Key>, db: Db, step: Step, db': Db)
    requires Inv(db) && s in db.sites && CrawlOk(web, seed, db, s)
    requires Next(db, step, db') && StaticStep(web, s, db, step)
    requires forall k :: k in reach <==> Reachable(web, seed, k)
    ensures |Remaining(db', s, reach)| + (if MakesFirstCheck(db, step, s) then 1 else 0)
            == |Remaining(db, s, reach)|
  {
    StepOnSite(web, s, db, step, db');
    if p :| Takes(db, step, s, p) {
      TakenRemaining(web, seed, s, reach, db, db', p);
      assert FirstCheck(db, step, s, p) <==> !db.pages[p].isChecked;
      assert forall q :: Takes(db, step, s, q) ==> q == p;
    } else {
      QuietRemaining(db, db', s, reach);
    }
  }

  lemma FreshRemaining(db: Db, s: nat, seed: Key, reach: set<Key>)
    requires FreshSite(db, s, seed)
    ensures Remaining(db, s, reach) == reach
  {
    assert forall k :: !Done(db, s, k);
  }

  /** Conservation: first checks made plus reachable keys still unchecked is constant. */
  lemma {:induction false} CheckBudget(web: Web, s: nat, seed: Key, reach: set<Key>,
      states: seq<Db>, steps: seq<Step>, n: nat)
    requires StaticRun(web, s, states, steps) && FreshSite(states[0], s, seed) && n <= |steps|
    requires forall k :: k in reach <==> Reachable(web, seed, k)
    ensures FirstChecks(states, steps, s, n) + |Remaining(states[n], s, reach)| == |reach|
  {
    if n == 0 {
      FreshRemaining(states[0], s, seed, reach);
    } else {
      var i := n - 1;
      CheckBudget(web, s, seed, reach, states, steps, i);
      CrawlStaysOk(web, s, seed, states, steps, i);
      StepRemaining(web, seed, s, reach, states[i], steps[i], states[i + 1]);
    }
  }

  /**
   Termination: with N reachable keys a run makes at most N first checks, and its
   frontier of unchecked pages is empty exactly when it has made all N.
   */
  lemma FrontierEmptiesExactly(web: Web, s: nat, seed: Key, reach: set<Key>, states: seq<Db>, steps: seq<Step>, n: nat)
    requires StaticRun(web, s, states, steps) && FreshSite(states[0], s, seed) && n <= |steps|
    requires forall k :: k in reach <==> Reachable(web, seed, k)
    ensures FirstChecks(states, steps, s, n) <= |reach|
    ensures Unchecked(states[n], s) == {} <==> FirstChecks(states, steps, s, n) == |reach|
  {
    var db := states[n];
    CheckBudget(web, s, seed, reach, states, steps, n);
    CrawlStaysOk(web, s, seed, states, steps, n);
    CrawlReachesExactly(web, s, seed, states, steps, n);
    if Unchecked(db, s) == {} {
      forall k | k in reach ensures Done(db, s, k) {
        var p := Lookup(db, s, k);
        assert p in PagesOf(db, s) && p !in Unchecked(db, s);
        assert p in CheckedPages(db, s);
      }
      assert Remaining(db, s, reach) == {};
    }
    if Remaining(db, s, reach) == {} {
      forall p | p in PagesOf(db, s) ensures db.pages[p].isChecked {
        var k := db.pages[p].key;
        assert k in reach && k !in Remaining(db, s, reach);
        var q :| q in CheckedPages(db, s) && db.pages[q].key == k;
        assert q != p ==> Apart(db.pages[q], db.pages[p]);
      }
    }
  }
}
