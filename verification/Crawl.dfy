/**
 Crawling one site whose pages keep their links: what gets stored, in which
 order pages are first checked, and when the frontier runs empty.  Other sites,
 schedules and flags may change freely meanwhile.
 */
module Crawl {
  import opened Options
  import opened Tables
  import opened Checks
  import opened Frontier
  import opened Steps
  import opened Machine

  /** The valid link targets of each key; none for pages that are not crawled for links. */
  type Web = Key -> set<Key>

  // ----- reachability -----

  ghost predicate Walk(web: Web, seed: Key, k: Key, n: nat)
    decreases n
  {
    if n == 0 then k == seed else exists j :: Walk(web, seed, j, n - 1) && k in web(j)
  }

  ghost predicate Reachable(web: Web, seed: Key, k: Key) {
    exists n: nat :: Walk(web, seed, k, n)
  }

  ghost predicate ShortestWalk(web: Web, seed: Key, k: Key, n: nat) {
    Walk(web, seed, k, n) && forall m: nat :: m < n ==> !Walk(web, seed, k, m)
  }

  /** Link distance from the seed. */
  ghost function Dist(web: Web, seed: Key, k: Key): (n: nat)
    requires Reachable(web, seed, k)
    ensures ShortestWalk(web, seed, k, n)
  {
    var m: nat :| Walk(web, seed, k, m);
    var n := LeastWalk(web, seed, k, m);
    n
  }

  ghost function LeastWalk(web: Web, seed: Key, k: Key, m: nat): (n: nat)
    requires Walk(web, seed, k, m)
    ensures n <= m && ShortestWalk(web, seed, k, n)
  {
    if exists i: nat :: i < m && Walk(web, seed, k, i) then
      var i: nat :| i < m && Walk(web, seed, k, i);
      LeastWalk(web, seed, k, i)
    else m
  }

  lemma DistAtMost(web: Web, seed: Key, k: Key, n: nat)
    requires Walk(web, seed, k, n)
    ensures Reachable(web, seed, k) && Dist(web, seed, k) <= n
  {
  }

  /** A target is at most one link further away than the page that names it. */
  lemma DistOfTarget(web: Web, seed: Key, j: Key, k: Key)
    requires Reachable(web, seed, j) && k in web(j)
    ensures Reachable(web, seed, k) && Dist(web, seed, k) <= Dist(web, seed, j) + 1
  {
    assert Walk(web, seed, k, Dist(web, seed, j) + 1);
    DistAtMost(web, seed, k, Dist(web, seed, j) + 1);
  }

  // ----- the steps considered -----

  /** The step checks page `p` of site `s`. */
  predicate Takes(db: Db, step: Step, s: nat, p: nat) {
    && p in PagesOf(db, s)
    && ((step.CheckNext? && step.chosen == Some(p)) || (step.CheckOne? && step.page == p))
  }

  /** The step removes no page of site `s`. */
  ghost predicate Spares(db: Db, step: Step, s: nat) {
    match step
    case Reset(name) => NameUsed(db, name) ==> SiteNamed(db, name) != s
    case DeleteOne(p) => p !in PagesOf(db, s)
    case ExpungeRows(rows) => forall i :: 0 <= i < |rows| ==> rows[i] !in PagesOf(db, s)
    case _ => true
  }

  /** The answer to a check of `p` shows exactly the links the web has there. */
  predicate Serves(web: Web, db: Db, p: nat, reply: Reply)
    requires p in db.pages
  {
    (set k | k in Discovered(db, db.pages[p].site, reply)) == web(db.pages[p].key)
  }

  ghost predicate StaticStep(web: Web, s: nat, db: Db, step: Step) {
    && Spares(db, step, s)
    && forall p :: Takes(db, step, s, p) ==> Serves(web, db, p, step.reply)
  }

  /** Any run, started in a valid state, in which site `s` keeps its pages and its links. */
  ghost predicate StaticRun(web: Web, s: nat, states: seq<Db>, steps: seq<Step>) {
    && Run(states, steps) && Inv(states[0]) && s in states[0].sites
    && forall i :: 0 <= i < |steps| ==> StaticStep(web, s, states[i], steps[i])
  }

  /** Site `s` is as `init_site` and `reset_site` leave it: one unchecked page. */
  ghost predicate FreshSite(db: Db, s: nat, seed: Key) {
    exists p :: PagesOf(db, s) == {p} && db.pages[p].key == seed && !db.pages[p].isChecked
  }

  lemma InitIsFresh(db: Db, url: string, name: string)
    requires Inv(db) && InitOutcomeOf(db, url, name).Created?
    ensures var db' := InitSite(db, url, name);
            db.nextSite in db'.sites && FreshSite(db', db.nextSite, Key(SiteOf(url, name).path, ""))
  {
    var db' := InitSite(db, url, name);
    forall p | p in db.pages ensures db.pages[p].site != db.nextSite {
      assert RowOk(db, p);
    }
    assert PagesOf(db', db.nextSite) == {db.nextPage};
  }

  lemma ClearIsFresh(db: Db, s: nat)
    requires s in db.sites
    ensures FreshSite(ClearSite(db, s), s, KeyOf(db.sites[s].path))
  {
    var cleared := DeletePages(db, PagesOf(db, s));
    assert !Stored(cleared, s, KeyOf(db.sites[s].path));
    assert PagesOf(ClearSite(db, s), s) == {db.nextPage};
  }

  // ----- every step is quiet on the site or visits one of its pages -----

  predicate SameCheck(a: Page, b: Page) {
    a.key == b.key && a.isChecked == b.isChecked && a.checkedAt == b.checkedAt
    && a.status == b.status && a.createdAt == b.createdAt
  }

  /** The pages of site `s` are the same, apart from their flags. */
  ghost predicate Quiet(db: Db, db': Db, s: nat) {
    && PagesOf(db', s) == PagesOf(db, s)
    && forall p :: p in PagesOf(db, s) ==> SameCheck(db.pages[p], db'.pages[p])
  }

  ghost predicate Visit(web: Web, db: Db, db': Db, s: nat, p: nat) {
    && p in PagesOf(db, s)
    && exists ks :: CheckedPage(db, db', p, ks) && (set k | k in ks) == web(db.pages[p].key)
  }

  lemma CheckElsewhere(db: Db, p: nat, reply: Reply, s: nat)
    requires Inv(db) && p in db.pages && db.pages[p].site != s
    ensures Quiet(db, Check(db, p, reply), s)
  {
    var db' := Check(db, p, reply);
    CheckChanges(db, p, reply);
    var ks := Discovered(db, db.pages[p].site, reply);
    forall q ensures q in PagesOf(db', s) <==> q in PagesOf(db, s) {
      if q in db'.pages && q !in db.pages {
        assert FoundPage(db, db', db.pages[p].site, ks, q);
      }
    }
  }

  lemma {:induction false} ExpungeElsewhere(db: Db, rows: seq<nat>, s: nat)
    requires forall i :: 0 <= i < |rows| ==> rows[i] !in PagesOf(db, s)
    ensures Quiet(db, Expunge(db, rows), s) && Expunge(db, rows).sites == db.sites
  {
    if rows != [] {
      var n := |rows| - 1;
      ExpungeElsewhere(db, rows[..n], s);
      var mid := Expunge(db, rows[..n]);
      assert rows[n] !in PagesOf(mid, s);
      assert PagesOf(Delete(mid, rows[n]), s) == PagesOf(mid, s);
    }
  }

  /** A page of another site appears; this site does not notice. */
  lemma CreateElsewhere(db: Db, other: nat, k: Key, status: int, s: nat)
    requires db.nextPage !in db.pages && other != s
    ensures Quiet(db, CreatePage(db, other, k, status), s)
  {
    assert PagesOf(CreatePage(db, other, k, status), s) == PagesOf(db, s);
  }

  lemma InitElsewhere(db: Db, url: string, name: string, s: nat)
    requires Inv(db) && s in db.sites
    ensures Quiet(db, InitSite(db, url, name), s) && s in InitSite(db, url, name).sites
  {
    if InitOutcomeOf(db, url, name).Created? {
      NextPageIsFree(db);
      var site := SiteOf(url, name);
      SamePagesAreQuiet(db, AddSite(db, site), s);
      CreateElsewhere(AddSite(db, site), db.nextSite, Key(site.path, ""), -1, s);
    }
  }

  lemma ResetElsewhere(db: Db, name: string, s: nat)
    requires Inv(db) && s in db.sites && (NameUsed(db, name) ==> SiteNamed(db, name) != s)
    ensures Quiet(db, ResetSite(db, name), s) && s in ResetSite(db, name).sites
  {
    if NameUsed(db, name) {
      var other := SiteNamed(db, name);
      var cleared := DeletePages(db, PagesOf(db, other));
      NextPageIsFree(db);
      assert PagesOf(cleared, s) == PagesOf(db, s);
      CreateElsewhere(cleared, other, KeyOf(db.sites[other].path), 0, s);
    }
  }

  lemma ToggleIsQuiet(db: Db, p: nat, s: nat)
    requires p in db.pages
    ensures Quiet(db, Toggle(db, p), s) && Toggle(db, p).sites == db.sites
  {
    assert PagesOf(Toggle(db, p), s) == PagesOf(db, s);
  }

  lemma SamePagesAreQuiet(db: Db, db': Db, s: nat)
    requires db'.pages == db.pages
    ensures Quiet(db, db', s)
  {
  }

  lemma OtherStepIsQuiet(s: nat, db: Db, step: Step, db': Db)
    requires Inv(db) && s in db.sites
    requires Next(db, step, db') && Spares(db, step, s) && !step.CheckNext? && !step.CheckOne?
    ensures s in db'.sites && Quiet(db, db', s)
  {
    match step
    case Init(url, name) => InitElsewhere(db, url, name, s);
    case Reset(name) => ResetElsewhere(db, name, s);
    case ToggleLinkable(p) => ToggleIsQuiet(db, p, s);
    case DeleteOne(p) => DeleteElsewhere(db, p, s);
    case ExpungeRows(rows) => ExpungeElsewhere(db, rows, s);
    case _ => SamePagesAreQuiet(db, db', s);
  }

  lemma DeleteElsewhere(db: Db, p: nat, s: nat)
    requires p !in PagesOf(db, s)
    ensures Quiet(db, Delete(db, p), s) && Delete(db, p).sites == db.sites
  {
    assert PagesOf(Delete(db, p), s) == PagesOf(db, s);
  }

  lemma StepOnSite(web: Web, s: nat, db: Db, step: Step, db': Db)
    requires Inv(db) && s in db.sites
    requires Next(db, step, db') && StaticStep(web, s, db, step)
    ensures VisitsOrQuiet(web, s, db, step, db')
  {
    if step.CheckNext? {
      NextOnSite(web, s, db, step, db');
    } else if step.CheckOne? {
      OneOnSite(web, s, db, step, db');
    } else {
      OtherStepIsQuiet(s, db, step, db');
    }
  }

  /** The step visits the page it takes; taking none, it is quiet. */
  ghost predicate VisitsOrQuiet(web: Web, s: nat, db: Db, step: Step, db': Db) {
    && s in db'.sites
    && (forall p :: Takes(db, step, s, p) ==> Visit(web, db, db', s, p))
    && ((forall p :: !Takes(db, step, s, p)) ==> Quiet(db, db', s))
  }

  lemma TakenOnSite(web: Web, s: nat, db: Db, step: Step, c: nat)
    requires Inv(db) && s in db.sites && c in db.pages && (step.CheckNext? || step.CheckOne?)
    requires forall p :: Takes(db, step, s, p) <==> p == c && c in PagesOf(db, s)
    requires StaticStep(web, s, db, step)
    ensures VisitsOrQuiet(web, s, db, step, Check(db, c, step.reply))
  {
    CheckOnSite(web, s, db, c, step.reply, step);
  }

  lemma NextOnSite(web: Web, s: nat, db: Db, step: Step, db': Db)
    requires Inv(db) && s in db.sites && step.CheckNext?
    requires db' == CheckChosen(db, step.chosen, step.reply) && StaticStep(web, s, db, step)
    ensures VisitsOrQuiet(web, s, db, step, db')
  {
    if step.chosen.Some? && step.chosen.value in db.pages {
      TakenOnSite(web, s, db, step, step.chosen.value);
    } else {
      IdleOnSite(web, s, db, step);
    }
  }

  lemma IdleOnSite(web: Web, s: nat, db: Db, step: Step)
    requires s in db.sites && forall p :: !Takes(db, step, s, p)
    ensures VisitsOrQuiet(web, s, db, step, db)
  {
    SamePagesAreQuiet(db, db, s);
  }

  lemma OneOnSite(web: Web, s: nat, db: Db, step: Step, db': Db)
    requires Inv(db) && s in db.sites && step.CheckOne?
    requires Next(db, step, db') && StaticStep(web, s, db, step)
    ensures VisitsOrQuiet(web, s, db, step, db')
  {
    TakenOnSite(web, s, db, step, step.page);
  }

  lemma CheckOnSite(web: Web, s: nat, db: Db, p: nat, reply: Reply, step: Step)
    requires Inv(db) && p in db.pages
    requires Takes(db, step, s, p) ==> Serves(web, db, p, reply)
    requires p in PagesOf(db, s) ==> Takes(db, step, s, p)
    ensures Check(db, p, reply).sites == db.sites
    ensures Takes(db, step, s, p) ==> Visit(web, db, Check(db, p, reply), s, p)
    ensures p !in PagesOf(db, s) ==> Quiet(db, Check(db, p, reply), s)
  {
    CheckChanges(db, p, reply);
    if p !in PagesOf(db, s) {
      CheckElsewhere(db, p, reply, s);
    }
  }

  lemma {:induction false} StaticRunAt(web: Web, s: nat, states: seq<Db>, steps: seq<Step>, n: nat)
    requires StaticRun(web, s, states, steps) && n < |states|
    ensures Inv(states[n]) && s in states[n].sites
  {
    RunKeepsInv(states, steps, n);
    if n > 0 {
      StaticRunAt(web, s, states, steps, n - 1);
      StepOnSite(web, s, states[n - 1], steps[n - 1], states[n]);
    }
  }

  // ----- what a visit does -----

  ghost predicate IsVisit(db: Db, db': Db, s: nat, p: nat, targets: set<Key>) {
    && p in PagesOf(db, s) && p in PagesOf(db', s)
    && SameIdentity(db.pages[p], db'.pages[p]) && db'.pages[p].isChecked
    && (forall q :: q in PagesOf(db, s) && q != p ==> q in PagesOf(db', s) && db'.pages[q] == db.pages[q])
    && (forall q :: q in PagesOf(db', s) && q !in PagesOf(db, s) ==> NewTarget(db, db', s, targets, q))
    && (forall k :: k in targets ==> Stored(db', s, k))
  }

  ghost predicate NewTarget(db: Db, db': Db, s: nat, targets: set<Key>, q: nat)
    requires q in db'.pages
  {
    && !db'.pages[q].isChecked && db.clock < db'.pages[q].createdAt
    && db'.pages[q].key in targets && !Stored(db, s, db'.pages[q].key)
  }

  lemma VisitIs(web: Web, db: Db, db': Db, s: nat, p: nat)
    requires Visit(web, db, db', s, p)
    ensures IsVisit(db, db', s, p, web(db.pages[p].key))
  {
    var ks :| CheckedPage(db, db', p, ks) && (set k | k in ks) == web(db.pages[p].key);
    forall k | k in web(db.pages[p].key) ensures Stored(db', s, k) {
      assert k in ks;
    }
    forall q | q in PagesOf(db', s) && q !in PagesOf(db, s)
      ensures NewTarget(db, db', s, web(db.pages[p].key), q)
    {
      assert q !in db.pages;
      assert FoundPage(db, db', s, ks, q);
    }
  }

  // ----- soundness and completeness -----

  /** Everything stored is reachable, and whatever a checked page names is stored. */
  ghost predicate CrawlOk(web: Web, seed: Key, db: Db, s: nat) {
    && Stored(db, s, seed)
    && (forall p :: p in PagesOf(db, s) ==> Reachable(web, seed, db.pages[p].key))
    && (forall p, k :: p in PagesOf(db, s) && db.pages[p].isChecked && k in web(db.pages[p].key) ==> Stored(db, s, k))
  }

  lemma FreshIsOk(web: Web, db: Db, s: nat, seed: Key)
    requires FreshSite(db, s, seed)
    ensures CrawlOk(web, seed, db, s)
  {
    var p :| PagesOf(db, s) == {p} && db.pages[p].key == seed && !db.pages[p].isChecked;
    assert p in PagesOf(db, s);
    assert StoredAs(db, s, seed, p);
    assert Walk(web, seed, seed, 0);
  }

  lemma KeptStored(db: Db, db': Db, s: nat, k: Key)
    requires forall p :: p in PagesOf(db, s) ==> p in PagesOf(db', s) && db'.pages[p].key == db.pages[p].key
    requires Stored(db, s, k)
    ensures Stored(db', s, k)
  {
    var p := Lookup(db, s, k);
    assert p in PagesOf(db, s);
    assert StoredAs(db', s, k, p);
  }

  lemma QuietIsOk(web: Web, seed: Key, db: Db, db': Db, s: nat)
    requires CrawlOk(web, seed, db, s) && Quiet(db, db', s)
    ensures CrawlOk(web, seed, db', s)
  {
    forall k | Stored(db, s, k) ensures Stored(db', s, k) {
      KeptStored(db, db', s, k);
    }
  }

  lemma VisitIsOk(web: Web, seed: Key, db: Db, db': Db, s: nat, p: nat)
    requires CrawlOk(web, seed, db, s)
    requires p in db.pages && IsVisit(db, db', s, p, web(db.pages[p].key))
    ensures CrawlOk(web, seed, db', s)
  {
    var targets := web(db.pages[p].key);
    forall k | Stored(db, s, k) ensures Stored(db', s, k) {
      KeptStored(db, db', s, k);
    }
    forall q | q in PagesOf(db', s) ensures Reachable(web, seed, db'.pages[q].key) {
      if q !in PagesOf(db, s) {
        assert NewTarget(db, db', s, targets, q);
        DistOfTarget(web, seed, db.pages[p].key, db'.pages[q].key);
      }
    }
    forall q, k | q in PagesOf(db', s) && db'.pages[q].isChecked && k in web(db'.pages[q].key)
      ensures Stored(db', s, k)
    {
      assert q in PagesOf(db, s) || NewTarget(db, db', s, targets, q);
    }
  }

  lemma StepIsOk(web: Web, seed: Key, s: nat, db: Db, step: Step, db': Db)
    requires Inv(db) && s in db.sites && CrawlOk(web, seed, db, s)
    requires Next(db, step, db') && StaticStep(web, s, db, step)
    ensures s in db'.sites && CrawlOk(web, seed, db', s)
  {
    StepOnSite(web, s, db, step, db');
    if p :| Takes(db, step, s, p) {
      VisitIs(web, db, db', s, p);
      VisitIsOk(web, seed, db, db', s, p);
    } else {
      QuietIsOk(web, seed, db, db', s);
    }
  }

  lemma {:induction false} CrawlStaysOk(web: Web, s: nat, seed: Key, states: seq<Db>, steps: seq<Step>, n: nat)
    requires StaticRun(web, s, states, steps) && FreshSite(states[0], s, seed) && n < |states|
    ensures Inv(states[n]) && s in states[n].sites && CrawlOk(web, seed, states[n], s)
  {
    StaticRunAt(web, s, states, steps, n);
    if n == 0 {
      FreshIsOk(web, states[0], s, seed);
    } else {
      var i := n - 1;
      CrawlStaysOk(web, s, seed, states, steps, i);
      assert Next(states[i], steps[i], states[i + 1]);
      StepIsOk(web, seed, s, states[i], steps[i], states[n]);
    }
  }

  /** If every stored page has been checked, every key within reach is stored. */
  lemma {:induction false} WalkIsStored(web: Web, seed: Key, db: Db, s: nat, k: Key, n: nat)
    requires CrawlOk(web, seed, db, s) && Unchecked(db, s) == {}
    requires Walk(web, seed, k, n)
    ensures Stored(db, s, k)
    decreases n
  {
    if n > 0 {
      var j :| Walk(web, seed, j, n - 1) && k in web(j);
      WalkIsStored(web, seed, db, s, j, n - 1);
      var p := Lookup(db, s, j);
      assert p in PagesOf(db, s) && p !in Unchecked(db, s);
    }
  }

  /**
   Soundness and completeness: along any such run every stored key is reachable
   from the seed, and once no unchecked page remains the stored keys are exactly
   the reachable ones, whatever the pages' flags.
   */
  lemma CrawlReachesExactly(web: Web, s: nat, seed: Key, states: seq<Db>, steps: seq<Step>, n: nat)
    requires StaticRun(web, s, states, steps) && FreshSite(states[0], s, seed) && n < |states|
    ensures forall k :: Stored(states[n], s, k) ==> Reachable(web, seed, k)
    ensures Unchecked(states[n], s) == {} ==> forall k :: Reachable(web, seed, k) ==> Stored(states[n], s, k)
  {
    CrawlStaysOk(web, s, seed, states, steps, n);
    var db := states[n];
    forall k | Stored(db, s, k) ensures Reachable(web, seed, k) {
      assert Lookup(db, s, k) in PagesOf(db, s);
    }
    if Unchecked(db, s) == {} {
      forall k | Reachable(web, seed, k) ensures Stored(db, s, k) {
        WalkIsStored(web, seed, db, s, k, Dist(web, seed, k));
      }
    }
  }
}
