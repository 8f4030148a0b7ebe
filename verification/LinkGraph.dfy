/** The links that a crawl stores are the links of the web it crawls. */
module LinkGraph {
  import opened Options
  import opened Tables
  import opened Checks
  import opened Frontier
  import opened Steps
  import opened Machine
  import opened Crawl
  import Expunging
  import Restart

  /** The linkable pages stored under the targets that the web has at page `p`. */
  function WebTargets(web: Web, db: Db, s: nat, p: nat): set<nat>
    requires p in db.pages
  {
    set q | q in PagesOf(db, s) && db.pages[q].isLinkable && db.pages[q].key in web(db.pages[p].key)
  }

  /** A page links to exactly those once it is checked, and to nothing before. */
  ghost predicate LinksShown(web: Web, db: Db, s: nat) {
    forall p :: p in PagesOf(db, s) ==> PageShown(web, db, s, p)
  }

  ghost predicate PageShown(web: Web, db: Db, s: nat, p: nat)
    requires p in db.pages
  {
    Outgoing(db, p) == if db.pages[p].isChecked then WebTargets(web, db, s, p) else {}
  }

  /** The step flips no flag of the site. */
  ghost predicate KeepsFlags(db: Db, step: Step, s: nat) {
    step.ToggleLinkable? ==> step.page !in PagesOf(db, s)
  }

  // ----- steps elsewhere -----

  /** The pages of the site and their outgoing links are the same. */
  ghost predicate Untouched(db: Db, db': Db, s: nat) {
    && PagesOf(db', s) == PagesOf(db, s)
    && forall p :: p in PagesOf(db, s) ==> db'.pages[p] == db.pages[p] && Outgoing(db', p) == Outgoing(db, p)
  }

  lemma UntouchedKeepsShown(web: Web, db: Db, db': Db, s: nat)
    requires LinksShown(web, db, s) && Untouched(db, db', s)
    ensures LinksShown(web, db', s)
  {
    forall p | p in PagesOf(db', s) ensures PageShown(web, db', s, p) {
      assert PageShown(web, db, s, p);
      assert WebTargets(web, db', s, p) == WebTargets(web, db, s, p);
    }
  }

  lemma SameRowsUntouched(db: Db, db': Db, s: nat)
    requires PagesOf(db', s) == PagesOf(db, s) && forall p :: p in PagesOf(db, s) ==> db'.pages[p] == db.pages[p]
    requires forall l: Link :: l.source in PagesOf(db, s) ==> (l in db'.links <==> l in db.links)
    ensures Untouched(db, db', s)
  {
    forall p | p in PagesOf(db, s) ensures Outgoing(db', p) == Outgoing(db, p) {
      SameOutgoing(db, db', p);
    }
  }

  lemma InitUntouched(db: Db, url: string, name: string, s: nat)
    requires Inv(db) && s in db.sites
    ensures Untouched(db, InitSite(db, url, name), s)
  {
    if InitOutcomeOf(db, url, name).Created? {
      var site := SiteOf(url, name);
      NextPageIsFree(db);
      CreateUntouched(AddSite(db, site), db.nextSite, Key(site.path, ""), -1, s);
      AsideUntouched(db, AddSite(db, site), s);
    } else {
      AsideUntouched(db, db, s);
    }
  }

  lemma CreateUntouched(db: Db, other: nat, k: Key, status: int, s: nat)
    requires db.nextPage !in db.pages && other != s
    ensures Untouched(db, CreatePage(db, other, k, status), s)
  {
    SameRowsUntouched(db, CreatePage(db, other, k, status), s);
  }

  lemma ResetUntouched(db: Db, name: string, s: nat)
    requires Inv(db) && (NameUsed(db, name) ==> SiteNamed(db, name) != s)
    ensures Untouched(db, ResetSite(db, name), s)
  {
    if NameUsed(db, name) {
      Restart.ResetIsIsolated(db, name, s);
      var db' := ResetSite(db, name);
      assert forall p :: p in PagesOf(db, s) ==> Restart.SamePageRows(db, db', p);
    }
  }

  lemma ToggleUntouched(db: Db, p: nat, s: nat)
    requires Inv(db) && p in db.pages && p !in PagesOf(db, s)
    ensures Untouched(db, Toggle(db, p), s)
  {
    forall l: Link | l in db.links && l.source in PagesOf(db, s) ensures l.target != p {
      assert LinkOk(db, l);
    }
    SameRowsUntouched(db, Toggle(db, p), s);
  }

  lemma DeleteUntouched(db: Db, p: nat, s: nat)
    requires Inv(db) && p !in PagesOf(db, s)
    ensures Untouched(db, Delete(db, p), s)
  {
    forall l: Link | l in db.links && l.source in PagesOf(db, s) ensures l.target != p {
      assert LinkOk(db, l);
    }
    SameRowsUntouched(db, Delete(db, p), s);
  }

  lemma {:induction false} ExpungeUntouched(db: Db, rows: seq<nat>, s: nat)
    requires Inv(db) && forall i :: 0 <= i < |rows| ==> rows[i] !in PagesOf(db, s)
    ensures Untouched(db, Expunge(db, rows), s)
  {
    if rows != [] {
      var n := |rows| - 1;
      ExpungeUntouched(db, rows[..n], s);
      ExpungeKeepsInv(db, rows[..n]);
      DeleteUntouched(Expunge(db, rows[..n]), rows[n], s);
    }
  }

  lemma AsideUntouched(db: Db, db': Db, s: nat)
    requires db'.pages == db.pages && db'.links == db.links
    ensures Untouched(db, db', s)
  {
    SameRowsUntouched(db, db', s);
  }

  lemma CheckUntouched(db: Db, p: nat, reply: Reply, s: nat)
    requires Inv(db) && p in db.pages && db.pages[p].site != s
    ensures Untouched(db, Check(db, p, reply), s)
  {
    CheckElsewhere(db, p, reply, s);
    CheckChanges(db, p, reply);
    CheckKeepsOtherLinks(db, p, reply);
  }

  /** Steps other than checks, and checks of other sites, leave the site untouched. */
  lemma OtherStepUntouched(s: nat, db: Db, step: Step, db': Db)
    requires Inv(db) && s in db.sites
    requires Next(db, step, db') && Spares(db, step, s) && KeepsFlags(db, step, s)
    requires !step.CheckNext? && !step.CheckOne?
    ensures Untouched(db, db', s)
  {
    match step
    case Init(url, name) => InitUntouched(db, url, name, s);
    case Reset(name) => ResetUntouched(db, name, s);
    case ToggleLinkable(p) => ToggleUntouched(db, p, s);
    case DeleteOne(p) => DeleteUntouched(db, p, s);
    case ExpungeRows(rows) => ExpungeUntouched(db, rows, s);
    case _ => AsideUntouched(db, db', s);
  }

  // ----- a check of the site -----

  /** The checked page links to exactly what the web has there. */
  lemma CheckedIsShown(web: Web, db: Db, c: nat, reply: Reply, s: nat)
    requires Inv(db) && c in PagesOf(db, s) && Serves(web, db, c, reply) && PageShown(web, db, s, c)
    ensures var db' := Check(db, c, reply); c in db'.pages && PageShown(web, db', s, c)
  {
    var db', ks := Check(db, c, reply), Discovered(db, s, reply);
    CheckChanges(db, c, reply);
    CheckOutgoing(db, c, reply);
    NamedAreTargets(web, db', s, c, ks);
    if !Expands(db, s, reply) {
      NothingNamed(web, db, s, c);
    }
  }

  lemma NamedAreTargets(web: Web, db: Db, s: nat, p: nat, ks: seq<Key>)
    requires p in db.pages && (set k | k in ks) == web(db.pages[p].key)
    ensures LinkableTargets(db, s, ks) == WebTargets(web, db, s, p)
  {
    assert forall k :: k in ks <==> k in web(db.pages[p].key);
  }

  lemma NothingNamed(web: Web, db: Db, s: nat, p: nat)
    requires p in db.pages && web(db.pages[p].key) == {} && PageShown(web, db, s, p)
    ensures Outgoing(db, p) == {}
  {
  }

  /** Other checked pages keep theirs: what the check discovers is new to them. */
  lemma OthersStayShown(web: Web, seed: Key, db: Db, c: nat, reply: Reply, s: nat, p: nat)
    requires Inv(db) && CrawlOk(web, seed, db, s) && c in PagesOf(db, s)
    requires p in PagesOf(db, s) && p != c && PageShown(web, db, s, p)
    ensures var db' := Check(db, c, reply); p in db'.pages && PageShown(web, db', s, p)
  {
    var db' := Check(db, c, reply);
    CheckChanges(db, c, reply);
    CheckKeepsOtherLinks(db, c, reply);
    if db.pages[p].isChecked {
      forall q ensures q in WebTargets(web, db', s, p) <==> q in WebTargets(web, db, s, p) {
        if q in db'.pages && q !in db.pages {
          assert FoundPage(db, db', s, Discovered(db, s, reply), q);
        }
      }
    }
  }

  lemma FoundIsShown(web: Web, db: Db, c: nat, reply: Reply, s: nat, p: nat)
    requires Inv(db) && c in PagesOf(db, s) && p in Check(db, c, reply).pages && p !in db.pages
    ensures PageShown(web, Check(db, c, reply), s, p)
  {
    CheckChanges(db, c, reply);
    CheckKeepsOtherLinks(db, c, reply);
    assert FoundPage(db, Check(db, c, reply), s, Discovered(db, s, reply), p);
    forall l | l in db.links ensures l.source != p {
      assert LinkOk(db, l);
    }
    assert Outgoing(db, p) == {};
  }

  lemma CheckKeepsShown(web: Web, seed: Key, db: Db, c: nat, reply: Reply, s: nat)
    requires Inv(db) && CrawlOk(web, seed, db, s) && LinksShown(web, db, s)
    requires c in PagesOf(db, s) && Serves(web, db, c, reply)
    ensures LinksShown(web, Check(db, c, reply), s)
  {
    var db' := Check(db, c, reply);
    CheckChanges(db, c, reply);
    forall p | p in PagesOf(db', s) ensures PageShown(web, db', s, p) {
      if p == c {
        CheckedIsShown(web, db, c, reply, s);
      } else if p in db.pages {
        OthersStayShown(web, seed, db, c, reply, s, p);
      } else {
        FoundIsShown(web, db, c, reply, s, p);
      }
    }
  }

  lemma AnyCheckKeepsShown(web: Web, seed: Key, s: nat, db: Db, step: Step, c: nat)
    requires Inv(db) && CrawlOk(web, seed, db, s) && LinksShown(web, db, s) && c in db.pages
    requires step.CheckNext? || step.CheckOne?
    requires c in PagesOf(db, s) ==> Serves(web, db, c, step.reply)
    ensures LinksShown(web, Check(db, c, step.reply), s)
  {
    if c in PagesOf(db, s) {
      CheckKeepsShown(web, seed, db, c, step.reply, s);
    } else {
      CheckUntouched(db, c, step.reply, s);
      UntouchedKeepsShown(web, db, Check(db, c, step.reply), s);
    }
  }

  lemma StepKeepsShown(web: Web, seed: Key, s: nat, db: Db, step: Step, db': Db)
    requires Inv(db) && s in db.sites && CrawlOk(web, seed, db, s) && LinksShown(web, db, s)
    requires Next(db, step, db') && StaticStep(web, s, db, step) && KeepsFlags(db, step, s)
    ensures LinksShown(web, db', s)
  {
    if step.CheckNext? {
      if step.chosen.Some? && step.chosen.value in db.pages {
        assert step.chosen.value in PagesOf(db, s) ==> Takes(db, step, s, step.chosen.value);
        AnyCheckKeepsShown(web, seed, s, db, step, step.chosen.value);
      }
    } else if step.CheckOne? {
      assert step.page in PagesOf(db, s) ==> Takes(db, step, s, step.page);
      AnyCheckKeepsShown(web, seed, s, db, step, step.page);
    } else {
      OtherStepUntouched(s, db, step, db');
      UntouchedKeepsShown(web, db, db', s);
    }
  }

  // ----- along a run -----

  /** No link leaves a page of the site. */
  ghost predicate Unlinked(db: Db, s: nat) {
    forall l :: l in db.links ==> l.source !in PagesOf(db, s)
  }

  lemma FreshIsShown(web: Web, db: Db, s: nat, seed: Key)
    requires FreshSite(db, s, seed) && Unlinked(db, s)
    ensures LinksShown(web, db, s)
  {
    forall p | p in PagesOf(db, s) ensures PageShown(web, db, s, p) {
      assert Outgoing(db, p) == {};
    }
  }

  /** New and reset sites start without links. */
  lemma InitIsUnlinked(db: Db, url: string, name: string)
    requires Inv(db) && InitOutcomeOf(db, url, name).Created?
    ensures Unlinked(InitSite(db, url, name), db.nextSite)
  {
    NextPageIsFree(db);
    forall l | l in db.links ensures l.source !in PagesOf(InitSite(db, url, name), db.nextSite) {
      assert LinkOk(db, l) && RowOk(db, l.source);
    }
  }

  lemma ResetIsUnlinked(db: Db, name: string)
    requires Inv(db) && NameUsed(db, name)
    ensures Unlinked(ResetSite(db, name), SiteNamed(db, name))
  {
    var p := Restart.ResetIsFresh(db, name);
  }

  lemma {:induction false} LinksStayShown(web: Web, s: nat, seed: Key, states: seq<Db>, steps: seq<Step>, n: nat)
    requires StaticRun(web, s, states, steps) && FreshSite(states[0], s, seed) && Unlinked(states[0], s)
    requires forall i :: 0 <= i < |steps| ==> KeepsFlags(states[i], steps[i], s)
    requires n < |states|
    ensures LinksShown(web, states[n], s)
  {
    if n == 0 {
      FreshIsShown(web, states[0], s, seed);
    } else {
      var i := n - 1;
      LinksStayShown(web, s, seed, states, steps, i);
      CrawlStaysOk(web, s, seed, states, steps, i);
      assert Next(states[i], steps[i], states[i + 1]);
      StepKeepsShown(web, seed, s, states[i], steps[i], states[i + 1]);
    }
  }

  /**
   Along any crawl of a site that keeps its flags, the links out of a checked page are
   those the web has there, to the linkable pages; an unchecked page has none.  So once
   no unchecked page remains, the stored links are the web's links between reachable keys.
   */
  lemma CrawlStoresLinks(web: Web, s: nat, seed: Key, states: seq<Db>, steps: seq<Step>, n: nat)
    requires StaticRun(web, s, states, steps) && FreshSite(states[0], s, seed) && Unlinked(states[0], s)
    requires forall i :: 0 <= i < |steps| ==> KeepsFlags(states[i], steps[i], s)
    requires n < |states|
    ensures var db := states[n];
            && (forall p, q :: p in PagesOf(db, s) && q in PagesOf(db, s) ==>
                  (Link(p, q) in db.links <==> db.pages[p].isChecked && db.pages[q].isLinkable
                                               && db.pages[q].key in web(db.pages[p].key)))
            && (Unchecked(db, s) == {} ==>
                  forall j, k :: Reachable(web, seed, j) && k in web(j) ==> Linked(db, s, j, k))
  {
    var db := states[n];
    LinksStayShown(web, s, seed, states, steps, n);
    forall p, q | p in PagesOf(db, s) && q in PagesOf(db, s)
      ensures Link(p, q) in db.links <==> db.pages[p].isChecked && db.pages[q].isLinkable
                                          && db.pages[q].key in web(db.pages[p].key)
    {
      assert PageShown(web, db, s, p);
      assert Link(p, q) in db.links <==> q in Outgoing(db, p);
    }
    if Unchecked(db, s) == {} {
      CrawlReachesExactly(web, s, seed, states, steps, n);
      forall j, k | Reachable(web, seed, j) && k in web(j) ensures Linked(db, s, j, k) {
        DistOfTarget(web, seed, j, k);
        var p, q := Lookup(db, s, j), Lookup(db, s, k);
        assert p in PagesOf(db, s) && p !in Unchecked(db, s);
      }
    }
  }

  /** Both keys are stored, with a link between their pages if the second is linkable. */
  ghost predicate Linked(db: Db, s: nat, j: Key, k: Key) {
    exists p, q :: StoredAs(db, s, j, p) && StoredAs(db, s, k, q)
                   && (Link(p, q) in db.links <==> db.pages[q].isLinkable)
  }

  // ----- a page that is not to be linked -----

  /** Where both stores have the page, its flag is the same; and it has not come back. */
  ghost predicate FlagKept(db: Db, db': Db, p: nat) {
    p in db'.pages && p < db.nextPage ==> p in db.pages && db'.pages[p].isLinkable == db.pages[p].isLinkable
  }

  lemma CreateKeepsFlag(db: Db, s: nat, k: Key, status: int, p: nat)
    ensures FlagKept(db, CreatePage(db, s, k, status), p)
  {
  }

  lemma InitKeepsFlag(db: Db, url: string, name: string, p: nat)
    ensures FlagKept(db, InitSite(db, url, name), p)
  {
    var site := SiteOf(url, name);
    CreateKeepsFlag(AddSite(db, site), db.nextSite, Key(site.path, ""), -1, p);
  }

  lemma ResetKeepsFlag(db: Db, name: string, p: nat)
    ensures FlagKept(db, ResetSite(db, name), p)
  {
    if NameUsed(db, name) {
      var s := SiteNamed(db, name);
      CreateKeepsFlag(DeletePages(db, PagesOf(db, s)), s, KeyOf(db.sites[s].path), 0, p);
    }
  }

  lemma CheckKeepsFlag(db: Db, c: nat, reply: Reply, p: nat)
    requires Inv(db) && c in db.pages
    ensures FlagKept(db, Check(db, c, reply), p)
  {
    var db' := Check(db, c, reply);
    CheckChanges(db, c, reply);
    if p in db'.pages && p !in db.pages {
      assert FoundPage(db, db', db.pages[c].site, Discovered(db, db.pages[c].site, reply), p);
    }
  }

  lemma ExpungeKeepsFlag(db: Db, rows: seq<nat>, p: nat)
    requires Inv(db)
    ensures FlagKept(db, Expunge(db, rows), p)
  {
    Expunging.ExpungePrunes(db, rows);
  }

  lemma SmallStepKeepsFlag(db: Db, step: Step, db': Db, p: nat)
    requires Next(db, step, db') && step != ToggleLinkable(p)
    requires step.ToggleLinkable? || step.DeleteOne? || step.Schedule? || step.Unscheduled? || step.Waited?
    ensures FlagKept(db, db', p)
  {
  }

  lemma StepKeepsFlag(db: Db, step: Step, db': Db, p: nat)
    requires Inv(db) && Next(db, step, db') && step != ToggleLinkable(p)
    ensures FlagKept(db, db', p)
  {
    match step
    case Init(url, name) => InitKeepsFlag(db, url, name, p);
    case Reset(name) => ResetKeepsFlag(db, name, p);
    case CheckNext(_, _, chosen, reply) =>
      if chosen.Some? && chosen.value in db.pages { CheckKeepsFlag(db, chosen.value, reply, p); }
    case CheckOne(c, reply) => CheckKeepsFlag(db, c, reply, p);
    case ExpungeRows(rows) => ExpungeKeepsFlag(db, rows, p);
    case _ => SmallStepKeepsFlag(db, step, db', p);
  }

  lemma {:induction false} StaysUnlinkable(states: seq<Db>, steps: seq<Step>, i: nat, j: nat, p: nat)
    requires Run(states, steps) && Inv(states[0]) && i < j <= |steps| && p in states[i].pages
    requires steps[i] == ToggleLinkable(p) && states[i].pages[p].isLinkable
    requires forall k :: i < k < j ==> steps[k] != ToggleLinkable(p)
    ensures p < states[j].nextPage && (p in states[j].pages ==> !states[j].pages[p].isLinkable)
  {
    var n := j - 1;
    RunKeepsInv(states, steps, n);
    assert Next(states[n], steps[n], states[n + 1]);
    if i < n {
      StaysUnlinkable(states, steps, i, n, p);
      StepKeepsFlag(states[n], steps[n], states[n + 1], p);
      NextAges(states[n], steps[n], states[n + 1]);
    } else {
      assert RowOk(states[i], p);
    }
  }

  /**
   After a linkable page was toggled no link leads to it, in any later state of any
   run, whatever the checks find, until it is toggled again.
   */
  lemma ToggledStaysUnlinked(states: seq<Db>, steps: seq<Step>, i: nat, j: nat, p: nat)
    requires Run(states, steps) && Inv(states[0]) && i < j <= |steps| && p in states[i].pages
    requires steps[i] == ToggleLinkable(p) && states[i].pages[p].isLinkable
    requires forall k :: i < k < j ==> steps[k] != ToggleLinkable(p)
    ensures forall l :: l in states[j].links ==> l.target != p
  {
    StaysUnlinkable(states, steps, i, j, p);
    RunKeepsInv(states, steps, j);
    forall l | l in states[j].links ensures l.target != p {
      assert LinkOk(states[j], l);
    }
  }
}
