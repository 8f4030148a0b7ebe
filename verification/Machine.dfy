/** The crawler as a state machine, and what every run of it keeps. */
module Machine {
  import opened Options
  import opened Tables
  import opened Checks
  import opened Frontier
  import opened Steps

  datatype Step =
    | Init(url: string, name: string)
    | Reset(name: string)
    | CheckNext(site: nat, coin: bool, chosen: Option<nat>, reply: Reply)
    | CheckOne(page: nat, reply: Reply)
    | ToggleLinkable(page: nat)
    | DeleteOne(page: nat)
    | ExpungeRows(rows: seq<nat>)
    | Schedule(page: nat, rotation: int)
    | Unscheduled(page: nat)
    | Waited(time: nat)

  /** One step, by any actor, in any order. */
  ghost predicate Next(db: Db, step: Step, db': Db) {
    match step
    case Init(url, name) => db' == InitSite(db, url, name)
    case Reset(name) => db' == ResetSite(db, name)
    case CheckNext(s, coin, chosen, reply) =>
      NextPage(db, s, coin, chosen) && db' == CheckChosen(db, chosen, reply)
    case CheckOne(p, reply) => p in db.pages && db' == Check(db, p, reply)
    case ToggleLinkable(p) => p in db.pages && db' == Toggle(db, p)
    case DeleteOne(p) => p in db.pages && db' == Delete(db, p)
    case ExpungeRows(rows) => Selection(db, rows) && db' == Expunge(db, rows)
    case Schedule(p, rotation) => p in db.pages && db' == SchedulePage(db, p, rotation)
    case Unscheduled(p) => db' == Unschedule(db, p)
    case Waited(time) => db' == Wait(db, time)
  }

  ghost function CheckChosen(db: Db, chosen: Option<nat>, reply: Reply): Db {
    if chosen.Some? && chosen.value in db.pages then Check(db, chosen.value, reply) else db
  }

  /** A run: each state follows from the one before by the step in between. */
  ghost predicate Run(states: seq<Db>, steps: seq<Step>) {
    && |states| == |steps| + 1
    && forall i :: 0 <= i < |steps| ==> Next(states[i], steps[i], states[i + 1])
  }

  lemma NextKeepsInv(db: Db, step: Step, db': Db)
    requires Inv(db) && Next(db, step, db')
    ensures Inv(db')
  {
    match step
    case Init(url, name) => InitSiteKeepsInv(db, url, name);
    case Reset(name) => ResetSiteKeepsInv(db, name);
    case CheckNext(s, coin, chosen, reply) =>
      if chosen.Some? && chosen.value in db.pages { CheckKeepsInv(db, chosen.value, reply); }
    case CheckOne(p, reply) => CheckKeepsInv(db, p, reply);
    case ToggleLinkable(p) => ToggleKeepsInv(db, p);
    case DeleteOne(p) => DeletePagesKeepsInv(db, {p});
    case ExpungeRows(rows) => ExpungeKeepsInv(db, rows);
    case Schedule(p, rotation) => ScheduleKeepsInv(db, p, rotation);
    case Unscheduled(p) => AsideKeepsInv(db, db');
    case Waited(time) => AsideKeepsInv(db, db');
  }

  lemma {:induction false} RunKeepsInv(states: seq<Db>, steps: seq<Step>, n: nat)
    requires Run(states, steps) && Inv(states[0]) && n < |states|
    ensures Inv(states[n])
  {
    if n > 0 {
      RunKeepsInv(states, steps, n - 1);
      NextKeepsInv(states[n - 1], steps[n - 1], states[n]);
    }
  }

  /** Every state of every run from the empty database satisfies every constraint. */
  lemma EveryRunIsValid(states: seq<Db>, steps: seq<Step>)
    requires Run(states, steps) && states[0] == EMPTY
    ensures forall n :: 0 <= n < |states| ==> Inv(states[n])
  {
    forall n | 0 <= n < |states| ensures Inv(states[n]) {
      RunKeepsInv(states, steps, n);
    }
  }

  // ----- time and identifiers only move forwards -----

  /**
   `db'` is a later state than `db`: the clock and the identifiers have not gone
   back, sites are as they were, and a page known to both was not checked earlier
   in the later one.
   */
  ghost predicate Ages(db: Db, db': Db) {
    && db.clock <= db'.clock && db.nextPage <= db'.nextPage
    && (forall s :: s in db.sites ==> s in db'.sites && db'.sites[s] == db.sites[s])
    && (forall p :: p in db'.pages && p < db.nextPage ==>
          p in db.pages
          && db'.pages[p].site == db.pages[p].site
          && db'.pages[p].key == db.pages[p].key
          && db'.pages[p].createdAt == db.pages[p].createdAt
          && db.pages[p].checkedAt <= db'.pages[p].checkedAt)
  }

  lemma AgesOn(a: Db, b: Db, c: Db)
    requires Ages(a, b) && Ages(b, c)
    ensures Ages(a, c)
  {
  }

  lemma CheckedPageAges(db: Db, db': Db, p: nat, ks: seq<Key>)
    requires CheckedPage(db, db', p, ks) && db.pages[p].checkedAt <= db.clock
    ensures Ages(db, db')
  {
    forall q | q in db'.pages && q < db.nextPage ensures q in db.pages {
      assert q !in db.pages ==> FoundPage(db, db', db.pages[p].site, ks, q);
    }
  }

  lemma CheckAges(db: Db, p: nat, reply: Reply)
    requires Inv(db) && p in db.pages
    ensures Ages(db, Check(db, p, reply))
  {
    CheckChanges(db, p, reply);
    assert RowOk(db, p);
    CheckedPageAges(db, Check(db, p, reply), p, Discovered(db, db.pages[p].site, reply));
  }

  lemma {:induction false} ExpungeAges(db: Db, rows: seq<nat>)
    ensures Ages(db, Expunge(db, rows))
  {
    if rows != [] {
      ExpungeAges(db, rows[..|rows| - 1]);
      AgesOn(db, Expunge(db, rows[..|rows| - 1]), Expunge(db, rows));
    }
  }

  lemma InitAges(db: Db, url: string, name: string)
    requires SitesOk(db)
    ensures Ages(db, InitSite(db, url, name))
  {
  }

  lemma ResetAges(db: Db, name: string)
    ensures Ages(db, ResetSite(db, name))
  {
    if NameUsed(db, name) {
      var s := SiteNamed(db, name);
      var cleared := DeletePages(db, PagesOf(db, s));
      AgesOn(db, cleared, AddPage(cleared, s, KeyOf(db.sites[s].path)));
    }
  }

  lemma ToggleAges(db: Db, p: nat)
    requires p in db.pages
    ensures Ages(db, Toggle(db, p))
  {
  }

  lemma AsideAges(db: Db, db': Db)
    requires db' == db.(scheduled := db'.scheduled, clock := db'.clock) && db.clock <= db'.clock
    ensures Ages(db, db')
  {
  }

  /** A step that touches one existing page, a schedule or the clock. */
  lemma SmallStepAges(db: Db, step: Step, db': Db)
    requires Next(db, step, db')
    requires step.ToggleLinkable? || step.DeleteOne? || step.Schedule? || step.Unscheduled? || step.Waited?
    ensures Ages(db, db')
  {
    match step
    case ToggleLinkable(p) => ToggleAges(db, p);
    case DeleteOne(p) => DeleteAges(db, p);
    case _ => AsideAges(db, db');
  }

  lemma DeleteAges(db: Db, p: nat)
    ensures Ages(db, Delete(db, p))
  {
  }

  lemma NextAges(db: Db, step: Step, db': Db)
    requires Inv(db) && Next(db, step, db')
    ensures Ages(db, db')
  {
    match step
    case Init(url, name) => InitAges(db, url, name);
    case Reset(name) => ResetAges(db, name);
    case CheckNext(s, coin, chosen, reply) =>
      if chosen.Some? && chosen.value in db.pages { CheckAges(db, chosen.value, reply); }
    case CheckOne(p, reply) => CheckAges(db, p, reply);
    case ExpungeRows(rows) => ExpungeAges(db, rows);
    case _ => SmallStepAges(db, step, db');
  }

  lemma StepAges(first: Db, db: Db, step: Step, db': Db)
    requires Ages(first, db) && Inv(db) && Next(db, step, db')
    ensures Ages(first, db')
  {
    NextAges(db, step, db');
    AgesOn(first, db, db');
  }

  /** Along any run, every later state is older in every respect. */
  lemma {:induction false} RunAges(states: seq<Db>, steps: seq<Step>, i: nat, j: nat)
    requires Run(states, steps) && i <= j < |states|
    requires Inv(states[0])
    ensures Ages(states[i], states[j])
  {
    if i < j {
      var n := j - 1;
      RunAges(states, steps, i, n);
      RunKeepsInv(states, steps, n);
      StepAges(states[i], states[n], steps[n], states[n + 1]);
    }
  }
}
