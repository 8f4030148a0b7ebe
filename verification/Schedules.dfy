/** How long an overdue page waits while the scheduled branch serves others. */
module Schedules {
  import opened Options
  import opened Tables
  import opened Checks
  import opened Frontier
  import opened Steps
  import opened Machine
  import opened Crawl
  import Expunging
  import F = Fairness

  /** The other scheduled pages of the site than which `p` is not sooner. */
  ghost function Ahead(db: Db, s: nat, p: nat): set<nat>
    requires p in db.pages && p in db.scheduled
  {
    set q | q in PagesOf(db, s) && q in db.scheduled && q != p && !Sooner(db, p, q)
  }

  /** For a page that was checked, those are the ones with an older check. */
  lemma AheadIsOlder(db: Db, s: nat, p: nat)
    requires Inv(db) && p in PagesOf(db, s) && p in db.scheduled && db.pages[p].isChecked
    ensures Ahead(db, s, p)
         == set q | q in PagesOf(db, s) && q in db.scheduled && db.pages[q].checkedAt < db.pages[p].checkedAt
  {
    forall q | q in PagesOf(db, s) && q in db.scheduled && q != p
      ensures !Sooner(db, p, q) <==> db.pages[q].checkedAt < db.pages[p].checkedAt
    {
      assert Apart(db.pages[p], db.pages[q]) && RowOk(db, p) && RowOk(db, q);
    }
  }

  /** The step checks the page that the schedule chose. */
  ghost predicate DuePick(db: Db, step: Step, s: nat) {
    step.CheckNext? && step.site == s && step.chosen.Some? && exists q :: Overdue(db, s, q)
  }

  /** The step changes no schedule of the site. */
  ghost predicate KeepsSchedules(db: Db, step: Step, s: nat) {
    (step.Schedule? || step.Unscheduled?) ==> step.page !in PagesOf(db, s)
  }

  // ----- schedules along a step -----

  ghost predicate SchedulesKept(db: Db, db': Db, s: nat) {
    && (forall q :: q in PagesOf(db, s) ==> (q in db'.scheduled <==> q in db.scheduled))
    && (forall q :: q in PagesOf(db, s) && q in db.scheduled && q in db'.scheduled ==>
          db'.scheduled[q] == db.scheduled[q])
    && (forall q :: q in db'.scheduled ==> q in db.pages)
  }

  lemma InitSchedules(db: Db, url: string, name: string, s: nat)
    requires Inv(db)
    ensures SchedulesKept(db, InitSite(db, url, name), s)
  {
  }

  lemma ResetSchedules(db: Db, name: string, s: nat)
    requires Inv(db) && (NameUsed(db, name) ==> SiteNamed(db, name) != s)
    ensures SchedulesKept(db, ResetSite(db, name), s)
  {
  }

  lemma CheckSchedules(db: Db, c: nat, reply: Reply, s: nat)
    requires Inv(db) && c in db.pages
    ensures SchedulesKept(db, Check(db, c, reply), s)
  {
    CheckChanges(db, c, reply);
  }

  lemma ExpungeSchedules(db: Db, rows: seq<nat>, s: nat)
    requires Inv(db) && forall i :: 0 <= i < |rows| ==> rows[i] !in PagesOf(db, s)
    ensures SchedulesKept(db, Expunge(db, rows), s)
  {
    Expunging.ExpungePrunes(db, rows);
    ExpungeElsewhere(db, rows, s);
    var db' := Expunge(db, rows);
    forall q | q in PagesOf(db, s) ensures q in db'.pages {
      assert q in PagesOf(db', s);
    }
  }

  lemma SmallStepSchedules(db: Db, step: Step, db': Db, s: nat)
    requires Inv(db) && Next(db, step, db') && Spares(db, step, s) && KeepsSchedules(db, step, s)
    requires step.ToggleLinkable? || step.DeleteOne? || step.Schedule? || step.Unscheduled? || step.Waited?
    ensures SchedulesKept(db, db', s)
  {
    match step
    case ToggleLinkable(p) => SameSchedules(db, db', s);
    case DeleteOne(p) => DeleteSchedules(db, p, s);
    case Schedule(p, rotation) => Rescheduled(db, p, rotation, s);
    case Unscheduled(p) => RidOfSchedule(db, p, s);
    case Waited(_) => SameSchedules(db, db', s);
  }

  lemma Rescheduled(db: Db, p: nat, rotation: int, s: nat)
    requires RowsAttached(db) && p in db.pages && p !in PagesOf(db, s)
    ensures SchedulesKept(db, SchedulePage(db, p, rotation), s)
  {
    OneSchedule(db, SchedulePage(db, p, rotation), p, s);
  }

  lemma RidOfSchedule(db: Db, p: nat, s: nat)
    requires RowsAttached(db) && p !in PagesOf(db, s)
    ensures SchedulesKept(db, Unschedule(db, p), s)
  {
    OneSchedule(db, Unschedule(db, p), p, s);
  }

  lemma SameSchedules(db: Db, db': Db, s: nat)
    requires RowsAttached(db) && db'.scheduled == db.scheduled
    ensures SchedulesKept(db, db', s)
  {
  }

  /** Only the schedule of one existing page elsewhere changes. */
  lemma OneSchedule(db: Db, db': Db, p: nat, s: nat)
    requires RowsAttached(db) && p !in PagesOf(db, s) && (p in db'.scheduled ==> p in db.pages)
    requires forall q :: q != p ==> (q in db'.scheduled <==> q in db.scheduled)
    requires forall q :: q != p && q in db.scheduled && q in db'.scheduled ==> db'.scheduled[q] == db.scheduled[q]
    ensures SchedulesKept(db, db', s)
  {
  }

  lemma DeleteSchedules(db: Db, p: nat, s: nat)
    requires Inv(db) && p !in PagesOf(db, s)
    ensures SchedulesKept(db, Delete(db, p), s)
  {
  }

  lemma StepKeepsSchedules(db: Db, step: Step, db': Db, s: nat)
    requires Inv(db) && Next(db, step, db') && Spares(db, step, s) && KeepsSchedules(db, step, s)
    ensures SchedulesKept(db, db', s)
  {
    match step
    case Init(url, name) => InitSchedules(db, url, name, s);
    case Reset(name) => ResetSchedules(db, name, s);
    case CheckNext(_, _, chosen, reply) =>
      if chosen.Some? && chosen.value in db.pages { CheckSchedules(db, chosen.value, reply, s); }
    case CheckOne(c, reply) => CheckSchedules(db, c, reply, s);
    case ExpungeRows(rows) => ExpungeSchedules(db, rows, s);
    case _ => SmallStepSchedules(db, step, db', s);
  }

  // ----- the rank along a step -----

  /** A check of another page leaves it behind, and nothing comes ahead. */
  lemma VisitAhead(web: Web, db: Db, db': Db, s: nat, c: nat, p: nat)
    requires Inv(db) && Visit(web, db, db', s, c) && SchedulesKept(db, db', s)
    requires p in PagesOf(db, s) && p in db.scheduled && p != c
    ensures p in PagesOf(db', s) && p in db'.scheduled && db'.pages[p] == db.pages[p]
    ensures Ahead(db', s, p) <= Ahead(db, s, p) - {c}
  {
    var ks :| CheckedPage(db, db', c, ks) && (set k | k in ks) == web(db.pages[c].key);
    assert RowOk(db, p);
    assert db'.pages[p] == db.pages[p] && p in db'.scheduled;
    CheckedAhead(db, db', s, c, p, ks);
  }

  lemma CheckedAhead(db: Db, db': Db, s: nat, c: nat, p: nat, ks: seq<Key>)
    requires CheckedPage(db, db', c, ks) && SchedulesKept(db, db', s)
    requires p in PagesOf(db, s) && p in db.scheduled && p in db'.scheduled && p != c
    requires db.pages[p].checkedAt <= db.clock && c in PagesOf(db, s)
    ensures Ahead(db', s, p) <= Ahead(db, s, p) - {c}
  {
    forall q | q in Ahead(db', s, p) ensures q in Ahead(db, s, p) - {c} {
      assert q in db.pages;
    }
  }

  lemma QuietAhead(db: Db, db': Db, s: nat, p: nat)
    requires Quiet(db, db', s) && SchedulesKept(db, db', s) && p in PagesOf(db, s) && p in db.scheduled
    ensures p in PagesOf(db', s) && p in db'.scheduled && SameCheck(db.pages[p], db'.pages[p])
    ensures Ahead(db', s, p) == Ahead(db, s, p)
  {
  }

  /** The schedule chooses a page that is ahead of every overdue one it passes over. */
  lemma PickIsAhead(db: Db, step: Step, s: nat, p: nat)
    requires DuePick(db, step, s) && NextPage(db, s, step.coin, step.chosen)
    requires Overdue(db, s, p) && p != step.chosen.value
    ensures Takes(db, step, s, step.chosen.value) && step.chosen.value in Ahead(db, s, p)
  {
    SelectionMeans(db, s, step.coin, step.chosen);
  }

  lemma PickIsTaken(db: Db, step: Step, s: nat)
    requires step.CheckNext? && step.site == s && NextPage(db, s, step.coin, step.chosen)
    ensures DuePick(db, step, s) ==> Takes(db, step, s, step.chosen.value)
  {
    if DuePick(db, step, s) {
      SelectionMeans(db, s, step.coin, step.chosen);
    }
  }

  lemma TakenAhead(web: Web, s: nat, db: Db, step: Step, db': Db, c: nat, p: nat)
    requires Inv(db) && Next(db, step, db') && SchedulesKept(db, db', s)
    requires Takes(db, step, s, c) && Visit(web, db, db', s, c) && Overdue(db, s, p) && p != c
    ensures p in PagesOf(db', s) && p in db'.scheduled && db'.pages[p] == db.pages[p]
    ensures |Ahead(db', s, p)| + (if DuePick(db, step, s) then 1 else 0) <= |Ahead(db, s, p)|
  {
    VisitAhead(web, db, db', s, c, p);
    F.SubsetSize(Ahead(db', s, p), Ahead(db, s, p) - {c});
    F.SubsetSize(Ahead(db', s, p), Ahead(db, s, p));
    if DuePick(db, step, s) {
      PickIsAhead(db, step, s, p);
    }
  }

  lemma StepAhead(s: nat, db: Db, step: Step, db': Db, p: nat)
    requires Inv(db) && s in db.sites && Next(db, step, db') && Spares(db, step, s) && KeepsSchedules(db, step, s)
    requires Overdue(db, s, p) && !Takes(db, step, s, p)
    ensures s in db'.sites && Overdue(db', s, p)
    ensures |Ahead(db', s, p)| + (if DuePick(db, step, s) then 1 else 0) <= |Ahead(db, s, p)|
  {
    var web := F.SeenWeb(db, step, s);
    F.SeenIsStatic(db, step, s);
    StepOnSite(web, s, db, step, db');
    StepKeepsSchedules(db, step, db', s);
    ClockGoesOn(db, step, db');
    if c :| Takes(db, step, s, c) {
      TakenAhead(web, s, db, step, db', c, p);
    } else {
      IdleAhead(s, db, step, db', p);
    }
    StaysDue(db, db', s, p);
  }

  lemma ClockGoesOn(db: Db, step: Step, db': Db)
    requires Inv(db) && Next(db, step, db')
    ensures db.clock <= db'.clock
  {
    NextAges(db, step, db');
  }

  /** A page whose check and schedule stay is overdue as long as time goes on. */
  lemma StaysDue(db: Db, db': Db, s: nat, p: nat)
    requires Overdue(db, s, p) && SchedulesKept(db, db', s) && db.clock <= db'.clock
    requires p in PagesOf(db', s) && p in db'.scheduled && db'.pages[p].checkedAt == db.pages[p].checkedAt
    ensures Overdue(db', s, p)
  {
    assert p in PagesOf(db, s);
  }

  lemma IdleAhead(s: nat, db: Db, step: Step, db': Db, p: nat)
    requires Next(db, step, db') && Quiet(db, db', s) && SchedulesKept(db, db', s) && Overdue(db, s, p)
    requires forall c :: !Takes(db, step, s, c)
    ensures p in PagesOf(db', s) && p in db'.scheduled && SameCheck(db.pages[p], db'.pages[p])
    ensures Ahead(db', s, p) == Ahead(db, s, p) && !DuePick(db, step, s)
  {
    QuietAhead(db, db', s, p);
    if step.CheckNext? && step.site == s { PickIsTaken(db, step, s); }
  }

  // ----- along a run -----

  ghost function DueMarks(states: seq<Db>, steps: seq<Step>, s: nat): (marks: seq<bool>)
    requires |steps| < |states|
    ensures |marks| == |steps|
  {
    seq(|steps|, i requires 0 <= i < |steps| => DuePick(states[i], steps[i], s))
  }

  /** How often the schedule was served from step `a` up to step `b`. */
  ghost function DuePicks(states: seq<Db>, steps: seq<Step>, s: nat, a: nat, b: nat): nat
    requires a <= b <= |steps| < |states|
  {
    F.Count(DueMarks(states, steps, s), a, b)
  }

  ghost function Ranks(states: seq<Db>, s: nat, p: nat): (ranks: seq<nat>)
    ensures |ranks| == |states|
  {
    seq(|states|, i requires 0 <= i < |states| =>
      if p in states[i].pages && p in states[i].scheduled then |Ahead(states[i], s, p)| else 0)
  }

  /** The page is there, nobody touches the site's schedules, and it is not checked. */
  ghost predicate LeftWaiting(states: seq<Db>, steps: seq<Step>, s: nat, p: nat, a: nat, b: nat)
    requires b <= |steps| < |states|
  {
    && F.Waits(states, steps, s, p, a, b)
    && forall i :: a <= i < b ==> Spares(states[i], steps[i], s) && KeepsSchedules(states[i], steps[i], s)
  }

  lemma {:induction false} StaysOverdue(s: nat, states: seq<Db>, steps: seq<Step>, p: nat, a: nat, n: nat)
    requires Run(states, steps) && Inv(states[0]) && a <= n <= |steps|
    requires s in states[a].sites && Overdue(states[a], s, p) && LeftWaiting(states, steps, s, p, a, n)
    ensures s in states[n].sites && Overdue(states[n], s, p)
  {
    if a < n {
      var i := n - 1;
      StaysOverdue(s, states, steps, p, a, i);
      RunKeepsInv(states, steps, i);
      assert Next(states[i], steps[i], states[i + 1]);
      StepAhead(s, states[i], steps[i], states[i + 1], p);
    }
  }

  /**
   While an overdue page waits, the scheduled branch serves at most as many other
   pages as there were scheduled pages not later than it; it stays overdue meanwhile.
   */
  lemma DueWaitIsBounded(s: nat, states: seq<Db>, steps: seq<Step>, p: nat, a: nat, b: nat)
    requires Run(states, steps) && Inv(states[0]) && a <= b <= |steps|
    requires s in states[a].sites && Overdue(states[a], s, p) && LeftWaiting(states, steps, s, p, a, b)
    ensures Overdue(states[b], s, p)
    ensures DuePicks(states, steps, s, a, b) + |Ahead(states[b], s, p)| <= |Ahead(states[a], s, p)|
  {
    var marks, ranks := DueMarks(states, steps, s), Ranks(states, s, p);
    forall n | a <= n < b ensures ranks[n + 1] + (if marks[n] then 1 else 0) <= ranks[n] {
      RankStep(s, states, steps, p, a, b, n);
    }
    StaysOverdue(s, states, steps, p, a, b);
    F.RankBoundsCount(marks, ranks, a, b);
  }

  lemma RankStep(s: nat, states: seq<Db>, steps: seq<Step>, p: nat, a: nat, b: nat, n: nat)
    requires Run(states, steps) && Inv(states[0]) && a <= n < b <= |steps|
    requires s in states[a].sites && Overdue(states[a], s, p) && LeftWaiting(states, steps, s, p, a, b)
    ensures Ranks(states, s, p)[n + 1] + (if DueMarks(states, steps, s)[n] then 1 else 0) <= Ranks(states, s, p)[n]
  {
    RunKeepsInv(states, steps, n);
    StaysOverdue(s, states, steps, p, a, n);
    assert Next(states[n], steps[n], states[n + 1]);
    StepAhead(s, states[n], steps[n], states[n + 1], p);
  }
}
