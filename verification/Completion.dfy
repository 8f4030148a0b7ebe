/** What a call of `check_site` on a fresh site achieves. */
module Completion {
  import opened Tables
  import opened Checks
  import opened Frontier
  import opened Machine
  import opened Crawl
  import B = BreadthFirst
  import F = Fairness
  import K = Spidercheck

  /** How often, in the first `n` turns, the coin did not ask for a retry. */
  function Declined(coins: nat -> bool, n: nat): nat {
    if n == 0 then 0 else Declined(coins, n - 1) + if coins(n - 1) then 0 else 1
  }

  /** Every answer shows exactly the links that the web has there. */
  ghost predicate StaticAnswers(web: Web, db: Db, s: nat, answers: (nat, Key) -> Reply) {
    forall i: nat, k :: (set j | j in Discovered(db, s, answers(i, k))) == web(k)
  }

  /** A turn changes no site and no schedule. */
  lemma TurnKeepsAside(db: Db, step: Step, db': Db, s: nat, coin: bool, answers: (nat, Key) -> Reply, i: nat)
    requires Inv(db) && Next(db, step, db') && K.CheckTurn(db, step, s, coin, answers, i)
    ensures db'.sites == db.sites && db'.scheduled == db.scheduled
  {
    CheckChanges(db, step.chosen.value, step.reply);
  }

  lemma {:induction false} TurnsKeepAside(s: nat, coins: nat -> bool, answers: (nat, Key) -> Reply,
      states: seq<Db>, steps: seq<Step>, n: nat)
    requires Run(states, steps) && Inv(states[0]) && n <= |steps|
    requires forall i :: 0 <= i < |steps| ==> K.CheckTurn(states[i], steps[i], s, coins(i), answers, i)
    ensures states[n].sites == states[0].sites && states[n].scheduled == states[0].scheduled
  {
    if n > 0 {
      var i := n - 1;
      TurnsKeepAside(s, coins, answers, states, steps, i);
      RunKeepsInv(states, steps, i);
      TurnKeepsAside(states[i], steps[i], states[i + 1], s, coins(i), answers, i);
    }
  }

  lemma TurnIsStatic(web: Web, start: Db, db: Db, step: Step, s: nat, coin: bool, answers: (nat, Key) -> Reply, i: nat)
    requires StaticAnswers(web, start, s, answers) && db.sites == start.sites
    requires K.CheckTurn(db, step, s, coin, answers, i)
    ensures StaticStep(web, s, db, step)
  {
    assert Discovered(db, s, step.reply) == Discovered(start, s, step.reply);
  }

  lemma TraceIsStatic(web: Web, start: Db, db: Db, s: nat, coins: nat -> bool, answers: (nat, Key) -> Reply,
      states: seq<Db>, steps: seq<Step>, reports: seq<Report>)
    requires Inv(start) && s in start.sites && StaticAnswers(web, start, s, answers)
    requires K.Trace(start, db, s, coins, answers, states, steps, reports)
    ensures StaticRun(web, s, states, steps)
  {
    forall i | 0 <= i < |steps| ensures StaticStep(web, s, states[i], steps[i]) {
      TurnsKeepAside(s, coins, answers, states, steps, i);
      TurnIsStatic(web, start, states[i], steps[i], s, coins(i), answers, i);
    }
  }

  /** While unchecked pages remain and nothing is due, a declined retry is a first check. */
  lemma DeclinedIsFirst(db: Db, step: Step, s: nat, answers: (nat, Key) -> Reply, i: nat)
    requires K.CheckTurn(db, step, s, false, answers, i) && NextPage(db, s, false, step.chosen)
    requires Due(db, s) == {} && Unchecked(db, s) != {}
    ensures B.MakesFirstCheck(db, step, s)
  {
    assert B.FirstCheck(db, step, s, step.chosen.value);
  }

  lemma {:induction false} DeclinedOrDone(web: Web, seed: Key, start: Db, db: Db, s: nat, coins: nat -> bool,
      answers: (nat, Key) -> Reply, states: seq<Db>, steps: seq<Step>, reports: seq<Report>, n: nat)
    requires Inv(start) && s in start.sites && StaticAnswers(web, start, s, answers)
    requires FreshSite(start, s, seed) && F.ScheduledPages(start, s) == {}
    requires K.Trace(start, db, s, coins, answers, states, steps, reports) && n <= |steps|
    ensures Unchecked(states[n], s) == {} || B.FirstChecks(states, steps, s, n) >= Declined(coins, n)
  {
    if n > 0 {
      var i := n - 1;
      DeclinedOrDone(web, seed, start, db, s, coins, answers, states, steps, reports, i);
      if Unchecked(states[i], s) == {} {
        TurnStaysSettled(web, seed, start, db, s, coins, answers, states, steps, reports, i);
      } else if !coins(i) {
        TurnDeclines(start, db, s, coins, answers, states, steps, reports, i);
      }
    }
  }

  /** Once nothing is left to check, a turn finds nothing either. */
  lemma TurnStaysSettled(web: Web, seed: Key, start: Db, db: Db, s: nat, coins: nat -> bool,
      answers: (nat, Key) -> Reply, states: seq<Db>, steps: seq<Step>, reports: seq<Report>, i: nat)
    requires Inv(start) && s in start.sites && StaticAnswers(web, start, s, answers)
    requires FreshSite(start, s, seed)
    requires K.Trace(start, db, s, coins, answers, states, steps, reports) && i < |steps|
    requires Unchecked(states[i], s) == {}
    ensures Unchecked(states[i + 1], s) == {}
  {
    TraceIsStatic(web, start, db, s, coins, answers, states, steps, reports);
    CrawlStaysOk(web, s, seed, states, steps, i);
    F.CrawledIsExplored(web, seed, states[i], s);
    assert Next(states[i], steps[i], states[i + 1]);
    F.StepStaysSettled(web, s, states[i], steps[i], states[i + 1]);
  }

  /** Until then, a turn whose coin declines a retry is a first check. */
  lemma TurnDeclines(start: Db, db: Db, s: nat, coins: nat -> bool,
      answers: (nat, Key) -> Reply, states: seq<Db>, steps: seq<Step>, reports: seq<Report>, i: nat)
    requires Inv(start) && F.ScheduledPages(start, s) == {}
    requires K.Trace(start, db, s, coins, answers, states, steps, reports) && i < |steps|
    requires Unchecked(states[i], s) != {} && !coins(i)
    ensures B.MakesFirstCheck(states[i], steps[i], s)
  {
    NeverDue(start, s, coins, answers, states, steps, i);
    assert Next(states[i], steps[i], states[i + 1]);
    DeclinedIsFirst(states[i], steps[i], s, answers, i);
  }

  /** Pages found by the crawl have fresh identifiers, so none of them is scheduled. */
  lemma NeverDue(start: Db, s: nat, coins: nat -> bool, answers: (nat, Key) -> Reply,
      states: seq<Db>, steps: seq<Step>, n: nat)
    requires Inv(start) && states != [] && states[0] == start && Run(states, steps) && n <= |steps|
    requires forall i :: 0 <= i < |steps| ==> K.CheckTurn(states[i], steps[i], s, coins(i), answers, i)
    requires F.ScheduledPages(start, s) == {}
    ensures Due(states[n], s) == {}
  {
    TurnsKeepAside(s, coins, answers, states, steps, n);
    RunKeepsInv(states, steps, n);
    RunAges(states, steps, 0, n);
    forall p | p in start.scheduled && p in states[n].pages
      ensures p in start.pages && states[n].pages[p].site == start.pages[p].site
    {
      assert RowOk(start, p);
    }
    forall p ensures p !in Due(states[n], s) {
      assert p in Due(states[n], s) ==> p in F.ScheduledPages(start, s);
    }
  }

  /**
   Completion: on a fresh site without schedules, whose pages keep their links, a
   call of `check_site` that has declined a retry as often as there are reachable
   keys has stored exactly the reachable keys, and has checked them all.
   */
  lemma CheckSiteCompletes(web: Web, seed: Key, reach: set<Key>, start: Db, db: Db, s: nat, coins: nat -> bool,
      answers: (nat, Key) -> Reply, states: seq<Db>, steps: seq<Step>, reports: seq<Report>)
    requires Inv(start) && s in start.sites && StaticAnswers(web, start, s, answers)
    requires FreshSite(start, s, seed) && F.ScheduledPages(start, s) == {}
    requires K.Trace(start, db, s, coins, answers, states, steps, reports)
    requires forall k :: k in reach <==> Reachable(web, seed, k)
    requires Declined(coins, |steps|) >= |reach|
    ensures Unchecked(db, s) == {} && forall k :: Stored(db, s, k) <==> k in reach
  {
    var n := |steps|;
    TraceIsStatic(web, start, db, s, coins, answers, states, steps, reports);
    DeclinedOrDone(web, seed, start, db, s, coins, answers, states, steps, reports, n);
    B.FrontierEmptiesExactly(web, s, seed, reach, states, steps, n);
    CrawlReachesExactly(web, s, seed, states, steps, n);
  }
}
