/** How long a page can be kept waiting by each branch of the selection. */
module Fairness {
  import opened Options
  import opened Tables
  import opened Checks
  import opened Frontier
  import opened Machine
  import opened Crawl
  import opened BreadthFirst

  // ----- scheduled pages cannot starve the frontier -----

  /** Step `i` is a selection on site `s` that the scheduled branch made, choosing `p`. */
  ghost predicate ScheduledPick(states: seq<Db>, steps: seq<Step>, s: nat, i: nat, p: nat) {
    && i < |steps| < |states|
    && steps[i].CheckNext? && steps[i].site == s && steps[i].chosen == Some(p)
    && Due(states[i], s) != {}
  }

  /** Two picks of one page by the scheduled branch are more than its rotation apart. */
  lemma ScheduledPicksApart(states: seq<Db>, steps: seq<Step>, s: nat, i: nat, j: nat, p: nat)
    requires Run(states, steps) && Inv(states[0]) && i < j
    requires ScheduledPick(states, steps, s, i, p) && ScheduledPick(states, steps, s, j, p)
    ensures p in states[j].scheduled
    ensures states[j].clock - states[i].clock > states[j].scheduled[p].rotation
  {
    RunKeepsInv(states, steps, i);
    RunKeepsInv(states, steps, i + 1);
    assert Next(states[i], steps[i], states[i + 1]);
    PickIsDue(states[i], steps[i], s, p);
    CheckChanges(states[i], p, steps[i].reply);
    var after := states[i + 1];
    assert p in after.pages && after.pages[p].checkedAt > states[i].clock;
    assert RowOk(after, p);
    RunAges(states, steps, i + 1, j);
    assert Next(states[j], steps[j], states[j + 1]);
    PickIsDue(states[j], steps[j], s, p);
  }

  ghost predicate AnyScheduledPick(states: seq<Db>, steps: seq<Step>, s: nat, i: nat) {
    exists p :: ScheduledPick(states, steps, s, i, p)
  }

  lemma PickIsDue(db: Db, step: Step, s: nat, p: nat)
    requires step.CheckNext? && step.site == s && step.chosen == Some(p) && Due(db, s) != {}
    requires NextPage(db, s, step.coin, step.chosen)
    ensures p in Due(db, s)
  {
  }

  /** The pages of site `s` that have a schedule. */
  function ScheduledPages(db: Db, s: nat): set<nat> {
    set p | p in PagesOf(db, s) && p in db.scheduled
  }

  lemma {:induction false} Pigeonhole(c: seq<nat>, holes: set<nat>) returns (a: nat, b: nat)
    requires |c| > |holes| && forall i :: 0 <= i < |c| ==> c[i] in holes
    ensures a < b < |c| && c[a] == c[b]
  {
    var n := |c| - 1;
    if i :| 0 <= i < n && c[i] == c[n] {
      a, b := i, n;
    } else {
      a, b := Pigeonhole(c[..n], holes - {c[n]});
    }
  }

  /** Successive selections are at most `gap` apart in time. */
  ghost predicate Spaced(states: seq<Db>, picks: seq<nat>, gap: nat)
    requires forall k :: 0 <= k < |picks| ==> picks[k] < |states|
  {
    forall k :: 0 < k < |picks| ==>
      picks[k - 1] < picks[k] && states[picks[k]].clock <= states[picks[k - 1]].clock + gap
  }

  lemma {:induction false} SpacedSpan(states: seq<Db>, picks: seq<nat>, gap: nat, a: nat, b: nat)
    requires forall k :: 0 <= k < |picks| ==> picks[k] < |states|
    requires Spaced(states, picks, gap) && a <= b < |picks|
    ensures states[picks[b]].clock <= states[picks[a]].clock + (b - a) * gap
    ensures a < b ==> picks[a] < picks[b]
  {
    if a < b {
      SpacedSpan(states, picks, gap, a, b - 1);
      assert (b - a) * gap == (b - 1 - a) * gap + gap;
    }
  }

  /** If a series of selections were all scheduled, their span would reach the shortest rotation. */
  lemma AllScheduledIsSlow(states: seq<Db>, steps: seq<Step>, s: nat, picks: seq<nat>, rows: set<nat>,
      rotation: nat, gap: nat)
    requires Run(states, steps) && Inv(states[0])
    requires |picks| > |rows|
    requires forall k :: 0 <= k < |picks| ==> picks[k] < |steps| && AnyScheduledPick(states, steps, s, picks[k])
    requires forall k :: 0 <= k < |picks| ==> ScheduledPages(states[picks[k]], s) <= rows
    requires forall k, p :: 0 <= k < |picks| && p in ScheduledPages(states[picks[k]], s) ==>
               states[picks[k]].scheduled[p].rotation >= rotation
    requires Spaced(states, picks, gap)
    ensures rotation < (|picks| - 1) * gap
  {
    var chosen := seq(|picks|, k requires 0 <= k < |picks| => steps[picks[k]].chosen.value);
    forall k | 0 <= k < |picks| ensures ScheduledPick(states, steps, s, picks[k], chosen[k])
                                ensures chosen[k] in ScheduledPages(states[picks[k]], s)
    {
      var p :| ScheduledPick(states, steps, s, picks[k], p);
      var i := picks[k];
      assert Next(states[i], steps[i], states[i + 1]);
      PickIsDue(states[i], steps[i], s, p);
    }
    var a, b := Pigeonhole(chosen, rows);
    SpacedSpan(states, picks, gap, a, b);
    ScheduledPicksApart(states, steps, s, picks[a], picks[b], chosen[a]);
    assert (b - a) * gap <= (|picks| - 1) * gap by {
      MulMonotone(b - a, |picks| - 1, gap);
    }
  }

  lemma MulMonotone(a: nat, b: nat, g: nat)
    requires a <= b
    ensures a * g <= b * g
  {
  }

  /**
   With `m` scheduled pages, rotations of at least `rotation`, selections at most
   `gap` apart and `m * gap <= rotation`, any `m + 1` successive selections include
   one that the scheduled branch did not make, whatever else happens in between.
   */
  lemma ScheduledCannotStarve(states: seq<Db>, steps: seq<Step>, s: nat, picks: seq<nat>, rows: set<nat>,
      rotation: nat, gap: nat)
    requires Run(states, steps) && Inv(states[0])
    requires |picks| == |rows| + 1 && |rows| * gap <= rotation
    requires forall k :: 0 <= k < |picks| ==>
               picks[k] < |steps| && steps[picks[k]].CheckNext? && steps[picks[k]].site == s
               && steps[picks[k]].chosen.Some?
    requires forall k :: 0 <= k < |picks| ==> ScheduledPages(states[picks[k]], s) <= rows
    requires forall k, p :: 0 <= k < |picks| && p in ScheduledPages(states[picks[k]], s) ==>
               states[picks[k]].scheduled[p].rotation >= rotation
    requires Spaced(states, picks, gap)
    ensures exists k :: 0 <= k < |picks|
              && BranchOf(states[picks[k]], s, steps[picks[k]].coin) != Scheduled
  {
    if forall k :: 0 <= k < |picks| ==> BranchOf(states[picks[k]], s, steps[picks[k]].coin) == Scheduled {
      forall k | 0 <= k < |picks| ensures AnyScheduledPick(states, steps, s, picks[k]) {
        assert ScheduledPick(states, steps, s, picks[k], steps[picks[k]].chosen.value);
      }
      AllScheduledIsSlow(states, steps, s, picks, rows, rotation, gap);
    }
  }

  // ----- counting events along a run -----

  function Count(marks: seq<bool>, a: nat, b: nat): nat
    requires a <= b <= |marks|
  {
    if a == b then 0 else Count(marks, a, b - 1) + if marks[b - 1] then 1 else 0
  }

  /** A rank that never rises and drops at every marked step bounds the marked steps. */
  lemma {:induction false} RankBoundsCount(marks: seq<bool>, rank: seq<nat>, a: nat, b: nat)
    requires a <= b <= |marks| < |rank|
    requires forall n :: a <= n < b ==> rank[n + 1] + (if marks[n] then 1 else 0) <= rank[n]
    ensures Count(marks, a, b) + rank[b] <= rank[a]
  {
    if a < b {
      RankBoundsCount(marks, rank, a, b - 1);
      assert rank[b - 1 + 1] + (if marks[b - 1] then 1 else 0) <= rank[b - 1];
    }
  }

  lemma {:induction false} CountAll(marks: seq<bool>, a: nat, b: nat)
    requires a <= b <= |marks| && forall i :: a <= i < b ==> marks[i]
    ensures Count(marks, a, b) == b - a
  {
    if a < b {
      CountAll(marks, a, b - 1);
    }
  }

  // ----- once everything is checked, the queue goes round -----

  /** The pages last checked before `p`. */
  function Older(db: Db, s: nat, p: nat): set<nat>
    requires p in db.pages
  {
    set q | q in PagesOf(db, s) && db.pages[q].checkedAt < db.pages[p].checkedAt
  }

  /** Step `i` checks a page of site `s` that the queue of checked pages offered. */
  predicate QueuePick(db: Db, step: Step, s: nat) {
    && step.CheckNext? && step.site == s && step.chosen.Some?
    && step.chosen.value in PagesOf(db, s)
    && BranchOf(db, s, step.coin) == Oldest
  }

  function QueueMarks(states: seq<Db>, steps: seq<Step>, s: nat): (marks: seq<bool>)
    requires |steps| < |states|
    ensures |marks| == |steps|
  {
    seq(|steps|, i requires 0 <= i < |steps| => QueuePick(states[i], steps[i], s))
  }

  function QueuePicks(states: seq<Db>, steps: seq<Step>, s: nat, a: nat, b: nat): nat
    requires a <= b <= |steps| < |states|
  {
    Count(QueueMarks(states, steps, s), a, b)
  }

  /** Every page of the site is checked, and every page they link to is stored. */
  ghost predicate Explored(web: Web, db: Db, s: nat) {
    && Inv(db) && s in db.sites && Unchecked(db, s) == {}
    && forall p, k :: p in PagesOf(db, s) && k in web(db.pages[p].key) ==> Stored(db, s, k)
  }

  /** From step `a` on the pages of site `s` and their links stay, and all of them are known. */
  ghost predicate Settled(web: Web, s: nat, states: seq<Db>, steps: seq<Step>, a: nat) {
    && Run(states, steps) && a < |states| && Explored(web, states[a], s)
    && forall i :: a <= i < |steps| ==> StaticStep(web, s, states[i], steps[i])
  }

  /** A crawl has settled as soon as its frontier of unchecked pages is empty. */
  lemma CrawlSettles(web: Web, s: nat, seed: Key, states: seq<Db>, steps: seq<Step>, a: nat)
    requires StaticRun(web, s, states, steps) && FreshSite(states[0], s, seed)
    requires a < |states| && Unchecked(states[a], s) == {}
    ensures Settled(web, s, states, steps, a)
  {
    CrawlStaysOk(web, s, seed, states, steps, a);
    CrawledIsExplored(web, seed, states[a], s);
  }

  lemma CrawledIsExplored(web: Web, seed: Key, db: Db, s: nat)
    requires Inv(db) && s in db.sites && CrawlOk(web, seed, db, s) && Unchecked(db, s) == {}
    ensures Explored(web, db, s)
  {
    forall p | p in PagesOf(db, s) ensures db.pages[p].isChecked {
      assert p !in Unchecked(db, s);
    }
  }

  lemma SameKeysStored(db: Db, db': Db, s: nat)
    requires forall p :: p in PagesOf(db, s) ==> p in PagesOf(db', s) && db'.pages[p].key == db.pages[p].key
    ensures forall k :: Stored(db, s, k) ==> Stored(db', s, k)
  {
    forall k | Stored(db, s, k) ensures Stored(db', s, k) {
      KeptStored(db, db', s, k);
    }
  }

  lemma RevisitKeepsExplored(web: Web, s: nat, db: Db, db': Db, p: nat)
    requires Explored(web, db, s) && Visit(web, db, db', s, p) && Inv(db') && s in db'.sites
    ensures PagesOf(db', s) == PagesOf(db, s) && Explored(web, db', s)
  {
    VisitIs(web, db, db', s, p);
    assert p !in Unchecked(db, s);
    RevisitAddsNothing(web, db, db', s, p);
    SameKeysStored(db, db', s);
  }

  lemma QuietKeepsExplored(web: Web, s: nat, db: Db, db': Db)
    requires Explored(web, db, s) && Quiet(db, db', s) && Inv(db') && s in db'.sites
    ensures PagesOf(db', s) == PagesOf(db, s) && Explored(web, db', s)
  {
    assert Unchecked(db', s) == Unchecked(db, s);
    SameKeysStored(db, db', s);
  }

  lemma StepStaysSettled(web: Web, s: nat, db: Db, step: Step, db': Db)
    requires Explored(web, db, s) && Next(db, step, db') && StaticStep(web, s, db, step)
    ensures PagesOf(db', s) == PagesOf(db, s) && Explored(web, db', s)
  {
    NextKeepsInv(db, step, db');
    StepOnSite(web, s, db, step, db');
    if p :| Takes(db, step, s, p) {
      RevisitKeepsExplored(web, s, db, db', p);
    } else {
      QuietKeepsExplored(web, s, db, db');
    }
  }

  lemma {:induction false} StaysSettled(web: Web, s: nat, states: seq<Db>, steps: seq<Step>, a: nat, n: nat)
    requires Settled(web, s, states, steps, a) && a <= n < |states|
    ensures Explored(web, states[n], s) && PagesOf(states[n], s) == PagesOf(states[a], s)
  {
    if a < n {
      var i := n - 1;
      StaysSettled(web, s, states, steps, a, i);
      SettledStep(web, s, states, steps, a, i);
      StepStaysSettled(web, s, states[i], steps[i], states[i + 1]);
    }
  }

  lemma SettledStep(web: Web, s: nat, states: seq<Db>, steps: seq<Step>, a: nat, i: nat)
    requires Settled(web, s, states, steps, a) && a <= i < |steps|
    ensures i + 1 < |states| && Next(states[i], steps[i], states[i + 1]) && StaticStep(web, s, states[i], steps[i])
  {
  }

  /** Checking another page moves only that page, and moves it behind. */
  lemma VisitOlder(web: Web, db: Db, db': Db, s: nat, c: nat, p: nat)
    requires Inv(db) && Visit(web, db, db', s, c) && PagesOf(db', s) == PagesOf(db, s)
    requires p in PagesOf(db, s) && p != c
    ensures Older(db', s, p) == Older(db, s, p) - {c}
    ensures db'.pages[p] == db.pages[p]
  {
    assert RowOk(db, p);
  }

  lemma QuietOlder(db: Db, db': Db, s: nat, p: nat)
    requires Quiet(db, db', s) && p in PagesOf(db, s)
    ensures Older(db', s, p) == Older(db, s, p)
  {
  }

  /** The queue offers a page older than any other. */
  lemma QueuePickIsOlder(db: Db, step: Step, s: nat, p: nat)
    requires Inv(db) && Unchecked(db, s) == {}
    requires QueuePick(db, step, s) && NextPage(db, s, step.coin, step.chosen)
    requires p in PagesOf(db, s) && p != step.chosen.value
    ensures step.chosen.value in Older(db, s, p)
  {
    assert PagesOf(db, s) == CheckedPages(db, s) + Unchecked(db, s);
    assert Apart(db.pages[p], db.pages[step.chosen.value]);
  }

  lemma CheckOlder(web: Web, s: nat, db: Db, step: Step, db': Db, p: nat, c: nat)
    requires Inv(db) && Unchecked(db, s) == {} && Next(db, step, db') && PagesOf(db', s) == PagesOf(db, s)
    requires Takes(db, step, s, c) && Visit(web, db, db', s, c)
    requires p in PagesOf(db, s) && p != c
    ensures |Older(db', s, p)| + (if QueuePick(db, step, s) then 1 else 0) <= |Older(db, s, p)|
  {
    VisitOlder(web, db, db', s, c, p);
    if QueuePick(db, step, s) {
      QueuePickIsOlder(db, step, s, p);
    }
  }

  lemma QueueTakes(db: Db, step: Step, s: nat)
    ensures QueuePick(db, step, s) ==> exists c :: Takes(db, step, s, c)
  {
    if QueuePick(db, step, s) {
      assert Takes(db, step, s, step.chosen.value);
    }
  }

  lemma StepOlder(web: Web, s: nat, db: Db, step: Step, db': Db, p: nat)
    requires Inv(db) && s in db.sites && Unchecked(db, s) == {}
    requires Next(db, step, db') && StaticStep(web, s, db, step) && PagesOf(db', s) == PagesOf(db, s)
    requires p in PagesOf(db, s) && !Takes(db, step, s, p)
    ensures |Older(db', s, p)| + (if QueuePick(db, step, s) then 1 else 0) <= |Older(db, s, p)|
  {
    StepOnSite(web, s, db, step, db');
    if c :| Takes(db, step, s, c) {
      CheckOlder(web, s, db, step, db', p, c);
    } else {
      QuietOlder(db, db', s, p);
      QueueTakes(db, step, s);
    }
  }

  /** Page `p` of site `s` is not checked by any step from `a` up to `b`. */
  predicate Waits(states: seq<Db>, steps: seq<Step>, s: nat, p: nat, a: nat, b: nat)
    requires b <= |steps| < |states|
  {
    forall i :: a <= i < b ==> !Takes(states[i], steps[i], s, p)
  }

  lemma StepOlderAt(web: Web, s: nat, states: seq<Db>, steps: seq<Step>, p: nat, a: nat, n: nat)
    requires Settled(web, s, states, steps, a) && a <= n < |steps|
    requires p in PagesOf(states[a], s) && !Takes(states[n], steps[n], s, p)
    ensures p in PagesOf(states[n], s) && p in PagesOf(states[n + 1], s)
    ensures |Older(states[n + 1], s, p)| + (if QueuePick(states[n], steps[n], s) then 1 else 0)
            <= |Older(states[n], s, p)|
  {
    StaysSettled(web, s, states, steps, a, n);
    StaysSettled(web, s, states, steps, a, n + 1);
    StepOlder(web, s, states[n], steps[n], states[n + 1], p);
  }

  /** The rank of `p` in each state; 0 where it is not stored. */
  function Ranks(states: seq<Db>, s: nat, p: nat): (ranks: seq<nat>)
    ensures |ranks| == |states|
  {
    seq(|states|, i requires 0 <= i < |states| =>
      if p in states[i].pages then |Older(states[i], s, p)| else 0)
  }

  /**
   Bounded waiting: while `p` waits, its rank by age never rises, and every page
   the queue offers lowers it; so the queue is served at most rank-many times first.
   */
  lemma WaitIsBounded(web: Web, s: nat, states: seq<Db>, steps: seq<Step>, p: nat, a: nat, b: nat)
    requires Settled(web, s, states, steps, a) && a <= b <= |steps|
    requires p in PagesOf(states[a], s) && Waits(states, steps, s, p, a, b)
    ensures p in PagesOf(states[b], s)
    ensures QueuePicks(states, steps, s, a, b) + |Older(states[b], s, p)| <= |Older(states[a], s, p)|
  {
    var marks, ranks := QueueMarks(states, steps, s), Ranks(states, s, p);
    forall n | a <= n < b ensures ranks[n + 1] + (if marks[n] then 1 else 0) <= ranks[n] {
      StepOlderAt(web, s, states, steps, p, a, n);
    }
    StaysSettled(web, s, states, steps, a, b);
    RankBoundsCount(marks, ranks, a, b);
  }

  lemma RankBelowSize(db: Db, s: nat, p: nat)
    requires p in PagesOf(db, s)
    ensures |Older(db, s, p)| < |PagesOf(db, s)|
  {
    assert Older(db, s, p) <= PagesOf(db, s) - {p};
    SubsetSize(Older(db, s, p), PagesOf(db, s) - {p});
  }

  lemma {:induction false} SubsetSize(a: set<nat>, b: set<nat>)
    requires a <= b
    ensures |a| <= |b|
  {
    if a != {} {
      var x :| x in a;
      SubsetSize(a - {x}, b - {x});
    }
  }

  /** A sequence as long as a set, made of the set's elements and missing none, is a permutation of it. */
  lemma {:induction false} CoveringIsPermutation(c: seq<nat>, whole: set<nat>)
    requires |c| == |whole| && forall x :: x in whole <==> x in c
    ensures multiset(c) == multiset(whole)
  {
    if c == [] {
      assert whole == {};
    } else {
      var n := |c| - 1;
      if c[n] in c[..n] {
        assert forall x :: x in whole ==> x in c[..n];
        ShortCover(c[..n], whole);
      } else {
        assert forall x :: x in whole - {c[n]} <==> x in c[..n];
        CoveringIsPermutation(c[..n], whole - {c[n]});
        assert c == c[..n] + [c[n]];
        assert whole == (whole - {c[n]}) + {c[n]};
      }
    }
  }

  lemma {:induction false} ShortCover(c: seq<nat>, whole: set<nat>)
    requires forall x :: x in whole ==> x in c
    ensures |whole| <= |c|
  {
    if c == [] {
      assert whole == {};
    } else {
      var n := |c| - 1;
      ShortCover(c[..n], whole - {c[n]});
    }
  }

  lemma EveryPageIsPicked(web: Web, s: nat, states: seq<Db>, steps: seq<Step>, a: nat, b: nat, p: nat)
    requires Settled(web, s, states, steps, a) && a <= b <= |steps|
    requires b - a == |PagesOf(states[a], s)| && p in PagesOf(states[a], s)
    requires forall i :: a <= i < b ==> QueuePick(states[i], steps[i], s)
    ensures !Waits(states, steps, s, p, a, b)
  {
    CountAll(QueueMarks(states, steps, s), a, b);
    RankBelowSize(states[a], s, p);
    if Waits(states, steps, s, p, a, b) {
      WaitIsBounded(web, s, states, steps, p, a, b);
    }
  }

  function ChosenPage(step: Step): nat {
    if step.CheckNext? && step.chosen.Some? then step.chosen.value else 0
  }

  /** The pages chosen by the steps from `a` up to `b`. */
  function ChosenPages(steps: seq<Step>, a: nat, b: nat): (picks: seq<nat>)
    requires a <= b <= |steps|
    ensures |picks| == b - a
    ensures forall i :: a <= i < b ==> picks[i - a] == ChosenPage(steps[i])
  {
    if a == b then [] else ChosenPages(steps, a, b - 1) + [ChosenPage(steps[b - 1])]
  }

  /** As many uninterrupted queue picks as there are pages visit every page exactly once. */
  lemma QueueGoesRound(web: Web, s: nat, states: seq<Db>, steps: seq<Step>, a: nat, b: nat)
    requires Settled(web, s, states, steps, a)
    requires a <= b <= |steps| && b - a == |PagesOf(states[a], s)|
    requires forall i :: a <= i < b ==> QueuePick(states[i], steps[i], s)
    ensures multiset(ChosenPages(steps, a, b)) == multiset(PagesOf(states[a], s))
  {
    forall p | p in PagesOf(states[a], s) ensures p in ChosenPages(steps, a, b) {
      EveryPageIsChosen(web, s, states, steps, a, b, p);
    }
    forall k | 0 <= k < b - a ensures ChosenPages(steps, a, b)[k] in PagesOf(states[a], s) {
      OnlyPagesAreChosen(web, s, states, steps, a, b, a + k);
    }
    CoveringIsPermutation(ChosenPages(steps, a, b), PagesOf(states[a], s));
  }

  lemma EveryPageIsChosen(web: Web, s: nat, states: seq<Db>, steps: seq<Step>, a: nat, b: nat, p: nat)
    requires Settled(web, s, states, steps, a) && a <= b <= |steps|
    requires b - a == |PagesOf(states[a], s)| && p in PagesOf(states[a], s)
    requires forall i :: a <= i < b ==> QueuePick(states[i], steps[i], s)
    ensures p in ChosenPages(steps, a, b)
  {
    EveryPageIsPicked(web, s, states, steps, a, b, p);
    var i :| a <= i < b && Takes(states[i], steps[i], s, p);
    assert QueuePick(states[i], steps[i], s);
    assert ChosenPages(steps, a, b)[i - a] == p;
  }

  lemma OnlyPagesAreChosen(web: Web, s: nat, states: seq<Db>, steps: seq<Step>, a: nat, b: nat, i: nat)
    requires Settled(web, s, states, steps, a) && a <= i < b <= |steps| && QueuePick(states[i], steps[i], s)
    ensures ChosenPages(steps, a, b)[i - a] in PagesOf(states[a], s)
  {
    StaysSettled(web, s, states, steps, a, i);
  }

  // ----- pages in error are retried in turn -----

  function OlderErrors(db: Db, s: nat, p: nat): set<nat>
    requires p in db.pages
  {
    set q | q in Errors(db, s) && db.pages[q].checkedAt < db.pages[p].checkedAt
  }

  predicate RetryPick(db: Db, step: Step, s: nat) {
    && step.CheckNext? && step.site == s && step.chosen.Some?
    && step.chosen.value in PagesOf(db, s)
    && BranchOf(db, s, step.coin) == Retry
  }

  /** A check puts its page among the pages to retry by the status it leaves, 300 excepted. */
  lemma ErrorAfterCheck(db: Db, p: nat, reply: Reply)
    requires Inv(db) && p in db.pages
    ensures p in Errors(Check(db, p, reply), db.pages[p].site)
            <==> !(200 <= CheckedRow(db, p, reply).status <= 300)
  {
    RowAfterCheck(db, p, reply);
  }

  function RetryMarks(states: seq<Db>, steps: seq<Step>, s: nat): (marks: seq<bool>)
    requires |steps| < |states|
    ensures |marks| == |steps|
  {
    seq(|steps|, i requires 0 <= i < |steps| => RetryPick(states[i], steps[i], s))
  }

  function RetryPicks(states: seq<Db>, steps: seq<Step>, s: nat, a: nat, b: nat): nat
    requires a <= b <= |steps| < |states|
  {
    Count(RetryMarks(states, steps, s), a, b)
  }

  /** The web as the single step sees it. */
  function SeenWeb(db: Db, step: Step, s: nat): Web {
    var ks := if step.CheckNext? || step.CheckOne? then Discovered(db, s, step.reply) else [];
    (k: Key) => set j | j in ks
  }

  lemma SeenIsStatic(db: Db, step: Step, s: nat)
    requires Spares(db, step, s)
    ensures StaticStep(SeenWeb(db, step, s), s, db, step)
  {
  }

  lemma VisitOlderErrors(web: Web, db: Db, db': Db, s: nat, c: nat, p: nat)
    requires Inv(db) && Visit(web, db, db', s, c)
    requires p in PagesOf(db, s) && p != c
    ensures p in db'.pages && db'.pages[p] == db.pages[p]
    ensures OlderErrors(db', s, p) <= OlderErrors(db, s, p) - {c}
  {
    VisitIs(web, db, db', s, c);
    assert RowOk(db, p);
    forall q | q in OlderErrors(db', s, p) ensures q in OlderErrors(db, s, p) - {c} {
      assert q in PagesOf(db, s) || NewTarget(db, db', s, web(db.pages[c].key), q);
    }
  }

  lemma RetryIsOlder(db: Db, step: Step, s: nat, p: nat)
    requires Inv(db) && RetryPick(db, step, s) && NextPage(db, s, step.coin, step.chosen)
    requires p in Errors(db, s) && p != step.chosen.value
    ensures step.chosen.value in OlderErrors(db, s, p)
  {
    assert Apart(db.pages[p], db.pages[step.chosen.value]);
  }

  lemma CheckOlderErrors(web: Web, s: nat, db: Db, step: Step, db': Db, p: nat, c: nat)
    requires Inv(db) && Next(db, step, db')
    requires Takes(db, step, s, c) && Visit(web, db, db', s, c)
    requires p in Errors(db, s) && p != c
    ensures p in Errors(db', s)
    ensures |OlderErrors(db', s, p)| + (if RetryPick(db, step, s) then 1 else 0) <= |OlderErrors(db, s, p)|
  {
    VisitOlderErrors(web, db, db', s, c, p);
    SubsetSize(OlderErrors(db', s, p), OlderErrors(db, s, p) - {c});
    if RetryPick(db, step, s) {
      RetryIsOlder(db, step, s, p);
    }
  }

  lemma QuietOlderErrors(db: Db, db': Db, s: nat, p: nat)
    requires Quiet(db, db', s) && p in PagesOf(db, s)
    ensures p in Errors(db', s) <==> p in Errors(db, s)
    ensures OlderErrors(db', s, p) == OlderErrors(db, s, p)
  {
  }

  lemma RetryTakes(db: Db, step: Step, s: nat)
    ensures RetryPick(db, step, s) ==> exists c :: Takes(db, step, s, c)
  {
    if RetryPick(db, step, s) {
      assert Takes(db, step, s, step.chosen.value);
    }
  }

  lemma StepOlderErrors(s: nat, db: Db, step: Step, db': Db, p: nat)
    requires Inv(db) && s in db.sites && Next(db, step, db') && Spares(db, step, s)
    requires p in Errors(db, s) && !Takes(db, step, s, p)
    ensures s in db'.sites && p in Errors(db', s)
    ensures |OlderErrors(db', s, p)| + (if RetryPick(db, step, s) then 1 else 0) <= |OlderErrors(db, s, p)|
  {
    var web := SeenWeb(db, step, s);
    SeenIsStatic(db, step, s);
    StepOnSite(web, s, db, step, db');
    if c :| Takes(db, step, s, c) {
      CheckOlderErrors(web, s, db, step, db', p, c);
    } else {
      RetryTakes(db, step, s);
      QuietOlderErrors(db, db', s, p);
    }
  }

  /** The rank of `p` among the pages in error; 0 where it is not stored. */
  function ErrorRanks(states: seq<Db>, s: nat, p: nat): (ranks: seq<nat>)
    ensures |ranks| == |states|
  {
    seq(|states|, i requires 0 <= i < |states| =>
      if p in states[i].pages then |OlderErrors(states[i], s, p)| else 0)
  }

  /** A page in error that is not checked stays in error. */
  lemma {:induction false} StaysInError(s: nat, states: seq<Db>, steps: seq<Step>, p: nat, a: nat, n: nat)
    requires Run(states, steps) && Inv(states[0]) && a <= n <= |steps|
    requires s in states[a].sites && p in Errors(states[a], s) && Waits(states, steps, s, p, a, n)
    requires forall i :: a <= i < n ==> Spares(states[i], steps[i], s)
    ensures s in states[n].sites && p in Errors(states[n], s)
  {
    if a < n {
      var i := n - 1;
      StaysInError(s, states, steps, p, a, i);
      RunKeepsInv(states, steps, i);
      assert Next(states[i], steps[i], states[i + 1]);
      StepOlderErrors(s, states[i], steps[i], states[i + 1], p);
    }
  }

  /**
   While a page in error waits, the retry branch serves at most as many other pages
   as were older errors at the start, whatever the answers and the other steps are.
   */
  lemma RetryWaitIsBounded(s: nat, states: seq<Db>, steps: seq<Step>, p: nat, a: nat, b: nat)
    requires Run(states, steps) && Inv(states[0]) && a <= b <= |steps|
    requires s in states[a].sites && p in Errors(states[a], s) && Waits(states, steps, s, p, a, b)
    requires forall i :: a <= i < b ==> Spares(states[i], steps[i], s)
    ensures p in Errors(states[b], s)
    ensures RetryPicks(states, steps, s, a, b) + |OlderErrors(states[b], s, p)| <= |OlderErrors(states[a], s, p)|
  {
    var marks, ranks := RetryMarks(states, steps, s), ErrorRanks(states, s, p);
    forall n | a <= n < b ensures ranks[n + 1] + (if marks[n] then 1 else 0) <= ranks[n] {
      RunKeepsInv(states, steps, n);
      StaysInError(s, states, steps, p, a, n);
      StepOlderErrors(s, states[n], steps[n], states[n + 1], p);
    }
    StaysInError(s, states, steps, p, a, b);
    RankBoundsCount(marks, ranks, a, b);
  }
}
