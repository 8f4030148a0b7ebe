/** Which page of a site is checked next. */
module Frontier {
  import opened Options
  import opened Tables

  /** Scheduled pages whose rotation has elapsed since their last check. */
  function Due(db: Db, s: nat): set<nat> {
    set p | p in PagesOf(db, s) && p in db.scheduled
            && db.pages[p].checkedAt + db.scheduled[p].rotation < db.clock
  }

  function CheckedPages(db: Db, s: nat): set<nat> {
    set p | p in PagesOf(db, s) && db.pages[p].isChecked
  }

  function Unchecked(db: Db, s: nat): set<nat> {
    set p | p in PagesOf(db, s) && !db.pages[p].isChecked
  }

  /** `Page.is_ok`. */
  predicate IsOk(row: Page) {
    200 <= row.status < 300
  }

  /** The status test of `Site.pages_with_errors`, whose upper bound is inclusive. */
  predicate IsError(row: Page) {
    row.isChecked && !(200 <= row.status <= 300)
  }

  function Errors(db: Db, s: nat): set<nat> {
    set p | p in PagesOf(db, s) && IsError(db.pages[p])
  }

  // ----- ordered queries: any first row of the requested order -----

  predicate FirstChecked(db: Db, ids: set<nat>, p: nat)
    requires ids <= db.pages.Keys
  {
    p in ids && forall q :: q in ids ==> db.pages[p].checkedAt <= db.pages[q].checkedAt
  }

  predicate FirstCreated(db: Db, ids: set<nat>, p: nat)
    requires ids <= db.pages.Keys
  {
    p in ids && forall q :: q in ids ==> db.pages[p].createdAt <= db.pages[q].createdAt
  }

  /** Scheduled pages are ordered by last check, then by the schedule's own times. */
  predicate ScheduledBefore(db: Db, p: nat, q: nat)
    requires p in db.pages && q in db.pages && p in db.scheduled && q in db.scheduled
  {
    var a, b := db.pages[p].checkedAt, db.pages[q].checkedAt;
    var x, y := db.scheduled[p], db.scheduled[q];
    a < b || (a == b && (x.updatedAt < y.updatedAt || (x.updatedAt == y.updatedAt && x.createdAt <= y.createdAt)))
  }

  predicate FirstDue(db: Db, s: nat, p: nat) {
    p in Due(db, s) && forall q :: q in Due(db, s) ==> ScheduledBefore(db, p, q)
  }

  // ----- the choice -----

  datatype Branch = Scheduled | Retry | New | Oldest | Rest

  function BranchOf(db: Db, s: nat, coin: bool): Branch {
    if Due(db, s) != {} then Scheduled
    else if Errors(db, s) != {} && coin then Retry
    else if Unchecked(db, s) != {} then New
    else if CheckedPages(db, s) != {} then Oldest
    else Rest
  }

  /** `next_page_to_check` may answer `r` when its coin falls as `coin`. */
  predicate NextPage(db: Db, s: nat, coin: bool, r: Option<nat>) {
    match BranchOf(db, s, coin)
    case Scheduled => r.Some? && FirstDue(db, s, r.value)
    case Retry => r.Some? && FirstChecked(db, Errors(db, s), r.value)
    case New => r.Some? && FirstCreated(db, Unchecked(db, s), r.value)
    case Oldest => r.Some? && FirstChecked(db, CheckedPages(db, s), r.value)
    case Rest => if r.Some? then FirstChecked(db, PagesOf(db, s), r.value) else PagesOf(db, s) == {}
  }

  // ----- every order has a first row -----

  lemma {:induction false} SomeFirstChecked(db: Db, ids: set<nat>) returns (p: nat)
    requires ids != {} && ids <= db.pages.Keys
    ensures FirstChecked(db, ids, p)
  {
    var q :| q in ids;
    p := q;
    if ids - {q} != {} {
      var r := SomeFirstChecked(db, ids - {q});
      p := if db.pages[r].checkedAt < db.pages[q].checkedAt then r else q;
      forall t | t in ids ensures db.pages[p].checkedAt <= db.pages[t].checkedAt {
        assert t == q || t in ids - {q};
      }
    } else {
      assert ids == {q};
    }
  }

  lemma {:induction false} SomeFirstCreated(db: Db, ids: set<nat>) returns (p: nat)
    requires ids != {} && ids <= db.pages.Keys
    ensures FirstCreated(db, ids, p)
  {
    var q :| q in ids;
    p := q;
    if ids - {q} != {} {
      var r := SomeFirstCreated(db, ids - {q});
      p := if db.pages[r].createdAt < db.pages[q].createdAt then r else q;
      forall t | t in ids ensures db.pages[p].createdAt <= db.pages[t].createdAt {
        assert t == q || t in ids - {q};
      }
    } else {
      assert ids == {q};
    }
  }

  lemma {:induction false} SomeFirstDue(db: Db, ids: set<nat>) returns (p: nat)
    requires ids != {} && ids <= db.pages.Keys && ids <= db.scheduled.Keys
    ensures p in ids && forall q :: q in ids ==> ScheduledBefore(db, p, q)
  {
    var q :| q in ids;
    p := q;
    if ids - {q} != {} {
      var r := SomeFirstDue(db, ids - {q});
      p := if ScheduledBefore(db, q, r) then q else r;
      forall t | t in ids ensures ScheduledBefore(db, p, t) {
        assert t == q || t in ids - {q};
      }
    } else {
      assert ids == {q};
    }
  }

  /**
   Selection is total over its branches: some answer is always possible, and
   every possible answer is a page of the site exactly when the site has one.
   */
  lemma SelectionIsTotal(db: Db, s: nat, coin: bool) returns (r: Option<nat>)
    ensures NextPage(db, s, coin, r)
    ensures forall t :: NextPage(db, s, coin, t) ==>
              (t.Some? <==> PagesOf(db, s) != {}) && (t.Some? ==> t.value in PagesOf(db, s))
  {
    match BranchOf(db, s, coin)
    case Scheduled => var p := SomeFirstDue(db, Due(db, s)); r := Some(p);
    case Retry => var p := SomeFirstChecked(db, Errors(db, s)); r := Some(p);
    case New => var p := SomeFirstCreated(db, Unchecked(db, s)); r := Some(p);
    case Oldest => var p := SomeFirstChecked(db, CheckedPages(db, s)); r := Some(p);
    case Rest =>
      assert PagesOf(db, s) == CheckedPages(db, s) + Unchecked(db, s);
      r := None;
  }

  /** Without schedules the answer is determined by the coin. */
  lemma SelectionIsUnique(db: Db, s: nat, coin: bool, r: Option<nat>, t: Option<nat>)
    requires Inv(db) && Due(db, s) == {}
    requires NextPage(db, s, coin, r) && NextPage(db, s, coin, t)
    ensures r == t
  {
    var _ := SelectionIsTotal(db, s, coin);
    if r.Some? && t.Some? {
      assert r.value != t.value ==> Apart(db.pages[r.value], db.pages[t.value]);
    }
  }

  /** The two status tests disagree on a checked page exactly at 300. */
  lemma ErrorUnlessOk(row: Page)
    requires row.isChecked
    ensures (IsError(row) <==> !IsOk(row)) <==> row.status != 300
  {
  }

  // ----- the answer, in terms of the rows -----

  /** `p` has a schedule, and more than its rotation has passed since its last check. */
  ghost predicate Overdue(db: Db, s: nat, p: nat) {
    p in db.pages && db.pages[p].site == s && p in db.scheduled
    && db.clock > db.pages[p].checkedAt + db.scheduled[p].rotation
  }

  /** `p` was checked with a status below 200 or above 300. */
  ghost predicate Broken(db: Db, s: nat, p: nat) {
    p in db.pages && db.pages[p].site == s && db.pages[p].isChecked
    && (db.pages[p].status < 200 || db.pages[p].status > 300)
  }

  ghost predicate Waiting(db: Db, s: nat, p: nat) {
    p in db.pages && db.pages[p].site == s && !db.pages[p].isChecked
  }

  ghost predicate OnSite(db: Db, s: nat, p: nat) {
    p in db.pages && db.pages[p].site == s
  }

  /** Of two scheduled pages, `q` was checked before `p`; or neither before, and scheduled before. */
  ghost predicate Sooner(db: Db, q: nat, p: nat)
    requires p in db.pages && q in db.pages && p in db.scheduled && q in db.scheduled
  {
    if db.pages[q].checkedAt != db.pages[p].checkedAt then db.pages[q].checkedAt < db.pages[p].checkedAt
    else if db.scheduled[q].updatedAt != db.scheduled[p].updatedAt
      then db.scheduled[q].updatedAt < db.scheduled[p].updatedAt
    else db.scheduled[q].createdAt < db.scheduled[p].createdAt
  }

  /**
   An overdue page, if there is one, no other being sooner; else, if the coin asks
   for it, the broken page checked longest ago; else the waiting page created first;
   else the page checked longest ago; and nothing only if the site has no page.
   */
  ghost predicate Offered(db: Db, s: nat, coin: bool, r: Option<nat>) {
    if exists q :: Overdue(db, s, q)
      then r.Some? && Overdue(db, s, r.value) && !exists q :: Overdue(db, s, q) && Sooner(db, q, r.value)
    else if coin && exists q :: Broken(db, s, q)
      then r.Some? && Broken(db, s, r.value)
           && !exists q :: Broken(db, s, q) && db.pages[q].checkedAt < db.pages[r.value].checkedAt
    else if exists q :: Waiting(db, s, q)
      then r.Some? && Waiting(db, s, r.value)
           && !exists q :: Waiting(db, s, q) && db.pages[q].createdAt < db.pages[r.value].createdAt
    else if exists q :: OnSite(db, s, q)
      then r.Some? && OnSite(db, s, r.value)
           && !exists q :: OnSite(db, s, q) && db.pages[q].checkedAt < db.pages[r.value].checkedAt
    else r.None?
  }

  /** The four-way choice offers exactly those pages. */
  lemma SelectionMeans(db: Db, s: nat, coin: bool, r: Option<nat>)
    ensures NextPage(db, s, coin, r) <==> Offered(db, s, coin, r)
  {
    DueMeans(db, s);
    ErrorsMean(db, s);
    QueuesMean(db, s);
    if exists q :: Overdue(db, s, q) {
      FirstDueMeans(db, s, r);
    }
  }

  lemma DueMeans(db: Db, s: nat)
    ensures forall q :: q in Due(db, s) <==> Overdue(db, s, q)
    ensures Due(db, s) != {} <==> exists q :: Overdue(db, s, q)
  {
    assert forall q :: q in Due(db, s) <==> Overdue(db, s, q);
    if Due(db, s) != {} {
      var q :| q in Due(db, s);
    }
  }

  lemma FirstDueMeans(db: Db, s: nat, r: Option<nat>)
    ensures (r.Some? && FirstDue(db, s, r.value))
            <==> (r.Some? && Overdue(db, s, r.value) && !exists q :: Overdue(db, s, q) && Sooner(db, q, r.value))
  {
    DueMeans(db, s);
    if r.Some? && Overdue(db, s, r.value) {
      forall q | Overdue(db, s, q) ensures ScheduledBefore(db, r.value, q) <==> !Sooner(db, q, r.value) {
      }
    }
  }

  lemma ErrorsMean(db: Db, s: nat)
    ensures forall q :: q in Errors(db, s) <==> Broken(db, s, q)
    ensures Errors(db, s) != {} <==> exists q :: Broken(db, s, q)
  {
    assert forall q :: q in Errors(db, s) <==> Broken(db, s, q);
    if Errors(db, s) != {} {
      var q :| q in Errors(db, s);
    }
  }

  lemma QueuesMean(db: Db, s: nat)
    ensures forall q :: q in Unchecked(db, s) <==> Waiting(db, s, q)
    ensures Unchecked(db, s) != {} <==> exists q :: Waiting(db, s, q)
    ensures forall q :: q in PagesOf(db, s) <==> OnSite(db, s, q)
    ensures Unchecked(db, s) == {} ==> CheckedPages(db, s) == PagesOf(db, s)
    ensures PagesOf(db, s) != {} <==> exists q :: OnSite(db, s, q)
  {
    assert forall q :: q in Unchecked(db, s) <==> Waiting(db, s, q);
    assert forall q :: q in PagesOf(db, s) <==> OnSite(db, s, q);
    assert PagesOf(db, s) == CheckedPages(db, s) + Unchecked(db, s);
    if Unchecked(db, s) != {} {
      var q :| q in Unchecked(db, s);
    }
    if PagesOf(db, s) != {} {
      var q :| q in PagesOf(db, s);
    }
  }
}
