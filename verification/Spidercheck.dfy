/**
 The crawler itself: tables that its operations update in place.  Each operation
 is proved to move the rows as the corresponding function of the model says.
 */
module Spidercheck {
  import opened Options
  import opened Tables
  import opened Frontier
  import C = Checks
  import S = Steps
  import M = Machine
  import X = Expunging
  import E = Effects
  import Url

  class Database {
    var sites: map<nat, Site>
    var pages: map<nat, Page>
    var links: set<Link>
    var values: map<Slot, string>
    var scheduled: map<nat, Schedule>
    var clock: nat
    var nextSite: nat
    var nextPage: nat

    function Rows(): Db
      reads this
    {
      Db(sites, pages, links, values, scheduled, clock, nextSite, nextPage)
    }

    ghost predicate Valid()
      reads this
    {
      Inv(Rows())
    }

    constructor ()
      ensures Valid() && Rows() == EMPTY
    {
      sites, pages, links, values, scheduled := map[], map[], {}, map[], map[];
      clock, nextSite, nextPage := EPOCH, 0, 0;
    }

    // ----- selecting a page -----

    method NextPageToCheck(s: nat, coin: bool) returns (r: Option<nat>)
      ensures NextPage(Rows(), s, coin, r) && Offered(Rows(), s, coin, r)
    {
      var db := Rows();
      SelectionOffers(db, s, coin);
      var due := Due(db, s);
      if due != {} {
        var _ := SomeFirstDue(db, due);
        var p :| p in due && forall q :: q in due ==> ScheduledBefore(db, p, q);
        return Some(p);
      }
      var errors := Errors(db, s);
      if errors != {} && coin {
        var p := OldestOf(errors);
        return Some(p);
      }
      var queued := Unchecked(db, s);
      if queued != {} {
        var _ := SomeFirstCreated(db, queued);
        var p :| p in queued && forall q :: q in queued ==> db.pages[p].createdAt <= db.pages[q].createdAt;
        return Some(p);
      }
      queued := CheckedPages(db, s);
      if queued != {} {
        var p := OldestOf(queued);
        return Some(p);
      }
      assert PagesOf(db, s) == CheckedPages(db, s) + Unchecked(db, s);
      return None;
    }

    lemma SelectionOffers(db: Db, s: nat, coin: bool)
      ensures forall r :: NextPage(db, s, coin, r) ==> Offered(db, s, coin, r)
    {
      forall r | NextPage(db, s, coin, r) ensures Offered(db, s, coin, r) {
        SelectionMeans(db, s, coin, r);
      }
    }

    method OldestOf(ids: set<nat>) returns (p: nat)
      requires ids != {} && ids <= pages.Keys
      ensures FirstChecked(Rows(), ids, p)
    {
      var db := Rows();
      var _ := SomeFirstChecked(db, ids);
      p :| p in ids && forall q :: q in ids ==> db.pages[p].checkedAt <= db.pages[q].checkedAt;
    }

    // ----- adding pages -----

    /** `Site.load_or_create`. */
    method LoadOrCreate(s: nat, k: Key) returns (p: nat, created: bool)
      requires Valid() && s in sites
      modifies this
      ensures Valid() && Rows() == AddPage(old(Rows()), s, k)
      ensures StoredAs(Rows(), s, k, p)
      ensures created <==> !Stored(old(Rows()), s, k)
    {
      ghost var start := Rows();
      if exists q :: q in pages && StoredAs(Rows(), s, k, q) {
        p :| p in pages && StoredAs(Rows(), s, k, p);
        created := false;
        assert Stored(start, s, k);
      } else {
        assert !Stored(start, s, k);
        p, created := nextPage, true;
        clock := clock + 1;
        pages := pages[p := FreshPage(s, k, 0, clock)];
        nextPage := nextPage + 1;
        assert Rows() == CreatePage(start, s, k, 0);
        CreateKeepsInv(start, s, k, 0);
      }
    }

    /** `Site.add_page`: the address is split, and its fragment dropped, before the lookup. */
    method AddUrl(s: nat, url: string) returns (p: nat, created: bool)
      requires Valid() && s in sites
      modifies this
      ensures Valid() && Rows() == AddPage(old(Rows()), s, KeyOf(url))
      ensures StoredAs(Rows(), s, KeyOf(url), p)
      ensures created <==> !Stored(old(Rows()), s, KeyOf(url))
    {
      var info := Url.Parse(url);
      p, created := LoadOrCreate(s, Key(info.path, info.query));
    }

    // ----- checking one page -----

    /** Incremental reconciliation: links are added as they are met, stale ones removed at the end. */
    method UpdateLinks(p: nat, urls: seq<string>) returns (removed: set<nat>, added: set<nat>)
      requires Valid() && p in pages
      modifies this
      ensures Valid() && Rows() == C.UpdateLinks(old(Rows()), p, Keys(urls))
      ensures removed == Outgoing(old(Rows()), p) - Outgoing(Rows(), p)
      ensures added == Outgoing(Rows(), p) - Outgoing(old(Rows()), p)
    {
      ghost var start, s := Rows(), pages[p].site;
      var before := Outgoing(Rows(), p);
      var after := LinkAll(p, urls);
      removed, added := before - after, after - before;
      RemoveStale(start, p, s, Keys(urls), removed);
    }

    /** The links to targets no longer named go, if there are any. */
    method RemoveStale(ghost start: Db, p: nat, ghost s: nat, ghost ks: seq<Key>, removed: set<nat>)
      requires Inv(start) && p in start.pages && start.pages[p].site == s && Rows() == C.LinkedSoFar(start, p, s, ks)
      requires removed == Outgoing(start, p) - C.TargetsSoFar(start, s, ks)
      modifies this`links
      ensures Valid() && Rows() == C.UpdateLinks(start, p, ks)
      ensures Outgoing(Rows(), p) == C.TargetsSoFar(start, s, ks)
    {
      if removed != {} {
        links := set l | l in links && !(l.source == p && l.target in removed);
      }
      C.ReconciledLinks(start, p, s, ks, removed);
    }

    /** The loop over the addresses: pages are added, and links to the linkable ones. */
    method LinkAll(p: nat, urls: seq<string>) returns (after: set<nat>)
      requires Valid() && p in pages
      modifies this
      ensures Rows() == C.LinkedSoFar(old(Rows()), p, old(pages[p].site), Keys(urls))
      ensures after == C.TargetsSoFar(old(Rows()), old(pages[p].site), Keys(urls))
    {
      ghost var start := Rows();
      var s := pages[p].site;
      after := {};
      var i := 0;
      C.NothingLinkedYet(start, p, s);
      assert Keys(urls[..0]) == [];
      while i < |urls|
        invariant i <= |urls|
        invariant Rows() == C.LinkedSoFar(start, p, s, Keys(urls[..i]))
        invariant after == C.TargetsSoFar(start, s, Keys(urls[..i]))
      {
        KeysExtend(urls, i);
        after := LinkOne(start, Keys(urls[..i]), p, s, urls[i], after);
        i := i + 1;
      }
      assert urls[..i] == urls;
    }

    method LinkOne(ghost start: Db, ghost ks: seq<Key>, p: nat, s: nat, url: string, linked: set<nat>)
      returns (after: set<nat>)
      requires Inv(start) && p in start.pages && start.pages[p].site == s
      requires Rows() == C.LinkedSoFar(start, p, s, ks) && linked == C.TargetsSoFar(start, s, ks)
      modifies this
      ensures Rows() == C.LinkedSoFar(start, p, s, ks + [KeyOf(url)])
      ensures after == C.TargetsSoFar(start, s, ks + [KeyOf(url)])
    {
      var target := AddTarget(start, ks, p, s, url);
      after := GetOrCreateLink(p, target, linked);
    }

    method AddTarget(ghost start: Db, ghost ks: seq<Key>, p: nat, s: nat, url: string) returns (target: nat)
      requires Inv(start) && p in start.pages && start.pages[p].site == s
      requires Rows() == C.LinkedSoFar(start, p, s, ks)
      modifies this
      ensures Rows() == AddPage(old(Rows()), s, KeyOf(url)) && target in pages
      ensures C.LinkedSoFar(start, p, s, ks + [KeyOf(url)])
           == Rows().(links := links + (if pages[target].isLinkable then {Link(p, target)} else {}))
      ensures C.TargetsSoFar(start, s, ks + [KeyOf(url)])
           == C.TargetsSoFar(start, s, ks) + (if pages[target].isLinkable then {target} else {})
    {
      C.LinkedKeepsInv(start, p, s, ks);
      var created;
      target, created := AddUrl(s, url);
      C.LinkedExtend(start, p, s, ks, KeyOf(url), target);
    }

    /** A linkable target gets its link, unless it has it, and joins the targets. */
    method GetOrCreateLink(p: nat, target: nat, linked: set<nat>) returns (after: set<nat>)
      requires target in pages
      modifies this`links
      ensures links == old(links) + (if pages[target].isLinkable then {Link(p, target)} else {})
      ensures after == linked + (if pages[target].isLinkable then {target} else {})
    {
      after := linked;
      if pages[target].isLinkable {
        if Link(p, target) !in links {
          links := links + {Link(p, target)};
        }
        after := after + {target};
      }
    }

    /** `Value.upsert`: the slot is found or created, then its text is set. */
    method Upsert(p: nat, name: string, value: C.Datum)
      modifies this`values
      ensures values == old(values)[Slot(p, name) := C.Str(value)]
    {
      if Slot(p, name) !in values {
        values := values[Slot(p, name) := ""];
      }
      values := values[Slot(p, name) := C.Str(value)];
    }

    method MergeRuns(runs: seq<C.PluginRun>) returns (merged: map<string, C.Datum>, failures: nat)
      ensures merged == C.Merge(runs)
      ensures failures == 0 <==> C.AllReturned(runs)
    {
      merged, failures := map[], 0;
      var i := 0;
      while i < |runs|
        invariant i <= |runs|
        invariant merged == C.Merge(runs[..i])
        invariant failures == 0 <==> C.AllReturned(runs[..i])
      {
        assert runs[..i + 1][..i] == runs[..i];
        match runs[i] {
          case Raised => failures := failures + 1;
          case Returned(values) => merged := merged + values;
        }
        i := i + 1;
      }
      assert runs[..|runs|] == runs;
    }

    /** Stale values go, then every merged value is written. */
    method RunPlugins(p: nat, runs: seq<C.PluginRun>) returns (ok: bool)
      modifies this`values
      ensures Rows() == C.RunPlugins(old(Rows()), p, runs)
      ensures ok <==> C.AllReturned(runs)
    {
      var merged, failures := MergeRuns(runs);
      DropStale(p, merged.Keys);
      WriteAll(p, merged);
      C.ReplaceValuesIs(old(Rows()), p, C.Strings(merged), values);
      ok := failures == 0;
    }

    /** Removes the values of the page that are not among the names. */
    method DropStale(p: nat, names: set<string>)
      modifies this`values
      ensures forall slot :: slot in values ==> slot in old(values) && values[slot] == old(values)[slot]
      ensures forall slot :: slot in old(values) && slot.page != p ==> slot in values
      ensures forall slot :: slot in values && slot.page == p ==> slot.name in names
    {
      var before := set slot | slot in values && slot.page == p :: slot.name;
      var stale := before - names;
      assert forall slot :: slot in values && slot.page == p ==> slot.name in before;
      assert forall name :: name in before ==> name in names || name in stale;
      if stale != {} {
        values := map slot | slot in values && !(slot.page == p && slot.name in stale) :: values[slot];
      }
    }

    method WriteAll(p: nat, merged: map<string, C.Datum>)
      modifies this`values
      ensures forall slot: Slot :: slot.page != p || slot.name !in merged ==>
                (slot in values <==> slot in old(values)) && (slot in values ==> values[slot] == old(values)[slot])
      ensures forall name :: name in merged ==> Slot(p, name) in values && values[Slot(p, name)] == C.Str(merged[name])
    {
      var todo := merged.Keys;
      while todo != {}
        invariant todo <= merged.Keys
        invariant forall slot: Slot :: slot.page != p || slot.name !in merged ==>
                    (slot in values <==> slot in old(values)) && (slot in values ==> values[slot] == old(values)[slot])
        invariant forall name :: name in merged.Keys - todo ==>
                    Slot(p, name) in values && values[Slot(p, name)] == C.Str(merged[name])
      {
        var name :| name in todo;
        Upsert(p, name, merged[name]);
        todo := todo - {name};
      }
    }

    /** `check_page`. */
    method CheckPage(p: nat, reply: C.Reply) returns (report: C.Report)
      requires Valid() && p in pages
      modifies this
      ensures Valid() && Rows() == C.Check(old(Rows()), p, reply)
      ensures M.Next(old(Rows()), M.CheckOne(p, reply), Rows())
      ensures report == C.CheckReport(old(Rows()), p, reply)
    {
      ghost var start := Rows();
      C.CheckKeepsInv(start, p, reply);
      C.TouchKeepsInv(start, p, reply);
      SiteIsStored(start, p);
      report := CheckRow(start, p, reply);
    }

    lemma SiteIsStored(db: Db, p: nat)
      requires Inv(db) && p in db.pages
      ensures db.pages[p].site in db.sites
    {
      assert RowOk(db, p);
    }

    /** The row is stamped and saved first; the page is read only if it says it is HTML. */
    method CheckRow(ghost start: Db, p: nat, reply: C.Reply) returns (report: C.Report)
      requires Rows() == start && p in pages && pages[p].site in sites && Inv(C.Touch(start, p, reply))
      modifies this
      ensures Rows() == C.Check(start, p, reply)
      ensures report == C.CheckReport(start, p, reply)
    {
      clock := clock + 1;
      var row := pages[p].(isChecked := true, checkedAt := clock);
      if reply.Refused? {
        pages := pages[p := row.(status := reply.code)];
        return C.Failed;
      }
      report := CheckAnswer(start, p, row, reply);
    }

    method CheckAnswer(ghost start: Db, p: nat, stamped: Page, reply: C.Reply) returns (report: C.Report)
      requires p in start.pages && start.pages[p].site in sites && reply.Answered? && Inv(C.Touch(start, p, reply))
      requires stamped == start.pages[p].(isChecked := true, checkedAt := start.clock + 1)
      requires Rows() == start.(clock := start.clock + 1)
      modifies this
      ensures Rows() == C.Check(start, p, reply)
      ensures report == C.CheckReport(start, p, reply)
    {
      var row := stamped.(status := reply.status,
                          contentType := C.ContentType(reply.contentType), sizeBytes := reply.sizeBytes);
      assert row == C.AnsweredRow(start, p, reply);
      pages := pages[p := row];
      if C.SaysHtml(reply) {
        report := ReadPage(start, p, row, reply);
      } else {
        C.NotHtmlIsSaved(start, p, reply);
        report := C.Visited;
      }
    }

    /** The HTML part of a check: read the page if it is local, drop its links otherwise. */
    method ReadPage(ghost start: Db, p: nat, row: Page, reply: C.Reply) returns (report: C.Report)
      requires p in start.pages && C.SaysHtml(reply) && row.site in sites && Inv(C.Touch(start, p, reply))
      requires row == C.AnsweredRow(start, p, reply)
      requires Rows() == C.SavePage(start.(clock := start.clock + 1), p, row)
      modifies this
      ensures Rows() == C.Check(start, p, reply)
      ensures report == C.CheckReport(start, p, reply)
    {
      C.ReadCases(start, p, reply);
      var site := sites[row.site];
      if !Url.IsLocal(site.scheme, site.netloc, reply.url) {
        links := set l | l in links && l.source != p;
        report := C.Visited;
      } else {
        report := ReadBody(start, p, row, reply);
      }
    }

    method ReadBody(ghost start: Db, p: nat, row: Page, reply: C.Reply) returns (report: C.Report)
      requires p in start.pages && C.SaysHtml(reply) && row.site in sites && Inv(C.Touch(start, p, reply))
      requires row == C.AnsweredRow(start, p, reply) && C.LocalReply(start, row.site, reply)
      requires Rows() == C.SavePage(start.(clock := start.clock + 1), p, row)
      modifies this
      ensures Rows() == C.Check(start, p, reply)
      ensures report == C.CheckReport(start, p, reply)
    {
      C.ReadCases(start, p, reply);
      match reply.body {
        case Unreadable =>
          report := C.Crashed;
        case Invalid =>
          pages := pages[p := row.(status := C.TEAPOT)];
          report := C.Failed;
        case Html(urls, runs) =>
          report := Expand(start, p, reply);
      }
    }

    method Expand(ghost start: Db, p: nat, reply: C.Reply) returns (report: C.Report)
      requires p in start.pages && C.Expands(start, start.pages[p].site, reply)
      requires Valid() && Rows() == C.Touch(start, p, reply)
      modifies this
      ensures Rows() == C.Check(start, p, reply)
      ensures report == C.CheckReport(start, p, reply)
    {
      var removed, added := UpdateLinks(p, reply.body.urls);
      var ok := RunPlugins(p, reply.body.runs);
      C.LinksDecide(start, C.Touch(start, p, reply));
      C.LinksDecide(Rows(), C.UpdateLinks(C.Touch(start, p, reply), p, Keys(reply.body.urls)));
      report := C.Crawled(added, removed, ok);
    }

    // ----- crawling -----

    /**
     `check_site`: picks a page, checks it, and yields the report, up to `num` times.
     `coins` and `answers` stand for the random choices and for the web.
     */
    method CheckSite(s: nat, num: int, coins: nat -> bool, answers: (nat, Key) -> C.Reply)
      returns (reports: seq<C.Report>, crashed: bool, ghost states: seq<Db>, ghost steps: seq<M.Step>)
      requires Valid()
      modifies this
      ensures Valid()
      ensures Trace(old(Rows()), Rows(), s, coins, answers, states, steps, reports)
      ensures !crashed ==> |reports| == |steps| == if PagesOf(old(Rows()), s) == {} || num <= 0 then 0 else num
      ensures crashed ==> |reports| + 1 == |steps| <= num
                          && TurnReport(states[|reports|], steps[|reports|]) == C.Crashed
    {
      ghost var start := Rows();
      reports, states, steps := [], [start], [];
      var left := num;
      var page := NextPageToCheck(s, coins(0));
      while page.Some? && left > 0
        invariant Valid() && |steps| == |reports| && left == num - |reports| && (|reports| > 0 ==> left >= 0)
        invariant Trace(start, Rows(), s, coins, answers, states, steps, reports)
        invariant NextPage(Rows(), s, coins(|reports|), page)
        decreases left
      {
        ghost var db := Rows();
        SelectionMeansPages(db, s, coins(|reports|), page);
        var reply := answers(|reports|, pages[page.value].key);
        var report := CheckPage(page.value, reply);
        states, steps := ExtendTrace(start, db, s, coins, answers, states, steps, reports, page.value, reply);
        if report.Crashed? {
          return reports, true, states, steps;
        }
        reports := reports + [report];
        left := left - 1;
        page := NextPageToCheck(s, coins(|reports|));
      }
      SelectionMeansPages(Rows(), s, coins(|reports|), page);
      crashed := false;
    }

    // ----- sites -----

    /** `init_site`: an error, and no change, when the name or the address is taken. */
    method InitSite(url: string, name: string) returns (outcome: S.InitOutcome)
      requires Valid()
      modifies this
      ensures Valid() && Rows() == S.InitSite(old(Rows()), url, name)
      ensures M.Next(old(Rows()), M.Init(url, name), Rows())
      ensures outcome == S.InitOutcomeOf(old(Rows()), url, name)
    {
      S.InitSiteKeepsInv(Rows(), url, name);
      if exists s :: s in sites && sites[s].name == name {
        return S.NameTaken;
      }
      var site := S.SiteOf(url, name);
      if exists s :: s in sites && SameAddress(sites[s], site) {
        return S.AddressTaken;
      }
      var s := SaveSite(site);
      return S.Created(s);
    }

    /** The site row, then its seed page. */
    method SaveSite(site: Site) returns (s: nat)
      modifies this
      ensures Rows() == CreatePage(S.AddSite(old(Rows()), site), old(nextSite), Key(site.path, ""), -1)
      ensures s == old(nextSite)
    {
      s := nextSite;
      sites, nextSite := sites[s := site], s + 1;
      clock := clock + 1;
      pages := pages[nextPage := FreshPage(s, Key(site.path, ""), -1, clock)];
      nextPage := nextPage + 1;
    }

    /** `reset_site`: an error, and no change, when there is no such site. */
    method ResetSite(name: string) returns (found: bool)
      requires Valid()
      modifies this
      ensures Valid() && Rows() == S.ResetSite(old(Rows()), name)
      ensures M.Next(old(Rows()), M.Reset(name), Rows())
      ensures found <==> S.NameUsed(old(Rows()), name)
    {
      found := exists s :: s in sites && sites[s].name == name;
      if found {
        var s :| s in sites && sites[s].name == name;
        ghost var gone := PagesOf(Rows(), s);
        S.DeletePagesKeepsInv(Rows(), gone);
        DeleteRows(PagesOf(Rows(), s));
        var _, _ := AddUrl(s, sites[s].path);
      }
    }

    // ----- pages -----

    /** Deletion of page rows, with everything that refers to them. */
    method DeleteRows(gone: set<nat>)
      modifies this
      ensures Rows() == DeletePages(old(Rows()), gone)
    {
      links := set l | l in links && l.source !in gone && l.target !in gone;
      values := map slot | slot in values && slot.page !in gone :: values[slot];
      scheduled := scheduled - gone;
      pages := pages - gone;
    }

    /** `toogle_is_linkable`, answering how many links it removed. */
    method ToggleIsLinkable(p: nat) returns (counter: nat)
      requires Valid() && p in pages
      modifies this
      ensures Valid() && Rows() == S.Toggle(old(Rows()), p) && E.Flipped(old(Rows()), Rows(), p)
      ensures M.Next(old(Rows()), M.ToggleLinkable(p), Rows())
      ensures counter == if old(pages[p].isLinkable) then |Incoming(old(Rows()), p)| else 0
    {
      S.ToggleKeepsInv(Rows(), p);
      E.ToggleMeans(Rows(), p);
      ToggleIsStep(Rows(), p);
      counter := FlipFlag(p);
    }

    lemma ToggleIsStep(db: Db, p: nat)
      requires p in db.pages
      ensures M.Next(db, M.ToggleLinkable(p), S.Toggle(db, p))
    {
    }

    method FlipFlag(p: nat) returns (counter: nat)
      requires p in pages
      modifies this
      ensures Rows() == S.Toggle(old(Rows()), p)
      ensures counter == if old(pages[p].isLinkable) then |Incoming(old(Rows()), p)| else 0
    {
      var linkable := !pages[p].isLinkable;
      counter := 0;
      if !linkable {
        counter := |Incoming(Rows(), p)|;
        links := set l | l in links && l.target != p;
      }
      pages := pages[p := pages[p].(isLinkable := linkable)];
    }

    /** `page_delete`: refused while some page links to this one. */
    method PageDelete(p: nat) returns (deleted: bool)
      requires Valid() && p in pages
      modifies this
      ensures Valid() && Rows() == S.Delete(old(Rows()), p)
      ensures M.Next(old(Rows()), M.DeleteOne(p), Rows())
      ensures deleted <==> CanBeDeleted(old(Rows()), p)
    {
      S.DeletePagesKeepsInv(Rows(), {p});
      deleted := CanBeDeleted(Rows(), p);
      if deleted {
        DeleteRows({p});
      }
    }

    /** One turn of a deletion loop that started from `before` and has been through `rows`. */
    method ExpungeOne(ghost before: Db, ghost rows: seq<nat>, p: nat) returns (deleted: bool)
      requires Inv(before) && Rows() == S.Expunge(before, rows)
      requires p in before.pages && p !in rows
      modifies this
      ensures Rows() == S.Expunge(before, rows + [p])
      ensures |pages| + (if deleted then 1 else 0) == old(|pages|)
    {
      S.ExpungeKeepsInv(before, rows);
      ExpungeTurn(before, rows, p);
      deleted := PageDelete(p);
    }

    /** The deletion loop: each page is deleted if nothing links to it by then. */
    method DeleteEach(rows: seq<nat>) returns (counter: nat)
      requires Valid() && S.Selection(Rows(), rows)
      modifies this
      ensures Rows() == S.Expunge(old(Rows()), rows)
      ensures counter + |pages| == |old(pages)|
    {
      ghost var before := Rows();
      counter := 0;
      var i := 0;
      while i < |rows|
        invariant i <= |rows| && Rows() == S.Expunge(before, rows[..i])
        invariant counter + |pages| == |before.pages|
      {
        NextSelected(before, rows, i);
        var deleted := ExpungeOne(before, rows[..i], rows[i]);
        if deleted {
          counter := counter + 1;
        }
        i := i + 1;
      }
      assert rows[..|rows|] == rows;
    }

    /** The selected pages of a site, oldest first. */
    method SelectedRows(s: nat, ids: seq<int>) returns (rows: seq<nat>)
      ensures S.Selection(Rows(), rows)
      ensures forall p :: p in rows <==> p in PagesOf(Rows(), s) && p in ids
      ensures forall i, j :: 0 <= i < j < |rows| ==> pages[rows[i]].createdAt <= pages[rows[j]].createdAt
    {
      var selected := set p | p in pages && pages[p].site == s && p in ids;
      var remaining := selected;
      rows := [];
      while remaining != {}
        invariant remaining <= selected
        invariant OldestTaken(Rows(), selected, remaining, rows)
      {
        var _ := SomeFirstCreated(Rows(), remaining);
        var p :| p in remaining && forall q :: q in remaining ==> pages[p].createdAt <= pages[q].createdAt;
        TakeOldest(Rows(), selected, remaining, rows, p);
        rows := rows + [p];
        remaining := remaining - {p};
      }
    }

    /** `site_expunge`: the selected pages of the site, oldest first. */
    method SiteExpunge(s: nat, ids: seq<int>) returns (counter: nat, rows: seq<nat>)
      requires Valid()
      modifies this
      ensures Valid() && S.Selection(old(Rows()), rows)
      ensures forall p :: p in rows <==> p in PagesOf(old(Rows()), s) && p in ids
      ensures forall i, j :: 0 <= i < j < |rows| ==> old(pages)[rows[i]].createdAt <= old(pages)[rows[j]].createdAt
      ensures Rows() == S.Expunge(old(Rows()), rows) && M.Next(old(Rows()), M.ExpungeRows(rows), Rows())
      ensures counter == |old(pages)| - |pages|
    {
      rows := SelectedRows(s, ids);
      S.ExpungeKeepsInv(Rows(), rows);
      counter := DeleteEach(rows);
    }

    /** `site_expunge_all`, over the orphan list as it was loaded. */
    method SiteExpungeAll(orphans: seq<nat>) returns (counter: nat)
      requires Valid() && S.Selection(Rows(), orphans)
      modifies this
      ensures Valid() && Rows() == S.Expunge(old(Rows()), orphans)
      ensures M.Next(old(Rows()), M.ExpungeRows(orphans), Rows())
      ensures counter == |old(pages)| - |pages|
    {
      S.ExpungeKeepsInv(Rows(), orphans);
      counter := DeleteEach(orphans);
    }
  }

  /** `rows` are the rows of `selected` that do not remain, oldest first, none younger than one that does. */
  ghost predicate OldestTaken(db: Db, selected: set<nat>, remaining: set<nat>, rows: seq<nat>) {
    && selected <= db.pages.Keys && remaining <= selected
    && (forall p :: p in rows <==> p in selected - remaining)
    && S.Selection(db, rows)
    && (forall i, j :: 0 <= i < j < |rows| ==> db.pages[rows[i]].createdAt <= db.pages[rows[j]].createdAt)
    && (forall p, q :: p in rows && q in remaining ==> db.pages[p].createdAt <= db.pages[q].createdAt)
  }

  lemma TakeOldest(db: Db, selected: set<nat>, remaining: set<nat>, rows: seq<nat>, p: nat)
    requires OldestTaken(db, selected, remaining, rows) && FirstCreated(db, remaining, p)
    ensures OldestTaken(db, selected, remaining - {p}, rows + [p])
  {
    var longer := rows + [p];
    forall q ensures q in longer <==> q in selected - (remaining - {p}) {
      assert q in longer <==> q in rows || q == p;
    }
    forall i | 0 <= i < |rows| ensures rows[i] != p && db.pages[rows[i]].createdAt <= db.pages[p].createdAt {
      assert rows[i] in rows;
    }
  }

  // ----- facts about single turns -----

  /** The step is the `i`-th turn of `check_site`. */
  ghost predicate CheckTurn(db: Db, step: M.Step, s: nat, coin: bool, answers: (nat, Key) -> C.Reply, i: nat) {
    && step.CheckNext? && step.site == s && step.coin == coin
    && step.chosen.Some? && step.chosen.value in PagesOf(db, s)
    && step.reply == answers(i, db.pages[step.chosen.value].key)
  }

  ghost function TurnReport(db: Db, step: M.Step): C.Report {
    if step.CheckNext? && step.chosen.Some? && step.chosen.value in db.pages
    then C.CheckReport(db, step.chosen.value, step.reply)
    else C.Failed
  }

  lemma SelectionMeansPages(db: Db, s: nat, coin: bool, r: Option<nat>)
    requires NextPage(db, s, coin, r)
    ensures r.Some? <==> PagesOf(db, s) != {}
    ensures r.Some? ==> r.value in PagesOf(db, s)
  {
    var _ := SelectionIsTotal(db, s, coin);
  }

  /** What `check_site` did so far: a run of its own turns, one report per turn but a crashed one. */
  ghost predicate Trace(start: Db, db: Db, s: nat, coins: nat -> bool, answers: (nat, Key) -> C.Reply,
      states: seq<Db>, steps: seq<M.Step>, reports: seq<C.Report>) {
    && M.Run(states, steps) && states[0] == start && states[|steps|] == db
    && (forall i :: 0 <= i < |steps| ==> CheckTurn(states[i], steps[i], s, coins(i), answers, i))
    && |reports| <= |steps|
    && (forall i :: 0 <= i < |reports| ==> reports[i] == TurnReport(states[i], steps[i]) != C.Crashed)
    && (PagesOf(db, s) == {} <==> PagesOf(start, s) == {})
  }

  lemma ExtendTrace(start: Db, db: Db, s: nat, coins: nat -> bool, answers: (nat, Key) -> C.Reply,
      states: seq<Db>, steps: seq<M.Step>, reports: seq<C.Report>, p: nat, reply: C.Reply)
    returns (states': seq<Db>, steps': seq<M.Step>)
    requires Inv(db) && Trace(start, db, s, coins, answers, states, steps, reports) && |reports| == |steps|
    requires NextPage(db, s, coins(|steps|), Some(p)) && p in PagesOf(db, s)
    requires reply == answers(|steps|, db.pages[p].key)
    ensures |steps'| == |steps| + 1
    ensures var db', report := C.Check(db, p, reply), C.CheckReport(db, p, reply);
            && Trace(start, db', s, coins, answers, states', steps', reports)
            && TurnReport(states'[|steps|], steps'[|steps|]) == report
            && (report != C.Crashed ==> Trace(start, db', s, coins, answers, states', steps', reports + [report]))
  {
    states', steps' := ExtendStates(start, db, s, coins, answers, states, steps, reports, p, reply);
    if C.CheckReport(db, p, reply) != C.Crashed {
      AppendReport(start, C.Check(db, p, reply), s, coins, answers, states', steps', reports);
    }
  }

  lemma AppendReport(start: Db, db: Db, s: nat, coins: nat -> bool, answers: (nat, Key) -> C.Reply,
      states: seq<Db>, steps: seq<M.Step>, reports: seq<C.Report>)
    requires Trace(start, db, s, coins, answers, states, steps, reports) && |reports| + 1 == |steps|
    requires TurnReport(states[|reports|], steps[|reports|]) != C.Crashed
    ensures Trace(start, db, s, coins, answers, states, steps,
                  reports + [TurnReport(states[|reports|], steps[|reports|])])
  {
  }

  lemma ExtendStates(start: Db, db: Db, s: nat, coins: nat -> bool, answers: (nat, Key) -> C.Reply,
      states: seq<Db>, steps: seq<M.Step>, reports: seq<C.Report>, p: nat, reply: C.Reply)
    returns (states': seq<Db>, steps': seq<M.Step>)
    requires Inv(db) && Trace(start, db, s, coins, answers, states, steps, reports) && |reports| == |steps|
    requires NextPage(db, s, coins(|steps|), Some(p)) && p in PagesOf(db, s)
    requires reply == answers(|steps|, db.pages[p].key)
    ensures |steps'| == |steps| + 1
    ensures Trace(start, C.Check(db, p, reply), s, coins, answers, states', steps', reports)
    ensures TurnReport(states'[|steps|], steps'[|steps|]) == C.CheckReport(db, p, reply)
  {
    var step, db' := M.CheckNext(s, coins(|steps|), Some(p), reply), C.Check(db, p, reply);
    states', steps' := states + [db'], steps + [step];
    PagesRemain(db, s, p, reply);
    ExtendRun(states, steps, step, db');
    ExtendTurns(states, steps, s, coins, answers, db', step);
    assert forall i :: 0 <= i < |reports| ==> states'[i] == states[i] && steps'[i] == steps[i];
  }

  lemma ExtendTurns(states: seq<Db>, steps: seq<M.Step>, s: nat, coins: nat -> bool,
      answers: (nat, Key) -> C.Reply, db: Db, step: M.Step)
    requires |states| == |steps| + 1
    requires forall i :: 0 <= i < |steps| ==> CheckTurn(states[i], steps[i], s, coins(i), answers, i)
    requires CheckTurn(states[|steps|], step, s, coins(|steps|), answers, |steps|)
    ensures forall i :: 0 <= i <= |steps| ==>
              CheckTurn((states + [db])[i], (steps + [step])[i], s, coins(i), answers, i)
  {
    forall i | 0 <= i <= |steps| ensures CheckTurn((states + [db])[i], (steps + [step])[i], s, coins(i), answers, i) {
      assert i < |steps| ==> CheckTurn(states[i], steps[i], s, coins(i), answers, i);
    }
  }

  lemma ExtendRun(states: seq<Db>, steps: seq<M.Step>, step: M.Step, db: Db)
    requires M.Run(states, steps) && M.Next(states[|steps|], step, db)
    ensures M.Run(states + [db], steps + [step])
  {
    forall i | 0 <= i < |steps| + 1
      ensures M.Next((states + [db])[i], (steps + [step])[i], (states + [db])[i + 1])
    {
      if i < |steps| {
        RunStep(states, steps, i);
      }
    }
  }

  lemma RunStep(states: seq<Db>, steps: seq<M.Step>, i: nat)
    requires M.Run(states, steps) && i < |steps|
    ensures M.Next(states[i], steps[i], states[i + 1])
  {
  }

  lemma PagesRemain(db: Db, s: nat, p: nat, reply: C.Reply)
    requires Inv(db) && p in PagesOf(db, s)
    ensures PagesOf(C.Check(db, p, reply), s) != {}
  {
    C.CheckChanges(db, p, reply);
    assert p in PagesOf(C.Check(db, p, reply), s);
  }

  /** The page is still there when its turn comes; deleting it is the next step of the loop. */
  lemma ExpungeTurn(db: Db, rows: seq<nat>, p: nat)
    requires Inv(db) && p in db.pages && p !in rows
    ensures var mid := S.Expunge(db, rows);
            && p in mid.pages && S.Expunge(db, rows + [p]) == S.Delete(mid, p)
            && |S.Delete(mid, p).pages| == |mid.pages| - (if CanBeDeleted(mid, p) then 1 else 0)
  {
    X.ExpungePrunes(db, rows);
    assert (rows + [p])[..|rows|] == rows;
    DeletedSize(S.Expunge(db, rows), p);
  }

  lemma NextSelected(db: Db, rows: seq<nat>, i: nat)
    requires S.Selection(db, rows) && i < |rows|
    ensures rows[i] in db.pages && rows[i] !in rows[..i]
    ensures rows[..i + 1] == rows[..i] + [rows[i]]
  {
  }

  lemma DeletedSize(db: Db, p: nat)
    requires p in db.pages
    ensures |S.Delete(db, p).pages| == |db.pages| - (if CanBeDeleted(db, p) then 1 else 0)
  {
    var rest := db.pages - {p};
    assert db.pages.Keys == rest.Keys + {p};
    assert |db.pages| == |db.pages.Keys| && |rest| == |rest.Keys|;
  }
}
