/** The operations on a whole site: creating, resetting, toggling, deleting, scheduling. */
module Steps {
  import opened Tables
  import Url

  // ----- sites -----

  datatype InitOutcome = NameTaken | AddressTaken | Created(site: nat)

  ghost predicate NameUsed(db: Db, name: string) {
    exists s :: s in db.sites && db.sites[s].name == name
  }

  ghost predicate AddressUsed(db: Db, site: Site) {
    exists s :: s in db.sites && SameAddress(db.sites[s], site)
  }

  function SiteOf(url: string, name: string): Site {
    var info := Url.Parse(url);
    Site(name, info.scheme, info.netloc, info.path)
  }

  ghost function InitOutcomeOf(db: Db, url: string, name: string): InitOutcome {
    if NameUsed(db, name) then NameTaken
    else if AddressUsed(db, SiteOf(url, name)) then AddressTaken
    else Created(db.nextSite)
  }

  function AddSite(db: Db, site: Site): Db {
    db.(sites := db.sites[db.nextSite := site], nextSite := db.nextSite + 1)
  }

  /** A new site starts with its seed page, whose status is -1. */
  ghost function InitSite(db: Db, url: string, name: string): Db {
    var site := SiteOf(url, name);
    if InitOutcomeOf(db, url, name).Created?
    then CreatePage(AddSite(db, site), db.nextSite, Key(site.path, ""), -1)
    else db
  }

  ghost function SiteNamed(db: Db, name: string): (s: nat)
    requires NameUsed(db, name)
    ensures s in db.sites && db.sites[s].name == name
  {
    var s :| s in db.sites && db.sites[s].name == name;
    s
  }

  /** Every page of the site goes; its seed path is added again. */
  ghost function ClearSite(db: Db, s: nat): Db
    requires s in db.sites
  {
    AddPage(DeletePages(db, PagesOf(db, s)), s, KeyOf(db.sites[s].path))
  }

  ghost function ResetSite(db: Db, name: string): Db {
    if NameUsed(db, name) then ClearSite(db, SiteNamed(db, name)) else db
  }

  // ----- pages -----

  function SetLinkable(db: Db, p: nat, linkable: bool): Db
    requires p in db.pages
  {
    db.(pages := db.pages[p := db.pages[p].(isLinkable := linkable)])
  }

  /** Flips the flag; a page that is no longer linkable loses its incoming links. */
  function Toggle(db: Db, p: nat): Db
    requires p in db.pages
  {
    if db.pages[p].isLinkable then SetLinkable(DropIncoming(db, p), p, false) else SetLinkable(db, p, true)
  }

  /** A page is deleted only when nothing links to it. */
  function Delete(db: Db, p: nat): Db {
    if CanBeDeleted(db, p) then DeletePages(db, {p}) else db
  }

  function Expunge(db: Db, rows: seq<nat>): Db {
    if rows == [] then db else Delete(Expunge(db, rows[..|rows| - 1]), rows[|rows| - 1])
  }

  /** The selected rows are existing, distinct pages. */
  predicate Selection(db: Db, rows: seq<nat>) {
    && (forall i :: 0 <= i < |rows| ==> rows[i] in db.pages)
    && (forall i, j :: 0 <= i < j < |rows| ==> rows[i] != rows[j])
  }

  function SchedulePage(db: Db, p: nat, rotation: int): Db
    requires p in db.pages
  {
    var now := db.clock + 1;
    var createdAt := if p in db.scheduled then db.scheduled[p].createdAt else now;
    db.(scheduled := db.scheduled[p := Schedule(rotation, now, createdAt)], clock := now)
  }

  function Unschedule(db: Db, p: nat): Db {
    db.(scheduled := db.scheduled - {p})
  }

  function Wait(db: Db, time: nat): Db {
    db.(clock := db.clock + time)
  }

  // ----- each keeps the constraints -----

  lemma DeletePagesKeepsInv(db: Db, gone: set<nat>)
    requires Inv(db)
    ensures Inv(DeletePages(db, gone))
  {
    var db' := DeletePages(db, gone);
    forall l | l in db'.links ensures LinkOk(db', l) {
      assert LinkOk(db, l);
    }
    forall p | p in db'.pages ensures RowOk(db', p) {
      assert RowOk(db, p);
    }
  }

  lemma InitSiteKeepsInv(db: Db, url: string, name: string)
    requires Inv(db)
    ensures Inv(InitSite(db, url, name))
  {
    if InitOutcomeOf(db, url, name).Created? {
      var site := SiteOf(url, name);
      var mid := AddSite(db, site);
      AddSiteKeepsInv(db, site);
      assert !Stored(mid, db.nextSite, Key(site.path, "")) by {
        forall p | p in db.pages ensures db.pages[p].site != db.nextSite {
          assert RowOk(db, p);
        }
      }
      CreateKeepsInv(mid, db.nextSite, Key(site.path, ""), -1);
    }
  }

  lemma AddSiteKeepsInv(db: Db, site: Site)
    requires Inv(db) && !NameUsed(db, site.name) && !AddressUsed(db, site)
    ensures Inv(AddSite(db, site))
  {
    var db' := AddSite(db, site);
    forall l | l in db'.links ensures LinkOk(db', l) {
      assert LinkOk(db, l);
    }
    forall p | p in db'.pages ensures RowOk(db', p) {
      assert RowOk(db, p);
    }
  }

  lemma ResetSiteKeepsInv(db: Db, name: string)
    requires Inv(db)
    ensures Inv(ResetSite(db, name))
  {
    if NameUsed(db, name) {
      var s := SiteNamed(db, name);
      DeletePagesKeepsInv(db, PagesOf(db, s));
      AddPageGrows(DeletePages(db, PagesOf(db, s)), s, KeyOf(db.sites[s].path));
    }
  }

  lemma SetLinkableKeepsInv(db: Db, p: nat, linkable: bool)
    requires Inv(db) && p in db.pages
    requires linkable || forall l :: l in db.links ==> l.target != p
    ensures Inv(SetLinkable(db, p, linkable))
  {
    var db' := SetLinkable(db, p, linkable);
    forall l | l in db'.links ensures LinkOk(db', l) {
      assert LinkOk(db, l);
    }
    forall q | q in db'.pages ensures RowOk(db', q) {
      assert RowOk(db, q);
    }
    forall q, r | q in db'.pages && r in db'.pages && q != r ensures Apart(db'.pages[q], db'.pages[r]) {
      assert Apart(db.pages[q], db.pages[r]);
    }
  }

  lemma DropIncomingKeepsInv(db: Db, p: nat)
    requires Inv(db)
    ensures Inv(DropIncoming(db, p))
  {
    var db' := DropIncoming(db, p);
    forall l | l in db'.links ensures LinkOk(db', l) {
      assert LinkOk(db, l);
    }
    assert forall q :: q in db'.pages ==> RowOk(db, q);
  }

  lemma ToggleKeepsInv(db: Db, p: nat)
    requires Inv(db) && p in db.pages
    ensures Inv(Toggle(db, p))
  {
    DropIncomingKeepsInv(db, p);
    if db.pages[p].isLinkable {
      SetLinkableKeepsInv(DropIncoming(db, p), p, false);
    } else {
      SetLinkableKeepsInv(db, p, true);
    }
  }

  lemma {:induction false} ExpungeKeepsInv(db: Db, rows: seq<nat>)
    requires Inv(db)
    ensures Inv(Expunge(db, rows))
  {
    if rows != [] {
      ExpungeKeepsInv(db, rows[..|rows| - 1]);
      DeletePagesKeepsInv(Expunge(db, rows[..|rows| - 1]), {rows[|rows| - 1]});
    }
  }

  lemma ScheduleKeepsInv(db: Db, p: nat, rotation: int)
    requires Inv(db) && p in db.pages
    ensures Inv(SchedulePage(db, p, rotation))
  {
    AsideKeepsInv(db, SchedulePage(db, p, rotation));
  }

  /** Changing only the clock (forwards) and the schedules of existing pages. */
  lemma AsideKeepsInv(db: Db, db': Db)
    requires Inv(db) && db' == db.(scheduled := db'.scheduled, clock := db'.clock)
    requires db.clock <= db'.clock && db'.scheduled.Keys <= db.pages.Keys
    ensures Inv(db')
  {
    forall l | l in db'.links ensures LinkOk(db', l) {
      assert LinkOk(db, l);
    }
    forall q | q in db'.pages ensures RowOk(db', q) {
      assert RowOk(db, q);
    }
  }

  // ----- what undoes what -----

  /** Dropping the incoming links is no change exactly when there are none. */
  lemma DropIncomingChanges(db: Db, p: nat)
    ensures DropIncoming(db, p) == db <==> CanBeDeleted(db, p)
  {
    var db' := DropIncoming(db, p);
    if CanBeDeleted(db, p) {
      assert Incoming(db, p) == {};
      forall l | l in db.links ensures l.target != p {
        assert l.target == p ==> l in Incoming(db, p);
      }
      assert db'.links == db.links;
    } else {
      var l :| l in Incoming(db, p);
      assert l in db.links && l !in db'.links;
    }
  }

  /** An unlinkable page has no incoming links to lose. */
  lemma UnlinkableHasNone(db: Db, p: nat)
    requires Inv(db) && p in db.pages && !db.pages[p].isLinkable
    ensures DropIncoming(db, p) == db
  {
    forall l | l in db.links ensures l.target != p {
      assert LinkOk(db, l);
    }
    assert DropIncoming(db, p).links == db.links;
  }

  lemma SetLinkableBack(db: Db, p: nat, first: bool)
    requires p in db.pages
    ensures SetLinkable(SetLinkable(db, p, first), p, db.pages[p].isLinkable) == db
  {
    assert SetLinkable(SetLinkable(db, p, first), p, db.pages[p].isLinkable).pages == db.pages;
  }

  /** Toggling twice restores the store exactly when nothing linked to the page. */
  lemma ToggleTwice(db: Db, p: nat)
    requires Inv(db) && p in db.pages
    ensures Toggle(Toggle(db, p), p) == DropIncoming(db, p)
    ensures Toggle(Toggle(db, p), p) == db <==> CanBeDeleted(db, p)
  {
    DropIncomingChanges(db, p);
    SetLinkableBack(DropIncoming(db, p), p, !db.pages[p].isLinkable);
    if !db.pages[p].isLinkable {
      UnlinkableHasNone(db, p);
      assert DropIncoming(SetLinkable(db, p, true), p).links == DropIncoming(db, p).links;
    }
  }

  /** A name can be used once: a second attempt fails and changes nothing. */
  lemma InitOnce(db: Db, url: string, name: string, again: string)
    requires InitOutcomeOf(db, url, name).Created?
    ensures var db' := InitSite(db, url, name);
            InitOutcomeOf(db', again, name) == NameTaken && InitSite(db', again, name) == db'
  {
    var db' := InitSite(db, url, name);
    assert db.nextSite in db'.sites && db'.sites[db.nextSite].name == name;
  }
}
