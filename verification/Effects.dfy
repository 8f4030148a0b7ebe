/** What the operations on sites and pages change, row by row, and what they leave alone. */
module Effects {
  import opened Tables
  import opened Steps
  import Url

  // ----- adding a page -----

  /** A page as it is first stored: linkable, never checked, without type or size. */
  ghost predicate NewRow(row: Page, s: nat, k: Key, status: int, now: nat) {
    && row.site == s && row.key == k && row.status == status && row.createdAt == now
    && !row.isChecked && row.checkedAt == 0 && row.isLinkable && row.contentType == "" && row.sizeBytes == 0
  }

  /** The two stores agree on sites, links, values and schedules. */
  ghost predicate SameAside(db: Db, db': Db) {
    db'.sites == db.sites && db'.links == db.links && db'.values == db.values && db'.scheduled == db.scheduled
  }

  /** Either the key was there and nothing changes, or one row is added, one tick later. */
  lemma AddPageMeans(db: Db, s: nat, k: Key)
    ensures var db' := AddPage(db, s, k);
            if exists p :: p in db.pages && db.pages[p].site == s && db.pages[p].key == k then db' == db
            else && SameAside(db, db') && db'.clock == db.clock + 1
                 && db'.pages.Keys == db.pages.Keys + {db.nextPage} && db'.nextPage == db.nextPage + 1
                 && (forall p :: p in db.pages && p != db.nextPage ==> db'.pages[p] == db.pages[p])
                 && NewRow(db'.pages[db.nextPage], s, k, 0, db.clock + 1)
  {
    assert Stored(db, s, k) <==> exists p :: p in db.pages && db.pages[p].site == s && db.pages[p].key == k by {
      if p :| p in db.pages && db.pages[p].site == s && db.pages[p].key == k {
        assert StoredAs(db, s, k, p);
      }
    }
  }

  // ----- sites -----

  /**
   A taken name and a taken address each change nothing; otherwise the site is stored
   with the parts of its URL, and its path as the key of a page of status -1.
   */
  lemma InitMeans(db: Db, url: string, name: string)
    requires Inv(db)
    ensures var db', parts := InitSite(db, url, name), Url.Parse(url);
            if exists s :: s in db.sites && db.sites[s].name == name
            then InitOutcomeOf(db, url, name) == NameTaken && db' == db
            else if exists s :: s in db.sites && db.sites[s].scheme == parts.scheme
                                && db.sites[s].netloc == parts.netloc && db.sites[s].path == parts.path
            then InitOutcomeOf(db, url, name) == AddressTaken && db' == db
            else InitOutcomeOf(db, url, name) == Created(db.nextSite) && Founded(db, db', parts, name)
  {
    OutcomeMeans(db, url, name);
    FoundedMeans(db, Url.Parse(url), name);
  }

  lemma OutcomeMeans(db: Db, url: string, name: string)
    ensures var parts := Url.Parse(url);
            InitOutcomeOf(db, url, name) ==
              if exists s :: s in db.sites && db.sites[s].name == name then NameTaken
              else if exists s :: s in db.sites && db.sites[s].scheme == parts.scheme
                                  && db.sites[s].netloc == parts.netloc && db.sites[s].path == parts.path
              then AddressTaken
              else Created(db.nextSite)
  {
    AddressUsedMeans(db, SiteOf(url, name));
  }

  lemma AddressUsedMeans(db: Db, site: Site)
    ensures AddressUsed(db, site) <==>
            exists s :: s in db.sites && db.sites[s].scheme == site.scheme
                        && db.sites[s].netloc == site.netloc && db.sites[s].path == site.path
  {
    if s :| s in db.sites && db.sites[s].scheme == site.scheme
            && db.sites[s].netloc == site.netloc && db.sites[s].path == site.path {
      assert SameAddress(db.sites[s], site);
    }
  }

  lemma FoundedMeans(db: Db, parts: Url.Parts, name: string)
    requires Inv(db)
    ensures var site := Site(name, parts.scheme, parts.netloc, parts.path);
            Founded(db, CreatePage(AddSite(db, site), db.nextSite, Key(parts.path, ""), -1), parts, name)
  {
    NextPageIsFree(db);
  }

  ghost predicate Founded(db: Db, db': Db, parts: Url.Parts, name: string) {
    && db'.sites.Keys == db.sites.Keys + {db.nextSite} && db'.nextSite == db.nextSite + 1
    && (forall s :: s in db.sites && s != db.nextSite ==> db'.sites[s] == db.sites[s])
    && db'.sites[db.nextSite] == Site(name, parts.scheme, parts.netloc, parts.path)
    && db'.pages.Keys == db.pages.Keys + {db.nextPage} && db'.nextPage == db.nextPage + 1
    && (forall p :: p in db.pages ==> db'.pages[p] == db.pages[p])
    && NewRow(db'.pages[db.nextPage], db.nextSite, Key(parts.path, ""), -1, db.clock + 1)
    && db'.links == db.links && db'.values == db.values && db'.scheduled == db.scheduled
    && db'.clock == db.clock + 1
  }

  /** A reset replaces the pages of the site by its path, split as a URL, under a new row of status 0. */
  lemma ResetMeans(db: Db, name: string)
    requires Inv(db)
    ensures var db' := ResetSite(db, name);
            && (forall s :: s in db.sites && db.sites[s].name == name ==> Restarted(db, db', s))
            && ((forall s :: s in db.sites ==> db.sites[s].name != name) ==> db' == db)
  {
    if NameUsed(db, name) {
      var s := SiteNamed(db, name);
      ClearMeans(db, s);
      assert forall t :: t in db.sites && db.sites[t].name == name ==> t == s;
    }
  }

  ghost predicate Restarted(db: Db, db': Db, s: nat)
    requires s in db.sites
  {
    var parts := Url.Parse(db.sites[s].path);
    && db'.sites == db.sites && db'.nextSite == db.nextSite && db'.clock == db.clock + 1
    && (forall p :: p in db'.pages <==> p == db.nextPage || (p in db.pages && db.pages[p].site != s))
    && (forall p :: p in db'.pages && p != db.nextPage ==> db'.pages[p] == db.pages[p])
    && NewRow(db'.pages[db.nextPage], s, Key(parts.path, parts.query), 0, db.clock + 1)
    && (forall l :: l in db'.links <==> l in db.links && l.source in db'.pages)
    && (forall v :: v in db'.values <==> v in db.values && v.page in db'.pages)
    && (forall v :: v in db'.values ==> db'.values[v] == db.values[v])
    && (forall p :: p in db'.scheduled <==> p in db.scheduled && p in db'.pages)
    && (forall p :: p in db'.scheduled ==> db'.scheduled[p] == db.scheduled[p])
  }

  lemma ClearMeans(db: Db, s: nat)
    requires Inv(db) && s in db.sites
    ensures Restarted(db, ClearSite(db, s), s)
  {
    var cleared, k := DeletePages(db, PagesOf(db, s)), KeyOf(db.sites[s].path);
    NextPageIsFree(db);
    AddPageMeans(cleared, s, k);
    assert forall p :: p in cleared.pages ==> cleared.pages[p].site != s;
    TheRestIs(db, s, cleared);
    RestartedFrom(db, cleared, ClearSite(db, s), s);
  }

  /** What is left when the pages of a site are gone. */
  ghost predicate TheRest(db: Db, cleared: Db, s: nat) {
    && cleared.sites == db.sites && cleared.clock == db.clock
    && cleared.nextSite == db.nextSite && cleared.nextPage == db.nextPage
    && (forall p :: p in cleared.pages <==> p in db.pages && db.pages[p].site != s)
    && (forall p :: p in cleared.pages ==> cleared.pages[p] == db.pages[p])
    && (forall l :: l in cleared.links <==> l in db.links && l.source in cleared.pages)
    && (forall v :: v in cleared.values <==> v in db.values && v.page in cleared.pages)
    && (forall v :: v in cleared.values ==> cleared.values[v] == db.values[v])
    && (forall p :: p in cleared.scheduled <==> p in db.scheduled && p in cleared.pages)
    && (forall p :: p in cleared.scheduled ==> cleared.scheduled[p] == db.scheduled[p])
  }

  lemma TheRestIs(db: Db, s: nat, cleared: Db)
    requires Inv(db) && cleared == DeletePages(db, PagesOf(db, s))
    ensures TheRest(db, cleared, s)
  {
    LinksOfTheRest(db, s, cleared);
  }

  lemma RestartedFrom(db: Db, cleared: Db, db': Db, s: nat)
    requires RowsAttached(db) && TheRest(db, cleared, s) && s in db.sites && db.nextPage !in db.pages
    requires SameAside(cleared, db') && db'.clock == db.clock + 1 && db'.nextSite == db.nextSite
    requires db'.pages.Keys == cleared.pages.Keys + {db.nextPage}
    requires forall p :: p in cleared.pages ==> db'.pages[p] == cleared.pages[p]
    requires NewRow(db'.pages[db.nextPage], s, KeyOf(db.sites[s].path), 0, db.clock + 1)
    ensures Restarted(db, db', s)
  {
    forall l | l in db.links ensures l.source != db.nextPage {
      assert LinkOk(db, l);
    }
  }

  lemma LinksOfTheRest(db: Db, s: nat, cleared: Db)
    requires Inv(db) && cleared == DeletePages(db, PagesOf(db, s))
    ensures forall l :: l in cleared.links <==> l in db.links && l.source in cleared.pages
  {
    forall l ensures l in cleared.links <==> l in db.links && l.source in cleared.pages {
      if l in db.links { assert LinkOk(db, l); }
    }
  }

  // ----- the flag -----

  /** The flag flips; a page that was linkable loses the links into it; nothing else changes. */
  lemma ToggleMeans(db: Db, p: nat)
    requires p in db.pages
    ensures Flipped(db, Toggle(db, p), p)
  {
  }

  ghost predicate Flipped(db: Db, db': Db, p: nat)
    requires p in db.pages
  {
    && db'.pages.Keys == db.pages.Keys
    && db'.pages[p] == db.pages[p].(isLinkable := !db.pages[p].isLinkable)
    && (forall q :: q in db.pages && q != p ==> db'.pages[q] == db.pages[q])
    && (forall l :: l in db'.links <==> l in db.links && !(db.pages[p].isLinkable && l.target == p))
    && db' == db.(pages := db'.pages, links := db'.links)
  }

  // ----- deletion -----

  /** A page that some link leads to stays; any other goes, with its own links, values and schedule only. */
  lemma DeleteMeans(db: Db, p: nat)
    ensures if exists l :: l in db.links && l.target == p then Delete(db, p) == db else Gone(db, Delete(db, p), p)
  {
    if CanBeDeleted(db, p) {
      assert Incoming(db, p) == {};
      forall l | l in db.links ensures l.target != p {
        assert l !in Incoming(db, p);
      }
    } else {
      var l :| l in Incoming(db, p);
      assert l in db.links && l.target == p;
    }
  }

  ghost predicate Gone(db: Db, db': Db, p: nat) {
    && (forall q :: q in db'.pages <==> q in db.pages && q != p)
    && (forall q :: q in db'.pages ==> db'.pages[q] == db.pages[q])
    && (forall l :: l in db'.links <==> l in db.links && l.source != p)
    && (forall v :: v in db'.values <==> v in db.values && v.page != p)
    && (forall v :: v in db'.values ==> db'.values[v] == db.values[v])
    && (forall q :: q in db'.scheduled <==> q in db.scheduled && q != p)
    && (forall q :: q in db'.scheduled ==> db'.scheduled[q] == db.scheduled[q])
    && db' == db.(pages := db'.pages, links := db'.links, values := db'.values, scheduled := db'.scheduled)
  }

  // ----- schedules and time -----

  lemma ScheduleMeans(db: Db, p: nat, rotation: int)
    requires p in db.pages
    ensures var db' := SchedulePage(db, p, rotation);
            && db'.clock == db.clock + 1 && db' == db.(scheduled := db'.scheduled, clock := db'.clock)
            && db'.scheduled.Keys == db.scheduled.Keys + {p}
            && (forall q :: q in db.scheduled && q != p ==> db'.scheduled[q] == db.scheduled[q])
            && db'.scheduled[p].rotation == rotation && db'.scheduled[p].updatedAt == db'.clock
            && db'.scheduled[p].createdAt == if p in db.scheduled then db.scheduled[p].createdAt else db'.clock
  {
  }

  lemma UnscheduleMeans(db: Db, p: nat)
    ensures var db' := Unschedule(db, p);
            && (forall q :: q in db'.scheduled <==> q in db.scheduled && q != p)
            && (forall q :: q in db'.scheduled ==> db'.scheduled[q] == db.scheduled[q])
            && db' == db.(scheduled := db'.scheduled)
  {
  }
}
