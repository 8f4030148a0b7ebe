/** Resetting a site: a fresh start for it, and no change for any other. */
module Restart {
  import opened Tables
  import opened Steps
  import opened Machine
  import PageUrls
  import Url

  /** The rows of site `t`: its pages, and the links, values and schedules of those pages. */
  ghost predicate SameSiteRows(db: Db, db': Db, t: nat) {
    && PagesOf(db', t) == PagesOf(db, t)
    && (forall p :: p in PagesOf(db, t) ==> SamePageRows(db, db', p))
    && (t in db.sites ==> t in db'.sites && db'.sites[t] == db.sites[t])
  }

  ghost predicate SamePageRows(db: Db, db': Db, p: nat)
    requires p in db.pages && p in db'.pages
  {
    && db'.pages[p] == db.pages[p]
    && Outgoing(db', p) == Outgoing(db, p) && Incoming(db', p) == Incoming(db, p)
    && ValuesOf(db', p) == ValuesOf(db, p)
    && (p in db'.scheduled <==> p in db.scheduled)
    && (p in db.scheduled ==> db'.scheduled[p] == db.scheduled[p])
  }

  /** Links never cross sites, so deleting one site's pages leaves another's rows alone. */
  lemma DeletePagesSpares(db: Db, s: nat, p: nat)
    requires Inv(db) && p in db.pages && db.pages[p].site != s
    ensures p in DeletePages(db, PagesOf(db, s)).pages
    ensures SamePageRows(db, DeletePages(db, PagesOf(db, s)), p)
  {
    var db' := DeletePages(db, PagesOf(db, s));
    forall l | l in db.links && (l.source == p || l.target == p) ensures l in db'.links {
      assert LinkOk(db, l);
    }
    SameLinksAt(db, db', p);
    SameValuesAt(db, db', p);
  }

  lemma SameLinksAt(db: Db, db': Db, p: nat)
    requires forall l: Link :: l.source == p || l.target == p ==> (l in db'.links <==> l in db.links)
    ensures Outgoing(db', p) == Outgoing(db, p) && Incoming(db', p) == Incoming(db, p)
  {
    SameOutgoing(db, db', p);
  }

  lemma SameValuesAt(db: Db, db': Db, p: nat)
    requires forall slot: Slot :: slot.page == p ==> (slot in db'.values <==> slot in db.values)
    requires forall slot :: slot in db.values && slot.page == p ==> db'.values[slot] == db.values[slot]
    ensures ValuesOf(db', p) == ValuesOf(db, p)
  {
    forall name ensures name in ValuesOf(db', p) <==> name in ValuesOf(db, p) {
      assert name in ValuesOf(db, p) ==> Slot(p, name) in db'.values;
      assert name in ValuesOf(db', p) ==> Slot(p, name) in db.values;
    }
  }

  /** Resetting one site changes no row of any other. */
  lemma ResetIsIsolated(db: Db, name: string, t: nat)
    requires Inv(db) && NameUsed(db, name) && t != SiteNamed(db, name)
    ensures SameSiteRows(db, ResetSite(db, name), t)
  {
    ClearIsIsolated(db, SiteNamed(db, name), t);
  }

  lemma ClearIsIsolated(db: Db, s: nat, t: nat)
    requires Inv(db) && s in db.sites && t != s
    ensures SameSiteRows(db, ClearSite(db, s), t)
  {
    var cleared, k := DeletePages(db, PagesOf(db, s)), KeyOf(db.sites[s].path);
    NextPageIsFree(db);
    AddElsewhere(cleared, s, k, t);
    forall p | p in PagesOf(db, t) ensures SamePageRows(db, ClearSite(db, s), p) {
      DeletePagesSpares(db, s, p);
      AddPageSpares(cleared, s, k, p);
    }
  }

  lemma AddElsewhere(db: Db, s: nat, k: Key, t: nat)
    requires db.nextPage !in db.pages && s != t
    ensures PagesOf(AddPage(db, s, k), t) == PagesOf(db, t)
  {
  }

  lemma AddPageSpares(db: Db, s: nat, k: Key, p: nat)
    requires p in db.pages && db.nextPage !in db.pages
    ensures p in AddPage(db, s, k).pages && SamePageRows(db, AddPage(db, s, k), p)
  {
  }

  /**
   Whatever happened before, a reset leaves the site with one unchecked page, its
   seed, to which no link, value or schedule is attached.
   */
  lemma ResetIsFresh(db: Db, name: string) returns (p: nat)
    requires Inv(db) && NameUsed(db, name)
    ensures var s, db' := SiteNamed(db, name), ResetSite(db, name);
            && PagesOf(db', s) == {p}
            && db'.pages[p] == FreshPage(s, KeyOf(db.sites[s].path), 0, db.clock + 1)
            && (forall l :: l in db'.links ==> l.source != p && l.target != p)
            && (forall slot :: slot in db'.values ==> slot.page != p)
            && p !in db'.scheduled
  {
    var s := SiteNamed(db, name);
    var cleared := DeletePages(db, PagesOf(db, s));
    NextPageIsFree(db);
    assert !Stored(cleared, s, KeyOf(db.sites[s].path));
    p := db.nextPage;
    assert PagesOf(ResetSite(db, name), s) == {p};
    forall l | l in db.links ensures l.source != p && l.target != p {
      assert LinkOk(db, l);
    }
  }

  // ----- does the reset seed equal the original seed? -----

  /**
   `init_site` stores the seed under its path; `reset_site` splits that path as a
   URL again.  The two keys agree exactly when the path starts neither with a
   scheme nor with two slashes.
   */
  lemma ResetSeedKey(path: string)
    requires Url.SplitPath(path)
    ensures KeyOf(path) == Key(path, "") <==>
            (Url.SplitScheme(path).0 == "" && !Url.DoubleSlash(path))
  {
    PageUrls.ReadPath(path);
    PageUrls.LocalIsTail(path);
  }

  /** After a reset the site stores one key, the one that splitting its path gives. */
  lemma ResetStores(db: Db, name: string, k: Key)
    requires Inv(db) && NameUsed(db, name)
    ensures var s := SiteNamed(db, name);
            Stored(ResetSite(db, name), s, k) <==> k == KeyOf(db.sites[s].path)
  {
    var s, db' := SiteNamed(db, name), ResetSite(db, name);
    var p := ResetIsFresh(db, name);
    assert p in PagesOf(db', s);
    assert StoredAs(db', s, KeyOf(db.sites[s].path), p);
    forall q | StoredAs(db', s, k, q) ensures q == p {
      assert q in PagesOf(db', s);
    }
  }

  /**
   In every run, whatever happens between creating a site and resetting it, its seed
   is stored after the reset exactly when its path starts neither with a scheme nor
   with two slashes; when the seed names a host, exactly when not with two slashes.
   */
  lemma ResetKeepsSeedExactly(states: seq<Db>, steps: seq<Step>, i: nat, j: nat, url: string, name: string)
    requires Run(states, steps) && Inv(states[0]) && i < j < |steps|
    requires steps[i] == Init(url, name) && InitOutcomeOf(states[i], url, name).Created?
    requires steps[j] == Reset(name)
    ensures var s, path := states[i].nextSite, Url.Parse(url).path;
            && Stored(states[i + 1], s, Key(path, ""))
            && (Stored(states[j + 1], s, Key(path, "")) <==> Url.SplitScheme(path).0 == "" && !Url.DoubleSlash(path))
            && (Url.Parse(url).netloc != "" ==>
                  (Stored(states[j + 1], s, Key(path, "")) <==> !Url.DoubleSlash(path)))
  {
    var s, path := states[i].nextSite, Url.Parse(url).path;
    assert Next(states[i], steps[i], states[i + 1]) && Next(states[j], steps[j], states[j + 1]);
    assert StoredAs(states[i + 1], s, Key(path, ""), states[i].nextPage);
    RunKeepsInv(states, steps, j);
    RunAges(states, steps, i + 1, j);
    assert s in states[j].sites && states[j].sites[s] == SiteOf(url, name);
    assert SiteNamed(states[j], name) == s;
    ResetStores(states[j], name, Key(path, ""));
    Url.ParsedPathIsSplit(url);
    ResetSeedKey(path);
    HostedPathHasNoScheme(url);
  }

  lemma HostedPathHasNoScheme(url: string)
    ensures Url.Parse(url).netloc != "" ==> Url.SplitScheme(Url.Parse(url).path).0 == ""
  {
    if Url.Parse(url).netloc != "" {
      Url.ParsedPathRooted(url);
      if Url.Parse(url).path != "" {
        Url.SlashHasNoScheme(Url.Parse(url).path);
      }
    }
  }

  /** The site created from `http://h//` loses its seed by its first reset. */
  lemma ResetLosesSeed(name: string)
    ensures var db := InitSite(EMPTY, "http://h//", name);
            Stored(db, 0, Key("//", "")) && !Stored(ResetSite(db, name), 0, Key("//", ""))
  {
    TwoSlashSeed();
    var db := InitSite(EMPTY, "http://h//", name);
    FirstSite("http://h//", name);
    ResetStores(db, name, Key("//", ""));
    ResetSeedKey("//");
  }

  /** The first site of an empty database. */
  lemma FirstSite(url: string, name: string)
    ensures var db := InitSite(EMPTY, url, name);
            && Inv(db) && db.sites == map[0 := SiteOf(url, name)] && NameUsed(db, name) && SiteNamed(db, name) == 0
            && db.pages == map[0 := FreshPage(0, Key(Url.Parse(url).path, ""), -1, 1)]
            && StoredAs(db, 0, Key(Url.Parse(url).path, ""), 0)
  {
    InitSiteKeepsInv(EMPTY, url, name);
    assert !NameUsed(EMPTY, name) && !AddressUsed(EMPTY, SiteOf(url, name));
    var db := InitSite(EMPTY, url, name);
    assert 0 in db.sites && db.sites[0].name == name;
  }

  lemma TwoSlashSeed()
    ensures Url.SplitPath("//") && Url.Parse("http://h//").path == "//"
  {
    TwoSlashText();
    TwoSlashPath("//", "http://h//");
  }

  lemma TwoSlashText()
    ensures "http://h//" == "http://h" + "//"
  {
  }

  lemma TwoSlashPath(path: string, url: string)
    requires path == "//" && url == "http://h" + path
    ensures Url.SplitPath(path) && Url.Parse(url).path == path
  {
    Url.NoSemicolon(path);
    Url.ParseHosted(path);
  }
}
