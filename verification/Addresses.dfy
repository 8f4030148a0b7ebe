/** Where stored addresses come from, and where the addresses printed for a page lead. */
module Addresses {
  import opened Tables
  import opened Checks
  import opened Steps
  import opened Machine
  import Restart
  import PageUrls
  import Url

  function RelativeUrl(db: Db, p: nat): string
    requires p in db.pages && db.pages[p].site in db.sites
  {
    var row := db.pages[p];
    PageUrls.RelativeUrl(db.sites[row.site].path, row.key.subpath, row.key.params)
  }

  function FullUrl(db: Db, p: nat): string
    requires p in db.pages && db.pages[p].site in db.sites
  {
    var row := db.pages[p];
    var site := db.sites[row.site];
    PageUrls.FullUrl(site.scheme, site.netloc, site.path, row.key.subpath, row.key.params)
  }

  /**
   Adding a page by its own relative address returns that page and creates nothing
   exactly when its key is one that splitting leaves and its path leads back.
   */
  lemma OwnUrlFindsPage(db: Db, p: nat)
    requires Inv(db) && p in db.pages
    requires var site := SiteOfPage(db, p);
             Url.SplitPath(site.path) && (PageUrls.Absolute(site.path) || PageUrls.Absolute(db.pages[p].key.subpath))
    ensures FindsItself(db, p)
            <==> SplitKey(db.pages[p].key) && PageUrls.LeadsBack(SiteOfPage(db, p).path, db.pages[p].key.subpath)
  {
    var row, path := db.pages[p], SiteOfPage(db, p).path;
    assert RowOk(db, p);
    PageUrls.RelativeUrlRoundTrip(path, row.key.subpath, row.key.params);
    assert KeyOf(RelativeUrl(db, p)) == row.key ==> StoredAs(db, row.site, row.key, p);
  }

  function SiteOfPage(db: Db, p: nat): Site
    requires Inv(db) && p in db.pages
  {
    assert RowOk(db, p);
    db.sites[db.pages[p].site]
  }

  /** Adding the page's own address answers that page and changes nothing. */
  ghost predicate FindsItself(db: Db, p: nat)
    requires p in db.pages && db.pages[p].site in db.sites
  {
    var s, k := db.pages[p].site, KeyOf(RelativeUrl(db, p));
    AddPage(db, s, k) == db && StoredAs(db, s, k, p)
  }

  // ----- every stored address was split from a URL -----

  predicate SplitKey(k: Key) {
    Url.SplitPath(k.subpath) && '#' !in k.params
  }

  ghost predicate FromSeed(site: Site) {
    exists url :: site == SiteOf(url, site.name)
  }

  ghost predicate AddressesOk(db: Db) {
    && (forall s :: s in db.sites ==> FromSeed(db.sites[s]))
    && (forall p :: p in db.pages ==> SplitKey(db.pages[p].key))
  }

  lemma KeyOfIsSplit(url: string)
    ensures SplitKey(KeyOf(url)) && SplitKey(Key(Url.Parse(url).path, ""))
  {
    Url.ParsedPathIsSplit(url);
    Url.QueryHasNoFragment(url);
  }

  lemma CreateKeepsAddresses(db: Db, s: nat, k: Key, status: int)
    requires AddressesOk(db) && SplitKey(k)
    ensures AddressesOk(CreatePage(db, s, k, status))
  {
  }

  lemma AddSiteKeepsAddresses(db: Db, site: Site)
    requires AddressesOk(db) && FromSeed(site)
    ensures AddressesOk(AddSite(db, site))
  {
  }

  lemma SeedIsSplit(url: string, name: string)
    ensures FromSeed(SiteOf(url, name)) && SplitKey(Key(SiteOf(url, name).path, ""))
  {
    KeyOfIsSplit(url);
    var site := SiteOf(url, name);
    assert site == SiteOf(url, site.name);
  }

  lemma InitKeepsAddresses(db: Db, url: string, name: string)
    requires AddressesOk(db)
    ensures AddressesOk(InitSite(db, url, name))
  {
    var site := SiteOf(url, name);
    SeedIsSplit(url, name);
    AddSiteKeepsAddresses(db, site);
    CreateKeepsAddresses(AddSite(db, site), db.nextSite, Key(site.path, ""), -1);
  }

  lemma ResetKeepsAddresses(db: Db, name: string)
    requires AddressesOk(db)
    ensures AddressesOk(ResetSite(db, name))
  {
    if NameUsed(db, name) {
      var s := SiteNamed(db, name);
      KeyOfIsSplit(db.sites[s].path);
      ClearKeepsAddresses(db, PagesOf(db, s), s, KeyOf(db.sites[s].path));
    }
  }

  lemma ClearKeepsAddresses(db: Db, gone: set<nat>, s: nat, k: Key)
    requires AddressesOk(db) && SplitKey(k)
    ensures AddressesOk(AddPage(DeletePages(db, gone), s, k))
  {
    FewerKeepAddresses(db, DeletePages(db, gone));
    CreateKeepsAddresses(DeletePages(db, gone), s, k, 0);
  }

  /** A step that changes no site and gives no page a key. */
  ghost predicate SameAddresses(db: Db, db': Db) {
    && db'.sites == db.sites
    && forall p :: p in db'.pages ==> p in db.pages && db'.pages[p].key == db.pages[p].key
  }

  lemma FewerKeepAddresses(db: Db, db': Db)
    requires AddressesOk(db) && SameAddresses(db, db')
    ensures AddressesOk(db')
  {
  }

  lemma CheckKeepsAddresses(db: Db, p: nat, reply: Reply)
    requires Inv(db) && p in db.pages && AddressesOk(db)
    ensures AddressesOk(Check(db, p, reply))
  {
    var db' := Check(db, p, reply);
    var ks := Discovered(db, db.pages[p].site, reply);
    CheckChanges(db, p, reply);
    DiscoveredAreSplit(db, db.pages[p].site, reply);
    forall q | q in db'.pages ensures SplitKey(db'.pages[q].key) {
      if q !in db.pages {
        assert FoundPage(db, db', db.pages[p].site, ks, q);
      }
    }
  }

  lemma DiscoveredAreSplit(db: Db, s: nat, reply: Reply)
    ensures forall k :: k in Discovered(db, s, reply) ==> SplitKey(k)
  {
    var ks := Discovered(db, s, reply);
    forall i | 0 <= i < |ks| ensures SplitKey(ks[i]) {
      KeyOfIsSplit(reply.body.urls[i]);
    }
  }

  lemma {:induction false} ExpungeKeepsAddresses(db: Db, rows: seq<nat>)
    requires AddressesOk(db)
    ensures AddressesOk(Expunge(db, rows))
  {
    if rows != [] {
      ExpungeKeepsAddresses(db, rows[..|rows| - 1]);
      DeleteKeepsAddresses(Expunge(db, rows[..|rows| - 1]), rows[|rows| - 1]);
    }
  }

  lemma DeleteKeepsAddresses(db: Db, p: nat)
    requires AddressesOk(db)
    ensures AddressesOk(Delete(db, p))
  {
    DeleteIsSame(db, p);
    FewerKeepAddresses(db, Delete(db, p));
  }

  lemma DeleteIsSame(db: Db, p: nat)
    ensures SameAddresses(db, Delete(db, p))
  {
  }

  lemma ToggleIsSame(db: Db, p: nat)
    requires p in db.pages
    ensures SameAddresses(db, Toggle(db, p))
  {
  }

  lemma ToggleKeepsAddresses(db: Db, p: nat)
    requires AddressesOk(db) && p in db.pages
    ensures AddressesOk(Toggle(db, p))
  {
    ToggleIsSame(db, p);
    FewerKeepAddresses(db, Toggle(db, p));
  }

  lemma CheckStepKeepsAddresses(db: Db, step: Step, db': Db)
    requires Inv(db) && AddressesOk(db) && Next(db, step, db') && (step.CheckNext? || step.CheckOne?)
    ensures AddressesOk(db')
  {
    if step.CheckOne? {
      CheckKeepsAddresses(db, step.page, step.reply);
    } else if step.chosen.Some? && step.chosen.value in db.pages {
      CheckKeepsAddresses(db, step.chosen.value, step.reply);
    }
  }

  lemma PageStepKeepsAddresses(db: Db, step: Step, db': Db)
    requires AddressesOk(db) && Next(db, step, db')
    requires step.ToggleLinkable? || step.DeleteOne? || step.ExpungeRows?
    ensures AddressesOk(db')
  {
    match step
    case ToggleLinkable(p) => ToggleKeepsAddresses(db, p);
    case DeleteOne(p) => DeleteKeepsAddresses(db, p);
    case ExpungeRows(rows) => ExpungeKeepsAddresses(db, rows);
  }

  lemma SiteStepKeepsAddresses(db: Db, step: Step, db': Db)
    requires AddressesOk(db) && Next(db, step, db') && (step.Init? || step.Reset?)
    ensures AddressesOk(db')
  {
    match step
    case Init(url, name) => InitKeepsAddresses(db, url, name);
    case Reset(name) => ResetKeepsAddresses(db, name);
  }

  lemma NextKeepsAddresses(db: Db, step: Step, db': Db)
    requires Inv(db) && AddressesOk(db) && Next(db, step, db')
    ensures AddressesOk(db')
  {
    if step.Init? || step.Reset? {
      SiteStepKeepsAddresses(db, step, db');
    } else if step.CheckNext? || step.CheckOne? {
      CheckStepKeepsAddresses(db, step, db');
    } else if step.ToggleLinkable? || step.DeleteOne? || step.ExpungeRows? {
      PageStepKeepsAddresses(db, step, db');
    } else {
      FewerKeepAddresses(db, db');
    }
  }

  /** In every state of every run from the empty database. */
  lemma {:induction false} RunKeepsAddresses(states: seq<Db>, steps: seq<Step>, n: nat)
    requires Run(states, steps) && states[0] == EMPTY && n < |states|
    ensures Inv(states[n]) && AddressesOk(states[n])
  {
    RunKeepsInv(states, steps, n);
    if n > 0 {
      var i := n - 1;
      RunKeepsAddresses(states, steps, i);
      assert Next(states[i], steps[i], states[i + 1]);
      NextKeepsAddresses(states[i], steps[i], states[n]);
    }
  }

  // ----- so in every run -----

  /** What every page of a run knows of its site. */
  lemma PageInRun(states: seq<Db>, steps: seq<Step>, n: nat, p: nat) returns (site: Site)
    requires Run(states, steps) && states[0] == EMPTY && n < |states| && p in states[n].pages
    ensures Inv(states[n]) && states[n].pages[p].site in states[n].sites && SplitKey(states[n].pages[p].key)
    ensures site == SiteOfPage(states[n], p) && Url.SplitPath(site.path)
    ensures site.netloc != "" ==> PageUrls.Absolute(site.path) && Url.SiteAddress(site.scheme, site.netloc)
  {
    RunKeepsAddresses(states, steps, n);
    assert RowOk(states[n], p);
    site := states[n].sites[states[n].pages[p].site];
    assert FromSeed(site);
    var url :| site == SiteOf(url, site.name);
    Url.ParsedPathIsSplit(url);
    if site.netloc != "" {
      Url.ParsedPathRooted(url);
      Url.ParsedAddress(url);
    }
  }

  /**
   In every run a page is found again under its own address, and nothing is created,
   exactly when its path leads back: on a site without a path, when it looks like no
   scheme and no host; on any other, when it has one leading slash and no dot
   segments, or is empty and the site path itself reads as empty.
   */
  lemma OwnUrlInRuns(states: seq<Db>, steps: seq<Step>, n: nat, p: nat)
    requires Run(states, steps) && states[0] == EMPTY && n < |states| && p in states[n].pages
    requires var row, sites := states[n].pages[p], states[n].sites;
             row.site in sites && sites[row.site].netloc == "" ==>
               PageUrls.Absolute(sites[row.site].path) || PageUrls.Absolute(row.key.subpath)
    ensures var db, row := states[n], states[n].pages[p];
            && row.site in db.sites
            && (FindsItself(db, p) <==> PageUrls.LeadsBack(db.sites[row.site].path, row.key.subpath))
  {
    var site := PageInRun(states, steps, n, p);
    OwnUrlFindsPage(states[n], p);
  }

  /**
   In every run, two pages of a site with a host that are found again, and whose
   paths are absolute, have different full addresses.
   */
  lemma AddressesDiffer(states: seq<Db>, steps: seq<Step>, n: nat, p: nat, q: nat)
    requires Run(states, steps) && states[0] == EMPTY && n < |states|
    requires p in states[n].pages && q in states[n].pages && p != q
    requires states[n].pages[p].site == states[n].pages[q].site
    requires PageUrls.Absolute(states[n].pages[p].key.subpath) && PageUrls.Absolute(states[n].pages[q].key.subpath)
    ensures var db := states[n];
            && db.pages[p].site in db.sites
            && (db.sites[db.pages[p].site].netloc != "" && FindsItself(db, p) && FindsItself(db, q) ==>
                  FullUrl(db, p) != FullUrl(db, q))
  {
    var db := states[n];
    var site := PageInRun(states, steps, n, p);
    var _ := PageInRun(states, steps, n, q);
    if site.netloc != "" && FindsItself(db, p) && FindsItself(db, q) {
      OwnUrlFindsPage(db, p);
      OwnUrlFindsPage(db, q);
      assert Apart(db.pages[p], db.pages[q]);
      var j, k := db.pages[p].key, db.pages[q].key;
      PageUrls.FullUrlsDiffer(site.scheme, site.netloc, site.path, j.subpath, j.params, k.subpath, k.params);
    }
  }

  /** The seed page of `http://h/a/../b` is not found under its own address: another page is created. */
  lemma DottedSeedIsLost(name: string)
    ensures var db := InitSite(EMPTY, "http://h/a/../b", name);
            && StoredAs(db, 0, Key("/a/../b", ""), 0) && 0 in db.sites
            && AddPage(db, 0, KeyOf(RelativeUrl(db, 0))) == CreatePage(db, 0, KeyOf(RelativeUrl(db, 0)), 0)
  {
    DottedPath();
    DottedText();
    SeedWithDots("http://h/a/../b", "/a/../b", name);
  }

  lemma DottedPath()
    ensures Url.SplitPath("/a/../b") && !Url.DoubleSlash("/a/../b") && Url.HasDots("/a/../b")
  {
    var path := "/a/../b";
    assert path == ['/', 'a', '/', '.', '.', '/', 'b'];
    Url.NoSemicolon(path);
    var rest := path[2..];
    assert rest[..4] == "/../";
    assert Url.DotHead(path[2..]);
  }

  lemma DottedText()
    ensures "http://h/a/../b" == "http://h" + "/a/../b"
  {
  }

  lemma SeedWithDots(url: string, path: string, name: string)
    requires url == "http://h" + path && Url.SplitPath(path)
    requires path != "" && path[0] == '/' && !Url.DoubleSlash(path) && Url.HasDots(path)
    ensures var db := InitSite(EMPTY, url, name);
            && StoredAs(db, 0, Key(path, ""), 0) && 0 in db.sites
            && AddPage(db, 0, KeyOf(RelativeUrl(db, 0))) == CreatePage(db, 0, KeyOf(RelativeUrl(db, 0)), 0)
  {
    Url.ParseHosted(path);
    Restart.FirstSite(url, name);
    OnlyPageIsLost(InitSite(EMPTY, url, name), path);
  }

  lemma OnlyPageIsLost(db: Db, path: string)
    requires db.pages == map[0 := FreshPage(0, Key(path, ""), -1, 1)] && 0 in db.sites && db.sites[0].path == path
    requires Url.SplitPath(path) && path != "" && path[0] == '/' && !PageUrls.LeadsBack(path, path)
    ensures AddPage(db, 0, KeyOf(RelativeUrl(db, 0))) == CreatePage(db, 0, KeyOf(RelativeUrl(db, 0)), 0)
  {
    PageUrls.RelativeUrlRoundTrip(path, path, "");
    MissingIsCreated(db, path, KeyOf(RelativeUrl(db, 0)));
  }

  lemma MissingIsCreated(db: Db, path: string, k: Key)
    requires db.pages == map[0 := FreshPage(0, Key(path, ""), -1, 1)] && k != Key(path, "")
    ensures AddPage(db, 0, k) == CreatePage(db, 0, k, 0)
  {
  }

  /** In every run, every page of a site that names a host has a local full address. */
  lemma EveryPageIsLocal(states: seq<Db>, steps: seq<Step>, n: nat, p: nat)
    requires Run(states, steps) && states[0] == EMPTY && n < |states| && p in states[n].pages
    ensures var db := states[n];
            && db.pages[p].site in db.sites
            && var site := db.sites[db.pages[p].site];
               site.netloc != "" ==>
                 Url.IsLocal(site.scheme, site.netloc, FullUrl(db, p))
                 && Url.Parse(FullUrl(db, p)).netloc == site.netloc
  {
    var site := PageInRun(states, steps, n, p);
    var k := states[n].pages[p].key;
    if site.netloc != "" {
      PageUrls.FullUrlIsLocal(site.scheme, site.netloc, site.path, k.subpath, k.params);
    }
  }
}
