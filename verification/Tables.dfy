/** The rows the crawler stores, the constraints on them, and the elementary writes. */
module Tables {
  import Url

  datatype Site = Site(name: string, scheme: string, netloc: string, path: string)

  /** A page of a site is identified by its path and its query. */
  datatype Key = Key(subpath: string, params: string)

  datatype Page = Page(
    site: nat,
    key: Key,
    isChecked: bool,
    checkedAt: nat,
    status: int,
    createdAt: nat,
    contentType: string,
    sizeBytes: int,
    isLinkable: bool)

  datatype Link = Link(source: nat, target: nat)

  /** Names one value of one page. */
  datatype Slot = Slot(page: nat, name: string)

  datatype Schedule = Schedule(rotation: int, updatedAt: nat, createdAt: nat)

  /**
   The whole database.  `clock` is the time of the last event; creating a page
   and checking a page each take one tick.
   */
  datatype Db = Db(
    sites: map<nat, Site>,
    pages: map<nat, Page>,
    links: set<Link>,
    values: map<Slot, string>,
    scheduled: map<nat, Schedule>,
    clock: nat,
    nextSite: nat,
    nextPage: nat)

  const EPOCH: nat := 0

  const EMPTY := Db(map[], map[], {}, map[], map[], EPOCH, 0, 0)

  function KeyOf(url: string): Key {
    var info := Url.Parse(url);
    Key(info.path, info.query)
  }

  function Keys(urls: seq<string>): (ks: seq<Key>)
    ensures |ks| == |urls|
  {
    seq(|urls|, i requires 0 <= i < |urls| => KeyOf(urls[i]))
  }

  lemma KeysExtend(urls: seq<string>, i: nat)
    requires i < |urls|
    ensures Keys(urls[..i + 1]) == Keys(urls[..i]) + [KeyOf(urls[i])]
  {
  }

  // ----- reading -----

  function PagesOf(db: Db, s: nat): set<nat> {
    set p | p in db.pages && db.pages[p].site == s
  }

  predicate StoredAs(db: Db, s: nat, k: Key, p: nat) {
    p in db.pages && db.pages[p].site == s && db.pages[p].key == k
  }

  ghost predicate Stored(db: Db, s: nat, k: Key) {
    exists p :: StoredAs(db, s, k, p)
  }

  /** The page of site `s` stored under `k`. */
  ghost function Lookup(db: Db, s: nat, k: Key): (p: nat)
    requires Stored(db, s, k)
    ensures StoredAs(db, s, k, p)
  {
    var p :| StoredAs(db, s, k, p);
    p
  }

  function Outgoing(db: Db, p: nat): set<nat> {
    set l | l in db.links && l.source == p :: l.target
  }

  function Incoming(db: Db, p: nat): set<Link> {
    set l | l in db.links && l.target == p
  }

  function ValuesOf(db: Db, p: nat): map<string, string> {
    map slot | slot in db.values && slot.page == p :: slot.name := db.values[slot]
  }

  predicate CanBeDeleted(db: Db, p: nat) {
    |Incoming(db, p)| == 0
  }

  // ----- constraints -----

  ghost predicate SitesOk(db: Db) {
    && (forall s :: s in db.sites ==> s < db.nextSite)
    && (forall s, t :: s in db.sites && t in db.sites && s != t ==> db.sites[s].name != db.sites[t].name)
    && (forall s, t :: s in db.sites && t in db.sites && s != t ==>
          !SameAddress(db.sites[s], db.sites[t]))
  }

  predicate SameAddress(a: Site, b: Site) {
    a.scheme == b.scheme && a.netloc == b.netloc && a.path == b.path
  }

  predicate RowOk(db: Db, p: nat)
    requires p in db.pages
  {
    var row := db.pages[p];
    && p < db.nextPage
    && row.site in db.sites
    && EPOCH < row.createdAt <= db.clock
    && row.checkedAt <= db.clock
    && (row.isChecked <==> row.checkedAt > EPOCH)
  }

  /** Two pages differ in address, in creation time, and in check time once checked. */
  predicate Apart(a: Page, b: Page) {
    && (a.site == b.site ==> a.key != b.key)
    && a.createdAt != b.createdAt
    && (a.isChecked && b.isChecked ==> a.checkedAt != b.checkedAt)
  }

  ghost predicate PagesOk(db: Db) {
    && (forall p :: p in db.pages ==> RowOk(db, p))
    && (forall p, q :: p in db.pages && q in db.pages && p != q ==> Apart(db.pages[p], db.pages[q]))
  }

  predicate LinkOk(db: Db, l: Link) {
    && l.source in db.pages && l.target in db.pages
    && db.pages[l.source].site == db.pages[l.target].site
    && db.pages[l.target].isLinkable
  }

  ghost predicate RowsAttached(db: Db) {
    && (forall l :: l in db.links ==> LinkOk(db, l))
    && (forall slot :: slot in db.values ==> slot.page in db.pages)
    && (forall p :: p in db.scheduled ==> p in db.pages)
  }

  /** What every run of the crawler keeps. */
  ghost predicate Inv(db: Db) {
    SitesOk(db) && PagesOk(db) && RowsAttached(db)
  }

  // ----- elementary writes -----

  function FreshPage(s: nat, k: Key, status: int, now: nat): Page {
    Page(s, k, false, EPOCH, status, now, "", 0, true)
  }

  function CreatePage(db: Db, s: nat, k: Key, status: int): Db {
    db.(pages := db.pages[db.nextPage := FreshPage(s, k, status, db.clock + 1)],
        clock := db.clock + 1,
        nextPage := db.nextPage + 1)
  }

  /** Deleting a page takes its links, its values and its schedule with it. */
  function DeletePages(db: Db, gone: set<nat>): Db {
    db.(pages := db.pages - gone,
        links := (set l | l in db.links && l.source !in gone && l.target !in gone),
        values := (map slot | slot in db.values && slot.page !in gone :: db.values[slot]),
        scheduled := db.scheduled - gone)
  }

  function DropOutgoing(db: Db, p: nat): Db {
    db.(links := set l | l in db.links && l.source != p)
  }

  function DropIncoming(db: Db, p: nat): Db {
    db.(links := set l | l in db.links && l.target != p)
  }

  /** `Site.load_or_create`: the page stored under the key, created when missing. */
  ghost function AddPage(db: Db, s: nat, k: Key): Db {
    if Stored(db, s, k) then db else CreatePage(db, s, k, 0)
  }

  ghost function AddAll(db: Db, s: nat, ks: seq<Key>): Db {
    if ks == [] then db else AddPage(AddAll(db, s, ks[..|ks| - 1]), s, ks[|ks| - 1])
  }

  /** The links out of a page depend on the links that have it as their source. */
  lemma SameOutgoing(db: Db, db': Db, p: nat)
    requires forall l: Link :: l.source == p ==> (l in db'.links <==> l in db.links)
    ensures Outgoing(db', p) == Outgoing(db, p)
  {
    forall t ensures t in Outgoing(db', p) <==> t in Outgoing(db, p) {
      assert t in Outgoing(db, p) ==> Link(p, t) in db'.links;
      assert t in Outgoing(db', p) ==> Link(p, t) in db.links;
    }
  }

  // ----- adding pages -----

  /** How a store may grow while the pages named by `ks` are added. */
  ghost predicate Grows(db: Db, db': Db, s: nat, ks: seq<Key>) {
    && db' == db.(pages := db'.pages, clock := db'.clock, nextPage := db'.nextPage)
    && db.clock <= db'.clock && db.nextPage <= db'.nextPage
    && (forall p :: p in db.pages ==> p in db'.pages && db'.pages[p] == db.pages[p])
    && (forall p :: p in db'.pages && p !in db.pages ==> IsNew(db, db', s, ks, p))
    && (forall k :: k in ks ==> Stored(db', s, k))
  }

  ghost predicate IsNew(db: Db, db': Db, s: nat, ks: seq<Key>, p: nat)
    requires p in db'.pages
  {
    var row := db'.pages[p];
    && db.nextPage <= p
    && row == FreshPage(s, row.key, 0, row.createdAt)
    && db.clock < row.createdAt
    && row.key in ks
    && !Stored(db, s, row.key)
  }

  lemma CreateKeepsApart(db: Db, s: nat, k: Key, status: int)
    requires Inv(db) && !Stored(db, s, k)
    ensures var db' := CreatePage(db, s, k, status);
            forall p, q :: p in db'.pages && q in db'.pages && p != q ==> Apart(db'.pages[p], db'.pages[q])
  {
    forall p | p in db.pages ensures !(db.pages[p].site == s && db.pages[p].key == k) {
      assert StoredAs(db, s, k, p) ==> Stored(db, s, k);
    }
  }

  lemma CreateKeepsInv(db: Db, s: nat, k: Key, status: int)
    requires Inv(db) && s in db.sites && !Stored(db, s, k)
    ensures Inv(CreatePage(db, s, k, status))
    ensures StoredAs(CreatePage(db, s, k, status), s, k, db.nextPage)
  {
    CreateKeepsApart(db, s, k, status);
    CreateKeepsRows(db, s, k, status);
    CreateKeepsAttached(db, s, k, status);
  }

  lemma CreateKeepsRows(db: Db, s: nat, k: Key, status: int)
    requires PagesOk(db) && s in db.sites
    ensures var db' := CreatePage(db, s, k, status); forall p :: p in db'.pages ==> RowOk(db', p)
  {
    var db' := CreatePage(db, s, k, status);
    forall p | p in db'.pages ensures RowOk(db', p) {
      assert p in db.pages ==> RowOk(db, p);
    }
  }

  lemma CreateKeepsAttached(db: Db, s: nat, k: Key, status: int)
    requires PagesOk(db) && RowsAttached(db)
    ensures RowsAttached(CreatePage(db, s, k, status))
  {
    var db' := CreatePage(db, s, k, status);
    forall p | p in db.pages ensures p != db.nextPage {
      assert RowOk(db, p);
    }
    forall l | l in db'.links ensures LinkOk(db', l) {
      assert LinkOk(db, l);
    }
  }

  lemma {:induction false} AddAllGrows(db: Db, s: nat, ks: seq<Key>)
    requires Inv(db) && s in db.sites
    ensures Inv(AddAll(db, s, ks))
    ensures Grows(db, AddAll(db, s, ks), s, ks)
  {
    if ks != [] {
      var n := |ks| - 1;
      var mid := AddAll(db, s, ks[..n]);
      AddAllGrows(db, s, ks[..n]);
      AddPageGrows(mid, s, ks[n]);
      GrowsOn(db, mid, AddAll(db, s, ks), s, ks[..n], [ks[n]]);
      assert ks[..n] + [ks[n]] == ks;
    }
  }

  lemma AddPageGrows(db: Db, s: nat, k: Key)
    requires Inv(db) && s in db.sites
    ensures Inv(AddPage(db, s, k))
    ensures Grows(db, AddPage(db, s, k), s, [k])
  {
    if !Stored(db, s, k) {
      CreateKeepsInv(db, s, k, 0);
      CreateGrows(db, s, k);
    }
  }

  lemma CreateGrows(db: Db, s: nat, k: Key)
    requires PagesOk(db) && !Stored(db, s, k)
    ensures Grows(db, CreatePage(db, s, k, 0), s, [k])
  {
    var db' := CreatePage(db, s, k, 0);
    assert StoredAs(db', s, k, db.nextPage);
    forall p | p in db.pages ensures db'.pages[p] == db.pages[p] {
      assert RowOk(db, p);
    }
  }

  lemma StillStored(db: Db, db': Db, s: nat, k: Key)
    requires Stored(db, s, k)
    requires forall p :: p in db.pages ==> p in db'.pages && db'.pages[p] == db.pages[p]
    ensures Stored(db', s, k)
  {
    assert StoredAs(db', s, k, Lookup(db, s, k));
  }

  lemma GrowsOn(a: Db, b: Db, c: Db, s: nat, ks: seq<Key>, js: seq<Key>)
    requires Grows(a, b, s, ks) && Grows(b, c, s, js)
    ensures Grows(a, c, s, ks + js)
  {
    forall p | p in c.pages && p !in a.pages ensures IsNew(a, c, s, ks + js, p) {
      if p in b.pages {
        assert IsNew(a, b, s, ks, p);
      } else {
        assert IsNew(b, c, s, js, p);
        if Stored(a, s, c.pages[p].key) { StillStored(a, b, s, c.pages[p].key); }
      }
    }
    forall k | k in ks ensures Stored(c, s, k) {
      StillStored(b, c, s, k);
    }
  }

  lemma NextPageIsFree(db: Db)
    requires Inv(db)
    ensures db.nextPage !in db.pages
  {
    forall p | p in db.pages ensures p != db.nextPage {
      assert RowOk(db, p);
    }
  }

  /** In a valid store a key names at most one page of a site. */
  lemma LookupUnique(db: Db, s: nat, k: Key, p: nat)
    requires Inv(db) && StoredAs(db, s, k, p)
    ensures Stored(db, s, k) && Lookup(db, s, k) == p
  {
  }
}
