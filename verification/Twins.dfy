/**
 Two sites with the same address and the same history, possibly in different
 databases and under different identifiers, crawl alike: the selections and the
 answers being the same, so are the pages and links by key.
 */
module Twins {
  import opened Options
  import opened Tables
  import opened Checks
  import opened Frontier
  import opened Steps
  import opened Machine
  import Restart
  import Url

  /** A site inside a database. */
  datatype Place = Place(db: Db, site: nat)

  ghost predicate Pair(a: Place, b: Place, p: nat, q: nat) {
    && p in PagesOf(a.db, a.site) && q in PagesOf(b.db, b.site)
    && a.db.pages[p].key == b.db.pages[q].key
  }

  ghost predicate Has(a: Place, k: Key) {
    Stored(a.db, a.site, k)
  }

  /** What a crawl can see of a row; the status only once it was checked. */
  predicate SameRow(x: Page, y: Page) {
    && x.isChecked == y.isChecked && x.isLinkable == y.isLinkable
    && x.contentType == y.contentType && x.sizeBytes == y.sizeBytes
    && (x.isChecked ==> x.status == y.status)
  }

  ghost predicate SamePage(a: Place, b: Place, p: nat, q: nat)
    requires Pair(a, b, p, q)
  {
    && SameRow(a.db.pages[p], b.db.pages[q])
    && ValuesOf(a.db, p) == ValuesOf(b.db, q)
    && p !in a.db.scheduled && q !in b.db.scheduled
  }

  ghost predicate SameTwo(a: Place, b: Place, p: nat, q: nat, p': nat, q': nat)
    requires Pair(a, b, p, q) && Pair(a, b, p', q')
  {
    && (a.db.pages[p].createdAt < a.db.pages[p'].createdAt <==> b.db.pages[q].createdAt < b.db.pages[q'].createdAt)
    && (a.db.pages[p].isChecked && a.db.pages[p'].isChecked ==>
          (a.db.pages[p].checkedAt < a.db.pages[p'].checkedAt <==> b.db.pages[q].checkedAt < b.db.pages[q'].checkedAt))
    && (Link(p, p') in a.db.links <==> Link(q, q') in b.db.links)
  }

  predicate SameHost(a: Place, b: Place) {
    && a.site in a.db.sites && b.site in b.db.sites
    && SameAddress(a.db.sites[a.site], b.db.sites[b.site])
  }

  ghost predicate SameKeys(a: Place, b: Place) {
    forall k :: Has(a, k) <==> Has(b, k)
  }

  ghost predicate SamePages(a: Place, b: Place) {
    forall p, q :: Pair(a, b, p, q) ==> SamePage(a, b, p, q)
  }

  ghost predicate SameTwos(a: Place, b: Place) {
    forall p, q, p', q' :: Pair(a, b, p, q) && Pair(a, b, p', q') ==> SameTwo(a, b, p, q, p', q')
  }

  ghost predicate Twins(a: Place, b: Place) {
    SameHost(a, b) && SameKeys(a, b) && SamePages(a, b) && SameTwos(a, b)
  }

  lemma PairOfLeft(a: Place, b: Place, p: nat) returns (q: nat)
    requires Twins(a, b) && p in PagesOf(a.db, a.site)
    ensures Pair(a, b, p, q)
  {
    var k := a.db.pages[p].key;
    assert StoredAs(a.db, a.site, k, p) && Has(a, k);
    q := Lookup(b.db, b.site, k);
  }

  lemma PairOfRight(a: Place, b: Place, q: nat) returns (p: nat)
    requires Twins(a, b) && q in PagesOf(b.db, b.site)
    ensures Pair(a, b, p, q)
  {
    var k := b.db.pages[q].key;
    assert StoredAs(b.db, b.site, k, q) && Has(b, k);
    p := Lookup(a.db, a.site, k);
  }

  lemma PairIsUnique(a: Place, b: Place, p: nat, q: nat, p': nat, q': nat)
    requires Inv(a.db) && Inv(b.db) && Pair(a, b, p, q) && Pair(a, b, p', q')
    ensures p == p' <==> q == q'
  {
    assert p != p' ==> Apart(a.db.pages[p], a.db.pages[p']);
    assert q != q' ==> Apart(b.db.pages[q], b.db.pages[q']);
  }

  // ----- the same selection -----

  lemma NoneDue(a: Place, b: Place)
    requires Twins(a, b)
    ensures Due(a.db, a.site) == {} && Due(b.db, b.site) == {}
  {
    forall p | p in PagesOf(a.db, a.site) ensures p !in a.db.scheduled {
      var q := PairOfLeft(a, b, p);
      assert SamePage(a, b, p, q);
    }
    forall q | q in PagesOf(b.db, b.site) ensures q !in b.db.scheduled {
      var p := PairOfRight(a, b, q);
      assert SamePage(a, b, p, q);
    }
  }

  lemma SameBranch(a: Place, b: Place, coin: bool)
    requires Twins(a, b)
    ensures BranchOf(a.db, a.site, coin) == BranchOf(b.db, b.site, coin)
  {
    NoneDue(a, b);
    SameEmptiness(a, b);
  }

  lemma SameEmptiness(a: Place, b: Place)
    requires Twins(a, b)
    ensures Errors(a.db, a.site) == {} <==> Errors(b.db, b.site) == {}
    ensures Unchecked(a.db, a.site) == {} <==> Unchecked(b.db, b.site) == {}
    ensures CheckedPages(a.db, a.site) == {} <==> CheckedPages(b.db, b.site) == {}
  {
    forall p | p in PagesOf(a.db, a.site)
      ensures p in Errors(a.db, a.site) ==> Errors(b.db, b.site) != {}
      ensures p in Unchecked(a.db, a.site) ==> Unchecked(b.db, b.site) != {}
      ensures p in CheckedPages(a.db, a.site) ==> CheckedPages(b.db, b.site) != {}
    {
      var q := PairOfLeft(a, b, p);
      assert SamePage(a, b, p, q);
      assert q in Errors(b.db, b.site) <==> p in Errors(a.db, a.site);
      assert q in Unchecked(b.db, b.site) <==> p in Unchecked(a.db, a.site);
      assert q in CheckedPages(b.db, b.site) <==> p in CheckedPages(a.db, a.site);
    }
    forall q | q in PagesOf(b.db, b.site)
      ensures q in Errors(b.db, b.site) ==> Errors(a.db, a.site) != {}
      ensures q in Unchecked(b.db, b.site) ==> Unchecked(a.db, a.site) != {}
      ensures q in CheckedPages(b.db, b.site) ==> CheckedPages(a.db, a.site) != {}
    {
      var p := PairOfRight(a, b, q);
      assert SamePage(a, b, p, q);
      assert q in Errors(b.db, b.site) <==> p in Errors(a.db, a.site);
      assert q in Unchecked(b.db, b.site) <==> p in Unchecked(a.db, a.site);
      assert q in CheckedPages(b.db, b.site) <==> p in CheckedPages(a.db, a.site);
    }
  }

  /** With the same coin both frontiers offer the page of the same key. */
  lemma SameChoice(a: Place, b: Place, coin: bool, p: Option<nat>, q: Option<nat>)
    requires Inv(a.db) && Inv(b.db) && Twins(a, b)
    requires NextPage(a.db, a.site, coin, p) && NextPage(b.db, b.site, coin, q)
    ensures p.Some? <==> q.Some?
    ensures p.Some? ==> Pair(a, b, p.value, q.value)
  {
    SameBranch(a, b, coin);
    NoneDue(a, b);
    var _ := SelectionIsTotal(a.db, a.site, coin);
    var _ := SelectionIsTotal(b.db, b.site, coin);
    if p.Some? {
      var q' := PairOfLeft(a, b, p.value);
      if q.Some? {
        var p' := PairOfRight(a, b, q.value);
        SameFirst(a, b, coin, p.value, q', p', q.value);
      }
    } else if q.Some? {
      var p' := PairOfRight(a, b, q.value);
    }
  }

  lemma SameFirst(a: Place, b: Place, coin: bool, p: nat, q': nat, p': nat, q: nat)
    requires Inv(a.db) && Inv(b.db) && Twins(a, b)
    requires NextPage(a.db, a.site, coin, Some(p)) && NextPage(b.db, b.site, coin, Some(q))
    requires Pair(a, b, p, q') && Pair(a, b, p', q)
    ensures Pair(a, b, p, q)
  {
    NoneDue(a, b);
    SameBranch(a, b, coin);
    assert SamePage(a, b, p, q') && SamePage(a, b, p', q);
    assert SameTwo(a, b, p, q', p', q) && SameTwo(a, b, p', q, p, q');
    assert PagesOf(a.db, a.site) == CheckedPages(a.db, a.site) + Unchecked(a.db, a.site);
    RowsApart(a.db, p, p');
    RowsApart(b.db, q, q');
  }

  lemma RowsApart(db: Db, p: nat, q: nat)
    requires Inv(db) && p in db.pages && q in db.pages
    ensures p != q ==> Apart(db.pages[p], db.pages[q])
  {
  }

  // ----- the same check -----

  /** `x` is a stamped row of page `p`. */
  predicate Stamps(a: Place, p: nat, x: Page) {
    && p in PagesOf(a.db, a.site) && SameIdentity(a.db.pages[p], x)
    && x.isChecked && x.checkedAt == a.db.clock + 1
  }

  function Stamped(a: Place, p: nat, x: Page): Place {
    a.(db := SavePage(a.db.(clock := a.db.clock + 1), p, x))
  }

  lemma StampedPair(a: Place, b: Place, p: nat, q: nat, x: Page, y: Page, r: nat, t: nat)
    requires Stamps(a, p, x) && Stamps(b, q, y)
    ensures Pair(Stamped(a, p, x), Stamped(b, q, y), r, t) <==> Pair(a, b, r, t)
  {
  }

  lemma StampSameKeys(a: Place, b: Place, p: nat, q: nat, x: Page, y: Page)
    requires SameKeys(a, b) && Stamps(a, p, x) && Stamps(b, q, y)
    ensures SameKeys(Stamped(a, p, x), Stamped(b, q, y))
  {
    StampKeepsKeys(a.db, p, x, a.db.clock + 1);
    StampKeepsKeys(b.db, q, y, b.db.clock + 1);
    forall k ensures Has(Stamped(a, p, x), k) <==> Has(Stamped(b, q, y), k) {
      assert Has(a, k) <==> Has(b, k);
    }
  }

  lemma StampSamePages(a: Place, b: Place, p: nat, q: nat, x: Page, y: Page)
    requires Inv(a.db) && Inv(b.db) && SamePages(a, b) && Pair(a, b, p, q)
    requires Stamps(a, p, x) && Stamps(b, q, y) && SameRow(x, y)
    ensures SamePages(Stamped(a, p, x), Stamped(b, q, y))
  {
    var a', b' := Stamped(a, p, x), Stamped(b, q, y);
    forall r, t | Pair(a', b', r, t) ensures SamePage(a', b', r, t) {
      StampedPair(a, b, p, q, x, y, r, t);
      PairIsUnique(a, b, p, q, r, t);
      StampSamePage(a, b, p, q, x, y, r, t);
    }
  }

  lemma StampSamePage(a: Place, b: Place, p: nat, q: nat, x: Page, y: Page, r: nat, t: nat)
    requires Pair(a, b, p, q) && Pair(a, b, r, t) && SamePage(a, b, r, t) && (p == r <==> q == t)
    requires Stamps(a, p, x) && Stamps(b, q, y) && SameRow(x, y)
    ensures Pair(Stamped(a, p, x), Stamped(b, q, y), r, t)
    ensures SamePage(Stamped(a, p, x), Stamped(b, q, y), r, t)
  {
    var a', b' := Stamped(a, p, x), Stamped(b, q, y);
    assert ValuesOf(a'.db, r) == ValuesOf(a.db, r) && ValuesOf(b'.db, t) == ValuesOf(b.db, t);
  }

  lemma StampSameTwos(a: Place, b: Place, p: nat, q: nat, x: Page, y: Page)
    requires Inv(a.db) && Inv(b.db) && Twins(a, b) && Pair(a, b, p, q)
    requires Stamps(a, p, x) && Stamps(b, q, y)
    ensures SameTwos(Stamped(a, p, x), Stamped(b, q, y))
  {
    var a', b' := Stamped(a, p, x), Stamped(b, q, y);
    forall r, t, r', t' | Pair(a', b', r, t) && Pair(a', b', r', t') ensures SameTwo(a', b', r, t, r', t') {
      StampedPair(a, b, p, q, x, y, r, t);
      StampedPair(a, b, p, q, x, y, r', t');
      StampTwo(a, b, p, q, x, y, r, t, r', t');
    }
  }

  lemma StampTwo(a: Place, b: Place, p: nat, q: nat, x: Page, y: Page, r: nat, t: nat, r': nat, t': nat)
    requires Inv(a.db) && Inv(b.db) && Twins(a, b) && Pair(a, b, p, q)
    requires Stamps(a, p, x) && Stamps(b, q, y)
    requires Pair(a, b, r, t) && Pair(a, b, r', t')
    ensures var a', b' := Stamped(a, p, x), Stamped(b, q, y);
            Pair(a', b', r, t) && Pair(a', b', r', t') && SameTwo(a', b', r, t, r', t')
  {
    assert SameTwo(a, b, r, t, r', t');
    assert SamePage(a, b, r, t) && SamePage(a, b, r', t');
    PairIsUnique(a, b, p, q, r, t);
    PairIsUnique(a, b, p, q, r', t');
    StampedRow(a.db, p, x, r);
    StampedRow(a.db, p, x, r');
    StampedRow(b.db, q, y, t);
    StampedRow(b.db, q, y, t');
  }

  /** Stamping paired pages with alike rows. */
  lemma StampTwins(a: Place, b: Place, p: nat, q: nat, x: Page, y: Page)
    requires Inv(a.db) && Inv(b.db) && Twins(a, b) && Pair(a, b, p, q)
    requires Stamps(a, p, x) && Stamps(b, q, y) && SameRow(x, y)
    ensures Twins(Stamped(a, p, x), Stamped(b, q, y)) && Pair(Stamped(a, p, x), Stamped(b, q, y), p, q)
  {
    StampSameKeys(a, b, p, q, x, y);
    StampSamePages(a, b, p, q, x, y);
    StampSameTwos(a, b, p, q, x, y);
    StampedPair(a, b, p, q, x, y, p, q);
  }

  lemma StampedRow(db: Db, p: nat, x: Page, r: nat)
    requires Inv(db) && p in db.pages && r in db.pages
    requires SameIdentity(db.pages[p], x) && x.isChecked && x.checkedAt == db.clock + 1
    ensures var row := SavePage(db.(clock := db.clock + 1), p, x).pages[r];
            && SameIdentity(db.pages[r], row)
            && if r == p then row.isChecked && row.checkedAt == db.clock + 1
               else row == db.pages[r] && row.checkedAt <= db.clock
  {
    assert RowOk(db, r);
  }

  /** The place with an unchecked page added under `k`. */
  function Created(a: Place, k: Key): Place {
    a.(db := CreatePage(a.db, a.site, k, 0))
  }

  lemma CreateKeys(a: Place, k: Key)
    requires Inv(a.db)
    ensures forall j :: Has(Created(a, k), j) <==> Has(a, j) || j == k
  {
    var a' := Created(a, k);
    NextPageIsFree(a.db);
    forall j ensures Has(a', j) <==> Has(a, j) || j == k {
      if Has(a, j) {
        assert StoredAs(a'.db, a.site, j, Lookup(a.db, a.site, j));
      }
      assert StoredAs(a'.db, a.site, k, a.db.nextPage);
      if Has(a', j) {
        var p := Lookup(a'.db, a.site, j);
        assert p == a.db.nextPage || StoredAs(a.db, a.site, j, p);
      }
    }
  }

  /** A fresh identifier has nothing attached to it. */
  lemma FreshIsBare(db: Db)
    requires Inv(db)
    ensures ValuesOf(db, db.nextPage) == map[] && db.nextPage !in db.scheduled
    ensures forall l :: l in db.links ==> l.source != db.nextPage && l.target != db.nextPage
  {
    NextPageIsFree(db);
    forall l | l in db.links ensures l.source != db.nextPage && l.target != db.nextPage {
      assert LinkOk(db, l);
    }
  }

  /** Creating the page of a key neither side has. */
  lemma CreateTwins(a: Place, b: Place, k: Key)
    requires Inv(a.db) && Inv(b.db) && Twins(a, b) && !Has(a, k)
    ensures Twins(Created(a, k), Created(b, k))
  {
    var a', b' := Created(a, k), Created(b, k);
    CreateKeys(a, k);
    CreateKeys(b, k);
    forall j ensures Has(a', j) <==> Has(b', j) {
      assert Has(a, j) <==> Has(b, j);
    }
    forall r, t | Pair(a', b', r, t) ensures SamePage(a', b', r, t) {
      CreatedSamePage(a, b, k, r, t);
    }
    forall r, t, r', t' | Pair(a', b', r, t) && Pair(a', b', r', t') ensures SameTwo(a', b', r, t, r', t') {
      CreatedSameTwo(a, b, k, r, t, r', t');
    }
  }

  lemma CreatedSamePage(a: Place, b: Place, k: Key, r: nat, t: nat)
    requires Inv(a.db) && Inv(b.db) && Twins(a, b) && !Has(a, k)
    requires Pair(Created(a, k), Created(b, k), r, t)
    ensures SamePage(Created(a, k), Created(b, k), r, t)
  {
    FreshIsBare(a.db);
    FreshIsBare(b.db);
    CreatedPair(a, b, k, r, t);
    assert r != a.db.nextPage ==> SamePage(a, b, r, t);
  }

  lemma CreatedSameTwo(a: Place, b: Place, k: Key, r: nat, t: nat, r': nat, t': nat)
    requires Inv(a.db) && Inv(b.db) && Twins(a, b) && !Has(a, k)
    requires Pair(Created(a, k), Created(b, k), r, t)
    requires Pair(Created(a, k), Created(b, k), r', t')
    ensures SameTwo(Created(a, k), Created(b, k), r, t, r', t')
  {
    FreshIsBare(a.db);
    FreshIsBare(b.db);
    CreatedPair(a, b, k, r, t);
    CreatedPair(a, b, k, r', t');
    if r != a.db.nextPage { assert RowOk(a.db, r) && RowOk(b.db, t); }
    if r' != a.db.nextPage { assert RowOk(a.db, r') && RowOk(b.db, t'); }
    if r != a.db.nextPage && r' != a.db.nextPage { assert SameTwo(a, b, r, t, r', t'); }
  }

  lemma CreatedPair(a: Place, b: Place, k: Key, r: nat, t: nat)
    requires Inv(a.db) && Inv(b.db) && Twins(a, b) && !Has(a, k)
    requires Pair(Created(a, k), Created(b, k), r, t)
    ensures if r == a.db.nextPage then t == b.db.nextPage else Pair(a, b, r, t)
  {
    assert !Has(b, k);
    assert r != a.db.nextPage ==> StoredAs(a.db, a.site, a.db.pages[r].key, r);
    assert t != b.db.nextPage ==> StoredAs(b.db, b.site, b.db.pages[t].key, t);
  }

  lemma {:induction false} AddAllTwins(a: Place, b: Place, ks: seq<Key>)
    requires Inv(a.db) && Inv(b.db) && Twins(a, b)
    ensures Inv(AddAll(a.db, a.site, ks)) && Inv(AddAll(b.db, b.site, ks))
    ensures Twins(a.(db := AddAll(a.db, a.site, ks)), b.(db := AddAll(b.db, b.site, ks)))
  {
    AddAllGrows(a.db, a.site, ks);
    AddAllGrows(b.db, b.site, ks);
    if ks == [] {
      assert a.(db := a.db) == a && b.(db := b.db) == b;
    } else {
      var n := |ks| - 1;
      AddAllTwins(a, b, ks[..n]);
      var a', b' := a.(db := AddAll(a.db, a.site, ks[..n])), b.(db := AddAll(b.db, b.site, ks[..n]));
      assert Has(a', ks[n]) <==> Has(b', ks[n]);
      if !Has(a', ks[n]) {
        CreateTwins(a', b', ks[n]);
      }
    }
  }

  /** Changing only the links, alike on both sides. */
  lemma LinkTwins(a: Place, b: Place, a': Place, b': Place)
    requires Twins(a, b)
    requires a' == a.(db := a.db.(links := a'.db.links)) && b' == b.(db := b.db.(links := b'.db.links))
    requires forall p, q, p', q' :: Pair(a, b, p, q) && Pair(a, b, p', q') ==>
               (Link(p, p') in a'.db.links <==> Link(q, q') in b'.db.links)
    ensures Twins(a', b')
  {
    forall k ensures Has(a', k) <==> Has(b', k) {
      assert Has(a, k) <==> Has(b, k);
      assert forall p :: StoredAs(a.db, a.site, k, p) <==> StoredAs(a'.db, a.site, k, p);
      assert forall p :: StoredAs(b.db, b.site, k, p) <==> StoredAs(b'.db, b.site, k, p);
    }
    forall r, t | Pair(a', b', r, t) ensures SamePage(a', b', r, t) {
      assert Pair(a, b, r, t) && SamePage(a, b, r, t);
    }
    forall r, t, r', t' | Pair(a', b', r, t) && Pair(a', b', r', t') ensures SameTwo(a', b', r, t, r', t') {
      assert Pair(a, b, r, t) && Pair(a, b, r', t') && SameTwo(a, b, r, t, r', t');
    }
  }

  lemma ReplaceLinkTwins(a: Place, b: Place, p: nat, q: nat, ks: seq<Key>)
    requires Inv(a.db) && Inv(b.db) && Twins(a, b) && Pair(a, b, p, q)
    ensures Twins(a.(db := ReplaceOutgoing(a.db, p, LinkableTargets(a.db, a.site, ks))),
                  b.(db := ReplaceOutgoing(b.db, q, LinkableTargets(b.db, b.site, ks))))
  {
    var left, right := LinkableTargets(a.db, a.site, ks), LinkableTargets(b.db, b.site, ks);
    var a', b' := a.(db := ReplaceOutgoing(a.db, p, left)), b.(db := ReplaceOutgoing(b.db, q, right));
    forall r, t, r', t' | Pair(a, b, r, t) && Pair(a, b, r', t')
      ensures Link(r, r') in a'.db.links <==> Link(t, t') in b'.db.links
    {
      assert SameTwo(a, b, r, t, r', t') && SamePage(a, b, r', t');
      PairIsUnique(a, b, p, q, r, t);
      assert r' in left <==> t' in right;
    }
    LinkTwins(a, b, a', b');
  }

  lemma DropLinkTwins(a: Place, b: Place, p: nat, q: nat)
    requires Inv(a.db) && Inv(b.db) && Twins(a, b) && Pair(a, b, p, q)
    ensures Twins(a.(db := DropOutgoing(a.db, p)), b.(db := DropOutgoing(b.db, q)))
  {
    var a', b' := a.(db := DropOutgoing(a.db, p)), b.(db := DropOutgoing(b.db, q));
    forall r, t, r', t' | Pair(a, b, r, t) && Pair(a, b, r', t')
      ensures Link(r, r') in a'.db.links <==> Link(t, t') in b'.db.links
    {
      assert SameTwo(a, b, r, t, r', t');
      PairIsUnique(a, b, p, q, r, t);
    }
    LinkTwins(a, b, a', b');
  }

  lemma ReplaceValueTwins(a: Place, b: Place, p: nat, q: nat, values: map<string, string>)
    requires Inv(a.db) && Inv(b.db) && Twins(a, b) && Pair(a, b, p, q)
    ensures Twins(a.(db := ReplaceValues(a.db, p, values)), b.(db := ReplaceValues(b.db, q, values)))
  {
    var a', b' := a.(db := ReplaceValues(a.db, p, values)), b.(db := ReplaceValues(b.db, q, values));
    forall k ensures Has(a', k) <==> Has(b', k) {
      assert Has(a, k) <==> Has(b, k);
      assert forall p :: StoredAs(a.db, a.site, k, p) <==> StoredAs(a'.db, a.site, k, p);
      assert forall p :: StoredAs(b.db, b.site, k, p) <==> StoredAs(b'.db, b.site, k, p);
    }
    forall r, t | Pair(a', b', r, t) ensures SamePage(a', b', r, t) {
      assert Pair(a, b, r, t) && SamePage(a, b, r, t);
      PairIsUnique(a, b, p, q, r, t);
      ValuesReplaced(a.db, p, values);
      ValuesReplaced(b.db, q, values);
      if r != p {
        OtherValuesKept(a.db, p, values, r);
        OtherValuesKept(b.db, q, values, t);
      }
    }
    forall r, t, r', t' | Pair(a', b', r, t) && Pair(a', b', r', t') ensures SameTwo(a', b', r, t, r', t') {
      assert Pair(a, b, r, t) && Pair(a, b, r', t') && SameTwo(a, b, r, t, r', t');
    }
  }

  /** The stamped rows of a check with the same answer look alike. */
  lemma SameStamp(a: Place, b: Place, p: nat, q: nat, reply: Reply) returns (x: Page, y: Page)
    requires Twins(a, b) && Pair(a, b, p, q)
    ensures Stamps(a, p, x) && Stamps(b, q, y) && SameRow(x, y)
    ensures Stamped(a, p, x) == a.(db := Touch(a.db, p, reply))
    ensures Stamped(b, q, y) == b.(db := Touch(b.db, q, reply))
  {
    x, y := CheckedRow(a.db, p, reply), CheckedRow(b.db, q, reply);
    RowStamps(a, p, reply);
    RowStamps(b, q, reply);
    assert SamePage(a, b, p, q);
  }

  lemma RowStamps(a: Place, p: nat, reply: Reply)
    requires p in PagesOf(a.db, a.site)
    ensures Stamps(a, p, CheckedRow(a.db, p, reply))
    ensures Stamped(a, p, CheckedRow(a.db, p, reply)) == a.(db := Touch(a.db, p, reply))
  {
  }

  lemma TouchTwins(a: Place, b: Place, p: nat, q: nat, reply: Reply) returns (a': Place, b': Place)
    requires Inv(a.db) && Inv(b.db) && Twins(a, b) && Pair(a, b, p, q)
    ensures a' == a.(db := Touch(a.db, p, reply)) && b' == b.(db := Touch(b.db, q, reply))
    ensures Twins(a', b') && Pair(a', b', p, q)
  {
    var x, y := SameStamp(a, b, p, q, reply);
    StampTwins(a, b, p, q, x, y);
    a', b' := Stamped(a, p, x), Stamped(b, q, y);
  }

  /** Checking paired pages with the same answer keeps the sites twins. */
  lemma CheckTwins(a: Place, b: Place, p: nat, q: nat, reply: Reply)
    requires Inv(a.db) && Inv(b.db) && Twins(a, b) && Pair(a, b, p, q)
    ensures Twins(a.(db := Check(a.db, p, reply)), b.(db := Check(b.db, q, reply)))
  {
    CheckFinishes(a, p, reply);
    CheckFinishes(b, q, reply);
    var a', b' := TouchTwins(a, b, p, q, reply);
    TouchKeepsInv(a.db, p, reply);
    TouchKeepsInv(b.db, q, reply);
    FinishTwins(a', b', p, q, reply);
  }

  lemma CheckFinishes(a: Place, p: nat, reply: Reply)
    requires p in PagesOf(a.db, a.site)
    ensures p in PagesOf(Touch(a.db, p, reply), a.site)
    ensures Check(a.db, p, reply) == Finish(a.(db := Touch(a.db, p, reply)), p, reply)
  {
  }

  /** What a check does once the page is stamped. */
  ghost function Finish(a: Place, p: nat, reply: Reply): Db
    requires p in PagesOf(a.db, a.site)
  {
    if !SaysHtml(reply) then a.db
    else if !LocalReply(a.db, a.site, reply) then DropOutgoing(a.db, p)
    else match reply.body
      case Unreadable => a.db
      case Invalid => a.db
      case Html(urls, runs) => RunPlugins(UpdateLinks(a.db, p, Keys(urls)), p, runs)
  }

  lemma FinishTwins(a: Place, b: Place, p: nat, q: nat, reply: Reply)
    requires Inv(a.db) && Inv(b.db) && Twins(a, b) && Pair(a, b, p, q)
    ensures Twins(a.(db := Finish(a, p, reply)), b.(db := Finish(b, q, reply)))
  {
    if !SaysHtml(reply) {
    } else if !LocalReply(a.db, a.site, reply) {
      DropLinkTwins(a, b, p, q);
    } else if reply.body.Html? {
      ExpandTwins(a, b, p, q, Keys(reply.body.urls), Strings(Merge(reply.body.runs)));
    }
  }

  lemma ExpandTwins(a: Place, b: Place, p: nat, q: nat, ks: seq<Key>, values: map<string, string>)
    requires Inv(a.db) && Inv(b.db) && Twins(a, b) && Pair(a, b, p, q)
    ensures Twins(a.(db := ReplaceValues(UpdateLinks(a.db, p, ks), p, values)),
                  b.(db := ReplaceValues(UpdateLinks(b.db, q, ks), q, values)))
  {
    UpdateLinksKeepsInv(a.db, p, ks);
    UpdateLinksKeepsInv(b.db, q, ks);
    LinkedTwins(a, b, p, q, ks);
    ReplaceValueTwins(a.(db := UpdateLinks(a.db, p, ks)), b.(db := UpdateLinks(b.db, q, ks)), p, q, values);
  }

  lemma LinkedTwins(a: Place, b: Place, p: nat, q: nat, ks: seq<Key>)
    requires Inv(a.db) && Inv(b.db) && Twins(a, b) && Pair(a, b, p, q)
    ensures var a', b' := a.(db := UpdateLinks(a.db, p, ks)), b.(db := UpdateLinks(b.db, q, ks));
            Twins(a', b') && Pair(a', b', p, q)
  {
    AddAllTwins(a, b, ks);
    AddAllGrows(a.db, a.site, ks);
    AddAllGrows(b.db, b.site, ks);
    var a', b' := a.(db := AddAll(a.db, a.site, ks)), b.(db := AddAll(b.db, b.site, ks));
    assert Pair(a', b', p, q);
    ReplaceLinkTwins(a', b', p, q, ks);
  }

  // ----- whole crawls -----

  /** What the web answers to the `i`-th check, depending only on the page's key. */
  type Answers = (nat, Key) -> Reply

  /** A run that only checks site `s`, with the given coins and answers. */
  ghost predicate SiteCrawl(s: nat, coins: seq<bool>, answers: Answers, states: seq<Db>, steps: seq<Step>) {
    && Run(states, steps) && |coins| == |steps|
    && forall i :: 0 <= i < |steps| ==> CrawlsWith(states[i], steps[i], s, coins[i], answers, i)
  }

  ghost predicate CrawlsWith(db: Db, step: Step, s: nat, coin: bool, answers: Answers, i: nat) {
    && step.CheckNext? && step.site == s && step.coin == coin
    && (step.chosen.Some? && step.chosen.value in db.pages ==>
          step.reply == answers(i, db.pages[step.chosen.value].key))
  }

  lemma StepTwins(a: Place, b: Place, stepA: Step, stepB: Step, dbA: Db, dbB: Db, coin: bool, answers: Answers, i: nat)
    requires Inv(a.db) && Inv(b.db) && Twins(a, b)
    requires Next(a.db, stepA, dbA) && CrawlsWith(a.db, stepA, a.site, coin, answers, i)
    requires Next(b.db, stepB, dbB) && CrawlsWith(b.db, stepB, b.site, coin, answers, i)
    ensures Twins(a.(db := dbA), b.(db := dbB))
    ensures stepA.chosen.Some? <==> stepB.chosen.Some?
    ensures stepA.chosen.Some? ==> Pair(a, b, stepA.chosen.value, stepB.chosen.value)
  {
    SameChoice(a, b, coin, stepA.chosen, stepB.chosen);
    if stepA.chosen.Some? {
      assert stepA.reply == stepB.reply;
      CheckTwins(a, b, stepA.chosen.value, stepB.chosen.value, stepA.reply);
    } else {
      assert a.(db := dbA) == a && b.(db := dbB) == b;
    }
  }

  lemma {:induction false} CrawlTwins(s: nat, t: nat, coins: seq<bool>, answers: Answers,
      statesA: seq<Db>, stepsA: seq<Step>, statesB: seq<Db>, stepsB: seq<Step>, n: nat)
    requires SiteCrawl(s, coins, answers, statesA, stepsA) && Inv(statesA[0])
    requires SiteCrawl(t, coins, answers, statesB, stepsB) && Inv(statesB[0])
    requires Twins(Place(statesA[0], s), Place(statesB[0], t)) && n < |statesA|
    ensures Twins(Place(statesA[n], s), Place(statesB[n], t))
  {
    if n > 0 {
      var i := n - 1;
      CrawlTwins(s, t, coins, answers, statesA, stepsA, statesB, stepsB, i);
      RunKeepsInv(statesA, stepsA, i);
      RunKeepsInv(statesB, stepsB, i);
      StepTwins(Place(statesA[i], s), Place(statesB[i], t), stepsA[i], stepsB[i], statesA[n], statesB[n],
                coins[i], answers, i);
    }
  }

  /** One unchecked page under the same key, with nothing attached, on each side. */
  lemma FreshTwins(a: Place, b: Place, p: nat, q: nat)
    requires Inv(a.db) && Inv(b.db) && SameHost(a, b)
    requires PagesOf(a.db, a.site) == {p} && PagesOf(b.db, b.site) == {q}
    requires a.db.pages[p].key == b.db.pages[q].key
    requires !a.db.pages[p].isChecked && !b.db.pages[q].isChecked && SameRow(a.db.pages[p], b.db.pages[q])
    requires Bare(a.db, p) && Bare(b.db, q)
    ensures Twins(a, b)
  {
    forall k ensures Has(a, k) <==> k == a.db.pages[p].key {
      assert k == a.db.pages[p].key ==> StoredAs(a.db, a.site, k, p);
      if Has(a, k) { assert Lookup(a.db, a.site, k) in PagesOf(a.db, a.site); }
    }
    forall k ensures Has(b, k) <==> k == b.db.pages[q].key {
      assert k == b.db.pages[q].key ==> StoredAs(b.db, b.site, k, q);
      if Has(b, k) { assert Lookup(b.db, b.site, k) in PagesOf(b.db, b.site); }
    }
    assert forall r, t :: Pair(a, b, r, t) ==> r == p && t == q;
  }

  ghost predicate Bare(db: Db, p: nat) {
    && (forall l :: l in db.links ==> l.source != p && l.target != p)
    && ValuesOf(db, p) == map[] && p !in db.scheduled
  }

  // ----- reset against a brand-new site -----

  lemma ResetAndInitAreTwins(db: Db, name: string, db2: Db, url: string, name2: string)
    requires Inv(db) && NameUsed(db, name)
    requires Inv(db2) && InitOutcomeOf(db2, url, name2).Created?
    requires SameAddress(db.sites[SiteNamed(db, name)], SiteOf(url, name2))
    requires var path := SiteOf(url, name2).path; KeyOf(path) == Key(path, "")
    ensures Twins(Place(ResetSite(db, name), SiteNamed(db, name)), Place(InitSite(db2, url, name2), db2.nextSite))
  {
    var s := SiteNamed(db, name);
    var a, b := Place(ResetSite(db, name), s), Place(InitSite(db2, url, name2), db2.nextSite);
    ResetSiteKeepsInv(db, name);
    InitSiteKeepsInv(db2, url, name2);
    var p := ResetIsBare(db, name);
    var q := InitIsBare(db2, url, name2);
    FreshTwins(a, b, p, q);
  }

  lemma ResetIsBare(db: Db, name: string) returns (p: nat)
    requires Inv(db) && NameUsed(db, name)
    ensures var s, db' := SiteNamed(db, name), ResetSite(db, name);
            && PagesOf(db', s) == {p} && Bare(db', p) && db'.sites == db.sites
            && db'.pages[p] == FreshPage(s, KeyOf(db.sites[s].path), 0, db.clock + 1)
  {
    p := Restart.ResetIsFresh(db, name);
  }

  lemma InitIsBare(db: Db, url: string, name: string) returns (p: nat)
    requires Inv(db) && InitOutcomeOf(db, url, name).Created?
    ensures var db' := InitSite(db, url, name);
            && PagesOf(db', db.nextSite) == {p} && Bare(db', p)
            && db'.sites == db.sites[db.nextSite := SiteOf(url, name)]
            && db'.pages[p] == FreshPage(db.nextSite, Key(SiteOf(url, name).path, ""), -1, db.clock + 1)
  {
    p := db.nextPage;
    NewSiteIsBare(db, SiteOf(url, name), Key(SiteOf(url, name).path, ""));
  }

  lemma NewSiteIsBare(db: Db, site: Site, k: Key)
    requires Inv(db)
    ensures var db', p := CreatePage(AddSite(db, site), db.nextSite, k, -1), db.nextPage;
            && PagesOf(db', db.nextSite) == {p} && Bare(db', p)
            && db'.pages[p] == FreshPage(db.nextSite, k, -1, db.clock + 1)
  {
    NewSitePages(db, site, k);
    NewPageIsBare(db, site, k);
  }

  lemma NewPageIsBare(db: Db, site: Site, k: Key)
    requires Inv(db)
    ensures Bare(CreatePage(AddSite(db, site), db.nextSite, k, -1), db.nextPage)
  {
    NextIsBare(db);
    SameRowsSameBareness(db, AddSite(db, site), db.nextPage);
    CreatedIsBare(AddSite(db, site), db.nextSite, k);
  }

  lemma CreatedIsBare(db: Db, s: nat, k: Key)
    requires Bare(db, db.nextPage)
    ensures Bare(CreatePage(db, s, k, -1), db.nextPage)
  {
    SameRowsSameBareness(db, CreatePage(db, s, k, -1), db.nextPage);
  }

  lemma NextIsBare(db: Db)
    requires Inv(db)
    ensures Bare(db, db.nextPage)
  {
    FreshIsBare(db);
  }

  lemma NewSitePages(db: Db, site: Site, k: Key)
    requires Inv(db)
    ensures PagesOf(CreatePage(AddSite(db, site), db.nextSite, k, -1), db.nextSite) == {db.nextPage}
  {
    NoPagesYet(db);
  }

  lemma NoPagesYet(db: Db)
    requires Inv(db)
    ensures forall r :: r in db.pages ==> db.pages[r].site != db.nextSite
  {
    forall r | r in db.pages ensures db.pages[r].site != db.nextSite {
      assert RowOk(db, r);
    }
  }

  lemma SameRowsSameBareness(db: Db, db': Db, p: nat)
    requires db'.links == db.links && db'.values == db.values && db'.scheduled == db.scheduled
    requires Bare(db, p)
    ensures Bare(db', p)
  {
  }

  /** Some page under `k` links to some page under `j`. */
  ghost predicate KeyLink(a: Place, k: Key, j: Key) {
    exists p, p' :: StoredAs(a.db, a.site, k, p) && StoredAs(a.db, a.site, j, p') && Link(p, p') in a.db.links
  }

  lemma TwinsShareGraph(a: Place, b: Place, k: Key, j: Key)
    requires Twins(a, b)
    ensures Has(a, k) <==> Has(b, k)
    ensures KeyLink(a, k, j) <==> KeyLink(b, k, j)
  {
    if p, p' :| StoredAs(a.db, a.site, k, p) && StoredAs(a.db, a.site, j, p') && Link(p, p') in a.db.links {
      var q := PairOfLeft(a, b, p);
      var q' := PairOfLeft(a, b, p');
      assert SameTwo(a, b, p, q, p', q');
      assert StoredAs(b.db, b.site, k, q) && StoredAs(b.db, b.site, j, q');
    }
    if q, q' :| StoredAs(b.db, b.site, k, q) && StoredAs(b.db, b.site, j, q') && Link(q, q') in b.db.links {
      var p := PairOfRight(a, b, q);
      var p' := PairOfRight(a, b, q');
      assert SameTwo(a, b, p, q, p', q');
      assert StoredAs(a.db, a.site, k, p) && StoredAs(a.db, a.site, j, p');
    }
  }

  /**
   After any history, a reset site crawls exactly like a new site at the same
   address: with the same coins and answers, the keys stored and the links between
   them agree after every step.  The seed path must survive being split again.
   */
  lemma ResetCrawlsLikeNew(db: Db, name: string, db2: Db, url: string, name2: string,
      coins: seq<bool>, answers: Answers,
      statesA: seq<Db>, stepsA: seq<Step>, statesB: seq<Db>, stepsB: seq<Step>, n: nat, k: Key, j: Key)
    requires Inv(db) && NameUsed(db, name)
    requires Inv(db2) && InitOutcomeOf(db2, url, name2).Created?
    requires SameAddress(db.sites[SiteNamed(db, name)], SiteOf(url, name2))
    requires var path := SiteOf(url, name2).path; Url.SplitScheme(path).0 == "" && !Url.DoubleSlash(path)
    requires SiteCrawl(SiteNamed(db, name), coins, answers, statesA, stepsA) && statesA[0] == ResetSite(db, name)
    requires SiteCrawl(db2.nextSite, coins, answers, statesB, stepsB) && statesB[0] == InitSite(db2, url, name2)
    requires n <= |coins|
    ensures Stored(statesA[n], SiteNamed(db, name), k) <==> Stored(statesB[n], db2.nextSite, k)
    ensures KeyLink(Place(statesA[n], SiteNamed(db, name)), k, j) <==> KeyLink(Place(statesB[n], db2.nextSite), k, j)
  {
    Url.ParsedPathIsSplit(url);
    Restart.ResetSeedKey(SiteOf(url, name2).path);
    ResetAndInitAreTwins(db, name, db2, url, name2);
    ResetSiteKeepsInv(db, name);
    InitSiteKeepsInv(db2, url, name2);
    var s, t := SiteNamed(db, name), db2.nextSite;
    CrawlTwins(s, t, coins, answers, statesA, stepsA, statesB, stepsB, n);
    TwinsShareGraph(Place(statesA[n], s), Place(statesB[n], t), k, j);
  }
}
