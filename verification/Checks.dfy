/** Checking one page: what it writes to the page row, the links and the values. */
module Checks {
  import opened Tables
  import Decimal
  import Url

  // ----- what the web answers -----

  /** The values a plug-in may return; a floating-point one is known by its printed form. */
  datatype Datum = Nothing | Flag(on: bool) | Number(n: int) | Float(printed: string) | Text(text: string)

  datatype PluginRun = Raised | Returned(values: map<string, Datum>)

  /**
   The text behind a page that announced itself as HTML: not retrievable, not
   recognised as HTML, or HTML with the valid links found in it (in any order,
   possibly repeated) and the plug-in runs, in registry order.
   */
  datatype Body = Unreadable | Invalid | Html(urls: seq<string>, runs: seq<PluginRun>)

  /** The answer to a check: refused with a code, or a response. */
  datatype Reply =
    | Refused(code: int)
    | Answered(status: int, contentType: string, sizeBytes: int, url: string, body: Body)

  datatype Report =
    | Failed
    | Visited
    | Crawled(added: set<nat>, removed: set<nat>, pluginsOk: bool)
    | Crashed

  const TEAPOT := 418

  /** The media type of a content-type header: up to the first `;`, in lower case. */
  function ContentType(header: string): string {
    Url.Lower(Url.Before(header, ';'))
  }

  predicate SaysHtml(reply: Reply) {
    reply.Answered? && ContentType(reply.contentType) == "text/html"
  }

  predicate LocalReply(db: Db, s: nat, reply: Reply) {
    reply.Answered? && s in db.sites
    && Url.IsLocal(db.sites[s].scheme, db.sites[s].netloc, reply.url)
  }

  predicate Expands(db: Db, s: nat, reply: Reply) {
    SaysHtml(reply) && LocalReply(db, s, reply) && reply.body.Html?
  }

  /** The keys a check of a page of site `s` will store. */
  function Discovered(db: Db, s: nat, reply: Reply): seq<Key> {
    if Expands(db, s, reply) then Keys(reply.body.urls) else []
  }

  // ----- links -----

  function LinkableTargets(db: Db, s: nat, ks: seq<Key>): set<nat> {
    set p | p in db.pages && db.pages[p].site == s && db.pages[p].key in ks && db.pages[p].isLinkable
  }

  function ReplaceOutgoing(db: Db, p: nat, targets: set<nat>): Db {
    db.(links := (set l | l in db.links && l.source != p) + (set t | t in targets :: Link(p, t)))
  }

  /** After a crawl of `p`, its links lead to exactly the linkable pages named by `ks`. */
  ghost function UpdateLinks(db: Db, p: nat, ks: seq<Key>): Db
    requires p in db.pages
  {
    var s := db.pages[p].site;
    var grown := AddAll(db, s, ks);
    ReplaceOutgoing(grown, p, LinkableTargets(grown, s, ks))
  }

  // ----- values -----

  function Str(d: Datum): string {
    match d
    case Nothing => "None"
    case Flag(on) => if on then "True" else "False"
    case Number(n) => if n < 0 then "-" + Decimal.Digits(-n) else Decimal.Digits(n)
    case Float(printed) => printed
    case Text(text) => text
  }

  function RunValues(run: PluginRun): map<string, Datum> {
    match run
    case Raised => map[]
    case Returned(values) => values
  }

  /** Later plug-ins override earlier ones. */
  function Merge(runs: seq<PluginRun>): map<string, Datum> {
    if runs == [] then map[] else Merge(runs[..|runs| - 1]) + RunValues(runs[|runs| - 1])
  }

  function Strings(values: map<string, Datum>): map<string, string> {
    map name | name in values :: Str(values[name])
  }

  function ReplaceValues(db: Db, p: nat, values: map<string, string>): Db {
    db.(values := (map slot | slot in db.values && slot.page != p :: db.values[slot])
                  + (map name | name in values :: Slot(p, name) := values[name]))
  }

  predicate AllReturned(runs: seq<PluginRun>) {
    forall i :: 0 <= i < |runs| ==> runs[i].Returned?
  }

  function RunPlugins(db: Db, p: nat, runs: seq<PluginRun>): Db {
    ReplaceValues(db, p, Strings(Merge(runs)))
  }

  // ----- one check -----

  function SavePage(db: Db, p: nat, row: Page): Db {
    db.(pages := db.pages[p := row])
  }

  /** The row as the check leaves it, before links and values are looked at. */
  function CheckedRow(db: Db, p: nat, reply: Reply): Page
    requires p in db.pages
  {
    var row := db.pages[p].(isChecked := true, checkedAt := db.clock + 1);
    match reply
    case Refused(code) => row.(status := code)
    case Answered(status, header, size, _, body) =>
      var answered := row.(status := status, contentType := ContentType(header), sizeBytes := size);
      if SaysHtml(reply) && LocalReply(db, row.site, reply) && body.Invalid?
      then answered.(status := TEAPOT)
      else answered
  }

  function Touch(db: Db, p: nat, reply: Reply): Db
    requires p in db.pages
  {
    SavePage(db.(clock := db.clock + 1), p, CheckedRow(db, p, reply))
  }

  ghost function Check(db: Db, p: nat, reply: Reply): Db
    requires p in db.pages
  {
    var s := db.pages[p].site;
    var touched := Touch(db, p, reply);
    if !SaysHtml(reply) then touched
    else if !LocalReply(db, s, reply) then DropOutgoing(touched, p)
    else match reply.body
      case Unreadable => touched
      case Invalid => touched
      case Html(urls, runs) => RunPlugins(UpdateLinks(touched, p, Keys(urls)), p, runs)
  }

  ghost function CheckReport(db: Db, p: nat, reply: Reply): Report
    requires p in db.pages
  {
    if reply.Refused? then Failed
    else if !SaysHtml(reply) || !LocalReply(db, db.pages[p].site, reply) then Visited
    else match reply.body
      case Unreadable => Crashed
      case Invalid => Failed
      case Html(urls, runs) =>
        var before := Outgoing(db, p);
        var after := Outgoing(Check(db, p, reply), p);
        Crawled(after - before, before - after, AllReturned(runs))
  }

  // ----- link reconciliation -----

  lemma OutgoingReplaced(db: Db, p: nat, targets: set<nat>)
    ensures Outgoing(ReplaceOutgoing(db, p, targets), p) == targets
    ensures forall q :: q != p ==> Outgoing(ReplaceOutgoing(db, p, targets), q) == Outgoing(db, q)
  {
    var db' := ReplaceOutgoing(db, p, targets);
    forall t | t in targets ensures t in Outgoing(db', p) {
      assert Link(p, t) in db'.links;
    }
    forall q | q != p ensures Outgoing(db', q) == Outgoing(db, q) {
      forall t ensures t in Outgoing(db, q) <==> t in Outgoing(db', q) {
        assert Link(q, t) in db.links <==> Link(q, t) in db'.links;
        assert t in Outgoing(db, q) ==> Link(q, t) in db.links;
        assert t in Outgoing(db', q) ==> Link(q, t) in db'.links;
      }
    }
  }

  lemma UpdateLinksKeepsInv(db: Db, p: nat, ks: seq<Key>)
    requires Inv(db) && p in db.pages
    ensures Inv(UpdateLinks(db, p, ks))
  {
    var s := db.pages[p].site;
    AddAllGrows(db, s, ks);
    var grown := AddAll(db, s, ks);
    var db' := UpdateLinks(db, p, ks);
    forall l | l in db'.links ensures LinkOk(db', l) {
      assert l.source != p ==> LinkOk(db, l);
    }
  }

  /** What is lost and what is gained account for the change of size. */
  lemma ChangeSizes(before: set<nat>, after: set<nat>)
    ensures |before - after| + |after| == |after - before| + |before|
  {
    assert (before - after) + (before * after) == before && (after - before) + (before * after) == after;
  }

  /**
   Reconciling the links of a page: its targets become the linkable pages of its
   site that the text names, every named page is stored, nothing else is written,
   and the sizes of what went and what came account for the change.
   */
  lemma UpdateLinksRefines(db: Db, p: nat, ks: seq<Key>)
    requires Inv(db) && p in db.pages
    ensures var s, db' := db.pages[p].site, UpdateLinks(db, p, ks);
            && Outgoing(db', p) == LinkableTargets(db', s, ks)
            && (forall q :: q != p ==> Outgoing(db', q) == Outgoing(db, q))
            && Grows(db, db'.(links := db.links), s, ks)
            && |Outgoing(db, p) - Outgoing(db', p)| + |Outgoing(db', p)|
               == |Outgoing(db', p) - Outgoing(db, p)| + |Outgoing(db, p)|
  {
    var s := db.pages[p].site;
    AddAllGrows(db, s, ks);
    var grown := AddAll(db, s, ks);
    var db' := UpdateLinks(db, p, ks);
    OutgoingReplaced(grown, p, LinkableTargets(grown, s, ks));
    assert LinkableTargets(grown, s, ks) == LinkableTargets(db', s, ks);
    assert db'.(links := db.links) == grown;
    ChangeSizes(Outgoing(db, p), Outgoing(db', p));
    LinksDecide(grown, db);
  }

  /** Pages that are all stored already are not created again. */
  lemma {:induction false} AddAllStored(db: Db, s: nat, ks: seq<Key>)
    requires forall k :: k in ks ==> Stored(db, s, k)
    ensures AddAll(db, s, ks) == db
  {
    if ks != [] {
      AddAllStored(db, s, ks[..|ks| - 1]);
    }
  }

  /** A second run over the same links, found in any order, changes nothing at all. */
  lemma UpdateLinksTwice(db: Db, p: nat, ks: seq<Key>, again: seq<Key>)
    requires Inv(db) && p in db.pages
    requires forall k :: k in ks <==> k in again
    ensures var db' := UpdateLinks(db, p, ks);
            p in db'.pages && UpdateLinks(db', p, again) == db'
  {
    UpdateLinksRefines(db, p, ks);
    var s := db.pages[p].site;
    var db' := UpdateLinks(db, p, ks);
    forall k | k in again ensures Stored(db', s, k) {
      var q := Lookup(db'.(links := db.links), s, k);
      assert StoredAs(db', s, k, q);
    }
    AddAllStored(db', s, again);
    assert LinkableTargets(db', s, again) == LinkableTargets(db', s, ks);
    var db'' := UpdateLinks(db', p, again);
    assert db''.links == db'.links by {
      forall l | l in db'.links && l.source == p ensures l in db''.links {
        assert l.target in Outgoing(db', p);
      }
    }
  }

  // ----- the incremental form of reconciliation -----

  /** The store with links from `p` to `targets` added to those it has. */
  function WithLinks(db: Db, p: nat, targets: set<nat>): Db {
    db.(links := db.links + (set t | t in targets :: Link(p, t)))
  }

  /** Adding a page does not look at the links. */
  lemma AddPageWithLinks(db: Db, p: nat, targets: set<nat>, s: nat, k: Key)
    ensures AddPage(WithLinks(db, p, targets), s, k) == WithLinks(AddPage(db, s, k), p, targets)
  {
    var db' := WithLinks(db, p, targets);
    assert forall q :: StoredAs(db', s, k, q) <==> StoredAs(db, s, k, q);
    assert Stored(db', s, k) <==> Stored(db, s, k);
  }

  /** One more name adds its page to the targets, if that page is linkable. */
  lemma TargetsExtend(db: Db, s: nat, ks: seq<Key>, k: Key, target: nat)
    requires Inv(db) && s in db.sites && StoredAs(AddPage(db, s, k), s, k, target)
    ensures var db' := AddPage(db, s, k);
            LinkableTargets(db', s, ks + [k])
            == LinkableTargets(db, s, ks) + (if db'.pages[target].isLinkable then {target} else {})
  {
    var db' := AddPage(db, s, k);
    AddPageGrows(db, s, k);
    forall q | q in db'.pages && db'.pages[q].site == s && db'.pages[q].key == k ensures q == target {
      assert q != target ==> Apart(db'.pages[q], db'.pages[target]);
    }
    forall q ensures q in LinkableTargets(db', s, ks + [k])
              <==> q in LinkableTargets(db, s, ks) || (q == target && db'.pages[target].isLinkable)
    {
      if q in db'.pages && q !in db.pages {
        assert IsNew(db, db', s, [k], q);
      }
    }
  }

  /** The store after the names `ks` were met: pages added, links to their pages added. */
  ghost function LinkedSoFar(start: Db, p: nat, s: nat, ks: seq<Key>): Db {
    WithLinks(AddAll(start, s, ks), p, TargetsSoFar(start, s, ks))
  }

  ghost function TargetsSoFar(start: Db, s: nat, ks: seq<Key>): set<nat> {
    LinkableTargets(AddAll(start, s, ks), s, ks)
  }

  lemma NothingLinkedYet(start: Db, p: nat, s: nat)
    ensures LinkedSoFar(start, p, s, []) == start && TargetsSoFar(start, s, []) == {}
  {
    assert TargetsSoFar(start, s, []) == {};
    assert WithLinks(start, p, {}).links == start.links;
  }

  lemma LinkedKeepsInv(start: Db, p: nat, s: nat, ks: seq<Key>)
    requires Inv(start) && p in start.pages && start.pages[p].site == s
    ensures Inv(LinkedSoFar(start, p, s, ks)) && s in LinkedSoFar(start, p, s, ks).sites
  {
    AddAllGrows(start, s, ks);
    WithLinksKeepsInv(AddAll(start, s, ks), p, TargetsSoFar(start, s, ks), s);
  }

  lemma LinkOne(db: Db, p: nat, targets: set<nat>, t: nat, linkable: bool)
    ensures var base := WithLinks(db, p, targets);
            WithLinks(db, p, targets + (if linkable then {t} else {}))
            == base.(links := base.links + (if linkable then {Link(p, t)} else {}))
  {
    assert targets + {} == targets;
    var base := WithLinks(db, p, targets);
    assert base.links + {} == base.links;
    assert WithLinks(db, p, targets + {t}).links == base.links + {Link(p, t)};
  }

  lemma WithLinksKeepsInv(db: Db, p: nat, targets: set<nat>, s: nat)
    requires Inv(db) && p in db.pages && db.pages[p].site == s
    requires forall t :: t in targets ==> t in db.pages && db.pages[t].site == s && db.pages[t].isLinkable
    ensures Inv(WithLinks(db, p, targets))
  {
    var db' := WithLinks(db, p, targets);
    forall l | l in db'.links ensures LinkOk(db', l) {
      assert l in db.links ==> LinkOk(db, l);
    }
    assert forall q :: q in db'.pages ==> RowOk(db, q);
  }

  lemma AddAllExtend(db: Db, s: nat, ks: seq<Key>, k: Key)
    ensures AddAll(db, s, ks + [k]) == AddPage(AddAll(db, s, ks), s, k)
  {
    assert (ks + [k])[..|ks|] == ks;
  }

  /** Meeting one more name. */
  lemma LinkedExtend(start: Db, p: nat, s: nat, ks: seq<Key>, k: Key, target: nat)
    requires Inv(start) && p in start.pages && start.pages[p].site == s
    requires StoredAs(AddPage(LinkedSoFar(start, p, s, ks), s, k), s, k, target)
    ensures var db := AddPage(LinkedSoFar(start, p, s, ks), s, k);
            var linkable := db.pages[target].isLinkable;
            && LinkedSoFar(start, p, s, ks + [k])
               == db.(links := db.links + (if linkable then {Link(p, target)} else {}))
            && TargetsSoFar(start, s, ks + [k]) == TargetsSoFar(start, s, ks) + (if linkable then {target} else {})
  {
    var grown, targets := AddAll(start, s, ks), TargetsSoFar(start, s, ks);
    var more := AddPage(grown, s, k);
    AddAllGrows(start, s, ks);
    LinkedUnfolds(start, p, s, ks, k);
    assert StoredAs(more, s, k, target);
    TargetsExtend(grown, s, ks, k, target);
    LinkOne(more, p, targets, target, more.pages[target].isLinkable);
  }

  /** Both sides in terms of the pages added so far. */
  lemma LinkedUnfolds(start: Db, p: nat, s: nat, ks: seq<Key>, k: Key)
    ensures var more := AddPage(AddAll(start, s, ks), s, k);
            && AddPage(LinkedSoFar(start, p, s, ks), s, k) == WithLinks(more, p, TargetsSoFar(start, s, ks))
            && LinkedSoFar(start, p, s, ks + [k]) == WithLinks(more, p, TargetsSoFar(start, s, ks + [k]))
            && TargetsSoFar(start, s, ks + [k]) == LinkableTargets(more, s, ks + [k])
  {
    AddPageWithLinks(AddAll(start, s, ks), p, TargetsSoFar(start, s, ks), s, k);
    AddAllExtend(start, s, ks, k);
  }

  /** Removing exactly the stale targets leaves exactly the wanted ones. */
  lemma ReplaceByDifference(start: Db, grown: Db, p: nat, after: set<nat>, stale: set<nat>)
    requires grown.links == start.links && stale == Outgoing(start, p) - after
    ensures (set l | l in WithLinks(grown, p, after).links && !(l.source == p && l.target in stale))
         == ReplaceOutgoing(grown, p, after).links
    ensures stale == {} ==> WithLinks(grown, p, after).links == ReplaceOutgoing(grown, p, after).links
  {
    forall l | l in start.links && l.source == p ensures l.target in after || l.target in stale {
      assert l.target in Outgoing(start, p);
    }
  }

  /** The incremental form ends where the direct replacement of the targets does. */
  lemma ReconciledLinks(start: Db, p: nat, s: nat, ks: seq<Key>, stale: set<nat>)
    requires Inv(start) && p in start.pages && start.pages[p].site == s
    requires stale == Outgoing(start, p) - TargetsSoFar(start, s, ks)
    ensures var db := LinkedSoFar(start, p, s, ks);
            var rest := set l | l in db.links && !(l.source == p && l.target in stale);
            && UpdateLinks(start, p, ks) == db.(links := rest)
            && (stale == {} ==> UpdateLinks(start, p, ks) == db)
    ensures Inv(UpdateLinks(start, p, ks))
    ensures Outgoing(UpdateLinks(start, p, ks), p) == TargetsSoFar(start, s, ks)
  {
    var grown := AddAll(start, s, ks);
    AddAllGrows(start, s, ks);
    ReplaceByDifference(start, grown, p, TargetsSoFar(start, s, ks), stale);
    OutgoingReplaced(grown, p, TargetsSoFar(start, s, ks));
    UpdateLinksKeepsInv(start, p, ks);
  }

  // ----- plug-in values -----

  /** `i` is the last successful run that produced `name`. */
  ghost predicate LastProducer(runs: seq<PluginRun>, name: string, i: nat) {
    && i < |runs| && name in RunValues(runs[i])
    && forall j :: i < j < |runs| ==> name !in RunValues(runs[j])
  }

  lemma {:induction false} MergeTakesLast(runs: seq<PluginRun>, name: string)
    ensures name in Merge(runs) <==> exists i: nat :: LastProducer(runs, name, i)
    ensures forall i: nat :: LastProducer(runs, name, i) ==> Merge(runs)[name] == RunValues(runs[i])[name]
  {
    if runs != [] {
      var n := |runs| - 1;
      MergeTakesLast(runs[..n], name);
      if name in RunValues(runs[n]) {
        assert LastProducer(runs, name, n);
      } else {
        forall i: nat ensures LastProducer(runs, name, i) <==> LastProducer(runs[..n], name, i) {
        }
      }
    }
  }

  lemma ValueAt(db: Db, p: nat, name: string)
    ensures name in ValuesOf(db, p) <==> Slot(p, name) in db.values
    ensures name in ValuesOf(db, p) ==> ValuesOf(db, p)[name] == db.values[Slot(p, name)]
  {
    assert Slot(p, name).name == name;
  }

  lemma ValuesReplaced(db: Db, p: nat, values: map<string, string>)
    ensures ValuesOf(ReplaceValues(db, p, values), p) == values
  {
    var db' := ReplaceValues(db, p, values);
    forall name ensures name in ValuesOf(db', p) <==> name in values
                ensures name in values ==> ValuesOf(db', p)[name] == values[name]
    {
      ValueAt(db', p, name);
    }
  }

  lemma OtherValuesKept(db: Db, p: nat, values: map<string, string>, q: nat)
    requires q != p
    ensures ValuesOf(ReplaceValues(db, p, values), q) == ValuesOf(db, q)
  {
    var db' := ReplaceValues(db, p, values);
    forall name ensures name in ValuesOf(db', q) <==> name in ValuesOf(db, q)
                ensures name in ValuesOf(db, q) ==> ValuesOf(db', q)[name] == ValuesOf(db, q)[name]
    {
      ValueAt(db, q, name);
      ValueAt(db', q, name);
    }
  }

  /** Recognising the replaced values slot by slot. */
  lemma ReplaceValuesIs(db: Db, p: nat, values: map<string, string>, result: map<Slot, string>)
    requires forall slot :: slot in result && slot.page == p ==> slot.name in values
    requires forall slot: Slot :: slot.page != p ==>
               (slot in result <==> slot in db.values) && (slot in result ==> result[slot] == db.values[slot])
    requires forall name :: name in values ==> Slot(p, name) in result && result[Slot(p, name)] == values[name]
    ensures ReplaceValues(db, p, values).values == result
  {
    var expected := ReplaceValues(db, p, values).values;
    forall slot: Slot ensures slot in expected <==> slot in result
                ensures slot in result ==> expected[slot] == result[slot]
    {
      assert slot == Slot(slot.page, slot.name);
    }
  }

  lemma ReplaceValuesTwice(db: Db, p: nat, values: map<string, string>)
    ensures ReplaceValues(ReplaceValues(db, p, values), p, values) == ReplaceValues(db, p, values)
  {
    assert ReplaceValues(ReplaceValues(db, p, values), p, values).values == ReplaceValues(db, p, values).values;
  }

  /**
   After the plug-ins ran, the page's values are exactly the override-merge of the
   successful runs, whatever was stored before; other pages keep theirs; and a
   second round of the same runs changes nothing.
   */
  lemma RunPluginsStores(db: Db, p: nat, runs: seq<PluginRun>)
    ensures var db' := RunPlugins(db, p, runs);
            && ValuesOf(db', p) == Strings(Merge(runs))
            && (forall q :: q != p ==> ValuesOf(db', q) == ValuesOf(db, q))
            && RunPlugins(db', p, runs) == db'
  {
    var values := Strings(Merge(runs));
    ValuesReplaced(db, p, values);
    ReplaceValuesTwice(db, p, values);
    forall q | q != p ensures ValuesOf(RunPlugins(db, p, runs), q) == ValuesOf(db, q) {
      OtherValuesKept(db, p, values, q);
    }
  }

  // ----- what a check may change -----

  /**
   A check of `p` marks its row at the new time and keeps its identity, leaves
   every other row alone, and adds only pages of the same site named by `ks`.
   */
  ghost predicate CheckedPage(db: Db, db': Db, p: nat, ks: seq<Key>) {
    && p in db.pages && p in db'.pages
    && SameIdentity(db.pages[p], db'.pages[p])
    && db'.pages[p].isChecked && db'.pages[p].checkedAt == db.clock + 1
    && (forall q :: q in db.pages && q != p ==> q in db'.pages && db'.pages[q] == db.pages[q])
    && (forall q :: q in db'.pages && q !in db.pages ==> FoundPage(db, db', db.pages[p].site, ks, q))
    && (forall k :: k in ks ==> Stored(db', db.pages[p].site, k))
    && db'.sites == db.sites && db'.scheduled == db.scheduled && db'.nextSite == db.nextSite
    && db.clock < db'.clock && db.nextPage <= db'.nextPage
  }

  /** `q` was created by the check: unchecked, after the check's own time, under a new key. */
  ghost predicate FoundPage(db: Db, db': Db, s: nat, ks: seq<Key>, q: nat)
    requires q in db'.pages
  {
    var row := db'.pages[q];
    && db.nextPage <= q
    && row == FreshPage(s, row.key, 0, row.createdAt)
    && db.clock + 1 < row.createdAt
    && row.key in ks
    && !Stored(db, s, row.key)
  }

  ghost predicate OtherLinksKept(db: Db, db': Db, p: nat) {
    forall q :: q != p ==> Outgoing(db', q) == Outgoing(db, q)
  }

  predicate SameIdentity(a: Page, b: Page) {
    a.site == b.site && a.key == b.key && a.createdAt == b.createdAt && a.isLinkable == b.isLinkable
  }

  /** Stamping a row with the new time, keeping its identity. */
  lemma StampKeepsInv(db: Db, p: nat, row: Page)
    requires Inv(db) && p in db.pages
    requires SameIdentity(db.pages[p], row) && row.isChecked && row.checkedAt == db.clock + 1
    ensures Inv(SavePage(db.(clock := db.clock + 1), p, row))
  {
    var db' := SavePage(db.(clock := db.clock + 1), p, row);
    forall l | l in db'.links ensures LinkOk(db', l) {
      assert LinkOk(db, l);
    }
    forall q | q in db'.pages ensures RowOk(db', q) {
      assert RowOk(db, q);
    }
    forall q, r | q in db'.pages && r in db'.pages && q != r ensures Apart(db'.pages[q], db'.pages[r]) {
      assert Apart(db.pages[q], db.pages[r]);
      assert RowOk(db, q) && RowOk(db, r);
    }
  }

  lemma StampKeepsKeys(db: Db, p: nat, row: Page, now: nat)
    requires p in db.pages && SameIdentity(db.pages[p], row)
    ensures forall s, k :: Stored(SavePage(db.(clock := now), p, row), s, k) <==> Stored(db, s, k)
  {
    var db' := SavePage(db.(clock := now), p, row);
    forall s, k ensures Stored(db', s, k) <==> Stored(db, s, k) {
      assert forall q :: StoredAs(db', s, k, q) <==> StoredAs(db, s, k, q);
    }
  }

  lemma TouchStamps(db: Db, p: nat, reply: Reply) returns (row: Page)
    requires p in db.pages
    ensures SameIdentity(db.pages[p], row) && row.isChecked && row.checkedAt == db.clock + 1
    ensures row == CheckedRow(db, p, reply) && Touch(db, p, reply) == SavePage(db.(clock := db.clock + 1), p, row)
  {
    row := CheckedRow(db, p, reply);
  }

  lemma TouchKeepsInv(db: Db, p: nat, reply: Reply)
    requires Inv(db) && p in db.pages
    ensures Inv(Touch(db, p, reply))
  {
    var row := TouchStamps(db, p, reply);
    StampKeepsInv(db, p, row);
  }

  lemma DropOutgoingKeepsInv(db: Db, p: nat)
    requires Inv(db)
    ensures Inv(DropOutgoing(db, p))
    ensures forall q :: q != p ==> Outgoing(DropOutgoing(db, p), q) == Outgoing(db, q)
  {
    var db' := DropOutgoing(db, p);
    forall l | l in db'.links ensures LinkOk(db', l) {
      assert LinkOk(db, l);
    }
    assert ReplaceOutgoing(db, p, {}).links == db'.links;
    OutgoingReplaced(db, p, {});
    forall q | q != p ensures Outgoing(db', q) == Outgoing(db, q) {
      assert Outgoing(db', q) == Outgoing(ReplaceOutgoing(db, p, {}), q);
    }
    assert forall q :: q in db'.pages ==> RowOk(db, q);
  }

  lemma ValuesKeepInv(db: Db, p: nat, values: map<string, string>)
    requires Inv(db) && p in db.pages
    ensures Inv(ReplaceValues(db, p, values))
  {
    var db' := ReplaceValues(db, p, values);
    assert forall l :: l in db'.links ==> LinkOk(db, l);
    assert forall q :: q in db'.pages ==> RowOk(db, q);
  }

  /** The three forms a check can take, over the stamped page. */
  lemma CheckForms(db: Db, p: nat, reply: Reply) returns (row: Page, touched: Db)
    requires p in db.pages
    ensures SameIdentity(db.pages[p], row) && row.isChecked && row.checkedAt == db.clock + 1
    ensures row == CheckedRow(db, p, reply) && touched == SavePage(db.(clock := db.clock + 1), p, row)
    ensures if Expands(db, db.pages[p].site, reply)
            then Check(db, p, reply) == RunPlugins(UpdateLinks(touched, p, Keys(reply.body.urls)), p, reply.body.runs)
            else Check(db, p, reply) == touched || Check(db, p, reply) == DropOutgoing(touched, p)
  {
    row := TouchStamps(db, p, reply);
    touched := Touch(db, p, reply);
  }

  /** The row of an answered check, before its text is read. */
  function AnsweredRow(db: Db, p: nat, reply: Reply): Page
    requires p in db.pages && reply.Answered?
  {
    db.pages[p].(isChecked := true, checkedAt := db.clock + 1, status := reply.status,
                 contentType := ContentType(reply.contentType), sizeBytes := reply.sizeBytes)
  }

  /** An answer that is not a page to read. */
  lemma NotHtmlIsSaved(db: Db, p: nat, reply: Reply)
    requires p in db.pages && reply.Answered? && !SaysHtml(reply)
    ensures Check(db, p, reply) == SavePage(db.(clock := db.clock + 1), p, AnsweredRow(db, p, reply))
    ensures CheckReport(db, p, reply) == Visited
  {
  }

  /** What is left to do, case by case, once that row is saved. */
  lemma ReadCases(db: Db, p: nat, reply: Reply)
    requires p in db.pages && SaysHtml(reply)
    ensures var row := AnsweredRow(db, p, reply);
            var saved := SavePage(db.(clock := db.clock + 1), p, row);
            if !LocalReply(db, row.site, reply)
            then Check(db, p, reply) == DropOutgoing(saved, p) && CheckReport(db, p, reply) == Visited
            else match reply.body
              case Unreadable => Check(db, p, reply) == saved && CheckReport(db, p, reply) == Crashed
              case Invalid => Check(db, p, reply) == SavePage(saved, p, row.(status := TEAPOT))
                              && CheckReport(db, p, reply) == Failed
              case Html(_, _) => Touch(db, p, reply) == saved
  {
    var row := AnsweredRow(db, p, reply);
    if !LocalReply(db, row.site, reply) {
      assert CheckedRow(db, p, reply) == row;
    } else if reply.body.Invalid? {
      SaveTwice(db.(clock := db.clock + 1), p, row, row.(status := TEAPOT));
      assert CheckedRow(db, p, reply) == row.(status := TEAPOT);
    } else {
      assert CheckedRow(db, p, reply) == row;
    }
  }

  lemma SaveTwice(db: Db, p: nat, first: Page, second: Page)
    ensures SavePage(SavePage(db, p, first), p, second) == SavePage(db, p, second)
  {
    assert db.pages[p := first][p := second] == db.pages[p := second];
  }

  lemma CheckKeepsInv(db: Db, p: nat, reply: Reply)
    requires Inv(db) && p in db.pages
    ensures Inv(Check(db, p, reply))
  {
    var row, touched := CheckForms(db, p, reply);
    StampKeepsInv(db, p, row);
    if Expands(db, db.pages[p].site, reply) {
      LinkAndRunKeepInv(touched, p, Keys(reply.body.urls), Strings(Merge(reply.body.runs)));
    } else {
      DropOutgoingKeepsInv(touched, p);
    }
  }

  lemma LinkAndRunKeepInv(db: Db, p: nat, ks: seq<Key>, values: map<string, string>)
    requires Inv(db) && p in db.pages
    ensures Inv(ReplaceValues(UpdateLinks(db, p, ks), p, values))
  {
    UpdateLinksKeepsInv(db, p, ks);
    AddAllGrows(db, db.pages[p].site, ks);
    ValuesKeepInv(UpdateLinks(db, p, ks), p, values);
  }

  /** Stamping a page, then growing the store. */
  lemma StampThenGrow(db: Db, touched: Db, grown: Db, p: nat, row: Page, ks: seq<Key>)
    requires p in db.pages
    requires SameIdentity(db.pages[p], row) && row.isChecked && row.checkedAt == db.clock + 1
    requires touched == SavePage(db.(clock := db.clock + 1), p, row)
    requires Grows(touched, grown, db.pages[p].site, ks)
    ensures CheckedPage(db, grown, p, ks)
  {
    StampKeepsKeys(db, p, row, db.clock + 1);
    forall q | q in grown.pages && q !in db.pages
      ensures FoundPage(db, grown, db.pages[p].site, ks, q)
    {
      assert IsNew(touched, grown, db.pages[p].site, ks, q);
    }
  }

  /** Links and values play no part in what a check does to the pages. */
  lemma CheckedPageAside(db: Db, db': Db, p: nat, ks: seq<Key>, links: set<Link>, values: map<Slot, string>)
    requires CheckedPage(db, db', p, ks)
    ensures CheckedPage(db, db'.(links := links, values := values), p, ks)
  {
    var db'' := db'.(links := links, values := values);
    forall k | k in ks ensures Stored(db'', db.pages[p].site, k) {
      StillStored(db', db'', db.pages[p].site, k);
    }
    forall q | q in db''.pages && q !in db.pages
      ensures FoundPage(db, db'', db.pages[p].site, ks, q)
    {
      assert FoundPage(db, db', db.pages[p].site, ks, q);
    }
  }

  lemma CheckChanges(db: Db, p: nat, reply: Reply)
    requires Inv(db) && p in db.pages
    ensures CheckedPage(db, Check(db, p, reply), p, Discovered(db, db.pages[p].site, reply))
  {
    var s, db' := db.pages[p].site, Check(db, p, reply);
    var ks := Discovered(db, s, reply);
    var row, touched := CheckForms(db, p, reply);
    StampKeepsInv(db, p, row);
    AddAllGrows(touched, s, ks);
    var grown := AddAll(touched, s, ks);
    StampThenGrow(db, touched, grown, p, row, ks);
    CheckedPageAside(db, grown, p, ks, db'.links, db'.values);
    assert db' == grown.(links := db'.links, values := db'.values);
  }

  /** The row a check leaves is the one it saved. */
  lemma RowAfterCheck(db: Db, p: nat, reply: Reply)
    requires Inv(db) && p in db.pages
    ensures p in Check(db, p, reply).pages && Check(db, p, reply).pages[p] == CheckedRow(db, p, reply)
  {
    var row, touched := CheckForms(db, p, reply);
    StampKeepsInv(db, p, row);
    if Expands(db, db.pages[p].site, reply) {
      AddAllGrows(touched, db.pages[p].site, Keys(reply.body.urls));
    }
  }

  lemma CheckKeepsOtherLinks(db: Db, p: nat, reply: Reply)
    requires Inv(db) && p in db.pages
    ensures OtherLinksKept(db, Check(db, p, reply), p)
  {
    var row, touched := CheckForms(db, p, reply);
    StampKeepsInv(db, p, row);
    var db' := Check(db, p, reply);
    if Expands(db, db.pages[p].site, reply) {
      UpdateLinksRefines(touched, p, Keys(reply.body.urls));
      LinksDecide(db', UpdateLinks(touched, p, Keys(reply.body.urls)));
    } else {
      DropOutgoingKeepsInv(touched, p);
    }
    LinksDecide(touched, db);
  }

  lemma LinksDecide(a: Db, b: Db)
    requires a.links == b.links
    ensures forall q :: Outgoing(a, q) == Outgoing(b, q)
  {
  }

  /** What the links of the checked page become: the named pages, none, or what they were. */
  lemma CheckOutgoing(db: Db, p: nat, reply: Reply)
    requires Inv(db) && p in db.pages
    ensures var s, db' := db.pages[p].site, Check(db, p, reply);
            Outgoing(db', p) ==
              if Expands(db, s, reply) then LinkableTargets(db', s, Discovered(db, s, reply))
              else if SaysHtml(reply) && !LocalReply(db, s, reply) then {}
              else Outgoing(db, p)
  {
    var s, db' := db.pages[p].site, Check(db, p, reply);
    var row, touched := CheckForms(db, p, reply);
    StampKeepsInv(db, p, row);
    if Expands(db, s, reply) {
      UpdateLinksRefines(touched, p, Keys(reply.body.urls));
      LinksDecide(db', UpdateLinks(touched, p, Keys(reply.body.urls)));
    } else {
      LinksDecide(touched, db);
    }
  }

  /** What the values become: the merge for a page that was read, unchanged everywhere else. */
  lemma CheckValues(db: Db, p: nat, reply: Reply, q: nat)
    requires Inv(db) && p in db.pages
    ensures ValuesOf(Check(db, p, reply), q) ==
              if q == p && Expands(db, db.pages[p].site, reply) then Strings(Merge(reply.body.runs))
              else ValuesOf(db, q)
  {
    var s := db.pages[p].site;
    var row, touched := CheckForms(db, p, reply);
    StampKeepsInv(db, p, row);
    if Expands(db, s, reply) {
      AddAllGrows(touched, s, Keys(reply.body.urls));
      var linked := UpdateLinks(touched, p, Keys(reply.body.urls));
      RunPluginsStores(linked, p, reply.body.runs);
      SameValues(linked, db, q);
    } else {
      SameValues(Check(db, p, reply), db, q);
    }
  }

  lemma SameValues(a: Db, b: Db, q: nat)
    requires a.values == b.values
    ensures ValuesOf(a, q) == ValuesOf(b, q)
  {
  }
}
