/** What a check does, answer by answer, in terms of the header text, the rows and the report. */
module Outcomes {
  import opened Tables
  import opened Checks
  import Decimal
  import Url
  import UrlParts

  // ----- which headers announce HTML -----

  /** "text/html" in any case, alone or followed by a semicolon and anything. */
  ghost predicate NamesHtml(header: string) {
    && |header| >= 9 && (|header| > 9 ==> header[9] == ';')
    && forall i :: 0 <= i < 9 ==> header[i] == "text/html"[i] || header[i] == "TEXT/HTML"[i]
  }

  /** The media type ends at the first semicolon. */
  lemma ContentTypeCuts(media: string, parameters: string)
    requires ';' !in media
    ensures ContentType(media) == Url.Lower(media)
    ensures ContentType(media + ";" + parameters) == Url.Lower(media)
  {
    Url.BeforeAll(media, ';');
    Url.BeforeAt(media, ';', parameters);
    assert media + ";" + parameters == media + [';'] + parameters;
  }

  lemma HtmlExactly(header: string)
    ensures ContentType(header) == "text/html" <==> NamesHtml(header)
  {
    var media := Url.Before(header, ';');
    Url.BeforePrefix(header, ';');
    if ContentType(header) == "text/html" {
      LowerIsHtml(media);
      assert forall i :: 0 <= i < 9 ==> header[i] == media[i];
      assert |header| > 9 ==> Url.Span(header, {';'}) == 9;
    }
    if NamesHtml(header) {
      assert forall i :: 0 <= i < 9 ==> header[i] != ';';
      Url.SpanIs(header, {';'}, 9);
      LowerIsHtml(header[..9]);
    }
  }

  lemma LowerIsHtml(s: string)
    ensures Url.Lower(s) == "text/html"
            <==> |s| == 9 && forall i :: 0 <= i < 9 ==> s[i] == "text/html"[i] || s[i] == "TEXT/HTML"[i]
  {
    if |s| == 9 {
      forall i | 0 <= i < 9
        ensures Url.Lower(s)[i] == "text/html"[i] <==> s[i] == "text/html"[i] || s[i] == "TEXT/HTML"[i]
      {
        LowerAt(s[i], "text/html"[i], "TEXT/HTML"[i]);
      }
    }
  }

  lemma LowerAt(c: char, small: char, capital: char)
    requires ('a' <= small <= 'z' && capital == small - 'a' + 'A') || (small == '/' && capital == '/')
    ensures Url.LowerChar(c) == small <==> c == small || c == capital
  {
  }

  // ----- the row -----

  /** The row of an answer: its status and size, and the media type of its header. */
  lemma AnswerIsStored(db: Db, p: nat, reply: Reply)
    requires Inv(db) && p in db.pages && reply.Answered?
    ensures var db' := Check(db, p, reply);
            && p in db'.pages && db'.pages[p].isChecked && db'.pages[p].checkedAt == db.clock + 1
            && db'.pages[p].sizeBytes == reply.sizeBytes && db'.pages[p].contentType == ContentType(reply.contentType)
            && db'.pages[p].status == (if ReadsAsText(db, p, reply) && reply.body.Invalid? then 418 else reply.status)
            && SameIdentity(db.pages[p], db'.pages[p])
  {
    RowAfterCheck(db, p, reply);
    HtmlExactly(reply.contentType);
    assert RowOk(db, p);
  }

  /** The answer names HTML and comes from the site itself. */
  ghost predicate ReadsAsText(db: Db, p: nat, reply: Reply)
    requires Inv(db) && p in db.pages && reply.Answered?
  {
    assert RowOk(db, p);
    var site := db.sites[db.pages[p].site];
    NamesHtml(reply.contentType) && Url.IsLocal(site.scheme, site.netloc, reply.url)
  }

  lemma ReadsAsTextIs(db: Db, p: nat, reply: Reply)
    requires Inv(db) && p in db.pages && reply.Answered?
    ensures ReadsAsText(db, p, reply) <==> SaysHtml(reply) && LocalReply(db, db.pages[p].site, reply)
  {
    HtmlExactly(reply.contentType);
    assert RowOk(db, p);
  }

  /** Only the row of `p` changes, and time passes. */
  ghost predicate OnlyRow(db: Db, db': Db, p: nat)
    requires p in db.pages && p in db'.pages
  {
    db' == db.(pages := db.pages[p := db'.pages[p]], clock := db.clock + 1)
  }

  // ----- answer by answer -----

  /** A refusal is stored as the status and reported as a failure. */
  lemma RefusalMeans(db: Db, p: nat, code: int)
    requires Inv(db) && p in db.pages
    ensures var db' := Check(db, p, Refused(code));
            && p in db'.pages && OnlyRow(db, db', p) && CheckReport(db, p, Refused(code)) == Failed
            && db'.pages[p] == db.pages[p].(isChecked := true, checkedAt := db.clock + 1, status := code)
  {
  }

  /** An answer under any other header leaves pages, links and values as they were. */
  lemma OtherHeaderMeans(db: Db, p: nat, reply: Reply)
    requires Inv(db) && p in db.pages && reply.Answered? && !NamesHtml(reply.contentType)
    ensures var db' := Check(db, p, reply);
            p in db'.pages && OnlyRow(db, db', p) && CheckReport(db, p, reply) == Visited
  {
    HtmlExactly(reply.contentType);
    NotHtmlIsSaved(db, p, reply);
  }

  /** HTML that came from elsewhere costs the page its links, and nothing of it is read. */
  lemma ElsewhereMeans(db: Db, p: nat, reply: Reply)
    requires Inv(db) && p in db.pages && reply.Answered? && NamesHtml(reply.contentType)
    requires var site := db.sites[db.pages[p].site]; !Url.IsLocal(site.scheme, site.netloc, reply.url)
    ensures var db' := Check(db, p, reply);
            && p in db'.pages && OnlyRow(db, db'.(links := db.links), p) && CheckReport(db, p, reply) == Visited
            && forall l :: l in db'.links <==> l in db.links && l.source != p
  {
    HtmlExactly(reply.contentType);
    ReadCases(db, p, reply);
  }

  /** An absolute URL with another scheme or another host came from elsewhere. */
  lemma AbroadMeans(db: Db, p: nat, reply: Reply, x: string, n: string, tail: string)
    requires Inv(db) && p in db.pages && reply.Answered? && NamesHtml(reply.contentType)
    requires ':' !in x && UrlParts.SchemeText(x) && UrlParts.HostText(n) && n != "" && UrlParts.AfterHost(tail)
    requires reply.url == x + ":" + ("//" + n + tail)
    requires var site := db.sites[db.pages[p].site]; Url.Lower(x) != site.scheme || n != site.netloc
    ensures var db' := Check(db, p, reply);
            && db'.pages.Keys == db.pages.Keys && db'.values == db.values && CheckReport(db, p, reply) == Visited
            && forall l :: l in db'.links <==> l in db.links && l.source != p
  {
    var site := db.sites[db.pages[p].site];
    NotLocal(site, reply.url, x, n, tail);
    ElsewhereMeans(db, p, reply);
  }

  lemma NotLocal(site: Site, url: string, x: string, n: string, tail: string)
    requires ':' !in x && UrlParts.SchemeText(x) && UrlParts.HostText(n) && n != "" && UrlParts.AfterHost(tail)
    requires url == x + ":" + ("//" + n + tail) && (Url.Lower(x) != site.scheme || n != site.netloc)
    ensures !Url.IsLocal(site.scheme, site.netloc, url)
  {
    UrlParts.LocalExactly(site.scheme, site.netloc, x, n, tail);
  }

  /** Text that is not HTML after all makes a teapot of the page; text that cannot be had ends the call. */
  lemma BadTextMeans(db: Db, p: nat, reply: Reply)
    requires Inv(db) && p in db.pages && reply.Answered? && ReadsAsText(db, p, reply) && !reply.body.Html?
    ensures var db' := Check(db, p, reply);
            && p in db'.pages && OnlyRow(db, db', p)
            && db'.pages[p].status == (if reply.body.Invalid? then 418 else reply.status)
            && CheckReport(db, p, reply) == (if reply.body.Invalid? then Failed else Crashed)
  {
    ReadsAsTextIs(db, p, reply);
    ReadCases(db, p, reply);
  }

  /** Some link of the text has the key. */
  ghost predicate Names(urls: seq<string>, k: Key) {
    exists i :: 0 <= i < |urls| && k == KeyOf(urls[i])
  }

  lemma NamesKeys(urls: seq<string>, k: Key)
    ensures k in Keys(urls) <==> Names(urls, k)
  {
    if Names(urls, k) {
      var i :| 0 <= i < |urls| && k == KeyOf(urls[i]);
      assert Keys(urls)[i] == k;
    }
    if k in Keys(urls) {
      var i :| 0 <= i < |urls| && Keys(urls)[i] == k;
      assert k == KeyOf(urls[i]);
    }
  }

  /** HTML from the site: every named key is stored, and the page links to exactly the linkable ones. */
  lemma CrawlMeans(db: Db, p: nat, reply: Reply)
    requires Inv(db) && p in db.pages && reply.Answered? && ReadsAsText(db, p, reply) && reply.body.Html?
    ensures var db', s, urls := Check(db, p, reply), db.pages[p].site, reply.body.urls;
            && (forall i :: 0 <= i < |urls| ==>
                  exists q :: q in db'.pages && db'.pages[q].site == s && db'.pages[q].key == KeyOf(urls[i]))
            && (forall q :: Link(p, q) in db'.links <==>
                  q in db'.pages && db'.pages[q].site == s && db'.pages[q].isLinkable && Names(urls, db'.pages[q].key))
            && (forall l :: l in db'.links && l.source != p <==> l in db.links && l.source != p)
  {
    ReadsAsTextIs(db, p, reply);
    NamedAreStored(db, p, reply);
    NamedAreLinked(db, p, reply);
    CheckKeepsOtherLinks(db, p, reply);
    forall l ensures l in Check(db, p, reply).links && l.source != p <==> l in db.links && l.source != p {
      if l.source != p { OtherLinkSame(db, Check(db, p, reply), p, l); }
    }
  }

  lemma NamedAreLinked(db: Db, p: nat, reply: Reply)
    requires Inv(db) && p in db.pages && Expands(db, db.pages[p].site, reply)
    ensures var db', s, urls := Check(db, p, reply), db.pages[p].site, reply.body.urls;
            forall q :: Link(p, q) in db'.links <==>
              q in db'.pages && db'.pages[q].site == s && db'.pages[q].isLinkable && Names(urls, db'.pages[q].key)
  {
    var db', s, urls := Check(db, p, reply), db.pages[p].site, reply.body.urls;
    CheckOutgoing(db, p, reply);
    forall q ensures Link(p, q) in db'.links <==>
                     q in db'.pages && db'.pages[q].site == s && db'.pages[q].isLinkable
                     && Names(urls, db'.pages[q].key)
    {
      OutgoingIs(db', p, q);
      if q in db'.pages { NamesKeys(urls, db'.pages[q].key); }
    }
  }

  lemma OutgoingIs(db: Db, p: nat, q: nat)
    ensures Link(p, q) in db.links <==> q in Outgoing(db, p)
  {
  }

  lemma OtherLinkSame(db: Db, db': Db, p: nat, l: Link)
    requires OtherLinksKept(db, db', p) && l.source != p
    ensures l in db'.links <==> l in db.links
  {
    assert l == Link(l.source, l.target);
    assert l in db.links <==> l.target in Outgoing(db, l.source);
    assert l in db'.links <==> l.target in Outgoing(db', l.source);
  }

  lemma NamedAreStored(db: Db, p: nat, reply: Reply)
    requires Inv(db) && p in db.pages && Expands(db, db.pages[p].site, reply)
    ensures var db', s, urls := Check(db, p, reply), db.pages[p].site, reply.body.urls;
            forall i :: 0 <= i < |urls| ==>
              exists q :: q in db'.pages && db'.pages[q].site == s && db'.pages[q].key == KeyOf(urls[i])
  {
    CheckChanges(db, p, reply);
    var db', s, urls := Check(db, p, reply), db.pages[p].site, reply.body.urls;
    forall i | 0 <= i < |urls|
      ensures exists q :: q in db'.pages && db'.pages[q].site == s && db'.pages[q].key == KeyOf(urls[i])
    {
      assert Keys(urls)[i] in Keys(urls);
      var q := Lookup(db', s, KeyOf(urls[i]));
      assert StoredAs(db', s, KeyOf(urls[i]), q);
    }
  }

  // ----- values -----

  /** Run `i` returned the name, and no later one did. */
  ghost predicate LastReturned(runs: seq<PluginRun>, name: string, i: nat) {
    && i < |runs| && runs[i].Returned? && name in runs[i].values
    && forall j :: i < j < |runs| && runs[j].Returned? ==> name !in runs[j].values
  }

  lemma LastReturnedIs(runs: seq<PluginRun>, name: string, i: nat)
    ensures LastReturned(runs, name, i) <==> LastProducer(runs, name, i)
  {
    assert forall j :: 0 <= j < |runs| ==>
             (name in RunValues(runs[j]) <==> runs[j].Returned? && name in runs[j].values);
  }

  /** The page's values are what the last plug-in to return each name returned; all others are untouched. */
  lemma ValuesMean(db: Db, p: nat, reply: Reply)
    requires Inv(db) && p in db.pages && reply.Answered? && ReadsAsText(db, p, reply) && reply.body.Html?
    ensures var db', runs := Check(db, p, reply), reply.body.runs;
            && (forall name :: Slot(p, name) in db'.values <==> exists i: nat :: LastReturned(runs, name, i))
            && (forall name, i: nat :: LastReturned(runs, name, i) && Slot(p, name) in db'.values ==>
                  db'.values[Slot(p, name)] == Str(runs[i].values[name]))
            && (forall v: Slot :: v.page != p ==> (v in db'.values <==> v in db.values))
            && (forall v: Slot :: v.page != p && v in db.values && v in db'.values ==> db'.values[v] == db.values[v])
  {
    ReadsAsTextIs(db, p, reply);
    var db', runs := Check(db, p, reply), reply.body.runs;
    forall name ensures Slot(p, name) in db'.values <==> exists i: nat :: LastReturned(runs, name, i)
    {
      PageValue(db, p, reply, name);
    }
    forall name, i: nat | LastReturned(runs, name, i) && Slot(p, name) in db'.values
      ensures db'.values[Slot(p, name)] == Str(runs[i].values[name])
    {
      PageValue(db, p, reply, name);
    }
    forall v: Slot | v.page != p
      ensures v in db'.values <==> v in db.values
      ensures v in db.values && v in db'.values ==> db'.values[v] == db.values[v]
    {
      OtherValue(db, p, reply, v);
    }
  }

  lemma PageValue(db: Db, p: nat, reply: Reply, name: string)
    requires Inv(db) && p in db.pages && Expands(db, db.pages[p].site, reply)
    ensures var db', runs := Check(db, p, reply), reply.body.runs;
            && (Slot(p, name) in db'.values <==> exists i: nat :: LastReturned(runs, name, i))
            && forall i: nat :: LastReturned(runs, name, i) && Slot(p, name) in db'.values ==>
                 db'.values[Slot(p, name)] == Str(runs[i].values[name])
  {
    var db', runs := Check(db, p, reply), reply.body.runs;
    CheckValues(db, p, reply, p);
    MergeTakesLast(runs, name);
    SlotIs(db', p, name);
    forall i: nat ensures LastReturned(runs, name, i) <==> LastProducer(runs, name, i) {
      LastReturnedIs(runs, name, i);
    }
  }

  lemma OtherValue(db: Db, p: nat, reply: Reply, v: Slot)
    requires Inv(db) && p in db.pages && v.page != p
    ensures var db' := Check(db, p, reply);
            (v in db'.values <==> v in db.values) && (v in db.values ==> db'.values[v] == db.values[v])
  {
    CheckValues(db, p, reply, v.page);
    SlotIs(db, v.page, v.name);
    SlotIs(Check(db, p, reply), v.page, v.name);
    assert v == Slot(v.page, v.name);
  }

  lemma SlotIs(db: Db, p: nat, name: string)
    ensures Slot(p, name) in db.values <==> name in ValuesOf(db, p)
    ensures Slot(p, name) in db.values ==> ValuesOf(db, p)[name] == db.values[Slot(p, name)]
  {
  }

  // ----- the report -----

  /** The report names the targets that came and those that went, and whether every plug-in returned. */
  lemma ReportMeans(db: Db, p: nat, reply: Reply)
    requires Inv(db) && p in db.pages && reply.Answered? && ReadsAsText(db, p, reply) && reply.body.Html?
    ensures var db', report := Check(db, p, reply), CheckReport(db, p, reply);
            && report.Crawled?
            && (forall q :: q in report.added <==> Link(p, q) in db'.links && Link(p, q) !in db.links)
            && (forall q :: q in report.removed <==> Link(p, q) in db.links && Link(p, q) !in db'.links)
            && (report.pluginsOk <==> forall i :: 0 <= i < |reply.body.runs| ==> !reply.body.runs[i].Raised?)
  {
    ReadsAsTextIs(db, p, reply);
    var db' := Check(db, p, reply);
    forall q ensures q in Outgoing(db, p) <==> Link(p, q) in db.links {
    }
    forall q ensures q in Outgoing(db', p) <==> Link(p, q) in db'.links {
    }
  }

  /** The five kinds of values as texts. */
  lemma StrMeans(d: Datum)
    ensures d == Nothing ==> Str(d) == "None"
    ensures d == Flag(true) ==> Str(d) == "True"
    ensures d == Flag(false) ==> Str(d) == "False"
    ensures d.Float? ==> Str(d) == d.printed
    ensures d.Text? ==> Str(d) == d.text
    ensures d.Number? && d.n >= 0 ==> Decimal.AllDigits(Str(d)) && Decimal.Value(Str(d)) == d.n
    ensures d.Number? && d.n < 0 ==> Str(d) != "" && Str(d)[0] == '-' && Decimal.AllDigits(Str(d)[1..])
                                     && Decimal.Value(Str(d)[1..]) == -d.n
    ensures d.Number? && |Str(d)| > 1 ==> Str(d)[0] != '0'
  {
    if d.Number? {
      Decimal.ValueOfDigits(if d.n < 0 then -d.n else d.n);
      NoLeadingZero(if d.n < 0 then -d.n else d.n);
    }
  }

  lemma {:induction false} NoLeadingZero(n: nat)
    ensures n > 0 ==> Decimal.Digits(n)[0] != '0'
    ensures n == 0 ==> Decimal.Digits(n) == "0"
  {
    if n >= 10 {
      NoLeadingZero(n / 10);
    }
  }
}
