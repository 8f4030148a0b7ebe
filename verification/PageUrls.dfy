/**
 The addresses printed for a page from its site's path and its own key, which keys
 they lead back to, and when two keys share one address.
 */
module PageUrls {
  import opened Url

  function RelativeUrl(sitePath: string, subpath: string, params: string): string {
    Unparse("", "", Join(sitePath, subpath), params)
  }

  function FullUrl(scheme: string, netloc: string, sitePath: string, subpath: string, params: string): string {
    Unparse(scheme, netloc, Join(sitePath, subpath), params)
  }

  /** Empty, or with a leading slash. */
  predicate Absolute(path: string) {
    path == "" || path[0] == '/'
  }

  /**
   When a printed path leads back to the stored one.  Without a site path it is
   printed as it is, and must not look like a scheme or a host.  An empty one is
   printed as the site path, and any other is resolved against it.
   */
  predicate LeadsBack(sitePath: string, subpath: string) {
    if sitePath == "" then SplitScheme(subpath).0 == "" && !DoubleSlash(subpath)
    else if subpath == "" then Parse(sitePath).path == ""
    else subpath[0] == '/' && !DoubleSlash(subpath) && !HasDots(subpath)
  }

  // ----- reading a printed address -----

  function QueryTail(params: string): string {
    if params == "" then "" else "?" + params
  }

  lemma SpanAtLeast(s: string, stops: set<char>, n: nat)
    requires n <= |s| && forall i :: 0 <= i < n ==> s[i] !in stops
    ensures Span(s, stops) >= n
  {
    assert Span(s, stops) < |s| ==> s[Span(s, stops)] in stops;
  }

  lemma SliceBefore(s: string, tail: string, a: nat, b: nat)
    requires a <= b <= |s|
    ensures (s + tail)[a..b] == s[a..b] && (s + tail)[b..] == s[b..] + tail
  {
  }

  lemma SplitSchemeTail(t: string, tail: string)
    requires tail != "" && tail[0] == '?'
    ensures SplitScheme(t + tail) == (SplitScheme(t).0, SplitScheme(t).1 + tail)
  {
    var i := Span(t, {':'});
    if i < |t| {
      SpanIs(t + tail, {':'}, i);
      SliceBefore(t, tail, 0, i);
      SliceBefore(t, tail, i, i + 1);
    } else {
      SpanAtLeast(t + tail, {':'}, |t| + 1);
      QueryIsNoScheme(t + tail, Span(t + tail, {':'}), |t|);
    }
  }

  lemma QueryIsNoScheme(url: string, j: nat, n: nat)
    requires n < j <= |url| && url[n] == '?'
    ensures !ValidScheme(url[..j])
  {
    assert url[..j][n] == '?';
  }

  lemma SplitNetlocTail(s: string, tail: string)
    requires tail != "" && tail[0] == '?'
    ensures SplitNetloc(s + tail) == (SplitNetloc(s).0, SplitNetloc(s).1 + tail)
  {
    if DoubleSlash(s) {
      var n := Span(s[2..], NETLOC_STOPS);
      SliceBefore(s, tail, 0, 2);
      SpanIs(s[2..] + tail, NETLOC_STOPS, n);
      SliceBefore(s, tail, 2, 2 + n);
    }
  }

  /** What follows scheme and host is a tail of the address: all of it, or less. */
  lemma LocalIsTail(t: string)
    ensures |Local(t)| <= |t| && Local(t) == t[|t| - |Local(t)|..]
    ensures Local(t) == t <==> SplitScheme(t).0 == "" && !DoubleSlash(t)
  {
    var rest := SplitScheme(t).1;
    assert rest == t[|t| - |rest|..];
    assert SplitScheme(t).0 != "" ==> |rest| < |t|;
    assert DoubleSlash(rest) ==> |Local(t)| < |rest|;
  }

  /** A printed text of path and parameters is read back in parts. */
  lemma ReadPrinted(t: string, params: string)
    requires '?' !in t && '#' !in t && '#' !in params
    ensures Parse(Unparse("", "", t, params)).path == CutParams(Local(t))
    ensures Parse(Unparse("", "", t, params)).query == params
  {
    if params == "" {
      ReadPath(t);
      PrintedAlone(t);
    } else {
      LocalIsTail(t);
      ReadQuery(t, params);
    }
  }

  lemma PrintedAlone(t: string)
    ensures Unparse("", "", t, "") == t
  {
  }

  lemma ReadQuery(t: string, params: string)
    requires '?' !in Local(t) && '#' !in Local(t) && '#' !in params && params != ""
    ensures Parse(Unparse("", "", t, params)).path == CutParams(Local(t))
    ensures Parse(Unparse("", "", t, params)).query == params
  {
    PrintedWithQuery(t, params);
    LocalTail(t, "?" + params);
    LocalQuery(Local(t), params);
  }

  lemma PrintedWithQuery(t: string, params: string)
    requires params != ""
    ensures Unparse("", "", t, params) == t + ("?" + params)
  {
  }

  lemma LocalTail(t: string, tail: string)
    requires tail != "" && tail[0] == '?'
    ensures Local(t + tail) == Local(t) + tail
  {
    SplitSchemeTail(t, tail);
    SplitNetlocTail(SplitScheme(t).1, tail);
  }

  lemma LocalQuery(local: string, params: string)
    requires '?' !in local && '#' !in local && '#' !in params
    ensures var text := local + ("?" + params);
            && Before(text, '#') == text && Before(text, '?') == local && After(text, '?') == params
  {
    var text := local + ("?" + params);
    BeforeAll(text, '#');
    BeforeAt(local, '?', params);
    assert text == local + ['?'] + params;
  }

  lemma ReadPath(path: string)
    requires '?' !in path && '#' !in path
    ensures Parse(path).path == CutParams(Local(path)) && Parse(path).query == ""
  {
    LocalIsTail(path);
    BeforeAll(Local(path), '#');
    BeforeAll(Local(path), '?');
  }

  // ----- components put together again -----

  /** A scheme and a host as splitting leaves them, possibly missing. */
  predicate Proper(scheme: string, netloc: string) {
    && (scheme == "" || (ValidScheme(scheme) && Lower(scheme) == scheme))
    && (forall c :: c in netloc ==> c !in NETLOC_STOPS)
  }

  lemma SplitIsProper(t: string)
    ensures Proper(Split(t).scheme, Split(t).netloc)
  {
    if Split(t).netloc != "" {
      ParsedAddress(t);
    } else {
      LowerIdempotent(t[..Span(t, {':'})]);
    }
  }

  /** A query or a fragment mark appears in the components only if it was in the text. */
  lemma SplitChars(t: string, c: char)
    requires (c == '?' || c == '#') && c !in t
    ensures c !in Split(t).scheme && c !in Split(t).netloc && c !in Split(t).path
  {
    SplitIsProper(t);
    LocalIsTail(t);
    BeforePrefix(Local(t), '#');
    BeforePrefix(Before(Local(t), '#'), '?');
    forall x | x in Split(t).scheme ensures x != c {
      assert SchemeChar(x);
    }
    assert c in NETLOC_STOPS;
  }

  lemma UnparsedChars(scheme: string, netloc: string, path: string, c: char)
    requires (c == '?' || c == '#') && c !in scheme && c !in netloc && c !in path
    ensures c !in Unparse(scheme, netloc, path, "")
  {
  }

  /** Behind a scheme or a host the path is read back; on its own it may be taken for a host. */
  lemma LocalOfUnparsed(scheme: string, netloc: string, path: string)
    requires Proper(scheme, netloc) && (Absolute(path) || (scheme != "" && netloc == ""))
    ensures Local(Unparse(scheme, netloc, path, "")) == if netloc == "" then SplitNetloc(path).1 else path
  {
    if netloc != "" {
      UnparseTail(scheme, netloc, path, "");
      assert PathTail(path, "") == path;
      LocalBehindHost(scheme, netloc, path);
    } else if scheme != "" {
      assert Unparse(scheme, netloc, path, "") == scheme + ":" + path;
      SplitSchemeIs(scheme, path);
    } else {
      assert Unparse(scheme, netloc, path, "") == path;
      if path != "" { SlashHasNoScheme(path); }
    }
  }

  lemma LocalBehindHost(scheme: string, netloc: string, path: string)
    requires Proper(scheme, netloc) && Absolute(path)
    ensures Local((if scheme == "" then "" else scheme + ":") + "//" + netloc + path) == path
  {
    var rest := "//" + netloc + path;
    SplitNetlocIs(netloc, path);
    if scheme == "" {
      assert "" + "//" + netloc + path == rest;
      SlashHasNoScheme(rest);
    } else {
      assert scheme + ":" + "//" + netloc + path == scheme + ":" + rest;
      SplitSchemeIs(scheme, rest);
    }
  }

  lemma NoHostIsShorter(path: string)
    ensures |SplitNetloc(path).1| <= |path|
    ensures !DoubleSlash(path) ==> SplitNetloc(path).1 == path
  {
  }

  // ----- the printed path, case by case -----

  /** The components of a path that splitting left. */
  lemma SplitOfPath(path: string)
    requires SplitPath(path)
    ensures Split(path).path == Local(path) && Split(path).query == "" && Split(path).fragment == ""
    ensures |Split(path).path| <= |path|
  {
    LocalIsTail(path);
    BeforeAll(Local(path), '#');
    BeforeAll(Local(path), '?');
  }

  /** A reference that names a scheme or a host comes out shorter. */
  lemma NamedReference(sitePath: string, subpath: string)
    requires SplitPath(sitePath) && SplitPath(subpath) && sitePath != "" && subpath != ""
    requires SplitScheme(subpath).0 != "" || DoubleSlash(subpath)
    ensures |Local(Join(sitePath, subpath))| < |subpath|
  {
    var r := Split(subpath);
    SplitOfPath(subpath);
    SplitIsProper(subpath);
    SplitIsProper(sitePath);
    LocalIsTail(subpath);
    RemoveDotsSize(r.path, "");
    var t := Resolve(sitePath, subpath);
    assert Join(sitePath, subpath) == Unparse(t.scheme, t.netloc, t.path, "");
    HostedReference(subpath);
    LocalOfUnparsed(t.scheme, t.netloc, t.path);
    NoHostIsShorter(t.path);
  }

  /** With a host named, the path stays absolute. */
  lemma HostedReference(subpath: string)
    requires SplitPath(subpath)
    ensures var r := Split(subpath);
            r.netloc != "" || DoubleSlash(subpath) ==> Absolute(RemoveDots(r.path, ""))
  {
    var r := Split(subpath);
    SplitOfPath(subpath);
    if r.netloc != "" || DoubleSlash(subpath) {
      if DoubleSlash(subpath) { SlashHasNoScheme(subpath); }
      LocalAbsolute(SplitScheme(subpath).1);
      assert '?' !in r.path && '#' !in r.path;
      RemoveDotsHead(r.path, "");
    }
  }

  /** What follows a host starts with a mark that ends it. */
  lemma LocalAbsolute(rest: string)
    requires DoubleSlash(rest)
    ensures SplitNetloc(rest).1 == "" || SplitNetloc(rest).1[0] in NETLOC_STOPS
  {
    var n := Span(rest[2..], NETLOC_STOPS);
    assert SplitNetloc(rest).1 == rest[2..][n..];
  }

  /** An absolute path without a host is resolved by removing its dot segments. */
  lemma AbsoluteReference(sitePath: string, subpath: string)
    requires SplitPath(subpath) && sitePath != "" && subpath != "" && subpath[0] == '/' && !DoubleSlash(subpath)
    ensures var b := Split(sitePath);
            Join(sitePath, subpath) == Unparse(b.scheme, b.netloc, RemoveDots(subpath, ""), "")
  {
    SplitOfPath(subpath);
    SlashHasNoScheme(subpath);
  }

  lemma AbsoluteLeadsBack(sitePath: string, subpath: string)
    requires SplitPath(subpath) && sitePath != "" && subpath != "" && subpath[0] == '/' && !DoubleSlash(subpath)
    ensures HasDots(subpath) ==> |Local(Join(sitePath, subpath))| < |subpath|
    ensures !HasDots(subpath) ==> Local(Join(sitePath, subpath)) == subpath
  {
    var b, path := Split(sitePath), RemoveDots(subpath, "");
    AbsoluteReference(sitePath, subpath);
    SplitIsProper(sitePath);
    RemoveDotsHead(subpath, "");
    RemoveDotsSize(subpath, "");
    LocalOfUnparsed(b.scheme, b.netloc, path);
    NoHostIsShorter(path);
    if !HasDots(subpath) {
      RemoveDotsKeeps(subpath, "");
    }
  }

  /** A relative path resolved against an absolute one is absolute. */
  lemma RelativeReference(sitePath: string, subpath: string)
    requires SplitPath(sitePath) && SplitPath(subpath) && sitePath != "" && sitePath[0] == '/'
    requires !Absolute(subpath) && SplitScheme(subpath).0 == ""
    ensures Absolute(CutParams(Local(Join(sitePath, subpath))))
  {
    var b := Split(sitePath);
    SplitOfPath(subpath);
    LocalIsTail(subpath);
    SlashHasNoScheme(sitePath);
    BaseIsAbsolute(sitePath);
    var merged := Merge(b.path, subpath);
    MergeHead(b.path, subpath);
    RemoveDotsHead(merged, "");
    var path := RemoveDots(merged, "");
    assert Join(sitePath, subpath) == Unparse("", b.netloc, path, "");
    SplitIsProper(sitePath);
    LocalOfUnparsed("", b.netloc, path);
    MergedStaysAbsolute(b.path, subpath);
  }

  lemma BaseIsAbsolute(sitePath: string)
    requires SplitPath(sitePath) && sitePath != "" && sitePath[0] == '/'
    ensures Absolute(Split(sitePath).path)
  {
    SplitOfPath(sitePath);
    SlashHasNoScheme(sitePath);
    if DoubleSlash(sitePath) {
      LocalAbsolute(sitePath);
      LocalIsTail(sitePath);
    }
  }

  lemma MergeHead(base: string, path: string)
    requires Absolute(base)
    ensures Merge(base, path) != "" && Merge(base, path)[0] == '/'
  {
  }

  lemma MergedStaysAbsolute(base: string, subpath: string)
    requires Absolute(base) && '?' !in base && '#' !in base && '?' !in subpath && '#' !in subpath
    ensures var path := RemoveDots(Merge(base, subpath), "");
            Absolute(CutParams(path)) && Absolute(CutParams(SplitNetloc(path).1))
  {
    var merged := Merge(base, subpath);
    var path := RemoveDots(merged, "");
    MergeHead(base, subpath);
    RemoveDotsHead(merged, "");
    RemoveDotsChars(merged, "", '?');
    RemoveDotsChars(merged, "", '#');
    if DoubleSlash(path) {
      LocalAbsolute(path);
      var rest := SplitNetloc(path).1;
      assert rest == path[|path| - |rest|..];
    }
  }

  // ----- the round trip -----

  /** The printed path has no query or fragment mark of its own. */
  lemma JoinedChars(sitePath: string, subpath: string, c: char)
    requires SplitPath(sitePath) && SplitPath(subpath) && (c == '?' || c == '#')
    ensures c !in Join(sitePath, subpath)
  {
    if sitePath != "" && subpath != "" {
      SplitChars(sitePath, c);
      SplitChars(subpath, c);
      SplitOfPath(sitePath);
      SplitOfPath(subpath);
      ResolvedChars(sitePath, subpath, c);
      var t := Resolve(sitePath, subpath);
      UnparsedChars(t.scheme, t.netloc, t.path, c);
    }
  }

  lemma ResolvedChars(base: string, reference: string, c: char)
    requires c == '?' || c == '#'
    requires var b := Split(base); c !in b.scheme && c !in b.netloc && c !in b.path && b.query == ""
    requires var r := Split(reference);
             c !in r.scheme && c !in r.netloc && c !in r.path && r.query == "" && r.fragment == ""
    ensures var t := Resolve(base, reference);
            c !in t.scheme && c !in t.netloc && c !in t.path && t.query == "" && t.fragment == ""
  {
    var b, r := Split(base), Split(reference);
    RemoveDotsChars(r.path, "", c);
    RemoveDotsChars(Merge(b.path, r.path), "", c);
  }

  lemma PathLeadsBack(sitePath: string, subpath: string)
    requires SplitPath(sitePath) && SplitPath(subpath) && (Absolute(sitePath) || Absolute(subpath))
    ensures CutParams(Local(Join(sitePath, subpath))) == subpath <==> LeadsBack(sitePath, subpath)
  {
    var local := Local(Join(sitePath, subpath));
    if sitePath == "" {
      LocalIsTail(subpath);
    } else if subpath == "" {
      ReadPath(sitePath);
    } else if SplitScheme(subpath).0 != "" || DoubleSlash(subpath) {
      if subpath[0] == '/' { SlashHasNoScheme(subpath); }
      NamedReference(sitePath, subpath);
    } else if subpath[0] == '/' {
      AbsoluteLeadsBack(sitePath, subpath);
    } else {
      RelativeReference(sitePath, subpath);
    }
  }

  /**
   Whatever the site's path and the page's key: splitting the printed relative
   address gives the key back exactly when the key is one that splitting leaves and
   its path leads back.
   */
  lemma RelativeUrlRoundTrip(sitePath: string, subpath: string, params: string)
    requires SplitPath(sitePath) && (Absolute(sitePath) || Absolute(subpath))
    ensures var info := Parse(RelativeUrl(sitePath, subpath, params));
            (info.path == subpath && info.query == params)
            <==> SplitPath(subpath) && '#' !in params && LeadsBack(sitePath, subpath)
  {
    ParsedPathIsSplit(RelativeUrl(sitePath, subpath, params));
    QueryHasNoFragment(RelativeUrl(sitePath, subpath, params));
    if SplitPath(subpath) && '#' !in params {
      JoinedChars(sitePath, subpath, '?');
      JoinedChars(sitePath, subpath, '#');
      ReadPrinted(Join(sitePath, subpath), params);
      PathLeadsBack(sitePath, subpath);
    }
  }

  /** A stored path that starts with a scheme is read back without it. */
  lemma SchemeIsLost(scheme: string, rest: string, subpath: string)
    requires ValidScheme(scheme) && Lower(scheme) == scheme && subpath == scheme + ":" + rest
    requires SplitPath(rest) && !DoubleSlash(rest)
    ensures Parse(RelativeUrl("", subpath, "")).path == rest
  {
    ReadBehindScheme(scheme, rest);
    PrintedAlone(subpath);
  }

  lemma ReadBehindScheme(scheme: string, path: string)
    requires ValidScheme(scheme) && Lower(scheme) == scheme && SplitPath(path) && !DoubleSlash(path)
    ensures Parse(scheme + ":" + path).path == path
  {
    SplitSchemeIs(scheme, path);
    BeforeAll(path, '#');
    BeforeAll(path, '?');
  }

  /** A link to `http:y:z` is stored under `y:z`, whose printed address is read back as `z`. */
  lemma ColonIsLost(link: string, subpath: string)
    requires link == "http" + ":" + subpath && subpath == "y" + ":" + "z"
    ensures Parse(link).path == subpath && Parse(RelativeUrl("", subpath, "")).path == "z"
  {
    ColonScheme();
    HttpAddress();
    assert SplitMarksFree(subpath) && SplitMarksFree("z");
    NoSemicolon(subpath);
    NoSemicolon("z");
    ReadBehindScheme("http", subpath);
    SchemeIsLost("y", "z", subpath);
  }

  predicate SplitMarksFree(s: string) {
    '?' !in s && '#' !in s && ';' !in s && !DoubleSlash(s)
  }

  lemma ColonScheme()
    ensures ValidScheme("y") && Lower("y") == "y"
  {
    var s := "y";
    assert Alpha(s[0]) && Lower(s)[0] == s[0];
    assert Lower(s) == s;
  }

  // ----- the full address: local to the site, and shared with no other key -----

  /** Behind a host, whatever a page's subpath and parameters are, its full address is local. */
  lemma FullUrlIsLocal(scheme: string, netloc: string, sitePath: string, subpath: string, params: string)
    requires SiteAddress(scheme, netloc)
    ensures IsLocal(scheme, netloc, FullUrl(scheme, netloc, sitePath, subpath, params))
    ensures Parse(FullUrl(scheme, netloc, sitePath, subpath, params)).netloc == netloc
  {
    UnparseIsLocal(scheme, netloc, Join(sitePath, subpath), params);
  }

  /** Without a host it is, for a path with one leading slash and no dot segments. */
  lemma HostlessUrlIsLocal(scheme: string, sitePath: string, subpath: string, params: string)
    requires Proper(scheme, "") && SplitPath(subpath) && Absolute(sitePath) && !DoubleSlash(sitePath)
    requires subpath != "" && subpath[0] == '/' && !DoubleSlash(subpath) && !HasDots(subpath)
    ensures IsLocal(scheme, "", FullUrl(scheme, "", sitePath, subpath, params))
  {
    var rest := subpath + QueryTail(params);
    HostlessJoin(sitePath, subpath);
    HostlessText(scheme, subpath, params);
    NamesNoHost(scheme, rest);
  }

  lemma HostlessText(scheme: string, path: string, params: string)
    ensures Unparse(scheme, "", path, params)
         == (if scheme == "" then "" else scheme + ":") + (path + QueryTail(params))
  {
  }

  lemma NamesNoHost(scheme: string, rest: string)
    requires Proper(scheme, "") && rest != "" && rest[0] == '/' && !DoubleSlash(rest)
    ensures IsLocal(scheme, "", (if scheme == "" then "" else scheme + ":") + rest)
  {
    if scheme == "" {
      assert "" + rest == rest;
      SlashHasNoScheme(rest);
    } else {
      SplitSchemeIs(scheme, rest);
    }
  }

  lemma HostlessJoin(sitePath: string, subpath: string)
    requires SplitPath(subpath) && Absolute(sitePath) && !DoubleSlash(sitePath)
    requires subpath != "" && subpath[0] == '/' && !DoubleSlash(subpath) && !HasDots(subpath)
    ensures Join(sitePath, subpath) == subpath
  {
    if sitePath != "" {
      AbsoluteReference(sitePath, subpath);
      RemoveDotsKeeps(subpath, "");
      SlashHasNoScheme(sitePath);
    }
  }

  /** A path as it is printed behind a host. */
  function Slashed(path: string): string {
    if Absolute(path) then path else "/" + path
  }

  lemma TailIsUnique(x: string, p: string, y: string, q: string)
    requires '?' !in x && '?' !in y
    ensures x + QueryTail(p) == y + QueryTail(q) <==> x == y && p == q
  {
    BeforeQuery(x, p);
    BeforeQuery(y, q);
  }

  lemma BeforeQuery(x: string, p: string)
    requires '?' !in x
    ensures Before(x + QueryTail(p), '?') == x && After(x + QueryTail(p), '?') == p
  {
    if p == "" {
      assert x + QueryTail(p) == x;
      BeforeAll(x, '?');
    } else {
      assert x + QueryTail(p) == x + ['?'] + p;
      BeforeAt(x, '?', p);
    }
  }

  lemma FullUrlText(scheme: string, netloc: string, path: string, params: string)
    requires netloc != ""
    ensures var head := (if scheme == "" then "" else scheme + ":") + "//" + netloc;
            Unparse(scheme, netloc, path, params) == head + (Slashed(path) + QueryTail(params))
  {
    UnparseTail(scheme, netloc, path, params);
    assert PathTail(path, params) == Slashed(path) + QueryTail(params);
  }

  /** Split again, a full address has the site's scheme and host, the resolved path and the page's parameters. */
  lemma FullUrlParts(scheme: string, netloc: string, sitePath: string, subpath: string, params: string)
    requires SiteAddress(scheme, netloc) && SplitPath(sitePath) && SplitPath(subpath) && '#' !in params
    ensures var info := Parse(FullUrl(scheme, netloc, sitePath, subpath, params));
            && info.scheme == scheme && info.netloc == netloc && info.query == params
            && info.path == CutParams(Slashed(Join(sitePath, subpath)))
  {
    var path := Slashed(Join(sitePath, subpath));
    var tail := path + QueryTail(params);
    var head := (if scheme == "" then "" else scheme + ":") + "//" + netloc;
    JoinedChars(sitePath, subpath, '?');
    JoinedChars(sitePath, subpath, '#');
    FullUrlText(scheme, netloc, Join(sitePath, subpath), params);
    assert FullUrl(scheme, netloc, sitePath, subpath, params) == head + tail;
    TailParts(scheme, netloc, path, params);
  }

  lemma TailParts(scheme: string, netloc: string, path: string, params: string)
    requires SiteAddress(scheme, netloc) && Absolute(path) && '?' !in path && '#' !in path && '#' !in params
    ensures var head := (if scheme == "" then "" else scheme + ":") + "//" + netloc;
            var info := Parse(head + (path + QueryTail(params)));
            && info.scheme == scheme && info.netloc == netloc && info.query == params && info.path == CutParams(path)
  {
    var tail := path + QueryTail(params);
    assert tail == "" || tail[0] in NETLOC_STOPS;
    SplitFull(scheme, netloc, tail);
    BeforeAll(tail, '#');
    BeforeQuery(path, params);
  }

  lemma SamePrefix(head: string, a: string, b: string)
    ensures head + a == head + b <==> a == b
  {
    assert (head + a)[|head|..] == a && (head + b)[|head|..] == b;
  }

  /** Two keys of a site share a full address exactly when their resolved paths do, up to a leading slash. */
  lemma FullUrlsEqual(scheme: string, netloc: string, sitePath: string, a: string, p: string, b: string, q: string)
    requires netloc != "" && SplitPath(sitePath) && SplitPath(a) && SplitPath(b)
    ensures FullUrl(scheme, netloc, sitePath, a, p) == FullUrl(scheme, netloc, sitePath, b, q)
            <==> Slashed(Join(sitePath, a)) == Slashed(Join(sitePath, b)) && p == q
  {
    var x, y := Join(sitePath, a), Join(sitePath, b);
    JoinedChars(sitePath, a, '?');
    JoinedChars(sitePath, b, '?');
    FullUrlText(scheme, netloc, x, p);
    FullUrlText(scheme, netloc, y, q);
    var head := (if scheme == "" then "" else scheme + ":") + "//" + netloc;
    SamePrefix(head, Slashed(x) + QueryTail(p), Slashed(y) + QueryTail(q));
    TailIsUnique(Slashed(x), p, Slashed(y), q);
  }

  /** Two keys that lead back, and whose paths are absolute, do not. */
  lemma FullUrlsDiffer(scheme: string, netloc: string, sitePath: string, a: string, p: string, b: string, q: string)
    requires netloc != "" && SplitPath(sitePath) && Absolute(sitePath)
    requires SplitPath(a) && Absolute(a) && '#' !in p && LeadsBack(sitePath, a)
    requires SplitPath(b) && Absolute(b) && '#' !in q && LeadsBack(sitePath, b)
    ensures FullUrl(scheme, netloc, sitePath, a, p) == FullUrl(scheme, netloc, sitePath, b, q) <==> a == b && p == q
  {
    FullUrlsEqual(scheme, netloc, sitePath, a, p, b, q);
    JoinedIsAbsolute(sitePath, a);
    JoinedIsAbsolute(sitePath, b);
    RelativeUrlRoundTrip(sitePath, a, p);
    RelativeUrlRoundTrip(sitePath, b, q);
  }

  lemma JoinedIsAbsolute(sitePath: string, subpath: string)
    requires SplitPath(subpath) && Absolute(sitePath) && Absolute(subpath) && LeadsBack(sitePath, subpath)
    ensures Absolute(Join(sitePath, subpath))
  {
    if sitePath != "" && subpath != "" {
      AbsoluteReference(sitePath, subpath);
      RemoveDotsKeeps(subpath, "");
      SlashHasNoScheme(sitePath);
    }
  }

  /** On a site without a path the keys `x` and `/x` share their address. */
  lemma AddressesCollide(scheme: string, netloc: string, params: string)
    requires netloc != ""
    ensures FullUrl(scheme, netloc, "", "x", params) == FullUrl(scheme, netloc, "", "/x", params)
  {
    FullUrlText(scheme, netloc, "x", params);
    FullUrlText(scheme, netloc, "/x", params);
    assert Slashed("x") == "/x" == Slashed("/x");
  }
}
