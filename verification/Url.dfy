/**
 URL splitting, reference resolution and recomposition, as far as the crawler
 relies on them.  Resolution follows sections 5.2.2 to 5.2.4 of RFC 3986 and
 recomposition its section 5.3; splitting additionally cuts the `;params` of
 the last path segment, as `urlparse` does.
 */
module Url {

  datatype Reference = Reference(scheme: string, netloc: string, path: string, query: string, fragment: string)

  datatype Parts = Parts(scheme: string, netloc: string, path: string, params: string, query: string, fragment: string)

  // ----- splitting -----

  /** Length of the longest prefix of `s` that avoids `stops`. */
  function Span(s: string, stops: set<char>): (n: nat)
    ensures n <= |s|
    ensures forall i :: 0 <= i < n ==> s[i] !in stops
    ensures n < |s| ==> s[n] in stops
  {
    if s == "" || s[0] in stops then 0 else 1 + Span(s[1..], stops)
  }

  /** A prefix that avoids the stops and is followed by one (or by nothing) is the span. */
  lemma SpanIs(s: string, stops: set<char>, n: nat)
    requires n <= |s|
    requires forall i :: 0 <= i < n ==> s[i] !in stops
    requires n < |s| ==> s[n] in stops
    ensures Span(s, stops) == n
  {
    assert Span(s, stops) < |s| ==> s[Span(s, stops)] in stops;
    assert n < |s| ==> s[n] in stops;
  }

  function Before(s: string, c: char): string {
    s[..Span(s, {c})]
  }

  function After(s: string, c: char): string {
    var n := Span(s, {c});
    if n < |s| then s[n + 1..] else ""
  }

  predicate Alpha(c: char) {
    'a' <= c <= 'z' || 'A' <= c <= 'Z'
  }

  predicate SchemeChar(c: char) {
    Alpha(c) || '0' <= c <= '9' || c in {'+', '-', '.'}
  }

  predicate ValidScheme(s: string) {
    s != "" && Alpha(s[0]) && forall i :: 0 <= i < |s| ==> SchemeChar(s[i])
  }

  function LowerChar(c: char): char {
    if 'A' <= c <= 'Z' then c - 'A' + 'a' else c
  }

  function Lower(s: string): (r: string) {
    seq(|s|, i requires 0 <= i < |s| => LowerChar(s[i]))
  }

  function SplitScheme(url: string): (string, string) {
    var i := Span(url, {':'});
    if i < |url| && ValidScheme(url[..i]) then (Lower(url[..i]), url[i + 1..]) else ("", url)
  }

  const NETLOC_STOPS := {'/', '?', '#'}

  predicate DoubleSlash(s: string) {
    |s| >= 2 && s[0] == '/' && s[1] == '/'
  }

  function SplitNetloc(s: string): (string, string) {
    if DoubleSlash(s) then
      var n := Span(s[2..], NETLOC_STOPS);
      (s[2..2 + n], s[2 + n..])
    else ("", s)
  }

  /** Start of the last segment's slash; 0 when there is no slash. */
  function LastSlash(s: string): (n: nat)
    ensures n <= |s|
    ensures (n < |s| && s[n] == '/') || (n == 0 && '/' !in s)
    ensures forall i :: n < i < |s| ==> s[i] != '/'
  {
    if s == "" then 0
    else if s[|s| - 1] == '/' then |s| - 1
    else LastSlash(s[..|s| - 1])
  }

  /** Everything up to the first `;` of the last segment. */
  function CutParams(path: string): (r: string)
    ensures r <= path
  {
    var from := LastSlash(path);
    path[..from + Span(path[from..], {';'})]
  }

  function ParamsOf(path: string): string {
    var n := |CutParams(path)|;
    if n < |path| then path[n + 1..] else ""
  }

  /** What follows the scheme and the host. */
  function Local(url: string): string {
    SplitNetloc(SplitScheme(url).1).1
  }

  /** The five components of section 3 of RFC 3986. */
  function Split(url: string): Reference {
    var noFragment := Before(Local(url), '#');
    Reference(SplitScheme(url).0, SplitNetloc(SplitScheme(url).1).0,
              Before(noFragment, '?'), After(noFragment, '?'), After(Local(url), '#'))
  }

  function Parse(url: string): Parts {
    var r := Split(url);
    Parts(r.scheme, r.netloc, CutParams(r.path), ParamsOf(r.path), r.query, r.fragment)
  }

  // ----- recomposition and resolution -----

  function Unparse(scheme: string, netloc: string, path: string, query: string): string {
    var local := if netloc == "" then path
                 else "//" + netloc + (if path != "" && path[0] != '/' then "/" else "") + path;
    (if scheme == "" then "" else scheme + ":") + local + (if query == "" then "" else "?" + query)
  }

  /** Does a "." or ".." segment follow the slash at the head of `s`? */
  predicate DotHead(s: string) {
    s == "/." || s == "/.." || "/./" <= s || "/../" <= s
  }

  predicate HasDots(s: string) {
    exists i {:trigger s[i..]} :: 0 <= i < |s| && DotHead(s[i..])
  }

  /** `output` without its last segment and that segment's slash. */
  function DropSegment(output: string): (r: string)
    ensures |r| <= |output|
  {
    if output == "" then ""
    else if output[|output| - 1] == '/' then output[..|output| - 1]
    else DropSegment(output[..|output| - 1])
  }

  /** Section 5.2.4 of RFC 3986. */
  function RemoveDots(input: string, output: string): (r: string)
    decreases |input|
  {
    if input == "" then output
    else if "../" <= input then RemoveDots(input[3..], output)
    else if "./" <= input then RemoveDots(input[2..], output)
    else if input == "/." then RemoveDots("/", output)
    else if "/./" <= input then RemoveDots(input[2..], output)
    else if input == "/.." then RemoveDots("/", DropSegment(output))
    else if "/../" <= input then RemoveDots(input[3..], DropSegment(output))
    else if input == "." || input == ".." then output
    else
      var n := 1 + Span(input[1..], {'/'});
      RemoveDots(input[n..], output + input[..n])
  }

  /** Section 5.2.3: the reference replaces what follows the last slash of the base. */
  function Merge(base: string, path: string): string {
    var n := LastSlash(base);
    if base == "" then "/" + path
    else if base[n] == '/' then base[..n + 1] + path
    else path
  }

  /** Section 5.2.2; a reference that starts with two slashes names its own host. */
  function Resolve(base: string, reference: string): Reference {
    var b, r := Split(base), Split(reference);
    if r.scheme != "" then r.(path := RemoveDots(r.path, ""))
    else if DoubleSlash(reference) then r.(scheme := b.scheme, path := RemoveDots(r.path, ""))
    else if r.path == "" then b.(query := if r.query == "" then b.query else r.query, fragment := r.fragment)
    else
      var merged := if r.path[0] == '/' then r.path else Merge(b.path, r.path);
      Reference(b.scheme, b.netloc, RemoveDots(merged, ""), r.query, r.fragment)
  }

  function Join(base: string, reference: string): string {
    if base == "" then reference
    else if reference == "" then base
    else
      var t := Resolve(base, reference);
      Unparse(t.scheme, t.netloc, t.path, t.query) + (if t.fragment == "" then "" else "#" + t.fragment)
  }

  /** `Site.is_local`: a URL that names a scheme or a host must name the site's. */
  predicate IsLocal(scheme: string, netloc: string, url: string) {
    var info := Parse(url);
    (info.scheme == "" || info.scheme == scheme) && (info.netloc == "" || info.netloc == netloc)
  }

  // ----- removing dot segments changes exactly the paths that have them -----

  lemma DotsAfterSegment(input: string)
    requires input != "" && input[0] == '/' && !DotHead(input)
    ensures HasDots(input) == HasDots(input[1 + Span(input[1..], {'/'})..])
  {
    var n := 1 + Span(input[1..], {'/'});
    var rest := input[n..];
    forall i | 0 <= i < |input| && DotHead(input[i..])
      ensures i >= n && rest[i - n..] == input[i..]
    {
      assert input[0..] == input;
      assert input[i] == '/';
      assert forall j :: 0 < j < n ==> input[j] == input[1..][j - 1];
    }
    forall i | 0 <= i < |rest|
      ensures rest[i..] == input[n + i..]
    {
    }
  }

  lemma {:induction false} RemoveDotsSize(input: string, output: string)
    ensures |RemoveDots(input, output)| <= |input| + |output|
    ensures input != "" && input[0] == '/' && HasDots(input) ==>
              |RemoveDots(input, output)| < |input| + |output|
    decreases |input|
  {
    if input == "" {
    } else if "../" <= input {
      RemoveDotsSize(input[3..], output);
    } else if "./" <= input {
      RemoveDotsSize(input[2..], output);
    } else if input == "/." {
      RemoveDotsSize("/", output);
    } else if "/./" <= input {
      RemoveDotsSize(input[2..], output);
    } else if input == "/.." {
      RemoveDotsSize("/", DropSegment(output));
    } else if "/../" <= input {
      RemoveDotsSize(input[3..], DropSegment(output));
    } else if input != "." && input != ".." {
      MovedSegmentSize(input, output);
    }
  }

  lemma {:induction false} MovedSegmentSize(input: string, output: string)
    requires input != "" && !("../" <= input) && !("./" <= input) && !DotHead(input) && input != "." && input != ".."
    ensures |RemoveDots(input, output)| <= |input| + |output|
    ensures input[0] == '/' && HasDots(input) ==> |RemoveDots(input, output)| < |input| + |output|
    decreases |input|, 0
  {
    var n := Segment(input);
    RemoveDotsSize(input[n..], output + input[..n]);
    if input[0] == '/' {
      DotsAfterSegment(input);
    }
  }

  lemma NoDotsNoHead(input: string)
    requires input != "" && !HasDots(input)
    ensures !DotHead(input)
  {
    assert input[0..] == input;
  }

  /** The first segment of `input`, with its slash. */
  function Segment(input: string): (n: nat)
    requires input != ""
    ensures 0 < n <= |input| && (n < |input| ==> input[n] == '/')
  {
    1 + Span(input[1..], {'/'})
  }

  lemma RemoveDotsStep(input: string, output: string)
    requires input != "" && input[0] == '/' && !DotHead(input)
    ensures RemoveDots(input, output) == RemoveDots(input[Segment(input)..], output + input[..Segment(input)])
  {
  }

  lemma {:induction false} RemoveDotsKeeps(input: string, output: string)
    requires input == "" || input[0] == '/'
    requires !HasDots(input)
    ensures RemoveDots(input, output) == output + input
    decreases |input|
  {
    if input == "" {
      assert output + input == output;
    } else {
      var n := Segment(input);
      NoDotsNoHead(input);
      DotsAfterSegment(input);
      RemoveDotsStep(input, output);
      RemoveDotsKeeps(input[n..], output + input[..n]);
      Rejoin(output, input, n);
    }
  }

  lemma Rejoin(a: string, b: string, n: nat)
    requires n <= |b|
    ensures (a + b[..n]) + b[n..] == a + b
  {
  }

  // ----- searching and splitting -----

  /** No `;` in the last segment. */
  predicate NoParams(path: string) {
    CutParams(path) == path
  }

  lemma BeforeAll(s: string, c: char)
    requires c !in s
    ensures Before(s, c) == s && After(s, c) == ""
  {
    SpanIs(s, {c}, |s|);
  }

  lemma BeforeAt(a: string, c: char, b: string)
    requires c !in a
    ensures Before(a + [c] + b, c) == a && After(a + [c] + b, c) == b
  {
    SpanIs(a + [c] + b, {c}, |a|);
  }

  lemma BeforePrefix(s: string, c: char)
    ensures Before(s, c) <= s && c !in Before(s, c)
    ensures c in s ==> |Before(s, c)| < |s|
    ensures |Before(s, c)| + |After(s, c)| <= |s|
  {
    if c in s {
      var i :| 0 <= i < |s| && s[i] == c;
      assert Span(s, {c}) <= i;
    }
  }

  /** A slash at the head rules out a scheme. */
  lemma SlashHasNoScheme(s: string)
    requires s != "" && s[0] == '/'
    ensures SplitScheme(s) == ("", s)
  {
    var i := Span(s, {':'});
    assert i == 0 || s[..i][0] == '/';
  }

  lemma QueryHasNoFragment(url: string)
    ensures '#' !in Parse(url).query
  {
    var local := SplitNetloc(SplitScheme(url).1).1;
    BeforePrefix(local, '#');
  }

  /** Resolving an absolute path yields an absolute path. */
  lemma {:induction false} RemoveDotsHead(input: string, output: string)
    requires input == "" || input[0] == '/'
    requires output == "" || output[0] == '/'
    ensures input != "" || output != "" ==> RemoveDots(input, output) != ""
    ensures RemoveDots(input, output) == "" || RemoveDots(input, output)[0] == '/'
    decreases |input|
  {
    DropSegmentHead(output);
    if input == "" {
    } else if input == "/." {
      RemoveDotsHead("/", output);
    } else if "/./" <= input {
      RemoveDotsHead(input[2..], output);
    } else if input == "/.." {
      RemoveDotsHead("/", DropSegment(output));
    } else if "/../" <= input {
      RemoveDotsHead(input[3..], DropSegment(output));
    } else {
      var n := 1 + Span(input[1..], {'/'});
      RemoveDotsHead(input[n..], output + input[..n]);
    }
  }

  lemma {:induction false} RemoveDotsChars(input: string, output: string, c: char)
    requires c !in input && c !in output && c != '/'
    ensures c !in RemoveDots(input, output)
    decreases |input|
  {
    DropSegmentChars(output, c);
    if input == "" {
    } else if "../" <= input {
      RemoveDotsChars(input[3..], output, c);
    } else if "./" <= input {
      RemoveDotsChars(input[2..], output, c);
    } else if input == "/." {
      RemoveDotsChars("/", output, c);
    } else if "/./" <= input {
      RemoveDotsChars(input[2..], output, c);
    } else if input == "/.." {
      RemoveDotsChars("/", DropSegment(output), c);
    } else if "/../" <= input {
      RemoveDotsChars(input[3..], DropSegment(output), c);
    } else if input != "." && input != ".." {
      var n := 1 + Span(input[1..], {'/'});
      RemoveDotsChars(input[n..], output + input[..n], c);
    }
  }

  lemma DropSegmentChars(output: string, c: char)
    requires c !in output
    ensures c !in DropSegment(output)
  {
  }

  lemma DropSegmentHead(output: string)
    requires output == "" || output[0] == '/'
    ensures DropSegment(output) == "" || DropSegment(output)[0] == '/'
  {
  }

  // ----- what splitting leaves -----

  /** A path as a URL split leaves it. */
  predicate SplitPath(path: string) {
    '?' !in path && '#' !in path && NoParams(path)
  }

  lemma CutTwice(path: string)
    ensures NoParams(CutParams(path))
  {
    var from := LastSlash(path);
    var cut := CutParams(path);
    LastSlashIs(cut, from);
    var span := Span(path[from..], {';'});
    assert cut[from..] == path[from..][..span];
    SpanIs(cut[from..], {';'}, |cut| - from);
    assert cut[..|cut|] == cut;
  }

  lemma LastSlashIs(s: string, n: nat)
    requires n <= |s| && ((n < |s| && s[n] == '/') || (n == 0 && '/' !in s))
    requires forall i :: n < i < |s| ==> s[i] != '/'
    ensures LastSlash(s) == n
  {
    var m := LastSlash(s);
    assert (m < |s| && s[m] == '/') || '/' !in s;
  }

  lemma ParsedPathIsSplit(url: string)
    ensures SplitPath(Parse(url).path)
  {
    var local := SplitNetloc(SplitScheme(url).1).1;
    var noFragment := Before(local, '#');
    BeforePrefix(local, '#');
    BeforePrefix(noFragment, '?');
    CutTwice(Before(noFragment, '?'));
    assert CutParams(Before(noFragment, '?')) <= Before(noFragment, '?');
  }

  // ----- every address of a page is local to its site -----

  predicate SiteAddress(scheme: string, netloc: string) {
    && (scheme == "" || (ValidScheme(scheme) && Lower(scheme) == scheme))
    && netloc != "" && (forall c :: c in netloc ==> c !in NETLOC_STOPS)
  }

  lemma LowerIdempotent(s: string)
    ensures Lower(Lower(s)) == Lower(s)
    ensures ValidScheme(s) ==> ValidScheme(Lower(s))
  {
  }

  /** Splitting a seed yields a well-formed scheme and host. */
  lemma ParsedAddress(url: string)
    ensures Parse(url).netloc != "" ==> SiteAddress(Parse(url).scheme, Parse(url).netloc)
  {
    var i := Span(url, {':'});
    LowerIdempotent(url[..i]);
    var rest := SplitScheme(url).1;
    if DoubleSlash(rest) {
      var n := Span(rest[2..], NETLOC_STOPS);
      assert rest[2..2 + n] == rest[2..][..n];
    }
  }

  /** With a host present, the path that was split off is rooted. */
  lemma ParsedPathRooted(url: string)
    requires Parse(url).netloc != ""
    ensures Parse(url).path == "" || Parse(url).path[0] == '/'
  {
    var rest := SplitScheme(url).1;
    var n := Span(rest[2..], NETLOC_STOPS);
    var local := SplitNetloc(rest).1;
    assert local == rest[2..][n..];
    if local != "" {
      assert local[0] == rest[2..][n];
    }
  }

  lemma SplitNetlocIs(netloc: string, tail: string)
    requires forall c :: c in netloc ==> c !in NETLOC_STOPS
    requires tail == "" || tail[0] in NETLOC_STOPS
    ensures SplitNetloc("//" + netloc + tail) == (netloc, tail)
  {
    var rest := "//" + netloc + tail;
    assert rest[2..] == netloc + tail;
    SpanIs(rest[2..], NETLOC_STOPS, |netloc|);
    assert rest[2..2 + |netloc|] == netloc && rest[2 + |netloc|..] == tail;
  }

  lemma SplitSchemeIs(scheme: string, rest: string)
    requires ValidScheme(scheme) && Lower(scheme) == scheme
    ensures SplitScheme(scheme + ":" + rest) == (scheme, rest)
  {
    var url := scheme + ":" + rest;
    SpanIs(url, {':'}, |scheme|);
    assert url[..|scheme|] == scheme && url[|scheme| + 1..] == rest;
  }

  lemma SplitFull(scheme: string, netloc: string, tail: string)
    requires SiteAddress(scheme, netloc)
    requires tail == "" || tail[0] in NETLOC_STOPS
    ensures var url := (if scheme == "" then "" else scheme + ":") + "//" + netloc + tail;
            && Parse(url).scheme == scheme && Parse(url).netloc == netloc
            && Parse(url).path == CutParams(Before(Before(tail, '#'), '?'))
            && Parse(url).query == After(Before(tail, '#'), '?')
  {
    var rest := "//" + netloc + tail;
    SplitNetlocIs(netloc, tail);
    if scheme == "" {
      assert "" + "//" + netloc + tail == rest;
      SlashHasNoScheme(rest);
    } else {
      assert scheme + ":" + "//" + netloc + tail == scheme + ":" + rest;
      SplitSchemeIs(scheme, rest);
    }
  }

  lemma NoSemicolon(path: string)
    requires ';' !in path
    ensures NoParams(path)
  {
    var from := LastSlash(path);
    SpanIs(path[from..], {';'}, |path| - from);
    assert path[..|path|] == path;
  }

  lemma HttpAddress()
    ensures SiteAddress("http", "h")
  {
    var s := "http";
    assert Alpha(s[0]) && SchemeChar(s[1]) && SchemeChar(s[2]) && SchemeChar(s[3]);
    assert Lower(s)[0] == s[0] && Lower(s)[1] == s[1] && Lower(s)[2] == s[2] && Lower(s)[3] == s[3];
    assert Lower(s) == s;
  }

  lemma HttpText(path: string)
    ensures "http" + ":" + "//" + "h" + path == "http://h" + path
  {
    assert "http" + ":" + "//" + "h" == "http://h";
  }

  /** A split path behind a host is read back. */
  lemma ParseHosted(path: string)
    requires SplitPath(path) && (path == "" || path[0] == '/')
    ensures Parse("http://h" + path).netloc == "h" && Parse("http://h" + path).path == path
  {
    HttpAddress();
    HttpText(path);
    HostedPath("http", "h", path, "http://h" + path);
  }

  lemma HostedPath(scheme: string, netloc: string, path: string, url: string)
    requires SiteAddress(scheme, netloc) && SplitPath(path) && (path == "" || path[0] == '/')
    requires scheme != "" && url == scheme + ":" + "//" + netloc + path
    ensures Parse(url).netloc == netloc && Parse(url).path == path
  {
    SplitFull(scheme, netloc, path);
    BeforeAll(path, '#');
    BeforeAll(path, '?');
  }

  function PathTail(path: string, query: string): string {
    (if path != "" && path[0] != '/' then "/" else "") + path + (if query == "" then "" else "?" + query)
  }

  lemma UnparseTail(scheme: string, netloc: string, path: string, query: string)
    requires netloc != ""
    ensures Unparse(scheme, netloc, path, query)
         == (if scheme == "" then "" else scheme + ":") + "//" + netloc + PathTail(path, query)
  {
    var head := if scheme == "" then "" else scheme + ":";
    var slash := if path != "" && path[0] != '/' then "/" else "";
    var rest := if query == "" then "" else "?" + query;
    assert head + ("//" + netloc + slash + path) + rest == head + "//" + netloc + (slash + path + rest);
  }

  lemma UnparseIsLocal(scheme: string, netloc: string, path: string, query: string)
    requires SiteAddress(scheme, netloc)
    ensures IsLocal(scheme, netloc, Unparse(scheme, netloc, path, query))
    ensures Parse(Unparse(scheme, netloc, path, query)).netloc == netloc
  {
    UnparseTail(scheme, netloc, path, query);
    SplitFull(scheme, netloc, PathTail(path, query));
  }
}
