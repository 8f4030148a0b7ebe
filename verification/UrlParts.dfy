/** What splitting does to every text, stated on the text: scheme, host, path, query, fragment, and locality. */
module UrlParts {
  import opened Url

  // ----- letters -----

  const SMALL := "abcdefghijklmnopqrstuvwxyz"
  const CAPITALS := "ABCDEFGHIJKLMNOPQRSTUVWXYZ"
  const FIGURES := "0123456789"

  lemma LetterAt(j: nat)
    requires j < 26
    ensures CAPITALS[j] == 'A' + j as char && SMALL[j] == 'a' + j as char
  {
  }

  lemma FigureAt(j: nat)
    requires j < 10
    ensures FIGURES[j] == '0' + j as char
  {
  }

  lemma CharsMean(c: char)
    ensures 'a' <= c <= 'z' <==> c in SMALL
    ensures 'A' <= c <= 'Z' <==> c in CAPITALS
    ensures '0' <= c <= '9' <==> c in FIGURES
  {
    if 'a' <= c <= 'z' { LetterAt((c - 'a') as int); }
    if 'A' <= c <= 'Z' { LetterAt((c - 'A') as int); }
    if '0' <= c <= '9' { FigureAt((c - '0') as int); }
    if j :| 0 <= j < 26 && SMALL[j] == c { LetterAt(j); }
    if j :| 0 <= j < 26 && CAPITALS[j] == c { LetterAt(j); }
    if j :| 0 <= j < 10 && FIGURES[j] == c { FigureAt(j); }
  }

  /** Lower case: only the 26 capitals change, each to its small letter. */
  lemma LowerMeans(s: string)
    ensures |Lower(s)| == |s|
    ensures forall i, j :: 0 <= i < |s| && 0 <= j < 26 && s[i] == CAPITALS[j] ==> Lower(s)[i] == SMALL[j]
    ensures forall i :: 0 <= i < |s| && s[i] !in CAPITALS ==> Lower(s)[i] == s[i]
  {
    forall i, j | 0 <= i < |s| && 0 <= j < 26 && s[i] == CAPITALS[j] ensures Lower(s)[i] == SMALL[j] {
      LetterAt(j);
    }
    forall i | 0 <= i < |s| && s[i] !in CAPITALS ensures Lower(s)[i] == s[i] {
      CharsMean(s[i]);
    }
  }

  // ----- the scheme -----

  /** A letter, then letters, figures, plus, minus and point. */
  ghost predicate SchemeText(x: string) {
    && x != "" && (x[0] in SMALL || x[0] in CAPITALS)
    && forall i :: 0 <= i < |x| ==> x[i] in SMALL || x[i] in CAPITALS || x[i] in FIGURES || x[i] in "+-."
  }

  lemma SchemeTextIs(x: string)
    ensures ValidScheme(x) <==> SchemeText(x)
  {
    forall i | 0 <= i < |x|
      ensures SchemeChar(x[i]) <==> x[i] in SMALL || x[i] in CAPITALS || x[i] in FIGURES || x[i] in "+-."
    {
      CharsMean(x[i]);
      assert x[i] in "+-." <==> x[i] == '+' || x[i] == '-' || x[i] == '.';
    }
    if x != "" { CharsMean(x[0]); }
  }

  /** What comes before the first colon is the scheme, in lower case, exactly when it can be one. */
  lemma SchemeExactly(a: string, b: string)
    requires ':' !in a
    ensures SplitScheme(a + ":" + b) == if SchemeText(a) then (Lower(a), b) else ("", a + ":" + b)
    ensures SplitScheme(a) == ("", a)
  {
    var url := a + ":" + b;
    SpanIs(url, {':'}, |a|);
    SpanIs(a, {':'}, |a|);
    assert url[..|a|] == a && url[|a| + 1..] == b;
    SchemeTextIs(a);
  }

  // ----- the host -----

  predicate HostText(n: string) {
    '/' !in n && '?' !in n && '#' !in n
  }

  /** Empty, or starting with a mark that ends a host. */
  predicate AfterHost(tail: string) {
    tail == "" || tail[0] == '/' || tail[0] == '?' || tail[0] == '#'
  }

  predicate NoSlashes(s: string) {
    |s| < 2 || s[0] != '/' || s[1] != '/'
  }

  lemma HostExactly(n: string, tail: string)
    requires HostText(n) && AfterHost(tail)
    ensures SplitNetloc("//" + n + tail) == (n, tail)
  {
    SplitNetlocIs(n, tail);
  }

  lemma NoHost(s: string)
    requires NoSlashes(s)
    ensures SplitNetloc(s) == ("", s)
  {
  }

  // ----- path, query and fragment -----

  function Marked(mark: char, s: string): string {
    if s == "" then "" else [mark] + s
  }

  lemma MarkedSplits(a: string, mark: char, b: string)
    requires mark !in a
    ensures Before(a + Marked(mark, b), mark) == a && After(a + Marked(mark, b), mark) == b
  {
    if b == "" {
      assert a + Marked(mark, b) == a;
      BeforeAll(a, mark);
    } else {
      assert a + Marked(mark, b) == a + [mark] + b;
      BeforeAt(a, mark, b);
    }
  }

  lemma LocalSplits(path: string, query: string, fragment: string)
    requires '?' !in path && '#' !in path && '#' !in query
    ensures var local := path + Marked('?', query) + Marked('#', fragment);
            var rest := Before(local, '#');
            && After(local, '#') == fragment && Before(rest, '?') == path && After(rest, '?') == query
  {
    MarkedSplits(path + Marked('?', query), '#', fragment);
    MarkedSplits(path, '?', query);
  }

  /** A complete URL comes apart into what it was put together from. */
  lemma WholeUrl(x: string, n: string, path: string, query: string, fragment: string)
    requires ':' !in x && SchemeText(x) && HostText(n) && (path == "" || path[0] == '/')
    requires '?' !in path && '#' !in path && '#' !in query
    ensures Split(x + ":" + ("//" + n + (path + Marked('?', query) + Marked('#', fragment))))
         == Reference(Lower(x), n, path, query, fragment)
  {
    var local := path + Marked('?', query) + Marked('#', fragment);
    SchemeExactly(x, "//" + n + local);
    HostExactly(n, local);
    LocalSplits(path, query, fragment);
  }

  /** So does a text that starts with its path. */
  lemma BareUrl(path: string, query: string, fragment: string)
    requires ':' !in path && ':' !in query && ':' !in fragment
    requires '?' !in path && '#' !in path && '#' !in query && NoSlashes(path)
    ensures Split(path + Marked('?', query) + Marked('#', fragment)) == Reference("", "", path, query, fragment)
  {
    var local := path + Marked('?', query) + Marked('#', fragment);
    SchemeExactly(local, "");
    NoHost(local);
    LocalSplits(path, query, fragment);
  }

  /** A semicolon in the last segment ends the path; without one it is whole. */
  lemma ParamsExactly(dir: string, segment: string, params: string)
    requires dir == "" || dir[|dir| - 1] == '/'
    requires '/' !in segment && ';' !in segment && '/' !in params
    ensures CutParams(dir + segment) == dir + segment
    ensures CutParams(dir + segment + ";" + params) == dir + segment
  {
    LastSegment(dir, segment, "");
    LastSegment(dir, segment, ";" + params);
    Regroup(dir + segment, params);
  }

  lemma Regroup(path: string, params: string)
    ensures path + "" == path && path + (";" + params) == path + ";" + params
  {
  }

  lemma LastSegment(dir: string, segment: string, rest: string)
    requires dir == "" || dir[|dir| - 1] == '/'
    requires '/' !in segment && ';' !in segment && '/' !in rest && (rest == "" || rest[0] == ';')
    ensures CutParams(dir + segment + rest) == dir + segment
  {
    var path, from := dir + segment + rest, if dir == "" then 0 else |dir| - 1;
    forall i | from < i < |path| ensures path[i] != '/' {
      assert path[i] in segment || path[i] in rest;
    }
    LastSlashIs(path, from);
    var n := |dir + segment| - from;
    forall i | 0 <= i < n ensures path[from..][i] != ';' {
      assert path[from..][i] == '/' || path[from..][i] in segment;
    }
    SpanIs(path[from..], {';'}, n);
    assert path[..from + n] == dir + segment;
  }

  // ----- locality, exactly -----

  /** A URL with a scheme and a host is local exactly when both are the site's; an empty host is any. */
  lemma LocalExactly(scheme: string, netloc: string, x: string, n: string, tail: string)
    requires ':' !in x && SchemeText(x) && HostText(n) && AfterHost(tail)
    ensures IsLocal(scheme, netloc, x + ":" + ("//" + n + tail))
            <==> Lower(x) == scheme && (n == "" || n == netloc)
  {
    SchemeExactly(x, "//" + n + tail);
    HostExactly(n, tail);
    assert Lower(x) != "";
  }

  /** A URL with a host only: exactly when that is the site's. */
  lemma HostLocalExactly(scheme: string, netloc: string, n: string, tail: string)
    requires HostText(n) && AfterHost(tail)
    ensures IsLocal(scheme, netloc, "//" + n + tail) <==> n == "" || n == netloc
  {
    SlashHasNoScheme("//" + n + tail);
    HostExactly(n, tail);
  }

  /** A URL with a scheme only: exactly when that is the site's. */
  lemma SchemeLocalExactly(scheme: string, netloc: string, x: string, rest: string)
    requires ':' !in x && SchemeText(x) && NoSlashes(rest)
    ensures IsLocal(scheme, netloc, x + ":" + rest) <==> Lower(x) == scheme
  {
    SchemeExactly(x, rest);
    NoHost(rest);
    assert Lower(x) != "";
  }

  /** A text without either is always local; a colon makes a scheme only of what can be one. */
  lemma PathIsLocal(scheme: string, netloc: string, a: string, b: string)
    requires ':' !in a
    ensures NoSlashes(a) ==> IsLocal(scheme, netloc, a)
    ensures !SchemeText(a) && NoSlashes(a + ":" + b) ==> IsLocal(scheme, netloc, a + ":" + b)
  {
    SchemeExactly(a, b);
  }
}
