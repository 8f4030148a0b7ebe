/** Removing dot segments from a text is walking its segments with a stack. */
module DotSegments {
  import opened Url
  import opened PageUrls
  import opened UrlParts

  /** The segments, each after a slash. */
  function Slashes(segments: seq<string>): string {
    if segments == [] then "" else "/" + segments[0] + Slashes(segments[1..])
  }

  predicate NoneHasSlash(segments: seq<string>) {
    forall i :: 0 <= i < |segments| ==> '/' !in segments[i]
  }

  /**
   Where the walk leads from `done`: "." stays, ".." goes up if it can, anything else
   goes down; a final "." or ".." leaves the directory itself, with its slash.
   */
  function Walked(done: seq<string>, todo: seq<string>): seq<string>
    decreases |todo|
  {
    if todo == [] then done
    else
      var up := if done == [] then [] else done[..|done| - 1];
      var next := if todo[0] == "." then done else if todo[0] == ".." then up else done + [todo[0]];
      if |todo| == 1 && (todo[0] == "." || todo[0] == "..") then next + [""] else Walked(next, todo[1..])
  }

  lemma {:induction false} SlashesAppend(segments: seq<string>, last: string)
    ensures Slashes(segments + [last]) == Slashes(segments) + ("/" + last)
  {
    if segments == [] {
      assert [last][1..] == [];
    } else {
      assert (segments + [last])[1..] == segments[1..] + [last];
      SlashesAppend(segments[1..], last);
    }
  }

  /** Every path with a leading slash is made of segments. */
  lemma {:induction false} SegmentsOf(path: string) returns (segments: seq<string>)
    requires path == "" || path[0] == '/'
    ensures Slashes(segments) == path && NoneHasSlash(segments)
    decreases |path|
  {
    segments := [];
    if path != "" {
      var n := Segment(path);
      assert Span(path[1..], {'/'}) == n - 1;
      var rest := SegmentsOf(path[n..]);
      segments := [path[1..n]] + rest;
      forall i | 1 <= i < n ensures path[i] != '/' {
        assert path[i] == path[1..][i - 1];
      }
      assert segments[1..] == rest;
      assert "/" + path[1..n] + path[n..] == path;
    }
  }

  /** Dropping the last segment of a text drops the last of its segments. */
  lemma {:induction false} DropLast(a: string, last: string)
    requires '/' !in last
    ensures DropSegment(a + ("/" + last)) == a
    decreases |last|
  {
    var s := a + ("/" + last);
    if last == "" {
      assert s[..|s| - 1] == a;
    } else {
      var n := |last| - 1;
      assert s[|s| - 1] == last[n];
      assert s[..|s| - 1] == a + ("/" + last[..n]);
      DropLast(a, last[..n]);
    }
  }

  lemma DropTop(done: seq<string>)
    requires NoneHasSlash(done)
    ensures DropSegment(Slashes(done)) == Slashes(if done == [] then [] else done[..|done| - 1])
  {
    if done != [] {
      var n := |done| - 1;
      assert done == done[..n] + [done[n]];
      SlashesAppend(done[..n], done[n]);
      DropLast(Slashes(done[..n]), done[n]);
    }
  }

  lemma FinalSlash(output: string)
    ensures RemoveDots("/", output) == output + "/"
  {
    assert Span("/"[1..], {'/'}) == 0;
    assert "/"[..1] == "/" && "/"[1..] == "";
  }

  /** One ordinary segment moves over whole. */
  lemma MoveSegment(segment: string, rest: string, output: string)
    requires '/' !in segment && segment != "." && segment != ".." && (rest == "" || rest[0] == '/')
    ensures RemoveDots("/" + segment + rest, output) == RemoveDots(rest, output + ("/" + segment))
  {
    var input := "/" + segment + rest;
    assert input[1..] == segment + rest;
    SpanIs(input[1..], {'/'}, |segment|);
    DottedHead(segment, rest);
    RemoveDotsStep(input, output);
    assert input[..1 + |segment|] == "/" + segment && input[1 + |segment|..] == rest;
  }

  /** A text starts with a dot segment only if its first segment is one. */
  lemma DottedHead(segment: string, rest: string)
    requires '/' !in segment && (rest == "" || rest[0] == '/')
    ensures DotHead("/" + segment + rest) ==> segment == "." || segment == ".."
  {
    var input := "/" + segment + rest;
    assert |input| == 1 + |segment| + |rest|;
    assert rest != "" ==> input[1 + |segment|] == '/';
    if |segment| == 1 {
      assert input[1] == segment[0] && segment == [segment[0]];
    } else if |segment| == 2 {
      assert input[1] == segment[0] && input[2] == segment[1] && segment == [segment[0], segment[1]];
      assert segment[0] in segment && segment[1] in segment;
    } else if |segment| > 2 {
      assert input[1] == segment[0] && input[2] == segment[1] && input[3] == segment[2];
      assert segment[0] in segment && segment[1] in segment && segment[2] in segment;
    }
  }

  lemma SlashesHead(segments: seq<string>)
    ensures segments != [] ==> Slashes(segments) != "" && Slashes(segments)[0] == '/'
  {
  }

  lemma Upwards(rest: string, output: string)
    requires rest != "" && rest[0] == '/'
    ensures RemoveDots("/." + rest, output) == RemoveDots(rest, output)
    ensures RemoveDots("/.." + rest, output) == RemoveDots(rest, DropSegment(output))
  {
    StayHere(rest, output);
    GoUp(rest, output);
  }

  lemma StayHere(rest: string, output: string)
    requires rest != "" && rest[0] == '/'
    ensures RemoveDots("/." + rest, output) == RemoveDots(rest, output)
  {
    var input := "/." + rest;
    assert input[0] == '/' && |input| >= 3 && "/./" <= input && input[2..] == rest;
  }

  lemma GoUp(rest: string, output: string)
    requires rest != "" && rest[0] == '/'
    ensures RemoveDots("/.." + rest, output) == RemoveDots(rest, DropSegment(output))
  {
    var input := "/.." + rest;
    assert input[0] == '/' && |input| >= 4 && input[2] == '.' && "/../" <= input && input[3..] == rest;
  }

  /** The text algorithm of section 5.2.4 and the walk agree. */
  lemma {:induction false} RemoveDotsWalks(done: seq<string>, todo: seq<string>)
    requires NoneHasSlash(done) && NoneHasSlash(todo)
    ensures RemoveDots(Slashes(todo), Slashes(done)) == Slashes(Walked(done, todo))
    decreases |todo|
  {
    if todo != [] {
      var rest := Slashes(todo[1..]);
      SlashesHead(todo[1..]);
      DropTop(done);
      var up := if done == [] then [] else done[..|done| - 1];
      if todo[0] == "." || todo[0] == ".." {
        var next := if todo[0] == "." then done else up;
        assert "/" + "." + rest == "/." + rest && "/" + ".." + rest == "/.." + rest;
        if |todo| == 1 {
          assert Slashes(todo) == "/" + todo[0];
          FinalSlash(Slashes(next));
          SlashesAppend(next, "");
          DotsAlone(Slashes(done));
        } else {
          Upwards(rest, Slashes(done));
          RemoveDotsWalks(next, todo[1..]);
        }
      } else {
        MoveSegment(todo[0], rest, Slashes(done));
        SlashesAppend(done, todo[0]);
        RemoveDotsWalks(done + [todo[0]], todo[1..]);
      }
    }
  }

  lemma DotsAlone(output: string)
    ensures RemoveDots("/.", output) == RemoveDots("/", output)
    ensures RemoveDots("/..", output) == RemoveDots("/", DropSegment(output))
  {
    DotAlone(output);
    DotDotAlone(output);
  }

  lemma DotAlone(output: string)
    ensures RemoveDots("/.", output) == RemoveDots("/", output)
  {
    var input := "/.";
    assert input[0] == '/' && |input| == 2;
  }

  lemma DotDotAlone(output: string)
    ensures RemoveDots("/..", output) == RemoveDots("/", DropSegment(output))
  {
    var input := "/..";
    assert input[0] == '/' && |input| == 3 && input[2] == '.';
  }

  // ----- so for the addresses of a page -----

  /** A stored path with a leading slash is resolved by walking its own segments. */
  lemma AbsoluteJoin(sitePath: string, segments: seq<string>, subpath: string)
    requires NoneHasSlash(segments) && subpath == Slashes(segments) && SplitPath(subpath) && subpath != ""
    requires !DoubleSlash(subpath) && sitePath != "" && Split(sitePath).scheme == "" && Split(sitePath).netloc == ""
    ensures Join(sitePath, subpath) == Slashes(Walked([], segments))
  {
    SlashesHead(segments);
    AbsoluteReference(sitePath, subpath);
    PrintedAlone(RemoveDots(subpath, ""));
    WalkFromRoot(segments);
  }

  /** A relative one is walked from the directory of the site path. */
  lemma RelativeJoin(sitePath: string, dir: seq<string>, name: string, segments: seq<string>, subpath: string)
    requires NoneHasSlash(dir) && '/' !in name && sitePath == Slashes(dir + [name])
    requires NoneHasSlash(segments) && Slashes(segments) == "/" + subpath
    requires subpath != "" && SplitPath(subpath) && SplitScheme(subpath).0 == "" && subpath[0] != '/'
    requires SplitPath(sitePath) && !DoubleSlash(sitePath)
    ensures Join(sitePath, subpath) == Slashes(Walked([], dir + segments))
  {
    SlashesHead(dir + [name]);
    RelativeResolves(sitePath, subpath);
    MergeSegments(dir, name, subpath);
    SlashesConcat(dir, segments);
    WalkFromRoot(dir + segments);
  }

  lemma WalkFromRoot(segments: seq<string>)
    requires NoneHasSlash(segments)
    ensures RemoveDots(Slashes(segments), "") == Slashes(Walked([], segments))
  {
    RemoveDotsWalks([], segments);
  }

  /** Without schemes and hosts a relative path is merged with the site path and rid of its dots. */
  lemma RelativeResolves(sitePath: string, subpath: string)
    requires SplitPath(sitePath) && sitePath != "" && sitePath[0] == '/' && !DoubleSlash(sitePath)
    requires SplitPath(subpath) && subpath != "" && SplitScheme(subpath).0 == "" && subpath[0] != '/'
    ensures Join(sitePath, subpath) == RemoveDots(Merge(sitePath, subpath), "")
  {
    SlashHasNoScheme(sitePath);
    SplitsToItself(sitePath);
    SplitsToItself(subpath);
    ResolveRelative(sitePath, subpath);
    PrintedAlone(RemoveDots(Merge(sitePath, subpath), ""));
  }

  lemma ResolveRelative(base: string, reference: string)
    requires Split(base) == Reference("", "", base, "", "")
    requires Split(reference) == Reference("", "", reference, "", "") && reference != "" && reference[0] != '/'
    ensures Resolve(base, reference) == Reference("", "", RemoveDots(Merge(base, reference), ""), "", "")
  {
  }

  lemma SplitsToItself(path: string)
    requires SplitPath(path) && SplitScheme(path).0 == "" && !DoubleSlash(path)
    ensures Split(path) == Reference("", "", path, "", "")
  {
    SplitOfPath(path);
    LocalIsTail(path);
  }

  lemma MergeSegments(dir: seq<string>, name: string, subpath: string)
    requires '/' !in name
    ensures Merge(Slashes(dir + [name]), subpath) == Slashes(dir) + ("/" + subpath)
  {
    SlashesAppend(dir, name);
    MergeText(Slashes(dir), name, subpath);
  }

  lemma MergeText(a: string, name: string, path: string)
    requires '/' !in name
    ensures Merge(a + ("/" + name), path) == a + ("/" + path)
  {
    var base, n := a + ("/" + name), |a|;
    forall i | n < i < |base| ensures base[i] != '/' {
      assert base[i] == name[i - n - 1];
    }
    LastSlashIs(base, n);
    assert base[..n + 1] == a + "/";
  }

  lemma {:induction false} SlashesConcat(a: seq<string>, b: seq<string>)
    ensures Slashes(a + b) == Slashes(a) + Slashes(b)
  {
    if a == [] {
      assert a + b == b;
    } else {
      assert (a + b)[1..] == a[1..] + b;
      SlashesConcat(a[1..], b);
    }
  }

  // ----- references with a query, a fragment or a host of their own -----

  /** A bare query or fragment keeps the base's path, and its query unless there is a new one. */
  lemma QueryJoin(base: string, query: string, fragment: string)
    requires base != "" && query + fragment != "" && ':' !in query && ':' !in fragment && '#' !in query
    ensures var b := Split(base);
            Join(base, Marked('?', query) + Marked('#', fragment))
            == Unparse(b.scheme, b.netloc, b.path, if query == "" then b.query else query) + Marked('#', fragment)
  {
    var reference := Marked('?', query) + Marked('#', fragment);
    BareUrl("", query, fragment);
    assert "" + Marked('?', query) + Marked('#', fragment) == reference;
    assert reference != "" && reference[0] != '/';
  }

  /** An absolute path brings its own query and fragment. */
  lemma AbsoluteQueryJoin(base: string, path: string, query: string, fragment: string)
    requires base != "" && path != "" && path[0] == '/' && !DoubleSlash(path)
    requires ':' !in path && ':' !in query && ':' !in fragment && '?' !in path && '#' !in path && '#' !in query
    ensures var b := Split(base);
            Join(base, path + Marked('?', query) + Marked('#', fragment))
            == Unparse(b.scheme, b.netloc, RemoveDots(path, ""), query) + Marked('#', fragment)
  {
    var reference := path + Marked('?', query) + Marked('#', fragment);
    BareUrl(path, query, fragment);
    assert reference != "" && reference[0] == '/' && !DoubleSlash(reference);
  }

  /** A complete URL is resolved by itself. */
  lemma NamedJoin(base: string, x: string, n: string, path: string)
    requires base != "" && ':' !in x && SchemeText(x) && HostText(n) && (path == "" || path[0] == '/')
    requires '?' !in path && '#' !in path
    ensures Join(base, x + ":" + ("//" + n + path)) == Unparse(Lower(x), n, RemoveDots(path, ""), "")
  {
    WholeUrl(x, n, path, "", "");
    assert path + Marked('?', "") + Marked('#', "") == path;
    assert Lower(x) != "" && x + ":" + ("//" + n + path) != "";
  }

  /** A URL with a host only takes the scheme of the base. */
  lemma HostJoin(base: string, n: string, path: string)
    requires base != "" && HostText(n) && (path == "" || path[0] == '/') && '?' !in path && '#' !in path
    ensures Join(base, "//" + n + path) == Unparse(Split(base).scheme, n, RemoveDots(path, ""), "")
  {
    var reference := "//" + n + path;
    SlashHasNoScheme(reference);
    HostExactly(n, path);
    LocalSplits(path, "", "");
    assert path + Marked('?', "") + Marked('#', "") == path;
  }
}
