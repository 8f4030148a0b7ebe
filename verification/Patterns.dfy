/**
 The part of regular expressions the date patterns use: runs of characters of a
 class, matched greedily with backtracking, anchored at both ends.
 */
module Patterns {
  import opened Options
  import opened Decimal

  datatype Class =
    | Digits10                 // \d
    | Word                     // \w
    | Alnum                    // [a-zA-Z0-9]
    | Letters                  // [a-zA-Z]
    | Seps                     // [\\\/:\.,\- ]
    | SlashDash                // [/\-]
    | SpaceT                   // [ T]
    | Sign                     // [\+\-]
    | Dot                      // . (anything but a line break)
    | One(c: char)

  predicate IsLetter(c: char) {
    'a' <= c <= 'z' || 'A' <= c <= 'Z'
  }

  predicate In(cls: Class, c: char) {
    match cls
    case Digits10 => IsDigit(c)
    case Word => IsLetter(c) || IsDigit(c) || c == '_'
    case Alnum => IsLetter(c) || IsDigit(c)
    case Letters => IsLetter(c)
    case Seps => c in {'\\', '/', ':', '.', ',', '-', ' '}
    case SlashDash => c == '/' || c == '-'
    case SpaceT => c == ' ' || c == 'T'
    case Sign => c == '+' || c == '-'
    case Dot => c != '\n'
    case One(d) => c == d
  }

  predicate AllIn(cls: Class, s: string) {
    forall i :: 0 <= i < |s| ==> In(cls, s[i])
  }

  datatype Field = Anonymous | Day | Month | Year | Hour | Minute | Second

  /** The text captured under each named field. */
  type Captures = map<Field, string>

  /** At least `lo` characters of a class, and at most `hi` if there is a bound. */
  datatype Run = Run(cls: Class, lo: nat, hi: Option<nat>, field: Field)

  /** Runs in sequence, up to the end of the text. */
  datatype Runs = End | Then(head: Run, tail: Runs)

  function Cap(r: Run, s: string): nat {
    if r.hi.Some? then r.hi.value else |s|
  }

  /** The longest prefix of `s` inside the class, no longer than `cap`. */
  function Prefix(cls: Class, s: string, cap: nat): (n: nat)
    ensures n <= |s| && n <= cap
  {
    if cap == 0 || s == "" || !In(cls, s[0]) then 0 else 1 + Prefix(cls, s[1..], cap - 1)
  }

  function Capture(field: Field, piece: string, rest: Captures): Captures {
    if field == Anonymous then rest else rest[field := piece]
  }

  /** The captures when each run in turn takes as much as the rest allows. */
  function Match(runs: Runs, s: string): Option<Captures>
    decreases runs, |s| + 1
  {
    match runs
    case End => if s == "" then Some(map[]) else None
    case Then(r, tail) => Try(r, tail, s, Prefix(r.cls, s, Cap(r, s)))
  }

  /** Takes `n` characters for the first run, or fewer if the rest then fails. */
  function Try(r: Run, tail: Runs, s: string, n: nat): Option<Captures>
    requires n <= |s|
    decreases Then(r, tail), n
  {
    if n < r.lo then None
    else match Match(tail, s[n..])
      case Some(rest) => Some(Capture(r.field, s[..n], rest))
      case None => if n == 0 then None else Try(r, tail, s, n - 1)
  }

  function Prepend(field: Field, piece: string, rest: Option<Captures>): Option<Captures> {
    match rest
    case None => None
    case Some(captures) => Some(Capture(field, piece, captures))
  }

  // ----- a match fits the text -----

  /** The pieces spell the text, and each lies in its run's class and bounds. */
  ghost predicate Fits(runs: Runs, s: string, pieces: seq<string>) {
    match runs
    case End => s == "" && pieces == []
    case Then(r, tail) =>
      && pieces != [] && pieces[0] <= s && AllIn(r.cls, pieces[0])
      && r.lo <= |pieces[0]| && (r.hi.Some? ==> |pieces[0]| <= r.hi.value)
      && Fits(tail, s[|pieces[0]|..], pieces[1..])
  }

  function CapturesOf(runs: Runs, pieces: seq<string>): Captures {
    if runs.End? || pieces == [] then map[]
    else Capture(runs.head.field, pieces[0], CapturesOf(runs.tail, pieces[1..]))
  }

  lemma {:induction false} PrefixIn(cls: Class, s: string, cap: nat)
    ensures AllIn(cls, s[..Prefix(cls, s, cap)])
  {
    if !(cap == 0 || s == "" || !In(cls, s[0])) {
      PrefixIn(cls, s[1..], cap - 1);
      var n := Prefix(cls, s, cap);
      assert forall i :: 0 < i < n ==> s[..n][i] == s[1..][..n - 1][i - 1];
    }
  }

  /** Soundness: whatever the search captures comes from a way to read the text. */
  lemma {:induction false} MatchFits(runs: Runs, s: string) returns (pieces: seq<string>)
    requires Match(runs, s).Some?
    ensures Fits(runs, s, pieces) && Match(runs, s).value == CapturesOf(runs, pieces)
    decreases runs, |s| + 1
  {
    if runs.End? {
      pieces := [];
    } else {
      PrefixIn(runs.head.cls, s, Cap(runs.head, s));
      pieces := TryFits(runs.head, runs.tail, s, Prefix(runs.head.cls, s, Cap(runs.head, s)));
    }
  }

  lemma {:induction false} TryFits(r: Run, tail: Runs, s: string, n: nat) returns (pieces: seq<string>)
    requires n <= |s| && AllIn(r.cls, s[..n]) && (r.hi.Some? ==> n <= r.hi.value)
    requires Try(r, tail, s, n).Some?
    ensures Fits(Then(r, tail), s, pieces) && Try(r, tail, s, n).value == CapturesOf(Then(r, tail), pieces)
    decreases Then(r, tail), n
  {
    if Match(tail, s[n..]).Some? {
      var rest := MatchFits(tail, s[n..]);
      pieces := [s[..n]] + rest;
      assert pieces[1..] == rest;
    } else {
      assert forall i :: 0 <= i < n - 1 ==> s[..n - 1][i] == s[..n][i];
      pieces := TryFits(r, tail, s, n - 1);
    }
  }

  lemma {:induction false} PrefixCovers(cls: Class, s: string, cap: nat, m: nat)
    requires m <= |s| && m <= cap && AllIn(cls, s[..m])
    ensures m <= Prefix(cls, s, cap)
  {
    if m > 0 {
      assert s[..m][0] == s[0];
      assert s[1..][..m - 1] == s[..m][1..];
      PrefixCovers(cls, s[1..], cap - 1, m - 1);
    }
  }

  /** Completeness: if there is a way to read the text, the search returns one. */
  lemma {:induction false} FitsMatch(runs: Runs, s: string, pieces: seq<string>)
    requires Fits(runs, s, pieces)
    ensures Match(runs, s).Some?
  {
    if runs.Then? {
      var m := |pieces[0]|;
      assert s[..m] == pieces[0];
      FitsMatch(runs.tail, s[m..], pieces[1..]);
      PrefixCovers(runs.head.cls, s, Cap(runs.head, s), m);
      TryReaches(runs.head, runs.tail, s, Prefix(runs.head.cls, s, Cap(runs.head, s)), m);
    }
  }

  lemma {:induction false} TryReaches(r: Run, tail: Runs, s: string, n: nat, m: nat)
    requires r.lo <= m <= n <= |s| && Match(tail, s[m..]).Some?
    ensures Try(r, tail, s, n).Some?
    decreases n
  {
    if m < n && Match(tail, s[n..]).None? {
      TryReaches(r, tail, s, n - 1, m);
    }
  }

  // ----- stepping through a text whose shape is known -----

  lemma {:induction false} PrefixIs(cls: Class, a: string, b: string, cap: nat)
    requires AllIn(cls, a) && |a| <= cap
    requires b == "" || !In(cls, b[0]) || |a| == cap
    ensures Prefix(cls, a + b, cap) == |a|
  {
    if a == "" {
      assert a + b == b;
    } else {
      assert (a + b)[1..] == a[1..] + b;
      PrefixIs(cls, a[1..], b, cap - 1);
    }
  }

  /** No shorter reading of the first run is possible: it is fixed, or what follows cannot start inside it. */
  ghost predicate Rigid(r: Run, tail: Runs) {
    || r.hi == Some(r.lo)
    || (tail.Then? && tail.head.lo >= 1 && forall c :: In(r.cls, c) ==> !In(tail.head.cls, c))
    || tail.End?
  }

  /** `a` is all the first run can take of `a + b`. */
  predicate Takes(r: Run, a: string, b: string) {
    && AllIn(r.cls, a) && r.lo <= |a| && (r.hi.Some? ==> |a| <= r.hi.value)
    && (b == "" || !In(r.cls, b[0]) || r.hi == Some(|a|))
  }

  /** The greedy choice stands when the rest of the text matches. */
  lemma Greedy(r: Run, tail: Runs, a: string, b: string)
    requires Takes(r, a, b) && Match(tail, b).Some?
    ensures Match(Then(r, tail), a + b) == Prepend(r.field, a, Match(tail, b))
  {
    PrefixIs(r.cls, a, b, Cap(r, a + b));
    assert (a + b)[|a|..] == b && (a + b)[..|a|] == a;
  }

  /** For a rigid run it is the only choice. */
  lemma Step(r: Run, tail: Runs, a: string, b: string)
    requires Takes(r, a, b) && Rigid(r, tail)
    ensures Match(Then(r, tail), a + b) == Prepend(r.field, a, Match(tail, b))
  {
    PrefixIs(r.cls, a, b, Cap(r, a + b));
    assert (a + b)[|a|..] == b && (a + b)[..|a|] == a;
    if Match(tail, b).None? {
      OnlyShorter(r, tail, a, b, |a|);
    }
  }

  lemma {:induction false} OnlyShorter(r: Run, tail: Runs, a: string, b: string, n: nat)
    requires AllIn(r.cls, a) && Rigid(r, tail) && n <= |a|
    requires r.hi.Some? ==> |a| <= r.hi.value
    requires Match(tail, b).None?
    ensures Try(r, tail, a + b, n).None?
    decreases n
  {
    if n >= r.lo {
      if n == |a| {
        assert (a + b)[n..] == b;
      } else {
        assert (a + b)[n..][0] == a[n];
        assert In(r.cls, a[n]);
        assert Match(tail, (a + b)[n..]).None? by {
          if tail.Then? {
            NoMatch(tail.head, tail.tail, (a + b)[n..], 0);
          }
        }
      }
      if n > 0 {
        OnlyShorter(r, tail, a, b, n - 1);
      }
    }
  }

  /** A run fails when one of the characters it cannot do without is missing or outside its class. */
  lemma NoMatch(r: Run, tail: Runs, s: string, i: nat)
    requires i < r.lo && (i >= |s| || !In(r.cls, s[i]))
    ensures Match(Then(r, tail), s).None?
  {
    PrefixStops(r.cls, s, Cap(r, s), i);
  }

  lemma {:induction false} PrefixStops(cls: Class, s: string, cap: nat, i: nat)
    requires i >= |s| || !In(cls, s[i])
    ensures Prefix(cls, s, cap) <= i
  {
    if i > 0 && s != "" && cap > 0 {
      PrefixStops(cls, s[1..], cap - 1, i - 1);
    }
  }
}
