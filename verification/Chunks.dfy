/** Cutting texts and sequences into pieces. */
module Chunks {
  import opened Numbers

  function Concat<T>(parts: seq<seq<T>>): seq<T> {
    if parts == [] then [] else parts[0] + Concat(parts[1..])
  }

  lemma {:induction false} ConcatAppend<T>(parts: seq<seq<T>>, last: seq<T>)
    ensures Concat(parts + [last]) == Concat(parts) + last
  {
    if parts == [] {
      assert [last][1..] == [];
    } else {
      assert (parts + [last])[1..] == parts[1..] + [last];
      ConcatAppend(parts[1..], last);
    }
  }

  // ----- text fragments -----

  /** `str.find` for one character, from a starting index; -1 when there is none. */
  function Find(s: string, c: char, start: nat): (i: int)
    ensures i == -1 || start <= i < |s|
    decreases |s| - start
  {
    if start >= |s| then -1 else if s[start] == c then start else Find(s, c, start + 1)
  }

  lemma {:induction false} FindIsFirst(s: string, c: char, start: nat)
    ensures Find(s, c, start) != -1 ==> s[Find(s, c, start)] == c
    ensures forall j :: start <= j < |s| && (Find(s, c, start) == -1 || j < Find(s, c, start)) ==> s[j] != c
    decreases |s| - start
  {
    if start < |s| && s[start] != c {
      FindIsFirst(s, c, start + 1);
    }
  }

  /** Where a text longer than `max` is cut. */
  function Cut(text: string, mean: nat, max: nat): (i: nat)
    requires |text| > max
    ensures i <= max
  {
    var newline := Find(text, '\n', mean);
    var i := if newline == -1 || newline > max then Find(text, ' ', mean) else newline;
    if i == -1 || i > max then max else i
  }

  /** `i` is the first `c` of the text between the two bounds, both included. */
  predicate FirstWithin(text: string, c: char, mean: nat, max: nat, i: nat) {
    mean <= i <= max && i < |text| && text[i] == c && forall j :: mean <= j < i ==> text[j] != c
  }

  predicate NoneWithin(text: string, c: char, mean: nat, max: nat) {
    forall j :: mean <= j <= max && j < |text| ==> text[j] != c
  }

  /** The cut falls at the first line break in the window, else at the first space there, else at its end. */
  predicate CutsAt(text: string, mean: nat, max: nat, i: nat) {
    || FirstWithin(text, '\n', mean, max, i)
    || (NoneWithin(text, '\n', mean, max) && FirstWithin(text, ' ', mean, max, i))
    || (NoneWithin(text, '\n', mean, max) && NoneWithin(text, ' ', mean, max) && i == max)
  }

  lemma CutPrefersBreaks(text: string, mean: nat, max: nat)
    requires |text| > max
    ensures CutsAt(text, mean, max, Cut(text, mean, max))
  {
    FindIsFirst(text, '\n', mean);
    FindIsFirst(text, ' ', mean);
  }

  lemma OneCut(text: string, mean: nat, max: nat, i: nat, j: nat)
    requires CutsAt(text, mean, max, i) && CutsAt(text, mean, max, j)
    ensures i == j
  {
  }

  /** Every cut makes progress, on every text, exactly when both sizes are positive. */
  lemma ProgressExactly(mean: nat, max: nat)
    ensures (forall text: string :: |text| > max ==> Cut(text, mean, max) > 0) <==> mean >= 1 && max >= 1
  {
    if mean >= 1 && max >= 1 {
      forall text: string | |text| > max ensures Cut(text, mean, max) > 0 {
      }
    } else {
      var text := seq(max + 1, i => '\n');
      assert Cut(text, mean, max) == 0;
    }
  }

  function Fragments(text: string, mean: nat, max: nat): seq<string>
    requires mean >= 1 && max >= 1
    decreases |text|
  {
    if text == "" then []
    else if |text| <= max then [text]
    else [text[..Cut(text, mean, max)]] + Fragments(text[Cut(text, mean, max)..], mean, max)
  }

  /** The fragments spell the text; each has at most `max` characters, and all but the last at least `mean`. */
  lemma {:induction false} FragmentsReassemble(text: string, mean: nat, max: nat)
    requires mean >= 1 && max >= 1
    ensures var parts := Fragments(text, mean, max);
            && Concat(parts) == text
            && (forall i :: 0 <= i < |parts| ==> 1 <= |parts[i]| <= max)
            && (forall i :: 0 <= i < |parts| - 1 ==> |parts[i]| >= Min(mean, max))
    decreases |text|
  {
    var parts := Fragments(text, mean, max);
    if text == "" {
    } else if |text| <= max {
      assert Concat([text]) == text + Concat([text][1..]);
    } else {
      var i := Cut(text, mean, max);
      FragmentsReassemble(text[i..], mean, max);
      assert text == text[..i] + text[i..];
      assert parts[1..] == Fragments(text[i..], mean, max);
    }
  }

  /**
   What the fragments are, without saying how they are found: while more than `max`
   characters are left, the next part ends at the first line break between the two
   sizes, else at the first space there, else after `max`; the rest is the last part.
   */
  ghost predicate WellCut(text: string, parts: seq<string>, mean: nat, max: nat) {
    && Concat(parts) == text && (text == "" ==> parts == [])
    && (forall i :: 0 <= i < |parts| - 1 ==>
          |Concat(parts[i..])| > max && CutsAt(Concat(parts[i..]), mean, max, |parts[i]|))
    && (parts != [] ==> |parts[|parts| - 1]| <= max)
  }

  /** That is what they are, and it leaves no choice. */
  lemma FragmentsExactly(text: string, parts: seq<string>, mean: nat, max: nat)
    requires mean >= 1 && max >= 1
    ensures parts == Fragments(text, mean, max) <==> WellCut(text, parts, mean, max)
  {
    FragmentsAreWellCut(text, mean, max);
    if WellCut(text, parts, mean, max) {
      WellCutIsUnique(text, parts, mean, max);
    }
  }

  /** A text is left whole exactly when it is not empty and fits. */
  lemma WholeExactly(text: string, mean: nat, max: nat)
    requires mean >= 1 && max >= 1
    ensures Fragments(text, mean, max) == [text] <==> 0 < |text| <= max
    ensures |Fragments(text, mean, max)| == 1 <==> 0 < |text| <= max
  {
    if |text| > max {
      var i := Cut(text, mean, max);
      assert text[i..] != "" && |Fragments(text[i..], mean, max)| >= 1;
    }
  }

  lemma {:induction false} FragmentsAreWellCut(text: string, mean: nat, max: nat)
    requires mean >= 1 && max >= 1
    ensures WellCut(text, Fragments(text, mean, max), mean, max)
    decreases |text|
  {
    var parts := Fragments(text, mean, max);
    FragmentsReassemble(text, mean, max);
    if |text| > max {
      var i := Cut(text, mean, max);
      CutPrefersBreaks(text, mean, max);
      FragmentsAreWellCut(text[i..], mean, max);
      assert parts[0..] == parts && parts[1..] == Fragments(text[i..], mean, max);
      forall k | 0 <= k < |parts| - 1
        ensures |Concat(parts[k..])| > max && CutsAt(Concat(parts[k..]), mean, max, |parts[k]|)
      {
        if k > 0 { assert parts[k..] == parts[1..][k - 1..] && parts[k] == parts[1..][k - 1]; }
      }
    }
  }

  lemma {:induction false} WellCutIsUnique(text: string, parts: seq<string>, mean: nat, max: nat)
    requires mean >= 1 && max >= 1 && WellCut(text, parts, mean, max)
    ensures parts == Fragments(text, mean, max)
    decreases |parts|
  {
    if |parts| == 1 {
      OnePart(text, parts);
      WholeExactly(text, mean, max);
    } else if |parts| > 1 {
      assert parts[0..] == parts && |text| > max;
      CutPrefersBreaks(text, mean, max);
      OneCut(text, mean, max, Cut(text, mean, max), |parts[0]|);
      assert text == parts[0] + Concat(parts[1..]);
      assert text[..|parts[0]|] == parts[0] && text[|parts[0]|..] == Concat(parts[1..]);
      RestIsWellCut(text, parts, mean, max);
      WellCutIsUnique(Concat(parts[1..]), parts[1..], mean, max);
    }
  }

  lemma OnePart(text: string, parts: seq<string>)
    requires |parts| == 1 && Concat(parts) == text
    ensures parts == [text]
  {
    assert parts[1..] == [] && Concat(parts[1..]) == [];
    assert text == parts[0] + [] == parts[0] && parts == [parts[0]];
  }

  lemma RestIsWellCut(text: string, parts: seq<string>, mean: nat, max: nat)
    requires mean >= 1 && max >= 1 && WellCut(text, parts, mean, max) && |parts| > 1
    requires |parts[0]| <= max && |text| > max && text == parts[0] + Concat(parts[1..])
    ensures WellCut(Concat(parts[1..]), parts[1..], mean, max)
  {
    var rest := parts[1..];
    forall k | 0 <= k < |rest| - 1
      ensures |Concat(rest[k..])| > max && CutsAt(Concat(rest[k..]), mean, max, |rest[k]|)
    {
      assert rest[k..] == parts[k + 1..] && rest[k] == parts[k + 1];
    }
    assert Concat(rest) != "";
  }

  /** So the number of fragments is bounded on both sides by the length. */
  lemma {:induction false} FragmentCount(text: string, mean: nat, max: nat)
    requires mean >= 1 && max >= 1
    ensures var k := |Fragments(text, mean, max)|;
            && |text| <= k * max
            && (k == 0 <==> text == "")
            && (k >= 1 ==> (k - 1) * Min(mean, max) < |text|)
    decreases |text|
  {
    if |text| > max {
      var i := Cut(text, mean, max);
      FragmentCount(text[i..], mean, max);
      var k := |Fragments(text[i..], mean, max)|;
      assert |Fragments(text, mean, max)| == k + 1;
      assert Min(mean, max) <= i;
      OneMore(k, max);
      OneMore(k - 1, Min(mean, max));
    } else if text != "" {
      assert |Fragments(text, mean, max)| == 1;
    }
  }

  lemma OneMore(k: int, size: int)
    ensures (k + 1) * size == k * size + size
  {
  }

  lemma FragmentsCut(done: seq<string>, rest: string, mean: nat, max: nat)
    requires mean >= 1 && max >= 1 && |rest| > max
    ensures var i := Cut(rest, mean, max);
            0 < i && done + Fragments(rest, mean, max) == (done + [rest[..i]]) + Fragments(rest[i..], mean, max)
  {
  }

  /** `text_as_fragments`, collecting what it yields. */
  method TextAsFragments(text: string, mean: nat := 3000, max: nat := 4000) returns (fragments: seq<string>)
    requires mean >= 1 && max >= 1
    ensures fragments == Fragments(text, mean, max)
    ensures WellCut(text, fragments, mean, max)
  {
    fragments := [];
    var rest := text;
    while rest != ""
      invariant fragments + Fragments(rest, mean, max) == Fragments(text, mean, max)
      decreases |rest|
    {
      if |rest| <= max {
        fragments := fragments + [rest];
        break;
      }
      var idx := Find(rest, '\n', mean);
      if idx == -1 || idx > max {
        idx := Find(rest, ' ', mean);
      }
      if idx == -1 || idx > max {
        idx := max;
      }
      FragmentsCut(fragments, rest, mean, max);
      fragments := fragments + [rest[0..idx]];
      rest := rest[idx..];
    }
    FragmentsExactly(text, fragments, mean, max);
  }

  // ----- batches -----

  function Batches<T>(items: seq<T>, size: nat): seq<seq<T>>
    requires size >= 1
    decreases |items|
  {
    if items == [] then []
    else if |items| <= size then [items]
    else [items[..size]] + Batches(items[size..], size)
  }

  /**
   The batches spell the sequence; all but the last are full, the last is not empty,
   and there are as many as the length divided by the size, rounded up.
   */
  lemma {:induction false} BatchesReassemble<T>(items: seq<T>, size: nat)
    requires size >= 1
    ensures var parts := Batches(items, size);
            && Concat(parts) == items
            && (forall i :: 0 <= i < |parts| - 1 ==> |parts[i]| == size)
            && (parts != [] ==> 1 <= |parts[|parts| - 1]| <= size)
            && (|parts| - 1) * size < |items| <= |parts| * size
    decreases |items|
  {
    var parts := Batches(items, size);
    if items == [] {
      assert parts == [] && (|parts| - 1) * size < 0;
    } else if |items| <= size {
      assert Concat([items]) == items + Concat([items][1..]);
    } else {
      BatchesReassemble(items[size..], size);
      assert items == items[..size] + items[size..];
      assert parts[1..] == Batches(items[size..], size);
      OneMore(|parts| - 1, size);
      OneMore(|parts| - 2, size);
    }
  }

  /** Full batches, the last one not empty: this leaves no choice either. */
  ghost predicate WellBatched<T>(items: seq<T>, parts: seq<seq<T>>, size: nat) {
    && Concat(parts) == items
    && (forall i :: 0 <= i < |parts| - 1 ==> |parts[i]| == size)
    && (parts != [] ==> 1 <= |parts[|parts| - 1]| <= size)
  }

  lemma BatchesExactly<T>(items: seq<T>, parts: seq<seq<T>>, size: nat)
    requires size >= 1
    ensures parts == Batches(items, size) <==> WellBatched(items, parts, size)
  {
    BatchesReassemble(items, size);
    if WellBatched(items, parts, size) {
      WellBatchedIsUnique(items, parts, size);
    }
  }

  lemma {:induction false} WellBatchedIsUnique<T>(items: seq<T>, parts: seq<seq<T>>, size: nat)
    requires size >= 1 && WellBatched(items, parts, size)
    ensures parts == Batches(items, size)
    decreases |parts|
  {
    if |parts| == 1 {
      assert parts[1..] == [];
      assert items == parts[0];
    } else if |parts| > 1 {
      var rest := parts[1..];
      assert items == parts[0] + Concat(rest);
      assert forall k :: 0 <= k < |rest| ==> rest[k] == parts[k + 1];
      WellBatchedIsUnique(Concat(rest), rest, size);
      LastIsNotEmpty(rest);
      assert items[..size] == parts[0] && items[size..] == Concat(rest);
    }
  }

  lemma {:induction false} LastIsNotEmpty<T>(parts: seq<seq<T>>)
    requires parts != [] && parts[|parts| - 1] != []
    ensures Concat(parts) != []
  {
    if |parts| > 1 {
      LastIsNotEmpty(parts[1..]);
    }
  }

  /** A batch followed by the rest. */
  lemma {:induction false} BatchesSplit<T>(done: seq<T>, rest: seq<T>, size: nat, k: nat)
    requires size >= 1 && |done| == k * size
    ensures Batches(done + rest, size) == Batches(done, size) + Batches(rest, size)
    decreases k
  {
    if k == 0 {
      assert done + rest == rest;
    } else {
      assert |done| == (k - 1) * size + size;
      if rest == [] {
        assert done + rest == done;
      } else {
        assert (done + rest)[..size] == done[..size];
        assert (done + rest)[size..] == done[size..] + rest;
        BatchesSplit(done[size..], rest, size, k - 1);
        if |done| == size {
          assert done[size..] == [] && done[..size] == done;
        }
      }
    }
  }

  lemma BatchesExtend<T>(items: seq<T>, start: nat, next: nat, size: nat, k: nat)
    requires size >= 1 && start == k * size && start <= next <= |items| && next - start <= size
    ensures Batches(items[..next], size)
         == Batches(items[..start], size) + (if next == start then [] else [items[start..next]])
  {
    BatchesSplit(items[..start], items[start..next], size, k);
    assert items[..start] + items[start..next] == items[..next];
  }

  /** One round of the loop: the items it takes, and whether they ran out on the way. */
  function Round<T>(rest: seq<T>, size: int): (seq<T>, bool) {
    if size <= 0 then ([], false) else (rest[..Min(size, |rest|)], |rest| < size)
  }

  /** Every round of every sequence takes an item or is the last, exactly when the size is positive. */
  lemma BatchProgressExactly(size: int)
    ensures (forall rest: seq<int> :: Round(rest, size).0 != [] || Round(rest, size).1) <==> size >= 1
  {
    if size >= 1 {
      forall rest: seq<int> ensures Round(rest, size).0 != [] || Round(rest, size).1 {
      }
    } else {
      var rest: seq<int> := [];
      assert Round(rest, size).0 == [] && !Round(rest, size).1;
    }
  }

  /** The inner loop: a round that starts at position `start` of the iterator. */
  method TakeRound<T>(items: seq<T>, start: nat, size: nat) returns (chunk: seq<T>, full: bool)
    requires size >= 1 && start <= |items|
    ensures (chunk, !full) == Round(items[start..], size)
  {
    chunk, full := [], true;
    var i := 0;
    while i < size && full
      invariant i <= size && start + i <= |items|
      invariant chunk == items[start..start + i]
      invariant !full ==> start + i == |items| && i < size
      decreases size - i, full
    {
      if start + i == |items| {
        full := false;
      } else {
        chunk := chunk + [items[start + i]];
        i := i + 1;
      }
    }
    assert items[start..][..i] == items[start..start + i];
  }

  /** `batch`, collecting what it yields; `next` is the position of the iterator. */
  method Batch<T>(items: seq<T>, size: nat := 2) returns (batches: seq<seq<T>>)
    requires size >= 1
    ensures batches == Batches(items, size)
    ensures WellBatched(items, batches, size)
  {
    BatchesReassemble(items, size);
    assert items[..|items|] == items;
    batches := [];
    var next := 0;
    ghost var k := 0;
    while true
      invariant next <= |items| && next == k * size
      invariant batches == Batches(items[..next], size)
      decreases |items| - next
    {
      var chunk, full := TakeRound(items, next, size);
      RoundIsNext(items, next, size);
      BatchesExtend(items, next, next + |chunk|, size, k);
      if chunk != [] {
        batches := batches + [chunk];
      }
      next := next + |chunk|;
      if !full {
        return;
      }
      OneMore(k, size);
      k := k + 1;
    }
  }

  lemma RoundIsNext<T>(items: seq<T>, start: nat, size: nat)
    requires size >= 1 && start <= |items|
    ensures var (chunk, over) := Round(items[start..], size);
            && start + |chunk| <= |items| && chunk == items[start..start + |chunk|]
            && if over then start + |chunk| == |items| && |chunk| < size else |chunk| == size
  {
  }
}
