/** What a deletion loop over selected pages can and cannot remove. */
module Expunging {
  import opened Tables
  import opened Steps

  /** Nothing about the survivors changes, their values and schedules included, and no page appears. */
  ghost predicate Pruned(db: Db, db': Db) {
    && db'.pages.Keys <= db.pages.Keys
    && (forall p :: p in db'.pages ==> db'.pages[p] == db.pages[p])
    && (forall l :: l in db'.links <==> l in db.links && l.source in db'.pages && l.target in db'.pages)
    && db'.sites == db.sites && db'.clock == db.clock && Attached(db, db')
  }

  /** The values and schedules are those of the pages that are left. */
  ghost predicate Attached(db: Db, db': Db) {
    && (forall v :: v in db'.values <==> v in db.values && v.page in db'.pages)
    && (forall v :: v in db'.values ==> db'.values[v] == db.values[v])
    && (forall p :: p in db'.scheduled <==> p in db.scheduled && p in db'.pages)
    && (forall p :: p in db'.scheduled ==> db'.scheduled[p] == db.scheduled[p])
  }

  lemma {:induction false} ExpungePrunes(db: Db, rows: seq<nat>)
    requires Inv(db)
    ensures Pruned(db, Expunge(db, rows))
    ensures forall p :: p in db.pages && p !in rows ==> p in Expunge(db, rows).pages
  {
    if rows == [] {
      assert forall l :: l in db.links ==> LinkOk(db, l);
    } else {
      var mid := Expunge(db, rows[..|rows| - 1]);
      ExpungePrunes(db, rows[..|rows| - 1]);
      DeletePrunesMore(db, mid, rows[|rows| - 1]);
    }
  }

  lemma DeletePrunesMore(db: Db, mid: Db, p: nat)
    requires Pruned(db, mid)
    ensures Pruned(db, Delete(mid, p))
  {
  }

  /** A link between two survivors pins its target. */
  lemma LinkPins(db: Db, source: nat, target: nat)
    requires Link(source, target) in db.links
    ensures !CanBeDeleted(db, target)
  {
    assert Link(source, target) in Incoming(db, target);
  }

  /** Every member is unselected or linked from another (or the same) member. */
  ghost predicate Supported(db: Db, rows: seq<nat>, kept: set<nat>) {
    forall k :: k in kept ==> k in db.pages && (k !in rows || exists j :: j in kept && Link(j, k) in db.links)
  }

  /** Whatever the order, a supported set of pages survives as a whole. */
  lemma {:induction false} SupportedSurvive(db: Db, rows: seq<nat>, kept: set<nat>)
    requires Inv(db) && Supported(db, rows, kept)
    ensures kept <= Expunge(db, rows).pages.Keys
  {
    if rows != [] {
      var n := |rows| - 1;
      var mid := Expunge(db, rows[..n]);
      SupportedSurvive(db, rows[..n], kept);
      ExpungePrunes(db, rows[..n]);
      if rows[n] in kept {
        assert rows[n] in rows;
        var j :| j in kept && Link(j, rows[n]) in db.links;
        LinkPins(mid, j, rows[n]);
      }
    }
  }

  /** Each page of the sequence links to the next one. */
  ghost predicate Chain(db: Db, path: seq<nat>) {
    forall i :: 0 <= i < |path| - 1 ==> Link(path[i], path[i + 1]) in db.links
  }

  /** A page on a link cycle is never deleted; a page that links to itself is one. */
  lemma CyclesSurvive(db: Db, rows: seq<nat>, cycle: seq<nat>)
    requires Inv(db) && cycle != [] && Chain(db, cycle + [cycle[0]])
    ensures forall i :: 0 <= i < |cycle| ==> cycle[i] in Expunge(db, rows).pages
  {
    var loop := cycle + [cycle[0]];
    var kept := set k | k in cycle;
    forall k | k in kept ensures k in db.pages && exists j :: j in kept && Link(j, k) in db.links {
      var i :| 0 <= i < |cycle| && cycle[i] == k;
      var before := if i == 0 then |cycle| - 1 else i - 1;
      assert loop[before + 1] == k && loop[before] in kept;
      assert Link(loop[before], k) in db.links;
      assert LinkOk(db, Link(loop[before], k));
    }
    SupportedSurvive(db, rows, kept);
    assert forall i :: 0 <= i < |cycle| ==> cycle[i] in kept;
  }

  /** A page that links lead to from an unselected page is never deleted. */
  lemma ReachedSurvive(db: Db, rows: seq<nat>, path: seq<nat>)
    requires Inv(db) && path != [] && Chain(db, path)
    requires path[0] in db.pages && path[0] !in rows
    ensures forall i :: 0 <= i < |path| ==> path[i] in Expunge(db, rows).pages
  {
    var kept := set k | k in path;
    forall k | k in kept ensures k in db.pages && (k !in rows || exists j :: j in kept && Link(j, k) in db.links) {
      var i :| 0 <= i < |path| && path[i] == k;
      if i > 0 {
        assert Link(path[i - 1], path[i - 1 + 1]) in db.links;
        assert path[i - 1] in kept && LinkOk(db, Link(path[i - 1], k));
      }
    }
    SupportedSurvive(db, rows, kept);
    assert forall i :: 0 <= i < |path| ==> path[i] in kept;
  }

  /** Selected pages that nothing linked to from the start are always deleted. */
  lemma {:induction false} UnlinkedAreDeleted(db: Db, rows: seq<nat>, p: nat)
    requires Inv(db) && p in rows && CanBeDeleted(db, p)
    ensures p !in Expunge(db, rows).pages
  {
    var n := |rows| - 1;
    if rows[n] == p {
      ExpungePrunes(db, rows[..n]);
      assert Incoming(Expunge(db, rows[..n]), p) <= Incoming(db, p);
      assert Incoming(db, p) == {};
    } else {
      UnlinkedAreDeleted(db, rows[..n], p);
    }
  }

  /** Every survivor keeps exactly its outgoing links. */
  lemma {:induction false} SurvivorsKeepLinks(db: Db, rows: seq<nat>, q: nat)
    requires q in Expunge(db, rows).pages
    ensures Outgoing(Expunge(db, rows), q) == Outgoing(db, q)
  {
    if rows != [] {
      var n := |rows| - 1;
      var mid := Expunge(db, rows[..n]);
      SurvivorsKeepLinks(db, rows[..n], q);
      if CanBeDeleted(mid, rows[n]) {
        forall x ensures x in Outgoing(mid, q) <==> x in Outgoing(Delete(mid, rows[n]), q) {
          if x in Outgoing(mid, q) {
            assert Link(q, x) in mid.links;
            assert Incoming(mid, rows[n]) == {} && Link(q, x) !in Incoming(mid, rows[n]);
            assert Link(q, x) in Delete(mid, rows[n]).links;
          }
        }
      }
    }
  }

  // ----- exactly what the given order removes -----

  lemma NoneLeftIncoming(db: Db, db': Db, p: nat)
    requires Pruned(db, db') && p in db'.pages
    ensures CanBeDeleted(db', p) <==> forall l :: l in Incoming(db, p) ==> l.source !in db'.pages
  {
    if CanBeDeleted(db', p) {
      assert Incoming(db', p) == {};
      forall l | l in Incoming(db, p) ensures l.source !in db'.pages {
        assert l !in Incoming(db', p);
      }
    } else {
      var l :| l in Incoming(db', p);
      assert l in Incoming(db, p) && l.source in db'.pages;
    }
  }

  /** Later rows have no say in what happened to row `i`. */
  lemma {:induction false} LaterRowsSpare(db: Db, rows: seq<nat>, i: nat, n: nat)
    requires Selection(db, rows) && i < n <= |rows|
    ensures rows[i] in Expunge(db, rows[..n]).pages <==> rows[i] in Expunge(db, rows[..i + 1]).pages
  {
    if i + 1 < n {
      LaterRowsSpare(db, rows, i, n - 1);
      assert rows[..n][..n - 1] == rows[..n - 1] && rows[..n][n - 1] == rows[n - 1];
    }
  }

  /** A row is deleted exactly when, at its turn, every page that linked to it is gone. */
  lemma DeletedExactly(db: Db, rows: seq<nat>, i: nat)
    requires Inv(db) && Selection(db, rows) && i < |rows|
    ensures rows[i] !in Expunge(db, rows).pages
            <==> forall l :: l in Incoming(db, rows[i]) ==> l.source !in Expunge(db, rows[..i]).pages
  {
    LaterRowsSpare(db, rows, i, |rows|);
    assert rows[..|rows|] == rows && rows[..i + 1] == rows[..i] + [rows[i]];
    LastDeletedExactly(db, rows[..i], rows[i]);
  }

  lemma LastDeletedExactly(db: Db, rows: seq<nat>, p: nat)
    requires Inv(db) && p in db.pages && p !in rows
    ensures p !in Expunge(db, rows + [p]).pages
            <==> forall l :: l in Incoming(db, p) ==> l.source !in Expunge(db, rows).pages
  {
    ExpungePrunes(db, rows);
    NoneLeftIncoming(db, Expunge(db, rows), p);
    assert (rows + [p])[..|rows|] == rows;
  }

  // ----- how much some order can remove -----

  lemma {:induction false} ExpungeFirst(db: Db, p: nat, rows: seq<nat>)
    ensures Expunge(db, [p] + rows) == Expunge(Delete(db, p), rows)
  {
    if rows == [] {
      assert [p] + rows == [p] && [p][..0] == [];
    } else {
      var n := |rows| - 1;
      ExpungeFirst(db, p, rows[..n]);
      assert ([p] + rows)[..|rows|] == [p] + rows[..n];
    }
  }

  /** If no selected page can be deleted now, no order deletes any. */
  lemma {:induction false} NothingToDelete(db: Db, rows: seq<nat>)
    requires forall p :: p in rows ==> !CanBeDeleted(db, p)
    ensures Expunge(db, rows) == db
  {
    if rows != [] {
      NothingToDelete(db, rows[..|rows| - 1]);
    }
  }

  lemma {:induction false} SomeOrder(ids: set<nat>) returns (rows: seq<nat>)
    ensures forall p :: p in rows <==> p in ids
    ensures forall i, j :: 0 <= i < j < |rows| ==> rows[i] != rows[j]
  {
    rows := [];
    if ids != {} {
      var p :| p in ids;
      var rest := SomeOrder(ids - {p});
      rows := [p] + rest;
    }
  }

  /** Deleting a deletable page first only adds to what ends up unsupported. */
  lemma SupportedAfterFirst(db: Db, p: nat, rest: seq<nat>, kept: set<nat>)
    requires CanBeDeleted(db, p) && kept <= Delete(db, p).pages.Keys
    requires Supported(Delete(db, p), rest, kept)
    ensures Supported(db, [p] + rest, kept)
  {
    forall k | k in kept && k in [p] + rest ensures exists j :: j in kept && Link(j, k) in db.links {
      assert k in rest;
      var j :| j in kept && Link(j, k) in Delete(db, p).links;
    }
  }

  lemma SelectionFirst(db: Db, p: nat, ids: set<nat>, rest: seq<nat>)
    requires p in ids && ids <= db.pages.Keys
    requires Selection(Delete(db, p), rest) && forall q :: q in rest <==> q in ids - {p}
    ensures Selection(db, [p] + rest) && forall q :: q in [p] + rest <==> q in ids
  {
    var rows := [p] + rest;
    forall i | 0 < i < |rows| ensures rows[i] == rest[i - 1] && rows[i] in ids - {p} {
    }
  }

  lemma UndeletableAreSupported(db: Db, rows: seq<nat>)
    requires Inv(db) && forall p :: p in rows ==> !CanBeDeleted(db, p)
    ensures Supported(db, rows, db.pages.Keys)
  {
    forall k | k in db.pages && k in rows ensures exists j :: j in db.pages && Link(j, k) in db.links {
      assert Incoming(db, k) != {};
      var l :| l in Incoming(db, k);
      assert LinkOk(db, l) && l == Link(l.source, k);
    }
  }

  /**
   Some order of any selected pages leaves only a supported set.  Since every order
   keeps all supported sets, that order removes exactly the pages in none of them.
   */
  lemma {:induction false} BestOrder(db: Db, ids: set<nat>) returns (rows: seq<nat>)
    requires Inv(db) && ids <= db.pages.Keys
    ensures Selection(db, rows) && forall p :: p in rows <==> p in ids
    ensures Supported(db, rows, Expunge(db, rows).pages.Keys)
    decreases |ids|
  {
    if p :| p in ids && CanBeDeleted(db, p) {
      var smaller := Delete(db, p);
      DeletePagesKeepsInv(db, {p});
      var rest := BestOrder(smaller, ids - {p});
      rows := [p] + rest;
      SelectionFirst(db, p, ids, rest);
      ExpungeFirst(db, p, rest);
      ExpungePrunes(smaller, rest);
      SupportedAfterFirst(db, p, rest, Expunge(smaller, rest).pages.Keys);
    } else {
      rows := SomeOrder(ids);
      NothingToDelete(db, rows);
      UndeletableAreSupported(db, rows);
    }
  }

  /** The pages that the best order deletes are exactly those in no supported set. */
  lemma DeletableExactly(db: Db, ids: set<nat>) returns (rows: seq<nat>)
    requires Inv(db) && ids <= db.pages.Keys
    ensures Selection(db, rows) && forall p :: p in rows <==> p in ids
    ensures forall p :: p in db.pages ==>
              (p !in Expunge(db, rows).pages <==> !exists kept :: p in kept && Supported(db, rows, kept))
  {
    rows := BestOrder(db, ids);
    var survivors := Expunge(db, rows).pages.Keys;
    forall p | p in db.pages
      ensures p !in survivors <==> !exists kept :: p in kept && Supported(db, rows, kept)
    {
      if p in survivors {
        assert p in survivors && Supported(db, rows, survivors);
      } else if kept :| p in kept && Supported(db, rows, kept) {
        SupportedSurvive(db, rows, kept);
      }
    }
  }
}
