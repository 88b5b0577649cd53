/**
 Flushing inlined rows (pg_ducklake/src/pgducklake_metadata_manager.cpp).  An inlined table keeps every
 version of a row.  A flush writes all versions to a file in the order the table is read, and marks the
 ended versions as deleted by their position in a numbering of the same versions.
 */
module InlinedFlush {
  import opened Basics

  datatype Version = Version(rowId: int, begin: nat, end: Option<nat>, payload: int)

  predicate Visible(v: Version, s: nat) {
    v.begin <= s
  }

  predicate Live(v: Version, s: nat) {
    v.begin <= s && (v.end.None? || s < v.end.value)
  }

  /** The versions of a row begin at different snapshots, and at most one of them is live. */
  predicate WellFormed(table: set<Version>, s: nat) {
    forall a, b :: a in table && b in table && a != b && a.rowId == b.rowId ==>
      a.begin != b.begin && !(Live(a, s) && Live(b, s))
  }

  function VisibleIn(table: set<Version>, s: nat): set<Version> {
    set v | v in table && Visible(v, s)
  }

  function LiveIn(table: set<Version>, s: nat): set<Version> {
    set v | v in table && Live(v, s)
  }

  // ---------- reading in order ----------

  /** The rows of a query result are those of `rows`, each once. */
  ghost predicate Lists(r: seq<Version>, rows: set<Version>) {
    (forall v :: v in r <==> v in rows) && forall i, j :: 0 <= i < j < |r| ==> r[i] != r[j]
  }

  predicate Before(a: Version, b: Version) {
    a.rowId < b.rowId || (a.rowId == b.rowId && a.begin < b.begin)
  }

  predicate RowOrder(r: seq<Version>) {
    forall i, j :: 0 <= i < j < |r| ==> r[i].rowId <= r[j].rowId
  }

  predicate VersionOrder(r: seq<Version>) {
    forall i, j :: 0 <= i < j < |r| ==> !Before(r[j], r[i])
  }

  predicate StrictOrder(r: seq<Version>) {
    forall i, j :: 0 <= i < j < |r| ==> Before(r[i], r[j])
  }

  ghost predicate ReadInlinedData(table: set<Version>, s: nat, r: seq<Version>) {
    Lists(r, LiveIn(table, s)) && RowOrder(r)
  }

  ghost predicate ReadAllForFlush(table: set<Version>, s: nat, r: seq<Version>) {
    Lists(r, VisibleIn(table, s)) && VersionOrder(r)
  }

  /** The same read with the version as tie-breaker left out. */
  ghost predicate ReadAllByRowOnly(table: set<Version>, s: nat, r: seq<Version>) {
    Lists(r, VisibleIn(table, s)) && RowOrder(r)
  }

  /** The positions of the ended versions in a numbering. */
  function DeletePositions(numbering: seq<Version>, s: nat): set<nat> {
    set i: nat | i < |numbering| && !Live(numbering[i], s)
  }

  /** What a file holds after its delete positions are applied. */
  function Remaining(file: seq<Version>, deleted: set<nat>): seq<Version> {
    if file == [] then []
    else Remaining(file[..|file| - 1], deleted) + if |file| - 1 in deleted then [] else [file[|file| - 1]]
  }

  // ---------- an order without ties has one result ----------

  lemma TailHas(a: seq<Version>)
    requires a != [] && StrictOrder(a)
    ensures forall v :: v in a[1..] <==> v in a && v != a[0]
  {
    assert a == [a[0]] + a[1..];
  }

  lemma {:induction false} StrictUnique(a: seq<Version>, b: seq<Version>)
    requires StrictOrder(a) && StrictOrder(b) && forall v :: v in a <==> v in b
    ensures a == b
  {
    assert b != [] ==> b[0] in b;
    if a != [] {
      assert a[0] in b && b[0] in a;
      assert a[0] == b[0];
      TailHas(a);
      TailHas(b);
      StrictUnique(a[1..], b[1..]);
    }
  }

  lemma VersionOrderStrict(table: set<Version>, s: nat, r: seq<Version>)
    requires WellFormed(table, s) && ReadAllForFlush(table, s, r)
    ensures StrictOrder(r)
  {
    forall i, j | 0 <= i < j < |r| ensures Before(r[i], r[j]) {
      assert r[i] in r && r[j] in r;
    }
  }

  /** At most one version of a row is live, so the live read has no ties. */
  lemma RowOrderStrict(table: set<Version>, s: nat, r: seq<Version>)
    requires WellFormed(table, s) && ReadInlinedData(table, s, r)
    ensures StrictOrder(r)
  {
    forall i, j | 0 <= i < j < |r| ensures Before(r[i], r[j]) {
      assert r[i] in r && r[j] in r;
    }
  }

  /** Every order-by has a result. */
  lemma ReadExists(table: set<Version>, s: nat) returns (r: seq<Version>)
    ensures ReadAllForFlush(table, s, r)
  {
    r := SortRows(VisibleIn(table, s));
  }

  lemma {:induction false} SortRows(rows: set<Version>) returns (r: seq<Version>)
    ensures Lists(r, rows) && VersionOrder(r)
  {
    if rows == {} {
      r := [];
    } else {
      var last := Latest(rows);
      var rest := SortRows(rows - {last});
      r := rest + [last];
      forall v ensures v in r <==> v in rows { }
      forall i, j | 0 <= i < j < |r| ensures r[i] != r[j] && !Before(r[j], r[i]) {
        assert rest[i] in rest;
      }
    }
  }

  lemma {:induction false} Latest(rows: set<Version>) returns (last: Version)
    requires rows != {}
    ensures last in rows && forall v :: v in rows ==> !Before(last, v)
  {
    last :| last in rows;
    if rows != {last} {
      var other := Latest(rows - {last});
      assert forall v :: v in rows ==> v == last || v in rows - {last};
      if Before(last, other) { last := other; }
    }
  }

  // ---------- the flush keeps what a read sees ----------

  /** The live versions of a file are in strict order, wherever the ended ones are. */
  predicate LiveInOrder(file: seq<Version>, s: nat) {
    forall i, j :: 0 <= i < j < |file| && Live(file[i], s) && Live(file[j], s) ==> Before(file[i], file[j])
  }

  lemma {:induction false} RemainingLive(file: seq<Version>, s: nat, deleted: set<nat>)
    requires LiveInOrder(file, s)
    requires forall i: nat :: i < |file| ==> (i in deleted <==> !Live(file[i], s))
    ensures forall v :: v in Remaining(file, deleted) <==> v in file && Live(v, s)
    ensures StrictOrder(Remaining(file, deleted))
  {
    if file != [] {
      var front, last := file[..|file| - 1], file[|file| - 1];
      assert forall i :: 0 <= i < |front| ==> front[i] == file[i];
      RemainingLive(front, s, deleted);
      assert file == front + [last];
      var kept := Remaining(front, deleted);
      if Live(last, s) {
        forall i | 0 <= i < |kept| ensures Before(kept[i], last) {
          assert kept[i] in kept && kept[i] in front;
        }
      }
    }
  }

  /** The flush order has exactly one result: there is one, and any two are equal. */
  lemma OneFlushOrder(table: set<Version>, s: nat, a: seq<Version>, b: seq<Version>) returns (r: seq<Version>)
    requires WellFormed(table, s)
    ensures ReadAllForFlush(table, s, r)
    ensures ReadAllForFlush(table, s, a) && ReadAllForFlush(table, s, b) ==> a == b
  {
    r := ReadExists(table, s);
    if ReadAllForFlush(table, s, a) && ReadAllForFlush(table, s, b) {
      VersionOrderStrict(table, s, a);
      VersionOrderStrict(table, s, b);
      StrictUnique(a, b);
    }
  }

  /** After a flush the file holds exactly what a read of the inlined rows gives, in the same order. */
  lemma {:induction false} FlushKeepsRead(table: set<Version>, s: nat, file: seq<Version>, numbering: seq<Version>,
      live: seq<Version>)
    requires WellFormed(table, s)
    requires ReadAllForFlush(table, s, file) && ReadAllForFlush(table, s, numbering)
    requires ReadInlinedData(table, s, live)
    ensures Remaining(file, DeletePositions(numbering, s)) == live
  {
    VersionOrderStrict(table, s, file);
    var _ := OneFlushOrder(table, s, file, numbering);
    RemainingLive(file, s, DeletePositions(numbering, s));
    RowOrderStrict(table, s, live);
    StrictUnique(Remaining(file, DeletePositions(numbering, s)), live);
  }

  // ---------- without the tie-breaker ----------

  /** Some row has a live version and an ended one: it was updated since the last flush. */
  predicate HasUpdatedRow(table: set<Version>, s: nat) {
    exists v, w :: v in table && w in table && v.rowId == w.rowId && Live(v, s) && Visible(w, s) && !Live(w, s)
  }

  ghost predicate RowOnlyReadIsSafe(table: set<Version>, s: nat, numbering: seq<Version>, live: seq<Version>) {
    forall file :: ReadAllByRowOnly(table, s, file) ==> Remaining(file, DeletePositions(numbering, s)) == live
  }

  lemma {:induction false} RemainingHas(file: seq<Version>, deleted: set<nat>, i: nat)
    requires i < |file| && i !in deleted
    ensures file[i] in Remaining(file, deleted)
  {
    if i < |file| - 1 { RemainingHas(file[..|file| - 1], deleted, i); }
  }

  /** Swapping two versions of a row gives another read by row only. */
  lemma SwapKeepsRowOrder(table: set<Version>, s: nat, r: seq<Version>, i: nat, j: nat)
    requires ReadAllByRowOnly(table, s, r) && i < |r| && j < |r| && r[i].rowId == r[j].rowId
    ensures ReadAllByRowOnly(table, s, r[i := r[j]][j := r[i]])
  {
    var t := r[i := r[j]][j := r[i]];
    forall v ensures v in t <==> v in r {
      if v in r {
        var k :| 0 <= k < |r| && r[k] == v;
        assert t[if k == i then j else if k == j then i else k] == v;
      }
    }
  }

  /** Where the file has an ended version in the place of a live one, the ended version survives. */
  lemma SwapReverts(s: nat, numbering: seq<Version>, live: seq<Version>, i: nat, j: nat)
    requires i < |numbering| && j < |numbering| && Live(numbering[i], s) && !Live(numbering[j], s)
    requires numbering[j] !in live
    ensures Remaining(numbering[i := numbering[j]][j := numbering[i]], DeletePositions(numbering, s)) != live
  {
    var file := numbering[i := numbering[j]][j := numbering[i]];
    assert file[i] == numbering[j];
    RemainingHas(file, DeletePositions(numbering, s), i);
  }

  lemma UpdatedRowReverts(table: set<Version>, s: nat, numbering: seq<Version>, live: seq<Version>)
    requires WellFormed(table, s) && HasUpdatedRow(table, s)
    requires ReadAllForFlush(table, s, numbering) && ReadInlinedData(table, s, live)
    ensures !RowOnlyReadIsSafe(table, s, numbering, live)
  {
    hide WellFormed, Remaining, DeletePositions;
    var v, w :| v in table && w in table && v.rowId == w.rowId && Live(v, s) && Visible(w, s) && !Live(w, s);
    assert v in VisibleIn(table, s) && w in VisibleIn(table, s);
    assert w !in LiveIn(table, s);
    var i: nat :| i < |numbering| && numbering[i] == v;
    var j: nat :| j < |numbering| && numbering[j] == w;
    SwapKeepsRowOrder(table, s, numbering, i, j);
    SwapReverts(s, numbering, live, i, j);
  }

  lemma {:induction false} ListsMultiset(r: seq<Version>, rows: set<Version>)
    requires Lists(r, rows)
    ensures multiset(r) == multiset(rows)
  {
    if r == [] {
      assert rows == {};
    } else {
      var front, last := r[..|r| - 1], r[|r| - 1];
      assert r == front + [last];
      forall v ensures v in front <==> v in rows - {last} {
        assert v in r <==> v in front || v == last;
        assert last !in front;
      }
      ListsMultiset(front, rows - {last});
      assert rows == rows - {last} + {last};
    }
  }

  /** Reads by row only end in the same row. */
  lemma SameLastRow(a: seq<Version>, b: seq<Version>)
    requires RowOrder(a) && RowOrder(b) && multiset(a) == multiset(b) && a != []
    ensures |a| == |b| && a[|a| - 1].rowId == b[|b| - 1].rowId
  {
    assert |multiset(a)| == |a| && |multiset(b)| == |b|;
    assert a[|a| - 1] in multiset(b) && b[|b| - 1] in multiset(a);
  }

  /** Two reads by row only have the same row at every position. */
  lemma {:induction false} SameRows(a: seq<Version>, b: seq<Version>)
    requires RowOrder(a) && RowOrder(b) && multiset(a) == multiset(b)
    ensures |a| == |b| && forall i :: 0 <= i < |a| ==> a[i].rowId == b[i].rowId
    decreases |a|
  {
    hide RowOrder;
    if a == [] {
      assert |multiset(b)| == |b|;
    } else {
      SameLastRow(a, b);
      var n := |a| - 1;
      assert a[n] in multiset(b);
      var k :| 0 <= k < |b| && b[k] == a[n];
      var c := MoveLast(b, k);
      var d := MoveLast(a, n);
      CancelOne(multiset(d), multiset(c), a[n]);
      SameRows(d, c);
    }
  }

  /** Taking out the entry at `k`, with the last one moved into its place. */
  lemma MoveLast(b: seq<Version>, k: nat) returns (c: seq<Version>)
    requires k < |b| && RowOrder(b) && b[k].rowId == b[|b| - 1].rowId
    ensures |c| == |b| - 1 && RowOrder(c) && multiset(c) + multiset{b[k]} == multiset(b)
    ensures forall i :: 0 <= i < |c| ==> c[i].rowId == b[i].rowId
  {
    var n := |b| - 1;
    c := b[k := b[n]][..n];
    assert b == b[..n] + [b[n]];
    if k < n {
      assert b[..n] == b[..k] + [b[k]] + b[k + 1..n];
      assert c == b[..k] + [b[n]] + b[k + 1..n];
    } else {
      assert c == b[..n];
    }
  }

  lemma RowOnlyReadMatches(table: set<Version>, s: nat, numbering: seq<Version>, file: seq<Version>)
    requires WellFormed(table, s) && !HasUpdatedRow(table, s)
    requires ReadAllForFlush(table, s, numbering) && ReadAllByRowOnly(table, s, file)
    ensures |file| == |numbering| && forall i :: 0 <= i < |file| ==> (Live(file[i], s) <==> Live(numbering[i], s))
    ensures LiveInOrder(file, s)
  {
    ListsMultiset(file, VisibleIn(table, s));
    ListsMultiset(numbering, VisibleIn(table, s));
    SameRows(file, numbering);
    forall i | 0 <= i < |file| ensures Live(file[i], s) <==> Live(numbering[i], s) {
      assert file[i] in file && numbering[i] in numbering;
    }
    forall i, j | 0 <= i < j < |file| && Live(file[i], s) && Live(file[j], s) ensures Before(file[i], file[j]) {
      assert file[i] in file && file[j] in file;
    }
  }

  /** Leaving out the tie-breaker is safe exactly when no row has been updated since the last flush. */
  lemma RowOnlySafeIff(table: set<Version>, s: nat, numbering: seq<Version>, live: seq<Version>)
    requires WellFormed(table, s) && ReadAllForFlush(table, s, numbering) && ReadInlinedData(table, s, live)
    ensures RowOnlyReadIsSafe(table, s, numbering, live) <==> !HasUpdatedRow(table, s)
  {
    if HasUpdatedRow(table, s) {
      UpdatedRowReverts(table, s, numbering, live);
    } else {
      forall file | ReadAllByRowOnly(table, s, file)
        ensures Remaining(file, DeletePositions(numbering, s)) == live
      {
        RowOnlyReadMatches(table, s, numbering, file);
        RemainingLive(file, s, DeletePositions(numbering, s));
        RowOrderStrict(table, s, live);
        StrictUnique(Remaining(file, DeletePositions(numbering, s)), live);
      }
    }
  }
}
