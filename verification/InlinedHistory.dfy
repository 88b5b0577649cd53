/**
 Where the versions of an inlined table come from, and what the reads of
 pg_ducklake/src/pgducklake_metadata_manager.cpp mean in terms of it: a read at a snapshot returns the
 rows as the commits up to that snapshot left them, and so does a flush.
 */
module InlinedHistory {
  import opened Basics
  import opened InlinedFlush

  /** The rows that a snapshot changes: a new value, for an insert or an update, or none for a delete. */
  type Commit = map<int, Option<int>>

  function Apply(rows: map<int, int>, c: Commit): map<int, int> {
    map r | r in rows.Keys + c.Keys && (r in c ==> c[r].Some?) :: if r in c then c[r].value else rows[r]
  }

  /** The rows after all commits, with their values. */
  function Contents(history: seq<Commit>): map<int, int> {
    if history == [] then map[] else Apply(Contents(history[..|history| - 1]), history[|history| - 1])
  }

  /** A commit ends the current versions of the rows it changes and begins the new ones, at its own snapshot. */
  function Ended(v: Version, c: Commit, snapshot: nat): Version {
    if v.end.None? && v.rowId in c then v.(end := Some(snapshot)) else v
  }

  function Begun(c: Commit, snapshot: nat): set<Version> {
    set r | r in c && c[r].Some? :: Version(r, snapshot, None, c[r].value)
  }

  /** The inlined table; commit `i` has snapshot `i`. */
  function Table(history: seq<Commit>): set<Version> {
    if history == [] then {}
    else
      var front, c := history[..|history| - 1], history[|history| - 1];
      (set v | v in Table(front) :: Ended(v, c, |front|)) + Begun(c, |front|)
  }

  // ---------- the versions of a row follow one another ----------

  predicate Follows(a: Version, b: Version) {
    a.end.Some? && a.end.value <= b.begin
  }

  predicate Stamped(table: set<Version>, n: nat) {
    && (forall v :: v in table ==> v.begin < n && (v.end.Some? ==> v.begin < v.end.value < n))
    && forall a, b :: a in table && b in table && a != b && a.rowId == b.rowId ==> Follows(a, b) || Follows(b, a)
  }

  lemma StampedStep(table: set<Version>, c: Commit, n: nat)
    requires Stamped(table, n)
    ensures Stamped((set v | v in table :: Ended(v, c, n)) + Begun(c, n), n + 1)
  {
    var after := (set v | v in table :: Ended(v, c, n)) + Begun(c, n);
    forall a, b | a in after && b in after && a != b && a.rowId == b.rowId ensures Follows(a, b) || Follows(b, a) {
      if a !in Begun(c, n) && b !in Begun(c, n) {
        var x :| x in table && a == Ended(x, c, n);
        var y :| y in table && b == Ended(y, c, n);
        assert Follows(x, y) || Follows(y, x);
      }
    }
  }

  lemma {:induction false} TableStamped(history: seq<Commit>)
    ensures Stamped(Table(history), |history|)
  {
    if history != [] {
      var n := |history| - 1;
      TableStamped(history[..n]);
      StampedStep(Table(history[..n]), history[n], n);
    }
  }

  /** So every table that commits make is one that the flush is safe for, at every snapshot. */
  lemma {:induction false} TableWellFormed(history: seq<Commit>, s: nat)
    ensures InlinedFlush.WellFormed(Table(history), s)
  {
    TableStamped(history);
    forall a, b | a in Table(history) && b in Table(history) && a != b && a.rowId == b.rowId
      ensures a.begin != b.begin && !(Live(a, s) && Live(b, s))
    {
      assert Follows(a, b) || Follows(b, a);
    }
  }

  // ---------- what a read returns ----------

  /** The versions hold these rows, each with its value. */
  ghost predicate Holds(versions: set<Version>, rows: map<int, int>) {
    && (forall v :: v in versions ==> v.rowId in rows && rows[v.rowId] == v.payload)
    && (forall r :: r in rows ==> exists v :: v in versions && v.rowId == r)
  }

  function Current(history: seq<Commit>): set<Version> {
    set v | v in Table(history) && v.end.None?
  }

  /** The versions without an end are the current rows. */
  lemma {:induction false} CurrentHolds(history: seq<Commit>)
    ensures Holds(Current(history), Contents(history))
  {
    if history != [] {
      var n := |history| - 1;
      var front, c := history[..n], history[n];
      CurrentHolds(front);
      var before, after := Current(front), Current(history);
      forall v | v in after ensures v.rowId in Contents(history) && Contents(history)[v.rowId] == v.payload {
        if v !in Begun(c, n) {
          var x :| x in Table(front) && v == Ended(x, c, n);
          assert x in before;
        }
      }
      forall r | r in Contents(history) ensures exists v :: v in after && v.rowId == r {
        if r in c {
          assert Version(r, n, None, c[r].value) in Begun(c, n);
        } else {
          var x :| x in before && x.rowId == r;
          assert Ended(x, c, n) == x && x in after;
        }
      }
    }
  }

  /** A later commit changes nothing about an earlier snapshot. */
  lemma {:induction false} LiveEarlier(history: seq<Commit>, s: nat, rows: map<int, int>)
    requires s + 1 < |history| && Holds(LiveIn(Table(history[..|history| - 1]), s), rows)
    ensures Holds(LiveIn(Table(history), s), rows)
  {
    var n := |history| - 1;
    var front, c := history[..n], history[n];
    forall v | v in LiveIn(Table(history), s) ensures v.rowId in rows && rows[v.rowId] == v.payload {
      var x :| x in Table(front) && v == Ended(x, c, n);
      assert x in LiveIn(Table(front), s);
    }
    forall r | r in rows ensures exists v :: v in LiveIn(Table(history), s) && v.rowId == r {
      var x :| x in LiveIn(Table(front), s) && x.rowId == r;
      assert Ended(x, c, n) in LiveIn(Table(history), s);
    }
  }

  /** The versions that are live at a snapshot are the rows that the commits up to it left. */
  lemma {:induction false} LiveHolds(history: seq<Commit>, s: nat)
    requires s < |history|
    ensures Holds(LiveIn(Table(history), s), Contents(history[..s + 1]))
  {
    hide Holds;
    var n := |history| - 1;
    if s == n {
      TableStamped(history);
      CurrentHolds(history);
      assert history[..s + 1] == history;
      assert LiveIn(Table(history), s) == Current(history);
    } else {
      LiveHolds(history[..n], s);
      assert history[..n][..s + 1] == history[..s + 1];
      LiveEarlier(history, s, Contents(history[..s + 1]));
    }
  }

  /** The listed versions are these rows in the order of their ids, each once. */
  ghost predicate InOrder(r: seq<Version>, rows: map<int, int>) {
    && (forall i :: 0 <= i < |r| ==> r[i].rowId in rows && rows[r[i].rowId] == r[i].payload)
    && (forall k :: k in rows ==> exists i :: 0 <= i < |r| && r[i].rowId == k)
    && forall i, j :: 0 <= i < j < |r| ==> r[i].rowId < r[j].rowId
  }

  /** A read at a snapshot returns the rows that the commits up to it left, in the order of their ids. */
  lemma {:induction false} ReadIsContents(history: seq<Commit>, s: nat, live: seq<Version>)
    requires s < |history| && ReadInlinedData(Table(history), s, live)
    ensures InOrder(live, Contents(history[..s + 1]))
  {
    hide Table, Contents;
    var rows := Contents(history[..s + 1]);
    LiveHolds(history, s);
    TableWellFormed(history, s);
    assert forall i :: 0 <= i < |live| ==> live[i] in live;
    forall k | k in rows ensures exists i :: 0 <= i < |live| && live[i].rowId == k {
      var v :| v in LiveIn(Table(history), s) && v.rowId == k;
      assert v in live;
    }
  }

  lemma LiveReadExists(table: set<Version>, s: nat) returns (live: seq<Version>)
    ensures ReadInlinedData(table, s, live)
  {
    live := SortRows(LiveIn(table, s));
  }

  /**
   For every history of commits and every snapshot of it, a flush leaves in its file exactly the rows that
   the commits up to that snapshot left, in the order of their ids.
   */
  lemma {:induction false} FlushIsContents(history: seq<Commit>, s: nat, file: seq<Version>, numbering: seq<Version>)
    requires s < |history|
    requires ReadAllForFlush(Table(history), s, file) && ReadAllForFlush(Table(history), s, numbering)
    ensures InOrder(Remaining(file, DeletePositions(numbering, s)), Contents(history[..s + 1]))
  {
    hide InOrder, ReadInlinedData, ReadAllForFlush, Table, Remaining, DeletePositions;
    TableWellFormed(history, s);
    var live := LiveReadExists(Table(history), s);
    FlushKeepsRead(Table(history), s, file, numbering, live);
    ReadIsContents(history, s, live);
  }
}
