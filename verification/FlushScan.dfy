/**
 The flush read of pg_ducklake/src/pgducklake_metadata_manager.cpp is itself an ORDER BY query over a
 PostgreSQL table, so its sort may move into the scan.  Whether a flush keeps what a read sees then
 depends on how that scan is read.
 */
module FlushScan {
  import opened Basics
  import opened TupleStreams
  import opened Sorting
  import opened OrderPushdown
  import opened LimitedScan
  import opened InlinedFlush

  /** A version as the scanned columns row_id, begin_snapshot and end_snapshot, and the data. */
  function Encode(v: Version): Row {
    [Val(v.rowId), Val(v.begin), if v.end.None? then Null else Val(v.end.value), Val(v.payload)]
  }

  function Encoded(vs: seq<Version>): (rows: seq<Row>)
    ensures |rows| == |vs| && forall i :: 0 <= i < |vs| ==> rows[i] == Encode(vs[i])
  {
    seq(|vs|, i requires 0 <= i < |vs| => Encode(vs[i]))
  }

  /** ORDER BY row_id, begin_snapshot over the scan. */
  function FlushPlan(s: Scan): Plan {
    Order([OrderNode(Ref(0), OrderDefault, NullsDefault), OrderNode(Ref(1), OrderDefault, NullsDefault)], Get(s))
  }

  /** A scan of all columns of an inlined table, with nothing pushed into it yet. */
  predicate PlainScan(s: Scan) {
    s.isPostgres && s.projectionIds == [] && s.orderBys == [] && s.limit.None? && s.offset == 0
  }

  /** Both engines order integers as integers. */
  ghost predicate Integers(setup: Setup, s: Scan) {
    SameOrder(NATURAL, setup.rank) && OneOrder(setup.rank, s.columnIds)
  }

  /** A flush of the versions that lie in the table as `heap` may write the file. */
  ghost predicate MayWrite(setup: Setup, s: Scan, supports: seq<OrderSpec> -> bool,
                           heap: seq<Version>, file: seq<Version>)
  {
    Allowed(TryPushdownOrder(FlushPlan(s), supports), Database(_ => Encoded(heap), setup), Encoded(file))
  }

  // ---------- files are rearranged tables ----------

  lemma TakeOut(vs: seq<Version>, k: nat)
    requires k < |vs|
    ensures multiset(Encoded(vs)) == multiset(Encoded(Without(vs, k))) + multiset{Encode(vs[k])}
    ensures multiset(vs) == multiset(Without(vs, k)) + multiset{vs[k]}
  {
    hide Encode;
    RemoveAt(Encoded(vs), k);
    assert Encoded(Without(vs, k)) == Without(Encoded(vs), k);
    assert vs == vs[..k] + [vs[k]] + vs[k + 1..];
  }

  lemma FindEncoded(v: Version, b: seq<Version>) returns (k: nat)
    requires Encode(v) in multiset(Encoded(b))
    ensures k < |b| && b[k] == v
  {
    assert Encode(v) in Encoded(b);
    k :| k < |b| && Encoded(b)[k] == Encode(v);
    var x, y := Encode(v), Encode(b[k]);
    assert x[0] == y[0] && x[1] == y[1] && x[2] == y[2] && x[3] == y[3];
  }

  lemma {:induction false} EncodedInjective(a: seq<Version>, b: seq<Version>)
    requires multiset(Encoded(a)) == multiset(Encoded(b))
    ensures multiset(a) == multiset(b)
    decreases |a|
  {
    hide Encode, Encoded, Without;
    if a == [] {
      assert |b| == |Encoded(b)| == |multiset(Encoded(b))| == 0;
    } else {
      TakeOut(a, 0);
      assert Encode(a[0]) in multiset(Encoded(a));
      var k := FindEncoded(a[0], b);
      TakeOut(b, k);
      CancelOne(multiset(Encoded(Without(a, 0))), multiset(Encoded(Without(b, k))), Encode(a[0]));
      Shorter(a, 0);
      EncodedInjective(Without(a, 0), Without(b, k));
    }
  }

  lemma Shorter(vs: seq<Version>, k: nat)
    requires k < |vs|
    ensures |Without(vs, k)| < |vs|
  {
  }

  lemma RepeatCounts(r: seq<Version>, i: nat, j: nat)
    requires i < j < |r| && r[i] == r[j]
    ensures multiset(r)[r[i]] >= 2
  {
    assert r == r[..j] + [r[j]] + r[j + 1..];
    assert r[..j][i] == r[i];
    assert r[i] in multiset(r[..j]);
  }

  lemma PermutationLists(file: seq<Version>, heap: seq<Version>, rows: set<Version>)
    requires Lists(heap, rows) && multiset(file) == multiset(heap)
    ensures Lists(file, rows)
  {
    ListsMultiset(heap, rows);
    forall v ensures v in file <==> v in rows {
      assert v in file <==> v in multiset(file);
    }
    forall i, j | 0 <= i < j < |file| ensures file[i] != file[j] {
      if file[i] == file[j] { RepeatCounts(file, i, j); }
    }
  }

  /** What the plan returns without pushdown: the table, sorted by both keys. */
  lemma {:induction false} PlanSorts(s: Scan, db: Database, out: seq<Row>)
    requires PlainScan(s) && Allowed(FlushPlan(s), db, out)
    ensures SortOf(db.setup.rank, FlushPlan(s).orders, db.rows(s.table), out)
  {
    hide SortOf, Fetches;
    var orders := FlushPlan(s).orders;
    var rows :| Allowed(Get(s), db, rows) && SortOf(db.setup.rank, orders, rows, out);
    FetchedTable(s, db, rows);
    SortOfSame(db.setup.rank, orders, rows, db.rows(s.table), out);
  }

  lemma {:induction false} FetchedTable(s: Scan, db: Database, rows: seq<Row>)
    requires s.projectionIds == [] && !CutsRows(s) && Allowed(Get(s), db, rows)
    ensures multiset(rows) == multiset(db.rows(s.table))
  {
    var base :| Fetches(s, db, base) && rows == MapRows(Projected(s), ScanCut(s, base));
    assert rows == base;
  }

  lemma SortOfSame(rank: Ranking, orders: seq<OrderNode>, a: seq<Row>, b: seq<Row>, sorted: seq<Row>)
    requires SortOf(rank, orders, a, sorted) && multiset(a) == multiset(b)
    ensures SortOf(rank, orders, b, sorted)
  {
  }

  lemma {:induction false} DecodeAll(rows: seq<Row>, heap: seq<Version>) returns (file: seq<Version>)
    requires forall i :: 0 <= i < |rows| ==> rows[i] in Encoded(heap)
    ensures Encoded(file) == rows
  {
    if rows == [] {
      file := [];
    } else {
      var n := |rows| - 1;
      var front := DecodeAll(rows[..n], heap);
      var k :| 0 <= k < |heap| && Encoded(heap)[k] == rows[n];
      file := front + [heap[k]];
      assert Encoded(file) == Encoded(front) + [rows[n]];
    }
  }

  /** Whatever the rewritten plan returns is a file that holds the versions of the table. */
  lemma ResultIsFile(setup: Setup, s: Scan, supports: seq<OrderSpec> -> bool, heap: seq<Version>, out: seq<Row>)
    returns (file: seq<Version>)
    requires PlainScan(s) && Allowed(TryPushdownOrder(FlushPlan(s), supports), Database(_ => Encoded(heap), setup), out)
    ensures Encoded(file) == out && MayWrite(setup, s, supports, heap, file) && multiset(file) == multiset(heap)
  {
    hide Allowed, Encode;
    var db, op := Database(_ => Encoded(heap), setup), FlushPlan(s);
    if Pushes(op, supports) {
      FetchedTable(WithSort(s, ResolveOrders(op.orders, Get(s), s).value, op), db, out);
    } else {
      PlanSorts(s, db, out);
    }
    forall i | 0 <= i < |out| ensures out[i] in Encoded(heap) {
      assert out[i] in multiset(out) && out[i] in multiset(Encoded(heap));
    }
    file := DecodeAll(out, heap);
    EncodedInjective(file, heap);
  }

  lemma BeforeIsLess(rank: Ranking, s: Scan, a: Version, b: Version)
    requires SameOrder(NATURAL, rank) && Before(a, b)
    ensures var orders := FlushPlan(s).orders;
            KeyLess(NodeKeys(rank, orders), NodeValues(orders)(Encode(a)), NodeValues(orders)(Encode(b)))
  {
    var orders := FlushPlan(s).orders;
    var ks, x, y := NodeKeys(rank, orders), NodeValues(orders)(Encode(a)), NodeValues(orders)(Encode(b));
    assert x == [Val(a.rowId), Val(a.begin)] && y == [Val(b.rowId), Val(b.begin)];
    assert a.rowId < b.rowId ==> NATURAL(a.rowId) < NATURAL(b.rowId);
    assert a.begin < b.begin ==> NATURAL(a.begin) < NATURAL(b.begin);
    DecidedAt(ks, x, y, if a.rowId < b.rowId then 0 else 1);
  }

  /** A sort that moves safely makes the file a flush read. */
  lemma SafeFileInOrder(setup: Setup, s: Scan, supports: seq<OrderSpec> -> bool, table: set<Version>, snapshot: nat,
                        heap: seq<Version>, file: seq<Version>)
    requires PlainScan(s) && Integers(setup, s) && MovesSafely(setup, FlushPlan(s), supports)
    requires Lists(heap, VisibleIn(table, snapshot)) && MayWrite(setup, s, supports, heap, file)
    ensures ReadAllForFlush(table, snapshot, file)
  {
    hide KeyLess, Allowed, MovesSafely;
    var db := Database(_ => Encoded(heap), setup);
    var orders := FlushPlan(s).orders;
    TryRefines(FlushPlan(s), supports, db);
    PlanSorts(s, db, Encoded(file));
    EncodedInjective(file, heap);
    PermutationLists(file, heap, VisibleIn(table, snapshot));
    forall i, j | 0 <= i < j < |file| ensures !Before(file[j], file[i]) {
      var x, y := NodeValues(orders)(Encoded(file)[j]), NodeValues(orders)(Encoded(file)[i]);
      assert !KeyLess(NodeKeys(setup.rank, orders), x, y);
      if Before(file[j], file[i]) { BeforeIsLess(setup.rank, s, file[j], file[i]); }
    }
  }

  // ---------- exactly when a flush is safe ----------

  /** Every file that a flush may write keeps, after its deletes, what a read of the inlined rows sees. */
  ghost predicate FlushSafe(setup: Setup, s: Scan, supports: seq<OrderSpec> -> bool) {
    forall table, snapshot, heap, file, numbering, live ::
      && WellFormed(table, snapshot) && Lists(heap, VisibleIn(table, snapshot))
      && MayWrite(setup, s, supports, heap, file)
      && ReadAllForFlush(table, snapshot, numbering) && ReadInlinedData(table, snapshot, live)
      ==> Remaining(file, DeletePositions(numbering, snapshot)) == live
  }

  const ENDED: Version := Version(0, 0, Some(1), 0)
  const CURRENT: Version := Version(0, 1, None, 1)

  /** A row that was updated once, read by two workers: the current version may come first ... */
  lemma {:induction false} TwoWorkersSwap(setup: Setup, s: Scan, supports: seq<OrderSpec> -> bool)
    requires PlainScan(s) && Pushes(FlushPlan(s), supports)
    requires var specs := ResolveOrders(FlushPlan(s).orders, Get(s), s).value;
             Degree(setup, WithSort(s, specs, FlushPlan(s))) >= 2
    ensures MayWrite(setup, s, supports, [ENDED, CURRENT], [CURRENT, ENDED])
  {
    hide Allowed, Fetches, Degree;
    var op := FlushPlan(s);
    var specs := ResolveOrders(op.orders, Get(s), s).value;
    var x, y := Encode(ENDED), Encode(CURRENT);
    var db := Database(_ => Encoded([ENDED, CURRENT]), setup);
    assert Encoded([ENDED, CURRENT]) == [x] + Copies(y, 1) && Copies(y, 1) + [x] == [y, x];
    FirstRowLast(WithSort(s, specs, op), db, x, y, 1);
    StackResult(Get(s), s, specs, None, 0, db, [y, x]);
    assert MapRows(OutputOf(Get(s)), [y, x]) == Encoded([CURRENT, ENDED]);
  }

  /** ... and the delete meant for the ended version then hits the current one. */
  lemma SwapReverts()
    ensures var table, numbering, live := {ENDED, CURRENT}, [ENDED, CURRENT], [CURRENT];
            && WellFormed(table, 1) && Lists([ENDED, CURRENT], VisibleIn(table, 1))
            && ReadAllForFlush(table, 1, numbering) && ReadInlinedData(table, 1, live)
            && Remaining([CURRENT, ENDED], DeletePositions(numbering, 1)) != live
  {
    var table, numbering := {ENDED, CURRENT}, [ENDED, CURRENT];
    assert VisibleIn(table, 1) == table && LiveIn(table, 1) == {CURRENT};
    var deleted := DeletePositions(numbering, 1);
    assert 0 in deleted && 1 !in deleted;
    assert [CURRENT, ENDED][..1] == [CURRENT] && [CURRENT][..0] == [];
    assert Remaining([CURRENT], deleted) == [];
  }

  /**
   A flush keeps what a read sees, for every table and every way its scan may be read, if and only if its
   sort stays in DuckDB or at most one worker reads the scan it moves into.
   */
  lemma FlushSafeIff(setup: Setup, s: Scan, supports: seq<OrderSpec> -> bool)
    requires PlainScan(s) && Integers(setup, s)
    ensures FlushSafe(setup, s, supports) <==> MovesSafely(setup, FlushPlan(s), supports)
  {
    hide Allowed, Degree, Remaining, DeletePositions;
    var op := FlushPlan(s);
    if MovesSafely(setup, op, supports) {
      forall table, snapshot, heap, file, numbering, live
        | && WellFormed(table, snapshot) && Lists(heap, VisibleIn(table, snapshot))
          && MayWrite(setup, s, supports, heap, file)
          && ReadAllForFlush(table, snapshot, numbering) && ReadInlinedData(table, snapshot, live)
        ensures Remaining(file, DeletePositions(numbering, snapshot)) == live
      {
        SafeFileInOrder(setup, s, supports, table, snapshot, heap, file);
        FlushKeepsRead(table, snapshot, file, numbering, live);
      }
    } else {
      IntegersAgree(setup, s, supports);
      TwoWorkersSwap(setup, s, supports);
      SwapReverts();
      assert !FlushSafe(setup, s, supports);
    }
  }

  lemma IntegersAgree(setup: Setup, s: Scan, supports: seq<OrderSpec> -> bool)
    requires Integers(setup, s) && Pushes(FlushPlan(s), supports)
    ensures KeysAgree(setup.rank, FlushPlan(s).orders, Get(s), s)
  {
    var orders := FlushPlan(s).orders;
    SpecsAgree(setup.rank, orders, Get(s), s);
    forall i | 0 <= i < |orders|
      ensures SameOrder(setup.rank, RankOf(s.columnIds, ResolveOrders(orders, Get(s), s).value[i].column))
    {
      ResolvedInRange(orders[i].expression, Get(s), s);
    }
  }
}
