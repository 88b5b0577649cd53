/**
 When the pushdown of a Top-N keeps its meaning (libpgduckdb/scan/order_pushdown_optimizer.cpp).  The
 scan below it may already carry a limit from an earlier Top-N, which is cleared, and PostgreSQL may
 order the values of a key column differently from DuckDB.
 */
module TopNScan {
  import opened Basics
  import opened TupleStreams
  import opened Sorting
  import opened OrderPushdown
  import opened LimitedScan

  /** The order of the scan puts `x` strictly before `y`. */
  predicate ScanLess(s: Scan, x: Row, y: Row) {
    KeyLess(SpecKeys(s.columnIds, s.orderBys), SpecValues(s.orderBys)(x), SpecValues(s.orderBys)(y))
  }

  /** The keys by which the rewritten plan sorts: PostgreSQL's when the sort moves, DuckDB's when it stays. */
  function NewKeys(rank: Ranking, op: Plan, s: Scan, supports: seq<OrderSpec> -> bool): (ks: seq<SortKey>)
    requires IsSort(op) && FindUnderlyingGet(op.child) == Some(s)
    ensures |ks| == |op.orders|
  {
    if Pushes(op, supports) then
      SpecsResolve(op.orders, op.child, s);
      SpecKeys(s.columnIds, ResolveOrders(op.orders, op.child, s).value)
    else NodeKeys(rank, op.orders)
  }

  /** The rewritten plan puts the output row of `x` strictly before that of `y`. */
  predicate NewLess(rank: Ranking, op: Plan, s: Scan, supports: seq<OrderSpec> -> bool, x: Row, y: Row)
    requires IsSort(op) && FindUnderlyingGet(op.child) == Some(s)
  {
    var v := NodeValues(op.orders);
    KeyLess(NewKeys(rank, op, s, supports), v(OutputRow(op.child, x)), v(OutputRow(op.child, y)))
  }

  /** Where the scan orders two rows that can be told apart above it, the rewritten plan orders them the same way. */
  ghost predicate Compatible(rank: Ranking, op: Plan, s: Scan, supports: seq<OrderSpec> -> bool)
    requires IsSort(op) && FindUnderlyingGet(op.child) == Some(s)
  {
    forall x, y :: ScanLess(s, x, y) ==>
      NewLess(rank, op, s, supports, x, y) || OutputRow(op.child, x) == OutputRow(op.child, y)
  }

  /** A sort that moves meets the same order of values in PostgreSQL. */
  ghost predicate EnginesAgree(rank: Ranking, op: Plan, s: Scan, supports: seq<OrderSpec> -> bool)
    requires IsSort(op)
  {
    Pushes(op, supports) ==> KeysAgree(rank, op.orders, op.child, s)
  }

  /** A scan with a limit is read in-process. */
  lemma LimitedDegree(setup: Setup, s: Scan, op: Plan)
    ensures forall specs: seq<OrderSpec> :: op.TopN? && specs != [] ==> Degree(setup, WithSort(s, specs, op)) == 1
  {
  }

  /** `sorted` is the output of the whole table in an order of the rewritten plan. */
  ghost predicate NewSorted(db: Database, op: Plan, s: Scan, supports: seq<OrderSpec> -> bool, sorted: seq<Row>)
    requires IsSort(op) && FindUnderlyingGet(op.child) == Some(s)
  {
    && multiset(sorted) == multiset(MapRows(OutputOf(op.child), db.rows(s.table)))
    && Sorted(sorted, NewKeys(db.setup.rank, op, s, supports), NodeValues(op.orders))
  }

  /** What a Top-N, pushed or kept, returns: the sorted output of the whole table, cut. */
  lemma PushedTopNResult(op: Plan, s: Scan, supports: seq<OrderSpec> -> bool, db: Database, out: seq<Row>)
    returns (sorted: seq<Row>)
    requires op.TopN? && FindUnderlyingGet(op.child) == Some(s) && s.isPostgres
    requires Allowed(TryPushdownOrder(op, supports), db, out)
    ensures NewSorted(db, op, s, supports, sorted) && out == Cut(sorted, op.offset, op.limit)
  {
    hide Sorted, Cut, Degree;
    LimitedDegree(db.setup, s, op);
    var specs := ResolveOrders(op.orders, op.child, s);
    if specs.Some? && IndexSupports(supports, specs.value) {
      var base := SetQueryAllowed(op.child, s, specs.value, Some(op.limit), op.offset, db, out);
      FetchedIsSorted(WithSort(s, specs.value, op), db, base);
      SortedThrough(op.orders, op.child, s, base);
      sorted := MapRows(OutputOf(op.child), base);
      MapPermutation(OutputOf(op.child), base, db.rows(s.table));
      MapCut(OutputOf(op.child), base, op.offset, op.limit);
    } else {
      var cleared := SetQuery(op.child, [], None, 0);
      var rows: seq<Row>;
      rows, sorted :|
        && Allowed(cleared, db, rows) && SortOf(db.setup.rank, op.orders, rows, sorted)
        && out == Cut(sorted, op.offset, op.limit);
      var base := SetQueryAllowed(op.child, s, [], None, 0, db, rows);
      MapPermutation(OutputOf(op.child), base, db.rows(s.table));
    }
  }

  ghost predicate InNewOrder(rank: Ranking, op: Plan, s: Scan, supports: seq<OrderSpec> -> bool, base: seq<Row>)
    requires IsSort(op) && FindUnderlyingGet(op.child) == Some(s)
  {
    forall i, j :: 0 <= i < j < |base| ==> !NewLess(rank, op, s, supports, base[j], base[i])
  }

  /** Conversely, a table in the order of the rewritten plan gives its cut as a result. */
  lemma {:induction false} PushedTopNAllows(op: Plan, s: Scan, supports: seq<OrderSpec> -> bool, db: Database,
      base: seq<Row>)
    requires op.TopN? && FindUnderlyingGet(op.child) == Some(s) && s.isPostgres
    requires multiset(base) == multiset(db.rows(s.table)) && InNewOrder(db.setup.rank, op, s, supports, base)
    ensures Allowed(TryPushdownOrder(op, supports), db, Cut(MapRows(OutputOf(op.child), base), op.offset, op.limit))
  {
    hide Cut, Allowed;
    var specs := ResolveOrders(op.orders, op.child, s);
    if specs.Some? && IndexSupports(supports, specs.value) {
      InScanOrder(db.setup.rank, op, s, supports, base);
      SortedIsFetched(WithSort(s, specs.value, op), db, base);
      StackResult(op.child, s, specs.value, Some(op.limit), op.offset, db, base);
      MapCut(OutputOf(op.child), base, op.offset, op.limit);
    } else {
      StackResult(op.child, s, [], None, 0, db, base);
      KeptTopN(op, s, supports, db, base);
    }
  }

  /** Rows in the order of a sort that moved are in the order of the query it becomes. */
  lemma {:induction false} InScanOrder(rank: Ranking, op: Plan, s: Scan, supports: seq<OrderSpec> -> bool,
      base: seq<Row>)
    requires IsSort(op) && FindUnderlyingGet(op.child) == Some(s) && Pushes(op, supports)
    requires InNewOrder(rank, op, s, supports, base)
    ensures var specs := ResolveOrders(op.orders, op.child, s).value;
            Sorted(base, SpecKeys(s.columnIds, specs), SpecValues(specs))
  {
    hide KeyLess;
    var specs := ResolveOrders(op.orders, op.child, s).value;
    SpecsAgree(rank, op.orders, op.child, s);
    forall i, j | 0 <= i < j < |base|
      ensures !KeyLess(SpecKeys(s.columnIds, specs), SpecValues(specs)(base[j]), SpecValues(specs)(base[i]))
    {
      ValuesAgree(op.orders, op.child, s, base[i]);
      ValuesAgree(op.orders, op.child, s, base[j]);
      assert !NewLess(rank, op, s, supports, base[j], base[i]);
    }
  }

  lemma {:induction false} KeptTopN(op: Plan, s: Scan, supports: seq<OrderSpec> -> bool, db: Database, base: seq<Row>)
    requires op.TopN? && FindUnderlyingGet(op.child) == Some(s) && !Pushes(op, supports)
    requires Allowed(SetQuery(op.child, [], None, 0), db, MapRows(OutputOf(op.child), base))
    requires InNewOrder(db.setup.rank, op, s, supports, base)
    ensures Allowed(WithChild(op, SetQuery(op.child, [], None, 0)), db,
                    Cut(MapRows(OutputOf(op.child), base), op.offset, op.limit))
  {
    hide KeyLess, Cut;
    var sorted, v := MapRows(OutputOf(op.child), base), NodeValues(op.orders);
    forall i, j | 0 <= i < j < |sorted|
      ensures !KeyLess(NodeKeys(db.setup.rank, op.orders), v(sorted[j]), v(sorted[i]))
    {
      assert !NewLess(db.setup.rank, op, s, supports, base[j], base[i]);
    }
    assert SortOf(db.setup.rank, op.orders, sorted, sorted);
  }

  /** What a Top-N over a scan returns, in terms of what the scan fetches. */
  lemma TopNResult(op: Plan, s: Scan, db: Database, out: seq<Row>) returns (base: seq<Row>, sorted: seq<Row>)
    requires op.TopN? && FindUnderlyingGet(op.child) == Some(s) && Allowed(op, db, out)
    ensures Fetches(s, db, base)
    ensures SortOf(db.setup.rank, op.orders, MapRows(OutputOf(op.child), ScanCut(s, base)), sorted)
    ensures out == Cut(sorted, op.offset, op.limit)
  {
    hide Fetches, SortOf, ScanCut, Cut;
    var rows;
    rows, sorted :| Allowed(op.child, db, rows) && SortOf(db.setup.rank, op.orders, rows, sorted) &&
        out == Cut(sorted, op.offset, op.limit);
    StackAllowed(op.child, s, db, rows);
    base :| Fetches(s, db, base) && rows == MapRows(OutputOf(op.child), ScanCut(s, base));
  }

  lemma {:induction false} TopNAllows(op: Plan, s: Scan, db: Database, base: seq<Row>, sorted: seq<Row>)
    requires op.TopN? && FindUnderlyingGet(op.child) == Some(s)
    requires Fetches(s, db, base)
    requires SortOf(db.setup.rank, op.orders, MapRows(OutputOf(op.child), ScanCut(s, base)), sorted)
    ensures Allowed(op, db, Cut(sorted, op.offset, op.limit))
  {
    hide Fetches, SortOf, ScanCut, Cut;
    StackAllowed(op.child, s, db, MapRows(OutputOf(op.child), ScanCut(s, base)));
  }

  // ---------- when the limit may be cleared ----------

  lemma LastOfImage(g: Row -> Row, s: Scan, rows: seq<Row>, image: Row) returns (k: nat)
    requires image in MapRows(g, rows)
    ensures k < |rows| && g(rows[k]) == image
    ensures forall i :: 0 <= i < |rows| && g(rows[i]) == image ==> !ScanLess(s, rows[k], rows[i])
  {
    hide KeyLess;
    k :| k < |rows| && g(rows[k]) == image;
    var i := 0;
    ScanIrreflexive(s, rows[k]);
    while i < |rows|
      invariant 0 <= i <= |rows| && k < |rows| && g(rows[k]) == image
      invariant forall j :: 0 <= j < i && g(rows[j]) == image ==> !ScanLess(s, rows[k], rows[j])
    {
      if g(rows[i]) == image && ScanLess(s, rows[k], rows[i]) {
        forall j | 0 <= j < i && g(rows[j]) == image ensures !ScanLess(s, rows[i], rows[j]) {
          ScanLaterStays(s, rows[j], rows[k], rows[i]);
        }
        k := i;
        ScanIrreflexive(s, rows[k]);
      }
      i := i + 1;
    }
  }

  lemma ScanIrreflexive(s: Scan, x: Row)
    ensures !ScanLess(s, x, x)
  {
    KeyLessAsymmetric(SpecKeys(s.columnIds, s.orderBys), SpecValues(s.orderBys)(x), SpecValues(s.orderBys)(x));
  }

  /** A row that is not after `k` is not after a row that is after `k`. */
  lemma ScanLaterStays(s: Scan, j: Row, k: Row, i: Row)
    requires !ScanLess(s, k, j) && ScanLess(s, k, i)
    ensures !ScanLess(s, i, j)
  {
    var ks, v := SpecKeys(s.columnIds, s.orderBys), SpecValues(s.orderBys);
    KeyLessAsymmetric(ks, v(k), v(i));
    KeyLessTransitive(ks, v(j), v(k), v(i));
  }

  /** The base rows behind a sequence of output rows, those with equal output in the order of the scan. */
  lemma {:induction false} Lift(g: Row -> Row, s: Scan, rows: seq<Row>, sorted: seq<Row>) returns (base: seq<Row>)
    requires multiset(sorted) == multiset(MapRows(g, rows))
    ensures multiset(base) == multiset(rows) && MapRows(g, base) == sorted
    ensures ImagesInOrder(g, s, base)
    decreases |sorted|
  {
    hide ScanLess, ImagesInOrder;
    assert |sorted| == |multiset(sorted)| == |multiset(MapRows(g, rows))| == |rows|;
    if sorted == [] {
      base := [];
      NothingToOrder(g, s);
    } else {
      var n := |sorted| - 1;
      assert sorted[n] in multiset(sorted);
      var k := LastOfImage(g, s, rows, sorted[n]);
      LiftStep(g, rows, sorted, k);
      var front := Lift(g, s, Without(rows, k), sorted[..n]);
      base := front + [rows[k]];
      LiftExtend(g, s, rows, k, front);
      assert sorted == sorted[..n] + [sorted[n]];
      assert MapRows(g, base) == MapRows(g, front) + [sorted[n]];
    }
  }

  predicate ImagesInOrder(g: Row -> Row, s: Scan, base: seq<Row>) {
    forall i, j :: 0 <= i < j < |base| && g(base[i]) == g(base[j]) ==> !ScanLess(s, base[j], base[i])
  }

  lemma NothingToOrder(g: Row -> Row, s: Scan)
    ensures ImagesInOrder(g, s, [])
  {
  }

  lemma LiftExtend(g: Row -> Row, s: Scan, rows: seq<Row>, k: nat, front: seq<Row>)
    requires k < |rows| && multiset(front) == multiset(Without(rows, k)) && ImagesInOrder(g, s, front)
    requires forall i :: 0 <= i < |rows| && g(rows[i]) == g(rows[k]) ==> !ScanLess(s, rows[k], rows[i])
    ensures multiset(front + [rows[k]]) == multiset(rows) && ImagesInOrder(g, s, front + [rows[k]])
  {
    hide ScanLess;
    RemoveAt(rows, k);
    forall i | 0 <= i < |front| && g(front[i]) == g(rows[k]) ensures !ScanLess(s, rows[k], front[i]) {
      assert front[i] in multiset(front) && front[i] in multiset(rows);
      assert front[i] in rows;
    }
  }

  lemma LiftStep(g: Row -> Row, rows: seq<Row>, sorted: seq<Row>, k: nat)
    requires sorted != [] && k < |rows| && g(rows[k]) == sorted[|sorted| - 1]
    requires multiset(sorted) == multiset(MapRows(g, rows))
    ensures multiset(sorted[..|sorted| - 1]) == multiset(MapRows(g, Without(rows, k)))
  {
    var n := |sorted| - 1;
    assert sorted == sorted[..n] + [sorted[n]];
    RemoveAt(MapRows(g, rows), k);
    assert MapRows(g, Without(rows, k)) == Without(MapRows(g, rows), k);
    CancelOne(multiset(sorted[..n]), multiset(MapRows(g, Without(rows, k))), sorted[n]);
  }

  /** The order of a compatible plan is one that the scan may return its rows in. */
  lemma LiftIsFetched(op: Plan, s: Scan, supports: seq<OrderSpec> -> bool, db: Database, sorted: seq<Row>)
    returns (base: seq<Row>)
    requires op.TopN? && FindUnderlyingGet(op.child) == Some(s) && Compatible(db.setup.rank, op, s, supports)
    requires NewSorted(db, op, s, supports, sorted)
    ensures Fetches(s, db, base) && MapRows(OutputOf(op.child), base) == sorted
  {
    hide KeyLess, NewKeys;
    base := Lift(OutputOf(op.child), s, db.rows(s.table), sorted);
    forall i, j | 0 <= i < j < |base| ensures !ScanLess(s, base[j], base[i]) {
      assert sorted[i] == OutputRow(op.child, base[i]) && sorted[j] == OutputRow(op.child, base[j]);
      assert !NewLess(db.setup.rank, op, s, supports, base[j], base[i]);
    }
    SortedIsFetched(s, db, base);
  }

  lemma CutOfPrefix(rows: seq<Row>, limit: nat, offset: nat, count: nat)
    requires offset + count <= limit
    ensures Cut(Cut(rows, 0, limit), offset, count) == Cut(rows, offset, count)
  {
  }

  /** The first rows of the rewritten plan are sorted for the original one if the engines agree or there is only one. */
  lemma PrefixSorted(op: Plan, s: Scan, supports: seq<OrderSpec> -> bool, db: Database, sorted: seq<Row>, limit: nat)
    requires op.TopN? && FindUnderlyingGet(op.child) == Some(s) && NewSorted(db, op, s, supports, sorted)
    requires EnginesAgree(db.setup.rank, op, s, supports) || limit <= 1
    ensures SortOf(db.setup.rank, op.orders, Cut(sorted, 0, limit), Cut(sorted, 0, limit))
  {
    hide KeyLess;
    if EnginesAgree(db.setup.rank, op, s, supports) {
      if Pushes(op, supports) { SortedAlike(db.setup.rank, op.orders, op.child, s, sorted); }
      assert Sorted(sorted, NodeKeys(db.setup.rank, op.orders), NodeValues(op.orders));
    }
  }

  /** A compatible Top-N that stays within the limit finds its rows among the first ones of the scan. */
  lemma {:induction false} WithinLimitRefines(op: Plan, s: Scan, supports: seq<OrderSpec> -> bool, db: Database,
      out: seq<Row>)
    requires op.TopN? && FindUnderlyingGet(op.child) == Some(s) && s.isPostgres
    requires CutsRows(s) && s.offset == 0 && op.offset + op.limit <= s.limit.value
    requires Compatible(db.setup.rank, op, s, supports)
    requires EnginesAgree(db.setup.rank, op, s, supports) || s.limit.value == 1
    requires Allowed(TryPushdownOrder(op, supports), db, out)
    ensures Allowed(op, db, out)
  {
    hide Fetches, Cut, Sorted, Allowed, TryPushdownOrder, Compatible, EnginesAgree, NewSorted;
    var sorted := PushedTopNResult(op, s, supports, db, out);
    var base := LiftIsFetched(op, s, supports, db, sorted);
    MapCut(OutputOf(op.child), base, 0, s.limit.value);
    PrefixSorted(op, s, supports, db, sorted, s.limit.value);
    TopNAllows(op, s, db, base, Cut(sorted, 0, s.limit.value));
    CutOfPrefix(sorted, s.limit.value, op.offset, op.limit);
  }

  // ---------- when it may not ----------

  /** The rows of an operator over a limited scan lie inside the limit, behind the offset. */
  lemma {:induction false} LimitedTopNBound(op: Plan, s: Scan, db: Database, out: seq<Row>)
    requires op.TopN? && FindUnderlyingGet(op.child) == Some(s) && CutsRows(s)
    requires Allowed(op, db, out) && out != []
    ensures op.offset + |out| <= s.limit.value && op.offset + |out| + s.offset <= |db.rows(s.table)|
  {
    hide Allowed, Sorted;
    var base, sorted := TopNResult(op, s, db, out);
    var rows := MapRows(OutputOf(op.child), ScanCut(s, base));
    assert |sorted| == |multiset(sorted)| == |multiset(rows)| == |ScanCut(s, base)|;
    assert |base| == |multiset(base)| == |multiset(db.rows(s.table))| == |db.rows(s.table)|;
  }

  lemma NewIrreflexive(rank: Ranking, op: Plan, s: Scan, supports: seq<OrderSpec> -> bool, x: Row)
    requires IsSort(op) && FindUnderlyingGet(op.child) == Some(s)
    ensures !NewLess(rank, op, s, supports, x, x)
  {
    var v := NodeValues(op.orders)(OutputRow(op.child, x));
    KeyLessAsymmetric(NewKeys(rank, op, s, supports), v, v);
  }

  /** A table of equal rows: a Top-N returns as many as its offset and limit leave. */
  lemma BeyondLimitFails(op: Plan, s: Scan, supports: seq<OrderSpec> -> bool, setup: Setup)
    requires op.TopN? && FindUnderlyingGet(op.child) == Some(s) && s.isPostgres
    requires CutsRows(s) && op.limit > 0
    requires s.offset > 0 || op.offset + op.limit > s.limit.value
    ensures !KeepsMeaning(TryPushdownOrder(op, supports), op, setup)
  {
    hide Allowed, TryPushdownOrder, KeyLess, NewKeys;
    var base := Copies([], op.offset + op.limit);
    var db := Database(_ => base, setup);
    NewIrreflexive(setup.rank, op, s, supports, []);
    PushedTopNAllows(op, s, supports, db, base);
    var out := Cut(MapRows(OutputOf(op.child), base), op.offset, op.limit);
    if KeepsMeaning(TryPushdownOrder(op, supports), op, setup) {
      assert Refines(TryPushdownOrder(op, supports), op, db);
      LimitedTopNBound(op, s, db, out);
    }
  }

  lemma {:induction false} CountAtMost(rows: seq<Row>, x: Row)
    ensures multiset(rows)[x] <= |rows|
  {
    if rows != [] {
      assert rows == rows[..|rows| - 1] + [rows[|rows| - 1]];
      CountAtMost(rows[..|rows| - 1], x);
    }
  }

  lemma {:induction false} CopiesCount(x: Row, n: nat, y: Row)
    ensures multiset(Copies(x, n))[y] == if x == y then n else 0
  {
    if n > 0 {
      CopiesCount(x, n - 1, y);
      assert Copies(x, n) == Copies(x, n - 1) + [x];
    }
  }

  /** The scan returns the copies of its earlier row first. */
  lemma EarlierFirst(s: Scan, x: Row, y: Row, base: seq<Row>, n: nat, m: nat, i: nat)
    requires ScanLess(s, x, y) && multiset(base) == multiset(Copies(y, m) + Copies(x, n)) && i < n
    requires forall i, j :: 0 <= i < j < |base| ==> !ScanLess(s, base[j], base[i])
    ensures i < |base| && base[i] == x
  {
    hide KeyLess;
    assert |base| == |multiset(base)| == m + n;
    assert base[i] in multiset(base);
    assert base[i] in Copies(y, m) + Copies(x, n);
    if base[i] != x {
      ScanIrreflexive(s, x);
      CopiesCount(x, n, x);
      CopiesCount(y, m, x);
      assert multiset(base)[x] == n;
      assert x !in base[i..];
      assert base == base[..i] + base[i..];
      CountAtMost(base[..i], x);
    }
  }

  lemma IncompatibleFails(op: Plan, s: Scan, supports: seq<OrderSpec> -> bool, setup: Setup)
    requires op.TopN? && FindUnderlyingGet(op.child) == Some(s) && s.isPostgres
    requires CutsRows(s) && op.limit > 0 && s.offset == 0 && !Compatible(setup.rank, op, s, supports)
    ensures !KeepsMeaning(TryPushdownOrder(op, supports), op, setup)
  {
    hide KeyLess, Cut, Allowed, TryPushdownOrder, NewKeys;
    var x, y :|
      && ScanLess(s, x, y) && !NewLess(setup.rank, op, s, supports, x, y)
      && OutputRow(op.child, x) != OutputRow(op.child, y);
    var base := Copies(y, op.offset + op.limit) + Copies(x, s.limit.value);
    var db := Database(_ => base, setup);
    NewIrreflexive(setup.rank, op, s, supports, x);
    NewIrreflexive(setup.rank, op, s, supports, y);
    PushedTopNAllows(op, s, supports, db, base);
    var out := Cut(MapRows(OutputOf(op.child), base), op.offset, op.limit);
    CutAt(MapRows(OutputOf(op.child), base), op.offset, op.limit, 0);
    if KeepsMeaning(TryPushdownOrder(op, supports), op, setup) {
      assert Refines(TryPushdownOrder(op, supports), op, db);
      OnlyEarlierRows(op, s, x, y, db, base, out);
    }
  }

  lemma {:induction false} OnlyEarlierRows(op: Plan, s: Scan, x: Row, y: Row, db: Database, table: seq<Row>,
      out: seq<Row>)
    requires op.TopN? && FindUnderlyingGet(op.child) == Some(s) && ScanLess(s, x, y)
    requires CutsRows(s) && s.offset == 0
    requires table == Copies(y, op.offset + op.limit) + Copies(x, s.limit.value) && db.rows(s.table) == table
    requires Allowed(op, db, out)
    ensures forall i :: 0 <= i < |out| ==> out[i] == OutputRow(op.child, x)
  {
    hide KeyLess;
    hide Allowed, Cut;
    var base, sorted := TopNResult(op, s, db, out);
    var rows := MapRows(OutputOf(op.child), ScanCut(s, base));
    FetchedEarlier(s, x, y, db, base, op.offset + op.limit);
    CutMember(sorted, op.offset, op.limit);
    forall i | 0 <= i < |out| ensures out[i] == OutputRow(op.child, x) {
      assert out[i] in out && out[i] in sorted;
      assert out[i] in multiset(sorted) && out[i] in multiset(rows);
      assert out[i] in rows;
    }
  }

  lemma CutMember(rows: seq<Row>, offset: nat, count: nat)
    ensures forall r :: r in Cut(rows, offset, count) ==> r in rows
  {
  }

  lemma FetchedEarlier(s: Scan, x: Row, y: Row, db: Database, base: seq<Row>, m: nat)
    requires CutsRows(s) && s.offset == 0 && ScanLess(s, x, y)
    requires db.rows(s.table) == Copies(y, m) + Copies(x, s.limit.value) && Fetches(s, db, base)
    ensures forall i :: 0 <= i < |ScanCut(s, base)| ==> ScanCut(s, base)[i] == x
  {
    hide KeyLess;
    FetchedIsSorted(s, db, base);
    forall i | 0 <= i < |ScanCut(s, base)| ensures ScanCut(s, base)[i] == x {
      EarlierFirst(s, x, y, base, s.limit.value, m, i);
    }
  }

  /** A Top-N that asks for no rows returns none, whatever lies below it. */
  lemma {:induction false} NothingAsked(op: Plan, s: Scan, supports: seq<OrderSpec> -> bool, db: Database,
      out: seq<Row>)
    requires op.TopN? && FindUnderlyingGet(op.child) == Some(s) && s.isPostgres && op.limit == 0
    requires Allowed(TryPushdownOrder(op, supports), db, out)
    ensures Allowed(op, db, out)
  {
    var _ := PushedTopNResult(op, s, supports, db, out);
    var base := db.rows(s.table);
    if s.orderBys != [] {
      base := SortExists(base, SpecKeys(s.columnIds, s.orderBys), SpecValues(s.orderBys));
    }
    SortedIsFetched(s, db, base);
    var rows := MapRows(OutputOf(op.child), ScanCut(s, base));
    var sorted := SortExists(rows, NodeKeys(db.setup.rank, op.orders), NodeValues(op.orders));
    TopNAllows(op, s, db, base, sorted);
    assert Cut(sorted, op.offset, op.limit) == out;
  }

  // ---------- a key column that the engines order differently ----------

  /** One `u` and otherwise `v`, where no `u` may come after a `v`. */
  lemma OneFirst(rows: seq<Row>, u: Row, v: Row, n: nat)
    requires u != v && multiset(rows) == multiset([u] + Copies(v, n))
    requires forall i, j :: 0 <= i < j < |rows| ==> !(rows[i] == v && rows[j] == u)
    ensures rows == [u] + Copies(v, n)
  {
    assert |rows| == |multiset(rows)| == n + 1;
    assert u in multiset([u] + Copies(v, n));
    assert u in multiset(rows) && rows[0] in multiset(rows);
    assert rows[0] in [u] + Copies(v, n);
    var k :| 0 <= k < |rows| && rows[k] == u;
    assert rows[0] == u;
    assert rows == [u] + rows[1..];
    assert multiset([u] + Copies(v, n)) == multiset(Copies(v, n)) + multiset{u};
    CancelOne(multiset(rows[1..]), multiset(Copies(v, n)), u);
    forall i | 0 <= i < n ensures rows[1..][i] == v {
      assert rows[1..][i] in multiset(rows[1..]);
      assert rows[1..][i] in Copies(v, n);
    }
  }

  /** The original plan sorts one output row of `x` in front of those of `y`. */
  lemma {:induction false} FirstInOrder(rank: Ranking, op: Plan, x: Row, y: Row, n: nat, sorted: seq<Row>)
    requires IsSort(op) && SortLess(rank, op, x, y) && Sorted(sorted, NodeKeys(rank, op.orders), NodeValues(op.orders))
    requires multiset(sorted) == multiset([OutputRow(op.child, x)] + Copies(OutputRow(op.child, y), n))
    ensures OutputRow(op.child, x) != OutputRow(op.child, y)
    ensures sorted == [OutputRow(op.child, x)] + Copies(OutputRow(op.child, y), n)
  {
    hide KeyLess;
    SortIrreflexive(rank, op, x);
    OneFirst(sorted, OutputRow(op.child, x), OutputRow(op.child, y), n);
  }

  lemma MapCopies(g: Row -> Row, x: Row, y: Row, n: nat)
    ensures MapRows(g, Copies(y, n) + [x]) == Copies(g(y), n) + [g(x)]
  {
  }

  /** A scan that does not cut the table hands up all of it. */
  lemma {:induction false} WholeTable(op: Plan, s: Scan, db: Database, x: Row, y: Row, n: nat, base: seq<Row>)
    requires IsSort(op) && Fetches(s, db, base) && db.rows(s.table) == Copies(y, n) + [x]
    requires CutsRows(s) ==> s.offset == 0 && n + 1 <= s.limit.value
    ensures multiset(MapRows(OutputOf(op.child), ScanCut(s, base))) ==
            multiset([OutputRow(op.child, x)] + Copies(OutputRow(op.child, y), n))
  {
    hide ReadThrough, Degree;
    var g, table := OutputOf(op.child), Copies(y, n) + [x];
    assert |base| == n + 1 by { assert |base| == |multiset(base)| == |multiset(table)| == |table|; }
    assert ScanCut(s, base) == base;
    MapPermutation(g, base, table);
    MapCopies(g, x, y, n);
    SwapEnds(g(x), g(y), n);
  }

  /** The original plan over a table of one `x` and otherwise `y`, which it puts behind `x`. */
  lemma {:induction false} FirstStays(op: Plan, s: Scan, db: Database, x: Row, y: Row, n: nat, out: seq<Row>)
    requires op.TopN? && FindUnderlyingGet(op.child) == Some(s) && SortLess(db.setup.rank, op, x, y)
    requires db.rows(s.table) == Copies(y, n) + [x]
    requires CutsRows(s) ==> s.offset == 0 && n + 1 <= s.limit.value
    requires Allowed(op, db, out)
    ensures OutputRow(op.child, x) != OutputRow(op.child, y)
    ensures out == Cut([OutputRow(op.child, x)] + Copies(OutputRow(op.child, y), n), op.offset, op.limit)
  {
    hide SortLess, Sorted, Allowed, Fetches, Cut, ScanCut;
    var base, sorted := TopNResult(op, s, db, out);
    WholeTable(op, s, db, x, y, n, base);
    FirstInOrder(db.setup.rank, op, x, y, n, sorted);
  }

  lemma SortIrreflexive(rank: Ranking, op: Plan, x: Row)
    requires IsSort(op)
    ensures !SortLess(rank, op, x, x)
  {
    var v := NodeValues(op.orders)(OutputRow(op.child, x));
    KeyLessAsymmetric(NodeKeys(rank, op.orders), v, v);
  }

  lemma CutAt(rows: seq<Row>, offset: nat, count: nat, k: nat)
    requires k < count && offset + k < |rows|
    ensures k < |Cut(rows, offset, count)| && Cut(rows, offset, count)[k] == rows[offset + k]
  {
  }

  /** Cutting both arrangements of one `u` among `v` shows the difference. */
  lemma CutsDiffer(u: Row, v: Row, n: nat, offset: nat, count: nat)
    requires u != v && count > 0 && n >= 1
    requires n + 1 == (if offset + count >= 2 then offset + count else 2)
    ensures Cut([u] + Copies(v, n), offset, count) != Cut(Copies(v, n) + [u], offset, count)
  {
    var front, back := [u] + Copies(v, n), Copies(v, n) + [u];
    assert front[0] == u && front[n] == v && back[0] == v && back[n] == u;
    var k: nat := if offset + count >= 2 then count - 1 else 0;
    CutAt(front, offset, count, k);
    CutAt(back, offset, count, k);
  }

  /** A table that a moved Top-N cuts in PostgreSQL's order and the original one in DuckDB's. */
  lemma OtherOrderFails(op: Plan, s: Scan, supports: seq<OrderSpec> -> bool, setup: Setup)
    requires op.TopN? && FindUnderlyingGet(op.child) == Some(s) && s.isPostgres && op.limit > 0
    requires Pushes(op, supports) && !KeysAgree(setup.rank, op.orders, op.child, s)
    requires CutsRows(s) ==> s.offset == 0 && op.offset + op.limit <= s.limit.value && s.limit.value >= 2
    ensures !KeepsMeaning(TryPushdownOrder(op, supports), op, setup)
  {
    hide KeyLess, Cut, Allowed, TryPushdownOrder, KeysAgree;
    var x, y := DisagreeingPair(setup.rank, op, s);
    var n: nat := if op.offset + op.limit >= 2 then op.offset + op.limit - 1 else 1;
    var base := Copies(y, n) + [x];
    var db := Database(_ => base, setup);
    MovedSwap(op, s, supports, setup.rank, x, y, n);
    PushedTopNAllows(op, s, supports, db, base);
    var g := OutputOf(op.child);
    var out := Cut(MapRows(g, base), op.offset, op.limit);
    assert MapRows(g, base) == Copies(g(y), n) + [g(x)];
    if KeepsMeaning(TryPushdownOrder(op, supports), op, setup) {
      assert Refines(TryPushdownOrder(op, supports), op, db);
      FirstStays(op, s, db, x, y, n, out);
      CutsDiffer(g(x), g(y), n, op.offset, op.limit);
    }
  }

  lemma {:induction false} MovedSwap(op: Plan, s: Scan, supports: seq<OrderSpec> -> bool, rank: Ranking, x: Row,
      y: Row, n: nat)
    requires IsSort(op) && FindUnderlyingGet(op.child) == Some(s) && Pushes(op, supports)
    requires var specs := ResolveOrders(op.orders, op.child, s).value;
             !KeyLess(SpecKeys(s.columnIds, specs), SpecValues(specs)(x), SpecValues(specs)(y))
    ensures InNewOrder(rank, op, s, supports, Copies(y, n) + [x])
  {
    hide KeyLess;
    SpecsAgree(rank, op.orders, op.child, s);
    ValuesAgree(op.orders, op.child, s, x);
    ValuesAgree(op.orders, op.child, s, y);
    NewIrreflexive(rank, op, s, supports, y);
    assert !NewLess(rank, op, s, supports, x, y);
  }

  // ---------- exactly when ----------

  /** The limit of the scan below a Top-N may be cleared, and its order may move. */
  ghost predicate TopNMayMove(op: Plan, s: Scan, supports: seq<OrderSpec> -> bool, rank: Ranking)
    requires op.TopN? && FindUnderlyingGet(op.child) == Some(s)
  {
    || op.limit == 0
    || (!CutsRows(s) && EnginesAgree(rank, op, s, supports))
    || (CutsRows(s) && s.offset == 0 && op.offset + op.limit <= s.limit.value && Compatible(rank, op, s, supports) &&
        (EnginesAgree(rank, op, s, supports) || s.limit.value == 1))
  }

  /**
   A Top-N over a PostgreSQL scan keeps its meaning for every table, however the scan is run, if and only
   if it asks for no rows, or the scan carries no limit and, if the sort moves, both engines order the
   values of the key columns alike, or it stays within a limit without offset whose order it does not
   contradict, the engines again agreeing unless that limit is a single row.
   */
  lemma TopNKeepsIff(op: Plan, s: Scan, supports: seq<OrderSpec> -> bool, setup: Setup)
    requires op.TopN? && FindUnderlyingGet(op.child) == Some(s) && s.isPostgres
    ensures KeepsMeaning(TryPushdownOrder(op, supports), op, setup) <==> TopNMayMove(op, s, supports, setup.rank)
  {
    hide Compatible, KeysAgree, Refines;
    if TopNMayMove(op, s, supports, setup.rank) {
      forall rows: nat -> seq<Row> ensures Refines(TryPushdownOrder(op, supports), op, Database(rows, setup)) {
        TopNRefines(op, s, supports, Database(rows, setup));
      }
    } else if CutsRows(s) && (s.offset > 0 || op.offset + op.limit > s.limit.value) {
      BeyondLimitFails(op, s, supports, setup);
    } else if CutsRows(s) && !Compatible(setup.rank, op, s, supports) {
      IncompatibleFails(op, s, supports, setup);
    } else {
      OtherOrderFails(op, s, supports, setup);
    }
  }

  lemma TopNRefines(op: Plan, s: Scan, supports: seq<OrderSpec> -> bool, db: Database)
    requires op.TopN? && FindUnderlyingGet(op.child) == Some(s) && s.isPostgres
    requires TopNMayMove(op, s, supports, db.setup.rank)
    ensures Refines(TryPushdownOrder(op, supports), op, db)
  {
    hide Compatible, KeysAgree, Allowed;
    if op.limit != 0 && !CutsRows(s) {
      TryRefines(op, supports, db);
    } else {
      forall out | Allowed(TryPushdownOrder(op, supports), db, out) ensures Allowed(op, db, out) {
        if op.limit == 0 {
          NothingAsked(op, s, supports, db, out);
        } else {
          WithinLimitRefines(op, s, supports, db, out);
        }
      }
    }
  }

  // ---------- a condition that a planner can check ----------

  lemma {:induction false} PrefixDecides(ks: seq<SortKey>, x: seq<Cell>, y: seq<Cell>, n: nat)
    requires |ks| == |x| == |y| && n <= |ks| && KeyLess(ks[..n], x[..n], y[..n])
    ensures KeyLess(ks, x, y)
  {
    if n > 0 && !CellLess(x[0], y[0], ks[0]) {
      assert ks[..n][1..] == ks[1..][..n - 1] && x[..n][1..] == x[1..][..n - 1] && y[..n][1..] == y[1..][..n - 1];
      PrefixDecides(ks[1..], x[1..], y[1..], n - 1);
    }
  }

  lemma PrefixLess(ids: seq<ColumnId>, some: seq<OrderSpec>, specs: seq<OrderSpec>, x: Row, y: Row)
    requires some <= specs && KeyLess(SpecKeys(ids, some), SpecValues(some)(x), SpecValues(some)(y))
    ensures KeyLess(SpecKeys(ids, specs), SpecValues(specs)(x), SpecValues(specs)(y))
  {
    hide KeyLess, ReadSuffix, OrderSuffix, CellAt;
    var qs, v, n := SpecKeys(ids, specs), SpecValues(specs), |some|;
    assert SpecKeys(ids, some) == qs[..n];
    assert SpecValues(some)(x) == v(x)[..n] && SpecValues(some)(y) == v(y)[..n];
    PrefixDecides(qs, v(x), v(y), n);
  }

  /** A sort whose keys begin with those of the scan is compatible with it, if it moves or the engines agree. */
  lemma {:induction false} PrefixIsCompatible(rank: Ranking, op: Plan, s: Scan, supports: seq<OrderSpec> -> bool)
    requires IsSort(op) && FindUnderlyingGet(op.child) == Some(s)
    requires ResolveOrders(op.orders, op.child, s).Some? && s.orderBys <= ResolveOrders(op.orders, op.child, s).value
    requires Pushes(op, supports) || KeysAgree(rank, op.orders, op.child, s)
    ensures Compatible(rank, op, s, supports)
  {
    hide KeyLess;
    var specs := ResolveOrders(op.orders, op.child, s).value;
    var qs, v := SpecKeys(s.columnIds, specs), SpecValues(specs);
    SpecsAgree(rank, op.orders, op.child, s);
    forall x, y | ScanLess(s, x, y) ensures NewLess(rank, op, s, supports, x, y) {
      ValuesAgree(op.orders, op.child, s, x);
      ValuesAgree(op.orders, op.child, s, y);
      PrefixLess(s.columnIds, s.orderBys, specs, x, y);
      if !Pushes(op, supports) { KeyLessAgrees(NodeKeys(rank, op.orders), qs, v(x), v(y)); }
    }
  }
}
