/**
 When the pushdown of a single sort keeps its meaning (libpgduckdb/scan/order_pushdown_optimizer.cpp).
 A limit that an earlier Top-N left in the scan is cleared, and a pushed ORDER BY is lost when the scan
 is read through several workers (libpgduckdb/scan/postgres_table_reader.cpp).
 */
module LimitedScan {
  import opened Basics
  import opened Sorting
  import opened OrderPushdown
  import opened TupleStreams

  // ---------- ORDER BY over a limit ----------

  /** A pushed or kept sort always has a result, with as many rows as the table when it has no limit. */
  lemma OrderHasResult(op: Plan, s: Scan, supports: seq<OrderSpec> -> bool, db: Database) returns (out: seq<Row>)
    requires op.Order? && FindUnderlyingGet(op.child) == Some(s) && s.isPostgres
    ensures Allowed(TryPushdownOrder(op, supports), db, out) && |out| == |db.rows(s.table)|
  {
    var specs := ResolveOrders(op.orders, op.child, s);
    var table := db.rows(s.table);
    var pushed := specs.Some? && IndexSupports(supports, specs.value);
    var q := SetQuery(op.child, if pushed then specs.value else [], None, 0);
    SetQueryStack(op.child, s, if pushed then specs.value else [], None, 0, []);
    var rows := SomeResult(q, FindUnderlyingGet(q).value, db, table);
    assert |rows| == |multiset(rows)| == |multiset(MapRows(OutputOf(q), table))| == |table|;
    out := rows;
    if !pushed {
      out := SortExists(rows, NodeKeys(db.setup.rank, op.orders), NodeValues(op.orders));
      assert |out| == |multiset(out)|;
      assert SortOf(db.setup.rank, op.orders, rows, out);
    }
  }

  /** A sort over a scan that is cut returns at most as many rows as the limit. */
  lemma {:induction false} LimitBoundsSort(op: Plan, s: Scan, db: Database, out: seq<Row>)
    requires op.Order? && FindUnderlyingGet(op.child) == Some(s) && CutsRows(s)
    requires Allowed(op, db, out)
    ensures |out| <= s.limit.value
  {
    hide Sorted;
    var rows :| Allowed(op.child, db, rows) && SortOf(db.setup.rank, op.orders, rows, out);
    StackAllowed(op.child, s, db, rows);
    var base :| Fetches(s, db, base) && rows == MapRows(OutputOf(op.child), ScanCut(s, base));
    assert |out| == |multiset(out)| == |multiset(rows)| == |rows|;
  }

  /** Every result of `p` is a result of `q`, whatever the tables hold. */
  ghost predicate KeepsMeaning(p: Plan, q: Plan, setup: Setup) {
    forall rows: nat -> seq<Row> :: Refines(p, q, Database(rows, setup))
  }

  lemma OrderOverLimitFails(op: Plan, s: Scan, supports: seq<OrderSpec> -> bool, setup: Setup)
    requires op.Order? && FindUnderlyingGet(op.child) == Some(s) && s.isPostgres && CutsRows(s)
    ensures !KeepsMeaning(TryPushdownOrder(op, supports), op, setup)
  {
    hide Allowed;
    var table := Copies([], s.limit.value + 1);
    var db := Database(_ => table, setup);
    var out := OrderHasResult(op, s, supports, db);
    if KeepsMeaning(TryPushdownOrder(op, supports), op, setup) {
      assert Refines(TryPushdownOrder(op, supports), op, db);
      LimitBoundsSort(op, s, db, out);
    }
  }

  // ---------- ORDER BY in a scan that loses the order ----------

  function Copies(x: Row, n: nat): (r: seq<Row>)
    ensures |r| == n && forall i :: 0 <= i < n ==> r[i] == x
  {
    seq(n, _ => x)
  }

  /** A row of zeros, up to a column that holds `v`. */
  function RowOf(c: nat, v: int): (row: Row)
    ensures |row| == c + 1 && row[c] == Val(v)
  {
    seq(c + 1, i => Val(if i == c then v else 0))
  }

  lemma RowsDifferAt(specs: seq<OrderSpec>, c: nat, v: int, w: int)
    ensures forall i :: 0 <= i < |specs| ==>
              if specs[i].column == c
              then SpecValues(specs)(RowOf(c, v))[i] == Val(v) && SpecValues(specs)(RowOf(c, w))[i] == Val(w)
              else SpecValues(specs)(RowOf(c, v))[i] == SpecValues(specs)(RowOf(c, w))[i]
  {
  }

  /** The sort puts the output row of `x` strictly before that of `y`. */
  predicate SortLess(rank: Ranking, op: Plan, x: Row, y: Row)
    requires IsSort(op)
  {
    var v := NodeValues(op.orders);
    KeyLess(NodeKeys(rank, op.orders), v(OutputRow(op.child, x)), v(OutputRow(op.child, y)))
  }

  /** Two rows that differ in one column only, which the first key tells apart. */
  lemma OrderedPair(rank: Ranking, op: Plan, s: Scan) returns (x: Row, y: Row)
    requires IsSort(op) && FindUnderlyingGet(op.child) == Some(s) && op.orders != []
    requires ResolveOrders(op.orders, op.child, s).Some?
    ensures SortLess(rank, op, x, y)
  {
    var specs, ks := ResolveOrders(op.orders, op.child, s).value, NodeKeys(rank, op.orders);
    SpecsAgree(rank, op.orders, op.child, s);
    var c := specs[0].column;
    assert rank(0) != rank(1);
    var lower, upper := if rank(0) < rank(1) then 0 else 1, if rank(0) < rank(1) then 1 else 0;
    x, y := RowOf(c, if ks[0].desc then upper else lower), RowOf(c, if ks[0].desc then lower else upper);
    RowsDifferAt(specs, c, x[c].n, y[c].n);
    ValuesAgree(op.orders, op.child, s, x);
    ValuesAgree(op.orders, op.child, s, y);
    DecidedAt(ks, SpecValues(specs)(x), SpecValues(specs)(y), 0);
  }

  /** The first key whose column the engines order differently. */
  lemma FirstDisagreement(rank: Ranking, ids: seq<ColumnId>, specs: seq<OrderSpec>) returns (i: nat, a: int, b: int)
    requires exists i :: 0 <= i < |specs| && !SameOrder(rank, RankOf(ids, specs[i].column))
    ensures i < |specs| && rank(a) < rank(b) && RankOf(ids, specs[i].column)(b) < RankOf(ids, specs[i].column)(a)
    ensures forall j :: 0 <= j < i ==> specs[j].column != specs[i].column
  {
    i := 0;
    while SameOrder(rank, RankOf(ids, specs[i].column))
      invariant i < |specs| && forall j :: 0 <= j < i ==> SameOrder(rank, RankOf(ids, specs[j].column))
      decreases |specs| - i
    {
      i := i + 1;
    }
    var q := RankOf(ids, specs[i].column);
    a, b :| rank(a) < rank(b) && !(q(a) < q(b));
    assert q(a) != q(b);
  }

  /** Two rows that the sort puts in one order and PostgreSQL, by the keys it is given, in the other. */
  lemma DisagreeingPair(rank: Ranking, op: Plan, s: Scan) returns (x: Row, y: Row)
    requires IsSort(op) && FindUnderlyingGet(op.child) == Some(s)
    requires ResolveOrders(op.orders, op.child, s).Some? && !KeysAgree(rank, op.orders, op.child, s)
    ensures SortLess(rank, op, x, y)
    ensures var specs := ResolveOrders(op.orders, op.child, s).value;
            !KeyLess(SpecKeys(s.columnIds, specs), SpecValues(specs)(x), SpecValues(specs)(y))
  {
    hide KeyLess;
    var specs := ResolveOrders(op.orders, op.child, s).value;
    var ks, qs, v := NodeKeys(rank, op.orders), SpecKeys(s.columnIds, specs), SpecValues(specs);
    SpecsAgree(rank, op.orders, op.child, s);
    var i, a, b := FirstDisagreement(rank, s.columnIds, specs);
    var c, desc := specs[i].column, ks[i].desc;
    x, y := RowOf(c, if desc then b else a), RowOf(c, if desc then a else b);
    RowsDifferAt(specs, c, x[c].n, y[c].n);
    ValuesAgree(op.orders, op.child, s, x);
    ValuesAgree(op.orders, op.child, s, y);
    DecidedAt(ks, v(x), v(y), i);
    DecidedAt(qs, v(y), v(x), i);
    KeyLessAsymmetric(qs, v(x), v(y));
  }

  /** An ORDER BY never returns output rows in the wrong order. */
  lemma {:induction false} OrderRefusesSwap(op: Plan, db: Database, rows: seq<Row>, i: nat, j: nat)
    requires op.Order? && i < j < |rows| && SortLess(db.setup.rank, op, rows[j], rows[i])
    ensures !Allowed(op, db, MapRows(OutputOf(op.child), rows))
  {
    hide KeyLess;
    var out, v := MapRows(OutputOf(op.child), rows), NodeValues(op.orders);
    assert out[i] == OutputRow(op.child, rows[i]) && out[j] == OutputRow(op.child, rows[j]);
    assert KeyLess(NodeKeys(db.setup.rank, op.orders), v(out[j]), v(out[i]));
  }

  /** What the scan fetches under a pushed ORDER BY must not contradict the sort. */
  lemma {:induction false} FetchBreaksOrder(op: Plan, s: Scan, supports: seq<OrderSpec> -> bool, db: Database,
                         base: seq<Row>, i: nat, j: nat)
    requires op.Order? && FindUnderlyingGet(op.child) == Some(s) && Pushes(op, supports)
    requires Fetches(WithSort(s, ResolveOrders(op.orders, op.child, s).value, op), db, base)
    requires i < j < |base| && SortLess(db.setup.rank, op, base[j], base[i])
    ensures !Refines(TryPushdownOrder(op, supports), op, db)
  {
    hide Allowed, KeyLess, Fetches;
    StackResult(op.child, s, ResolveOrders(op.orders, op.child, s).value, None, 0, db, base);
    OrderRefusesSwap(op, db, base, i, j);
  }

  /** Equal rows are in every order. */
  lemma CopiesSorted(s: Scan, y: Row, n: nat)
    ensures Sorted(Copies(y, n), SpecKeys(s.columnIds, s.orderBys), SpecValues(s.orderBys))
  {
    hide KeyLess;
    KeyLessAsymmetric(SpecKeys(s.columnIds, s.orderBys), SpecValues(s.orderBys)(y), SpecValues(s.orderBys)(y));
  }

  lemma SwapEnds(x: Row, y: Row, n: nat)
    ensures multiset(Copies(y, n) + [x]) == multiset([x] + Copies(y, n))
  {
  }

  /** Two workers, one of them with a single row that belongs first: it may arrive last. */
  lemma FirstRowLast(s: Scan, db: Database, x: Row, y: Row, n: nat)
    requires s.orderBys != [] && Degree(db.setup, s) >= 2 && db.rows(s.table) == [x] + Copies(y, n)
    ensures Fetches(s, db, Copies(y, n) + [x])
  {
    hide Sorted, Degree, Delivers;
    DeliversBack([x], Copies(y, n));
    CopiesSorted(s, x, 1);
    CopiesSorted(s, y, n);
    SwapEnds(x, y, n);
    var streams := [[x], Copies(y, n)];
    assert streams[0] == Copies(x, 1);
    assert forall w :: 0 <= w < |streams| ==> streams[w] == if w == 0 then Copies(x, 1) else Copies(y, n);
    assert ReadThrough(s, Degree(db.setup, s), Copies(y, n) + [x]);
  }

  /** A table of any size from two rows on, whose order a pushed ORDER BY loses when two workers read it. */
  lemma TwoWorkersLoseOrder(op: Plan, s: Scan, supports: seq<OrderSpec> -> bool, setup: Setup, size: nat)
    returns (table: seq<Row>)
    requires op.Order? && FindUnderlyingGet(op.child) == Some(s) && Pushes(op, supports) && size >= 2
    requires Degree(setup, WithSort(s, ResolveOrders(op.orders, op.child, s).value, op)) >= 2
    ensures |table| == size && !Refines(TryPushdownOrder(op, supports), op, Database(_ => table, setup))
    ensures !KeepsMeaning(TryPushdownOrder(op, supports), op, setup)
  {
    hide Allowed, KeyLess, Fetches;
    SpecsAgree(setup.rank, op.orders, op.child, s);
    var x, y := OrderedPair(setup.rank, op, s);
    table := [x] + Copies(y, size - 1);
    var db := Database(_ => table, setup);
    FirstRowLast(WithSort(s, ResolveOrders(op.orders, op.child, s).value, op), db, x, y, size - 1);
    FetchBreaksOrder(op, s, supports, db, Copies(y, size - 1) + [x], 0, size - 1);
  }

  /** Two rows whose order a pushed ORDER BY turns round, because PostgreSQL orders a key column differently. */
  lemma OtherOrderLosesOrder(op: Plan, s: Scan, supports: seq<OrderSpec> -> bool, setup: Setup)
    returns (table: seq<Row>)
    requires op.Order? && FindUnderlyingGet(op.child) == Some(s) && Pushes(op, supports)
    requires !KeysAgree(setup.rank, op.orders, op.child, s)
    ensures |table| == 2 && !Refines(TryPushdownOrder(op, supports), op, Database(_ => table, setup))
    ensures !KeepsMeaning(TryPushdownOrder(op, supports), op, setup)
  {
    hide Allowed, KeyLess, Fetches;
    var x, y := DisagreeingPair(setup.rank, op, s);
    table := [y, x];
    var db := Database(_ => table, setup);
    SortedIsFetched(WithSort(s, ResolveOrders(op.orders, op.child, s).value, op), db, table);
    FetchBreaksOrder(op, s, supports, db, table, 0, 1);
  }

  /**
   An ORDER BY over a PostgreSQL scan keeps its meaning for every table, every split of it over the workers
   and every interleaving of their rows if and only if the scan carries no limit and, if the sort moves
   into the scan, both engines order the values of the key columns alike and at most one worker reads it.
   */
  lemma OrderKeepsIff(op: Plan, s: Scan, supports: seq<OrderSpec> -> bool, setup: Setup)
    requires op.Order? && FindUnderlyingGet(op.child) == Some(s) && s.isPostgres
    ensures KeepsMeaning(TryPushdownOrder(op, supports), op, setup) <==>
              !CutsRows(s) && MovesSafely(setup, op, supports)
  {
    hide Allowed, Refines, Degree, KeysAgree;
    if CutsRows(s) {
      OrderOverLimitFails(op, s, supports, setup);
    } else if MovesSafely(setup, op, supports) {
      forall rows: nat -> seq<Row> ensures Refines(TryPushdownOrder(op, supports), op, Database(rows, setup)) {
        TryRefines(op, supports, Database(rows, setup));
      }
    } else if !KeysAgree(setup.rank, op.orders, op.child, s) {
      var _ := OtherOrderLosesOrder(op, s, supports, setup);
    } else {
      var _ := TwoWorkersLoseOrder(op, s, supports, setup, 2);
    }
  }

  /** A table that its query finds in order is a result of a stack with that query. */
  /**
   The same condition in terms of the settings: a moved ORDER BY over a scan without limit keeps its
   meaning if and only if the engines order the key columns alike and the settings, the table or the plan
   of the scan query keep it to one worker.
   */
  lemma {:induction false} OrderKeepsSettingsIff(op: Plan, s: Scan, supports: seq<OrderSpec> -> bool, setup: Setup)
    requires op.Order? && FindUnderlyingGet(op.child) == Some(s) && !CutsRows(s) && Pushes(op, supports)
    ensures var specs := ResolveOrders(op.orders, op.child, s).value;
            KeepsMeaning(TryPushdownOrder(op, supports), op, setup) <==>
              && KeysAgree(setup.rank, op.orders, op.child, s)
              && !SeveralWorkers(setup, s.(orderBys := specs, limit := None, offset := 0))
  {
    hide KeepsMeaning, KeysAgree, Degree, SeveralWorkers;
    OrderKeepsIff(op, s, supports, setup);
    DegreeIff(setup, WithSort(s, ResolveOrders(op.orders, op.child, s).value, op));
  }

  lemma {:induction false} StackResult(p: Plan, s: Scan, orderBys: seq<OrderSpec>, limit: Option<nat>, offset: nat,
      db: Database, base: seq<Row>)
    requires FindUnderlyingGet(p) == Some(s)
    requires Fetches(s.(orderBys := orderBys, limit := limit, offset := offset), db, base)
    ensures var t := s.(orderBys := orderBys, limit := limit, offset := offset);
            Allowed(SetQuery(p, orderBys, limit, offset), db, MapRows(OutputOf(p), ScanCut(t, base)))
  {
    var q := SetQuery(p, orderBys, limit, offset);
    var t := s.(orderBys := orderBys, limit := limit, offset := offset);
    SetQueryStack(p, s, orderBys, limit, offset, []);
    forall row ensures OutputRow(q, row) == OutputRow(p, row) {
      SetQueryStack(p, s, orderBys, limit, offset, row);
    }
    assert MapRows(OutputOf(q), ScanCut(t, base)) == MapRows(OutputOf(p), ScanCut(t, base));
    StackAllowed(q, t, db, MapRows(OutputOf(p), ScanCut(t, base)));
  }
}
