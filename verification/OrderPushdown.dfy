/**
 ORDER BY and Top-N pushdown of libpgduckdb/scan/order_pushdown_optimizer.cpp: a sort, with or without
 a limit, over projections over a PostgreSQL scan is moved into the query of the scan.
 */
module OrderPushdown {
  import opened Basics
  import opened Sorting
  import opened TupleStreams

  datatype OrderType = OrderDefault | Ascending | Descending
  datatype NullOrder = NullsDefault | NullsFirst | NullsLast

  /** A positional reference into the rows of the operator below, or an expression computed from them. */
  datatype Expression = Ref(index: nat) | Computed(f: Row -> Cell)

  datatype OrderNode = OrderNode(expression: Expression, orderType: OrderType, nullOrder: NullOrder)

  /** One key of the ORDER BY that is added to the scan query; the column is an index into the scanned columns. */
  datatype OrderSpec = OrderSpec(column: nat, orderType: OrderType, nullOrder: NullOrder)

  /** What a scanned column holds: a whole column of the table, a part of one, or a value computed for the row. */
  datatype ColumnKind = Whole | Nested(part: Cell -> Cell) | Virtual(value: Row -> Cell)

  /**
   A scanned column: its number among the live columns, what it holds, and the order that PostgreSQL
   gives to the values of the table column, by its type and collation.
   */
  datatype ColumnId = ColumnId(primary: nat, kind: ColumnKind, rank: Ranking)

  /** A scan and the part of its query that pushdown sets. */
  datatype Scan = Scan(
    table: nat, isPostgres: bool, columnIds: seq<ColumnId>, projectionIds: seq<nat>,
    orderBys: seq<OrderSpec>, limit: Option<nat>, offset: nat)

  /** Logical plans.  `Other` is any operator that pushdown only looks below. */
  datatype Plan =
    | Get(scan: Scan)
    | Projection(expressions: seq<Expression>, child: Plan)
    | Order(orders: seq<OrderNode>, child: Plan)
    | TopN(orders: seq<OrderNode>, limit: nat, offset: nat, child: Plan)
    | Other(children: seq<Plan>, relation: (seq<seq<Row>>, seq<Row>) -> bool)

  // ---------- what a plan may return ----------

  /** The sort key of an ORDER BY node.  DuckDB is set up with PostgreSQL's rule for nulls without an order. */
  function DuckKey(t: OrderType, n: NullOrder, rank: Ranking): SortKey {
    SortKey(t == Descending, n == NullsFirst || (n == NullsDefault && t == Descending), rank)
  }

  datatype SuffixWord = AscWord | DescWord | NullsFirstWord | NullsLastWord

  /** The words behind a column name in the emitted ORDER BY. */
  function OrderSuffix(t: OrderType, n: NullOrder): seq<SuffixWord> {
    [if t == Descending then DescWord else AscWord]
    + match n
      case NullsFirst => [NullsFirstWord]
      case NullsLast => [NullsLastWord]
      case NullsDefault => []
  }

  /** PostgreSQL's reading of a suffix: nulls count as larger than every value unless said otherwise. */
  function ReadSuffix(words: seq<SuffixWord>, rank: Ranking): SortKey {
    var desc := DescWord in words;
    SortKey(desc, NullsFirstWord in words || (NullsLastWord !in words && desc), rank)
  }

  /** The emitted suffix sorts as DuckDB does, for every direction, order of nulls and order of values. */
  lemma SuffixAgrees(t: OrderType, n: NullOrder, rank: Ranking)
    ensures ReadSuffix(OrderSuffix(t, n), rank) == DuckKey(t, n, rank)
  {
    var words := OrderSuffix(t, n);
    assert words[0] == if t == Descending then DescWord else AscWord;
    assert n != NullsDefault ==> words[1] == if n == NullsFirst then NullsFirstWord else NullsLastWord;
  }

  function CellAt(row: Row, i: nat): Cell {
    if i < |row| then row[i] else Null
  }

  function Evaluate(e: Expression, row: Row): Cell {
    match e
    case Ref(i) => CellAt(row, i)
    case Computed(f) => f(row)
  }

  /** The keys of a sort in DuckDB, which orders values by `rank`. */
  function NodeKeys(rank: Ranking, orders: seq<OrderNode>): (ks: seq<SortKey>)
    ensures |ks| == |orders|
  {
    seq(|orders|, i requires 0 <= i < |orders| => DuckKey(orders[i].orderType, orders[i].nullOrder, rank))
  }

  function NodeValues(orders: seq<OrderNode>): Row -> seq<Cell> {
    row => seq(|orders|, i requires 0 <= i < |orders| => Evaluate(orders[i].expression, row))
  }

  function RankOf(ids: seq<ColumnId>, column: nat): Ranking {
    if column < |ids| then ids[column].rank else NATURAL
  }

  /** The keys of an ORDER BY in PostgreSQL, which orders the values of every column by its own ranking. */
  function SpecKeys(ids: seq<ColumnId>, specs: seq<OrderSpec>): (ks: seq<SortKey>)
    ensures |ks| == |specs|
  {
    seq(|specs|, i requires 0 <= i < |specs| =>
      ReadSuffix(OrderSuffix(specs[i].orderType, specs[i].nullOrder), RankOf(ids, specs[i].column)))
  }

  function SpecValues(specs: seq<OrderSpec>): Row -> seq<Cell> {
    row => seq(|specs|, i requires 0 <= i < |specs| => CellAt(row, specs[i].column))
  }

  /** The columns of a base row that the scan hands up. */
  function Projected(s: Scan): Row -> Row {
    row => if s.projectionIds == [] then row
           else seq(|s.projectionIds|, i requires 0 <= i < |s.projectionIds| => CellAt(row, s.projectionIds[i]))
  }

  function Computes(es: seq<Expression>): Row -> Row {
    row => seq(|es|, i requires 0 <= i < |es| => Evaluate(es[i], row))
  }

  // ---------- how a scan query is run ----------

  /** The top node of the plan that PostgreSQL makes for a scan query. */
  datatype PlanNode =
    | SeqScan | IndexScan | IndexOnlyScan | BitmapHeapScan | Append(parts: seq<PlanNode>)
    | Agg | Sort | Limit | OtherNode

  predicate CanRunInParallel(node: PlanNode) {
    match node
    case SeqScan => true
    case IndexScan => true
    case IndexOnlyScan => true
    case BitmapHeapScan => true
    case Append(parts) => forall i :: 0 <= i < |parts| ==> CanRunInParallel(parts[i])
    case Agg => true
    case _ => false
  }

  /**
   What PostgreSQL decides about a query and a table, the two settings that bound the workers, and the
   order that DuckDB gives to values.
   */
  datatype Setup = Setup(
    node: Scan -> PlanNode, estimate: Scan -> nat, temporary: nat -> bool, maxPerScan: nat, maxParallel: nat,
    rank: Ranking)

  const CARDINALITY_THRESHOLD: nat := 65536

  function WorkerNumber(setup: Setup, cardinality: nat): nat {
    if setup.maxPerScan == 0 then 0
    else if cardinality <= CARDINALITY_THRESHOLD then 1
    else if setup.maxPerScan <= setup.maxParallel then setup.maxPerScan else setup.maxParallel
  }

  /** The query ends in LIMIT, which is written only behind an ORDER BY. */
  predicate CutsRows(s: Scan) {
    s.orderBys != [] && s.limit.Some?
  }

  /** A query with a LIMIT has a plan with a limit at its top. */
  function TopNode(setup: Setup, s: Scan): PlanNode {
    if CutsRows(s) then Limit else setup.node(s)
  }

  predicate RunsInParallel(setup: Setup, s: Scan) {
    !setup.temporary(s.table) && setup.maxPerScan > 0 && CanRunInParallel(TopNode(setup, s))
  }

  /** The most streams a scan is read through: those of its workers, or one when it runs in-process. */
  function Degree(setup: Setup, s: Scan): nat {
    var workers := if RunsInParallel(setup, s) then WorkerNumber(setup, setup.estimate(s)) else 0;
    if workers == 0 then 1 else workers
  }

  /** The rows of the scanned columns, per table, after the WHERE clause, and how queries over them are run. */
  datatype Database = Database(rows: nat -> seq<Row>, setup: Setup)

  /** The rows arrive through at most `n` streams, each in the order of the query. */
  ghost predicate ReadThrough(s: Scan, n: nat, base: seq<Row>) {
    exists streams: seq<seq<Row>> ::
      && 1 <= |streams| <= n && Delivers(streams, base)
      && forall w :: 0 <= w < |streams| ==>
           Sorted(streams[w], SpecKeys(s.columnIds, s.orderBys), SpecValues(s.orderBys))
  }

  /** `base` is what a scan hands up before a cut: the table, read through streams that are sorted as the query says. */
  ghost predicate Fetches(s: Scan, db: Database, base: seq<Row>) {
    && multiset(base) == multiset(db.rows(s.table))
    && (s.orderBys != [] ==> ReadThrough(s, Degree(db.setup, s), base))
  }

  /** Fewer workers than allowed may be launched, so the sorted table is always a possible read ... */
  lemma SortedIsFetched(s: Scan, db: Database, base: seq<Row>)
    requires multiset(base) == multiset(db.rows(s.table))
    requires s.orderBys != [] ==> Sorted(base, SpecKeys(s.columnIds, s.orderBys), SpecValues(s.orderBys))
    ensures Fetches(s, db, base)
  {
    hide Sorted;
    if s.orderBys != [] {
      DeliversOne(base, base);
      var streams := [base];
      assert forall w :: 0 <= w < |streams| ==> streams[w] == base;
    }
  }

  /** ... and the only one through a single stream. */
  lemma FetchedIsSorted(s: Scan, db: Database, base: seq<Row>)
    requires s.orderBys != [] && Degree(db.setup, s) <= 1 && Fetches(s, db, base)
    ensures Sorted(base, SpecKeys(s.columnIds, s.orderBys), SpecValues(s.orderBys))
  {
    hide Sorted;
    var streams: seq<seq<Row>> :|
      && 1 <= |streams| <= Degree(db.setup, s) && Delivers(streams, base)
      && forall w :: 0 <= w < |streams| ==>
           Sorted(streams[w], SpecKeys(s.columnIds, s.orderBys), SpecValues(s.orderBys));
    assert streams == [streams[0]];
    DeliversOne(streams[0], base);
  }

  /** The nodes below a tree of Append nodes, or the node itself. */
  function Leaves(node: PlanNode): set<PlanNode> {
    if node.Append? then set i, leaf | 0 <= i < |node.parts| && leaf in Leaves(node.parts[i]) :: leaf else {node}
  }

  const PARALLEL_LEAVES: set<PlanNode> := {SeqScan, IndexScan, IndexOnlyScan, BitmapHeapScan, Agg}

  lemma {:induction false} ParallelLeaves(node: PlanNode)
    ensures CanRunInParallel(node) <==> Leaves(node) <= PARALLEL_LEAVES
  {
    if node.Append? {
      forall i | 0 <= i < |node.parts|
        ensures CanRunInParallel(node.parts[i]) <==> Leaves(node.parts[i]) <= PARALLEL_LEAVES
      {
        ParallelLeaves(node.parts[i]);
      }
      if CanRunInParallel(node) {
        forall leaf | leaf in Leaves(node) ensures leaf in PARALLEL_LEAVES {
          var i :| 0 <= i < |node.parts| && leaf in Leaves(node.parts[i]);
        }
      }
      if Leaves(node) <= PARALLEL_LEAVES {
        forall i, leaf | 0 <= i < |node.parts| && leaf in Leaves(node.parts[i]) ensures leaf in PARALLEL_LEAVES {
          assert leaf in Leaves(node);
        }
      }
    }
  }

  /** Several workers may read the scan, in terms of the settings and of what PostgreSQL decides. */
  predicate SeveralWorkers(setup: Setup, s: Scan) {
    && setup.maxPerScan > 1 && setup.maxParallel > 1 && setup.estimate(s) > 65536 && !setup.temporary(s.table)
    && !CutsRows(s) && Leaves(setup.node(s)) <= PARALLEL_LEAVES
  }

  /** Several streams are read exactly when several workers may read the scan. */
  lemma {:induction false} DegreeIff(setup: Setup, s: Scan)
    ensures Degree(setup, s) > 1 <==> SeveralWorkers(setup, s)
  {
    ParallelLeaves(setup.node(s));
  }

  function ScanCut(s: Scan, base: seq<Row>): seq<Row> {
    if CutsRows(s) then Cut(base, s.offset, s.limit.value) else base
  }

  ghost predicate SortOf(rank: Ranking, orders: seq<OrderNode>, rows: seq<Row>, sorted: seq<Row>) {
    multiset(sorted) == multiset(rows) && Sorted(sorted, NodeKeys(rank, orders), NodeValues(orders))
  }

  /** `out` is an allowed result of the plan. */
  ghost predicate Allowed(p: Plan, db: Database, out: seq<Row>)
    decreases p
  {
    match p
    case Get(s) => exists base :: Fetches(s, db, base) && out == MapRows(Projected(s), ScanCut(s, base))
    case Projection(es, c) => exists rows :: Allowed(c, db, rows) && out == MapRows(Computes(es), rows)
    case Order(orders, c) => exists rows :: Allowed(c, db, rows) && SortOf(db.setup.rank, orders, rows, out)
    case TopN(orders, limit, offset, c) =>
      exists rows, sorted ::
        Allowed(c, db, rows) && SortOf(db.setup.rank, orders, rows, sorted) && out == Cut(sorted, offset, limit)
    case Other(cs, relation) =>
      exists results: seq<seq<Row>> ::
        && |results| == |cs| && relation(results, out)
        && forall i :: 0 <= i < |cs| ==> Allowed(cs[i], db, results[i])
  }

  // ---------- the optimizer ----------

  /** The scan below a stack of projections. */
  function FindUnderlyingGet(p: Plan): Option<Scan> {
    match p
    case Get(s) => Some(s)
    case Projection(_, c) => FindUnderlyingGet(c)
    case _ => None
  }

  function ExtractColumnIndex(e: Expression, s: Scan): Option<nat> {
    match e
    case Computed(_) => None
    case Ref(i) =>
      if s.projectionIds != [] && i >= |s.projectionIds| then None
      else
        var mapped := if s.projectionIds == [] then i else s.projectionIds[i];
        if mapped >= |s.columnIds| || !s.columnIds[mapped].kind.Whole? then None else Some(mapped)
  }

  /** The scanned column that an expression over the output of `p` refers to. */
  function ResolveColumnIndex(e: Expression, p: Plan, s: Scan): Option<nat>
    decreases p
  {
    match p
    case Projection(es, c) =>
      if e.Ref? then
        if e.index >= |es| then None else ResolveColumnIndex(es[e.index], c, s)
      else ResolveColumnIndex(e, c, s)
    case _ => ExtractColumnIndex(e, s)
  }

  function ResolveOrders(orders: seq<OrderNode>, p: Plan, s: Scan): Option<seq<OrderSpec>> {
    if orders == [] then Some([])
    else
      var front := ResolveOrders(orders[..|orders| - 1], p, s);
      var node := orders[|orders| - 1];
      var column := ResolveColumnIndex(node.expression, p, s);
      if front.None? || column.None? then None
      else Some(front.value + [OrderSpec(column.value, node.orderType, node.nullOrder)])
  }

  /** The plan with the query parts of its underlying scan replaced. */
  function SetQuery(p: Plan, orderBys: seq<OrderSpec>, limit: Option<nat>, offset: nat): Plan
    decreases p
  {
    match p
    case Get(s) => Get(s.(orderBys := orderBys, limit := limit, offset := offset))
    case Projection(es, c) => Projection(es, SetQuery(c, orderBys, limit, offset))
    case _ => p
  }

  predicate IsSort(p: Plan) {
    p.Order? || p.TopN?
  }

  /** Whether an index supports an ordering is left open, except that an empty one is never pushed. */
  predicate IndexSupports(supports: seq<OrderSpec> -> bool, specs: seq<OrderSpec>) {
    specs != [] && supports(specs)
  }

  function WithChild(op: Plan, c: Plan): Plan
    requires IsSort(op)
  {
    match op
    case Order(orders, _) => Order(orders, c)
    case TopN(orders, limit, offset, _) => TopN(orders, limit, offset, c)
  }

  /** The limit that a sort brings into the scan: an ORDER BY brings none. */
  function SortLimit(op: Plan): Option<nat> {
    if op.TopN? then Some(op.limit) else None
  }

  function SortOffset(op: Plan): nat {
    if op.TopN? then op.offset else 0
  }

  /**
   Tries to move the sort at the top of a plan into the scan.  The query parts of the scan are
   cleared before it is known whether the sort can be moved.
   */
  function TryPushdownOrder(op: Plan, supports: seq<OrderSpec> -> bool): Plan {
    if !IsSort(op) then op
    else
      var scan := FindUnderlyingGet(op.child);
      if scan.None? || !scan.value.isPostgres then op
      else
        var specs := ResolveOrders(op.orders, op.child, scan.value);
        if specs.None? || !IndexSupports(supports, specs.value) then WithChild(op, SetQuery(op.child, [], None, 0))
        else SetQuery(op.child, specs.value, SortLimit(op), SortOffset(op))
  }

  /** The sort moves: it stands over a PostgreSQL scan, all its keys resolve, and an index supports them. */
  predicate Pushes(op: Plan, supports: seq<OrderSpec> -> bool) {
    IsSort(op) &&
    var scan := FindUnderlyingGet(op.child);
    scan.Some? && scan.value.isPostgres &&
    var specs := ResolveOrders(op.orders, op.child, scan.value);
    specs.Some? && IndexSupports(supports, specs.value)
  }

  /** Children first, then the operator itself. */
  function PushdownRecursive(p: Plan, supports: seq<OrderSpec> -> bool): Plan
    decreases p
  {
    match p
    case Get(_) => p
    case Projection(es, c) => Projection(es, PushdownRecursive(c, supports))
    case Order(orders, c) => TryPushdownOrder(Order(orders, PushdownRecursive(c, supports)), supports)
    case TopN(orders, limit, offset, c) =>
      TryPushdownOrder(TopN(orders, limit, offset, PushdownRecursive(c, supports)), supports)
    case Other(cs, relation) =>
      Other(seq(|cs|, i requires 0 <= i < |cs| => PushdownRecursive(cs[i], supports)), relation)
  }

  // ---------- stacks of projections ----------

  /** The output row that a stack of projections makes of a base row. */
  function OutputRow(p: Plan, row: Row): Row
    decreases p
  {
    match p
    case Get(s) => Projected(s)(row)
    case Projection(es, c) => Computes(es)(OutputRow(c, row))
    case _ => row
  }

  function OutputOf(p: Plan): Row -> Row {
    row => OutputRow(p, row)
  }

  /** A stack returns exactly the images of what its scan may fetch. */
  lemma {:induction false} StackAllowed(p: Plan, s: Scan, db: Database, out: seq<Row>)
    requires FindUnderlyingGet(p) == Some(s)
    ensures Allowed(p, db, out) <==>
              exists base :: Fetches(s, db, base) && out == MapRows(OutputOf(p), ScanCut(s, base))
    decreases p
  {
    match p
    case Get(_) =>
      forall base ensures MapRows(OutputOf(p), ScanCut(s, base)) == MapRows(Projected(s), ScanCut(s, base)) {
      }
    case Projection(es, c) =>
      forall base
        ensures MapRows(OutputOf(p), ScanCut(s, base)) == MapRows(Computes(es), MapRows(OutputOf(c), ScanCut(s, base)))
      {
      }
      if Allowed(p, db, out) {
        var rows :| Allowed(c, db, rows) && out == MapRows(Computes(es), rows);
        StackAllowed(c, s, db, rows);
      }
      if base :| Fetches(s, db, base) && out == MapRows(OutputOf(p), ScanCut(s, base)) {
        StackAllowed(c, s, db, MapRows(OutputOf(c), ScanCut(s, base)));
      }
  }

  lemma {:induction false} ComputedNeverResolves(e: Expression, p: Plan, s: Scan)
    requires e.Computed?
    ensures ResolveColumnIndex(e, p, s) == None
    decreases p
  {
    if p.Projection? { ComputedNeverResolves(e, p.child, s); }
  }

  /** The column a key resolves to holds the value the key evaluates to, through any stack of projections. */
  lemma {:induction false} ResolvesToValue(e: Expression, p: Plan, s: Scan, row: Row)
    requires FindUnderlyingGet(p) == Some(s) && ResolveColumnIndex(e, p, s).Some?
    ensures Evaluate(e, OutputRow(p, row)) == CellAt(row, ResolveColumnIndex(e, p, s).value)
    decreases p
  {
    if e.Computed? {
      ComputedNeverResolves(e, p, s);
    } else if p.Projection? {
      ResolvesToValue(p.expressions[e.index], p.child, s, row);
    }
  }

  predicate ResolvedTo(orders: seq<OrderNode>, p: Plan, s: Scan, specs: seq<OrderSpec>) {
    |specs| == |orders| && forall i :: 0 <= i < |orders| ==>
      && Some(specs[i].column) == ResolveColumnIndex(orders[i].expression, p, s)
      && specs[i].orderType == orders[i].orderType && specs[i].nullOrder == orders[i].nullOrder
  }

  lemma {:induction false} SpecsResolve(orders: seq<OrderNode>, p: Plan, s: Scan)
    requires ResolveOrders(orders, p, s).Some?
    ensures ResolvedTo(orders, p, s, ResolveOrders(orders, p, s).value)
  {
    if orders != [] { SpecsResolve(orders[..|orders| - 1], p, s); }
  }

  /** The emitted keys are those of the sort, key by key. */
  lemma {:induction false} SpecsAgree(rank: Ranking, orders: seq<OrderNode>, p: Plan, s: Scan)
    requires ResolveOrders(orders, p, s).Some?
    ensures ResolvedTo(orders, p, s, ResolveOrders(orders, p, s).value)
    ensures SameKeys(NodeKeys(rank, orders), SpecKeys(s.columnIds, ResolveOrders(orders, p, s).value))
  {
    hide ReadSuffix, OrderSuffix, ResolveOrders;
    SpecsResolve(orders, p, s);
    var specs := ResolveOrders(orders, p, s).value;
    forall i | 0 <= i < |orders|
      ensures SpecKeys(s.columnIds, specs)[i] == NodeKeys(RankOf(s.columnIds, specs[i].column), orders)[i]
    {
      SuffixAgrees(orders[i].orderType, orders[i].nullOrder, RankOf(s.columnIds, specs[i].column));
    }
  }

  /** A resolved key is an index into the scanned columns. */
  lemma {:induction false} ResolvedInRange(e: Expression, p: Plan, s: Scan)
    requires ResolveColumnIndex(e, p, s).Some?
    ensures ResolveColumnIndex(e, p, s).value < |s.columnIds|
    decreases p
  {
    if p.Projection? {
      if e.Ref? {
        ResolvedInRange(p.expressions[e.index], p.child, s);
      } else {
        ResolvedInRange(e, p.child, s);
      }
    }
  }

  /** Both engines order the values of the key columns alike. */
  ghost predicate KeysAgree(rank: Ranking, orders: seq<OrderNode>, p: Plan, s: Scan) {
    ResolveOrders(orders, p, s).Some? &&
    forall i :: 0 <= i < |ResolveOrders(orders, p, s).value| ==>
      SameOrder(rank, RankOf(s.columnIds, ResolveOrders(orders, p, s).value[i].column))
  }

  lemma {:induction false} ValuesAgree(orders: seq<OrderNode>, p: Plan, s: Scan, row: Row)
    requires FindUnderlyingGet(p) == Some(s) && ResolveOrders(orders, p, s).Some?
    ensures NodeValues(orders)(OutputRow(p, row)) == SpecValues(ResolveOrders(orders, p, s).value)(row)
  {
    SpecsAgree(NATURAL, orders, p, s);
    var specs := ResolveOrders(orders, p, s).value;
    forall i | 0 <= i < |orders|
      ensures Evaluate(orders[i].expression, OutputRow(p, row)) == CellAt(row, specs[i].column)
    {
      ResolvesToValue(orders[i].expression, p, s, row);
    }
  }

  /** Rows that the scan sorted are sorted above the projections, by the order that the scan gives to values ... */
  lemma {:induction false} SortedThrough(orders: seq<OrderNode>, p: Plan, s: Scan, base: seq<Row>)
    requires FindUnderlyingGet(p) == Some(s) && ResolveOrders(orders, p, s).Some?
    requires var specs := ResolveOrders(orders, p, s).value;
             Sorted(base, SpecKeys(s.columnIds, specs), SpecValues(specs))
    ensures |ResolveOrders(orders, p, s).value| == |orders|
    ensures Sorted(MapRows(OutputOf(p), base),
                   SpecKeys(s.columnIds, ResolveOrders(orders, p, s).value), NodeValues(orders))
  {
    hide KeyLess;
    var specs := ResolveOrders(orders, p, s).value;
    var ks := SpecKeys(s.columnIds, specs);
    SpecsAgree(NATURAL, orders, p, s);
    var rows := MapRows(OutputOf(p), base);
    forall i, j | 0 <= i < j < |rows| ensures !KeyLess(ks, NodeValues(orders)(rows[j]), NodeValues(orders)(rows[i])) {
      ValuesAgree(orders, p, s, base[i]);
      ValuesAgree(orders, p, s, base[j]);
    }
  }

  /** ... and, where both engines order the key columns alike, for the operator above the projections. */
  lemma {:induction false} SortedAlike(rank: Ranking, orders: seq<OrderNode>, p: Plan, s: Scan, rows: seq<Row>)
    requires FindUnderlyingGet(p) == Some(s) && KeysAgree(rank, orders, p, s)
    requires Sorted(rows, SpecKeys(s.columnIds, ResolveOrders(orders, p, s).value), NodeValues(orders))
    ensures Sorted(rows, NodeKeys(rank, orders), NodeValues(orders))
  {
    hide KeyLess;
    SpecsAgree(rank, orders, p, s);
    var ks, v := NodeKeys(rank, orders), NodeValues(orders);
    var qs := SpecKeys(s.columnIds, ResolveOrders(orders, p, s).value);
    forall i, j | 0 <= i < j < |rows| ensures !KeyLess(ks, v(rows[j]), v(rows[i])) {
      KeyLessAgrees(ks, qs, v(rows[j]), v(rows[i]));
    }
  }

  lemma {:induction false} SetQueryStack(p: Plan, s: Scan, orderBys: seq<OrderSpec>, limit: Option<nat>,
      offset: nat, row: Row)
    requires FindUnderlyingGet(p) == Some(s)
    ensures FindUnderlyingGet(SetQuery(p, orderBys, limit, offset)) ==
            Some(s.(orderBys := orderBys, limit := limit, offset := offset))
    ensures OutputRow(SetQuery(p, orderBys, limit, offset), row) == OutputRow(p, row)
    decreases p
  {
    if p.Projection? { SetQueryStack(p.child, s, orderBys, limit, offset, row); }
  }

  /** What a stack with a replaced query returns, in terms of the stack itself. */
  lemma SetQueryAllowed(p: Plan, s: Scan, orderBys: seq<OrderSpec>, limit: Option<nat>, offset: nat, db: Database,
      out: seq<Row>) returns (base: seq<Row>)
    requires FindUnderlyingGet(p) == Some(s)
    requires Allowed(SetQuery(p, orderBys, limit, offset), db, out)
    ensures var t := s.(orderBys := orderBys, limit := limit, offset := offset);
            Fetches(t, db, base) && out == MapRows(OutputOf(p), ScanCut(t, base))
  {
    hide Fetches, ScanCut;
    var q := SetQuery(p, orderBys, limit, offset);
    var t := s.(orderBys := orderBys, limit := limit, offset := offset);
    SetQueryStack(p, s, orderBys, limit, offset, []);
    StackAllowed(q, t, db, out);
    base :| Fetches(t, db, base) && out == MapRows(OutputOf(q), ScanCut(t, base));
    forall row ensures OutputRow(q, row) == OutputRow(p, row) {
      SetQueryStack(p, s, orderBys, limit, offset, row);
    }
    assert MapRows(OutputOf(q), ScanCut(t, base)) == MapRows(OutputOf(p), ScanCut(t, base));
  }

  /** A scan without a limit can return its table in an order its query asks for. */
  lemma SomeResult(p: Plan, s: Scan, db: Database, base: seq<Row>) returns (rows: seq<Row>)
    requires FindUnderlyingGet(p) == Some(s) && !CutsRows(s) && multiset(base) == multiset(db.rows(s.table))
    ensures Allowed(p, db, rows) && multiset(rows) == multiset(MapRows(OutputOf(p), base))
  {
    var fetched := base;
    if s.orderBys != [] {
      fetched := SortExists(base, SpecKeys(s.columnIds, s.orderBys), SpecValues(s.orderBys));
    }
    SortedIsFetched(s, db, fetched);
    rows := MapRows(OutputOf(p), fetched);
    MapPermutation(OutputOf(p), fetched, base);
    assert Fetches(s, db, fetched) && rows == MapRows(OutputOf(p), ScanCut(s, fetched));
    StackAllowed(p, s, db, rows);
  }

  // ---------- one pushdown keeps the meaning ----------

  /** Every result of `p` is a result of `q`. */
  ghost predicate Refines(p: Plan, q: Plan, db: Database) {
    forall out :: Allowed(p, db, out) ==> Allowed(q, db, out)
  }

  /** The scan that a sort sees below it carries no limit. */
  predicate NoLimitBelow(c: Plan) {
    FindUnderlyingGet(c).Some? ==> !CutsRows(FindUnderlyingGet(c).value)
  }

  /** When the sort stays, clearing the order of the scan below it changes nothing. */
  lemma {:induction false} ClearedRefines(op: Plan, s: Scan, db: Database, out: seq<Row>)
    requires IsSort(op) && FindUnderlyingGet(op.child) == Some(s) && !CutsRows(s)
    requires Allowed(WithChild(op, SetQuery(op.child, [], None, 0)), db, out)
    ensures Allowed(op, db, out)
  {
    var cleared := SetQuery(op.child, [], None, 0);
    var rows, sorted: seq<Row>;
    if op.Order? {
      rows :| Allowed(cleared, db, rows) && SortOf(db.setup.rank, op.orders, rows, out);
      sorted := out;
    } else {
      rows, sorted :| Allowed(cleared, db, rows) && SortOf(db.setup.rank, op.orders, rows, sorted) &&
          out == Cut(sorted, op.offset, op.limit);
    }
    var base := SetQueryAllowed(op.child, s, [], None, 0, db, rows);
    var again := SomeResult(op.child, s, db, base);
    assert SortOf(db.setup.rank, op.orders, again, sorted);
  }

  /** When the sort moves into the scan, the scan returns what the sort could have returned. */
  lemma {:induction false} PushedRefines(op: Plan, s: Scan, specs: seq<OrderSpec>, db: Database, out: seq<Row>)
    requires IsSort(op) && FindUnderlyingGet(op.child) == Some(s) && !CutsRows(s)
    requires ResolveOrders(op.orders, op.child, s) == Some(specs) && specs != []
    requires KeysAgree(db.setup.rank, op.orders, op.child, s)
    requires op.Order? ==> Degree(db.setup, WithSort(s, specs, op)) <= 1
    requires Allowed(SetQuery(op.child, specs, SortLimit(op), SortOffset(op)), db, out)
    ensures Allowed(op, db, out)
  {
    var base := SetQueryAllowed(op.child, s, specs, SortLimit(op), SortOffset(op), db, out);
    FetchedIsSorted(WithSort(s, specs, op), db, base);
    var rows := SomeResult(op.child, s, db, base);
    var sorted := MapRows(OutputOf(op.child), base);
    SortedThrough(op.orders, op.child, s, base);
    SortedAlike(db.setup.rank, op.orders, op.child, s, sorted);
    assert SortOf(db.setup.rank, op.orders, rows, sorted);
    if op.TopN? {
      MapCut(OutputOf(op.child), base, op.offset, op.limit);
    }
  }

  /** The scan with the query parts of a sort. */
  function WithSort(s: Scan, specs: seq<OrderSpec>, op: Plan): Scan {
    s.(orderBys := specs, limit := SortLimit(op), offset := SortOffset(op))
  }

  /**
   A sort that moves into the scan meets the same order of values there, and an ORDER BY is read through
   one stream only.
   */
  ghost predicate MovesSafely(setup: Setup, op: Plan, supports: seq<OrderSpec> -> bool) {
    Pushes(op, supports) ==>
      var s := FindUnderlyingGet(op.child).value;
      && KeysAgree(setup.rank, op.orders, op.child, s)
      && (op.Order? ==> Degree(setup, WithSort(s, ResolveOrders(op.orders, op.child, s).value, op)) <= 1)
  }

  /** A sort keeps its meaning when it finds no limit below it and moves safely. */
  lemma TryRefines(op: Plan, supports: seq<OrderSpec> -> bool, db: Database)
    requires IsSort(op) ==> NoLimitBelow(op.child) && MovesSafely(db.setup, op, supports)
    ensures Refines(TryPushdownOrder(op, supports), op, db)
  {
    if IsSort(op) && FindUnderlyingGet(op.child).Some? && FindUnderlyingGet(op.child).value.isPostgres {
      var s := FindUnderlyingGet(op.child).value;
      var specs := ResolveOrders(op.orders, op.child, s);
      forall out | Allowed(TryPushdownOrder(op, supports), db, out) ensures Allowed(op, db, out) {
        if specs.None? || !IndexSupports(supports, specs.value) {
          ClearedRefines(op, s, db, out);
        } else {
          PushedRefines(op, s, specs.value, db, out);
        }
      }
    }
  }

  // ---------- the whole plan ----------

  /** Every sort of the plan finds no limit below it and moves safely. */
  ghost predicate PushSafe(p: Plan, setup: Setup, supports: seq<OrderSpec> -> bool)
    decreases p
  {
    match p
    case Get(_) => true
    case Projection(_, c) => PushSafe(c, setup, supports)
    case Order(orders, c) =>
      var child := PushdownRecursive(c, supports);
      PushSafe(c, setup, supports) && NoLimitBelow(child) && MovesSafely(setup, Order(orders, child), supports)
    case TopN(orders, limit, offset, c) =>
      var child := PushdownRecursive(c, supports);
      && PushSafe(c, setup, supports) && NoLimitBelow(child)
      && MovesSafely(setup, TopN(orders, limit, offset, child), supports)
    case Other(cs, _) => forall i :: 0 <= i < |cs| ==> PushSafe(cs[i], setup, supports)
  }

  lemma SortMonotone(op: Plan, c: Plan, db: Database)
    requires IsSort(op) && Refines(c, op.child, db)
    ensures Refines(WithChild(op, c), op, db)
  {
  }

  /** Whatever the optimizer moves, every result of the new plan is a result of the old one. */
  lemma {:induction false} PushdownRefines(p: Plan, supports: seq<OrderSpec> -> bool, db: Database)
    requires PushSafe(p, db.setup, supports)
    ensures Refines(PushdownRecursive(p, supports), p, db)
    decreases p
  {
    match p
    case Get(_) =>
    case Projection(es, c) =>
      PushdownRefines(c, supports, db);
    case Order(orders, c) =>
      var c' := PushdownRecursive(c, supports);
      PushdownRefines(c, supports, db);
      TryRefines(Order(orders, c'), supports, db);
      SortMonotone(p, c', db);
    case TopN(orders, limit, offset, c) =>
      var c' := PushdownRecursive(c, supports);
      PushdownRefines(c, supports, db);
      TryRefines(TopN(orders, limit, offset, c'), supports, db);
      SortMonotone(p, c', db);
    case Other(cs, relation) =>
      forall i | 0 <= i < |cs| ensures Refines(PushdownRecursive(cs[i], supports), cs[i], db) {
        PushdownRefines(cs[i], supports, db);
      }
  }

  /** A TOP_N sits at the top, or below projections only. */
  predicate TopNBelow(p: Plan) {
    p.TopN? || (p.Projection? && TopNBelow(p.child))
  }

  /** No more than one worker is ever launched for a scan. */
  predicate OneWorker(setup: Setup) {
    setup.maxPerScan <= 1 || setup.maxParallel <= 1
  }

  /** PostgreSQL orders the values of all scanned columns as DuckDB does. */
  ghost predicate OneOrder(rank: Ranking, ids: seq<ColumnId>) {
    forall k :: 0 <= k < |ids| ==> SameOrder(rank, ids[k].rank)
  }

  /**
   No sort sits over a TOP_N through projections only, no scan carries a query part yet, the engines order
   values alike, and a plan with an ORDER BY is run with one worker per scan.
   */
  ghost predicate Pushable(p: Plan, setup: Setup)
    decreases p
  {
    match p
    case Get(s) => s.limit.None? && OneOrder(setup.rank, s.columnIds)
    case Projection(_, c) => Pushable(c, setup)
    case Order(_, c) => OneWorker(setup) && Pushable(c, setup) && !TopNBelow(c)
    case TopN(_, _, _, c) => Pushable(c, setup) && !TopNBelow(c)
    case Other(cs, _) => forall i :: 0 <= i < |cs| ==> Pushable(cs[i], setup)
  }

  /** The scan that a plan ends in after pushdown still reads columns that the engines order alike. */
  lemma {:induction false} ScanKeepsOrder(p: Plan, setup: Setup, supports: seq<OrderSpec> -> bool)
    requires Pushable(p, setup)
    ensures var scan := FindUnderlyingGet(PushdownRecursive(p, supports));
            scan.Some? ==> OneOrder(setup.rank, scan.value.columnIds)
    decreases p
  {
    if p.Projection? {
      ScanKeepsOrder(p.child, setup, supports);
    } else if IsSort(p) {
      var c := PushdownRecursive(p.child, supports);
      ScanKeepsOrder(p.child, setup, supports);
      var op := WithChild(p, c);
      if Pushes(op, supports) {
        var s := FindUnderlyingGet(c).value;
        SetQueryStack(c, s, ResolveOrders(op.orders, c, s).value, SortLimit(op), SortOffset(op), []);
      }
    }
  }

  lemma OneOrderMoves(op: Plan, setup: Setup, supports: seq<OrderSpec> -> bool)
    requires IsSort(op) && (op.Order? ==> OneWorker(setup))
    requires var scan := FindUnderlyingGet(op.child); scan.Some? ==> OneOrder(setup.rank, scan.value.columnIds)
    ensures MovesSafely(setup, op, supports)
  {
    if Pushes(op, supports) {
      var s := FindUnderlyingGet(op.child).value;
      var specs := ResolveOrders(op.orders, op.child, s).value;
      SpecsAgree(setup.rank, op.orders, op.child, s);
      forall i | 0 <= i < |specs| ensures SameOrder(setup.rank, RankOf(s.columnIds, specs[i].column)) {
        ResolvedInRange(op.orders[i].expression, op.child, s);
      }
    }
  }

  lemma {:induction false} SetQueryLimit(p: Plan, orderBys: seq<OrderSpec>)
    ensures NoLimitBelow(SetQuery(p, orderBys, None, 0))
    decreases p
  {
    if p.Projection? { SetQueryLimit(p.child, orderBys); }
  }

  lemma {:induction false} OnlyTopNLimits(p: Plan, setup: Setup, supports: seq<OrderSpec> -> bool)
    requires Pushable(p, setup) && !TopNBelow(p)
    ensures NoLimitBelow(PushdownRecursive(p, supports))
    decreases p
  {
    match p
    case Projection(_, c) => OnlyTopNLimits(c, setup, supports);
    case Order(orders, c) =>
      forall specs ensures NoLimitBelow(SetQuery(PushdownRecursive(c, supports), specs, None, 0)) {
        SetQueryLimit(PushdownRecursive(c, supports), specs);
      }
    case _ =>
  }

  /** The condition on the plan itself is enough. */
  lemma {:induction false} PushableIsSafe(p: Plan, setup: Setup, supports: seq<OrderSpec> -> bool)
    requires Pushable(p, setup)
    ensures PushSafe(p, setup, supports)
    decreases p
  {
    match p
    case Get(_) =>
    case Projection(_, c) => PushableIsSafe(c, setup, supports);
    case Order(orders, c) =>
      PushableIsSafe(c, setup, supports);
      OnlyTopNLimits(c, setup, supports);
      ScanKeepsOrder(c, setup, supports);
      OneOrderMoves(Order(orders, PushdownRecursive(c, supports)), setup, supports);
    case TopN(orders, limit, offset, c) =>
      PushableIsSafe(c, setup, supports);
      OnlyTopNLimits(c, setup, supports);
      ScanKeepsOrder(c, setup, supports);
      OneOrderMoves(TopN(orders, limit, offset, PushdownRecursive(c, supports)), setup, supports);
    case Other(cs, _) =>
      forall i | 0 <= i < |cs| ensures PushSafe(cs[i], setup, supports) {
        PushableIsSafe(cs[i], setup, supports);
      }
  }

  // ---------- the rewrite in place ----------

  /** A sort that stands over a PostgreSQL scan through projections only. */
  predicate OverScan(op: Plan) {
    IsSort(op) &&
    var scan := FindUnderlyingGet(op.child);
    scan.Some? && scan.value.isPostgres
  }

  /** The query parts that a scan shares with the optimizer, which writes them in place. */
  class BindData {
    var orderBys: seq<OrderSpec>
    var limit: Option<nat>
    var offset: nat

    constructor ()
      ensures orderBys == [] && limit == None && offset == 0
    {
      orderBys, limit, offset := [], None, 0;
    }

    /** The operator that a rewrite leaves, with its scan reading its query parts here. */
    function Left(op: Plan, moved: bool): Plan
      reads this
    {
      if !OverScan(op) then op
      else if moved then SetQuery(op.child, orderBys, limit, offset)
      else WithChild(op, SetQuery(op.child, orderBys, limit, offset))
    }

    /** The pushdown of one operator over the scan of these data, with its loop over the sort keys. */
    method PushdownOneOperator(op: Plan, supports: seq<OrderSpec> -> bool) returns (moved: bool)
      modifies this
      ensures moved <==> Pushes(op, supports)
      ensures Left(op, moved) == TryPushdownOrder(op, supports)
      ensures !OverScan(op) ==> unchanged(this)
    {
      if !op.Order? && !op.TopN? {
        return false;
      }
      var get := FindUnderlyingGet(op.child);
      if get.None? || !get.value.isPostgres {
        return false;
      }
      orderBys, limit, offset := [], None, 0;
      var specs: seq<OrderSpec> := [];
      var i := 0;
      while i < |op.orders|
        invariant 0 <= i <= |op.orders|
        invariant ResolveOrders(op.orders[..i], op.child, get.value) == Some(specs)
        invariant orderBys == [] && limit == None && offset == 0
      {
        assert op.orders[..i + 1][..i] == op.orders[..i];
        var column := ResolveColumnIndex(op.orders[i].expression, op.child, get.value);
        if column.None? {
          ResolveOrdersFails(op.orders, op.child, get.value, i + 1);
          return false;
        }
        specs := specs + [OrderSpec(column.value, op.orders[i].orderType, op.orders[i].nullOrder)];
        i := i + 1;
      }
      assert op.orders[..|op.orders|] == op.orders;
      if specs == [] || !supports(specs) {
        return false;
      }
      orderBys := specs;
      if op.TopN? {
        limit, offset := Some(op.limit), op.offset;
      }
      return true;
    }
  }

  lemma {:induction false} ResolveOrdersFails(orders: seq<OrderNode>, p: Plan, s: Scan, k: nat)
    requires k <= |orders| && ResolveOrders(orders[..k], p, s) == None
    ensures ResolveOrders(orders, p, s) == None
    decreases |orders|
  {
    if k == |orders| {
      assert orders[..k] == orders;
    } else {
      assert orders[..|orders| - 1][..k] == orders[..k];
      ResolveOrdersFails(orders[..|orders| - 1], p, s, k);
    }
  }
}

