/**
 What libpgduckdb/scan/order_pushdown_optimizer.cpp must move: a sort stays only where it has to, one
 pass over the plan is enough, and a sort that moves names whole columns of the table.
 */
module PushdownComplete {
  import opened Basics
  import opened Sorting
  import opened OrderPushdown

  // ---------- which keys resolve ----------

  /** The expression, over the output of a stack of projections, is a chain of references to scanned column `k`. */
  predicate RefersTo(e: Expression, p: Plan, k: nat)
    decreases p
  {
    e.Ref? &&
    match p
    case Get(s) =>
      if s.projectionIds == [] then e.index == k else e.index < |s.projectionIds| && s.projectionIds[e.index] == k
    case Projection(es, c) => e.index < |es| && RefersTo(es[e.index], c, k)
    case _ => false
  }

  predicate IsWhole(s: Scan, k: nat) {
    k < |s.columnIds| && s.columnIds[k].kind.Whole?
  }

  /** A key resolves to a column if and only if it refers to it and the column is a whole column of the table. */
  lemma {:induction false} ResolvesIff(e: Expression, p: Plan, s: Scan, k: nat)
    requires FindUnderlyingGet(p) == Some(s)
    ensures ResolveColumnIndex(e, p, s) == Some(k) <==> RefersTo(e, p, k) && IsWhole(s, k)
    decreases p
  {
    if e.Computed? {
      ComputedNeverResolves(e, p, s);
    } else if p.Projection? && e.index < |p.expressions| {
      ResolvesIff(p.expressions[e.index], p.child, s, k);
    }
  }

  /** The specs name, key by key, the whole columns that the sort keys refer to, in the same directions. */
  predicate NamesColumns(orders: seq<OrderNode>, p: Plan, s: Scan, specs: seq<OrderSpec>) {
    |specs| == |orders| && forall i :: 0 <= i < |orders| ==>
      && RefersTo(orders[i].expression, p, specs[i].column) && IsWhole(s, specs[i].column)
      && specs[i].orderType == orders[i].orderType && specs[i].nullOrder == orders[i].nullOrder
  }

  lemma {:induction false} ResolveOrdersIff(orders: seq<OrderNode>, p: Plan, s: Scan, specs: seq<OrderSpec>)
    requires FindUnderlyingGet(p) == Some(s)
    ensures ResolveOrders(orders, p, s) == Some(specs) <==> NamesColumns(orders, p, s, specs)
  {
    hide RefersTo, IsWhole;
    if ResolveOrders(orders, p, s) == Some(specs) {
      SpecsResolve(orders, p, s);
      forall i | 0 <= i < |orders|
        ensures RefersTo(orders[i].expression, p, specs[i].column) && IsWhole(s, specs[i].column)
      {
        ResolvesIff(orders[i].expression, p, s, specs[i].column);
      }
    }
    if NamesColumns(orders, p, s, specs) && orders != [] {
      var n := |orders| - 1;
      assert NamesColumns(orders[..n], p, s, specs[..n]);
      ResolveOrdersIff(orders[..n], p, s, specs[..n]);
      ResolvesIff(orders[n].expression, p, s, specs[n].column);
      assert specs == specs[..n] + [specs[n]];
    }
  }

  /**
   A sort over a scan moves if and only if the scan is a PostgreSQL scan, there is a key, every key refers
   to a whole column, and an index supports the order on those columns.
   */
  lemma PushesIff(op: Plan, s: Scan, supports: seq<OrderSpec> -> bool)
    requires IsSort(op) && FindUnderlyingGet(op.child) == Some(s)
    ensures Pushes(op, supports) <==>
              && s.isPostgres && op.orders != []
              && exists specs :: NamesColumns(op.orders, op.child, s, specs) && supports(specs)
  {
    hide NamesColumns;
    if Pushes(op, supports) {
      ResolveOrdersIff(op.orders, op.child, s, ResolveOrders(op.orders, op.child, s).value);
    }
    if specs :| NamesColumns(op.orders, op.child, s, specs) && supports(specs) {
      ResolveOrdersIff(op.orders, op.child, s, specs);
      if op.orders != [] { NoneForgotten(op.orders, op.child, s, specs); }
    }
  }

  lemma NoneForgotten(orders: seq<OrderNode>, p: Plan, s: Scan, specs: seq<OrderSpec>)
    requires NamesColumns(orders, p, s, specs)
    ensures |specs| == |orders|
  {
  }

  // ---------- the scan that a sort moves into ----------

  /** The same stack of projections over the same scan, but for the query parts of the scan. */
  lemma {:induction false} SetQuerySame(p: Plan, s: Scan, orderBys: seq<OrderSpec>, limit: Option<nat>, offset: nat)
    requires FindUnderlyingGet(p) == Some(s)
    ensures FindUnderlyingGet(SetQuery(p, orderBys, limit, offset)) ==
            Some(s.(orderBys := orderBys, limit := limit, offset := offset))
    ensures forall e, k :: RefersTo(e, SetQuery(p, orderBys, limit, offset), k) <==> RefersTo(e, p, k)
    decreases p
  {
    if p.Projection? { SetQuerySame(p.child, s, orderBys, limit, offset); }
  }

  /** A sort that moves leaves its child, whose scan sorts by the columns its keys refer to, whole ones only. */
  lemma MovedNamesColumns(op: Plan, s: Scan, supports: seq<OrderSpec> -> bool)
    requires Pushes(op, supports) && FindUnderlyingGet(op.child) == Some(s)
    ensures var scan := FindUnderlyingGet(TryPushdownOrder(op, supports));
            && scan.Some? && NamesColumns(op.orders, op.child, s, scan.value.orderBys)
            && scan.value == s.(orderBys := scan.value.orderBys, limit := SortLimit(op), offset := SortOffset(op))
  {
    var specs := ResolveOrders(op.orders, op.child, s).value;
    ResolveOrdersIff(op.orders, op.child, s, specs);
    SetQuerySame(op.child, s, specs, SortLimit(op), SortOffset(op));
  }

  /** A sort that stays clears what was asked of a PostgreSQL scan below it; without such a scan nothing changes. */
  lemma {:induction false} KeptSortClears(op: Plan, supports: seq<OrderSpec> -> bool)
    requires IsSort(op) && !Pushes(op, supports)
    ensures !OverScan(op) ==> TryPushdownOrder(op, supports) == op
    ensures OverScan(op) ==>
              var left := TryPushdownOrder(op, supports);
              && IsSort(left) && left == WithChild(op, left.child)
              && FindUnderlyingGet(left.child) ==
                 Some(FindUnderlyingGet(op.child).value.(orderBys := [], limit := None, offset := 0))
  {
    if OverScan(op) { SetQuerySame(op.child, FindUnderlyingGet(op.child).value, [], None, 0); }
  }

  /** Every scan of the plan sorts by whole columns only. */
  predicate SortsByWhole(p: Plan)
    decreases p
  {
    match p
    case Get(s) => forall i :: 0 <= i < |s.orderBys| ==> IsWhole(s, s.orderBys[i].column)
    case Projection(_, c) => SortsByWhole(c)
    case Order(_, c) => SortsByWhole(c)
    case TopN(_, _, _, c) => SortsByWhole(c)
    case Other(cs, _) => forall i :: 0 <= i < |cs| ==> SortsByWhole(cs[i])
  }

  lemma {:induction false} SetQuerySorts(p: Plan, s: Scan, orderBys: seq<OrderSpec>, limit: Option<nat>, offset: nat)
    requires FindUnderlyingGet(p) == Some(s)
    requires forall i :: 0 <= i < |orderBys| ==> IsWhole(s, orderBys[i].column)
    ensures SortsByWhole(SetQuery(p, orderBys, limit, offset))
    decreases p
  {
    if p.Projection? { SetQuerySorts(p.child, s, orderBys, limit, offset); }
  }

  lemma {:induction false} TrySortsByWhole(op: Plan, supports: seq<OrderSpec> -> bool)
    requires SortsByWhole(op)
    ensures SortsByWhole(TryPushdownOrder(op, supports))
  {
    if OverScan(op) {
      var s := FindUnderlyingGet(op.child).value;
      SetQuerySorts(op.child, s, [], None, 0);
      if Pushes(op, supports) {
        var specs := ResolveOrders(op.orders, op.child, s).value;
        ResolveOrdersIff(op.orders, op.child, s, specs);
        SetQuerySorts(op.child, s, specs, SortLimit(op), SortOffset(op));
      }
    }
  }

  /** No pushdown, anywhere in any plan, makes a scan sort by a nested or a virtual column. */
  lemma {:induction false} PushdownSortsByWhole(p: Plan, supports: seq<OrderSpec> -> bool)
    requires SortsByWhole(p)
    ensures SortsByWhole(PushdownRecursive(p, supports))
    decreases p
  {
    match p
    case Get(_) =>
    case Projection(_, c) => PushdownSortsByWhole(c, supports);
    case Order(orders, c) =>
      PushdownSortsByWhole(c, supports);
      TrySortsByWhole(Order(orders, PushdownRecursive(c, supports)), supports);
    case TopN(orders, limit, offset, c) =>
      PushdownSortsByWhole(c, supports);
      TrySortsByWhole(TopN(orders, limit, offset, PushdownRecursive(c, supports)), supports);
    case Other(cs, _) =>
      forall i | 0 <= i < |cs| ensures SortsByWhole(PushdownRecursive(cs[i], supports)) {
        PushdownSortsByWhole(cs[i], supports);
      }
  }

  // ---------- nothing is left to move ----------

  /** No operator of the plan is a sort that could still move. */
  predicate NothingLeft(p: Plan, supports: seq<OrderSpec> -> bool)
    decreases p
  {
    match p
    case Get(_) => true
    case Projection(_, c) => NothingLeft(c, supports)
    case Order(_, c) => !Pushes(p, supports) && NothingLeft(c, supports)
    case TopN(_, _, _, c) => !Pushes(p, supports) && NothingLeft(c, supports)
    case Other(cs, _) => forall i :: 0 <= i < |cs| ==> NothingLeft(cs[i], supports)
  }

  lemma {:induction false} StackHasNoSort(p: Plan, supports: seq<OrderSpec> -> bool)
    requires FindUnderlyingGet(p).Some?
    ensures NothingLeft(p, supports) && PushdownRecursive(p, supports) == p
    decreases p
  {
    if p.Projection? { StackHasNoSort(p.child, supports); }
  }

  /** A sort that does not move does not move either once its scan is cleared. */
  lemma ClearedStays(op: Plan, supports: seq<OrderSpec> -> bool)
    requires OverScan(op) && !Pushes(op, supports)
    ensures var left := TryPushdownOrder(op, supports);
            && IsSort(left) && OverScan(left) && !Pushes(left, supports) && TryPushdownOrder(left, supports) == left
            && FindUnderlyingGet(left.child).Some?
  {
    var s := FindUnderlyingGet(op.child).value;
    var child := SetQuery(op.child, [], None, 0);
    var left := WithChild(op, child);
    SetQuerySame(op.child, s, [], None, 0);
    var s' := FindUnderlyingGet(child).value;
    PushesIff(op, s, supports);
    PushesIff(left, s', supports);
    forall specs ensures NamesColumns(op.orders, child, s', specs) <==> NamesColumns(op.orders, op.child, s, specs) {
    }
    SetQueryTwice(op.child);
  }

  lemma {:induction false} SetQueryTwice(p: Plan)
    ensures SetQuery(SetQuery(p, [], None, 0), [], None, 0) == SetQuery(p, [], None, 0)
    decreases p
  {
    if p.Projection? { SetQueryTwice(p.child); }
  }

  /** One sort over a rewritten child: nothing is left to move, and a second pass changes nothing. */
  lemma TryLeavesNothing(op: Plan, supports: seq<OrderSpec> -> bool)
    requires IsSort(op) && NothingLeft(op.child, supports) && PushdownRecursive(op.child, supports) == op.child
    ensures var left := TryPushdownOrder(op, supports);
            NothingLeft(left, supports) && PushdownRecursive(left, supports) == left
  {
    hide Pushes;
    if Pushes(op, supports) {
      MovedIsStack(op, supports);
      StackHasNoSort(TryPushdownOrder(op, supports), supports);
    } else if OverScan(op) {
      ClearedStays(op, supports);
      StackHasNoSort(TryPushdownOrder(op, supports).child, supports);
    } else {
      assert TryPushdownOrder(op, supports) == op;
    }
  }

  lemma MovedIsStack(op: Plan, supports: seq<OrderSpec> -> bool)
    requires Pushes(op, supports)
    ensures FindUnderlyingGet(TryPushdownOrder(op, supports)).Some?
  {
    MovedNamesColumns(op, FindUnderlyingGet(op.child).value, supports);
  }

  /**
   Every sort that can move is gone from the rewritten plan, at every depth, and one pass is enough: a
   second one would change nothing.
   */
  lemma {:induction false} PushdownLeavesNothing(p: Plan, supports: seq<OrderSpec> -> bool)
    ensures NothingLeft(PushdownRecursive(p, supports), supports)
    ensures PushdownRecursive(PushdownRecursive(p, supports), supports) == PushdownRecursive(p, supports)
    decreases p
  {
    match p
    case Get(_) =>
    case Projection(_, c) => PushdownLeavesNothing(c, supports);
    case Order(orders, c) =>
      PushdownLeavesNothing(c, supports);
      TryLeavesNothing(Order(orders, PushdownRecursive(c, supports)), supports);
    case TopN(orders, limit, offset, c) =>
      PushdownLeavesNothing(c, supports);
      TryLeavesNothing(TopN(orders, limit, offset, PushdownRecursive(c, supports)), supports);
    case Other(cs, relation) =>
      var q := PushdownRecursive(p, supports);
      forall i | 0 <= i < |cs|
        ensures NothingLeft(q.children[i], supports) && PushdownRecursive(q.children[i], supports) == q.children[i]
      {
        PushdownLeavesNothing(cs[i], supports);
      }
      assert PushdownRecursive(q, supports).children == q.children;
  }
}
