/**
 The ORDER BY that libpgduckdb/scan/postgres_scan.cpp writes into the scan query names columns of the
 table.  The sort keys of the plan refer to output rows of projections over the scan.
 */
module EmittedOrder {
  import opened Basics
  import opened TupleStreams
  import opened Sorting
  import opened OrderPushdown
  import opened PushdownComplete
  import opened ScanColumns

  function Primaries(ids: seq<ColumnId>): (r: seq<nat>)
    ensures |r| == |ids| && forall k :: 0 <= k < |r| ==> r[k] == ids[k].primary
  {
    seq(|ids|, k requires 0 <= k < |ids| => ids[k].primary)
  }

  /** Every scanned column is a live column of the table. */
  predicate Scannable(attributes: seq<Attribute>, s: Scan) {
    forall k :: 0 <= k < |s.columnIds| ==> s.columnIds[k].primary < |ColumnToAttribute(attributes)|
  }

  /** The row that a scan makes of a tuple of the table: dropped columns have no number. */
  function ScannedRow(attributes: seq<Attribute>, s: Scan, tuple: Tuple): Row
    requires |tuple| == |attributes| && Scannable(attributes, s)
  {
    seq(|s.columnIds|, k requires 0 <= k < |s.columnIds| =>
      var cell := tuple[ColumnToAttribute(attributes)[s.columnIds[k].primary]];
      match s.columnIds[k].kind
      case Whole => cell
      case Nested(part) => part(cell)
      case Virtual(value) => value(tuple))
  }

  /** PostgreSQL's reading of a column name: the value of the live column of that name. */
  function Lookup(attributes: seq<Attribute>, tuple: Tuple, name: string): Option<Cell>
    requires |tuple| == |attributes|
  {
    if attributes == [] then None
    else
      var n := |attributes| - 1;
      if !attributes[n].dropped && attributes[n].name == name then Some(tuple[n])
      else Lookup(attributes[..n], tuple[..n], name)
  }

  /** Live columns have different names, none of them empty. */
  predicate ProperNames(attributes: seq<Attribute>) {
    && (forall i :: 0 <= i < |attributes| && !attributes[i].dropped ==> attributes[i].name != "")
    && forall i, j :: 0 <= i < j < |attributes| && !attributes[i].dropped && !attributes[j].dropped ==>
         attributes[i].name != attributes[j].name
  }

  lemma {:induction false} LookupAt(attributes: seq<Attribute>, tuple: Tuple, i: nat)
    requires |tuple| == |attributes| && ProperNames(attributes) && i < |attributes| && !attributes[i].dropped
    ensures Lookup(attributes, tuple, attributes[i].name) == Some(tuple[i])
  {
    var n := |attributes| - 1;
    if i < n { LookupAt(attributes[..n], tuple[..n], i); }
  }

  lemma {:induction false} NoEmptyName(attributes: seq<Attribute>, tuple: Tuple)
    requires |tuple| == |attributes| && ProperNames(attributes)
    ensures Lookup(attributes, tuple, "") == None
  {
    if attributes != [] {
      var n := |attributes| - 1;
      NoEmptyName(attributes[..n], tuple[..n]);
    }
  }

  /**
   The recorded name of a scanned column reads as its value exactly when the column is not scanned again
   later and holds what the table column holds, as a whole column does.
   */
  lemma {:induction false} NameReadsIff(attributes: seq<Attribute>, s: Scan, tuple: Tuple, k: nat)
    requires |tuple| == |attributes| && Scannable(attributes, s) && ProperNames(attributes) && k < |s.columnIds|
    ensures Lookup(attributes, tuple, ScanName(attributes, Primaries(s.columnIds), k)) ==
              Some(ScannedRow(attributes, s, tuple)[k])
            <==>
              && LastUse(Primaries(s.columnIds), k)
              && (s.columnIds[k].kind.Whole? ||
                  ScannedRow(attributes, s, tuple)[k] == tuple[ColumnToAttribute(attributes)[s.columnIds[k].primary]])
  {
    if LastUse(Primaries(s.columnIds), k) {
      LookupAt(attributes, tuple, ColumnToAttribute(attributes)[s.columnIds[k].primary]);
    } else {
      NoEmptyName(attributes, tuple);
    }
  }

  // ---------- the emitted keys ----------

  datatype EmittedKey = EmittedKey(name: string, suffix: seq<SuffixWord>)

  /** The loop that writes the ORDER BY; an index beyond the scanned columns raises an error. */
  method EmitOrderBy(names: seq<string>, specs: seq<OrderSpec>) returns (r: Option<seq<EmittedKey>>)
    ensures r.Some? <==> forall i :: 0 <= i < |specs| ==> specs[i].column < |names|
    ensures r.Some? ==> Emitted(names, specs, r.value)
  {
    var keys: seq<EmittedKey> := [];
    for i := 0 to |specs|
      invariant forall j :: 0 <= j < i ==> specs[j].column < |names|
      invariant Emitted(names, specs[..i], keys)
    {
      if specs[i].column >= |names| {
        return None;
      }
      keys := keys + [EmittedKey(names[specs[i].column], OrderSuffix(specs[i].orderType, specs[i].nullOrder))];
    }
    assert specs[..|specs|] == specs;
    return Some(keys);
  }

  predicate Emitted(names: seq<string>, specs: seq<OrderSpec>, keys: seq<EmittedKey>) {
    |keys| == |specs| && forall i :: 0 <= i < |specs| ==>
      && specs[i].column < |names| && keys[i].name == names[specs[i].column]
      && keys[i].suffix == OrderSuffix(specs[i].orderType, specs[i].nullOrder)
  }

  predicate RecordedNames(attributes: seq<Attribute>, s: Scan, names: seq<string>)
    requires Scannable(attributes, s)
  {
    |names| == |s.columnIds| &&
    forall k :: 0 <= k < |names| ==> names[k] == ScanName(attributes, Primaries(s.columnIds), k)
  }

  /**
   For a scan of different columns, with dropped columns in the table or not, every emitted key names
   the column that its sort key evaluates to above any stack of projections, in the same direction.
   */
  lemma {:induction false} EmittedOrderMeansKeys(attributes: seq<Attribute>, s: Scan, p: Plan,
      orders: seq<OrderNode>,
      tuple: Tuple, names: seq<string>, keys: seq<EmittedKey>, i: nat, rank: Ranking)
    requires |tuple| == |attributes| && Scannable(attributes, s) && ProperNames(attributes)
    requires forall j, k :: 0 <= j < k < |s.columnIds| ==> s.columnIds[j].primary != s.columnIds[k].primary
    requires FindUnderlyingGet(p) == Some(s) && ResolveOrders(orders, p, s).Some? && i < |orders|
    requires RecordedNames(attributes, s, names) && Emitted(names, ResolveOrders(orders, p, s).value, keys)
    ensures |keys| == |orders|
    ensures Lookup(attributes, tuple, keys[i].name) ==
              Some(Evaluate(orders[i].expression, OutputRow(p, ScannedRow(attributes, s, tuple))))
    ensures ReadSuffix(keys[i].suffix, rank) == DuckKey(orders[i].orderType, orders[i].nullOrder, rank)
  {
    var specs, row := ResolveOrders(orders, p, s).value, ScannedRow(attributes, s, tuple);
    SpecsResolve(orders, p, s);
    ResolvesToValue(orders[i].expression, p, s, row);
    ResolvesIff(orders[i].expression, p, s, specs[i].column);
    NameReadsIff(attributes, s, tuple, specs[i].column);
    SuffixAgrees(orders[i].orderType, orders[i].nullOrder, rank);
  }

  /** Nor does writing the keys of a resolved sort ever raise the error. */
  lemma {:induction false} ResolvedIsEmitted(s: Scan, p: Plan, orders: seq<OrderNode>, i: nat)
    requires FindUnderlyingGet(p) == Some(s) && ResolveOrders(orders, p, s).Some? && i < |orders|
    ensures |ResolveOrders(orders, p, s).value| == |orders|
    ensures ResolveOrders(orders, p, s).value[i].column < |s.columnIds|
  {
    SpecsResolve(orders, p, s);
    ResolvedInRange(orders[i].expression, p, s);
  }
}
