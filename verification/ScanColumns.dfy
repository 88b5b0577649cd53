/**
 The column names of the scan query, from libpgduckdb/scan/postgres_scan.cpp: the ORDER BY keys name
 the scanned columns by their index into the list of column ids.
 */
module ScanColumns {

  /** A column of the table, which may have been dropped. */
  datatype Attribute = Attribute(name: string, dropped: bool)

  /** The attribute positions that are not dropped, in order: DuckDB numbers only those. */
  function ColumnToAttribute(attributes: seq<Attribute>): (r: seq<nat>)
    ensures forall i :: 0 <= i < |r| ==> r[i] < |attributes| && !attributes[r[i]].dropped
    ensures forall i, j :: 0 <= i < j < |r| ==> r[i] < r[j]
  {
    if attributes == [] then []
    else
      var n := |attributes| - 1;
      var front := ColumnToAttribute(attributes[..n]);
      if attributes[n].dropped then front else front + [n]
  }

  /** No later column id names the same column. */
  predicate LastUse(columnIds: seq<nat>, k: nat)
    requires k < |columnIds|
  {
    forall j :: k < j < |columnIds| ==> columnIds[j] != columnIds[k]
  }

  /** The name that is recorded for a scanned column; a column id that is used again later gets none. */
  function ScanName(attributes: seq<Attribute>, columnIds: seq<nat>, k: nat): string
    requires k < |columnIds| && columnIds[k] < |ColumnToAttribute(attributes)|
  {
    if LastUse(columnIds, k) then attributes[ColumnToAttribute(attributes)[columnIds[k]]].name else ""
  }

  /** The loop that skips dropped attributes. */
  method CollectAttributes(attributes: seq<Attribute>) returns (r: seq<nat>)
    ensures r == ColumnToAttribute(attributes)
  {
    r := [];
    for i := 0 to |attributes|
      invariant r == ColumnToAttribute(attributes[..i])
    {
      assert attributes[..i + 1][..i] == attributes[..i];
      if !attributes[i].dropped {
        r := r + [i];
      }
    }
    assert attributes[..|attributes|] == attributes;
  }

  /** The map from attribute to scan index; a later column id overwrites an earlier one. */
  method OrderByAttribute(columnIds: seq<nat>, toAttribute: seq<nat>) returns (order: map<nat, nat>)
    requires forall k :: 0 <= k < |columnIds| ==> columnIds[k] < |toAttribute|
    requires forall i, j :: 0 <= i < j < |toAttribute| ==> toAttribute[i] < toAttribute[j]
    ensures forall a :: a in order ==>
              order[a] < |columnIds| && a == toAttribute[columnIds[order[a]]] && LastUse(columnIds, order[a])
    ensures forall k :: 0 <= k < |columnIds| && LastUse(columnIds, k) ==>
              toAttribute[columnIds[k]] in order && order[toAttribute[columnIds[k]]] == k
  {
    order := map[];
    for n := 0 to |columnIds|
      invariant forall a :: a in order ==> order[a] < n && a == toAttribute[columnIds[order[a]]]
      invariant forall a, j :: a in order && order[a] < j < n ==> toAttribute[columnIds[j]] != a
      invariant forall j :: 0 <= j < n ==> toAttribute[columnIds[j]] in order
    {
      order := order[toAttribute[columnIds[n]] := n];
    }
    forall k | 0 <= k < |columnIds| && LastUse(columnIds, k) ensures order[toAttribute[columnIds[k]]] == k {
      var a := toAttribute[columnIds[k]];
      assert toAttribute[columnIds[order[a]]] == a;
    }
  }

  /** The names of the scanned columns, filled in the order of the attributes. */
  method ScanColumnNames(attributes: seq<Attribute>, columnIds: seq<nat>) returns (names: seq<string>)
    requires forall k :: 0 <= k < |columnIds| ==> columnIds[k] < |ColumnToAttribute(attributes)|
    ensures |names| == |columnIds|
    ensures forall k :: 0 <= k < |names| ==> names[k] == ScanName(attributes, columnIds, k)
  {
    var toAttribute := CollectAttributes(attributes);
    var order := OrderByAttribute(columnIds, toAttribute);
    names := seq(|columnIds|, _ => "");
    var left := order.Keys;
    while left != {}
      invariant left <= order.Keys && |names| == |columnIds|
      invariant forall k :: 0 <= k < |names| ==> names[k] == "" || names[k] == ScanName(attributes, columnIds, k)
      invariant forall a :: a in order && a !in left ==> names[order[a]] == ScanName(attributes, columnIds, order[a])
      decreases |left|
    {
      var a :| a in left;
      names := names[order[a] := attributes[a].name];
      left := left - {a};
    }
    forall k | 0 <= k < |names| ensures names[k] == ScanName(attributes, columnIds, k) {
      if LastUse(columnIds, k) {
        assert order[toAttribute[columnIds[k]]] == k;
      }
    }
  }

  /** Every scanned column has its own name if and only if no column is scanned twice (for columns that have names). */
  lemma {:induction false} NamesCompleteIff(attributes: seq<Attribute>, columnIds: seq<nat>)
    requires forall k :: 0 <= k < |columnIds| ==> columnIds[k] < |ColumnToAttribute(attributes)|
    requires forall i :: 0 <= i < |attributes| ==> attributes[i].name != ""
    ensures (forall k :: 0 <= k < |columnIds| ==>
               ScanName(attributes, columnIds, k) == attributes[ColumnToAttribute(attributes)[columnIds[k]]].name)
            <==> forall i, j :: 0 <= i < j < |columnIds| ==> columnIds[i] != columnIds[j]
  {
    if i, j :| 0 <= i < j < |columnIds| && columnIds[i] == columnIds[j] {
      assert !LastUse(columnIds, i);
      assert ScanName(attributes, columnIds, i) == "";
    }
  }
}
