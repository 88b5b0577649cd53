/** Sorting rows of cells by several keys, ties left open. */
module Sorting {
  import opened Basics
  import opened TupleStreams

  type Row = Tuple

  // ---------- orders on values ----------

  ghost predicate Injective(rank: int -> real) {
    forall a, b :: a != b ==> rank(a) != rank(b)
  }

  /** A strict total order on the values of columns, given by the rank of each value. */
  type Ranking = rank: int -> real | Injective(rank) witness (n: int) => n as real

  const NATURAL: Ranking := (n: int) => n as real

  /** Whatever the first order puts strictly before, the second one does too; they are then the same order. */
  ghost predicate SameOrder(r: Ranking, q: Ranking) {
    forall a, b :: r(a) < r(b) ==> q(a) < q(b)
  }

  /** How one key sorts, once defaults are resolved: its direction, its nulls, and the order of its values. */
  datatype SortKey = SortKey(desc: bool, nullsFirst: bool, rank: Ranking)

  predicate CellLess(a: Cell, b: Cell, k: SortKey) {
    match (a, b)
    case (Null, Null) => false
    case (Null, Val(_)) => k.nullsFirst
    case (Val(_), Null) => !k.nullsFirst
    case (Val(x), Val(y)) => if k.desc then k.rank(y) < k.rank(x) else k.rank(x) < k.rank(y)
  }

  /** The values of the sort keys come strictly earlier, the first key that tells them apart deciding. */
  predicate KeyLess(ks: seq<SortKey>, x: seq<Cell>, y: seq<Cell>)
    requires |ks| == |x| == |y|
  {
    && ks != []
    && (CellLess(x[0], y[0], ks[0]) || (!CellLess(y[0], x[0], ks[0]) && KeyLess(ks[1..], x[1..], y[1..])))
  }

  lemma {:induction false} KeyLessTransitive(ks: seq<SortKey>, x: seq<Cell>, y: seq<Cell>, z: seq<Cell>)
    requires |ks| == |x| == |y| == |z|
    requires !KeyLess(ks, y, x) && !KeyLess(ks, z, y)
    ensures !KeyLess(ks, z, x)
  {
    if ks != [] && !CellLess(x[0], y[0], ks[0]) && !CellLess(y[0], z[0], ks[0]) {
      KeyLessTransitive(ks[1..], x[1..], y[1..], z[1..]);
    }
  }

  lemma {:induction false} KeyLessAsymmetric(ks: seq<SortKey>, x: seq<Cell>, y: seq<Cell>)
    requires |ks| == |x| == |y|
    ensures !(KeyLess(ks, x, y) && KeyLess(ks, y, x))
  {
    if ks != [] { KeyLessAsymmetric(ks[1..], x[1..], y[1..]); }
  }

  /** Rows that are equal on the keys before `i` are ordered by key `i`, if that tells them apart. */
  lemma {:induction false} DecidedAt(ks: seq<SortKey>, x: seq<Cell>, y: seq<Cell>, i: nat)
    requires |ks| == |x| == |y| && i < |ks| && CellLess(x[i], y[i], ks[i])
    requires forall j :: 0 <= j < i ==> x[j] == y[j]
    ensures KeyLess(ks, x, y)
  {
    if i > 0 { DecidedAt(ks[1..], x[1..], y[1..], i - 1); }
  }

  /** The same keys, with values ordered by other rankings. */
  predicate SameKeys(ks: seq<SortKey>, qs: seq<SortKey>) {
    |ks| == |qs| && forall i :: 0 <= i < |ks| ==> ks[i].desc == qs[i].desc && ks[i].nullsFirst == qs[i].nullsFirst
  }

  ghost predicate SameOrders(ks: seq<SortKey>, qs: seq<SortKey>) {
    |ks| == |qs| && forall i :: 0 <= i < |ks| ==> SameOrder(ks[i].rank, qs[i].rank)
  }

  lemma CellLessAgrees(a: Cell, b: Cell, k: SortKey, q: SortKey)
    requires k.desc == q.desc && k.nullsFirst == q.nullsFirst && SameOrder(k.rank, q.rank)
    ensures CellLess(a, b, k) <==> CellLess(a, b, q)
  {
    if a.Val? && b.Val? && a.n != b.n {
      assert k.rank(a.n) != k.rank(b.n);
      assert k.rank(a.n) < k.rank(b.n) || k.rank(b.n) < k.rank(a.n);
    }
  }

  /** Keys whose values are ordered alike order rows alike. */
  lemma {:induction false} KeyLessAgrees(ks: seq<SortKey>, qs: seq<SortKey>, x: seq<Cell>, y: seq<Cell>)
    requires |ks| == |x| == |y| && SameKeys(ks, qs) && SameOrders(ks, qs)
    ensures KeyLess(ks, x, y) <==> KeyLess(qs, x, y)
  {
    if ks != [] {
      CellLessAgrees(x[0], y[0], ks[0], qs[0]);
      CellLessAgrees(y[0], x[0], ks[0], qs[0]);
      KeyLessAgrees(ks[1..], qs[1..], x[1..], y[1..]);
    }
  }

  /** The rows, with `value` giving the key values of a row, are in order; ties may fall either way. */
  ghost predicate Sorted(rows: seq<Row>, ks: seq<SortKey>, value: Row -> seq<Cell>) {
    && (forall r :: |value(r)| == |ks|)
    && forall i, j :: 0 <= i < j < |rows| ==> !KeyLess(ks, value(rows[j]), value(rows[i]))
  }

  // ---------- every sequence of rows can be sorted ----------

  ghost function Insert(r: Row, rows: seq<Row>, ks: seq<SortKey>, value: Row -> seq<Cell>): seq<Row>
    requires forall r :: |value(r)| == |ks|
  {
    if rows == [] then [r]
    else if KeyLess(ks, value(rows[0]), value(r)) then [rows[0]] + Insert(r, rows[1..], ks, value)
    else [r] + rows
  }

  /** No row comes strictly earlier than `r`. */
  ghost predicate First(r: Row, rows: seq<Row>, ks: seq<SortKey>, value: Row -> seq<Cell>)
    requires forall r :: |value(r)| == |ks|
  {
    forall i :: 0 <= i < |rows| ==> !KeyLess(ks, value(rows[i]), value(r))
  }

  lemma SortedCons(r: Row, rows: seq<Row>, ks: seq<SortKey>, value: Row -> seq<Cell>)
    requires Sorted(rows, ks, value) && First(r, rows, ks, value)
    ensures Sorted([r] + rows, ks, value)
  {
    hide KeyLess;
    var all := [r] + rows;
    forall i, j | 0 <= i < j < |all| ensures !KeyLess(ks, value(all[j]), value(all[i])) {
      assert all[j] == rows[j - 1];
      if i > 0 { assert all[i] == rows[i - 1]; }
    }
  }

  lemma {:induction false} InsertFirst(r: Row, rows: seq<Row>, x: Row, ks: seq<SortKey>, value: Row -> seq<Cell>)
    requires forall r :: |value(r)| == |ks|
    requires First(x, rows, ks, value) && !KeyLess(ks, value(r), value(x))
    ensures First(x, Insert(r, rows, ks, value), ks, value)
  {
    hide KeyLess;
    if rows != [] && KeyLess(ks, value(rows[0]), value(r)) {
      InsertFirst(r, rows[1..], x, ks, value);
    }
  }

  lemma {:induction false} InsertSorts(r: Row, rows: seq<Row>, ks: seq<SortKey>, value: Row -> seq<Cell>)
    requires Sorted(rows, ks, value)
    ensures Sorted(Insert(r, rows, ks, value), ks, value)
  {
    hide KeyLess;
    if rows == [] {
    } else if KeyLess(ks, value(rows[0]), value(r)) {
      InsertSorts(r, rows[1..], ks, value);
      KeyLessAsymmetric(ks, value(rows[0]), value(r));
      InsertFirst(r, rows[1..], rows[0], ks, value);
      SortedCons(rows[0], Insert(r, rows[1..], ks, value), ks, value);
    } else {
      forall i | 0 <= i < |rows| ensures !KeyLess(ks, value(rows[i]), value(r)) {
        if i > 0 { KeyLessTransitive(ks, value(r), value(rows[0]), value(rows[i])); }
      }
      SortedCons(r, rows, ks, value);
    }
  }

  lemma {:induction false} InsertKeeps(r: Row, rows: seq<Row>, ks: seq<SortKey>, value: Row -> seq<Cell>)
    requires forall r :: |value(r)| == |ks|
    ensures multiset(Insert(r, rows, ks, value)) == multiset(rows) + multiset{r}
  {
    if rows != [] {
      assert rows == [rows[0]] + rows[1..];
      if KeyLess(ks, value(rows[0]), value(r)) { InsertKeeps(r, rows[1..], ks, value); }
    }
  }

  lemma {:induction false} SortExists(rows: seq<Row>, ks: seq<SortKey>, value: Row -> seq<Cell>)
      returns (sorted: seq<Row>)
    requires forall r :: |value(r)| == |ks|
    ensures Sorted(sorted, ks, value) && multiset(sorted) == multiset(rows)
  {
    if rows == [] {
      sorted := [];
    } else {
      var rest := SortExists(rows[1..], ks, value);
      InsertSorts(rows[0], rest, ks, value);
      InsertKeeps(rows[0], rest, ks, value);
      assert rows == [rows[0]] + rows[1..];
      sorted := Insert(rows[0], rest, ks, value);
    }
  }

  // ---------- mapping rows ----------

  ghost function MapRows(f: Row -> Row, rows: seq<Row>): (r: seq<Row>)
    ensures |r| == |rows| && forall i :: 0 <= i < |r| ==> r[i] == f(rows[i])
  {
    seq(|rows|, i requires 0 <= i < |rows| => f(rows[i]))
  }

  /** Taking out a row takes out its image. */
  lemma MapWithout(f: Row -> Row, rows: seq<Row>, k: nat)
    requires k < |rows|
    ensures multiset(rows) == multiset(Without(rows, k)) + multiset{rows[k]}
    ensures multiset(MapRows(f, rows)) == multiset(MapRows(f, Without(rows, k))) + multiset{f(rows[k])}
    ensures |Without(rows, k)| == |rows| - 1
  {
    RemoveAt(rows, k);
    RemoveAt(MapRows(f, rows), k);
    assert MapRows(f, Without(rows, k)) == Without(MapRows(f, rows), k);
  }

  lemma {:induction false} MapPermutation(f: Row -> Row, a: seq<Row>, b: seq<Row>)
    requires multiset(a) == multiset(b)
    ensures multiset(MapRows(f, a)) == multiset(MapRows(f, b))
    decreases |a|
  {
    hide Without, MapRows;
    if a == [] {
      assert |multiset(b)| == |b|;
    } else {
      assert a[0] in multiset(b);
      var k :| 0 <= k < |b| && b[k] == a[0];
      MapWithout(f, a, 0);
      MapWithout(f, b, k);
      CancelOne(multiset(Without(a, 0)), multiset(Without(b, k)), a[0]);
      MapPermutation(f, Without(a, 0), Without(b, k));
    }
  }

  lemma RemoveAt(rows: seq<Row>, k: nat)
    requires k < |rows|
    ensures multiset(rows) == multiset(Without(rows, k)) + multiset{rows[k]}
  {
    assert rows == rows[..k] + [rows[k]] + rows[k + 1..];
  }

  /** The rows after `offset`, at most `limit` of them. */
  function Cut<T>(rows: seq<T>, offset: nat, limit: nat): seq<T> {
    var start := if offset <= |rows| then offset else |rows|;
    var end := if start + limit <= |rows| then start + limit else |rows|;
    rows[start..end]
  }

  lemma MapCut(f: Row -> Row, rows: seq<Row>, offset: nat, limit: nat)
    ensures MapRows(f, Cut(rows, offset, limit)) == Cut(MapRows(f, rows), offset, limit)
  {
    var a, b := MapRows(f, Cut(rows, offset, limit)), Cut(MapRows(f, rows), offset, limit);
    assert |a| == |b|;
    assert forall i :: 0 <= i < |a| ==> a[i] == b[i];
  }
}
