/**
 `AppendList` of libpgduckdb/pgddb_types.cpp: a PostgreSQL array becomes a row of a nested DuckDB
 list vector.  PostgreSQL stores the elements in row-major order with one extent per dimension;
 DuckDB stores, per level, an (offset, length) entry for every list and the size of the child vector.
 */
module ListAppend {
  import opened Basics

  datatype Entry = Entry(offset: nat, length: nat)

  /** A nested value: a cell, possibly null, or a list. */
  datatype Nested<T> = Cell(value: Option<T>) | List(items: seq<Nested<T>>)

  /** The vectors of a nested list column: the entries and the child size of each level, and the cells. */
  datatype Vectors<T> = Vectors(entries: seq<seq<Entry>>, sizes: seq<nat>, cells: seq<Option<T>>) {

    predicate Shaped() {
      && |entries| == |sizes| > 0
      && (forall d :: 0 < d < |entries| ==> |entries[d]| == sizes[d - 1])
      && |cells| == sizes[|sizes| - 1]
    }

    /** The number of items on a level: rows on level 0, cells on the last one. */
    function Count(d: nat): nat
      requires Shaped() && d <= |entries|
    {
      if d == 0 then |entries[0]| else sizes[d - 1]
    }

    /** Every list lies inside the child vector. */
    predicate Valid() {
      && Shaped()
      && forall d, i :: 0 <= d < |entries| && 0 <= i < |entries[d]| ==>
          entries[d][i].offset + entries[d][i].length <= sizes[d]
    }

    /** The value that is read at a position of a level. */
    function Read(d: nat, i: nat): Nested<T>
      requires Valid() && d <= |entries| && i < Count(d)
      decreases |entries| - d
    {
      if d == |entries| then Cell(cells[i])
      else
        var e := entries[d][i];
        List(seq(e.length, j requires 0 <= j < e.length => Read(d + 1, e.offset + j)))
    }
  }

  function Product(dims: seq<nat>): nat {
    if dims == [] then 1 else dims[0] * Product(dims[1..])
  }

  /** The array as a nested value: the elements from `start` on, in row-major order. */
  function NestAt<T>(dims: seq<nat>, elems: seq<Option<T>>, start: nat): Nested<T>
    requires start + Product(dims) <= |elems|
  {
    if dims == [] then Cell(elems[start])
    else
      List(seq(dims[0], j requires 0 <= j < dims[0] =>
        RowMajorBound(dims[0], Product(dims[1..]), j);
        NestAt(dims[1..], elems, start + j * Product(dims[1..]))))
  }

  /** PostgreSQL's empty array has no dimensions; any other array has positive extents. */
  function Nest<T>(dims: seq<nat>, elems: seq<Option<T>>): Nested<T>
    requires IsArray(dims, |elems|)
  {
    if dims == [] then List([]) else NestAt(dims, elems, 0)
  }

  predicate IsArray(dims: seq<nat>, nelems: nat) {
    && (forall i :: 0 <= i < |dims| ==> dims[i] > 0)
    && nelems == if dims == [] then 0 else Product(dims)
  }

  lemma RowMajorBound(n: nat, p: nat, j: nat)
    requires j < n
    ensures j * p + p <= n * p
  {
    assert (j + 1) * p <= n * p;
    assert (j + 1) * p == j * p + p;
  }

  // ---------- the extents for which the append works ----------

  /** The extent that the append takes for the number of lists on a level. */
  function Previous(dims: seq<nat>, d: nat): nat
    requires d <= |dims|
  {
    if d == 0 then 1 else dims[d - 1]
  }

  /** All extents except the last two are one, as in every one- and two-dimensional array. */
  predicate LeadingOnes(dims: seq<nat>) {
    forall i :: 0 <= i < |dims| - 2 ==> dims[i] == 1
  }

  lemma {:induction false} ProductSnoc(dims: seq<nat>, x: nat)
    ensures Product(dims + [x]) == Product(dims) * x
  {
    if dims == [] {
      assert Product([x]) == x * Product([x][1..]);
    } else {
      ProductSnoc(dims[1..], x);
      assert (dims + [x])[1..] == dims[1..] + [x];
      assert dims[0] * (Product(dims[1..]) * x) == dims[0] * Product(dims[1..]) * x;
    }
  }

  lemma {:induction false} ProductPositive(dims: seq<nat>)
    requires forall i :: 0 <= i < |dims| ==> dims[i] > 0
    ensures Product(dims) > 0
    ensures Product(dims) == 1 <==> forall i :: 0 <= i < |dims| ==> dims[i] == 1
  {
    if dims != [] {
      ProductPositive(dims[1..]);
      OneFactors(dims[0], Product(dims[1..]));
      assert forall i :: 0 < i < |dims| ==> dims[i] == dims[1..][i - 1];
    }
  }

  lemma OneFactors(a: nat, b: nat)
    requires a > 0 && b > 0
    ensures a * b > 0 && (a * b == 1 <==> a == 1 && b == 1)
  {
    if a > 1 { assert a * b >= 2 * b; }
    if b > 1 { assert a * b >= a * 2; }
  }

  /** With leading ones the extent before a level is the number of lists on it. */
  lemma PreviousIsCount(dims: seq<nat>, d: nat)
    requires LeadingOnes(dims) && d < |dims|
    ensures Previous(dims, d) == Product(dims[..d])
  {
    if d > 0 {
      assert dims[..d] == dims[..d - 1] + [dims[d - 1]];
      ProductSnoc(dims[..d - 1], dims[d - 1]);
      ProductOfOnes(dims[..d - 1]);
    }
  }

  lemma {:induction false} ProductOfOnes(dims: seq<nat>)
    requires forall i :: 0 <= i < |dims| ==> dims[i] == 1
    ensures Product(dims) == 1
  {
    if dims != [] { ProductOfOnes(dims[1..]); }
  }

  /** The cells that are reserved are as many as there are elements exactly for leading ones. */
  lemma {:induction false} ReservedIff(dims: seq<nat>)
    requires dims != [] && forall i :: 0 <= i < |dims| ==> dims[i] > 0
    ensures var n := |dims|; Previous(dims, n - 1) * dims[n - 1] <= Product(dims)
    ensures var n := |dims|; Previous(dims, n - 1) * dims[n - 1] == Product(dims) <==> LeadingOnes(dims)
  {
    hide Product;
    var n := |dims|;
    var x := dims[n - 1];
    assert dims == dims[..n - 1] + [x];
    ProductSnoc(dims[..n - 1], x);
    if n == 1 {
      ProductOfOnes(dims[..0]);
    } else {
      var lead, b := dims[..n - 2], dims[n - 2];
      assert dims[..n - 1] == lead + [b];
      ProductSnoc(lead, b);
      ProductPositive(lead);
      assert LeadingOnes(dims) <==> forall i :: 0 <= i < |lead| ==> lead[i] == 1;
      ScaleUp(Product(lead), b, x);
    }
  }

  lemma ScaleUp(p: nat, b: nat, x: nat)
    requires p > 0 && b > 0 && x > 0
    ensures b * x <= p * b * x
    ensures b * x == p * b * x <==> p == 1
  {
    var bx := b * x;
    assert bx > 0;
    assert p * b * x == p * bx;
    if p > 1 { assert p * bx >= 2 * bx; }
  }

  // ---------- the append, level by level ----------

  /** Where the lists of a level are written: the row on level 0, behind the old items below it. */
  function At<T>(v: Vectors<T>, offset: nat, d: nat): nat
    requires v.Shaped() && d <= |v.entries|
  {
    if d == 0 then offset else v.sizes[d - 1]
  }

  /** The number of items by which a level grows. */
  function Growth(dims: seq<nat>, d: nat): nat
    requires d < |dims|
  {
    Previous(dims, d) * dims[d]
  }

  /** The entry that is written for the `k`-th list of a level whose child vector had `base` items. */
  function NewEntry(base: nat, dim: nat, k: nat): Entry {
    Entry(base + dim * k, dim)
  }

  /** The entry at a position once `k` levels are written: a new list, an old one, or one not yet set. */
  function EntryAfter<T>(v: Vectors<T>, offset: nat, dims: seq<nat>, k: nat, d: nat, i: nat): Entry
    requires v.Shaped() && k <= |dims| && d < |v.entries|
  {
    if d < k && At(v, offset, d) <= i < At(v, offset, d) + Previous(dims, d)
    then NewEntry(v.sizes[d], dims[d], i - At(v, offset, d))
    else if i < |v.entries[d]| then v.entries[d][i] else Entry(0, 0)
  }

  /** `w` is `v` after the first `k` levels of an array with extents `dims` were written at row `offset`. */
  ghost predicate Added<T>(v: Vectors<T>, w: Vectors<T>, offset: nat, dims: seq<nat>, k: nat)
    requires v.Valid() && k <= |dims| && k <= |v.entries|
  {
    && w.Shaped() && |w.entries| == |v.entries| && |w.entries[0]| == |v.entries[0]|
    && (forall d :: 0 <= d < |v.sizes| ==> w.sizes[d] == v.sizes[d] + if d < k then Growth(dims, d) else 0)
    && (forall d, i :: 0 <= d < |w.entries| && 0 <= i < |w.entries[d]| ==>
        w.entries[d][i] == EntryAfter(v, offset, dims, k, d, i))
    && (forall i :: 0 <= i < |w.cells| ==> w.cells[i] == if i < |v.cells| then v.cells[i] else None)
  }

  function WriteEntries(es: seq<Entry>, at: nat, count: nat, base: nat, dim: nat): (r: seq<Entry>)
    ensures |r| == |es|
  {
    seq(|es|, i requires 0 <= i < |es| => if at <= i < at + count then NewEntry(base, dim, i - at) else es[i])
  }

  lemma WriteEntriesStep(es: seq<Entry>, at: nat, k: nat, base: nat, dim: nat)
    requires at + k < |es|
    ensures WriteEntries(es, at, k, base, dim)[at + k := NewEntry(base, dim, k)] ==
            WriteEntries(es, at, k + 1, base, dim)
  {
    var now := WriteEntries(es, at, k, base, dim)[at + k := NewEntry(base, dim, k)];
    var next := WriteEntries(es, at, k + 1, base, dim);
    assert forall i :: 0 <= i < |es| ==> now[i] == next[i];
  }

  /** One level: its lists are written, and its child vector grows. */
  function AddLevel<T>(v: Vectors<T>, d: nat, at: nat, count: nat, dim: nat): Vectors<T>
    requires v.Shaped() && d < |v.entries|
  {
    var written := v.entries[d := WriteEntries(v.entries[d], at, count, v.sizes[d], dim)];
    var grown := v.sizes[d := v.sizes[d] + count * dim];
    if d + 1 < |v.entries| then
      Vectors(written[d + 1 := written[d + 1] + seq(count * dim, _ => Entry(0, 0))], grown, v.cells)
    else
      Vectors(written, grown, v.cells + seq(count * dim, _ => None))
  }

  /** The lists of the next level fit behind the old items. */
  lemma RoomForLists<T>(v: Vectors<T>, w: Vectors<T>, offset: nat, dims: seq<nat>, k: nat)
    requires v.Valid() && offset < |v.entries[0]| && k < |dims| && k < |v.entries| && Added(v, w, offset, dims, k)
    requires forall i :: 0 <= i < |dims| ==> dims[i] > 0
    ensures At(v, offset, k) + Previous(dims, k) <= |w.entries[k]|
  {
    if k > 0 {
      assert |w.entries[k]| == w.sizes[k - 1] == v.sizes[k - 1] + Growth(dims, k - 1);
      assert Previous(dims, k - 1) * dims[k - 1] >= dims[k - 1];
    }
  }

  lemma AddedStep<T>(v: Vectors<T>, w: Vectors<T>, offset: nat, dims: seq<nat>, k: nat)
    requires v.Valid() && offset < |v.entries[0]| && k < |dims| && k < |v.entries| && Added(v, w, offset, dims, k)
    ensures Added(v, AddLevel(w, k, At(v, offset, k), Previous(dims, k), dims[k]), offset, dims, k + 1)
  {
    var at := At(v, offset, k);
    var u := AddLevel(w, k, at, Previous(dims, k), dims[k]);
    assert w.sizes[k] == v.sizes[k];
    assert u.Shaped();
    forall d, i | 0 <= d < |u.entries| && 0 <= i < |u.entries[d]|
      ensures u.entries[d][i] == EntryAfter(v, offset, dims, k + 1, d, i)
    {
      if d == k {
        assert u.entries[k] == WriteEntries(w.entries[k], at, Previous(dims, k), v.sizes[k], dims[k]);
      } else if d == k + 1 {
        assert i < |w.entries[d]| ==> u.entries[d][i] == w.entries[d][i];
      }
    }
  }

  /** The elements written behind the old cells. */
  function Fill<T>(v: Vectors<T>, at: nat, elems: seq<Option<T>>): Vectors<T> {
    v.(cells := seq(|v.cells|, i requires 0 <= i < |v.cells| =>
         if at <= i < at + |elems| then elems[i - at] else v.cells[i]))
  }

  lemma FillValid<T>(v: Vectors<T>, w: Vectors<T>, offset: nat, dims: seq<nat>, k: nat, elems: seq<Option<T>>)
    requires v.Valid() && k <= |dims| && k <= |v.entries| && Added(v, w, offset, dims, k)
    ensures Written(v, w, offset, elems).Valid()
  {
    var u := Written(v, w, offset, elems);
    forall d, i | 0 <= d < |u.entries| && 0 <= i < |u.entries[d]|
      ensures u.entries[d][i].offset + u.entries[d][i].length <= u.sizes[d]
    {
      if d < k && At(v, offset, d) <= i < At(v, offset, d) + Previous(dims, d) {
        var e := i - At(v, offset, d);
        RowMajorBound(Previous(dims, d), dims[d], e);
        assert dims[d] * e == e * dims[d];
      } else if i < |v.entries[d]| {
        assert v.entries[d][i].offset + v.entries[d][i].length <= v.sizes[d];
      }
    }
  }

  /** The item at a position of a level reads as `x`. */
  ghost predicate ReadsAs<T>(v: Vectors<T>, d: nat, i: nat, x: Nested<T>) {
    v.Valid() && d <= |v.entries| && i < v.Count(d) && v.Read(d, i) == x
  }

  predicate ItemIs<T(==)>(x: Nested<T>, n: nat, j: nat, y: Nested<T>) {
    x.List? && |x.items| == n && j < n && x.items[j] == y
  }

  predicate SameItem<T(==)>(x: Nested<T>, y: Nested<T>, n: nat, j: nat) {
    x.List? && y.List? && |x.items| == |y.items| == n && j < n && x.items[j] == y.items[j]
  }

  lemma SameAll<T>(x: Nested<T>, y: Nested<T>, n: nat)
    requires n > 0 && forall j :: 0 <= j < n ==> SameItem(x, y, n, j)
    ensures x == y
  {
    assert SameItem(x, y, n, 0);
    assert forall j :: 0 <= j < n ==> SameItem(x, y, n, j) && x.items[j] == y.items[j];
    SameItems(x, y);
  }

  lemma SameItems<T>(x: Nested<T>, y: Nested<T>)
    requires x.List? && y.List? && |x.items| == |y.items|
    requires forall j :: 0 <= j < |x.items| ==> x.items[j] == y.items[j]
    ensures x == y
  {
    assert x.items == y.items;
  }

  /** The vectors once the whole array is written: every level, then the elements. */
  function Written<T>(v: Vectors<T>, w: Vectors<T>, offset: nat, elems: seq<Option<T>>): Vectors<T>
    requires v.Shaped()
  {
    Fill(w, At(v, offset, |v.entries|), elems)
  }

  /** All levels of an array that the column can hold have been added. */
  ghost predicate AllAdded<T>(v: Vectors<T>, w: Vectors<T>, offset: nat, dims: seq<nat>, nelems: nat) {
    && v.Valid() && offset < |v.entries[0]| && |dims| == |v.entries|
    && Added(v, w, offset, dims, |dims|)
    && IsArray(dims, nelems)
  }

  /** However far an array got, items that were there before are read as before, except the row it goes to. */
  lemma {:induction false} OldItemsKept<T>(v: Vectors<T>, w: Vectors<T>, offset: nat, dims: seq<nat>, k: nat,
                                           elems: seq<Option<T>>, d: nat, i: nat)
    requires v.Valid() && k <= |dims| && k <= |v.entries| && Added(v, w, offset, dims, k)
    requires d <= |v.entries| && i < v.Count(d) && (d == 0 ==> i != offset)
    ensures ReadsAs(Written(v, w, offset, elems), d, i, v.Read(d, i))
    decreases |v.entries| - d
  {
    var u := Written(v, w, offset, elems);
    FillValid(v, w, offset, dims, k, elems);
    if d < |v.entries| {
      assert u.entries[d][i] == v.entries[d][i];
      var e := v.entries[d][i];
      var now, was := u.Read(d, i), v.Read(d, i);
      forall j | 0 <= j < |was.items| ensures now.items[j] == was.items[j] {
        OldItemsKept(v, w, offset, dims, k, elems, d + 1, e.offset + j);
      }
      SameItems(now, was);
    }
  }

  /** Every row but the one at `offset` reads as before. */
  ghost predicate OtherRowsKept<T>(v: Vectors<T>, u: Vectors<T>, offset: nat)
    requires v.Valid()
  {
    forall i :: 0 <= i < |v.entries[0]| && i != offset ==> ReadsAs(u, 0, i, v.Read(0, i))
  }

  lemma OldRowsKept<T>(v: Vectors<T>, w: Vectors<T>, offset: nat, dims: seq<nat>, k: nat, elems: seq<Option<T>>)
    requires v.Valid() && k <= |dims| && k <= |v.entries| && Added(v, w, offset, dims, k)
    ensures OtherRowsKept(v, Written(v, w, offset, elems), offset)
  {
    forall i | 0 <= i < |v.entries[0]| && i != offset
      ensures ReadsAs(Written(v, w, offset, elems), 0, i, v.Read(0, i))
    {
      OldItemsKept(v, w, offset, dims, k, elems, 0, i);
    }
  }

  lemma NothingWritten<T>(v: Vectors<T>, w: Vectors<T>, offset: nat)
    requires v.Shaped()
    ensures Written(v, w, offset, []) == w
  {
    assert Written(v, w, offset, []).cells == w.cells;
  }

  // ---------- the array that was written is read back ----------

  lemma RowMajorStep(e: nat, n: nat, j: nat, p: nat)
    ensures e * (n * p) + j * p == (n * e + j) * p
  {
    assert e * (n * p) == n * e * p;
    assert (n * e + j) * p == n * e * p + j * p;
  }

  lemma {:induction false} SplitProduct(dims: seq<nat>, d: nat)
    requires d <= |dims|
    ensures Product(dims) == Product(dims[..d]) * Product(dims[d..])
  {
    if d == 0 {
      assert dims[0..] == dims;
    } else {
      SplitProduct(dims[1..], d - 1);
      assert dims[1..][..d - 1] == dims[..d][1..] && dims[1..][d - 1..] == dims[d..];
      MulAssoc(dims[0], Product(dims[..d][1..]), Product(dims[d..]));
    }
  }

  lemma {:induction false} SubArrayBound(dims: seq<nat>, d: nat, e: nat)
    requires d <= |dims| && e < Product(dims[..d])
    ensures e * Product(dims[d..]) + Product(dims[d..]) <= Product(dims)
  {
    SplitProduct(dims, d);
    RowMajorBound(Product(dims[..d]), Product(dims[d..]), e);
  }

  /** The `e`-th sub-array that fixes the first `d` subscripts, in row-major order. */
  function SubArray<T>(dims: seq<nat>, elems: seq<Option<T>>, d: nat, e: nat): Nested<T>
    requires Product(dims) == |elems| && d <= |dims| && e < Product(dims[..d])
  {
    SubArrayBound(dims, d, e);
    NestAt(dims[d..], elems, e * Product(dims[d..]))
  }

  lemma NextIndexBound(dims: seq<nat>, d: nat, e: nat, j: nat)
    requires d < |dims| && e < Product(dims[..d]) && j < dims[d]
    ensures dims[d] * e + j < Product(dims[..d + 1])
  {
    assert dims[..d + 1] == dims[..d] + [dims[d]];
    ProductSnoc(dims[..d], dims[d]);
    RowMajorBound(Product(dims[..d]), dims[d], e);
    assert dims[d] * e == e * dims[d];
  }

  /** The `j`-th item of a sub-array is a sub-array of the next depth. */
  lemma {:induction false} SubArrayItem<T>(dims: seq<nat>, elems: seq<Option<T>>, d: nat, e: nat, j: nat)
    requires Product(dims) == |elems| && d < |dims| && e < Product(dims[..d]) && j < dims[d]
    requires dims[d] * e + j < Product(dims[..d + 1])
    ensures ItemIs(SubArray(dims, elems, d, e), dims[d], j, SubArray(dims, elems, d + 1, dims[d] * e + j))
  {
    assert dims[d..][1..] == dims[d + 1..];
    SubArrayBound(dims, d, e);
    RowMajorStep(e, dims[d], j, Product(dims[d + 1..]));
  }

  /** With leading ones the cells that are reserved are the elements. */
  lemma {:induction false} LeafCount(dims: seq<nat>)
    requires dims != [] && LeadingOnes(dims)
    ensures Growth(dims, |dims| - 1) == Product(dims)
  {
    var n := |dims|;
    PreviousIsCount(dims, n - 1);
    assert dims == dims[..n - 1] + [dims[n - 1]];
    ProductSnoc(dims[..n - 1], dims[n - 1]);
  }

  lemma RoomForItem<T>(v: Vectors<T>, w: Vectors<T>, offset: nat, dims: seq<nat>, nelems: nat, d: nat, e: nat)
    requires AllAdded(v, w, offset, dims, nelems) && d < |dims| && e < Previous(dims, d)
    ensures At(v, offset, d) + e < |w.entries[d]|
    ensures w.entries[d][At(v, offset, d) + e] == NewEntry(v.sizes[d], dims[d], e)
  {
    if d > 0 {
      assert |w.entries[d]| == w.sizes[d - 1] == v.sizes[d - 1] + Growth(dims, d - 1);
      assert Previous(dims, d - 1) * dims[d - 1] >= dims[d - 1];
    }
  }

  lemma LeafRead<T>(v: Vectors<T>, w: Vectors<T>, offset: nat, dims: seq<nat>, elems: seq<Option<T>>, e: nat)
    requires AllAdded(v, w, offset, dims, |elems|) && LeadingOnes(dims) && e < Product(dims[..|dims|])
    ensures ReadsAs(Written(v, w, offset, elems), |dims|, At(v, offset, |dims|) + e, SubArray(dims, elems, |dims|, e))
  {
    FillValid(v, w, offset, dims, |dims|, elems);
    LeafCount(dims);
    assert dims[..|dims|] == dims;
    assert Product(dims[|dims|..]) == 1;
  }

  /** A written list holds its items one after the other on the next level. */
  lemma ListItem<T>(v: Vectors<T>, w: Vectors<T>, offset: nat, dims: seq<nat>, elems: seq<Option<T>>, d: nat,
      e: nat, j: nat, x: Nested<T>)
    requires AllAdded(v, w, offset, dims, |elems|) && d < |dims| && e < Previous(dims, d) && j < dims[d]
    requires ReadsAs(Written(v, w, offset, elems), d + 1, v.sizes[d] + dims[d] * e + j, x)
    ensures var u := Written(v, w, offset, elems);
            && |u.entries| == |dims| && At(v, offset, d) + e < u.Count(d)
            && ItemIs(u.Read(d, At(v, offset, d) + e), dims[d], j, x)
  {
    RoomForItem(v, w, offset, dims, |elems|, d, e);
    FillValid(v, w, offset, dims, |dims|, elems);
  }

  /** The `e`-th list written on a level reads as the `e`-th sub-array of that depth. */
  lemma {:induction false} NewItemsRead<T>(v: Vectors<T>, w: Vectors<T>, offset: nat, dims: seq<nat>,
      elems: seq<Option<T>>, d: nat, e: nat)
    requires AllAdded(v, w, offset, dims, |elems|) && LeadingOnes(dims) && d <= |dims| && e < Product(dims[..d])
    ensures ReadsAs(Written(v, w, offset, elems), d, At(v, offset, d) + e, SubArray(dims, elems, d, e))
    decreases |dims| - d, 1
  {
    if d == |dims| {
      LeafRead(v, w, offset, dims, elems, e);
    } else {
      hide SubArray, Product, LeadingOnes, Added, SameItem, Written, Previous;
      NewItemRead(v, w, offset, dims, elems, d, e, 0);
      var read := Written(v, w, offset, elems).Read(d, At(v, offset, d) + e);
      var nest, n := SubArray(dims, elems, d, e), dims[d];
      forall j | 0 <= j < n ensures SameItem(read, nest, n, j) {
        NewItemRead(v, w, offset, dims, elems, d, e, j);
      }
      SameAll(read, nest, n);
    }
  }

  lemma {:induction false} NewItemRead<T>(v: Vectors<T>, w: Vectors<T>, offset: nat, dims: seq<nat>,
      elems: seq<Option<T>>, d: nat, e: nat, j: nat)
    requires AllAdded(v, w, offset, dims, |elems|) && LeadingOnes(dims) && d < |dims| && e < Product(dims[..d]) &&
        j < dims[d]
    ensures var u := Written(v, w, offset, elems);
            && u.Valid() && |u.entries| == |dims| && At(v, offset, d) + e < u.Count(d)
            && SameItem(u.Read(d, At(v, offset, d) + e), SubArray(dims, elems, d, e), dims[d], j)
    decreases |dims| - d, 0
  {
    hide SubArray, Product, LeadingOnes, Added;
    PreviousIsCount(dims, d);
    var k := dims[d] * e + j;
    NextIndexBound(dims, d, e, j);
    NewItemsRead(v, w, offset, dims, elems, d + 1, k);
    SubArrayItem(dims, elems, d, e, j);
    ListItem(v, w, offset, dims, elems, d, e, j, SubArray(dims, elems, d + 1, k));
  }

  /** The row that was written reads as the array, and every other row as before. */
  lemma ReadBack<T>(v: Vectors<T>, w: Vectors<T>, offset: nat, dims: seq<nat>, elems: seq<Option<T>>)
    requires AllAdded(v, w, offset, dims, |elems|) && LeadingOnes(dims)
    ensures ReadsAs(Written(v, w, offset, elems), 0, offset, Nest(dims, elems))
    ensures OtherRowsKept(v, Written(v, w, offset, elems), offset)
  {
    assert dims[..0] == [] && dims[0..] == dims;
    NewItemsRead(v, w, offset, dims, elems, 0, 0);
    OldRowsKept(v, w, offset, dims, |dims|, elems);
  }

  // ---------- the empty array ----------

  function WriteEmpty<T>(v: Vectors<T>, offset: nat): Vectors<T>
    requires v.Shaped() && offset < |v.entries[0]|
  {
    v.(entries := v.entries[0 := v.entries[0][offset := Entry(v.sizes[0], 0)]])
  }

  lemma {:induction false} LowerLevelsKept<T>(v: Vectors<T>, offset: nat, d: nat, i: nat)
    requires v.Valid() && offset < |v.entries[0]| && 0 < d <= |v.entries| && i < v.Count(d)
    ensures ReadsAs(WriteEmpty(v, offset), d, i, v.Read(d, i))
    decreases |v.entries| - d
  {
    var u := WriteEmpty(v, offset);
    if d < |v.entries| {
      var e := v.entries[d][i];
      var now, was := u.Read(d, i), v.Read(d, i);
      forall j | 0 <= j < |was.items| ensures now.items[j] == was.items[j] {
        LowerLevelsKept(v, offset, d + 1, e.offset + j);
      }
      SameItems(now, was);
    }
  }

  lemma EmptyReadBack<T>(v: Vectors<T>, offset: nat)
    requires v.Valid() && offset < |v.entries[0]|
    ensures ReadsAs(WriteEmpty(v, offset), 0, offset, List([]))
    ensures OtherRowsKept(v, WriteEmpty(v, offset), offset)
  {
    var u := WriteEmpty(v, offset);
    forall i | 0 <= i < |v.entries[0]| && i != offset ensures ReadsAs(u, 0, i, v.Read(0, i)) {
      var now, was := u.Read(0, i), v.Read(0, i);
      forall j | 0 <= j < |was.items| ensures now.items[j] == was.items[j] {
        LowerLevelsKept(v, offset, 1, v.entries[0][i].offset + j);
      }
      SameItems(now, was);
    }
  }

  // ---------- the column ----------

  datatype Outcome = Appended | TooManyDimensions | TooFewDimensions | WritesPastEnd

  /** The levels that are written before a column turns out not to be deep enough. */
  function LevelsAdded(ndims: nat, depth: nat): nat {
    if ndims <= depth then ndims else depth
  }

  class ListColumn<T> {
    var entries: seq<seq<Entry>>
    var sizes: seq<nat>
    var cells: seq<Option<T>>

    ghost function View(): Vectors<T>
      reads this
    {
      Vectors(entries, sizes, cells)
    }

    /** A column of empty lists, nested `depth` deep. */
    constructor (depth: nat, rows: nat)
      requires depth > 0
      ensures View().Valid() && |entries| == depth && |entries[0]| == rows
      ensures forall i :: 0 <= i < rows ==> View().Read(0, i) == List([])
    {
      entries := [seq(rows, _ => Entry(0, 0))] + seq(depth - 1, _ => []);
      sizes := seq(depth, _ => 0);
      cells := [];
    }

    /** Writes the lists of one level and grows its child vector. */
    method WriteLevel(d: nat, at: nat, count: nat, dim: nat)
      requires View().Shaped() && d < |entries| && at + count <= |entries[d]|
      modifies this
      ensures View() == AddLevel(old(View()), d, at, count, dim)
    {
      ghost var was := entries[d];
      var base := sizes[d];
      var lists := entries[d];
      assert lists == WriteEntries(was, at, 0, base, dim);
      for entry := 0 to count
        invariant View() == old(View())
        invariant lists == WriteEntries(was, at, entry, base, dim)
      {
        WriteEntriesStep(was, at, entry, base, dim);
        lists := lists[at + entry := Entry(base + dim * entry, dim)];
      }
      entries := entries[d := lists];
      sizes := sizes[d := base + count * dim];
      if d + 1 < |entries| {
        entries := entries[d + 1 := entries[d + 1] + seq(count * dim, _ => Entry(0, 0))];
      } else {
        cells := cells + seq(count * dim, _ => None);
      }
    }

    /** Descends through the dimensions; `None` when the column is not that deep. */
    method AddDimensions(offset: nat, dims: seq<nat>) returns (writeOffset: Option<nat>)
      requires View().Valid() && offset < |entries[0]| && forall i :: 0 <= i < |dims| ==> dims[i] > 0
      modifies this
      ensures writeOffset.None? <==> |dims| > |old(entries)|
      ensures Added(old(View()), View(), offset, dims, LevelsAdded(|dims|, |old(entries)|))
      ensures writeOffset.Some? ==> writeOffset.value == At(old(View()), offset, |dims|)
    {
      hide AddLevel;
      ghost var v := View();
      var dim, depth, at := 0, |entries|, offset;
      while dim < |dims|
        invariant dim <= |dims| && dim <= depth == |entries| == |v.entries|
        invariant Added(v, View(), offset, dims, dim)
        invariant at == At(v, offset, dim)
      {
        if dim >= depth {
          return None;
        }
        var previous := if dim > 0 then dims[dim - 1] else 1;
        var childOffset := sizes[dim];
        RoomForLists(v, View(), offset, dims, dim);
        AddedStep(v, View(), offset, dims, dim);
        WriteLevel(dim, at, previous, dims[dim]);
        at := childOffset;
        dim := dim + 1;
      }
      return Some(at);
    }

    /** Writes the elements one after the other; stops when the reserved cells are used up. */
    method WriteCells(at: nat, elems: seq<Option<T>>) returns (ok: bool)
      requires View().Shaped() && at <= |cells|
      modifies this`cells
      ensures ok <==> at + |elems| <= |old(cells)|
      ensures View() == Fill(old(View()), at, elems)
    {
      ghost var was := View();
      assert View() == Fill(was, at, []);
      for i := 0 to |elems|
        invariant at + i <= |cells| == |was.cells|
        invariant cells == Fill(was, at, elems[..i]).cells
      {
        if at + i >= |cells| {
          FillToEnd(was, at, elems, i);
          return false;
        }
        FillStep(was, at, elems, i);
        cells := cells[at + i := elems[i]];
      }
      assert elems[..|elems|] == elems;
      return true;
    }

    /**
     Appends an array at a row.  The empty array is appended to a column of any depth, another array
     exactly when its dimensions are as many as the column is deep and its leading extents are one;
     for other extents an element goes past the end of the cells that were reserved.  Whatever the
     outcome, all other rows read as before; when it is `Appended` the row reads as the array.
     */
    method AppendList(offset: nat, dims: seq<nat>, elems: seq<Option<T>>) returns (r: Outcome)
      requires View().Valid() && offset < |entries[0]| && IsArray(dims, |elems|)
      modifies this
      ensures r == Appended <==> dims == [] || (|dims| == |old(entries)| && LeadingOnes(dims))
      ensures r == TooManyDimensions <==> |dims| > |old(entries)|
      ensures r == TooFewDimensions <==> 0 < |dims| < |old(entries)|
      ensures r == Appended ==> ReadsAs(View(), 0, offset, Nest(dims, elems))
      ensures OtherRowsKept(old(View()), View(), offset)
    {
      hide ReadsAs, Fill, NestAt, OtherRowsKept;
      ghost var v := View();
      var depth := |entries|;
      if dims == [] {
        EmptyReadBack(v, offset);
        entries := entries[0 := entries[0][offset := Entry(sizes[0], 0)]];
        return Appended;
      }
      var writeOffset := AddDimensions(offset, dims);
      ghost var w := View();
      NothingWritten(v, w, offset);
      OldRowsKept(v, w, offset, dims, LevelsAdded(|dims|, depth), []);
      if writeOffset.None? {
        return TooManyDimensions;
      } else if |dims| < depth {
        return TooFewDimensions;
      }
      OldRowsKept(v, w, offset, dims, |dims|, elems);
      ReservedIff(dims);
      var ok := WriteCells(writeOffset.value, elems);
      if !ok {
        return WritesPastEnd;
      }
      ReadBack(v, w, offset, dims, elems);
      return Appended;
    }
  }

  /** Once the cells are used up, further elements have no place. */
  lemma FillToEnd<T>(v: Vectors<T>, at: nat, elems: seq<Option<T>>, i: nat)
    requires i <= |elems| && at + i >= |v.cells|
    ensures Fill(v, at, elems[..i]) == Fill(v, at, elems)
  {
    assert Fill(v, at, elems[..i]).cells == Fill(v, at, elems).cells;
  }

  lemma FillStep<T>(v: Vectors<T>, at: nat, elems: seq<Option<T>>, i: nat)
    requires i < |elems| && at + i < |v.cells|
    ensures Fill(v, at, elems[..i]).cells[at + i := elems[i]] == Fill(v, at, elems[..i + 1]).cells
  {
    var now, next := Fill(v, at, elems[..i]).cells[at + i := elems[i]], Fill(v, at, elems[..i + 1]).cells;
    assert forall k :: 0 <= k < |v.cells| ==> now[k] == next[k];
  }

  /** A cube: the four lists of the last level get only two entries, and four of the eight cells. */
  lemma CubeWritesPastEnd()
    ensures !LeadingOnes([2, 2, 2]) && Growth([2, 2, 2], 2) == 4 < Product([2, 2, 2]) == 8
  {
    assert [2, 2, 2][0] == 2;
    assert [2, 2, 2][1..] == [2, 2] && [2, 2][1..] == [2] && [2][1..] == [];
  }
}
