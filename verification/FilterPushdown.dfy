/**
 Filter pushdown of libpgduckdb/scan/postgres_scan.cpp: the filters DuckDB attaches to the columns of
 a scan become the WHERE clause of the query that is sent to PostgreSQL.
 */
module FilterPushdown {
  import opened Basics
  import opened Expressions
  import opened ExpressionText

  /** A filter that PostgreSQL evaluates as DuckDB prints it. */
  datatype Leaf = Comparison(op: CompareOp, constant: Value) | NullTest(negated: bool) | Member(values: seq<Value>)

  /** The filter tree of one column.  `Other` is a dynamic filter, a struct filter or one that is not known. */
  datatype Filter =
    | LeafFilter(leaf: Leaf)
    | Conjunction(or: bool, children: Filters)
    | OptionalFilter(child: Filter)
    | ExpressionFilter(e: Expr)
    | Other(id: nat)

  datatype Filters = Nil | Cons(head: Filter, tail: Filters)

  /** The part of a WHERE clause that is emitted for a filter. */
  datatype Clause = LeafText(leaf: Leaf) | Joined(or: bool, clauses: seq<Clause>) | ExpressionClause(tokens: seq<Token>)

  /**
   The outcome of extracting a filter: a clause, nothing (the filter is left to DuckDB), an exception,
   or the dereference of a translation that does not exist.
   */
  datatype Extracted = Query(clause: Clause) | Nothing | Throws | Undefined

  datatype Children = Kept(clauses: seq<Clause>) | Dropped | ChildThrows | ChildUndefined

  // ---------- extraction ----------

  function Extract(f: Filter, column: string, optional: bool): Extracted
    decreases f
  {
    match f
    case LeafFilter(l) => Query(LeafText(l))
    case Conjunction(or, fs) =>
      (match ExtractAll(or, fs, column, optional)
       case Kept(cs) => if cs == [] then Nothing else Query(Joined(or, cs))
       case Dropped => Nothing
       case ChildThrows => Throws
       case ChildUndefined => Undefined)
    case OptionalFilter(c) => Extract(c, column, true)
    case ExpressionFilter(e) => if Emits(e, column) then Query(ExpressionClause(Text(e, column))) else Undefined
    case Other(_) => if optional then Nothing else Throws
  }

  /** The children in order; the first child of an OR that yields nothing drops the whole OR. */
  function ExtractAll(or: bool, fs: Filters, column: string, optional: bool): Children
    decreases fs
  {
    match fs
    case Nil => Kept([])
    case Cons(f, rest) =>
      match Extract(f, column, optional)
      case Throws => ChildThrows
      case Undefined => ChildUndefined
      case Nothing => if or then Dropped else ExtractAll(or, rest, column, optional)
      case Query(c) =>
        match ExtractAll(or, rest, column, optional)
        case Kept(cs) => Kept([c] + cs)
        case other => other
  }

  /** The recursive extraction with its loop over the children. */
  method ExtractQueryFilters(f: Filter, column: string, optional: bool) returns (r: Extracted)
    ensures r == Extract(f, column, optional)
    decreases f
  {
    match f
    case LeafFilter(l) => r := Query(LeafText(l));
    case Conjunction(or, fs) =>
      var clauses: seq<Clause> := [];
      var rest := fs;
      while rest.Cons?
        invariant ExtractAll(or, fs, column, optional)
               == match ExtractAll(or, rest, column, optional) case Kept(cs) => Kept(clauses + cs) case other => other
        invariant rest == fs || rest < fs
        decreases rest
      {
        var child := ExtractQueryFilters(rest.head, column, optional);
        match child {
          case Throws => return Throws;
          case Undefined => return Undefined;
          case Nothing =>
            if or {
              return Nothing;
            }
          case Query(c) =>
            ghost var before := clauses;
            clauses := clauses + [c];
            assert forall cs :: before + ([c] + cs) == clauses + cs;
        }
        rest := rest.tail;
      }
      assert clauses + [] == clauses;
      r := if clauses == [] then Nothing else Query(Joined(or, clauses));
    case OptionalFilter(c) => r := ExtractQueryFilters(c, column, true);
    case ExpressionFilter(e) =>
      var text := ExpressionToString(e, column);
      r := if text.Some? then Query(ExpressionClause(text.value)) else Undefined;
    case Other(_) => r := if optional then Nothing else Throws;
  }

  // ---------- which rows are kept ----------

  /**
   What a filter looks at: the value of its column, how each engine treats text in that column, and the
   answers of other filters.
   */
  datatype Row = Row(value: Value, duck: Engine, postgres: Engine, answers: nat -> bool)

  function LeafValue(l: Leaf, v: Value, engine: Engine): Value {
    match l
    case Comparison(op, c) => Compare3(op, v, c, engine)
    case NullTest(negated) => VBool((v == VNull) != negated)
    case Member(vs) => MemberValue(vs, v, engine)
  }

  /** IN: true for a member, unknown when only a null could decide, false otherwise. */
  function MemberValue(vs: seq<Value>, v: Value, engine: Engine): Value {
    if vs == [] then VBool(false) else Or3(Compare3(Equal, v, vs[0], engine), MemberValue(vs[1..], v, engine))
  }

  /** DuckDB keeps the row.  With `enforce` optional filters count, without it they are taken as true. */
  ghost predicate Keeps(f: Filter, row: Row, enforce: bool)
    decreases f
  {
    match f
    case LeafFilter(l) => LeafValue(l, row.value, row.duck) == VBool(true)
    case Conjunction(or, fs) => if or then AnyKeeps(fs, row, enforce) else AllKeep(fs, row, enforce)
    case OptionalFilter(c) => enforce ==> Keeps(c, row, enforce)
    case ExpressionFilter(e) => Eval(e, row.value, row.duck) == VBool(true)
    case Other(id) => row.answers(id)
  }

  ghost predicate AnyKeeps(fs: Filters, row: Row, enforce: bool)
    decreases fs
  {
    fs.Cons? && (Keeps(fs.head, row, enforce) || AnyKeeps(fs.tail, row, enforce))
  }

  ghost predicate AllKeep(fs: Filters, row: Row, enforce: bool)
    decreases fs
  {
    fs.Cons? ==> Keeps(fs.head, row, enforce) && AllKeep(fs.tail, row, enforce)
  }

  /** The three-valued result of a clause in PostgreSQL; text that does not parse yields nothing. */
  ghost function ClauseValue(c: Clause, column: string, row: Row): Value
    decreases c
  {
    match c
    case LeafText(l) => LeafValue(l, row.value, row.postgres)
    case Joined(or, cs) => JoinedValue(or, cs, column, row)
    case ExpressionClause(ts) =>
      if Parse(ts).Some? then SqlEval(Parse(ts).value, column, row.value, row.postgres) else VNull
  }

  ghost function JoinedValue(or: bool, cs: seq<Clause>, column: string, row: Row): Value
    decreases cs
  {
    if cs == [] then VBool(!or)
    else Join3(or, ClauseValue(cs[0], column, row), JoinedValue(or, cs[1..], column, row))
  }

  /** PostgreSQL keeps the row: the clause is true, or there is none. */
  ghost predicate Passes(x: Extracted, column: string, row: Row) {
    match x
    case Query(c) => ClauseValue(c, column, row) == VBool(true)
    case _ => true
  }

  /** What DuckDB guarantees of a filter tree: no OR is empty, and expressions were accepted and read as meant. */
  predicate WellFormed(f: Filter)
    decreases f
  {
    match f
    case Conjunction(or, fs) => (or ==> fs.Cons?) && AllWellFormed(fs)
    case OptionalFilter(c) => WellFormed(c)
    case ExpressionFilter(e) => Emits(e, "dummy") && Safe(e)
    case _ => true
  }

  predicate AllWellFormed(fs: Filters)
    decreases fs
  {
    fs.Cons? ==> WellFormed(fs.head) && AllWellFormed(fs.tail)
  }

  // ---------- where the engines must agree ----------

  /** The engines place every string on the same side of `c`. */
  ghost predicate AgreeAt(c: string, x: Engine, y: Engine) {
    forall s :: x.less(s, c) == y.less(s, c) && x.less(c, s) == y.less(c, s)
  }

  /** The engines agree on the text comparisons and the case folding of a filter. */
  ghost predicate Alike(f: Filter, x: Engine, y: Engine)
    decreases f
  {
    match f
    case LeafFilter(Comparison(op, VText(c))) => Ordering(op) ==> AgreeAt(c, x, y)
    case LeafFilter(_) => true
    case Conjunction(_, fs) => AllAlike(fs, x, y)
    case OptionalFilter(c) => Alike(c, x, y)
    case ExpressionFilter(e) => Agree(UsesOrder(e), UsesFold(e), x, y)
    case Other(_) => true
  }

  ghost predicate AllAlike(fs: Filters, x: Engine, y: Engine)
    decreases fs
  {
    fs.Cons? ==> Alike(fs.head, x, y) && AllAlike(fs.tail, x, y)
  }

  /** One order and one case folding are enough for every filter. */
  lemma {:induction false} SameEnginesAlike(f: Filter, x: Engine, y: Engine)
    requires SameOrder(x, y) && SameFold(x, y)
    ensures Alike(f, x, y)
    decreases f
  {
    match f
    case Conjunction(_, fs) => SameEnginesAllAlike(fs, x, y);
    case OptionalFilter(c) => SameEnginesAlike(c, x, y);
    case _ =>
  }

  lemma {:induction false} SameEnginesAllAlike(fs: Filters, x: Engine, y: Engine)
    requires SameOrder(x, y) && SameFold(x, y)
    ensures AllAlike(fs, x, y)
    decreases fs
  {
    if fs.Cons? {
      SameEnginesAlike(fs.head, x, y);
      SameEnginesAllAlike(fs.tail, x, y);
    }
  }

  lemma {:induction false} MemberAlike(vs: seq<Value>, v: Value, x: Engine, y: Engine)
    ensures MemberValue(vs, v, x) == MemberValue(vs, v, y)
  {
    if vs != [] { MemberAlike(vs[1..], v, x, y); }
  }

  lemma {:induction false} LeafAlike(l: Leaf, v: Value, x: Engine, y: Engine)
    requires Alike(LeafFilter(l), x, y)
    ensures LeafValue(l, v, x) == LeafValue(l, v, y)
  {
    if l.Member? { MemberAlike(l.values, v, x, y); }
  }

  ghost predicate TotalOrder(less: (string, string) -> bool) {
    forall s, t :: !(less(s, t) && less(t, s)) && (s != t ==> less(s, t) || less(t, s))
  }

  /** DuckDB and PostgreSQL keep the same rows for a filter on a column. */
  ghost predicate SameRows(f: Filter, column: string, duck: Engine, postgres: Engine) {
    forall v, answers ::
      Keeps(f, Row(v, duck, postgres, answers), true) <==>
      Passes(Extract(f, column, false), column, Row(v, duck, postgres, answers))
  }

  lemma {:induction false} ComparisonKeeps(op: CompareOp, c: string, column: string, s: string, row: Row)
    requires Ordering(op) && row.value == VText(s)
    ensures var f := LeafFilter(Comparison(op, VText(c)));
            && (Keeps(f, row, true) <==> Compare3(op, VText(s), VText(c), row.duck) == VBool(true))
            && (Passes(Extract(f, column, false), column, row) <==>
                Compare3(op, VText(s), VText(c), row.postgres) == VBool(true))
  {
  }

  /** A pushed comparison of text keeps the same rows in both engines if and only if they agree at its constant. */
  lemma ComparisonHoldsIff(op: CompareOp, c: string, column: string, duck: Engine, postgres: Engine)
    requires Ordering(op) && TotalOrder(duck.less) && TotalOrder(postgres.less)
    ensures SameRows(LeafFilter(Comparison(op, VText(c))), column, duck, postgres) <==> AgreeAt(c, duck, postgres)
  {
    var f := LeafFilter(Comparison(op, VText(c)));
    if AgreeAt(c, duck, postgres) {
      forall v, answers
        ensures Keeps(f, Row(v, duck, postgres, answers), true) <==>
                Passes(Extract(f, column, false), column, Row(v, duck, postgres, answers))
      {
        LeafAlike(f.leaf, v, duck, postgres);
      }
    }
    if SameRows(f, column, duck, postgres) {
      forall s ensures duck.less(s, c) == postgres.less(s, c) && duck.less(c, s) == postgres.less(c, s) {
        var row := Row(VText(s), duck, postgres, _ => false);
        ComparisonKeeps(op, c, column, s, row);
        assert Keeps(f, row, true) <==> Passes(Extract(f, column, false), column, row);
      }
    }
  }

  /** The row 'B' and the filter < 'a': DuckDB keeps it in byte order, PostgreSQL does not in a linguistic one. */
  lemma {:induction false} LinguisticOrderLosesRow(column: string, duck: Engine, postgres: Engine, answers: nat -> bool)
    requires duck.less == TextLess && TotalOrder(postgres.less) && postgres.less("a", "B")
    ensures var f := LeafFilter(Comparison(Less, VText("a")));
            var row := Row(VText("B"), duck, postgres, answers);
            Keeps(f, row, true) && !Passes(Extract(f, column, false), column, row)
  {
    assert TextLess("B", "a");
    ComparisonKeeps(Less, "a", column, "B", Row(VText("B"), duck, postgres, answers));
  }

  // ---------- the sandwich ----------

  /** A join is true when all (AND) or some (OR) of its clauses are. */
  lemma {:induction false} JoinedTrue(or: bool, cs: seq<Clause>, column: string, row: Row)
    ensures JoinedValue(or, cs, column, row) == VBool(true) <==>
            if or then exists i :: 0 <= i < |cs| && ClauseValue(cs[i], column, row) == VBool(true)
            else forall i :: 0 <= i < |cs| ==> ClauseValue(cs[i], column, row) == VBool(true)
  {
    if cs != [] {
      JoinedTrue(or, cs[1..], column, row);
      assert forall i :: 0 < i < |cs| ==> cs[i] == cs[1..][i - 1];
    }
  }

  lemma {:induction false} ExpressionClauseMeans(e: Expr, column: string, row: Row)
    requires Emits(e, "dummy") && Safe(e) && Agree(UsesOrder(e), UsesFold(e), row.duck, row.postgres)
    ensures Emits(e, column)
    ensures ClauseValue(ExpressionClause(Text(e, column)), column, row) == Eval(e, row.value, row.duck)
  {
    AcceptanceIgnoresName(e, "dummy", column);
    PushdownKeepsMeaning(e, column, row.value, row.duck, row.postgres);
  }

  /** A filter that DuckDB accepted for pushdown never dereferences a missing translation. */
  lemma {:induction false} NeverUndefined(f: Filter, column: string, optional: bool)
    requires WellFormed(f)
    ensures Extract(f, column, optional) != Undefined
    decreases f
  {
    match f
    case Conjunction(or, fs) => NeverUndefinedAll(or, fs, column, optional);
    case OptionalFilter(c) => NeverUndefined(c, column, true);
    case ExpressionFilter(e) => AcceptanceIgnoresName(e, "dummy", column);
    case _ =>
  }

  lemma {:induction false} NeverUndefinedAll(or: bool, fs: Filters, column: string, optional: bool)
    requires AllWellFormed(fs)
    ensures ExtractAll(or, fs, column, optional) != ChildUndefined
    decreases fs
  {
    if fs.Cons? {
      NeverUndefined(fs.head, column, optional);
      NeverUndefinedAll(or, fs.tail, column, optional);
    }
  }

  /** A row that the whole filter keeps is kept by what is sent to PostgreSQL. */
  lemma {:induction false} FullImpliesExtracted(f: Filter, column: string, optional: bool, row: Row)
    requires WellFormed(f) && Alike(f, row.duck, row.postgres) && Keeps(f, row, true)
    ensures Passes(Extract(f, column, optional), column, row)
    decreases f
  {
    match f
    case Conjunction(or, fs) =>
      FullImpliesExtractedAll(or, fs, column, optional, row);
    case OptionalFilter(c) => FullImpliesExtracted(c, column, true, row);
    case ExpressionFilter(e) => ExpressionClauseMeans(e, column, row);
    case LeafFilter(l) => LeafAlike(l, row.value, row.duck, row.postgres);
    case _ =>
  }

  lemma {:induction false} FullImpliesExtractedAll(or: bool, fs: Filters, column: string, optional: bool, row: Row)
    requires AllWellFormed(fs) && AllAlike(fs, row.duck, row.postgres)
    requires if or then AnyKeeps(fs, row, true) else AllKeep(fs, row, true)
    ensures var x := ExtractAll(or, fs, column, optional);
            x.Kept? ==> JoinedValue(or, x.clauses, column, row) == VBool(true)
    decreases fs
  {
    if fs.Cons? {
      if Keeps(fs.head, row, true) { FullImpliesExtracted(fs.head, column, optional, row); }
      if !or || AnyKeeps(fs.tail, row, true) { FullImpliesExtractedAll(or, fs.tail, column, optional, row); }
      var x := ExtractAll(or, fs, column, optional);
      if x.Kept? && Extract(fs.head, column, optional).Query? {
        assert x.clauses[1..] == ExtractAll(or, fs.tail, column, optional).clauses;
      }
    }
  }

  /** A row that PostgreSQL returns satisfies the filter with its optional parts taken as true. */
  lemma {:induction false} ExtractedImpliesMandatory(f: Filter, column: string, row: Row)
    requires WellFormed(f) && Alike(f, row.duck, row.postgres) && Extract(f, column, false) != Throws
    requires Passes(Extract(f, column, false), column, row)
    ensures Keeps(f, row, false)
    decreases f
  {
    match f
    case Conjunction(or, fs) =>
      NeverUndefinedAll(or, fs, column, false);
      ExtractedImpliesMandatoryAll(or, fs, column, row);
    case ExpressionFilter(e) => ExpressionClauseMeans(e, column, row);
    case LeafFilter(l) => LeafAlike(l, row.value, row.duck, row.postgres);
    case _ =>
  }

  lemma {:induction false} AndIsNeverDropped(fs: Filters, column: string, optional: bool)
    ensures !ExtractAll(false, fs, column, optional).Dropped?
    decreases fs
  {
    if fs.Cons? { AndIsNeverDropped(fs.tail, column, optional); }
  }

  lemma {:induction false} ExtractedImpliesMandatoryAll(or: bool, fs: Filters, column: string, row: Row)
    requires AllWellFormed(fs) && AllAlike(fs, row.duck, row.postgres) && (or ==> fs.Cons?)
    requires var x := ExtractAll(or, fs, column, false);
             x.Dropped? || (x.Kept? && JoinedValue(or, x.clauses, column, row) == VBool(true))
    ensures if or then AnyKeeps(fs, row, false) else AllKeep(fs, row, false)
    decreases fs
  {
    if fs.Cons? {
      AndIsNeverDropped(fs, column, false);
      var x := ExtractAll(or, fs, column, false);
      var head := Extract(fs.head, column, false);
      if head.Query? {
        var tail := ExtractAll(or, fs.tail, column, false);
        if x.Kept? { assert x.clauses[1..] == tail.clauses; }
        if Passes(head, column, row) { ExtractedImpliesMandatory(fs.head, column, row); }
        if !or || (fs.tail.Cons? && (tail.Dropped? || JoinedValue(or, tail.clauses, column, row) == VBool(true))) {
          ExtractedImpliesMandatoryAll(or, fs.tail, column, row);
        }
      } else {
        ExtractedImpliesMandatory(fs.head, column, row);
        if !or { ExtractedImpliesMandatoryAll(or, fs.tail, column, row); }
      }
    }
  }

  // ---------- the WHERE clause over all columns ----------

  /** The filter of one scanned column, and what it sees in a row of the table. */
  datatype ColumnFilter = ColumnFilter(column: string, filter: Filter)

  /** The clauses of the filtered columns that yield one, joined by AND. */
  ghost function WhereValue(filters: seq<ColumnFilter>, rows: seq<Row>): Value
    requires |filters| == |rows|
  {
    if filters == [] then VBool(true)
    else
      var x := Extract(filters[0].filter, filters[0].column, false);
      var rest := WhereValue(filters[1..], rows[1..]);
      if x.Query? then And3(ClauseValue(x.clause, filters[0].column, rows[0]), rest) else rest
  }

  ghost predicate TableKeeps(filters: seq<ColumnFilter>, rows: seq<Row>, enforce: bool)
    requires |filters| == |rows|
  {
    forall i :: 0 <= i < |filters| ==> Keeps(filters[i].filter, rows[i], enforce)
  }

  /**
   The rows that PostgreSQL returns lie between the rows the full filters keep and the rows the
   mandatory filters keep, whatever was dropped on the way, when the engines agree on the comparisons.
   */
  lemma {:induction false} WhereSandwich(filters: seq<ColumnFilter>, rows: seq<Row>)
    requires |filters| == |rows|
    requires forall i :: 0 <= i < |filters| ==>
               && WellFormed(filters[i].filter) && Extract(filters[i].filter, filters[i].column, false) != Throws
               && Alike(filters[i].filter, rows[i].duck, rows[i].postgres)
    ensures TableKeeps(filters, rows, true) ==> WhereValue(filters, rows) == VBool(true)
    ensures WhereValue(filters, rows) == VBool(true) ==> TableKeeps(filters, rows, false)
  {
    if filters != [] {
      WhereSandwich(filters[1..], rows[1..]);
      var f, c, row := filters[0].filter, filters[0].column, rows[0];
      NeverUndefined(f, c, false);
      if Keeps(f, row, true) { FullImpliesExtracted(f, c, false, row); }
      if Passes(Extract(f, c, false), c, row) { ExtractedImpliesMandatory(f, c, row); }
      assert forall i :: 0 < i < |filters| ==> filters[i] == filters[1..][i - 1] && rows[i] == rows[1..][i - 1];
      assert forall e :: TableKeeps(filters, rows, e) <==> Keeps(f, row, e) && TableKeeps(filters[1..], rows[1..], e);
    }
  }

  /** A row that PostgreSQL returns is one that the mandatory filter keeps. */
  ghost predicate OnlyKept(f: Filter, column: string, row: Row) {
    Passes(Extract(f, column, false), column, row) ==> Keeps(f, row, false)
  }

  /**
   For an OR over well-formed children the second half of the sandwich holds for every row if and only
   if there is a child: without one DuckDB keeps no row, but nothing is sent and every row comes back.
   */
  lemma {:induction false} OrHoldsIff(fs: Filters, column: string)
    requires AllWellFormed(fs) && Extract(Conjunction(true, fs), column, false) != Throws
    ensures (forall row: Row ::
               AllAlike(fs, row.duck, row.postgres) ==> OnlyKept(Conjunction(true, fs), column, row))
            <==> fs.Cons?
  {
    var f := Conjunction(true, fs);
    if fs.Cons? {
      forall row: Row | AllAlike(fs, row.duck, row.postgres) ensures OnlyKept(f, column, row) {
        if Passes(Extract(f, column, false), column, row) { ExtractedImpliesMandatory(f, column, row); }
      }
    } else {
      var engine := Engine((_, text) => text, TextLess);
      var row := Row(VNull, engine, engine, _ => false);
      assert ExtractAll(true, fs, column, false) == Kept([]);
      assert AllAlike(fs, row.duck, row.postgres) && !OnlyKept(f, column, row);
    }
  }
}
