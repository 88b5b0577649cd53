/**
 Which filters libpgduckdb/scan/postgres_scan.cpp sends to PostgreSQL, which it leaves to DuckDB, and
 which make it raise an exception, told from the shape of the filter tree.
 */
module FilterOutcome {
  import opened Basics
  import opened Expressions
  import opened ExpressionText
  import opened FilterPushdown

  // ---------- exceptions ----------

  /** Every filter without a translation lies under some optional filter. */
  predicate Covered(f: Filter)
    decreases f
  {
    match f
    case Conjunction(_, fs) => AllCovered(fs)
    case Other(_) => false
    case _ => true
  }

  predicate AllCovered(fs: Filters)
    decreases fs
  {
    fs.Cons? ==> Covered(fs.head) && AllCovered(fs.tail)
  }

  /** Nothing can be said of the filter in SQL: it, all parts of an AND, or one part of an OR has no translation. */
  predicate Silent(f: Filter)
    decreases f
  {
    match f
    case LeafFilter(_) => false
    case ExpressionFilter(_) => false
    case Other(_) => true
    case OptionalFilter(c) => Silent(c)
    case Conjunction(or, fs) => if or then fs.Nil? || SomeSilent(fs) else AllSilent(fs)
  }

  predicate SomeSilent(fs: Filters)
    decreases fs
  {
    fs.Cons? && (Silent(fs.head) || SomeSilent(fs.tail))
  }

  predicate AllSilent(fs: Filters)
    decreases fs
  {
    fs.Cons? ==> Silent(fs.head) && AllSilent(fs.tail)
  }

  /** A filter without a translation lies under no optional filter, and no OR was given up before it. */
  predicate Exposed(f: Filter)
    decreases f
  {
    match f
    case Conjunction(or, fs) => SomeExposed(or, fs)
    case Other(_) => true
    case _ => false
  }

  predicate SomeExposed(or: bool, fs: Filters)
    decreases fs
  {
    fs.Cons? && (Exposed(fs.head) || (!(or && Silent(fs.head)) && SomeExposed(or, fs.tail)))
  }

  /** When every filter without a translation is covered, no exception is raised, whatever else the tree holds. */
  lemma {:induction false} CoveredNeverThrows(f: Filter, column: string, optional: bool)
    requires optional || Covered(f)
    ensures Extract(f, column, optional) != Throws
    decreases f
  {
    match f
    case Conjunction(or, fs) => AllCoveredNeverThrow(or, fs, column, optional);
    case OptionalFilter(c) => CoveredNeverThrows(c, column, true);
    case _ =>
  }

  lemma {:induction false} AllCoveredNeverThrow(or: bool, fs: Filters, column: string, optional: bool)
    requires optional || AllCovered(fs)
    ensures ExtractAll(or, fs, column, optional) != ChildThrows
    decreases fs
  {
    if fs.Cons? {
      CoveredNeverThrows(fs.head, column, optional);
      AllCoveredNeverThrow(or, fs.tail, column, optional);
    }
  }

  /**
   For every accepted filter tree: an exception is raised if and only if a filter without a translation
   is exposed, and nothing is sent if and only if the filter is silent and no exception is raised.
   */
  lemma {:induction false} OutcomeIff(f: Filter, column: string, optional: bool)
    requires WellFormed(f)
    ensures Extract(f, column, optional) == Throws <==> !optional && Exposed(f)
    ensures Extract(f, column, optional) == FilterPushdown.Nothing <==> Silent(f) && (optional || !Exposed(f))
    decreases f
  {
    NeverUndefined(f, column, optional);
    match f
    case Conjunction(or, fs) => AllOutcomesIff(or, fs, column, optional);
    case OptionalFilter(c) => OutcomeIff(c, column, true);
    case _ =>
  }

  lemma {:induction false} AllOutcomesIff(or: bool, fs: Filters, column: string, optional: bool)
    requires AllWellFormed(fs)
    ensures var x := ExtractAll(or, fs, column, optional);
            && (x == ChildThrows <==> !optional && SomeExposed(or, fs))
            && (x == Dropped <==> or && SomeSilent(fs) && (optional || !SomeExposed(or, fs)))
            && (x == Kept([]) <==> (if or then fs.Nil? else AllSilent(fs)) && (optional || !SomeExposed(or, fs)))
    decreases fs
  {
    NeverUndefinedAll(or, fs, column, optional);
    if fs.Cons? {
      NeverUndefined(fs.head, column, optional);
      OutcomeIff(fs.head, column, optional);
      AllOutcomesIff(or, fs.tail, column, optional);
    }
  }

  // ---------- rows ----------

  /** The row satisfies what can be said of the filter in SQL. */
  ghost predicate KeepsSpoken(f: Filter, row: Row)
    decreases f
  {
    Silent(f) ||
    match f
    case Conjunction(or, fs) => if or then AnyKeepsSpoken(fs, row) else AllKeepSpoken(fs, row)
    case OptionalFilter(c) => KeepsSpoken(c, row)
    case _ => Keeps(f, row, true)
  }

  ghost predicate AnyKeepsSpoken(fs: Filters, row: Row)
    decreases fs
  {
    fs.Cons? && (KeepsSpoken(fs.head, row) || AnyKeepsSpoken(fs.tail, row))
  }

  ghost predicate AllKeepSpoken(fs: Filters, row: Row)
    decreases fs
  {
    fs.Cons? ==> KeepsSpoken(fs.head, row) && AllKeepSpoken(fs.tail, row)
  }

  /** PostgreSQL returns exactly the rows that satisfy what can be said of the filter, optional parts included. */
  lemma {:induction false} PassesIff(f: Filter, column: string, optional: bool, row: Row)
    requires WellFormed(f) && Alike(f, row.duck, row.postgres) && (optional || !Exposed(f))
    ensures Passes(Extract(f, column, optional), column, row) <==> KeepsSpoken(f, row)
    decreases f
  {
    OutcomeIff(f, column, optional);
    NeverUndefined(f, column, optional);
    match f
    case Conjunction(or, fs) =>
      AllOutcomesIff(or, fs, column, optional);
      if !Silent(f) { AllPassIff(or, fs, column, optional, row); }
    case OptionalFilter(c) => PassesIff(c, column, true, row);
    case ExpressionFilter(e) => ExpressionClauseMeans(e, column, row);
    case LeafFilter(l) => LeafAlike(l, row.value, row.duck, row.postgres);
    case _ =>
  }

  lemma {:induction false} AllPassIff(or: bool, fs: Filters, column: string, optional: bool, row: Row)
    requires AllWellFormed(fs) && AllAlike(fs, row.duck, row.postgres)
    requires (optional || !SomeExposed(or, fs)) && !(or && SomeSilent(fs))
    ensures var x := ExtractAll(or, fs, column, optional);
            && x.Kept?
            && (JoinedValue(or, x.clauses, column, row) == VBool(true) <==>
                  if or then AnyKeepsSpoken(fs, row) else AllKeepSpoken(fs, row))
    decreases fs
  {
    hide ClauseValue, KeepsSpoken;
    NeverUndefinedAll(or, fs, column, optional);
    AllOutcomesIff(or, fs, column, optional);
    if fs.Cons? {
      NeverUndefined(fs.head, column, optional);
      OutcomeIff(fs.head, column, optional);
      PassesIff(fs.head, column, optional, row);
      AllPassIff(or, fs.tail, column, optional, row);
      if Extract(fs.head, column, optional).Query? {
        var x, tail := ExtractAll(or, fs, column, optional), ExtractAll(or, fs.tail, column, optional);
        assert x.clauses[1..] == tail.clauses;
      }
    }
  }

  /** The rows of the whole WHERE clause: those that satisfy what can be said of every filter. */
  lemma {:induction false} WhereKeepsIff(filters: seq<ColumnFilter>, rows: seq<Row>)
    requires |filters| == |rows|
    requires forall i :: 0 <= i < |filters| ==>
               && WellFormed(filters[i].filter) && !Exposed(filters[i].filter)
               && Alike(filters[i].filter, rows[i].duck, rows[i].postgres)
    ensures WhereValue(filters, rows) == VBool(true) <==>
              forall i :: 0 <= i < |filters| ==> KeepsSpoken(filters[i].filter, rows[i])
  {
    hide KeepsSpoken;
    if filters != [] {
      WhereKeepsIff(filters[1..], rows[1..]);
      PassesIff(filters[0].filter, filters[0].column, false, rows[0]);
      assert forall i :: 0 < i < |filters| ==> filters[i] == filters[1..][i - 1] && rows[i] == rows[1..][i - 1];
    }
  }
}
