/**
 Star reconstruction of pg_duckdb/src/pgduckdb_ruleutils.cpp.  PostgreSQL expands * into a list of
 columns; where a run of columns of one relation, from attribute 1 on, contains a duckdb.row column,
 the deparser puts a single star back by writing only the first row column of the run.
 */
module Star {
  import opened Basics

  /** A target list entry: a column of a relation (numbered from 1), or some other expression. */
  datatype Entry = Var(relation: int, attribute: int, isRow: bool) | Expression

  predicate RowColumn(e: Entry) {
    e.Var? && e.isRow
  }

  // ---------- what should be dropped ----------

  /** The entry at `k` is where it belongs in a run of the relation that starts at `start`. */
  predicate Belongs(list: seq<Entry>, start: nat, k: nat)
    requires start <= k < |list|
  {
    && list[start].Var? && list[k].Var?
    && list[k].relation == list[start].relation && list[k].attribute == k - start + 1
  }

  /** The entries from `start` up to `end` are the columns of one relation, from attribute 1 on. */
  predicate IsRun(list: seq<Entry>, start: nat, end: nat) {
    start <= end <= |list| && forall k :: start <= k < end ==> Belongs(list, start, k)
  }

  /** The run that starts at `start` reaches the entry at `k`. */
  predicate InRun(list: seq<Entry>, start: nat, k: nat) {
    start <= k && IsRun(list, start, k + 1)
  }

  /** The first row column of the run that starts at `start` is at `r`. */
  predicate FirstRow(list: seq<Entry>, start: nat, r: nat) {
    InRun(list, start, r) && RowColumn(list[r]) && forall k :: start <= k < r ==> !RowColumn(list[k])
  }

  /** Dropped: in a run that has a row column, every entry but the first row column. */
  ghost predicate Dropped(list: seq<Entry>, k: nat) {
    exists start: nat, r: nat :: InRun(list, start, k) && FirstRow(list, start, r) && k != r
  }

  predicate WellFormed(list: seq<Entry>) {
    forall k :: 0 <= k < |list| && list[k].Var? ==> list[k].relation != 0
  }

  lemma RunStartUnique(list: seq<Entry>, a: nat, b: nat, k: nat)
    requires InRun(list, a, k) && InRun(list, b, k)
    ensures a == b
  {
    assert Belongs(list, a, k) && Belongs(list, b, k);
  }

  lemma FirstRowUnique(list: seq<Entry>, start: nat, r: nat, q: nat)
    requires FirstRow(list, start, r) && FirstRow(list, start, q)
    ensures r == q
  {
  }

  /** Of a run with a row column exactly one entry is written: its first row column. */
  lemma OneStarPerRun(list: seq<Entry>, start: nat, r: nat, k: nat)
    requires FirstRow(list, start, r) && InRun(list, start, k)
    ensures !Dropped(list, k) <==> k == r
  {
    forall s: nat, q: nat | InRun(list, s, k) && FirstRow(list, s, q) ensures s == start && q == r {
      RunStartUnique(list, s, start, k);
      FirstRowUnique(list, start, q, r);
    }
  }

  lemma RunGrows(list: seq<Entry>, start: nat, k: nat)
    requires IsRun(list, start, k) && start <= k < |list|
    ensures InRun(list, start, k) <==> Belongs(list, start, k)
  {
  }

  // ---------- what the context stands for ----------

  datatype Context = Context(varno: int, attno: int, added: bool)

  /** The star that is open before the entry at `k`: its run started at `start`, its row column is at `r`. */
  predicate Open(list: seq<Entry>, k: nat, c: Context, start: nat, r: nat) {
    && start < k && IsRun(list, start, k) && FirstRow(list, start, r)
    && list[start].Var? && c.varno == list[start].relation && c.attno == k - start + 1 && c.added == (r < k)
  }

  /** No run with a row column reaches from before `k` over the entry at `k`. */
  ghost predicate NoneReaches(list: seq<Entry>, k: nat) {
    forall start: nat, r: nat :: FirstRow(list, start, r) && start < k ==> !InRun(list, start, k)
  }

  ghost predicate Inv(list: seq<Entry>, k: nat, c: Context) {
    if c.varno == 0 then NoneReaches(list, k)
    else exists start: nat, r: nat :: Open(list, k, c, start, r)
  }

  /** A star begins at `k`: the new context opens it. */
  lemma Begins(list: seq<Entry>, k: nat, r: nat)
    requires WellFormed(list) && FirstRow(list, k, r)
    ensures Dropped(list, k) <==> k != r
    ensures list[k].Var? && Open(list, k + 1, Context(list[k].relation, 2, r == k), k, r)
  {
    assert Belongs(list, k, k) && InRun(list, k, k);
    OneStarPerRun(list, k, r, k);
  }

  /** The entry at `k` continues the open star. */
  lemma Continues(list: seq<Entry>, k: nat, c: Context, start: nat, r: nat)
    requires Open(list, k, c, start, r) && k < |list| && Belongs(list, start, k)
    ensures Dropped(list, k) <==> k != r
    ensures r == k <==> !c.added && RowColumn(list[k])
    ensures Open(list, k + 1, c.(attno := c.attno + 1, added := c.added || r == k), start, r)
  {
    RunGrows(list, start, k);
    OneStarPerRun(list, start, r, k);
  }

  /** The entry at `k` neither begins nor continues a star: it is kept, and no star reaches over it. */
  lemma Ends(list: seq<Entry>, k: nat, c: Context)
    requires k < |list| && Inv(list, k, c)
    requires forall r: nat :: !FirstRow(list, k, r)
    requires c.varno != 0 ==> forall start: nat, r: nat :: Open(list, k, c, start, r) ==> !Belongs(list, start, k)
    ensures !Dropped(list, k) && NoneReaches(list, k + 1)
  {
    forall s: nat, q: nat | FirstRow(list, s, q) && s <= k ensures !InRun(list, s, k) {
      if s < k && InRun(list, s, k) {
        assert Belongs(list, s, k);
        if c.varno != 0 {
          var start: nat, r: nat :| Open(list, k, c, start, r);
          assert IsRun(list, s, k) && InRun(list, s, k - 1) && InRun(list, start, k - 1);
          RunStartUnique(list, s, start, k - 1);
        }
      }
    }
    forall s: nat, q: nat | FirstRow(list, s, q) && s < k + 1 ensures !InRun(list, s, k + 1) {
      if InRun(list, s, k + 1) { assert InRun(list, s, k); }
    }
  }

  // ---------- the one-pass state machine ----------

  class StarReconstruction {
    const targetList: seq<Entry>
    var varnoStar: int
    var varattnoStar: int
    var addedCurrentStar: bool

    ghost function View(): Context
      reads this
    {
      Context(varnoStar, varattnoStar, addedCurrentStar)
    }

    constructor (list: seq<Entry>)
      ensures targetList == list && View() == Context(0, 0, false)
    {
      targetList := list;
      varnoStar, varattnoStar, addedCurrentStar := 0, 0, false;
    }

    /** Looks ahead from the entry at `k` for a row column in the run that starts there. */
    method CheckForStarStart(k: nat) returns (ghost row: Option<nat>)
      requires k < |targetList|
      modifies this
      ensures row.Some? ==> FirstRow(targetList, k, row.value) && targetList[k].Var?
      ensures row.Some? ==> View() == Context(targetList[k].relation, 1, false)
      ensures row.None? ==> (forall r: nat :: !FirstRow(targetList, k, r)) && View() == old(View())
    {
      row := None;
      var first := targetList[k];
      if !first.Var? || first.attribute != 1 {
        assert !Belongs(targetList, k, k);
        return;
      }
      var cell, attno := k, 1;
      while cell < |targetList|
        invariant k <= cell <= |targetList| && attno == cell - k + 1
        invariant IsRun(targetList, k, cell)
        invariant forall j :: k <= j < cell ==> !RowColumn(targetList[j])
        invariant View() == old(View())
      {
        var entry := targetList[cell];
        if !entry.Var? || entry.relation != first.relation || entry.attribute != attno {
          assert !Belongs(targetList, k, cell);
          return;
        }
        assert Belongs(targetList, k, cell);
        if entry.isRow {
          varnoStar, varattnoStar, addedCurrentStar := first.relation, first.attribute, false;
          row := Some(cell);
          return;
        }
        attno := attno + 1;
        cell := cell + 1;
      }
    }

    /** One entry: whether it is left out, as part of a run that becomes a star. */
    method Step(k: nat) returns (skip: bool)
      requires WellFormed(targetList) && k < |targetList| && Inv(targetList, k, View())
      modifies this
      ensures skip <==> Dropped(targetList, k)
      ensures Inv(targetList, k + 1, View())
    {
      ghost var before := View();
      ghost var row := CheckForStarStart(k);
      if row.Some? {
        Begins(targetList, k, row.value);
        assert Belongs(targetList, k, k);
      }
      if varnoStar == 0 {
        Ends(targetList, k, before);
        return false;
      }
      var entry := targetList[k];
      if entry.Var? && entry.relation == varnoStar && entry.attribute == varattnoStar {
        ghost var start, r := k, k;
        if row.Some? {
          r := row.value;
        } else {
          start, r :| Open(targetList, k, before, start, r);
          assert Belongs(targetList, start, start);
          Continues(targetList, k, before, start, r);
        }
        varattnoStar := varattnoStar + 1;
        if addedCurrentStar {
          assert Open(targetList, k + 1, View(), start, r);
          return true;
        }
        if !entry.isRow {
          assert Open(targetList, k + 1, View(), start, r);
          return true;
        }
        addedCurrentStar := true;
        assert Open(targetList, k + 1, View(), start, r);
        return false;
      }
      Ends(targetList, k, before);
      varnoStar, varattnoStar, addedCurrentStar := 0, 0, false;
      return false;
    }
  }

  /** The target list loop: the entries that are written are exactly those that are not dropped. */
  method WrittenEntries(list: seq<Entry>) returns (written: seq<nat>)
    requires WellFormed(list)
    ensures forall i, j :: 0 <= i < j < |written| ==> written[i] < written[j]
    ensures forall k: nat :: k in written <==> k < |list| && !Dropped(list, k)
  {
    var star := new StarReconstruction(list);
    written := [];
    var k := 0;
    while k < |list|
      invariant 0 <= k <= |list| && star.targetList == list
      invariant Inv(list, k, star.View())
      invariant forall i, j :: 0 <= i < j < |written| ==> written[i] < written[j]
      invariant forall j: nat :: j in written <==> j < k && !Dropped(list, j)
    {
      var skip := star.Step(k);
      if !skip {
        assert forall i :: 0 <= i < |written| ==> written[i] in written;
        written := written + [k];
      }
      k := k + 1;
    }
  }
}
