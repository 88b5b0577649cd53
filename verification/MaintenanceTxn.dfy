/**
 The transactions of a maintenance worker (pg_ducklake/src/maintenance_worker.cpp).  A maintenance
 query writes metadata while it executes, so what it wrote before failing must not be committed.
 */
module MaintenanceTxn {

  /** How a query ends: normally, with an exception the helper reports, or with a raised PostgreSQL error. */
  datatype Ending = Succeeds | Throws | Raises

  /** A query: the metadata rows it writes as it executes, and how it ends. */
  datatype Query<W> = Query(writes: seq<W>, ending: Ending)

  /** One operation of the worker: its queries in order.  A switched-off operation has none. */
  type Operation<W> = seq<Query<W>>

  // ---------- what should be committed ----------

  predicate Completes<W>(op: Operation<W>) {
    forall i :: 0 <= i < |op| ==> op[i].ending.Succeeds?
  }

  /** The rows written up to the first query that does not succeed. */
  function Issued<W>(op: Operation<W>): seq<W> {
    if op == [] then []
    else op[0].writes + if op[0].ending.Succeeds? then Issued(op[1..]) else []
  }

  /** All of what every completed operation writes, nothing of any other. */
  function Effects<W>(ops: seq<Operation<W>>): seq<W> {
    if ops == [] then []
    else Effects(ops[..|ops| - 1]) + if Completes(ops[|ops| - 1]) then Issued(ops[|ops| - 1]) else []
  }

  /** What committing after every operation, failed or not, would leave. */
  function CommitAnyway<W>(ops: seq<Operation<W>>): seq<W> {
    if ops == [] then [] else CommitAnyway(ops[..|ops| - 1]) + Issued(ops[|ops| - 1])
  }

  lemma {:induction false} EffectsConcat<W>(a: seq<Operation<W>>, b: seq<Operation<W>>)
    ensures Effects(a + b) == Effects(a) + Effects(b)
  {
    if b == [] {
      assert a + b == a;
    } else {
      assert (a + b)[..|a + b| - 1] == a + b[..|b| - 1];
      EffectsConcat(a, b[..|b| - 1]);
    }
  }

  lemma {:induction false} EffectsSnoc<W>(ops: seq<Operation<W>>, op: Operation<W>)
    ensures Effects(ops + [op]) == Effects(ops) + if Completes(op) then Issued(op) else []
  {
    assert (ops + [op])[..|ops|] == ops;
  }

  predicate FailsSilently<W>(ops: seq<Operation<W>>) {
    forall i :: 0 <= i < |ops| && !Completes(ops[i]) ==> Issued(ops[i]) == []
  }

  lemma {:induction false} EffectsShorter<W>(ops: seq<Operation<W>>)
    ensures |Effects(ops)| <= |CommitAnyway(ops)|
    ensures |Effects(ops)| == |CommitAnyway(ops)| ==> FailsSilently(ops)
  {
    if ops != [] { EffectsShorter(ops[..|ops| - 1]); }
  }

  /** Committing after failures is right exactly when no failed operation had written anything. */
  lemma {:induction false} CommitAnywayIff<W>(ops: seq<Operation<W>>)
    ensures CommitAnyway(ops) == Effects(ops) <==> FailsSilently(ops)
  {
    EffectsShorter(ops);
    if ops != [] && FailsSilently(ops) { CommitAnywayIff(ops[..|ops| - 1]); }
  }

  predicate Commits<W(==)>(op: Operation<W>, w: W) {
    Completes(op) && w in Issued(op)
  }

  /** A row is committed only by an operation that completed. */
  lemma {:induction false} CommittedByCompleted<W>(ops: seq<Operation<W>>, w: W)
    ensures w in Effects(ops) <==> exists i :: 0 <= i < |ops| && Commits(ops[i], w)
  {
    hide Completes, Issued;
    if ops != [] {
      var front, last := ops[..|ops| - 1], ops[|ops| - 1];
      CommittedByCompleted(front, w);
      assert forall i :: 0 <= i < |front| ==> front[i] == ops[i];
      if i :| 0 <= i < |front| && Commits(front[i], w) { assert Commits(ops[i], w); }
      assert w in Effects(ops) <==> w in Effects(front) || Commits(last, w);
    }
  }

  // ---------- the session ----------

  /** A PostgreSQL session: what is committed, what the open transaction sees, the snapshot stack. */
  class Session<W> {
    var committed: seq<W>
    var working: seq<W>
    var inTransaction: bool
    var snapshots: nat

    constructor (rows: seq<W>)
      ensures Idle() && committed == rows
    {
      committed, working, inTransaction, snapshots := rows, rows, false, 0;
    }

    /** Between transactions: none open, no snapshot left on the stack. */
    predicate Idle()
      reads this
    {
      !inTransaction && snapshots == 0
    }

    method StartTransactionCommand()
      requires Idle()
      modifies this
      ensures inTransaction && snapshots == 0 && committed == old(committed) && working == committed
    {
      working, inTransaction := committed, true;
    }

    method PushActiveSnapshot()
      requires inTransaction
      modifies `snapshots
      ensures snapshots == old(snapshots) + 1
    {
      snapshots := snapshots + 1;
    }

    method PopActiveSnapshot()
      requires inTransaction && snapshots > 0
      modifies `snapshots
      ensures snapshots == old(snapshots) - 1
    {
      snapshots := snapshots - 1;
    }

    method CommitTransactionCommand()
      requires inTransaction && snapshots == 0
      modifies this
      ensures Idle() && committed == old(working)
    {
      committed, inTransaction := working, false;
    }

    /** Aborting drops the writes and whatever snapshots are active. */
    method AbortCurrentTransaction()
      requires inTransaction
      modifies this
      ensures Idle() && committed == old(committed)
    {
      working, inTransaction, snapshots := committed, false, 0;
    }

    /** Executes the queries of an operation until one does not succeed. */
    method Execute(op: Operation<W>) returns (ending: Ending)
      requires inTransaction
      modifies `working
      ensures working == old(working) + Issued(op)
      ensures ending.Succeeds? <==> Completes(op)
    {
      var i := 0;
      while i < |op|
        invariant 0 <= i <= |op|
        invariant forall j :: 0 <= j < i ==> op[j].ending.Succeeds?
        invariant working + Issued(op[i..]) == old(working) + Issued(op)
      {
        working := working + op[i].writes;
        assert op[i..][1..] == op[i + 1..];
        if !op[i].ending.Succeeds? {
          return op[i].ending;
        }
        i := i + 1;
      }
      return Succeeds;
    }

    /** One operation in its own transaction: all of it is committed if it completed, else nothing. */
    method RunOperation(op: Operation<W>)
      requires Idle()
      modifies this
      ensures Idle()
      ensures committed == old(committed) + if Completes(op) then Issued(op) else []
    {
      StartTransactionCommand();
      PushActiveSnapshot();
      var ending := Execute(op);
      if ending.Raises? {
        AbortCurrentTransaction();
        StartTransactionCommand();
        PushActiveSnapshot();
      }
      PopActiveSnapshot();
      if ending.Succeeds? {
        CommitTransactionCommand();
      } else {
        AbortCurrentTransaction();
      }
    }

    /** A loop over tables that ends the worker when an interrupt is pending at the check before a table. */
    method RunTables(ops: seq<Operation<W>>, interrupts: seq<bool>) returns (done: nat)
      requires Idle() && |interrupts| == |ops|
      modifies this
      ensures Idle() && done == Uninterrupted(interrupts)
      ensures committed == old(committed) + Effects(ops[..done])
    {
      done := 0;
      while done < |ops| && !interrupts[done]
        invariant done <= |ops| && Idle()
        invariant forall j :: 0 <= j < done ==> !interrupts[j]
        invariant committed == old(committed) + Effects(ops[..done])
      {
        assert ops[..done + 1][..done] == ops[..done];
        RunOperation(ops[done]);
        done := done + 1;
      }
      UninterruptedAt(interrupts, done);
    }

    /** A worker's round: in-process maintenance of every table, then of the catalog, then compaction likewise. */
    method MaintainDatabase(plan: Plan<W>, interrupts: seq<bool>) returns (finished: bool)
      requires Idle() && |plan.maintain| == |plan.compact| && |interrupts| == |Operations(plan)|
      modifies this
      ensures Idle()
      ensures committed == old(committed) + Effects(Operations(plan)[..Uninterrupted(interrupts)])
      ensures finished <==> true !in interrupts
    {
      hide Effects, Uninterrupted, Completes, Issued;
      finished := Phase(plan.maintain, plan.expire, interrupts[..|plan.maintain| + 1]);
      JoinPhases(plan, interrupts);
      if finished {
        finished := Phase(plan.compact, plan.cleanup, interrupts[|plan.maintain| + 1..]);
      }
    }

    method Phase(tables: seq<Operation<W>>, catalog: Operation<W>, interrupts: seq<bool>) returns (finished: bool)
      requires Idle() && |interrupts| == |tables| + 1
      modifies this
      ensures Idle()
      ensures committed == old(committed) + Effects((tables + [catalog])[..Uninterrupted(interrupts)])
      ensures finished <==> true !in interrupts
    {
      var n := |tables|;
      var done := RunTables(tables, interrupts[..n]);
      JoinCatalog(tables, catalog, interrupts);
      if done < n || interrupts[n] {
        return false;
      }
      RunOperation(catalog);
      return true;
    }
  }

  /** A worker's operations: for every table and for the catalog, in-process and then as compaction. */
  datatype Plan<W> = Plan(maintain: seq<Operation<W>>, expire: Operation<W>,
                          compact: seq<Operation<W>>, cleanup: Operation<W>)

  function Operations<W>(plan: Plan<W>): seq<Operation<W>> {
    plan.maintain + [plan.expire] + (plan.compact + [plan.cleanup])
  }

  /** The number of checks passed before the first one that finds an interrupt. */
  function Uninterrupted(interrupts: seq<bool>): (n: nat)
    ensures n <= |interrupts|
  {
    if interrupts == [] || interrupts[0] then 0 else 1 + Uninterrupted(interrupts[1..])
  }

  lemma {:induction false} UninterruptedAt(interrupts: seq<bool>, n: nat)
    requires n <= |interrupts| && (n < |interrupts| ==> interrupts[n])
    requires forall j :: 0 <= j < n ==> !interrupts[j]
    ensures Uninterrupted(interrupts) == n
  {
    if n > 0 { UninterruptedAt(interrupts[1..], n - 1); }
  }

  lemma {:induction false} UninterruptedConcat(a: seq<bool>, b: seq<bool>)
    ensures Uninterrupted(a + b) == if true in a then Uninterrupted(a) else |a| + Uninterrupted(b)
    ensures true in a ==> Uninterrupted(a) < |a|
    ensures true !in a ==> Uninterrupted(a) == |a|
  {
    if a == [] {
      assert a + b == b;
    } else {
      assert (a + b)[1..] == a[1..] + b;
      assert a == [a[0]] + a[1..];
      UninterruptedConcat(a[1..], b);
    }
  }

  lemma {:induction false} JoinCatalog<W>(tables: seq<Operation<W>>, catalog: Operation<W>, interrupts: seq<bool>)
    requires |interrupts| == |tables| + 1
    ensures var n := |tables|;
            var done := Uninterrupted(interrupts[..n]);
            && (done == n && !interrupts[n] <==> true !in interrupts)
            && Effects((tables + [catalog])[..Uninterrupted(interrupts)]) ==
               Effects(tables[..done]) + if true !in interrupts && Completes(catalog) then Issued(catalog) else []
  {
    hide Completes, Issued, Uninterrupted, Effects;
    var n := |tables|;
    var a, b := interrupts[..n], [interrupts[n]];
    assert interrupts == a + b;
    UninterruptedConcat(a, b);
    UninterruptedConcat(b, []);
    if true in interrupts {
      assert (tables + [catalog])[..Uninterrupted(interrupts)] == tables[..Uninterrupted(a)];
    } else {
      assert (tables + [catalog])[..n + 1] == tables + [catalog] && tables[..n] == tables;
      EffectsSnoc(tables, catalog);
    }
  }

  lemma JoinPhases<W>(plan: Plan<W>, interrupts: seq<bool>)
    requires |plan.maintain| == |plan.compact| && |interrupts| == |Operations(plan)|
    ensures var n := |plan.maintain| + 1;
            var a, b := interrupts[..n], interrupts[n..];
            && interrupts == a + b
            && Effects(Operations(plan)[..Uninterrupted(interrupts)]) ==
               if true in a then Effects((plan.maintain + [plan.expire])[..Uninterrupted(a)])
               else Effects((plan.maintain + [plan.expire])[..Uninterrupted(a)]) +
                    Effects((plan.compact + [plan.cleanup])[..Uninterrupted(b)])
  {
    hide Completes, Issued, Uninterrupted, Effects;
    var n := |plan.maintain| + 1;
    var a, b := interrupts[..n], interrupts[n..];
    assert interrupts == a + b;
    UninterruptedConcat(a, b);
    var first, second := plan.maintain + [plan.expire], plan.compact + [plan.cleanup];
    if true in a {
      assert (first + second)[..Uninterrupted(a)] == first[..Uninterrupted(a)];
    } else {
      assert (first + second)[..n + Uninterrupted(b)] == first[..n] + second[..Uninterrupted(b)];
      EffectsConcat(first[..n], second[..Uninterrupted(b)]);
    }
  }
}
