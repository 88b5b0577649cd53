/**
 What one transaction leaves to the next in pg_duckdb/src/pgduckdb_xact.cpp: the callback resets the
 expected command id and the forced override, but only when DuckDB is initialized at the end.
 */
module TransactionBlocks {
  import opened Basics
  import opened Transactions

  /** PostgreSQL starts a transaction: its counter is back at the first id. */
  function Begin(s: Session, inBlock: bool, mixedSetting: bool): Session {
    s.(commandId := FIRST_COMMAND_ID, inBlock := inBlock, mixedSetting := mixedSetting)
  }

  /** The statements that are executed: all of them, or those before the first one that is refused. */
  function Executed(s: Session, stmts: seq<Statement>): (r: seq<Statement>)
    ensures Run(s, r).Some? && r <= stmts
    ensures Run(s, stmts).Some? ==> r == stmts
  {
    if Run(s, stmts).Some? then stmts else Executed(s, stmts[..|stmts| - 1])
  }

  /**
   A DuckDB command that raises an error of its own: after it has claimed a command id, while writes are
   forced for its catalog changes, or both.
   */
  datatype Failure = Failure(claimed: bool, forcing: bool)

  function Fail(s: Session, f: Failure): Session {
    var t := if f.claimed && Claim(s, false).Some? then Claim(s, false).value else s;
    t.(forced := t.forced || f.forcing)
  }

  /** A transaction, with the error that ends it if there is one; `initialized` says whether DuckDB is at its end. */
  datatype Transaction = Transaction(
    inBlock: bool, mixedSetting: bool, stmts: seq<Statement>, failure: Option<Failure>, commit: bool, initialized: bool)

  /** The session when the transaction ends. */
  function Last(s: Session, x: Transaction): Session {
    var start := Begin(s, x.inBlock, x.mixedSetting);
    var t := Run(start, Executed(start, x.stmts)).value;
    if x.failure.Some? then Fail(t, x.failure.value) else t
  }

  /** A commit was asked for, no error prevented it, and the last check passes. */
  ghost predicate Committed(s: Session, x: Transaction) {
    x.commit && x.failure.None? && Commits(Begin(s, x.inBlock, x.mixedSetting), x.stmts)
  }

  ghost function After(s: Session, x: Transaction): Session {
    End(Last(s, x), Committed(s, x), x.initialized)
  }

  ghost function History(s: Session, xs: seq<Transaction>): Session {
    if xs == [] then s else After(History(s, xs[..|xs| - 1]), xs[|xs| - 1])
  }

  /** Nothing is left over from earlier transactions. */
  predicate Ready(s: Session) {
    s.nextExpected == FIRST_COMMAND_ID && !s.forced && !s.duckWrote
  }

  /** No statement claims a command id. */
  predicate Quiet(stmts: seq<Statement>) {
    forall i :: 0 <= i < |stmts| ==> !ClaimsFirst(stmts[i]) && !stmts[i].DropOwned? && !Modifies(stmts[i])
  }

  /** The transaction claims no command id and no error leaves writes forced. */
  predicate LeavesAlone(s: Session, x: Transaction) {
    var start := Begin(s, x.inBlock, x.mixedSetting);
    var stmts := Executed(start, x.stmts);
    && Quiet(stmts)
    && (x.failure.Some? ==>
          && !x.failure.value.forcing
          && !(x.failure.value.claimed && Claim(Run(start, stmts).value, false).Some?))
  }

  lemma ExecuteLeaves(t: Session, stmt: Statement)
    requires !t.duckWrote && Execute(t, stmt).Some?
    ensures var r := Execute(t, stmt).value;
            && r.forced == t.forced && r.duckWrote == Modifies(stmt)
            && (if ClaimsFirst(stmt) || stmt.DropOwned? || Modifies(stmt) then r.nextExpected > 0
                else r.nextExpected == t.nextExpected)
  {
    hide MixedWritesAllowed, DidDisallowedMixedWrites;
    match stmt
    case DuckDml(_) =>
    case DuckDdl(_, _) =>
    case _ =>
  }

  lemma ExecuteKeepsClaim(t: Session, stmt: Statement)
    requires t.nextExpected > 0 && Execute(t, stmt).Some?
    ensures Execute(t, stmt).value.nextExpected > 0
  {
    hide MixedWritesAllowed, DidDisallowedMixedWrites;
    match stmt
    case DuckDml(_) =>
    case DuckDdl(_, _) =>
    case _ =>
  }

  /** Statements that DuckDB did not write in leave the expected id at its start exactly when none of them claims. */
  lemma {:induction false} QuietIff(s: Session, stmts: seq<Statement>)
    requires s.nextExpected == FIRST_COMMAND_ID && !s.duckWrote && !DuckModified(stmts) && Run(s, stmts).Some?
    ensures var t := Run(s, stmts).value;
            t.forced == s.forced && !t.duckWrote && (t.nextExpected == FIRST_COMMAND_ID <==> Quiet(stmts))
  {
    if stmts != [] {
      hide Execute;
      var front, last := stmts[..|stmts| - 1], stmts[|stmts| - 1];
      DuckModifiedStep(stmts);
      QuietIff(s, front);
      var t := Run(s, front).value;
      ExecuteLeaves(t, last);
      if t.nextExpected > 0 { ExecuteKeepsClaim(t, last); }
      assert forall i :: 0 <= i < |front| ==> front[i] == stmts[i];
      assert Quiet(stmts) <==> Quiet(front) && !ClaimsFirst(last) && !last.DropOwned? && !Modifies(last);
    }
  }

  lemma PrefixNotModified(r: seq<Statement>, stmts: seq<Statement>)
    requires r <= stmts && !DuckModified(stmts)
    ensures !DuckModified(r)
  {
    assert forall i :: 0 <= i < |r| ==> r[i] == stmts[i];
  }

  /**
   Every transaction, however it ends, leaves nothing to the next one if and only if DuckDB is
   initialized at its end or it claimed no command id and left no writes forced.
   */
  lemma ReadyAgainIff(s: Session, x: Transaction)
    requires Ready(s) && (DuckModified(x.stmts) ==> x.initialized)
    ensures Ready(After(s, x)) <==> x.initialized || LeavesAlone(s, x)
  {
    if !x.initialized {
      hide Execute, DuckModified, Quiet;
      var start := Begin(s, x.inBlock, x.mixedSetting);
      PrefixNotModified(Executed(start, x.stmts), x.stmts);
      QuietIff(start, Executed(start, x.stmts));
    }
  }

  /** The block may commit, judged by its own statements. */
  ghost predicate MayCommit(stmts: seq<Statement>) {
    !SomeRefused(stmts) && !(SeenWrites(stmts) > 0 && DuckModified(stmts))
  }

  /** Every block that comes next commits by its own statements. */
  ghost predicate NextByItself(s: Session) {
    forall stmts :: Commits(Begin(s, true, false), stmts) <==> MayCommit(stmts)
  }

  lemma OneInsertMayCommit()
    ensures MayCommit([DuckDml(true)])
  {
    var stmts := [DuckDml(true)];
    assert stmts[..0] == [];
    assert SeenWrites([]) == 0;
  }

  lemma WriteThenInsertMixes()
    ensures !MayCommit([PostgresWrite, DuckDml(true)])
  {
    var stmts := [PostgresWrite, DuckDml(true)];
    assert stmts[..1] == [PostgresWrite] && [PostgresWrite][..0] == [];
    assert SeenWrites([PostgresWrite]) == 1;
    assert Refused(stmts[..1], stmts[1]);
  }

  /** The next block is judged by its own statements, whatever they are, if and only if nothing is left over. */
  lemma NextByItselfIff(s: Session)
    requires !s.duckWrote
    ensures NextByItself(s) <==> Ready(s)
  {
    var start := Begin(s, true, false);
    if Ready(s) {
      forall stmts ensures Commits(start, stmts) <==> MayCommit(stmts) { CommitsIff(start, stmts); }
    } else if s.forced {
      NoFalseAlarm(start, [PostgresWrite, DuckDml(true)]);
      WriteThenInsertMixes();
    } else {
      OneInsertMayCommit();
      assert Run(start, [DuckDml(true)][..0]) == Some(start);
      assert Run(start, [DuckDml(true)]) == None;
    }
  }

  /** No transaction up to the end leaves anything to the next one. */
  ghost predicate AllReset(s: Session, xs: seq<Transaction>) {
    forall i :: 0 <= i < |xs| ==>
      && (DuckModified(xs[i].stmts) ==> xs[i].initialized)
      && (xs[i].initialized || LeavesAlone(History(s, xs[..i]), xs[i]))
  }

  lemma {:induction false} StaysReady(s: Session, xs: seq<Transaction>)
    requires Ready(s) && AllReset(s, xs)
    ensures Ready(History(s, xs))
  {
    if xs != [] {
      hide LeavesAlone, Ready;
      var front, x := xs[..|xs| - 1], xs[|xs| - 1];
      assert forall i :: 0 <= i < |front| ==> front[i] == xs[i] && front[..i] == xs[..i];
      assert xs[..|xs| - 1] == front;
      StaysReady(s, front);
      ReadyAgainIff(History(s, front), x);
    }
  }

  /**
   Over any sequence of transactions, in blocks or not, with or without the setting, ended by commit,
   rollback or an error, every block without the setting commits exactly when it is asked to, no command
   of it fails, and its own statements do not mix, whatever came before.
   */
  lemma {:induction false} BlocksIndependent(s: Session, xs: seq<Transaction>, i: nat)
    requires Ready(s) && AllReset(s, xs) && i < |xs| && xs[i].inBlock && !xs[i].mixedSetting
    ensures Committed(History(s, xs[..i]), xs[i]) <==> xs[i].commit && xs[i].failure.None? && MayCommit(xs[i].stmts)
  {
    hide LeavesAlone;
    var front := xs[..i];
    assert forall j :: 0 <= j < |front| ==> front[j] == xs[j] && front[..j] == xs[..j];
    StaysReady(s, front);
    NextByItselfIff(History(s, front));
  }

  /**
   A DuckDB command that fails after its claim, before DuckDB is initialized: a next block with a single
   DuckDB write is refused as if it mixed.
   */
  lemma LeftClaimRefuses(s: Session, inBlock: bool, commit: bool)
    requires Ready(s)
    ensures var x := Transaction(inBlock, false, [], Some(Failure(true, false)), commit, false);
            MayCommit([DuckDml(true)]) && !Commits(Begin(After(s, x), true, false), [DuckDml(true)])
  {
    var x := Transaction(inBlock, false, [], Some(Failure(true, false)), commit, false);
    OneInsertMayCommit();
    var start := Begin(After(s, x), true, false);
    assert Run(start, [DuckDml(true)][..0]) == Some(start);
    assert Run(start, [DuckDml(true)]) == None;
  }
}
