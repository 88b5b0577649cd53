/**
 Transaction state of pg_duckdb/src/pgduckdb_xact.cpp, and the hooks of pg_duckdb/src/pgduckdb_hooks.cpp
 that drive it: the command-id claims that detect a transaction block writing to both engines, and the
 set of temporary DuckDB tables that follows commit and abort.
 */
module Transactions {
  import opened Basics

  const FIRST_COMMAND_ID: nat := 0

  /**
   The backend's view of the current transaction.  `commandId` is PostgreSQL's counter, `duckWrote`
   says whether DuckDB's transaction has modified a database.
   */
  datatype Session = Session(
    commandId: nat,
    nextExpected: nat,
    duckWrote: bool,
    inBlock: bool,
    mixedSetting: bool,         // mixed writes allowed by a setting, or while syncing the catalog
    forced: bool,               // force_allow_writes, for the rest of the transaction at most
    tempTables: set<nat>,
    tempTablesOld: set<nat>,
    tempModified: bool)

  // ---------- the checks and the claim ----------

  predicate MixedWritesAllowed(s: Session) {
    !s.inBlock || s.mixedSetting || s.forced
  }

  predicate PostgresDidWrites(s: Session) {
    s.commandId > s.nextExpected
  }

  predicate DidDisallowedMixedWrites(s: Session) {
    !MixedWritesAllowed(s) && PostgresDidWrites(s) && s.duckWrote
  }

  /** Takes the current command id for a DuckDB write; `None` when PostgreSQL has written in between. */
  function Claim(s: Session, force: bool): Option<Session> {
    if s.commandId != s.nextExpected && !MixedWritesAllowed(s) && !force then None
    else Some(s.(commandId := s.commandId + 1, nextExpected := s.commandId + 1))
  }

  /** A statement, as the planner, executor and utility hooks see it. */
  datatype Statement =
    | PostgresRead
    | PostgresWrite                            // a planned INSERT, UPDATE or DELETE on a PostgreSQL table
    | PostgresUtility(changes: nat)            // a command without a plan, with that many catalog changes
    | DuckDml(writes: bool)                    // INSERT, UPDATE or DELETE on a DuckDB table
    | DuckSelect(writes: bool)                 // a DuckDB query, which a function in it may turn into a write
    | DuckDdl(changes: nat, writes: bool)      // CREATE, ALTER, RENAME or DROP of a DuckDB table or view
    | DropOwned(changes: nat, writes: bool)    // DROP OWNED that reaches DuckDB tables

  /** The hook at the end of a DuckDB plan: once DuckDB has written, every plan claims. */
  function Finish(s: Session): Option<Session> {
    if s.duckWrote then Claim(s, false) else Some(s)
  }

  /** The changes that PostgreSQL makes for a DuckDB command, and the forced claim that takes them over. */
  function TakeOver(s: Session, changes: nat, writes: bool): Session {
    var claimed := Claim(s.(commandId := s.commandId + changes), true).value;
    claimed.(duckWrote := claimed.duckWrote || writes)
  }

  /**
   One statement, or `None` when a check raises an error.  A DuckDB command on tables or views claims
   before PostgreSQL executes it.  DROP OWNED reaches the drop trigger without such a claim.
   */
  function Execute(s: Session, stmt: Statement): Option<Session> {
    match stmt
    case PostgresRead => Some(s)
    case PostgresWrite =>
      if !MixedWritesAllowed(s) && s.duckWrote then None else Some(s.(commandId := s.commandId + 1))
    case PostgresUtility(changes) => Some(s.(commandId := s.commandId + changes))
    case DuckDml(m) =>
      if DidDisallowedMixedWrites(s) then None
      else
        var started := Claim(s, false);
        if started.None? then None else Finish(started.value.(duckWrote := started.value.duckWrote || m))
    case DuckSelect(m) => Finish(s.(duckWrote := s.duckWrote || m))
    case DuckDdl(changes, m) =>
      var started := Claim(s, false);
      if started.None? then None else Some(TakeOver(started.value, changes, m))
    case DropOwned(changes, m) => Some(TakeOver(s, changes, m))
  }

  function Run(s: Session, stmts: seq<Statement>): Option<Session> {
    if stmts == [] then Some(s)
    else
      var before := Run(s, stmts[..|stmts| - 1]);
      if before.None? then None else Execute(before.value, stmts[|stmts| - 1])
  }

  /** The commit callback: the last check, then everything is reset for the next transaction. */
  function PreCommit(s: Session): Option<Session> {
    if DidDisallowedMixedWrites(s) then None
    else Some(s.(nextExpected := FIRST_COMMAND_ID, forced := false, duckWrote := false,
                 tempTablesOld := if s.tempModified then {} else s.tempTablesOld, tempModified := false))
  }

  function Abort(s: Session): Session {
    s.(nextExpected := FIRST_COMMAND_ID, forced := false, duckWrote := false,
       tempTables := if s.tempModified then s.tempTablesOld else s.tempTables,
       tempTablesOld := if s.tempModified then {} else s.tempTablesOld, tempModified := false)
  }

  /** The end of a transaction; a refused commit aborts.  The callback does nothing unless DuckDB is initialized. */
  function End(s: Session, commit: bool, initialized: bool): Session {
    if !initialized then s
    else if commit && PreCommit(s).Some? then PreCommit(s).value
    else Abort(s)
  }

  /** The start of a transaction block. */
  predicate Started(s: Session) {
    && s.commandId == s.nextExpected == FIRST_COMMAND_ID && !s.duckWrote
    && s.inBlock && !s.mixedSetting && !s.forced
  }

  // ---------- what the statements of a transaction add up to ----------

  /** The PostgreSQL writes of a statement that are not part of a DuckDB command. */
  function OutsideWrites(stmt: Statement): nat {
    if stmt.PostgresWrite? then 1 else if stmt.PostgresUtility? then stmt.changes else 0
  }

  function PostgresWrites(stmts: seq<Statement>): nat {
    if stmts == [] then 0 else PostgresWrites(stmts[..|stmts| - 1]) + OutsideWrites(stmts[|stmts| - 1])
  }

  /** Those of them that no DROP OWNED came after. */
  function SeenWrites(stmts: seq<Statement>): nat {
    if stmts == [] || stmts[|stmts| - 1].DropOwned? then 0
    else SeenWrites(stmts[..|stmts| - 1]) + OutsideWrites(stmts[|stmts| - 1])
  }

  predicate DuckModified(stmts: seq<Statement>) {
    exists i :: 0 <= i < |stmts| && Modifies(stmts[i])
  }

  predicate Modifies(stmt: Statement) {
    (stmt.DuckDml? || stmt.DuckSelect? || stmt.DuckDdl? || stmt.DropOwned?) && stmt.writes
  }

  /** The statement claims a command id before it does anything. */
  predicate ClaimsFirst(stmt: Statement) {
    stmt.DuckDml? || stmt.DuckDdl?
  }

  /** The command ids that a statement claims or takes over; `wrote` says whether DuckDB has written by its end. */
  function ClaimedBy(stmt: Statement, wrote: bool): nat {
    var finish := if wrote then 1 else 0;
    match stmt
    case DuckDml(_) => 1 + finish
    case DuckSelect(_) => finish
    case DuckDdl(changes, _) => changes + 2
    case DropOwned(changes, _) => changes + 1
    case _ => 0
  }

  function Claims(stmts: seq<Statement>): nat {
    if stmts == [] then 0
    else Claims(stmts[..|stmts| - 1]) + ClaimedBy(stmts[|stmts| - 1], DuckModified(stmts))
  }

  /** PostgreSQL has written outside DuckDB commands, and DuckDB has too or was asked to afterwards. */
  ghost predicate Mixes(stmts: seq<Statement>) {
    || (PostgresWrites(stmts) > 0 && DuckModified(stmts))
    || exists i, j :: 0 <= i < j < |stmts| && OutsideWrites(stmts[i]) > 0 && ClaimsFirst(stmts[j])
  }

  /** A DROP OWNED comes after a PostgreSQL write. */
  ghost predicate HidesWrite(stmts: seq<Statement>) {
    exists i, j :: 0 <= i < j < |stmts| && OutsideWrites(stmts[i]) > 0 && stmts[j].DropOwned?
  }

  // ---------- the protocol ----------

  lemma DuckModifiedStep(stmts: seq<Statement>)
    requires stmts != []
    ensures DuckModified(stmts) <==> DuckModified(stmts[..|stmts| - 1]) || Modifies(stmts[|stmts| - 1])
  {
    var front := stmts[..|stmts| - 1];
    if i :| 0 <= i < |front| && Modifies(front[i]) { assert Modifies(stmts[i]); }
    if i :| 0 <= i < |stmts| && Modifies(stmts[i]) {
      if i < |front| { assert Modifies(front[i]); }
    }
  }

  lemma {:induction false} PostgresWritesIff(stmts: seq<Statement>)
    ensures PostgresWrites(stmts) > 0 <==> exists i :: 0 <= i < |stmts| && OutsideWrites(stmts[i]) > 0
  {
    if stmts != [] {
      var front := stmts[..|stmts| - 1];
      PostgresWritesIff(front);
      assert forall i :: 0 <= i < |front| ==> front[i] == stmts[i];
    }
  }

  lemma MixesStep(stmts: seq<Statement>)
    requires stmts != []
    ensures var front, last := stmts[..|stmts| - 1], stmts[|stmts| - 1];
            Mixes(stmts) <==>
              || Mixes(front)
              || (OutsideWrites(last) > 0 && DuckModified(front))
              || (PostgresWrites(front) > 0 && (ClaimsFirst(last) || Modifies(last)))
  {
    hide OutsideWrites, Modifies, DuckModified;
    var front, last := stmts[..|stmts| - 1], stmts[|stmts| - 1];
    DuckModifiedStep(stmts);
    PostgresWritesIff(front);
    OutsideNeverModifies(last);
    assert forall i :: 0 <= i < |front| ==> front[i] == stmts[i];
    if i, j :| 0 <= i < j < |stmts| && OutsideWrites(stmts[i]) > 0 && ClaimsFirst(stmts[j]) {
      assert OutsideWrites(front[i]) > 0;
      if j < |front| { assert ClaimsFirst(front[j]); }
    }
    if i, j :| 0 <= i < j < |front| && OutsideWrites(front[i]) > 0 && ClaimsFirst(front[j]) {
      assert OutsideWrites(stmts[i]) > 0 && ClaimsFirst(stmts[j]);
    }
  }

  lemma OutsideNeverModifies(stmt: Statement)
    ensures !(OutsideWrites(stmt) > 0 && Modifies(stmt))
  {
  }

  /** A write is either still seen at the end or came before a DROP OWNED. */
  lemma {:induction false} SeenOrHidden(stmts: seq<Statement>)
    ensures SeenWrites(stmts) <= PostgresWrites(stmts)
    ensures SeenWrites(stmts) == PostgresWrites(stmts) <==> !HidesWrite(stmts)
  {
    if stmts != [] {
      var front, last := stmts[..|stmts| - 1], stmts[|stmts| - 1];
      SeenOrHidden(front);
      PostgresWritesIff(front);
      assert forall i :: 0 <= i < |front| ==> front[i] == stmts[i];
      assert HidesWrite(stmts) <==> HidesWrite(front) || (last.DropOwned? && PostgresWrites(front) > 0) by {
        if i, j :| 0 <= i < j < |stmts| && OutsideWrites(stmts[i]) > 0 && stmts[j].DropOwned? {
          assert OutsideWrites(front[i]) > 0;
          if j < |front| { assert front[j].DropOwned?; }
        }
      }
    }
  }

  ghost predicate Counts(s: Session, stmts: seq<Statement>, t: Session) {
    && t.commandId == Claims(stmts) + PostgresWrites(stmts)
    && t.commandId == t.nextExpected + SeenWrites(stmts)
    && t.duckWrote == DuckModified(stmts)
    && t.inBlock && !t.mixedSetting && !t.forced
    && t.tempTables == s.tempTables && t.tempTablesOld == s.tempTablesOld && t.tempModified == s.tempModified
  }

  /** The statement that comes next is refused. */
  ghost predicate Refused(front: seq<Statement>, last: Statement) {
    if last.PostgresWrite? then DuckModified(front)
    else SeenWrites(front) > 0 && (ClaimsFirst(last) || (last.DuckSelect? && (DuckModified(front) || last.writes)))
  }

  lemma RefusedIff(s: Session, front: seq<Statement>, last: Statement, t: Session)
    requires Counts(s, front, t)
    ensures Execute(t, last).None? <==> Refused(front, last)
  {
    hide DuckModified, Claims, PostgresWrites, SeenWrites;
  }

  /** What an accepted statement does to the counters, when nothing overrides the checks. */
  lemma ExecuteCounts(t: Session, last: Statement)
    requires !MixedWritesAllowed(t) && t.nextExpected <= t.commandId && Execute(t, last).Some?
    ensures var r := Execute(t, last).value;
            && r.duckWrote == (t.duckWrote || Modifies(last))
            && r.commandId == t.commandId + ClaimedBy(last, r.duckWrote) + OutsideWrites(last)
            && r.commandId - r.nextExpected ==
               (if last.DropOwned? then 0 else t.commandId - t.nextExpected + OutsideWrites(last))
            && r == t.(commandId := r.commandId, nextExpected := r.nextExpected, duckWrote := r.duckWrote)
  {
    if last.DuckDml? {
      assert Claim(t, false).Some?;
    } else if last.DuckDdl? {
      assert Claim(t, false).Some?;
    }
  }

  lemma CountsStep(s: Session, stmts: seq<Statement>, t: Session)
    requires stmts != [] && Counts(s, stmts[..|stmts| - 1], t)
    requires Execute(t, stmts[|stmts| - 1]).Some?
    ensures Counts(s, stmts, Execute(t, stmts[|stmts| - 1]).value)
  {
    hide DuckModified, Execute, ClaimedBy, OutsideWrites;
    DuckModifiedStep(stmts);
    ExecuteCounts(t, stmts[|stmts| - 1]);
  }

  /** A refused statement mixes. */
  lemma RefusedMixes(stmts: seq<Statement>)
    requires stmts != [] && Refused(stmts[..|stmts| - 1], stmts[|stmts| - 1])
    ensures Mixes(stmts)
  {
    hide DuckModified, Mixes;
    DuckModifiedStep(stmts);
    MixesStep(stmts);
    SeenOrHidden(stmts[..|stmts| - 1]);
    if PostgresWrites(stmts[..|stmts| - 1]) > 0 && DuckModified(stmts[..|stmts| - 1]) { BothMix(stmts[..|stmts| - 1]); }
  }

  lemma {:induction false} BothMix(stmts: seq<Statement>)
    requires PostgresWrites(stmts) > 0 && DuckModified(stmts)
    ensures Mixes(stmts)
  {
  }

  /** As long as nothing is refused or hidden, a block mixes exactly when both engines have written. */
  lemma AcceptedMixes(stmts: seq<Statement>)
    requires stmts != [] && SeenWrites(stmts) == PostgresWrites(stmts)
    requires !Refused(stmts[..|stmts| - 1], stmts[|stmts| - 1])
    requires var front := stmts[..|stmts| - 1];
             SeenWrites(front) == PostgresWrites(front) ==>
               (Mixes(front) <==> PostgresWrites(front) > 0 && DuckModified(front))
    ensures Mixes(stmts) <==> PostgresWrites(stmts) > 0 && DuckModified(stmts)
  {
    hide DuckModified, Mixes;
    var front := stmts[..|stmts| - 1];
    DuckModifiedStep(stmts);
    MixesStep(stmts);
    SeenOrHidden(front);
  }

  /**
   In a transaction block without overrides the counter is the claims plus the PostgreSQL writes, and
   the expected id lags behind it by the writes that are still seen; a run that is refused mixes.
   */
  lemma {:induction false} CounterInvariant(s: Session, stmts: seq<Statement>)
    requires Started(s)
    ensures Run(s, stmts).None? ==> Mixes(stmts)
    ensures Run(s, stmts).Some? ==> Counts(s, stmts, Run(s, stmts).value)
    ensures Run(s, stmts).Some? && SeenWrites(stmts) == PostgresWrites(stmts) ==>
              (Mixes(stmts) <==> PostgresWrites(stmts) > 0 && DuckModified(stmts))
  {
    if stmts != [] {
      hide Mixes, Counts, Execute, DuckModified;
      var front, last := stmts[..|stmts| - 1], stmts[|stmts| - 1];
      CounterInvariant(s, front);
      if Run(s, front).None? {
        MixesStep(stmts);
      } else {
        RefusedIff(s, front, last, Run(s, front).value);
        if Refused(front, last) {
          RefusedMixes(stmts);
        } else {
          CountsStep(s, stmts, Run(s, front).value);
        }
        if !Refused(front, last) && SeenWrites(stmts) == PostgresWrites(stmts) {
          AcceptedMixes(stmts);
        }
      }
    }
  }

  ghost predicate Commits(s: Session, stmts: seq<Statement>) {
    Run(s, stmts).Some? && PreCommit(Run(s, stmts).value).Some?
  }

  /** Some statement of the block is refused. */
  ghost predicate SomeRefused(stmts: seq<Statement>) {
    exists j :: 0 <= j < |stmts| && Refused(stmts[..j], stmts[j])
  }

  lemma SomeRefusedStep(stmts: seq<Statement>)
    requires stmts != []
    ensures SomeRefused(stmts) <==>
              SomeRefused(stmts[..|stmts| - 1]) || Refused(stmts[..|stmts| - 1], stmts[|stmts| - 1])
  {
    hide Refused;
    var front := stmts[..|stmts| - 1];
    assert forall j :: 0 <= j < |front| ==> front[..j] == stmts[..j] && front[j] == stmts[j];
    if j :| 0 <= j < |front| && Refused(front[..j], front[j]) { assert Refused(stmts[..j], stmts[j]); }
  }

  /** A write is still seen if and only if no DROP OWNED came after it. */
  lemma {:induction false} SeenIff(stmts: seq<Statement>)
    ensures SeenWrites(stmts) > 0 <==>
              exists i :: 0 <= i < |stmts| && OutsideWrites(stmts[i]) > 0 && NoDropOwnedAfter(stmts, i)
  {
    if stmts != [] {
      var front, last := stmts[..|stmts| - 1], stmts[|stmts| - 1];
      SeenIff(front);
      assert forall i :: 0 <= i < |front| ==> front[i] == stmts[i];
      assert forall i :: 0 <= i < |front| ==>
               (NoDropOwnedAfter(stmts, i) <==> NoDropOwnedAfter(front, i) && !last.DropOwned?);
      assert NoDropOwnedAfter(stmts, |front|);
    }
  }

  predicate NoDropOwnedAfter(stmts: seq<Statement>, i: nat) {
    forall j :: i < j < |stmts| ==> !stmts[j].DropOwned?
  }

  /** A transaction block runs to its end if and only if no statement is refused. */
  lemma {:induction false} RunsIff(s: Session, stmts: seq<Statement>)
    requires Started(s)
    ensures Run(s, stmts).None? <==> SomeRefused(stmts)
  {
    if stmts != [] {
      hide Refused, Execute, Counts;
      var front, last := stmts[..|stmts| - 1], stmts[|stmts| - 1];
      RunsIff(s, front);
      SomeRefusedStep(stmts);
      CounterInvariant(s, front);
      if Run(s, front).Some? { RefusedIff(s, front, last, Run(s, front).value); }
    }
  }

  /**
   Every transaction block commits if and only if no statement of it is refused and it does not end with
   a PostgreSQL write that is still seen next to a DuckDB write.
   */
  lemma {:induction false} CommitsIff(s: Session, stmts: seq<Statement>)
    requires Started(s)
    ensures Commits(s, stmts) <==> !SomeRefused(stmts) && !(SeenWrites(stmts) > 0 && DuckModified(stmts))
  {
    RunsIff(s, stmts);
    CounterInvariant(s, stmts);
  }

  /** When no DROP OWNED follows a PostgreSQL write, a block commits if and only if it does not mix. */
  lemma {:induction false} CommitsUnlessMixes(s: Session, stmts: seq<Statement>)
    requires Started(s) && !HidesWrite(stmts)
    ensures Commits(s, stmts) <==> !Mixes(stmts)
    ensures Commits(s, stmts) ==> !(PostgresWrites(stmts) > 0 && DuckModified(stmts))
  {
    CommitsIff(s, stmts);
    RunsIff(s, stmts);
    CounterInvariant(s, stmts);
    SeenOrHidden(stmts);
  }

  /**
   A block commits with writes in both engines if and only if DuckDB wrote, a DROP OWNED came after every
   PostgreSQL write of which there is at least one, and no statement was refused on the way.
   */
  lemma {:induction false} UndetectedIff(s: Session, stmts: seq<Statement>)
    requires Started(s)
    ensures Commits(s, stmts) && PostgresWrites(stmts) > 0 && DuckModified(stmts) <==>
              HidesWrite(stmts) && SeenWrites(stmts) == 0 && DuckModified(stmts) && !SomeRefused(stmts)
  {
    CommitsIff(s, stmts);
    SeenOrHidden(stmts);
    PostgresWritesIff(stmts);
  }

  /** The shortest such block: a PostgreSQL write, then a DROP OWNED of a DuckDB table. */
  lemma DropOwnedHidesWrite(s: Session, changes: nat)
    requires Started(s)
    ensures var stmts := [PostgresWrite, DropOwned(changes, true)];
            Commits(s, stmts) && PostgresWrites(stmts) > 0 && DuckModified(stmts)
  {
    var stmts := [PostgresWrite, DropOwned(changes, true)];
    assert stmts[..1] == [PostgresWrite] && [PostgresWrite][..0] == [];
    assert Run(s, []) == Some(s) && Run(s, [PostgresWrite]) == Execute(s, PostgresWrite);
    assert PostgresWrites([PostgresWrite]) == 1;
    assert Modifies(stmts[1]);
  }

  predicate SameOverrides(s: Session, t: Session) {
    t.inBlock == s.inBlock && t.mixedSetting == s.mixedSetting && t.forced == s.forced
  }

  /** Outside a block, or with an override, no statement and no commit is ever refused. */
  lemma {:induction false} NoFalseAlarm(s: Session, stmts: seq<Statement>)
    requires !s.inBlock || s.mixedSetting || s.forced
    ensures Commits(s, stmts)
    ensures SameOverrides(s, Run(s, stmts).value)
  {
    if stmts != [] {
      NoFalseAlarm(s, stmts[..|stmts| - 1]);
      NeverRefused(Run(s, stmts[..|stmts| - 1]).value, stmts[|stmts| - 1]);
    }
  }

  lemma NeverRefused(s: Session, stmt: Statement)
    requires !s.inBlock || s.mixedSetting || s.forced
    ensures Execute(s, stmt).Some?
    ensures SameOverrides(s, Execute(s, stmt).value)
  {
    match stmt
    case DuckDml(_) =>
    case DuckDdl(_, _) =>
    case _ =>
  }

  // ---------- temporary tables ----------

  datatype TempOp = Register(relid: nat) | Unregister(relid: nat)

  function ApplyTo(tables: set<nat>, op: TempOp): set<nat> {
    match op
    case Register(r) => tables + {r}
    case Unregister(r) => tables - {r}
  }

  /** What a sequence of registrations should make of a set. */
  function ApplyAll(tables: set<nat>, ops: seq<TempOp>): set<nat> {
    if ops == [] then tables else ApplyTo(ApplyAll(tables, ops[..|ops| - 1]), ops[|ops| - 1])
  }

  /** The old set is saved at the first change of a transaction only. */
  function TempStep(s: Session, op: TempOp): Session {
    s.(tempTablesOld := if s.tempModified then s.tempTablesOld else s.tempTables,
       tempModified := true,
       tempTables := ApplyTo(s.tempTables, op))
  }

  function TempRun(s: Session, ops: seq<TempOp>): Session {
    if ops == [] then s else TempStep(TempRun(s, ops[..|ops| - 1]), ops[|ops| - 1])
  }

  /** A transaction: its changes to the set, whether it commits, and whether DuckDB was initialized at its end. */
  datatype TempTransaction = TempTransaction(ops: seq<TempOp>, commit: bool, initialized: bool)

  function TempHistory(s: Session, txns: seq<TempTransaction>): Session {
    if txns == [] then s
    else
      var t := txns[|txns| - 1];
      End(TempRun(TempHistory(s, txns[..|txns| - 1]), t.ops), t.commit, t.initialized)
  }

  /** What the history should leave: the changes of the committed transactions. */
  function CommittedSet(tables: set<nat>, txns: seq<TempTransaction>): set<nat> {
    if txns == [] then tables
    else
      var before := CommittedSet(tables, txns[..|txns| - 1]);
      var t := txns[|txns| - 1];
      if t.commit then ApplyAll(before, t.ops) else before
  }

  /** Within a transaction the saved set, once there is one, is the set at its start. */
  lemma {:induction false} SavedAtStart(s: Session, ops: seq<TempOp>)
    requires !s.tempModified
    ensures var t := TempRun(s, ops);
            && t.tempTables == ApplyAll(s.tempTables, ops)
            && t.tempModified == (ops != [])
            && t.tempTablesOld == (if ops == [] then s.tempTablesOld else s.tempTables)
            && t == s.(tempTables := t.tempTables, tempTablesOld := t.tempTablesOld, tempModified := t.tempModified)
  {
    if ops != [] { SavedAtStart(s, ops[..|ops| - 1]); }
  }

  /** Commit keeps the changes and abort takes them all back, over any sequence of transactions. */
  lemma {:induction false} TempTablesTransactional(s: Session, txns: seq<TempTransaction>)
    requires !s.tempModified && !DidDisallowedMixedWrites(s)
    requires forall i :: 0 <= i < |txns| ==> txns[i].initialized || txns[i].ops == []
    ensures TempHistory(s, txns).tempTables == CommittedSet(s.tempTables, txns)
    ensures !TempHistory(s, txns).tempModified && !DidDisallowedMixedWrites(TempHistory(s, txns))
  {
    if txns != [] {
      var front, t := txns[..|txns| - 1], txns[|txns| - 1];
      TempTablesTransactional(s, front);
      SavedAtStart(TempHistory(s, front), t.ops);
    }
  }

  /** A single abort restores the set if and only if DuckDB is initialized or nothing changed in the end. */
  lemma {:induction false} AbortRestoresIff(s: Session, ops: seq<TempOp>, initialized: bool)
    requires !s.tempModified
    ensures End(TempRun(s, ops), false, initialized).tempTables == s.tempTables
            <==> initialized || ApplyAll(s.tempTables, ops) == s.tempTables
  {
    SavedAtStart(s, ops);
  }

  /** The history of one transaction, and of one that comes right after it. */
  lemma {:induction false} TwoTransactions(s: Session, first: TempTransaction, second: TempTransaction)
    ensures TempHistory(s, [first]) == End(TempRun(s, first.ops), first.commit, first.initialized)
    ensures TempHistory(s, [first, second]) ==
              End(TempRun(TempHistory(s, [first]), second.ops), second.commit, second.initialized)
  {
    assert [first, second][..1] == [first] && [first][..0] == [];
    assert TempHistory(s, []) == s;
  }

  /**
   What a transaction commits survives the abort of a next one that changes nothing if and only if
   DuckDB is initialized when it commits or nothing changed in the end.
   */
  lemma {:induction false} CommitSurvivesIff(s: Session, ops: seq<TempOp>, initialized: bool)
    requires !s.tempModified && !DidDisallowedMixedWrites(s)
    ensures var txns := [TempTransaction(ops, true, initialized), TempTransaction([], false, true)];
            TempHistory(s, txns).tempTables == ApplyAll(s.tempTables, ops)
            <==> initialized || ApplyAll(s.tempTables, ops) == s.tempTables
  {
    SavedAtStart(s, ops);
    TwoTransactions(s, TempTransaction(ops, true, initialized), TempTransaction([], false, true));
  }

  // ---------- the static variables ----------

  class XactState {
    var commandId: nat
    var nextExpected: nat
    var duckWrote: bool
    var inBlock: bool
    var mixedSetting: bool
    var forced: bool
    var tempTables: set<nat>
    var tempTablesOld: set<nat>
    var tempModified: bool

    ghost function View(): Session
      reads this
    {
      Session(commandId, nextExpected, duckWrote, inBlock, mixedSetting, forced,
              tempTables, tempTablesOld, tempModified)
    }

    constructor ()
      ensures View() == Session(FIRST_COMMAND_ID, FIRST_COMMAND_ID, false, false, false, false, {}, {}, false)
    {
      commandId, nextExpected := FIRST_COMMAND_ID, FIRST_COMMAND_ID;
      duckWrote, inBlock, mixedSetting, forced := false, false, false, false;
      tempTables, tempTablesOld, tempModified := {}, {}, false;
    }

    /** Claims the current command id; raises an error and changes nothing when PostgreSQL wrote in between. */
    method ClaimCurrentCommandId(force: bool) returns (ok: bool)
      modifies this`commandId, this`nextExpected
      ensures ok <==> Claim(old(View()), force).Some?
      ensures View() == if ok then Claim(old(View()), force).value else old(View())
    {
      var mixedAllowed := !inBlock || mixedSetting || forced;
      if commandId != nextExpected && !mixedAllowed && !force {
        return false;
      }
      commandId := commandId + 1;
      nextExpected := commandId;
      return true;
    }

    /** The executor hooks around a DuckDB plan; `dml` plans claim before they run. */
    method RunDuckPlan(dml: bool, writes: bool) returns (ok: bool)
      modifies this`commandId, this`nextExpected, this`duckWrote
      ensures var stmt := if dml then DuckDml(writes) else DuckSelect(writes);
              (ok <==> Execute(old(View()), stmt).Some?) && (ok ==> View() == Execute(old(View()), stmt).value)
    {
      if dml {
        var mixedAllowed := !inBlock || mixedSetting || forced;
        if !mixedAllowed && commandId > nextExpected && duckWrote {
          return false;
        }
        ok := ClaimCurrentCommandId(false);
        if !ok {
          return false;
        }
      }
      duckWrote := duckWrote || writes;
      ok := true;
      if duckWrote {
        ok := ClaimCurrentCommandId(false);
      }
    }

    /** A PostgreSQL write, which the planner hook refuses once DuckDB has written. */
    method RunPostgresWrite() returns (ok: bool)
      modifies this`commandId
      ensures ok <==> Execute(old(View()), PostgresWrite).Some?
      ensures ok ==> View() == Execute(old(View()), PostgresWrite).value
    {
      if inBlock && !mixedSetting && !forced && duckWrote {
        return false;
      }
      commandId := commandId + 1;
      return true;
    }

    /** The hooks around a DuckDB command on tables or views; a DROP OWNED does not claim first. */
    method RunDuckCommand(claimsFirst: bool, changes: nat, writes: bool) returns (ok: bool)
      modifies this`commandId, this`nextExpected, this`duckWrote
      ensures var stmt := if claimsFirst then DuckDdl(changes, writes) else DropOwned(changes, writes);
              (ok <==> Execute(old(View()), stmt).Some?) && (ok ==> View() == Execute(old(View()), stmt).value)
    {
      if claimsFirst {
        ok := ClaimCurrentCommandId(false);
        if !ok {
          return false;
        }
      }
      commandId := commandId + changes;
      ok := ClaimCurrentCommandId(true);
      duckWrote := duckWrote || writes;
    }

    method RegisterDuckdbTempTable(relid: nat)
      modifies this`tempTables, this`tempTablesOld, this`tempModified
      ensures View() == TempStep(old(View()), Register(relid))
    {
      if !tempModified {
        tempModified := true;
        tempTablesOld := tempTables;
      }
      tempTables := tempTables + {relid};
    }

    method UnregisterDuckdbTempTable(relid: nat)
      modifies this`tempTables, this`tempTablesOld, this`tempModified
      ensures View() == TempStep(old(View()), Unregister(relid))
    {
      if !tempModified {
        tempModified := true;
        tempTablesOld := tempTables;
      }
      tempTables := tempTables - {relid};
    }

    /** The transaction callback; `commit` tells pre-commit from abort.  The commit check may raise an error. */
    method TransactionCallback(commit: bool, initialized: bool) returns (ok: bool)
      modifies this
      ensures !initialized ==> ok && View() == old(View())
      ensures initialized && commit ==> (ok <==> PreCommit(old(View())).Some?)
      ensures initialized && commit ==> View() == if ok then PreCommit(old(View())).value else old(View())
      ensures initialized && !commit ==> ok && View() == Abort(old(View()))
    {
      if !initialized {
        return true;
      }
      if commit && inBlock && !mixedSetting && !forced && commandId > nextExpected && duckWrote {
        return false;
      }
      nextExpected, forced, duckWrote := FIRST_COMMAND_ID, false, false;
      if tempModified {
        tempModified := false;
        if !commit {
          tempTables := tempTablesOld;
        }
        tempTablesOld := {};
      }
      return true;
    }
  }
}
