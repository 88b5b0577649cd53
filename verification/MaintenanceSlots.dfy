/**
 The shared slot table of the maintenance workers (pg_ducklake/src/maintenance_worker.cpp) and the
 protocol that the launcher and the workers run over it.
 */
module MaintenanceSlots {

  const MAX_SLOTS: nat := 8

  datatype Slot = Slot(inUse: bool, database: nat, pid: nat)

  // ---------- what the table says ----------

  /** The databases that have a slot in use. */
  function Busy(s: seq<Slot>): set<nat> {
    set i | 0 <= i < |s| && s[i].inUse :: s[i].database
  }

  function Active(s: seq<Slot>): nat {
    if s == [] then 0 else Active(s[..|s| - 1]) + if s[|s| - 1].inUse then 1 else 0
  }

  /** No two slots in use are for the same database. */
  predicate Distinct(s: seq<Slot>) {
    forall i, j :: 0 <= i < j < |s| && s[i].inUse && s[j].inUse ==> s[i].database != s[j].database
  }

  predicate Holds(s: seq<Slot>, i: nat, db: nat) {
    i < |s| && s[i].inUse && s[i].database == db
  }

  predicate FirstHolder(s: seq<Slot>, i: nat, db: nat) {
    Holds(s, i, db) && forall j: nat :: j < i ==> !Holds(s, j, db)
  }

  /** Claiming: the first free slot is taken, or, at -1, there is none and nothing changes. */
  predicate Claimed(before: seq<Slot>, after: seq<Slot>, db: nat, pid: nat, slot: int) {
    if slot == -1 then after == before && forall i :: 0 <= i < |before| ==> before[i].inUse
    else
      && 0 <= slot < |before| && !before[slot].inUse && after == before[slot := Slot(true, db, pid)]
      && forall i :: 0 <= i < slot ==> before[i].inUse
  }

  /** Updating the first slot of a database: releasing it, or filling in the pid. */
  ghost predicate FirstUpdated(before: seq<Slot>, after: seq<Slot>, db: nat, update: Slot -> Slot) {
    if db in Busy(before)
    then exists i: nat :: FirstHolder(before, i, db) && after == before[i := update(before[i])]
    else after == before
  }

  ghost predicate Released(before: seq<Slot>, after: seq<Slot>, db: nat) {
    FirstUpdated(before, after, db, (s: Slot) => s.(inUse := false))
  }

  ghost predicate PidSet(before: seq<Slot>, after: seq<Slot>, db: nat, pid: nat) {
    FirstUpdated(before, after, db, (s: Slot) => s.(pid := pid))
  }

  lemma BusyIff(s: seq<Slot>, db: nat)
    ensures db in Busy(s) <==> exists i: nat :: Holds(s, i, db)
  {
    if db in Busy(s) {
      var i :| 0 <= i < |s| && s[i].inUse && s[i].database == db;
      assert Holds(s, i, db);
    }
  }

  /** With distinct databases the number of slots in use is the number of busy databases. */
  lemma {:induction false} ActiveIsBusy(s: seq<Slot>)
    requires Distinct(s)
    ensures Active(s) == |Busy(s)|
  {
    if s != [] {
      var front, last := s[..|s| - 1], s[|s| - 1];
      assert forall i :: 0 <= i < |front| ==> front[i] == s[i];
      ActiveIsBusy(front);
      if last.inUse {
        assert Busy(s) == Busy(front) + {last.database};
        assert last.database !in Busy(front);
      } else {
        assert Busy(s) == Busy(front);
      }
    }
  }

  /** Fewer slots in use than slots: one is free. */
  lemma {:induction false} SomeSlotFree(s: seq<Slot>)
    ensures Active(s) <= |s|
    ensures Active(s) < |s| <==> exists i :: 0 <= i < |s| && !s[i].inUse
  {
    if s != [] {
      var front := s[..|s| - 1];
      SomeSlotFree(front);
      if i :| 0 <= i < |s| && !s[i].inUse { assert i < |front| ==> !front[i].inUse; }
      if i :| 0 <= i < |front| && !front[i].inUse { assert !s[i].inUse; }
    }
  }

  lemma ClaimAdds(before: seq<Slot>, after: seq<Slot>, db: nat, pid: nat, slot: int)
    requires Claimed(before, after, db, pid, slot) && slot >= 0
    requires Distinct(before) && db !in Busy(before)
    ensures Distinct(after) && Busy(after) == Busy(before) + {db} && |after| == |before|
  {
    assert after[slot].inUse;
    forall d ensures d in Busy(after) <==> d in Busy(before) + {db} {
      if d in Busy(before) {
        var i :| 0 <= i < |before| && before[i].inUse && before[i].database == d;
        assert after[i] == before[i];
      }
    }
  }

  lemma ReleaseRemoves(before: seq<Slot>, after: seq<Slot>, db: nat)
    requires Released(before, after, db) && Distinct(before)
    ensures Distinct(after) && Busy(after) == Busy(before) - {db} && |after| == |before|
    ensures forall i :: 0 <= i < |before| && !Holds(before, i, db) ==> after[i] == before[i]
  {
    if db in Busy(before) {
      var i: nat :| FirstHolder(before, i, db) && after == before[i := before[i].(inUse := false)];
      forall d ensures d in Busy(after) <==> d in Busy(before) && d != db {
        if d in Busy(before) && d != db {
          var k :| 0 <= k < |before| && before[k].inUse && before[k].database == d;
          assert after[k] == before[k];
        }
        if d in Busy(after) {
          var k :| 0 <= k < |after| && after[k].inUse && after[k].database == d;
          assert k != i && after[k] == before[k];
        }
      }
    }
  }

  lemma PidKeeps(before: seq<Slot>, after: seq<Slot>, db: nat, pid: nat)
    requires PidSet(before, after, db, pid) && Distinct(before)
    ensures Distinct(after) && Busy(after) == Busy(before) && |after| == |before|
    ensures forall i :: 0 <= i < |before| ==>
              after[i] == if Holds(before, i, db) then before[i].(pid := pid) else before[i]
  {
    if db in Busy(before) {
      var i: nat :| FirstHolder(before, i, db) && after == before[i := before[i].(pid := pid)];
      assert forall j :: 0 <= j < |before| ==>
               after[j].inUse == before[j].inUse && after[j].database == before[j].database;
      forall d ensures d in Busy(after) <==> d in Busy(before) {
        if d in Busy(before) {
          var k :| 0 <= k < |before| && before[k].inUse && before[k].database == d;
          assert after[k].inUse;
        }
      }
    }
  }

  // ---------- the table ----------

  class SlotTable {
    const workers: array<Slot>

    ghost predicate Valid() {
      workers.Length == MAX_SLOTS
    }

    constructor ()
      ensures Valid() && fresh(workers) && Busy(workers[..]) == {}
    {
      workers := new Slot[MAX_SLOTS](_ => Slot(false, 0, 0));
    }

    method HasWorkerForDatabase(db: nat) returns (r: bool)
      requires Valid()
      ensures r <==> db in Busy(workers[..])
    {
      for i := 0 to MAX_SLOTS
        invariant forall j: nat :: j < i ==> !Holds(workers[..], j, db)
      {
        if workers[i].inUse && workers[i].database == db {
          assert Holds(workers[..], i, db);
          BusyIff(workers[..], db);
          return true;
        }
      }
      BusyIff(workers[..], db);
      return false;
    }

    method CountActiveWorkers() returns (count: nat)
      requires Valid()
      ensures count == Active(workers[..])
    {
      count := 0;
      for i := 0 to MAX_SLOTS
        invariant count == Active(workers[..i])
      {
        assert workers[..i + 1][..i] == workers[..i];
        if workers[i].inUse {
          count := count + 1;
        }
      }
      assert workers[..MAX_SLOTS] == workers[..];
    }

    method ClaimSlot(db: nat, pid: nat) returns (slot: int)
      requires Valid()
      modifies workers
      ensures Claimed(old(workers[..]), workers[..], db, pid, slot)
    {
      for i := 0 to MAX_SLOTS
        invariant workers[..] == old(workers[..])
        invariant forall j :: 0 <= j < i ==> workers[j].inUse
      {
        if !workers[i].inUse {
          workers[i] := Slot(true, db, pid);
          return i;
        }
      }
      return -1;
    }

    method ReleaseSlot(db: nat)
      requires Valid()
      modifies workers
      ensures Released(old(workers[..]), workers[..], db)
    {
      ghost var before := workers[..];
      for i := 0 to MAX_SLOTS
        invariant workers[..] == before
        invariant forall j: nat :: j < i ==> !Holds(before, j, db)
      {
        if workers[i].inUse && workers[i].database == db {
          assert FirstHolder(before, i, db);
          BusyIff(before, db);
          workers[i] := workers[i].(inUse := false);
          assert workers[..] == before[i := before[i].(inUse := false)];
          return;
        }
      }
      BusyIff(before, db);
    }

    /** The start of a worker: its pid goes into the slot that the launcher claimed for its database. */
    method UpdatePid(db: nat, pid: nat)
      requires Valid()
      modifies workers
      ensures PidSet(old(workers[..]), workers[..], db, pid)
    {
      ghost var before := workers[..];
      for i := 0 to MAX_SLOTS
        invariant workers[..] == before
        invariant forall j: nat :: j < i ==> !Holds(before, j, db)
      {
        if workers[i].inUse && workers[i].database == db {
          assert FirstHolder(before, i, db);
          BusyIff(before, db);
          workers[i] := workers[i].(pid := pid);
          assert workers[..] == before[i := before[i].(pid := pid)];
          return;
        }
      }
      BusyIff(before, db);
    }

    /** The launcher's critical section for one database. */
    method TryClaim(db: nat, maxWorkers: nat) returns (slot: int)
      requires Valid()
      modifies workers
      ensures TriedClaim(old(workers[..]), workers[..], db, maxWorkers, slot)
    {
      var running := HasWorkerForDatabase(db);
      var active := CountActiveWorkers();
      slot := -1;
      if !running && active < maxWorkers {
        slot := ClaimSlot(db, 0);
      }
    }
  }

  predicate TriedClaim(before: seq<Slot>, after: seq<Slot>, db: nat, maxWorkers: nat, slot: int) {
    if db !in Busy(before) && Active(before) < maxWorkers then Claimed(before, after, db, 0, slot)
    else after == before && slot == -1
  }

  // ---------- the protocol ----------

  /** A claim's life: claimed by the launcher, registered, running as a process, then finished or lost. */
  datatype Phase = Pending | Starting | Running(pid: nat) | Finished | Lost

  datatype Attempt = Attempt(database: nat, phase: Phase)

  datatype State = State(slots: seq<Slot>, attempts: seq<Attempt>)

  predicate Holding(a: Attempt) {
    !a.phase.Finished?
  }

  function Held(attempts: seq<Attempt>): set<nat> {
    set i | 0 <= i < |attempts| && Holding(attempts[i]) :: attempts[i].database
  }

  function SetPhase(s: State, k: nat, slots: seq<Slot>, phase: Phase): State
    requires k < |s.attempts|
  {
    State(slots, s.attempts[k := s.attempts[k].(phase := phase)])
  }

  datatype Step =
    | Launch(database: nat)
    | Register(attempt: nat)
    | RefuseRegistration(attempt: nat)
    | Start(attempt: nat, pid: nat)
    | Finish(attempt: nat)
    | Lose(attempt: nat)

  ghost predicate Launched(s: State, t: State, db: nat, maxWorkers: nat) {
    exists slot: int ::
      && TriedClaim(s.slots, t.slots, db, maxWorkers, slot)
      && t.attempts == if slot < 0 then s.attempts else s.attempts + [Attempt(db, Pending)]
  }

  /** One step of the launcher or of a worker.  A lost attempt is a process that ended without releasing. */
  ghost predicate Next(s: State, t: State, step: Step, maxWorkers: nat) {
    if step.Launch? then Launched(s, t, step.database, maxWorkers)
    else
      var k := step.attempt;
      k < |s.attempts| &&
      var a := s.attempts[k];
      match step
      case Register(_) => a.phase.Pending? && t == SetPhase(s, k, s.slots, Starting)
      case RefuseRegistration(_) =>
        a.phase.Pending? && Released(s.slots, t.slots, a.database) && t == SetPhase(s, k, t.slots, Finished)
      case Start(_, pid) =>
        a.phase.Starting? && PidSet(s.slots, t.slots, a.database, pid) && t == SetPhase(s, k, t.slots, Running(pid))
      case Finish(_) =>
        a.phase.Running? && Released(s.slots, t.slots, a.database) && t == SetPhase(s, k, t.slots, Finished)
      case Lose(_) =>
        (a.phase.Pending? || a.phase.Starting? || a.phase.Running?) && t == SetPhase(s, k, s.slots, Lost)
  }

  predicate OnePerDatabase(attempts: seq<Attempt>) {
    forall i, j :: 0 <= i < j < |attempts| && Holding(attempts[i]) && Holding(attempts[j]) ==>
      attempts[i].database != attempts[j].database
  }

  /** The pid in a slot is that of the attempt that holds it. */
  predicate PidsMatch(s: State) {
    forall i, k :: 0 <= i < |s.slots| && 0 <= k < |s.attempts| && Holds(s.slots, i, s.attempts[k].database) ==>
      && (s.attempts[k].phase.Running? ==> s.slots[i].pid == s.attempts[k].phase.pid)
      && (s.attempts[k].phase.Pending? || s.attempts[k].phase.Starting? ==> s.slots[i].pid == 0)
  }

  predicate Inv(s: State, maxWorkers: nat) {
    && |s.slots| == MAX_SLOTS && Distinct(s.slots) && Busy(s.slots) == Held(s.attempts)
    && Active(s.slots) <= maxWorkers && OnePerDatabase(s.attempts) && PidsMatch(s)
  }

  ghost predicate Run(states: seq<State>, steps: seq<Step>, maxWorkers: nat) {
    && |states| == |steps| + 1 && 1 <= maxWorkers <= MAX_SLOTS
    && states[0] == State(seq(MAX_SLOTS, _ => Slot(false, 0, 0)), [])
    && forall i :: 0 <= i < |steps| ==> Next(states[i], states[i + 1], steps[i], maxWorkers)
  }

  function DatabasesOf(attempts: seq<Attempt>, some: set<nat>): set<nat> {
    set k | k in some && k < |attempts| :: attempts[k].database
  }

  lemma HeldAt(attempts: seq<Attempt>, k: nat)
    requires k < |attempts| && Holding(attempts[k])
    ensures attempts[k].database in Held(attempts)
  {
  }

  /** Ending a holding attempt takes exactly its database out of the held ones. */
  lemma HeldAfterEnd(attempts: seq<Attempt>, k: nat)
    requires k < |attempts| && Holding(attempts[k]) && OnePerDatabase(attempts)
    ensures Held(attempts[k := attempts[k].(phase := Finished)]) == Held(attempts) - {attempts[k].database}
  {
    var after := attempts[k := attempts[k].(phase := Finished)];
    forall d ensures d in Held(after) <==> d in Held(attempts) && d != attempts[k].database {
      if d in Held(attempts) && d != attempts[k].database {
        var i :| 0 <= i < |attempts| && Holding(attempts[i]) && attempts[i].database == d;
        assert Holding(after[i]);
      }
      if d in Held(after) {
        var i :| 0 <= i < |after| && Holding(after[i]) && after[i].database == d;
        assert i != k && Holding(attempts[i]);
      }
    }
  }

  /** A phase change that keeps the slot keeps what is held. */
  lemma HeldAfterPhase(attempts: seq<Attempt>, k: nat, phase: Phase)
    requires k < |attempts| && Holding(attempts[k]) && !phase.Finished?
    ensures Held(attempts[k := attempts[k].(phase := phase)]) == Held(attempts)
  {
    var after := attempts[k := attempts[k].(phase := phase)];
    forall d ensures d in Held(after) <==> d in Held(attempts) {
      if d in Held(attempts) {
        var i :| 0 <= i < |attempts| && Holding(attempts[i]) && attempts[i].database == d;
        assert Holding(after[i]);
      }
    }
  }

  lemma HeldAfterLaunch(attempts: seq<Attempt>, db: nat)
    ensures Held(attempts + [Attempt(db, Pending)]) == Held(attempts) + {db}
  {
    var after := attempts + [Attempt(db, Pending)];
    assert Holding(after[|attempts|]);
    forall d ensures d in Held(after) <==> d in Held(attempts) || d == db {
      if d in Held(attempts) {
        var i :| 0 <= i < |attempts| && Holding(attempts[i]) && attempts[i].database == d;
        assert after[i] == attempts[i];
      }
    }
  }

  lemma LaunchKeeps(s: State, t: State, db: nat, maxWorkers: nat)
    requires Inv(s, maxWorkers) && maxWorkers <= MAX_SLOTS && Launched(s, t, db, maxWorkers)
    ensures Inv(t, maxWorkers)
    ensures |t.attempts| == |s.attempts| + 1 <==> db !in Held(s.attempts) && |Held(s.attempts)| < maxWorkers
    ensures t.attempts == s.attempts || t.attempts == s.attempts + [Attempt(db, Pending)]
  {
    hide Distinct, OnePerDatabase, PidsMatch, Busy, Held, Active;
    var slot: int :|
      && TriedClaim(s.slots, t.slots, db, maxWorkers, slot)
      && t.attempts == if slot < 0 then s.attempts else s.attempts + [Attempt(db, Pending)];
    ActiveIsBusy(s.slots);
    if db !in Busy(s.slots) && Active(s.slots) < maxWorkers {
      SomeSlotFree(s.slots);
      assert slot >= 0;
      ClaimAdds(s.slots, t.slots, db, 0, slot);
      ActiveIsBusy(t.slots);
      HeldAfterLaunch(s.attempts, db);
      LaunchKeepsAttempts(s.attempts, db);
      LaunchKeepsPids(s, t, db, slot);
    }
  }

  lemma LaunchKeepsAttempts(attempts: seq<Attempt>, db: nat)
    requires OnePerDatabase(attempts) && db !in Held(attempts)
    ensures OnePerDatabase(attempts + [Attempt(db, Pending)])
    ensures forall k :: 0 <= k < |attempts| && Holding(attempts[k]) ==> attempts[k].database != db
  {
    forall k | 0 <= k < |attempts| && Holding(attempts[k]) ensures attempts[k].database != db {
      HeldAt(attempts, k);
    }
  }

  lemma LaunchKeepsPids(s: State, t: State, db: nat, slot: nat)
    requires slot < |s.slots| && t == State(s.slots[slot := Slot(true, db, 0)], s.attempts + [Attempt(db, Pending)])
    requires PidsMatch(s) && db !in Busy(s.slots)
    requires forall k :: 0 <= k < |s.attempts| && Holding(s.attempts[k]) ==> s.attempts[k].database != db
    ensures PidsMatch(t)
  {
    forall i, k | 0 <= i < |t.slots| && 0 <= k < |t.attempts| && Holds(t.slots, i, t.attempts[k].database)
      ensures t.attempts[k].phase.Running? ==> t.slots[i].pid == t.attempts[k].phase.pid
      ensures t.attempts[k].phase.Pending? || t.attempts[k].phase.Starting? ==> t.slots[i].pid == 0
    {
      BusyIff(s.slots, db);
      assert i != slot && k < |s.attempts| ==> Holds(s.slots, i, s.attempts[k].database);
    }
  }

  lemma EndKeeps(s: State, t: State, k: nat, maxWorkers: nat)
    requires Inv(s, maxWorkers) && k < |s.attempts| && Holding(s.attempts[k])
    requires Released(s.slots, t.slots, s.attempts[k].database) && t == SetPhase(s, k, t.slots, Finished)
    ensures Inv(t, maxWorkers)
  {
    ReleaseRemoves(s.slots, t.slots, s.attempts[k].database);
    HeldAfterEnd(s.attempts, k);
    ActiveIsBusy(s.slots);
    ActiveIsBusy(t.slots);
    assert Busy(t.slots) <= Busy(s.slots);
    SubsetSize(Busy(t.slots), Busy(s.slots));
    EndKeepsPids(s, t, k);
  }

  lemma EndKeepsPids(s: State, t: State, k: nat)
    requires k < |s.attempts| && Holding(s.attempts[k]) && PidsMatch(s) && Distinct(s.slots)
    requires Released(s.slots, t.slots, s.attempts[k].database) && t == SetPhase(s, k, t.slots, Finished)
    ensures PidsMatch(t)
  {
    ReleaseRemoves(s.slots, t.slots, s.attempts[k].database);
    forall i, j | 0 <= i < |t.slots| && 0 <= j < |t.attempts| && Holds(t.slots, i, t.attempts[j].database)
      ensures t.attempts[j].phase.Running? ==> t.slots[i].pid == t.attempts[j].phase.pid
      ensures t.attempts[j].phase.Pending? || t.attempts[j].phase.Starting? ==> t.slots[i].pid == 0
    {
      BusyIff(t.slots, t.attempts[j].database);
      assert j != k ==> Holds(s.slots, i, s.attempts[j].database);
    }
  }

  lemma StartKeeps(s: State, t: State, k: nat, pid: nat, maxWorkers: nat)
    requires Inv(s, maxWorkers) && k < |s.attempts| && s.attempts[k].phase.Starting?
    requires PidSet(s.slots, t.slots, s.attempts[k].database, pid) && t == SetPhase(s, k, t.slots, Running(pid))
    ensures Inv(t, maxWorkers)
  {
    PidKeeps(s.slots, t.slots, s.attempts[k].database, pid);
    HeldAfterPhase(s.attempts, k, Running(pid));
    ActiveIsBusy(s.slots);
    ActiveIsBusy(t.slots);
    forall i, j | 0 <= i < |t.slots| && 0 <= j < |t.attempts| && Holds(t.slots, i, t.attempts[j].database)
      ensures t.attempts[j].phase.Running? ==> t.slots[i].pid == t.attempts[j].phase.pid
      ensures t.attempts[j].phase.Pending? || t.attempts[j].phase.Starting? ==> t.slots[i].pid == 0
    {
      assert Holds(s.slots, i, s.attempts[j].database);
      assert j != k && Holding(s.attempts[j]) ==> s.attempts[j].database != s.attempts[k].database;
    }
  }

  lemma {:induction false} SubsetSize(a: set<nat>, b: set<nat>)
    requires a <= b
    ensures |a| <= |b|
  {
    if x :| x in a { SubsetSize(a - {x}, b - {x}); }
  }

  lemma NextKeeps(s: State, t: State, step: Step, maxWorkers: nat)
    requires Inv(s, maxWorkers) && maxWorkers <= MAX_SLOTS && Next(s, t, step, maxWorkers)
    ensures Inv(t, maxWorkers)
  {
    match step
    case Launch(db) => LaunchKeeps(s, t, db, maxWorkers);
    case Register(k) => HeldAfterPhase(s.attempts, k, Starting);
    case RefuseRegistration(k) => EndKeeps(s, t, k, maxWorkers);
    case Start(k, pid) => StartKeeps(s, t, k, pid, maxWorkers);
    case Finish(k) => EndKeeps(s, t, k, maxWorkers);
    case Lose(k) => HeldAfterPhase(s.attempts, k, Lost);
  }

  lemma {:induction false} RunKeeps(states: seq<State>, steps: seq<Step>, maxWorkers: nat, n: nat)
    requires Run(states, steps, maxWorkers) && n < |states|
    ensures Inv(states[n], maxWorkers)
  {
    if n == 0 {
      ActiveIsBusy(states[0].slots);
      assert Busy(states[0].slots) == {} && Held(states[0].attempts) == {};
    } else {
      RunKeeps(states, steps, maxWorkers, n - 1);
      NextKeeps(states[n - 1], states[n], steps[n - 1], maxWorkers);
    }
  }

  // ---------- what holds in every run ----------

  /** At most one worker is ever alive for a database. */
  lemma OneWorkerPerDatabase(states: seq<State>, steps: seq<Step>, maxWorkers: nat, n: nat, i: nat, j: nat)
    requires Run(states, steps, maxWorkers) && n < |states|
    requires i < |states[n].attempts| && j < |states[n].attempts|
    requires states[n].attempts[i].phase.Running? && states[n].attempts[j].phase.Running?
    requires states[n].attempts[i].database == states[n].attempts[j].database
    ensures i == j
  {
    RunKeeps(states, steps, maxWorkers, n);
  }

  /** Never more workers alive than the setting allows. */
  lemma WorkersBounded(states: seq<State>, steps: seq<Step>, maxWorkers: nat, n: nat, alive: set<nat>)
    requires Run(states, steps, maxWorkers) && n < |states|
    requires forall k :: k in alive ==> k < |states[n].attempts| && states[n].attempts[k].phase.Running?
    ensures |alive| <= maxWorkers
  {
    RunKeeps(states, steps, maxWorkers, n);
    ActiveIsBusy(states[n].slots);
    HoldersInjective(states[n].attempts, alive);
    var dbs := DatabasesOf(states[n].attempts, alive);
    forall d | d in dbs ensures d in Held(states[n].attempts) {
      var k :| k in alive && states[n].attempts[k].database == d;
      HeldAt(states[n].attempts, k);
    }
    SubsetSize(dbs, Held(states[n].attempts));
  }

  lemma {:induction false} HoldersInjective(attempts: seq<Attempt>, holders: set<nat>)
    requires OnePerDatabase(attempts)
    requires forall k :: k in holders ==> k < |attempts| && Holding(attempts[k])
    ensures |DatabasesOf(attempts, holders)| == |holders|
  {
    assert holders == {} ==> DatabasesOf(attempts, holders) == {};
    if x :| x in holders {
      var rest := holders - {x};
      HoldersInjective(attempts, rest);
      assert DatabasesOf(attempts, holders) == DatabasesOf(attempts, rest) + {attempts[x].database};
      assert attempts[x].database !in DatabasesOf(attempts, rest);
    }
  }

  /** The launcher starts an attempt exactly when the database is not held and the bound is not reached. */
  lemma LaunchesIff(states: seq<State>, steps: seq<Step>, maxWorkers: nat, n: nat)
    requires Run(states, steps, maxWorkers) && n < |steps| && steps[n].Launch?
    ensures |states[n + 1].attempts| == |states[n].attempts| + 1 <==>
            steps[n].database !in Held(states[n].attempts) && |Held(states[n].attempts)| < maxWorkers
  {
    RunKeeps(states, steps, maxWorkers, n);
    LaunchKeeps(states[n], states[n + 1], steps[n].database, maxWorkers);
  }

  /** The pid that the slot of an attempt holds: none before its process has started. */
  function SlotPid(a: Attempt): nat {
    if a.phase.Running? then a.phase.pid else 0
  }

  predicate FreesOwn(before: seq<Slot>, after: seq<Slot>, a: Attempt, i: nat)
    requires i < |before| == |after|
  {
    if Holds(before, i, a.database) then before[i].pid == SlotPid(a) && !after[i].inUse else after[i] == before[i]
  }

  /** The step gives a slot back: a worker finishes, or its registration is refused. */
  predicate GivesBack(step: Step) {
    step.Finish? || step.RefuseRegistration?
  }

  /**
   A worker that finishes, and a launcher whose worker is refused, free the slot of that attempt, the one
   with its pid or with none yet, and no other, though they release by database.
   */
  lemma FinishFreesOwnSlot(states: seq<State>, steps: seq<Step>, maxWorkers: nat, n: nat, i: nat)
    requires Run(states, steps, maxWorkers) && n < |steps| && GivesBack(steps[n]) && i < MAX_SLOTS
    ensures |states[n].slots| == |states[n + 1].slots| == MAX_SLOTS && steps[n].attempt < |states[n].attempts|
    ensures FreesOwn(states[n].slots, states[n + 1].slots, states[n].attempts[steps[n].attempt], i)
    ensures exists j: nat :: Holds(states[n].slots, j, states[n].attempts[steps[n].attempt].database)
  {
    RunKeeps(states, steps, maxWorkers, n);
    RunKeeps(states, steps, maxWorkers, n + 1);
    var a := states[n].attempts[steps[n].attempt];
    HeldAt(states[n].attempts, steps[n].attempt);
    ReleaseRemoves(states[n].slots, states[n + 1].slots, a.database);
    BusyIff(states[n].slots, a.database);
    if Holds(states[n].slots, i, a.database) {
      BusyIff(states[n + 1].slots, a.database);
    }
  }

  /** A database whose slot was given back is launched again by the next attempt at it. */
  lemma GivenBackIsLaunched(states: seq<State>, steps: seq<Step>, maxWorkers: nat, n: nat)
    requires Run(states, steps, maxWorkers) && n + 1 < |steps| && GivesBack(steps[n])
    requires steps[n].attempt < |states[n].attempts|
    requires steps[n + 1] == Launch(states[n].attempts[steps[n].attempt].database)
    ensures states[n + 2].attempts == states[n + 1].attempts + [Attempt(steps[n + 1].database, Pending)]
  {
    RunKeeps(states, steps, maxWorkers, n);
    RunKeeps(states, steps, maxWorkers, n + 1);
    var a := states[n].attempts[steps[n].attempt];
    HeldAt(states[n].attempts, steps[n].attempt);
    HeldAfterEnd(states[n].attempts, steps[n].attempt);
    ActiveIsBusy(states[n].slots);
    LaunchKeeps(states[n + 1], states[n + 2], a.database, maxWorkers);
  }

  lemma LostStep(s: State, t: State, step: Step, maxWorkers: nat, k: nat)
    requires Inv(s, maxWorkers) && maxWorkers <= MAX_SLOTS && Next(s, t, step, maxWorkers)
    requires k < |s.attempts| && s.attempts[k].phase.Lost?
    ensures k < |t.attempts| && t.attempts[k] == s.attempts[k]
  {
    if step.Launch? { LaunchKeeps(s, t, step.database, maxWorkers); }
  }

  /** An attempt lost without a release stays lost for the rest of the run. */
  lemma {:induction false} LostStays(states: seq<State>, steps: seq<Step>, maxWorkers: nat, m: nat, n: nat, k: nat)
    requires Run(states, steps, maxWorkers) && m <= n < |states|
    requires k < |states[m].attempts| && states[m].attempts[k].phase.Lost?
    ensures k < |states[n].attempts| && states[n].attempts[k] == states[m].attempts[k]
  {
    if m < n {
      hide Next, Inv;
      LostStays(states, steps, maxWorkers, m, n - 1, k);
      RunKeeps(states, steps, maxWorkers, n - 1);
      LostStep(states[n - 1], states[n], steps[n - 1], maxWorkers, k);
    }
  }

  /** ... so its database is never maintained again ... */
  lemma LostDatabaseNeverLaunched(states: seq<State>, steps: seq<Step>, maxWorkers: nat, m: nat, n: nat, k: nat)
    requires Run(states, steps, maxWorkers) && m <= n < |steps|
    requires k < |states[m].attempts| && states[m].attempts[k].phase.Lost?
    requires steps[n] == Launch(states[m].attempts[k].database)
    ensures states[n + 1].attempts == states[n].attempts
  {
    LostStays(states, steps, maxWorkers, m, n, k);
    RunKeeps(states, steps, maxWorkers, n);
    HeldAt(states[n].attempts, k);
    LaunchKeeps(states[n], states[n + 1], steps[n].database, maxWorkers);
  }

  /** ... and once as many attempts are lost as workers are allowed, no database is. */
  lemma AllLostStopsMaintenance(states: seq<State>, steps: seq<Step>, maxWorkers: nat, m: nat, n: nat, lost: set<nat>)
    requires Run(states, steps, maxWorkers) && m <= n < |steps| && steps[n].Launch?
    requires forall k :: k in lost ==> k < |states[m].attempts| && states[m].attempts[k].phase.Lost?
    requires |lost| == maxWorkers
    ensures states[n + 1].attempts == states[n].attempts
  {
    RunKeeps(states, steps, maxWorkers, n);
    var attempts := states[n].attempts;
    forall k | k in lost ensures k < |attempts| && attempts[k].phase.Lost? {
      LostStays(states, steps, maxWorkers, m, n, k);
    }
    HoldersInjective(attempts, lost);
    var dbs := DatabasesOf(attempts, lost);
    forall d | d in dbs ensures d in Held(attempts) {
      var k :| k in lost && attempts[k].database == d;
      HeldAt(attempts, k);
    }
    SubsetSize(dbs, Held(attempts));
    LaunchKeeps(states[n], states[n + 1], steps[n].database, maxWorkers);
  }
}
