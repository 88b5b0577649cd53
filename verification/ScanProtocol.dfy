/**
 The multi-consumer scan of libpgduckdb/scan/postgres_scan.cpp, run over parallel workers.

 Several DuckDB threads each hold a local state and share one reader.  A thread takes the global
 lock to create its local state, to read a batch, and to unregister; it converts a batch outside
 the lock.  Each of those is one atomic step here, and a run is any interleaving of steps.
 */
module ScanProtocol {
  import opened TupleStreams

  const BATCH_SIZE := 32
  const VECTOR_SIZE := 2048
  const NUM_BATCHES := VECTOR_SIZE / BATCH_SIZE

  /** Where a thread is inside one call of the scan function. */
  datatype Phase = Idle | Reading(batches: nat) | Converting(batches: nat) | Unregistering | Emitting

  datatype LocalState = LocalState(
    registered: bool,         // registration was accepted when the state was created
    unregistered: bool,       // it has unregistered since
    phase: Phase,
    exhausted: bool,
    buffer: seq<Tagged>,      // read, not yet converted
    chunk: seq<Tagged>,       // converted into the output chunk of the current call
    emitted: seq<Tagged>)     // handed to DuckDB by earlier calls

  /** A tuple as it was read, with the thread that read it. */
  datatype Read = Read(entry: Tagged, owner: nat)

  datatype State = State(
    reader: Reader,
    count: int,               // registered_local_states
    cleanups: nat,            // how often the shared reader was cleaned up
    locals: seq<LocalState>,
    log: seq<Read>)           // history: every tuple read, in order

  function Fresh(registered: bool): LocalState {
    LocalState(registered, false, Idle, false, [], [], [])
  }

  ghost predicate Init(s: State, streams: seq<seq<Tuple>>) {
    s == State(Reader(streams, set w: nat | w in Workers(|streams|)), 0, 0, [], [])
  }

  function Workers(n: nat): set<nat> {
    if n == 0 then {} else Workers(n - 1) + {n - 1}
  }

  // ---------- steps ----------

  /** A new local state registers, unless the reader was already cleaned up. */
  ghost predicate Create(s: State, s': State) {
    s' == if s.count < 0 then s.(locals := s.locals + [Fresh(false)])
          else s.(count := s.count + 1, locals := s.locals + [Fresh(true)])
  }

  function Set(s: State, c: nat, l: LocalState): State
    requires c < |s.locals|
  {
    s.(locals := s.locals[c := l])
  }

  /** DuckDB asks for the next chunk.  A thread that is exhausted has no rows left to give. */
  ghost predicate Call(s: State, c: nat, s': State) {
    && c < |s.locals|
    && var l := s.locals[c];
    && l.phase == Idle
    && s' == if l.exhausted then s else Set(s, c, l.(phase := Reading(0)))
  }

  /** One locked batch read. */
  ghost predicate ReadBatch(s: State, c: nat, batch: seq<Tagged>, reader: Reader, s': State) {
    && c < |s.locals|
    && var l := s.locals[c];
    && l.phase.Reading?
    && BatchRead(s.reader, batch, reader, BATCH_SIZE)
    && s' == Set(s, c, l.(phase := Converting(l.phase.batches), buffer := batch, exhausted := |batch| < BATCH_SIZE))
             .(reader := reader, log := s.log + Reads(batch, c))
  }

  /** The batch is converted into the chunk, outside the lock. */
  ghost predicate Convert(s: State, c: nat, s': State) {
    && c < |s.locals|
    && var l := s.locals[c];
    && l.phase.Converting?
    && var n := l.phase.batches + 1;
    && s' == Set(s, c, l.(chunk := l.chunk + l.buffer, buffer := [],
                          phase := if l.exhausted then Unregistering
                                   else if n < NUM_BATCHES then Reading(n) else Emitting))
  }

  /** An exhausted thread unregisters; the last registered one cleans the reader up. */
  ghost predicate Unregister(s: State, c: nat, s': State) {
    && c < |s.locals|
    && var l := s.locals[c];
    && l.phase == Unregistering
    && var count := s.count - 1;
    && s' == Set(s, c, l.(phase := Emitting, unregistered := true))
             .(count := if count == 0 then -1 else count, cleanups := s.cleanups + if count == 0 then 1 else 0)
  }

  /** The call returns its chunk; at most one vector of rows fits. */
  ghost predicate Emit(s: State, c: nat, s': State) {
    && c < |s.locals|
    && var l := s.locals[c];
    && l.phase == Emitting
    && var n := if |l.chunk| <= VECTOR_SIZE then |l.chunk| else VECTOR_SIZE;
    && s' == Set(s, c, l.(phase := Idle, chunk := [], emitted := l.emitted + l.chunk[..n]))
  }

  ghost predicate Next(s: State, s': State) {
    || Create(s, s')
    || (exists c: nat :: Call(s, c, s'))
    || (exists c: nat, batch, reader :: ReadBatch(s, c, batch, reader, s'))
    || (exists c: nat :: Convert(s, c, s'))
    || (exists c: nat :: Unregister(s, c, s'))
    || (exists c: nat :: Emit(s, c, s'))
  }

  ghost predicate IsRun(run: seq<State>, streams: seq<seq<Tuple>>) {
    && run != []
    && Init(run[0], streams)
    && forall i :: 0 <= i < |run| - 1 ==> Next(run[i], run[i + 1])
  }

  // ---------- the invariant ----------

  /** The tuples read so far, in order. */
  function Entries(log: seq<Read>): (r: seq<Tagged>)
    ensures |r| == |log|
  {
    if log == [] then [] else Entries(log[..|log| - 1]) + [log[|log| - 1].entry]
  }

  /** The tuples that thread `c` has read, in order. */
  function OwnedBy(log: seq<Read>, c: nat): seq<Tagged> {
    if log == [] then []
    else OwnedBy(log[..|log| - 1], c) + if log[|log| - 1].owner == c then [log[|log| - 1].entry] else []
  }

  function Holds(l: LocalState): seq<Tagged> {
    l.emitted + l.chunk + l.buffer
  }

  /** Registered and not yet unregistered. */
  predicate Active(l: LocalState) {
    l.registered && !l.unregistered
  }

  function ActiveCount(locals: seq<LocalState>): nat {
    if locals == [] then 0
    else ActiveCount(locals[..|locals| - 1]) + if Active(locals[|locals| - 1]) then 1 else 0
  }

  /** The local state fits its place in the call: sizes of chunk and buffer, and the exhausted flag. */
  predicate WellPlaced(l: LocalState) {
    match l.phase
    case Idle => l.chunk == [] && l.buffer == [] && l.unregistered == l.exhausted
    case Reading(n) => l.buffer == [] && |l.chunk| <= n * BATCH_SIZE && n < NUM_BATCHES && !l.exhausted &&
        !l.unregistered
    case Converting(n) => |l.buffer| <= BATCH_SIZE && |l.chunk| <= n * BATCH_SIZE && n < NUM_BATCHES && !l.unregistered
    case Unregistering => l.buffer == [] && |l.chunk| <= VECTOR_SIZE && l.exhausted && !l.unregistered
    case Emitting => l.buffer == [] && |l.chunk| <= VECTOR_SIZE && l.unregistered == l.exhausted
  }

  /** Every tuple is in exactly one place: still queued, or with the one thread that read it. */
  ghost predicate NothingLost(s: State, streams: seq<seq<Tuple>>) {
    && Taken(streams, Entries(s.log), s.reader.remaining)
    && (forall i :: 0 <= i < |s.log| ==> s.log[i].owner < |s.locals|)
    && (forall c :: 0 <= c < |s.locals| ==> Holds(s.locals[c]) == OwnedBy(s.log, c))
  }

  ghost predicate ReaderOk(s: State) {
    && (forall w :: 0 <= w < |s.reader.remaining| && w !in s.reader.live ==> s.reader.remaining[w] == [])
    && (forall c :: 0 <= c < |s.locals| ==> WellPlaced(s.locals[c]))
    && (forall c :: 0 <= c < |s.locals| && s.locals[c].exhausted ==> s.reader.live == {})
  }

  /** Before the clean-up the counter counts the active threads; afterwards there is none and it stays negative. */
  ghost predicate CountOk(s: State) {
    && (s.cleanups == 0 ==> s.count == ActiveCount(s.locals))
    && (s.cleanups == 0 ==> forall c :: 0 <= c < |s.locals| ==> s.locals[c].registered)
    && (s.cleanups == 0 && s.count == 0 ==> s.locals == [])
    && (s.cleanups > 0 ==> s.cleanups == 1 && s.count < 0 && s.reader.live == {} && ActiveCount(s.locals) == 0)
  }

  ghost predicate Inv(s: State, streams: seq<seq<Tuple>>) {
    NothingLost(s, streams) && ReaderOk(s) && CountOk(s)
  }

  // ---------- facts about the history ----------

  lemma {:induction false} LogConcat(a: seq<Read>, b: seq<Read>, c: nat)
    ensures Entries(a + b) == Entries(a) + Entries(b)
    ensures OwnedBy(a + b, c) == OwnedBy(a, c) + OwnedBy(b, c)
  {
    if b == [] {
      assert a + b == a;
    } else {
      LogConcat(a, b[..|b| - 1], c);
      assert (a + b)[..|a + b| - 1] == a + b[..|b| - 1];
    }
  }

  function Reads(batch: seq<Tagged>, c: nat): (r: seq<Read>)
    ensures |r| == |batch| && forall i :: 0 <= i < |r| ==> r[i].owner == c
  {
    seq(|batch|, i requires 0 <= i < |batch| => Read(batch[i], c))
  }

  lemma {:induction false} ReadsOf(batch: seq<Tagged>, c: nat, d: nat)
    ensures Entries(Reads(batch, c)) == batch
    ensures OwnedBy(Reads(batch, c), d) == if c == d then batch else []
  {
    if batch != [] {
      var front := batch[..|batch| - 1];
      ReadsOf(front, c, d);
      var r := Reads(batch, c);
      assert r[..|r| - 1] == Reads(front, c);
    }
  }

  lemma {:induction false} ActiveUpdate(locals: seq<LocalState>, c: nat, l: LocalState)
    requires c < |locals|
    ensures ActiveCount(locals[c := l])
         == ActiveCount(locals) - (if Active(locals[c]) then 1 else 0) + if Active(l) then 1 else 0
  {
    var after := locals[c := l];
    if c == |locals| - 1 {
      assert after[..c] == locals[..c];
    } else {
      ActiveUpdate(locals[..|locals| - 1], c, l);
      assert after[..|after| - 1] == locals[..|locals| - 1][c := l];
    }
  }

  lemma {:induction false} NoneActive(locals: seq<LocalState>)
    ensures ActiveCount(locals) == 0 <==> forall c :: 0 <= c < |locals| ==> !Active(locals[c])
  {
    if locals != [] {
      var front := locals[..|locals| - 1];
      NoneActive(front);
      assert forall c :: 0 <= c < |front| ==> front[c] == locals[c];
    }
  }

  // ---------- every step keeps the invariant ----------

  lemma InitInv(s: State, streams: seq<seq<Tuple>>)
    requires Init(s, streams)
    ensures Inv(s, streams)
  {
    WorkersAre(|streams|);
  }

  lemma {:induction false} WorkersAre(n: nat)
    ensures forall w: nat :: w in Workers(n) <==> w < n
  {
    if n != 0 { WorkersAre(n - 1); }
  }

  lemma CreateInv(s: State, s': State, streams: seq<seq<Tuple>>)
    requires Inv(s, streams) && Create(s, s')
    ensures Inv(s', streams)
  {
    hide Taken, Entries, WellPlaced;
    assert s'.locals[..|s.locals|] == s.locals;
    OwnedByNew(s.log, |s.locals|);
    FreshWellPlaced();
    assert NothingLost(s', streams);
    assert ReaderOk(s');
  }

  lemma FreshWellPlaced()
    ensures forall b :: WellPlaced(Fresh(b)) && Holds(Fresh(b)) == []
  {
  }

  lemma {:induction false} OwnedByNew(log: seq<Read>, c: nat)
    requires forall i :: 0 <= i < |log| ==> log[i].owner < c
    ensures OwnedBy(log, c) == []
  {
    if log != [] { OwnedByNew(log[..|log| - 1], c); }
  }

  /** A step that only changes what one thread holds where, not what it holds nor whether it is active. */
  lemma LocalStepInv(s: State, c: nat, l: LocalState, streams: seq<seq<Tuple>>)
    requires Inv(s, streams) && c < |s.locals|
    requires Holds(l) == Holds(s.locals[c]) && WellPlaced(l) && l.registered == s.locals[c].registered
    requires l.unregistered == s.locals[c].unregistered && l.exhausted == s.locals[c].exhausted
    ensures Inv(Set(s, c, l), streams)
  {
    ActiveUpdate(s.locals, c, l);
  }

  lemma ReadBatchNothingLost(s: State, c: nat, batch: seq<Tagged>, reader: Reader, s': State, streams: seq<seq<Tuple>>)
    requires NothingLost(s, streams) && ReaderOk(s) && ReadBatch(s, c, batch, reader, s')
    ensures NothingLost(s', streams)
  {
    var newReads := Reads(batch, c);
    ReadsOf(batch, c, c);
    LogConcat(s.log, newReads, c);
    TakenConcat(streams, Entries(s.log), s.reader.remaining, batch, reader.remaining);
    forall d | 0 <= d < |s'.locals| ensures Holds(s'.locals[d]) == OwnedBy(s'.log, d) {
      ReadsOf(batch, c, d);
      LogConcat(s.log, newReads, d);
      assert Holds(s.locals[d]) == OwnedBy(s.log, d);
    }
  }

  lemma ReadBatchInv(s: State, c: nat, batch: seq<Tagged>, reader: Reader, s': State, streams: seq<seq<Tuple>>)
    requires Inv(s, streams) && ReadBatch(s, c, batch, reader, s')
    ensures Inv(s', streams)
  {
    hide NothingLost, Taken;
    ReadBatchNothingLost(s, c, batch, reader, s', streams);
    assert ReaderOk(s');
    ActiveUpdate(s.locals, c, s'.locals[c]);
    assert CountOk(s');
  }

  lemma UnregisterKeepsTuples(s: State, c: nat, s': State, streams: seq<seq<Tuple>>)
    requires NothingLost(s, streams) && ReaderOk(s) && Unregister(s, c, s')
    ensures NothingLost(s', streams) && ReaderOk(s')
  {
    hide Taken, Entries, OwnedBy;
    assert Holds(s'.locals[c]) == Holds(s.locals[c]);
  }

  lemma UnregisterCounts(s: State, c: nat, s': State)
    requires ReaderOk(s) && CountOk(s) && Unregister(s, c, s')
    ensures CountOk(s')
  {
    hide ActiveCount;
    ActiveUpdate(s.locals, c, s'.locals[c]);
  }

  lemma UnregisterInv(s: State, c: nat, s': State, streams: seq<seq<Tuple>>)
    requires Inv(s, streams) && Unregister(s, c, s')
    ensures Inv(s', streams)
  {
    hide NothingLost, ReaderOk, CountOk, Unregister;
    UnregisterKeepsTuples(s, c, s', streams);
    UnregisterCounts(s, c, s');
  }

  lemma CallInv(s: State, c: nat, s': State, streams: seq<seq<Tuple>>)
    requires Inv(s, streams) && Call(s, c, s')
    ensures Inv(s', streams)
  {
    if !s.locals[c].exhausted { LocalStepInv(s, c, s'.locals[c], streams); }
  }

  lemma ConvertInv(s: State, c: nat, s': State, streams: seq<seq<Tuple>>)
    requires Inv(s, streams) && Convert(s, c, s')
    ensures Inv(s', streams)
  {
    var l := s.locals[c];
    assert l.emitted + (l.chunk + l.buffer) + [] == l.emitted + l.chunk + l.buffer;
    LocalStepInv(s, c, s'.locals[c], streams);
  }

  lemma EmitInv(s: State, c: nat, s': State, streams: seq<seq<Tuple>>)
    requires Inv(s, streams) && Emit(s, c, s')
    ensures Inv(s', streams)
  {
    var l := s.locals[c];
    assert l.chunk[..|l.chunk|] == l.chunk;
    assert l.emitted + l.chunk + [] + [] == l.emitted + l.chunk + [];
    LocalStepInv(s, c, s'.locals[c], streams);
  }

  lemma NextInv(s: State, s': State, streams: seq<seq<Tuple>>)
    requires Inv(s, streams) && Next(s, s')
    ensures Inv(s', streams)
  {
    hide Inv, Create, Call, ReadBatch, Convert, Unregister, Emit;
    if Create(s, s') {
      CreateInv(s, s', streams);
    } else if c: nat :| Call(s, c, s') {
      CallInv(s, c, s', streams);
    } else if c: nat, batch, reader :| ReadBatch(s, c, batch, reader, s') {
      ReadBatchInv(s, c, batch, reader, s', streams);
    } else if c: nat :| Convert(s, c, s') {
      ConvertInv(s, c, s', streams);
    } else if c: nat :| Unregister(s, c, s') {
      UnregisterInv(s, c, s', streams);
    } else {
      var c: nat :| Emit(s, c, s');
      EmitInv(s, c, s', streams);
    }
  }

  lemma {:induction false} RunInv(run: seq<State>, streams: seq<seq<Tuple>>, i: nat)
    requires IsRun(run, streams) && i < |run|
    ensures Inv(run[i], streams)
  {
    if i == 0 {
      InitInv(run[0], streams);
    } else {
      RunInv(run, streams, i - 1);
      NextInv(run[i - 1], run[i], streams);
    }
  }

  // ---------- what holds of every run ----------

  /** The thread has seen the end of the scan and has handed over its last chunk. */
  predicate Finished(l: LocalState) {
    l.phase == Idle && l.exhausted
  }

  /** The tuples of worker `w` that the first `n` threads have handed to DuckDB, as a bag. */
  ghost function EmittedOf(locals: seq<LocalState>, w: nat): multiset<Tuple> {
    if locals == [] then multiset{}
    else EmittedOf(locals[..|locals| - 1], w) + multiset(Of(locals[|locals| - 1].emitted, w))
  }

  ghost function OwnedOf(log: seq<Read>, n: nat, w: nat): multiset<Tuple> {
    if n == 0 then multiset{} else OwnedOf(log, n - 1, w) + multiset(Of(OwnedBy(log, n - 1), w))
  }

  /** One more tuple read by thread `c` adds to the tuples of thread `c` and of no other. */
  lemma {:induction false} OwnedOfStep(log: seq<Read>, r: Read, n: nat, w: nat)
    ensures OwnedOf(log + [r], n, w) == OwnedOf(log, n, w) + if r.owner < n then Gain(r, w) else multiset{}
  {
    hide Of, OwnedBy, Gain;
    if n != 0 {
      OwnedOfStep(log, r, n - 1, w);
      OwnedByStep(log, r, n - 1, w);
    }
  }

  ghost function Gain(r: Read, w: nat): multiset<Tuple> {
    if r.entry.worker == w then multiset{r.entry.tuple} else multiset{}
  }

  lemma {:induction false} OwnedByStep(log: seq<Read>, r: Read, c: nat, w: nat)
    ensures multiset(Of(OwnedBy(log + [r], c), w))
         == multiset(Of(OwnedBy(log, c), w)) + if r.owner == c then Gain(r, w) else multiset{}
  {
    assert (log + [r])[..|log|] == log;
    var before, after := OwnedBy(log, c), OwnedBy(log + [r], c);
    if r.owner == c {
      assert after == before + [r.entry];
      assert after[..|after| - 1] == before;
    } else {
      assert after == before;
    }
  }

  /** The threads partition what was read. */
  lemma {:induction false} OwnersPartition(log: seq<Read>, n: nat, w: nat)
    requires forall i :: 0 <= i < |log| ==> log[i].owner < n
    ensures multiset(Of(Entries(log), w)) == OwnedOf(log, n, w)
  {
    if log == [] {
      OwnedOfNothing(n, w);
    } else {
      var front, last := log[..|log| - 1], log[|log| - 1];
      OwnersPartition(front, n, w);
      OwnedOfStep(front, last, n, w);
      assert log == front + [last];
      assert Entries(log)[..|front|] == Entries(front);
    }
  }

  lemma {:induction false} OwnedOfNothing(n: nat, w: nat)
    ensures OwnedOf([], n, w) == multiset{}
  {
    if n != 0 { OwnedOfNothing(n - 1, w); }
  }

  lemma {:induction false} EmittedIsOwned(locals: seq<LocalState>, log: seq<Read>, w: nat)
    requires forall c :: 0 <= c < |locals| ==> locals[c].emitted == OwnedBy(log, c)
    ensures EmittedOf(locals, w) == OwnedOf(log, |locals|, w)
  {
    if locals != [] { EmittedIsOwned(locals[..|locals| - 1], log, w); }
  }

  /**
   In every interleaving: when all threads have finished, each worker's tuples have been handed to
   DuckDB exactly once, and each thread handed over what it read, in the order it was read, where the
   reads of all threads together follow every worker's own order; and the reader has been cleaned up.
   */
  lemma ExactlyOnce(run: seq<State>, streams: seq<seq<Tuple>>)
    requires IsRun(run, streams)
    requires var s := run[|run| - 1]; s.locals != [] && forall c :: 0 <= c < |s.locals| ==> Finished(s.locals[c])
    ensures var s := run[|run| - 1];
            && (forall w :: 0 <= w < |streams| ==> EmittedOf(s.locals, w) == multiset(streams[w]))
            && (forall w :: 0 <= w < |streams| ==> Of(Entries(s.log), w) == streams[w])
            && (forall c :: 0 <= c < |s.locals| ==> s.locals[c].emitted == OwnedBy(s.log, c))
            && s.cleanups == 1
  {
    var s := run[|run| - 1];
    RunInv(run, streams, |run| - 1);
    NoneActive(s.locals);
    assert s.locals[0].exhausted;
    forall c | 0 <= c < |s.locals| ensures s.locals[c].emitted == OwnedBy(s.log, c) {
      assert WellPlaced(s.locals[c]);
      assert Holds(s.locals[c]) == s.locals[c].emitted;
    }
    forall w | 0 <= w < |streams|
      ensures Of(Entries(s.log), w) == streams[w] && EmittedOf(s.locals, w) == multiset(streams[w])
    {
      assert s.reader.remaining[w] == [];
      assert streams[w] == Of(Entries(s.log), w) + s.reader.remaining[w];
      OwnersPartition(s.log, |s.locals|, w);
      EmittedIsOwned(s.locals, s.log, w);
    }
  }

  /** At any moment of any run nothing is lost, duplicated or reordered, finished or not. */
  lemma NothingLostEver(run: seq<State>, streams: seq<seq<Tuple>>, i: nat)
    requires IsRun(run, streams) && i < |run|
    ensures Taken(streams, Entries(run[i].log), run[i].reader.remaining)
    ensures forall c :: 0 <= c < |run[i].locals| ==> Holds(run[i].locals[c]) == OwnedBy(run[i].log, c)
  {
    RunInv(run, streams, i);
  }

  /**
   The shared reader is cleaned up at most once; when it has been, no registered thread is still
   active, every queue is done, nobody can register any more, and a late thread reads nothing.
   */
  lemma CleanupSafe(run: seq<State>, streams: seq<seq<Tuple>>, i: nat)
    requires IsRun(run, streams) && i < |run|
    ensures run[i].cleanups <= 1
    ensures run[i].cleanups == 1 ==> run[i].reader.live == {}
    ensures run[i].cleanups == 1 ==> forall c :: 0 <= c < |run[i].locals| ==> !Active(run[i].locals[c])
    ensures run[i].cleanups == 1 && i + 1 < |run| ==>
              && run[i + 1].cleanups == 1
              && (|run[i + 1].locals| > |run[i].locals| ==> !run[i + 1].locals[|run[i].locals|].registered)
              && run[i + 1].log == run[i].log
  {
    RunInv(run, streams, i);
    NoneActive(run[i].locals);
    if i + 1 < |run| && run[i].cleanups == 1 {
      RunInv(run, streams, i + 1);
      AfterCleanup(run[i], run[i + 1], streams);
    }
  }

  lemma AfterCleanup(s: State, s': State, streams: seq<seq<Tuple>>)
    requires Inv(s, streams) && Inv(s', streams) && Next(s, s') && s.cleanups == 1
    ensures s'.cleanups == 1 && s'.log == s.log
    ensures |s'.locals| > |s.locals| ==> !s'.locals[|s.locals|].registered
  {
    hide NothingLost, WellPlaced, ActiveCount, Taken, Reads;
    if c: nat, batch, reader :| ReadBatch(s, c, batch, reader, s') {
      NothingLeft(s.reader, batch, reader);
    }
  }

  lemma NothingLeft(before: Reader, batch: seq<Tagged>, after: Reader)
    requires before.live == {} && (forall w :: 0 <= w < |before.remaining| && w !in before.live ==>
        before.remaining[w] == [])
    requires Taken(before.remaining, batch, after.remaining)
    ensures batch == []
  {
    if batch != [] {
      LastOf(batch);
    }
  }

  lemma {:induction false} LastOf(batch: seq<Tagged>)
    requires batch != []
    ensures Of(batch, batch[|batch| - 1].worker) != []
  {
  }

  /** A thread stops only at the true end: once it is exhausted every queue is done and empty. */
  lemma ExhaustedAtEnd(run: seq<State>, streams: seq<seq<Tuple>>, i: nat, c: nat)
    requires IsRun(run, streams) && i < |run| && c < |run[i].locals| && run[i].locals[c].exhausted
    ensures |run[i].reader.remaining| == |streams|
    ensures forall w :: 0 <= w < |streams| ==>
              run[i].reader.remaining[w] == [] && Of(Entries(run[i].log), w) == streams[w]
  {
    RunInv(run, streams, i);
    forall w | 0 <= w < |streams| ensures run[i].reader.remaining[w] == [] && Of(Entries(run[i].log), w) == streams[w] {
      assert streams[w] == Of(Entries(run[i].log), w) + run[i].reader.remaining[w];
    }
  }

  // ---------- the order in which one thread hands rows over ----------

  lemma {:induction false} OneOwner(log: seq<Read>)
    requires forall i :: 0 <= i < |log| ==> log[i].owner == 0
    ensures OwnedBy(log, 0) == Entries(log)
  {
    if log != [] { OneOwner(log[..|log| - 1]); }
  }

  /** A single thread hands over the workers' streams, each in its own order, interleaved somehow. */
  lemma OneThreadDelivers(run: seq<State>, streams: seq<seq<Tuple>>)
    requires IsRun(run, streams)
    requires var s := run[|run| - 1]; |s.locals| == 1 && Finished(s.locals[0])
    ensures Delivers(streams, Untag(run[|run| - 1].locals[0].emitted))
  {
    var s := run[|run| - 1];
    RunInv(run, streams, |run| - 1);
    ExactlyOnce(run, streams);
    ExhaustedAtEnd(run, streams, |run| - 1, 0);
    OneOwner(s.log);
    assert s.reader.remaining == Nothing(|streams|);
  }
}
