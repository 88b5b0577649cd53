/**
 Every way of sharing a scan happens: for any number of threads, any order in which the workers' tuples
 can be read and any assignment of its batches to the threads there is a run of the scan protocol in
 which all threads finish and each has handed over its own share.
 */
module ScanRuns {
  import opened TupleStreams
  import opened ScanProtocol
  import opened ScanProgress

  /** The batches of an interleaving that thread `c` reads; only the last one is short. */
  function Share(rest: seq<Tagged>, owners: seq<nat>, c: nat): seq<Tagged>
    requires |owners| == |rest| / BATCH_SIZE + 1
  {
    if |rest| < BATCH_SIZE then if owners[0] == c then rest else []
    else (if owners[0] == c then rest[..BATCH_SIZE] else []) + Share(rest[BATCH_SIZE..], owners[1..], c)
  }

  /** What the thread has been given so far, as far as it is converted. */
  function Given(l: LocalState): seq<Tagged> {
    l.emitted + l.chunk
  }

  /** A registered thread that is about to read, with every batch of its call so far a full one. */
  predicate AtRead(l: LocalState) {
    && l.phase.Reading? && l.phase.batches < NUM_BATCHES && |l.chunk| == l.phase.batches * BATCH_SIZE
    && l.registered && !l.unregistered && !l.exhausted && l.buffer == []
  }

  /** All threads are about to read, with `rest` still to come from `n` workers. */
  ghost predicate AllAtRead(s: State, n: nat, rest: seq<Tagged>) {
    && s.reader == Reader(Left(n, rest), Workers(n)) && s.count == |s.locals| && s.cleanups == 0
    && (forall i :: 0 <= i < |rest| ==> rest[i].worker < n)
    && (forall c :: 0 <= c < |s.locals| ==> AtRead(s.locals[c]))
  }

  // ---------- full batches ----------

  lemma {:induction false} FullBatch(n: nat, rest: seq<Tagged>)
    requires |rest| >= BATCH_SIZE && forall i :: 0 <= i < |rest| ==> rest[i].worker < n
    ensures var later := Reader(Left(n, rest[BATCH_SIZE..]), Workers(n));
            BatchRead(Reader(Left(n, rest), Workers(n)), rest[..BATCH_SIZE], later, BATCH_SIZE)
  {
    TakePrefix(n, rest, BATCH_SIZE);
    WorkersAre(n);
  }

  /** A full batch is read and converted. */
  lemma ConvertsFull(s: State, c: nat, batch: seq<Tagged>, reader: Reader) returns (path: seq<State>, after: State)
    requires c < |s.locals| && AtRead(s.locals[c]) && |batch| == BATCH_SIZE
    requires BatchRead(s.reader, batch, reader, BATCH_SIZE)
    ensures IsPath(path, s, after)
    ensures var l := s.locals[c];
            var k := l.phase.batches + 1;
            after == Set(s, c, l.(chunk := l.chunk + batch, phase := if k < NUM_BATCHES then Reading(k) else Emitting))
                     .(reader := reader, log := after.log)
  {
    hide BatchRead;
    var l := s.locals[c];
    var k := l.phase.batches;
    var l1 := l.(phase := Converting(k), buffer := batch);
    var s1 := Set(s, c, l1).(reader := reader, log := s.log + Reads(batch, c));
    assert ReadBatch(s, c, batch, reader, s1);
    var l2 := l1.(chunk := l.chunk + batch, buffer := [],
                  phase := if k + 1 < NUM_BATCHES then Reading(k + 1) else Emitting);
    after := Set(s1, c, l2);
    assert Convert(s1, c, after);
    path := [s, s1, after];
    assert Works(s, s1) && Works(s1, after);
  }

  /** A full chunk is emitted and the next call begins. */
  lemma EmitsFull(s: State, c: nat) returns (path: seq<State>, after: State)
    requires c < |s.locals| && s.locals[c].phase == Emitting && !s.locals[c].exhausted
    requires |s.locals[c].chunk| <= VECTOR_SIZE
    ensures IsPath(path, s, after)
    ensures var l := s.locals[c];
            after == Set(s, c, l.(phase := Reading(0), chunk := [], emitted := l.emitted + l.chunk))
  {
    var l := s.locals[c];
    var l1 := l.(phase := Idle, chunk := [], emitted := l.emitted + l.chunk);
    var s1 := Set(s, c, l1);
    assert l.chunk[..|l.chunk|] == l.chunk;
    assert Emit(s, c, s1);
    after := Set(s1, c, l1.(phase := Reading(0)));
    assert Call(s1, c, after);
    path := [s, s1, after];
    assert Works(s, s1) && Works(s1, after);
  }

  /** One full batch, up to the point where the thread is about to read again; no other thread moves. */
  lemma ReadsFull(s: State, n: nat, rest: seq<Tagged>, c: nat) returns (path: seq<State>, after: State)
    requires AllAtRead(s, n, rest) && |rest| >= BATCH_SIZE && c < |s.locals|
    ensures IsPath(path, s, after) && AllAtRead(after, n, rest[BATCH_SIZE..]) && |after.locals| == |s.locals|
    ensures forall d :: 0 <= d < |s.locals| ==>
              Given(after.locals[d]) == Given(s.locals[d]) + if d == c then rest[..BATCH_SIZE] else []
  {
    hide Works, Left, BatchRead;
    FullBatch(n, rest);
    path, after := ConvertsFull(s, c, rest[..BATCH_SIZE], Reader(Left(n, rest[BATCH_SIZE..]), Workers(n)));
    if after.locals[c].phase == Emitting {
      var full, more := after, [];
      more, after := EmitsFull(full, c);
      Join(path, more, s, full, after);
      path := path + more[1..];
    }
  }

  // ---------- the end ----------

  /** A thread reads a short batch, converts and emits what it has, and unregisters. */
  lemma ReadsShort(s: State, c: nat, batch: seq<Tagged>, reader: Reader) returns (path: seq<State>, end: State)
    requires c < |s.locals| && AtRead(s.locals[c]) && |batch| < BATCH_SIZE
    requires BatchRead(s.reader, batch, reader, BATCH_SIZE)
    ensures IsPath(path, s, end) && end.reader == reader && |end.locals| == |s.locals|
    ensures end.count == if s.count == 1 then -1 else s.count - 1
    ensures Finished(end.locals[c]) && end.locals[c].emitted == Given(s.locals[c]) + batch
    ensures forall d :: 0 <= d < |s.locals| && d != c ==> end.locals[d] == s.locals[d]
  {
    hide BatchRead;
    var l := s.locals[c];
    var l1 := l.(phase := Converting(l.phase.batches), buffer := batch, exhausted := true);
    var s1 := Set(s, c, l1).(reader := reader, log := s.log + Reads(batch, c));
    assert ReadBatch(s, c, batch, reader, s1);
    var l2 := l1.(chunk := l.chunk + batch, buffer := [], phase := Unregistering);
    var s2 := Set(s1, c, l2);
    assert Convert(s1, c, s2);
    var l3, count := l2.(phase := Emitting, unregistered := true), s.count - 1;
    var s3 := Set(s2, c, l3)
              .(count := if count == 0 then -1 else count, cleanups := s.cleanups + if count == 0 then 1 else 0);
    assert Unregister(s2, c, s3);
    end := Set(s3, c, l3.(phase := Idle, chunk := [], emitted := l.emitted + (l.chunk + batch)));
    assert l3.chunk[..|l3.chunk|] == l3.chunk;
    assert Emit(s3, c, end);
    path := [s, s1, s2, s3, end];
    assert Works(s, s1) && Works(s1, s2) && Works(s2, s3) && Works(s3, end);
    assert l.emitted + (l.chunk + batch) == Given(l) + batch;
  }

  /** The scan is at its end; the thread `first` and those below `i` have finished, the others are about to read. */
  ghost predicate AtEnd(s: State, n: nat, first: nat, i: nat) {
    && s.reader == Reader(Nothing(n), {}) && i <= |s.locals|
    && forall c :: 0 <= c < |s.locals| ==> if c == first || c < i then Finished(s.locals[c]) else AtRead(s.locals[c])
  }

  /** The other threads read nothing and finish one after the other. */
  lemma {:induction false} OthersFinish(s: State, n: nat, first: nat, i: nat) returns (path: seq<State>, end: State)
    requires AtEnd(s, n, first, i)
    ensures IsPath(path, s, end) && |end.locals| == |s.locals| && AllFinished(end)
    ensures forall c :: 0 <= c < |s.locals| ==>
              end.locals[c].emitted == if c == first || c < i then s.locals[c].emitted else Given(s.locals[c])
    decreases |s.locals| - i
  {
    if i == |s.locals| {
      path, end := [s], s;
    } else if i == first {
      path, end := OthersFinish(s, n, first, i + 1);
    } else {
      hide Works, BatchRead;
      NothingToRead(n);
      var step, after := ReadsShort(s, i, [], Reader(Nothing(n), {}));
      path, end := OthersFinish(after, n, first, i + 1);
      Join(step, path, s, after, end);
      path := step + path[1..];
    }
  }

  lemma NothingToRead(n: nat)
    ensures BatchRead(Reader(Nothing(n), {}), [], Reader(Nothing(n), {}), BATCH_SIZE)
  {
  }

  /** All threads have finished, and each has handed over what it was given and its share of the rest. */
  ghost predicate Shared(s: State, end: State, rest: seq<Tagged>, owners: seq<nat>)
    requires |owners| == |rest| / BATCH_SIZE + 1
  {
    |end.locals| == |s.locals| && AllFinished(end) &&
    forall c :: 0 <= c < |s.locals| ==> end.locals[c].emitted == Given(s.locals[c]) + Share(rest, owners, c)
  }

  lemma ReadsLast(s: State, n: nat, rest: seq<Tagged>, owner: nat) returns (path: seq<State>, end: State)
    requires AllAtRead(s, n, rest) && |rest| < BATCH_SIZE && owner < |s.locals|
    ensures IsPath(path, s, end) && Shared(s, end, rest, [owner])
  {
    hide BatchRead, Works;
    LastBatch(n, rest);
    var first, after := ReadsShort(s, owner, rest, Reader(Nothing(n), {}));
    path, end := OthersFinish(after, n, owner, 0);
    Join(first, path, s, after, end);
    path := first + path[1..];
  }

  lemma {:induction false} LastBatch(n: nat, rest: seq<Tagged>)
    requires |rest| < BATCH_SIZE && forall i :: 0 <= i < |rest| ==> rest[i].worker < n
    ensures BatchRead(Reader(Left(n, rest), Workers(n)), rest, Reader(Nothing(n), {}), BATCH_SIZE)
  {
  }

  lemma {:induction false} ReadsRest(s: State, n: nat, rest: seq<Tagged>, owners: seq<nat>)
    returns (path: seq<State>, end: State)
    requires AllAtRead(s, n, rest) && |owners| == |rest| / BATCH_SIZE + 1
    requires forall k :: 0 <= k < |owners| ==> owners[k] < |s.locals|
    ensures IsPath(path, s, end) && Shared(s, end, rest, owners)
    decreases |rest|
  {
    if |rest| < BATCH_SIZE {
      assert owners == [owners[0]];
      path, end := ReadsLast(s, n, rest, owners[0]);
    } else {
      hide Works, AllAtRead, Given;
      var first, after := ReadsFull(s, n, rest, owners[0]);
      path, end := ReadsRest(after, n, rest[BATCH_SIZE..], owners[1..]);
      Join(first, path, s, after, end);
      path := first + path[1..];
    }
  }

  // ---------- from the start ----------

  /** Threads are created one after the other ... */
  lemma {:induction false} CreatesAll(streams: seq<seq<Tuple>>, threads: nat) returns (run: seq<State>)
    ensures IsRun(run, streams)
    ensures run[|run| - 1] ==
            State(Reader(streams, Workers(|streams|)), threads, 0, seq(threads, _ => Fresh(true)), [])
  {
    var all := Workers(|streams|);
    if threads == 0 {
      assert (set w: nat | w in all) == all;
      run := [State(Reader(streams, all), 0, 0, [], [])];
      assert Init(run[0], streams);
    } else {
      var front := CreatesAll(streams, threads - 1);
      var s := State(Reader(streams, all), threads, 0, seq(threads, _ => Fresh(true)), []);
      var before := front[|front| - 1];
      assert s.locals == before.locals + [Fresh(true)];
      assert Create(before, s) && Next(before, s);
      run := front + [s];
      hide Next;
      forall i | 0 <= i < |run| - 1 ensures Next(run[i], run[i + 1]) {
        if i < |front| - 1 { assert run[i] == front[i] && run[i + 1] == front[i + 1]; }
      }
    }
  }

  /** ... and each is called. */
  lemma {:induction false} CallsAll(s: State, i: nat) returns (path: seq<State>, end: State)
    requires i <= |s.locals|
    requires forall c :: 0 <= c < |s.locals| ==>
               s.locals[c] == if c < i then Fresh(true).(phase := Reading(0)) else Fresh(true)
    ensures IsPath(path, s, end)
    ensures end == s.(locals := seq(|s.locals|, _ => Fresh(true).(phase := Reading(0))))
    decreases |s.locals| - i
  {
    if i == |s.locals| {
      path, end := [s], s;
      assert s.locals == seq(|s.locals|, _ => Fresh(true).(phase := Reading(0)));
    } else {
      var after := Set(s, i, Fresh(true).(phase := Reading(0)));
      assert Call(s, i, after) && !s.locals[i].exhausted;
      assert IsPath([s, after], s, after);
      path, end := CallsAll(after, i + 1);
      Join([s, after], path, s, after, end);
      path := [s, after] + path[1..];
    }
  }

  lemma RunOn(run: seq<State>, path: seq<State>, streams: seq<seq<Tuple>>, s: State, end: State)
    requires IsRun(run, streams) && run[|run| - 1] == s && IsPath(path, s, end)
    ensures IsRun(run + path[1..], streams) && (run + path[1..])[|run + path[1..]| - 1] == end
  {
    var r := run + path[1..];
    forall i | 0 <= i < |r| - 1 ensures Next(r[i], r[i + 1]) {
      if i >= |run| - 1 {
        var a, b := path[i - (|run| - 1)], path[i + 1 - (|run| - 1)];
        assert r[i] == a && r[i + 1] == b && Works(a, b);
        WorksIsNext(a, b);
      } else {
        assert r[i] == run[i] && r[i + 1] == run[i + 1];
      }
    }
  }

  lemma WorksIsNext(s: State, s': State)
    requires Works(s, s')
    ensures Next(s, s')
  {
    hide Call, ReadBatch, Convert, Unregister, Emit;
  }

  lemma WholeInterleaving(streams: seq<seq<Tuple>>, all: seq<Tagged>)
    requires Taken(streams, all, Nothing(|streams|))
    ensures Left(|streams|, all) == streams
  {
    forall w | 0 <= w < |streams| ensures streams[w] == Of(all, w) {
      assert streams[w] == Of(all, w) + Nothing(|streams|)[w];
    }
  }

  /**
   For every number of threads, every order in which the workers' tuples can be read and every assignment
   of its batches to the threads, some run ends with all threads finished, each having handed over its share.
   */
  lemma EveryShareHappens(streams: seq<seq<Tuple>>, all: seq<Tagged>, threads: nat, owners: seq<nat>)
    returns (run: seq<State>)
    requires Taken(streams, all, Nothing(|streams|)) && |owners| == |all| / BATCH_SIZE + 1
    requires forall k :: 0 <= k < |owners| ==> owners[k] < threads
    ensures IsRun(run, streams)
    ensures var end := run[|run| - 1];
            && |end.locals| == threads && AllFinished(end)
            && forall c :: 0 <= c < threads ==> end.locals[c].emitted == Share(all, owners, c)
  {
    hide Next, Works;
    var n := |streams|;
    WholeInterleaving(streams, all);
    run := CreatesAll(streams, threads);
    var s0 := run[|run| - 1];
    var path, s1 := CallsAll(s0, 0);
    RunOn(run, path, streams, s0, s1);
    run := run + path[1..];
    var rest, end := ReadsRest(s1, n, all, owners);
    RunOn(run, rest, streams, s1, end);
    run := run + rest[1..];
    assert forall c :: 0 <= c < threads ==> Given(s1.locals[c]) == [];
  }

  lemma {:induction false} OneShare(rest: seq<Tagged>, owners: seq<nat>)
    requires |owners| == |rest| / BATCH_SIZE + 1 && forall k :: 0 <= k < |owners| ==> owners[k] == 0
    ensures Share(rest, owners, 0) == rest
  {
    if |rest| >= BATCH_SIZE {
      OneShare(rest[BATCH_SIZE..], owners[1..]);
      assert rest == rest[..BATCH_SIZE] + rest[BATCH_SIZE..];
    }
  }

  /** In particular every interleaving of the workers' streams is handed over by some run of a single thread. */
  lemma EveryReadHappens(streams: seq<seq<Tuple>>, all: seq<Tagged>) returns (run: seq<State>)
    requires Taken(streams, all, Nothing(|streams|))
    ensures IsRun(run, streams)
    ensures var end := run[|run| - 1]; |end.locals| == 1 && Finished(end.locals[0]) && end.locals[0].emitted == all
  {
    var owners := seq(|all| / BATCH_SIZE + 1, _ => 0);
    OneShare(all, owners);
    run := EveryShareHappens(streams, all, 1, owners);
  }
}
