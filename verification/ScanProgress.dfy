/**
 The scan protocol always comes to an end: whatever the threads do, in whatever order, every step of a
 thread brings the scan closer to the point where all threads have finished, and a thread that has not
 finished always has a step to take.
 */
module ScanProgress {
  import opened TupleStreams
  import opened ScanProtocol

  // ---------- paths ----------

  /** A step of a thread; the creation of a thread and the call of an exhausted one are not counted. */
  ghost predicate Works(s: State, s': State) {
    || (exists c: nat :: Call(s, c, s') && !s.locals[c].exhausted)
    || (exists c: nat, batch, reader :: ReadBatch(s, c, batch, reader, s'))
    || (exists c: nat :: Convert(s, c, s'))
    || (exists c: nat :: Unregister(s, c, s'))
    || (exists c: nat :: Emit(s, c, s'))
  }

  /** Steps of threads, from one state to another. */
  ghost predicate IsPath(path: seq<State>, from: State, to: State) {
    && path != [] && path[0] == from && path[|path| - 1] == to
    && forall i :: 0 <= i < |path| - 1 ==> Works(path[i], path[i + 1])
  }

  lemma Join(p: seq<State>, q: seq<State>, a: State, b: State, c: State)
    requires IsPath(p, a, b) && IsPath(q, b, c)
    ensures IsPath(p + q[1..], a, c)
  {
    hide Works;
    var r := p + q[1..];
    forall i | 0 <= i < |r| - 1 ensures Works(r[i], r[i + 1]) {
      if i >= |p| - 1 {
        assert r[i] == q[i - (|p| - 1)] && r[i + 1] == q[i + 1 - (|p| - 1)];
      }
    }
  }

  lemma WorksInv(s: State, s': State, streams: seq<seq<Tuple>>)
    requires Inv(s, streams) && Works(s, s')
    ensures Inv(s', streams)
  {
    hide Inv, Call, ReadBatch, Convert, Unregister, Emit;
    assert Next(s, s');
    NextInv(s, s', streams);
  }

  // ---------- how much is left to do ----------

  function Total(queues: seq<seq<Tuple>>): nat {
    if queues == [] then 0 else Total(queues[..|queues| - 1]) + |queues[|queues| - 1]|
  }

  lemma {:induction false} TotalShrinks(before: seq<seq<Tuple>>, x: Tagged, after: seq<seq<Tuple>>)
    requires |before| == |after| && x.worker < |before|
    requires forall w :: 0 <= w < |before| ==> |before[w]| == |after[w]| + if w == x.worker then 1 else 0
    ensures Total(before) == Total(after) + 1
  {
    var n := |before| - 1;
    if x.worker < n {
      TotalShrinks(before[..n], x, after[..n]);
    } else {
      TotalSame(before[..n], after[..n]);
    }
  }

  lemma {:induction false} TotalSame(a: seq<seq<Tuple>>, b: seq<seq<Tuple>>)
    requires |a| == |b| && forall w :: 0 <= w < |a| ==> |a[w]| == |b[w]|
    ensures Total(a) == Total(b)
  {
    if a != [] { TotalSame(a[..|a| - 1], b[..|b| - 1]); }
  }

  /** What a batch takes from the queues is gone from them. */
  lemma {:induction false} TakenTotal(before: seq<seq<Tuple>>, batch: seq<Tagged>, after: seq<seq<Tuple>>)
    requires Taken(before, batch, after)
    ensures Total(before) == |batch| + Total(after)
  {
    if batch == [] {
      TotalSame(before, after);
    } else {
      var front, x := batch[..|batch| - 1], batch[|batch| - 1];
      var middle := seq(|before|, w requires 0 <= w < |before| => (if w == x.worker then [x.tuple] else []) + after[w]);
      assert forall w :: 0 <= w < |before| ==> before[w] == Of(front, w) + middle[w];
      TakenTotal(before, front, middle);
      TotalShrinks(middle, x, after);
    }
  }

  /** An upper bound on the steps a thread still takes before it reads again, or to its end once it is exhausted. */
  function Weight(l: LocalState): nat {
    match l.phase
    case Idle => if l.exhausted then 0 else 7
    case Reading(_) => 6
    case Converting(_) => if l.exhausted then 3 else 9
    case Unregistering => 2
    case Emitting => if l.exhausted then 1 else 8
  }

  function Weights(locals: seq<LocalState>): nat {
    if locals == [] then 0 else Weights(locals[..|locals| - 1]) + Weight(locals[|locals| - 1])
  }

  function Measure(s: State): nat {
    Total(s.reader.remaining) + Weights(s.locals)
  }

  lemma {:induction false} WeightsUpdate(locals: seq<LocalState>, c: nat, l: LocalState)
    requires c < |locals|
    ensures Weights(locals[c := l]) + Weight(locals[c]) == Weights(locals) + Weight(l)
  {
    var after := locals[c := l];
    if c == |locals| - 1 {
      assert after[..c] == locals[..c];
    } else {
      WeightsUpdate(locals[..|locals| - 1], c, l);
      assert after[..|after| - 1] == locals[..|locals| - 1][c := l];
    }
  }

  lemma ReadDecreases(s: State, c: nat, batch: seq<Tagged>, reader: Reader, s': State)
    requires ReadBatch(s, c, batch, reader, s')
    ensures Measure(s') < Measure(s)
  {
    hide Taken, Total, Weights;
    TakenTotal(s.reader.remaining, batch, reader.remaining);
    WeightsUpdate(s.locals, c, s'.locals[c]);
  }

  lemma LocalDecreases(s: State, c: nat, l: LocalState)
    requires c < |s.locals| && Weight(l) < Weight(s.locals[c])
    ensures Weights(Set(s, c, l).locals) < Weights(s.locals)
  {
    WeightsUpdate(s.locals, c, l);
  }

  /** Every step of every thread decreases the measure, so threads take at most that many steps. */
  lemma WorkDecreases(s: State, s': State, streams: seq<seq<Tuple>>)
    requires Inv(s, streams) && Works(s, s')
    ensures Measure(s') < Measure(s)
  {
    hide NothingLost, CountOk, Total, Weights;
    if c: nat :| Call(s, c, s') && !s.locals[c].exhausted {
      LocalDecreases(s, c, s'.locals[c]);
    } else if c: nat, batch, reader :| ReadBatch(s, c, batch, reader, s') {
      ReadDecreases(s, c, batch, reader, s');
    } else if c: nat :| Convert(s, c, s') {
      LocalDecreases(s, c, s'.locals[c]);
    } else if c: nat :| Unregister(s, c, s') {
      LocalDecreases(s, c, s'.locals[c]);
    } else {
      var c: nat :| Emit(s, c, s');
      LocalDecreases(s, c, s'.locals[c]);
    }
  }

  lemma {:induction false} WorkBounded(path: seq<State>, from: State, to: State, streams: seq<seq<Tuple>>)
    requires IsPath(path, from, to) && Inv(from, streams)
    ensures Inv(to, streams) && Measure(to) + (|path| - 1) <= Measure(from)
    decreases |path|
  {
    if |path| > 1 {
      hide Works, Inv, Measure;
      WorksInv(from, path[1], streams);
      WorkDecreases(from, path[1], streams);
      WorkBounded(path[1..], path[1], to, streams);
    }
  }

  // ---------- somebody can always go on ----------

  /** What is left of the streams once the rest of an interleaving is known. */
  function Left(n: nat, rest: seq<Tagged>): (r: seq<seq<Tuple>>)
    ensures |r| == n && forall w :: 0 <= w < n ==> r[w] == Of(rest, w)
  {
    seq(n, w requires 0 <= w < n => Of(rest, w))
  }

  lemma TakePrefix(n: nat, rest: seq<Tagged>, k: nat)
    requires k <= |rest| && forall i :: 0 <= i < |rest| ==> rest[i].worker < n
    ensures Taken(Left(n, rest), rest[..k], Left(n, rest[k..]))
  {
    assert rest == rest[..k] + rest[k..];
    forall w | 0 <= w < n ensures Left(n, rest)[w] == Of(rest[..k], w) + Left(n, rest[k..])[w] {
      OfConcat(rest[..k], rest[k..], w);
    }
  }

  /** The tuples of all queues, one queue after the other. */
  lemma {:induction false} SomeOrder(queues: seq<seq<Tuple>>) returns (all: seq<Tagged>)
    ensures forall i :: 0 <= i < |all| ==> all[i].worker < |queues|
    ensures Left(|queues|, all) == queues
  {
    all := [];
    if queues != [] {
      var n := |queues| - 1;
      var front := SomeOrder(queues[..n]);
      all := front + TagAll(n, queues[n]);
      forall w | 0 <= w < |queues| ensures Left(|queues|, all)[w] == queues[w] {
        OfConcat(front, TagAll(n, queues[n]), w);
        TagAllOf(n, queues[n], w);
        if w < n {
          assert queues[w] == queues[..n][w] == Left(n, front)[w];
        } else {
          NoneOf(front, n);
        }
      }
    }
  }

  lemma {:induction false} NoneOf(batch: seq<Tagged>, w: nat)
    requires forall i :: 0 <= i < |batch| ==> batch[i].worker != w
    ensures Of(batch, w) == []
  {
    if batch != [] { NoneOf(batch[..|batch| - 1], w); }
  }

  /** From a reader that has forgotten no queue with tuples, some batch can be read. */
  lemma SomeBatch(reader: Reader) returns (batch: seq<Tagged>, after: Reader)
    requires forall w :: 0 <= w < |reader.remaining| && w !in reader.live ==> reader.remaining[w] == []
    ensures BatchRead(reader, batch, after, BATCH_SIZE)
  {
    var n := |reader.remaining|;
    var all := SomeOrder(reader.remaining);
    if |all| < BATCH_SIZE {
      batch, after := all, Reader(Left(n, []), {});
      TakePrefix(n, all, |all|);
      assert all[..|all|] == all && all[|all|..] == [];
    } else {
      batch, after := all[..BATCH_SIZE], Reader(Left(n, all[BATCH_SIZE..]), reader.live);
      TakePrefix(n, all, BATCH_SIZE);
      forall w | 0 <= w < n && w !in reader.live ensures after.remaining[w] == [] {
        assert reader.remaining[w] == Of(batch, w) + after.remaining[w];
      }
    }
  }

  /** A thread that has not finished can take a step. */
  lemma CanWork(s: State, streams: seq<seq<Tuple>>, c: nat) returns (s': State)
    requires Inv(s, streams) && c < |s.locals| && !Finished(s.locals[c])
    ensures Works(s, s')
  {
    hide NothingLost, CountOk;
    var l := s.locals[c];
    match l.phase
    case Idle =>
      s' := Set(s, c, l.(phase := Reading(0)));
      assert Call(s, c, s') && !s.locals[c].exhausted;
    case Reading(n) =>
      var batch, reader := SomeBatch(s.reader);
      s' := Set(s, c, l.(phase := Converting(n), buffer := batch, exhausted := |batch| < BATCH_SIZE))
            .(reader := reader, log := s.log + Reads(batch, c));
      assert ReadBatch(s, c, batch, reader, s');
    case Converting(n) =>
      s' := Set(s, c, l.(chunk := l.chunk + l.buffer, buffer := [],
                         phase := if l.exhausted then Unregistering
                                  else if n + 1 < NUM_BATCHES then Reading(n + 1) else Emitting));
      assert Convert(s, c, s');
    case Unregistering =>
      var count := s.count - 1;
      s' := Set(s, c, l.(phase := Emitting, unregistered := true))
            .(count := if count == 0 then -1 else count, cleanups := s.cleanups + if count == 0 then 1 else 0);
      assert Unregister(s, c, s');
    case Emitting =>
      s' := Set(s, c, l.(phase := Idle, chunk := [], emitted := l.emitted + l.chunk[..|l.chunk|]));
      assert Emit(s, c, s');
  }

  ghost predicate AllFinished(s: State) {
    forall c :: 0 <= c < |s.locals| ==> Finished(s.locals[c])
  }

  /**
   From every reachable state, with any number of threads at any point of their calls, the threads can
   come to their ends, and however they are scheduled they take no more steps than the measure allows.
   */
  lemma {:induction false} AlwaysFinishes(s: State, streams: seq<seq<Tuple>>) returns (path: seq<State>, end: State)
    requires Inv(s, streams)
    ensures IsPath(path, s, end) && AllFinished(end)
    ensures forall longer, to :: IsPath(longer, s, to) ==> |longer| - 1 <= Measure(s)
    decreases Measure(s)
  {
    hide Works, Inv, Measure, Finished;
    if AllFinished(s) {
      path, end := [s], s;
    } else {
      var c: nat :| c < |s.locals| && !Finished(s.locals[c]);
      var s' := CanWork(s, streams, c);
      WorksInv(s, s', streams);
      WorkDecreases(s, s', streams);
      var rest;
      rest, end := AlwaysFinishes(s', streams);
      path := [s, s'] + rest[1..];
      Join([s, s'], rest, s, s', end);
    }
    forall longer, to | IsPath(longer, s, to) ensures |longer| - 1 <= Measure(s) {
      WorkBounded(longer, s, to, streams);
    }
  }

  /** In every run, with any number of threads: a thread that reads when every queue is done is exhausted by that. */
  lemma ReadAtEndExhausts(run: seq<State>, streams: seq<seq<Tuple>>, i: nat, c: nat, batch: seq<Tagged>, reader: Reader)
    requires IsRun(run, streams) && i + 1 < |run| && ReadBatch(run[i], c, batch, reader, run[i + 1])
    requires run[i].reader.live == {}
    ensures batch == [] && run[i + 1].locals[c].exhausted
  {
    RunInv(run, streams, i);
    NothingLeft(run[i].reader, batch, reader);
  }
}
