/**
 The tuple reader of libpgduckdb/scan/postgres_table_reader.cpp, which polls the tuple queues of
 PostgreSQL's parallel workers in turn.
 */
module TupleStreams {

  /** A value of a column. */
  datatype Cell = Null | Val(n: int)

  /** A minimal tuple, as the column values that are copied out of a shared queue. */
  type Tuple = seq<Cell>

  /** A tuple together with the worker that produced it. */
  datatype Tagged = Tagged(worker: nat, tuple: Tuple)

  /** What a scan can still expect: the tuples left in each worker's queue, and the queues not yet seen done. */
  datatype Reader = Reader(remaining: seq<seq<Tuple>>, live: set<nat>)

  /** The tuples of one worker in a sequence of tagged tuples, in order. */
  function Of(batch: seq<Tagged>, worker: nat): seq<Tuple> {
    if batch == [] then []
    else Of(batch[..|batch| - 1], worker)
         + if batch[|batch| - 1].worker == worker then [batch[|batch| - 1].tuple] else []
  }

  /** `batch` was taken from the front of the workers' queues and nothing else was. */
  ghost predicate Taken(before: seq<seq<Tuple>>, batch: seq<Tagged>, after: seq<seq<Tuple>>) {
    && |before| == |after|
    && (forall i :: 0 <= i < |batch| ==> batch[i].worker < |before|)
    && forall w :: 0 <= w < |before| ==> before[w] == Of(batch, w) + after[w]
  }

  lemma {:induction false} OfConcat(a: seq<Tagged>, b: seq<Tagged>, w: nat)
    ensures Of(a + b, w) == Of(a, w) + Of(b, w)
  {
    if b == [] {
      assert a + b == a;
    } else {
      OfConcat(a, b[..|b| - 1], w);
      assert (a + b)[..|a + b| - 1] == a + b[..|b| - 1];
    }
  }

  lemma TakenConcat(s0: seq<seq<Tuple>>, a: seq<Tagged>, s1: seq<seq<Tuple>>, b: seq<Tagged>, s2: seq<seq<Tuple>>)
    requires Taken(s0, a, s1) && Taken(s1, b, s2)
    ensures Taken(s0, a + b, s2)
  {
    forall w | 0 <= w < |s0| ensures s0[w] == Of(a + b, w) + s2[w] {
      OfConcat(a, b, w);
      assert s0[w] == Of(a, w) + (Of(b, w) + s2[w]);
    }
  }

  /**
   What one locked batch read does to the queues: it takes at most `max` tuples, it never forgets a
   queue that still has tuples, and it comes back short only when every queue is done.
   */
  ghost predicate BatchRead(before: Reader, batch: seq<Tagged>, after: Reader, max: nat) {
    && Taken(before.remaining, batch, after.remaining)
    && after.live <= before.live
    && (forall w :: 0 <= w < |after.remaining| && w !in after.live ==> after.remaining[w] == [])
    && |batch| <= max
    && (|batch| < max ==> after.live == {})
  }

  /** The tuples of a batch, without the workers they came from. */
  function Untag(batch: seq<Tagged>): (tuples: seq<Tuple>)
    ensures |tuples| == |batch| && forall i :: 0 <= i < |batch| ==> tuples[i] == batch[i].tuple
  {
    seq(|batch|, i requires 0 <= i < |batch| => batch[i].tuple)
  }

  function Nothing(n: nat): seq<seq<Tuple>> {
    seq(n, _ => [])
  }

  /** Reading the streams of the workers to their ends can hand over the tuples in this order. */
  ghost predicate Delivers(streams: seq<seq<Tuple>>, tuples: seq<Tuple>) {
    exists batch :: Untag(batch) == tuples && Taken(streams, batch, Nothing(|streams|))
  }

  lemma {:induction false} OneWorkerOf(batch: seq<Tagged>)
    requires forall i :: 0 <= i < |batch| ==> batch[i].worker == 0
    ensures Of(batch, 0) == Untag(batch)
  {
    if batch != [] {
      var front := batch[..|batch| - 1];
      OneWorkerOf(front);
      assert Untag(batch) == Untag(front) + [batch[|batch| - 1].tuple];
    }
  }

  /** A single stream is handed over in its own order. */
  lemma DeliversOne(stream: seq<Tuple>, tuples: seq<Tuple>)
    ensures Delivers([stream], tuples) <==> tuples == stream
  {
    if batch :| Untag(batch) == tuples && Taken([stream], batch, Nothing(1)) {
      OneWorkerOf(batch);
      assert [stream][0] == Of(batch, 0) + Nothing(1)[0];
    }
    if tuples == stream {
      var batch := seq(|stream|, i requires 0 <= i < |stream| => Tagged(0, stream[i]));
      OneWorkerOf(batch);
      assert Untag(batch) == stream;
      assert Taken([stream], batch, Nothing(1));
    }
  }

  function TagAll(w: nat, tuples: seq<Tuple>): (batch: seq<Tagged>)
    ensures |batch| == |tuples| && forall i :: 0 <= i < |batch| ==> batch[i] == Tagged(w, tuples[i])
  {
    seq(|tuples|, i requires 0 <= i < |tuples| => Tagged(w, tuples[i]))
  }

  lemma {:induction false} TagAllOf(w: nat, tuples: seq<Tuple>, u: nat)
    ensures Of(TagAll(w, tuples), u) == if u == w then tuples else []
  {
    if tuples != [] {
      var front := tuples[..|tuples| - 1];
      TagAllOf(w, front, u);
      assert TagAll(w, tuples)[..|front|] == TagAll(w, front);
      assert tuples == front + [tuples[|front|]];
    }
  }

  /** Of two streams the first one can be handed over first ... */
  lemma DeliversForth(a: seq<Tuple>, b: seq<Tuple>)
    ensures Delivers([a, b], a + b)
  {
    hide Of;
    var streams, batch := [a, b], TagAll(0, a) + TagAll(1, b);
    forall w: nat | w < 2 ensures streams[w] == Of(batch, w) + Nothing(2)[w] {
      OfConcat(TagAll(0, a), TagAll(1, b), w);
      TagAllOf(0, a, w);
      TagAllOf(1, b, w);
    }
    assert Untag(batch) == a + b;
    assert Taken(streams, batch, Nothing(2));
  }

  /** ... and so can the second one. */
  lemma DeliversBack(a: seq<Tuple>, b: seq<Tuple>)
    ensures Delivers([a, b], b + a)
  {
    hide Of;
    var streams, batch := [a, b], TagAll(1, b) + TagAll(0, a);
    forall w: nat | w < 2 ensures streams[w] == Of(batch, w) + Nothing(2)[w] {
      OfConcat(TagAll(1, b), TagAll(0, a), w);
      TagAllOf(0, a, w);
      TagAllOf(1, b, w);
    }
    assert Untag(batch) == b + a;
    assert Taken(streams, batch, Nothing(2));
  }
}

module TableReader {
  import opened Basics
  import opened TupleStreams

  /** One answer of a worker's queue.  A queue with no answer left is done. */
  datatype Event = Blocked | Row(tuple: Tuple)

  datatype Answer = SawBlocked | SawRow | SawDone

  /** What the reader does to its surroundings: it polls a queue, or waits on its latch. */
  datatype Action = Polled(worker: nat, answer: Answer) | Waited

  function Rows(queue: seq<Event>): seq<Tuple> {
    if queue == [] then []
    else (if queue[0].Row? then [queue[0].tuple] else []) + Rows(queue[1..])
  }

  function AllRows(queues: seq<seq<Event>>): (r: seq<seq<Tuple>>)
    ensures |r| == |queues| && forall w :: 0 <= w < |r| ==> r[w] == Rows(queues[w])
  {
    seq(|queues|, w requires 0 <= w < |queues| => Rows(queues[w]))
  }

  /** The number of answers that are left, which bounds how often the queues can still block. */
  ghost function Pending(queues: seq<seq<Event>>): nat {
    if queues == [] then 0 else |queues[0]| + Pending(queues[1..])
  }

  lemma {:induction false} PendingUpdate(queues: seq<seq<Event>>, w: nat)
    requires w < |queues| && queues[w] != []
    ensures Pending(Pop(queues, w)) == Pending(queues) - 1
  {
    if w == 0 {
      assert Pop(queues, w)[1..] == queues[1..];
    } else {
      PendingUpdate(queues[1..], w - 1);
      assert Pop(queues, w)[1..] == Pop(queues[1..], w - 1);
    }
  }

  // ---------- when waiting is justified ----------

  /** The queues that are not yet done after `actions`. */
  ghost function LiveAfter(live: set<nat>, actions: seq<Action>): set<nat> {
    if actions == [] then live
    else
      var before := LiveAfter(live, actions[..|actions| - 1]);
      match actions[|actions| - 1]
      case Polled(w, SawDone) => before - {w}
      case _ => before
  }

  /** The queues that were seen empty since the last wait. */
  ghost function EmptySinceWait(actions: seq<Action>): set<nat> {
    if actions == [] then {}
    else
      var before := EmptySinceWait(actions[..|actions| - 1]);
      match actions[|actions| - 1]
      case Polled(w, SawBlocked) => before + {w}
      case Polled(_, _) => before
      case Waited => {}
  }

  ghost function PollsSinceWait(actions: seq<Action>): nat {
    if actions == [] || actions[|actions| - 1].Waited? then 0
    else 1 + PollsSinceWait(actions[..|actions| - 1])
  }

  /** The queues that were not yet done at the last wait. */
  ghost function LiveAtWait(live: set<nat>, actions: seq<Action>): set<nat> {
    if actions == [] then live
    else if actions[|actions| - 1].Waited? then LiveAfter(live, actions)
    else LiveAtWait(live, actions[..|actions| - 1])
  }

  /**
   The reader waits only when every queue that is not done has been seen empty since it last waited,
   and between two waits it polls fewer than twice as often as there are queues.
   */
  ghost predicate Disciplined(live: set<nat>, actions: seq<Action>) {
    actions == [] ||
    var before := actions[..|actions| - 1];
    && Disciplined(live, before)
    && match actions[|actions| - 1]
       case Waited => LiveAfter(live, before) <= EmptySinceWait(before)
       case Polled(w, _) => w in LiveAfter(live, before) && PollsSinceWait(actions) < 2 * |LiveAtWait(live, before)|
  }

  // ---------- the reader ----------

  function Distance(p: nat, next: nat, n: nat): int {
    if p >= next then p - next else p - next + n
  }

  function ToSet(s: seq<nat>): set<nat> {
    set w | w in s
  }

  predicate Distinct(s: seq<nat>) {
    forall i, j :: 0 <= i < j < |s| ==> s[i] != s[j]
  }

  lemma WithoutSet(s: seq<nat>, i: nat)
    requires i < |s| && Distinct(s)
    ensures ToSet(Without(s, i)) == ToSet(s) - {s[i]} && Distinct(Without(s, i))
  {
    var r := Without(s, i);
    forall w | w in ToSet(s) - {s[i]} ensures w in r {
      var j :| 0 <= j < |s| && s[j] == w;
      assert r[if j < i then j else j - 1] == w;
    }
  }

  lemma {:induction false} DistinctSize(s: seq<nat>)
    requires Distinct(s)
    ensures |ToSet(s)| == |s|
  {
    if s != [] {
      var t := s[..|s| - 1];
      DistinctSize(t);
      assert ToSet(s) == ToSet(t) + {s[|s| - 1]};
      assert s[|s| - 1] !in ToSet(t);
    }
  }

  /** Every reader that was not seen empty is still ahead of the cursor in this round. */
  ghost predicate Swept(readers: seq<nat>, next: nat, visited: nat, empty: set<nat>) {
    forall p :: 0 <= p < |readers| ==> readers[p] in empty || Distance(p, next, |readers|) < |readers| - visited
  }

  /** The state of a round: what is known about the readers since the last wait. */
  ghost predicate RoundInv(live: set<nat>, readers: seq<nat>, next: nat, visited: nat, actions: seq<Action>) {
    var round := LiveAtWait(live, actions);
    && Distinct(readers)
    && ToSet(readers) == LiveAfter(live, actions) <= live
    && Disciplined(live, actions)
    && |readers| <= |round|
    && (readers != [] ==> next < |readers| && visited < |round|)
    && PollsSinceWait(actions) == visited + |round| - |readers|
    && Swept(readers, next, visited, EmptySinceWait(actions))
  }

  lemma RoundStart(readers: seq<nat>, next: nat)
    requires Distinct(readers) && (readers != [] ==> next < |readers|)
    ensures RoundInv(ToSet(readers), readers, next, 0, [])
  {
    DistinctSize(readers);
  }

  lemma {:induction false} RoundResult(live: set<nat>, readers: seq<nat>, next: nat, visited: nat, actions: seq<Action>)
    requires RoundInv(live, readers, next, visited, actions)
    ensures Disciplined(live, actions) && ToSet(readers) <= live
  {
  }

  lemma RoundDistinct(live: set<nat>, readers: seq<nat>, next: nat, visited: nat, actions: seq<Action>)
    requires RoundInv(live, readers, next, visited, actions) && readers != []
    ensures Distinct(readers) && Distinct(Without(readers, next))
  {
    WithoutSet(readers, next);
  }

  function Advance(next: nat, n: nat): nat {
    if next + 1 >= n then 0 else next + 1
  }

  lemma {:induction false} AfterRow(live: set<nat>, readers: seq<nat>, next: nat, visited: nat, actions: seq<Action>)
    requires RoundInv(live, readers, next, visited, actions) && readers != []
    ensures Disciplined(live, actions + [Polled(readers[next], SawRow)])
  {
    var after := actions + [Polled(readers[next], SawRow)];
    assert after[..|after| - 1] == actions;
    assert readers[next] in ToSet(readers);
  }

  lemma AfterBlocked(live: set<nat>, readers: seq<nat>, next: nat, visited: nat, actions: seq<Action>)
    requires RoundInv(live, readers, next, visited, actions) && readers != []
    ensures var after := actions + [Polled(readers[next], SawBlocked)];
            if visited + 1 < |readers| then RoundInv(live, readers, Advance(next, |readers|), visited + 1, after)
            else RoundInv(live, readers, Advance(next, |readers|), 0, after + [Waited])
  {
    var after := actions + [Polled(readers[next], SawBlocked)];
    assert after[..|after| - 1] == actions;
    assert readers[next] in ToSet(readers);
    var next' := Advance(next, |readers|);
    assert Swept(readers, next', visited + 1, EmptySinceWait(after));
    if visited + 1 >= |readers| {
      var waited := after + [Waited];
      assert waited[..|waited| - 1] == after;
      forall w | w in ToSet(readers) ensures w in EmptySinceWait(after) {
        var p :| 0 <= p < |readers| && readers[p] == w;
      }
      DistinctSize(readers);
      assert Swept(readers, next', 0, EmptySinceWait(waited));
    }
  }

  lemma AfterDone(live: set<nat>, readers: seq<nat>, next: nat, visited: nat, actions: seq<Action>)
    requires RoundInv(live, readers, next, visited, actions) && readers != []
    ensures var n := |readers| - 1;
            RoundInv(live, Without(readers, next), if n == 0 || next < n then next else 0, visited,
                     actions + [Polled(readers[next], SawDone)])
  {
    var after := actions + [Polled(readers[next], SawDone)];
    assert after[..|after| - 1] == actions;
    assert readers[next] in ToSet(readers);
    WithoutSet(readers, next);
    var readers' := Without(readers, next);
    var next' := if next < |readers'| then next else 0;
    forall p | 0 <= p < |readers'|
      ensures readers'[p] in EmptySinceWait(after) || Distance(p, next', |readers'|) < |readers'| - visited
    {
      assert readers'[p] == readers[if p < next then p else p + 1];
    }
  }

  /** The readers point to queues, and a queue without a reader has nothing left. */
  ghost predicate Covers(readers: seq<nat>, queues: seq<seq<Event>>) {
    && (forall i :: 0 <= i < |readers| ==> readers[i] < |queues|)
    && (forall w :: 0 <= w < |queues| && w !in readers ==> queues[w] == [])
  }

  function Pop(queues: seq<seq<Event>>, w: nat): seq<seq<Event>>
    requires w < |queues| && queues[w] != []
  {
    queues[w := queues[w][1..]]
  }

  lemma CoversReader(readers: seq<nat>, queues: seq<seq<Event>>, i: nat)
    requires Covers(readers, queues) && i < |readers|
    ensures readers[i] < |queues|
  {
  }

  lemma PopKeepsCover(readers: seq<nat>, queues: seq<seq<Event>>, w: nat)
    requires Covers(readers, queues) && w in readers && queues[w] != []
    ensures Covers(readers, Pop(queues, w))
  {
  }

  lemma RemoveKeepsCover(readers: seq<nat>, queues: seq<seq<Event>>, i: nat)
    requires Covers(readers, queues) && i < |readers| && Distinct(readers) && queues[readers[i]] == []
    ensures Covers(Without(readers, i), queues)
  {
    WithoutSet(readers, i);
    forall w | 0 <= w < |queues| && w !in Without(readers, i) ensures queues[w] == [] {
      assert w !in ToSet(readers) - {readers[i]};
      assert w in readers ==> w in ToSet(readers);
    }
  }

  lemma PopBlocked(queues: seq<seq<Event>>, w: nat)
    requires w < |queues| && queues[w] != [] && queues[w][0].Blocked?
    ensures AllRows(Pop(queues, w)) == AllRows(queues)
  {
    assert Rows(queues[w]) == [] + Rows(queues[w][1..]);
    assert forall v :: 0 <= v < |queues| ==> AllRows(Pop(queues, w))[v] == AllRows(queues)[v];
  }

  lemma PopRow(queues: seq<seq<Event>>, w: nat)
    requires w < |queues| && queues[w] != [] && queues[w][0].Row?
    ensures Taken(AllRows(queues), [Tagged(w, queues[w][0].tuple)], AllRows(Pop(queues, w)))
  {
    var batch := [Tagged(w, queues[w][0].tuple)];
    assert batch[..0] == [];
    assert forall v :: Of(batch, v) == if v == w then [queues[w][0].tuple] else [];
  }

  // ---------- which tuple comes next ----------

  /** What the polling loop works on: the live readers, the cursor, and the queues. */
  datatype Poll = Poll(readers: seq<nat>, next: nat, queues: seq<seq<Event>>)

  predicate InRange(p: Poll) {
    && (p.readers == [] || p.next < |p.readers|)
    && forall i :: 0 <= i < |p.readers| ==> p.readers[i] < |p.queues|
  }

  /** The tuple that the reader at the cursor answers with, if it does. */
  function RowAt(p: Poll): Option<Tagged>
    requires InRange(p) && p.readers != []
  {
    var r := p.readers[p.next];
    if p.queues[r] != [] && p.queues[r][0].Row? then Some(Tagged(r, p.queues[r][0].tuple)) else None
  }

  /** One visit: a queue that is done loses its reader, one with a tuple keeps the cursor, an empty one passes it on. */
  function Visit(p: Poll): (q: Poll)
    requires InRange(p) && p.readers != []
    ensures InRange(q)
  {
    var r, n := p.readers[p.next], |p.readers|;
    if p.queues[r] == [] then
      Poll(Without(p.readers, p.next), if n == 1 || p.next < n - 1 then p.next else 0, p.queues)
    else if p.queues[r][0].Row? then Poll(p.readers, p.next, Pop(p.queues, r))
    else Poll(p.readers, Advance(p.next, n), Pop(p.queues, r))
  }

  /** The tuple that the loop returns, and what it leaves behind. */
  ghost function NextRow(p: Poll): (Option<Tagged>, Poll)
    requires InRange(p)
    decreases |p.readers|, Pending(p.queues)
  {
    if p.readers == [] then (None, p)
    else if RowAt(p).Some? then (RowAt(p), Visit(p))
    else
      var r := p.readers[p.next];
      assert p.queues[r] != [] ==> Pending(Visit(p).queues) < Pending(p.queues) by {
        if p.queues[r] != [] { PendingUpdate(p.queues, r); }
      }
      NextRow(Visit(p))
  }

  lemma {:induction false} NextRowVisits(p: Poll)
    requires InRange(p) && p.readers != []
    ensures NextRow(p) == if RowAt(p).Some? then (RowAt(p), Visit(p)) else NextRow(Visit(p))
  {
  }

  lemma {:induction false} NextRowEnds(p: Poll)
    requires p.readers == []
    ensures InRange(p) && NextRow(p) == (None, p)
  {
  }

  class PostgresTableReader {
    var workerReaders: array?<nat>
    var nreaders: nat
    var nextReader: nat
    var cleanedUp: bool
    /** The tuple queues that the workers fill; poll answers are consumed from the front. */
    var queues: seq<seq<Event>>
    ghost var actions: seq<Action>

    /** The readers that are not yet done. */
    ghost function Live(): seq<nat>
      requires workerReaders != null ==> nreaders <= workerReaders.Length
      reads this, workerReaders
    {
      if workerReaders == null then [] else workerReaders[..nreaders]
    }

    ghost predicate Valid()
      reads this, workerReaders
    {
      && (workerReaders == null ==> nreaders == 0)
      && (workerReaders != null ==> nreaders <= workerReaders.Length)
      && (if nreaders == 0 then nextReader == 0 else nextReader < nreaders)
      && Distinct(Live())
      && Covers(Live(), queues)
    }

    ghost function View(): Reader
      requires Valid()
      reads this, workerReaders
    {
      Reader(AllRows(queues), ToSet(Live()))
    }

    ghost function PollState(): Poll
      requires Valid()
      reads this, workerReaders
      ensures InRange(PollState())
    {
      Poll(Live(), nextReader, queues)
    }

    /** One reader for each of the launched workers. */
    constructor (queues: seq<seq<Event>>)
      ensures Valid() && !cleanedUp && actions == [] && fresh(workerReaders)
      ensures this.queues == queues && Live() == seq(|queues|, i => i)
    {
      var readers := new nat[|queues|](i => i);
      workerReaders, nreaders, nextReader, cleanedUp := readers, |queues|, 0, false;
      this.queues, actions := queues, [];
      new;
      forall w | 0 <= w < |queues| ensures w in Live() {
        assert Live()[w] == w;
      }
    }

    /** Asks one queue for its next answer without waiting for it. */
    method PollQueue(w: nat) returns (tuple: Option<Tuple>, done: bool)
      requires w < |queues|
      modifies this`queues, this`actions
      ensures done <==> old(queues[w]) == []
      ensures done ==> tuple == None && queues == old(queues) && actions == old(actions) + [Polled(w, SawDone)]
      ensures !done ==> queues == Pop(old(queues), w)
      ensures !done && old(queues[w])[0].Blocked? ==> tuple == None && actions == old(actions) + [Polled(w, SawBlocked)]
      ensures !done && old(queues[w])[0].Row? ==>
                tuple == Some(old(queues[w])[0].tuple) && actions == old(actions) + [Polled(w, SawRow)]
    {
      if queues[w] == [] {
        actions := actions + [Polled(w, SawDone)];
        return None, true;
      }
      var event := queues[w][0];
      queues := queues[w := queues[w][1..]];
      done := false;
      match event
      case Blocked =>
        tuple := None;
        actions := actions + [Polled(w, SawBlocked)];
      case Row(t) =>
        tuple := Some(t);
        actions := actions + [Polled(w, SawRow)];
    }

    /** Takes the reader at the cursor out of the array and moves the later ones down. */
    method RemoveReader()
      requires workerReaders != null && nextReader < nreaders <= workerReaders.Length
      modifies this`nreaders, this`nextReader, workerReaders
      ensures nreaders == old(nreaders) - 1
      ensures nextReader == if nreaders == 0 || old(nextReader) < nreaders then old(nextReader) else 0
      ensures workerReaders[..nreaders] == Without(old(workerReaders[..nreaders]), old(nextReader))
    {
      nreaders := nreaders - 1;
      if nreaders == 0 {
        return;
      }
      forall k | nextReader <= k < nreaders {
        workerReaders[k] := workerReaders[k + 1];
      }
      if nextReader >= nreaders {
        nextReader := 0;
      }
    }

    /** A reader whose queue is done is removed, and the round goes on without it. */
    method DropReader(ghost nvisited: nat, ghost live: set<nat>, ghost past: seq<Action>)
      requires Valid() && nextReader < nreaders && queues[workerReaders[nextReader]] == []
      requires RoundInv(live, Live(), nextReader, nvisited, past)
      modifies this`nreaders, this`nextReader, workerReaders
      ensures Valid() && nreaders == old(nreaders) - 1
      ensures RoundInv(live, Live(), nextReader, nvisited, past + [Polled(old(workerReaders[nextReader]), SawDone)])
      ensures PollState() == Visit(old(PollState()))
    {
      hide RoundInv, Covers, Distinct;
      RoundDistinct(live, Live(), nextReader, nvisited, past);
      AfterDone(live, Live(), nextReader, nvisited, past);
      RemoveKeepsCover(Live(), queues, nextReader);
      RemoveReader();
    }

    /**
     One round of the polling loop: takes the answer of the reader at the cursor, removes that reader
     if its queue is done, and otherwise moves on, waiting once every queue has been seen empty.
     */
    method VisitReader(nvisited: nat, ghost live: set<nat>, ghost past: seq<Action>)
      returns (tuple: Option<Tuple>, visited: nat, ghost worker: nat, ghost acts: seq<Action>)
      requires Valid() && nextReader < nreaders
      requires RoundInv(live, Live(), nextReader, nvisited, past)
      modifies this`nreaders, this`nextReader, this`queues, this`actions, workerReaders
      ensures Valid() && actions == old(actions) + acts
      ensures tuple.Some? ==> Taken(AllRows(old(queues)), [Tagged(worker, tuple.value)], AllRows(queues))
      ensures tuple.Some? ==> Live() == old(Live()) && Disciplined(live, past + acts)
      ensures tuple.None? ==> AllRows(queues) == AllRows(old(queues))
      ensures tuple.None? ==> RoundInv(live, Live(), nextReader, visited, past + acts)
      ensures tuple.None? ==>
                nreaders < old(nreaders) || (nreaders == old(nreaders) && Pending(queues) < Pending(old(queues)))
      ensures PollState() == Visit(old(PollState()))
      ensures RowAt(old(PollState())) == if tuple.Some? then Some(Tagged(worker, tuple.value)) else None
    {
      hide RoundInv, Disciplined, LiveAfter, Covers, Distinct, ToSet, Taken, AllRows, Pending;
      var reader := workerReaders[nextReader];
      ghost var readers := Live();
      CoversReader(readers, queues, nextReader);
      RoundDistinct(live, readers, nextReader, nvisited, past);
      worker, visited := reader, nvisited;
      var readerDone;
      tuple, readerDone := PollQueue(reader);
      if readerDone {
        acts := [Polled(reader, SawDone)];
        DropReader(nvisited, live, past);
        return;
      }
      PendingUpdate(old(queues), reader);
      PopKeepsCover(readers, old(queues), reader);
      if tuple.Some? {
        AfterRow(live, readers, nextReader, nvisited, past);
        PopRow(old(queues), reader);
        acts := [Polled(reader, SawRow)];
        return;
      }
      PopBlocked(old(queues), reader);
      AfterBlocked(live, readers, nextReader, nvisited, past);
      ghost var waits;
      visited, waits := MoveOn(nvisited);
      acts := [Polled(reader, SawBlocked)] + waits;
      assert waits == [] ==> past + acts == past + [Polled(reader, SawBlocked)];
      assert waits == [Waited] ==> past + acts == past + [Polled(reader, SawBlocked)] + [Waited];
    }

    /** Moves the cursor to the next reader, and waits when the round has seen every reader. */
    method MoveOn(nvisited: nat) returns (visited: nat, ghost waits: seq<Action>)
      requires nextReader < nreaders
      modifies this`nextReader, this`actions
      ensures nextReader == Advance(old(nextReader), nreaders) && actions == old(actions) + waits
      ensures waits == if nvisited + 1 >= nreaders then [Waited] else []
      ensures visited == if nvisited + 1 >= nreaders then 0 else nvisited + 1
    {
      nextReader := nextReader + 1;
      if nextReader >= nreaders {
        nextReader := 0;
      }
      visited, waits := nvisited + 1, [];
      if visited >= nreaders {
        actions, waits := actions + [Waited], [Waited];
        visited := 0;
      }
    }

    /**
     The next tuple of any worker, waiting for one if need be; nothing when every queue is done.
     The tuple comes from the front of some worker's queue, no other queue loses a tuple, and the
     waits on the way are disciplined.  Which tuple it is depends on the answers and the cursor only.
     */
    method GetNextWorkerTuple() returns (tuple: Option<Tuple>, ghost worker: nat)
      requires Valid()
      modifies this`nreaders, this`nextReader, this`queues, this`actions, workerReaders
      ensures Valid() && ToSet(Live()) <= old(ToSet(Live()))
      ensures tuple.Some? ==> Taken(AllRows(old(queues)), [Tagged(worker, tuple.value)], AllRows(queues))
      ensures tuple.None? ==> nreaders == 0 && AllRows(queues) == AllRows(old(queues))
      ensures old(actions) <= actions && Disciplined(old(ToSet(Live())), actions[|old(actions)|..])
      ensures NextRow(old(PollState())) ==
                (if tuple.Some? then Some(Tagged(worker, tuple.value)) else None, PollState())
    {
      hide RoundInv, Disciplined, LiveAfter, Covers, Distinct, ToSet, Taken, AllRows, Pending, Visit, RowAt, NextRow;
      ghost var start := PollState();
      ghost var live, past := ToSet(Live()), [];
      tuple, worker := None, 0;
      var nvisited := 0;
      RoundStart(Live(), nextReader);
      while nextReader < nreaders
        invariant Valid() && tuple == None
        invariant AllRows(queues) == AllRows(old(queues))
        invariant actions == old(actions) + past
        invariant RoundInv(live, Live(), nextReader, nvisited, past)
        invariant NextRow(PollState()) == NextRow(start)
        decreases nreaders, Pending(queues)
      {
        NextRowVisits(PollState());
        RoundResult(live, Live(), nextReader, nvisited, past);
        ghost var acts;
        tuple, nvisited, worker, acts := VisitReader(nvisited, live, past);
        past := past + acts;
        if tuple.Some? {
          assert actions[|old(actions)|..] == past;
          return;
        }
      }
      RoundResult(live, Live(), nextReader, nvisited, past);
      NextRowEnds(PollState());
      assert actions[|old(actions)|..] == past;
    }

    /** A batch of tuples, copied out of the workers' queues; short only when every queue is done. */
    method GetNextMinimalWorkerTuples(buffers: array<Tuple>, max: nat) returns (count: nat, ghost batch: seq<Tagged>)
      requires Valid() && max <= buffers.Length
      modifies this`nreaders, this`nextReader, this`queues, this`actions, workerReaders, buffers
      ensures Valid() && count == |batch| <= max
      ensures forall i :: 0 <= i < count ==> buffers[i] == batch[i].tuple
      ensures BatchRead(old(View()), batch, View(), max)
      ensures forall i :: max <= i < buffers.Length ==> buffers[i] == old(buffers[i])
    {
      hide Taken, AllRows, NextRow, Visit, RowAt, Disciplined, LiveAfter, Pending, Distinct;
      ghost var live := ToSet(Live());
      count, batch := 0, [];
      TakenNothing(AllRows(queues));
      while count < max
        invariant Valid() && count == |batch| <= max
        invariant ToSet(Live()) <= live
        invariant Taken(AllRows(old(queues)), batch, AllRows(queues))
        invariant forall i :: 0 <= i < count ==> buffers[i] == batch[i].tuple
        invariant forall i :: max <= i < buffers.Length ==> buffers[i] == old(buffers[i])
      {
        ghost var rows := AllRows(queues);
        ghost var worker;
        var tuple;
        tuple, worker := GetNextWorkerTuple();
        if tuple.None? {
          buffers[count] := [];
          break;
        }
        TakenConcat(AllRows(old(queues)), batch, rows, [Tagged(worker, tuple.value)], AllRows(queues));
        buffers[count] := tuple.value;
        batch := batch + [Tagged(worker, tuple.value)];
        count := count + 1;
      }
      DoneIsEmpty(Live(), queues);
    }

    /** Frees the array of readers.  Later calls are harmless exactly when no reader was left. */
    method Cleanup()
      requires Valid() && !cleanedUp
      modifies this`cleanedUp, this`workerReaders
      ensures cleanedUp && workerReaders == null
      ensures Valid() <==> old(nreaders) == 0
    {
      cleanedUp := true;
      DoneIsEmpty(Live(), queues);
      workerReaders := null;
    }
  }

  lemma TakenNothing(rows: seq<seq<Tuple>>)
    ensures Taken(rows, [], rows)
  {
  }

  lemma DoneIsEmpty(readers: seq<nat>, queues: seq<seq<Event>>)
    requires Covers(readers, queues)
    ensures forall w :: 0 <= w < |queues| && w !in ToSet(readers) ==> AllRows(queues)[w] == []
  {
  }
}
