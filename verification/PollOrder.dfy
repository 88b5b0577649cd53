/**
 Which orders the polling loop of libpgduckdb/scan/postgres_table_reader.cpp can return tuples in: for
 every interleaving of the workers' streams there are answers of their queues that lead to it.
 */
module PollOrder {
  import opened Basics
  import opened TupleStreams
  import opened TableReader

  function Everyone(n: nat): (readers: seq<nat>)
    ensures |readers| == n && forall i :: 0 <= i < n ==> readers[i] == i
  {
    seq(n, i => i)
  }

  /** The visits from the cursor round to a reader. */
  function Steps(next: nat, target: nat, n: nat): int {
    if next <= target then target - next else n - next + target
  }

  /** Answers under which the loop passes from the cursor to `target` and returns its tuple there. */
  function Passing(queues: seq<seq<Event>>, next: nat, target: nat, tuple: Tuple): (r: seq<seq<Event>>)
    requires next < |queues| && target < |queues|
    ensures |r| == |queues|
    decreases Steps(next, target, |queues|)
  {
    if next == target then queues[target := [Row(tuple)] + queues[target]]
    else
      var rest := Passing(queues, Advance(next, |queues|), target, tuple);
      rest[next := [Blocked] + rest[next]]
  }

  /** Answers under which the loop, from the cursor on, returns the tuples of a batch in its order. */
  function Script(n: nat, batch: seq<Tagged>, next: nat): (queues: seq<seq<Event>>)
    requires (n > 0 ==> next < n) && forall i :: 0 <= i < |batch| ==> batch[i].worker < n
    ensures |queues| == n
  {
    if batch == [] then seq(n, _ => [])
    else Passing(Script(n, batch[1..], batch[0].worker), next, batch[0].worker, batch[0].tuple)
  }

  // ---------- the rows of the answers ----------

  lemma {:induction false} PassingRows(queues: seq<seq<Event>>, next: nat, target: nat, tuple: Tuple, w: nat)
    requires next < |queues| && target < |queues| && w < |queues|
    ensures Rows(Passing(queues, next, target, tuple)[w]) == (if w == target then [tuple] else []) + Rows(queues[w])
    decreases Steps(next, target, |queues|)
  {
    if next != target {
      PassingRows(queues, Advance(next, |queues|), target, tuple, w);
    }
  }

  lemma {:induction false} OfHead(batch: seq<Tagged>, w: nat)
    requires batch != []
    ensures Of(batch, w) == (if batch[0].worker == w then [batch[0].tuple] else []) + Of(batch[1..], w)
  {
    OfConcat([batch[0]], batch[1..], w);
    assert batch == [batch[0]] + batch[1..];
    assert [batch[0]][..0] == [];
  }

  lemma {:induction false} ScriptRows(n: nat, batch: seq<Tagged>, next: nat, w: nat)
    requires next < n && w < n && forall i :: 0 <= i < |batch| ==> batch[i].worker < n
    ensures Rows(Script(n, batch, next)[w]) == Of(batch, w)
  {
    if batch != [] {
      var target := batch[0].worker;
      ScriptRows(n, batch[1..], target, w);
      PassingRows(Script(n, batch[1..], target), next, target, batch[0].tuple, w);
      OfHead(batch, w);
    }
  }

  // ---------- the loop over the answers ----------

  lemma {:induction false} PassingPolls(queues: seq<seq<Event>>, next: nat, target: nat, tuple: Tuple)
    requires next < |queues| && target < |queues|
    ensures var n := |queues|;
            NextRow(Poll(Everyone(n), next, Passing(queues, next, target, tuple))) ==
            (Some(Tagged(target, tuple)), Poll(Everyone(n), target, queues))
    decreases Steps(next, target, |queues|)
  {
    var n := |queues|;
    var p := Poll(Everyone(n), next, Passing(queues, next, target, tuple));
    NextRowVisits(p);
    if next == target {
      assert Pop(p.queues, target) == queues;
    } else {
      var rest := Passing(queues, Advance(next, n), target, tuple);
      assert Pop(p.queues, next) == rest;
      PassingPolls(queues, Advance(next, n), target, tuple);
    }
  }

  /** Calling the loop again and again returns the tuples of the batch, and then none. */
  ghost predicate Returns(p: Poll, batch: seq<Tagged>)
    requires InRange(p)
    decreases batch
  {
    var (row, after) := NextRow(p);
    if batch == [] then row == None
    else row == Some(batch[0]) && InRange(after) && Returns(after, batch[1..])
  }

  lemma {:induction false} EmptyReturnsNone(p: Poll)
    requires InRange(p) && forall i :: 0 <= i < |p.readers| ==> p.queues[p.readers[i]] == []
    ensures NextRow(p).0 == None
    decreases |p.readers|
  {
    if p.readers != [] {
      NextRowVisits(p);
      EmptyReturnsNone(Visit(p));
    }
  }

  lemma {:induction false} ScriptReturns(n: nat, batch: seq<Tagged>, next: nat)
    requires (n > 0 ==> next < n) && forall i :: 0 <= i < |batch| ==> batch[i].worker < n
    ensures Returns(Poll(Everyone(n), next, Script(n, batch, next)), batch)
    decreases batch
  {
    if batch == [] {
      EmptyReturnsNone(Poll(Everyone(n), next, Script(n, batch, next)));
    } else {
      var target := batch[0].worker;
      PassingPolls(Script(n, batch[1..], target), next, target, batch[0].tuple);
      ScriptReturns(n, batch[1..], target);
    }
  }

  /** Every order that the streams can be handed over in is one that the polling loop returns. */
  lemma EveryOrderReturned(streams: seq<seq<Tuple>>, batch: seq<Tagged>) returns (queues: seq<seq<Event>>)
    requires Taken(streams, batch, Nothing(|streams|))
    ensures AllRows(queues) == streams
    ensures Returns(Poll(Everyone(|streams|), 0, queues), batch)
  {
    var n := |streams|;
    queues := Script(n, batch, 0);
    forall w | 0 <= w < n ensures AllRows(queues)[w] == streams[w] {
      ScriptRows(n, batch, 0, w);
    }
    ScriptReturns(n, batch, 0);
  }

  // ---------- a reader is drained before the next one is asked ----------

  /** Calling the loop once for each tuple of the batch returns the batch and ends in `q`. */
  ghost predicate ReadsTo(p: Poll, batch: seq<Tagged>, q: Poll)
    requires InRange(p)
    decreases batch
  {
    if batch == [] then p == q
    else
      var (row, after) := NextRow(p);
      row == Some(batch[0]) && InRange(after) && ReadsTo(after, batch[1..], q)
  }

  function Ready(tuples: seq<Tuple>): (events: seq<Event>)
    ensures |events| == |tuples| && forall i :: 0 <= i < |events| ==> events[i] == Row(tuples[i])
  {
    seq(|tuples|, i requires 0 <= i < |tuples| => Row(tuples[i]))
  }

  /** The tuples that a queue has ready are returned one after the other, and the cursor stays with their reader. */
  lemma {:induction false} DrainsReady(p: Poll, tuples: seq<Tuple>, rest: seq<Event>)
    requires InRange(p) && p.readers != []
    requires p.queues[p.readers[p.next]] == Ready(tuples) + rest
    ensures var r := p.readers[p.next]; ReadsTo(p, TagAll(r, tuples), p.(queues := p.queues[r := rest]))
    decreases |tuples|
  {
    var r := p.readers[p.next];
    if tuples == [] {
      assert Ready(tuples) + rest == rest;
      assert p.queues[r := rest] == p.queues;
    } else {
      var after := Poll(p.readers, p.next, Pop(p.queues, r));
      NextRowVisits(p);
      assert after.queues[r] == Ready(tuples[1..]) + rest;
      DrainsReady(after, tuples[1..], rest);
      assert TagAll(r, tuples)[1..] == TagAll(r, tuples[1..]);
      assert after.queues[r := rest] == p.queues[r := rest];
    }
  }
}
