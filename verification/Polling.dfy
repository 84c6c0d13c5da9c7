/**
 The queues between a module and its clients (Flotilla_Module.cpp), one direction at a time. A poll looks at the front
 of the queue, keeps the last entry in it for ever, and delivers a value only if it differs from the one delivered
 before.
 */
module Polling {
  import opened Wrappers

  /** Volatile modules deliver everything; the others skip to the latest value, updates one poll later than commands. */
  datatype Mode = Every | Latest | FirstThenLatest

  datatype Queue<T> = Queue(values: seq<T>, last: T)

  datatype Op<T> = Put(value: T) | Take

  function PutValue<T(==)>(q: Queue<T>, v: T): Queue<T> {
    q.(values := q.values + [v])
  }

  /** The value a poll looks at, and the values it keeps. */
  function Look<T(==)>(mode: Mode, values: seq<T>): (T, seq<T>)
    requires values != []
  {
    var latest := values[|values| - 1];
    match mode
    case Every => (values[0], if |values| > 1 then values[1..] else values)
    case Latest => (latest, [latest])
    case FirstThenLatest => (values[0], if |values| > 1 then [latest] else values)
  }

  function Poll<T(==)>(mode: Mode, q: Queue<T>): (Option<T>, Queue<T>) {
    if q.values == [] then (None, q)
    else
      var (v, rest) := Look(mode, q.values);
      if v == q.last then (None, Queue(rest, q.last)) else (Some(v), Queue(rest, v))
  }

  function Result<T(==)>(mode: Mode, q: Queue<T>): (r: seq<T>)
    ensures |r| <= 1 && Poll(mode, q).1.last == (if r == [] then q.last else r[0]) && q.last !in r
  {
    match Poll(mode, q).0
    case Some(v) => [v]
    case None => []
  }

  function After<T(==)>(mode: Mode, q: Queue<T>, op: Op<T>): Queue<T> {
    match op
    case Put(v) => PutValue(q, v)
    case Take => Poll(mode, q).1
  }

  function Run<T(==)>(mode: Mode, q: Queue<T>, ops: seq<Op<T>>): Queue<T>
    decreases ops
  {
    if ops == [] then q else Run(mode, After(mode, q, ops[0]), ops[1..])
  }

  /** Everything delivered by the polls. */
  function Delivered<T(==)>(mode: Mode, q: Queue<T>, ops: seq<Op<T>>): seq<T>
    decreases ops
  {
    if ops == [] then []
    else
      var now := if ops[0].Take? then Result(mode, q) else [];
      now + Delivered(mode, After(mode, q, ops[0]), ops[1..])
  }

  /** Everything queued. */
  function Queued<T(==)>(ops: seq<Op<T>>): seq<T> {
    if ops == [] then []
    else (if ops[0].Put? then [ops[0].value] else []) + Queued(ops[1..])
  }

  function Takes<T(==)>(n: nat): seq<Op<T>> {
    if n == 0 then [] else [Take] + Takes(n - 1)
  }

  //
  // What is promised
  //

  /** The values that differ from the one before, the first of them from `prev`. */
  function Distinct<T(==)>(prev: T, values: seq<T>): seq<T>
    decreases values
  {
    if values == [] then []
    else if values[0] == prev then Distinct(prev, values[1..])
    else [values[0]] + Distinct(values[0], values[1..])
  }

  predicate Subsequence<T(==)>(a: seq<T>, b: seq<T>) {
    a == [] || (b != [] && ((a[0] == b[0] && Subsequence(a[1..], b[1..])) || Subsequence(a, b[1..])))
  }

  function LastOr<T(==)>(prev: T, values: seq<T>): T {
    if values == [] then prev else values[|values| - 1]
  }

  lemma Assoc<T>(a: seq<T>, b: seq<T>, c: seq<T>)
    ensures a + (b + c) == (a + b) + c
  {
  }

  lemma {:induction false} DistinctConcat<T>(prev: T, a: seq<T>, b: seq<T>)
    ensures Distinct(prev, a + b) == Distinct(prev, a) + Distinct(LastOr(prev, a), b)
    decreases a
  {
    if a == [] {
      assert a + b == b;
    } else {
      assert (a + b)[1..] == a[1..] + b;
      DistinctConcat(a[0], a[1..], b);
      assert LastOr(a[0], a[1..]) == LastOr(prev, a);
      Assoc([a[0]], Distinct(a[0], a[1..]), Distinct(LastOr(prev, a), b));
    }
  }

  /**
   A poll of a volatile module takes one value out of what is still to be delivered, or finds it delivered already.
   */
  lemma EveryPoll<T>(q: Queue<T>)
    ensures var d := Poll(Every, q).1;
      Distinct(q.last, q.values) == Result(Every, q) + Distinct(d.last, d.values)
  {
  }

  lemma EveryPollThen<T>(q: Queue<T>, more: seq<T>)
    ensures var d := Poll(Every, q).1;
      Distinct(q.last, q.values + more) == Result(Every, q) + Distinct(d.last, d.values + more)
  {
    var d := Poll(Every, q).1;
    EveryPoll(q);
    assert LastOr(q.last, q.values) == LastOr(d.last, d.values);
    hide Distinct, Poll, Result, LastOr;
    DistinctConcat(q.last, q.values, more);
    DistinctConcat(d.last, d.values, more);
    Assoc(Result(Every, q), Distinct(d.last, d.values), Distinct(LastOr(d.last, d.values), more));
  }

  /** Runs, one operation at a time. */
  lemma RunStep<T>(mode: Mode, q: Queue<T>, ops: seq<Op<T>>)
    requires ops != []
    ensures Run(mode, q, ops) == Run(mode, After(mode, q, ops[0]), ops[1..])
    ensures ops[0].Take? ==> Queued(ops) == Queued(ops[1..])
    ensures ops[0].Take? ==> Delivered(mode, q, ops) == Result(mode, q) + Delivered(mode, Poll(mode, q).1, ops[1..])
    ensures ops[0].Put? ==> q.values + Queued(ops) == PutValue(q, ops[0].value).values + Queued(ops[1..])
    ensures ops[0].Put? ==> Delivered(mode, q, ops) == Delivered(mode, PutValue(q, ops[0].value), ops[1..])
  {
    if ops[0].Take? {
      assert [] + Queued(ops[1..]) == Queued(ops[1..]);
    } else {
      var rest := Delivered(mode, PutValue(q, ops[0].value), ops[1..]);
      assert [] + rest == rest;
      assert q.values + ([ops[0].value] + Queued(ops[1..])) == (q.values + [ops[0].value]) + Queued(ops[1..]);
    }
  }

  /**
   For a volatile module nothing is lost and nothing repeated: at every moment, what was delivered followed by what
   the queue still holds is what was queued, without adjacent duplicates.
   */
  lemma {:induction false} VolatileDelivers<T>(q: Queue<T>, ops: seq<Op<T>>)
    ensures var d := Run(Every, q, ops);
      Distinct(q.last, q.values + Queued(ops)) == Delivered(Every, q, ops) + Distinct(d.last, d.values)
    decreases ops
  {
    if ops == [] {
      assert q.values + Queued(ops) == q.values;
    } else {
      hide Distinct, Poll, Result, Run, Delivered, Queued;
      var next := After(Every, q, ops[0]);
      VolatileDelivers(next, ops[1..]);
      RunStep(Every, q, ops);
      if ops[0].Take? {
        var d := Run(Every, q, ops);
        EveryPollThen(q, Queued(ops[1..]));
        Assoc(Result(Every, q), Delivered(Every, next, ops[1..]), Distinct(d.last, d.values));
      }
    }
  }

  lemma {:induction false} TakesQueueNothing<T>(n: nat)
    ensures Queued(Takes<T>(n)) == []
  {
    if n > 0 {
      assert Takes<T>(n)[1..] == Takes<T>(n - 1);
      TakesQueueNothing<T>(n - 1);
    }
  }

  /** Enough polls leave at most the entry delivered last. */
  lemma {:induction false} TakesLeaveLast<T>(q: Queue<T>, n: nat)
    requires n >= |q.values|
    ensures var d := Run(Every, q, Takes(n)); d.values == [] || d.values == [d.last]
    decreases n
  {
    if n > 0 {
      var next := Poll(Every, q).1;
      assert Takes<T>(n)[1..] == Takes<T>(n - 1);
      if |q.values| > 1 {
        TakesLeaveLast(next, n - 1);
      } else {
        CaughtUp(Every, next, n - 1);
      }
    }
  }

  /** As many polls as there are entries deliver everything queued. */
  lemma VolatileDrains<T>(q: Queue<T>, n: nat)
    requires n >= |q.values|
    ensures Delivered(Every, q, Takes(n)) == Distinct(q.last, q.values)
  {
    VolatileDelivers(q, Takes(n));
    TakesQueueNothing<T>(n);
    TakesLeaveLast(q, n);
    assert q.values + [] == q.values;
    var d := Run(Every, q, Takes(n));
    assert Distinct(d.last, d.values) == [];
    hide Run, Delivered, Takes;
  }

  /** Once the kept entry has been delivered, polls deliver nothing until something else is queued. */
  lemma {:induction false} CaughtUp<T>(mode: Mode, q: Queue<T>, n: nat)
    requires q.values == [] || q.values == [q.last]
    ensures Delivered(mode, q, Takes(n)) == [] && Run(mode, q, Takes(n)) == q
  {
    if n > 0 {
      assert Takes<T>(n)[1..] == Takes<T>(n - 1);
      CaughtUp(mode, q, n - 1);
    }
  }

  lemma {:induction false} DeliveredConcat<T>(mode: Mode, q: Queue<T>, a: seq<Op<T>>, b: seq<Op<T>>)
    ensures Delivered(mode, q, a + b) == Delivered(mode, q, a) + Delivered(mode, Run(mode, q, a), b)
    decreases a
  {
    if a == [] {
      assert a + b == b;
    } else {
      assert (a + b)[1..] == a[1..] + b;
      var next := After(mode, q, a[0]);
      DeliveredConcat(mode, next, a[1..], b);
      RunStep(mode, q, a);
      RunStep(mode, q, a + b);
      Assoc(Result(mode, q), Delivered(mode, next, a[1..]), Delivered(mode, Run(mode, q, a), b));
      hide Delivered, Run, Result, Queued, Poll;
    }
  }

  /** However values and polls were mixed, as many more polls as there are entries complete the delivery. */
  lemma VolatileComplete<T>(q: Queue<T>, ops: seq<Op<T>>, n: nat)
    requires n >= |Run(Every, q, ops).values|
    ensures Delivered(Every, q, ops + Takes(n)) == Distinct(q.last, q.values + Queued(ops))
  {
    hide Run, Delivered, Takes, Distinct, Queued;
    VolatileDelivers(q, ops);
    VolatileDrains(Run(Every, q, ops), n);
    DeliveredConcat(Every, q, ops, Takes(n));
  }

  //
  // Every module
  //

  /** What a poll can still deliver: not the front entry if that was delivered last. */
  function Fresh<T(==)>(q: Queue<T>): seq<T> {
    if q.values != [] && q.values[0] == q.last then q.values[1..] else q.values
  }

  lemma {:induction false} SubsequenceSkip<T>(a: seq<T>, skipped: seq<T>, b: seq<T>)
    requires Subsequence(a, b)
    ensures Subsequence(a, skipped + b)
  {
    if skipped == [] {
      assert skipped + b == b;
    } else {
      SubsequenceSkip(a, skipped[1..], b);
      assert (skipped + b)[1..] == skipped[1..] + b;
    }
  }

  /** A poll delivers at most one of the values still to come, and leaves only values that come after it. */
  lemma PollSplits<T>(mode: Mode, q: Queue<T>) returns (i: nat, j: nat)
    ensures i + |Result(mode, q)| <= j <= |Fresh(q)|
    ensures Result(mode, q) == [] || Result(mode, q) == [Fresh(q)[i]]
    ensures Fresh(Poll(mode, q).1) == Fresh(q)[j..]
  {
    i, j := 0, |Fresh(q)| - |Fresh(Poll(mode, q).1)|;
    if mode == Latest && Result(mode, q) != [] {
      i := |Fresh(q)| - 1;
    }
  }

  lemma PollDelivers<T>(mode: Mode, q: Queue<T>, rest: seq<T>, more: seq<T>)
    requires Subsequence(rest, Fresh(Poll(mode, q).1) + more)
    ensures Subsequence(Result(mode, q) + rest, Fresh(q) + more)
  {
    hide Fresh, Poll, Subsequence, Result;
    var i, j := PollSplits(mode, q);
    var all, left, now := Fresh(q), Fresh(Poll(mode, q).1), Result(mode, q);
    var between := all[i + |now|..j];
    assert all[i..i + |now|] == now;
    SubsequenceSkip(rest, between, left + more);
    SubsequenceCons(now, rest, between + (left + more));
    SubsequenceSkip(now + rest, all[..i], now + (between + (left + more)));
    assert all + more == all[..i] + (now + (between + (left + more)));
  }

  lemma PutDelivers<T>(q: Queue<T>, v: T, rest: seq<T>, more: seq<T>)
    requires Subsequence(rest, Fresh(PutValue(q, v)) + more)
    ensures Subsequence(rest, Fresh(q) + ([v] + more))
  {
    var skipped := FreshPut(q, v, more);
    SubsequenceSkip(rest, skipped, Fresh(PutValue(q, v)) + more);
  }

  /** Whatever the module: what is delivered was queued, in that order. */
  lemma {:induction false} DeliversQueued<T>(mode: Mode, q: Queue<T>, ops: seq<Op<T>>)
    ensures Subsequence(Delivered(mode, q, ops), Fresh(q) + Queued(ops))
    decreases ops
  {
    if ops != [] {
      var next := After(mode, q, ops[0]);
      var rest, more := Delivered(mode, next, ops[1..]), Queued(ops[1..]);
      DeliversQueued(mode, next, ops[1..]);
      if ops[0].Put? {
        PutDelivers(q, ops[0].value, rest, more);
        hide Subsequence, Fresh;
        assert [] + rest == rest && [] + more == more;
      } else {
        PollDelivers(mode, q, rest, more);
        hide Subsequence, Fresh, Poll, Result;
        assert [] + more == more;
      }
    }
  }

  /** Nor is anything ever delivered twice in a row. */
  lemma {:induction false} NeverRepeats<T>(mode: Mode, q: Queue<T>, ops: seq<Op<T>>)
    ensures Distinct(q.last, Delivered(mode, q, ops)) == Delivered(mode, q, ops)
    decreases ops
  {
    if ops != [] {
      var next := After(mode, q, ops[0]);
      NeverRepeats(mode, next, ops[1..]);
      var now, rest := if ops[0].Take? then Result(mode, q) else [], Delivered(mode, next, ops[1..]);
      hide Poll, Result, PutValue;
      assert next.last == if now == [] then q.last else now[0];
      assert Delivered(mode, q, ops) == now + rest;
      if now == [] {
        assert now + rest == rest;
      } else {
        assert (now + rest)[1..] == rest;
      }
    }
  }

  lemma SubsequenceCons<T>(now: seq<T>, a: seq<T>, b: seq<T>)
    requires Subsequence(a, b) && |now| <= 1
    ensures Subsequence(now + a, now + b)
  {
    if now == [] {
      assert now + a == a && now + b == b;
    } else {
      assert (now + a)[1..] == a && (now + b)[1..] == b;
    }
  }

  /** Queueing a value adds it to what is still to come, unless it repeats what was delivered last. */
  lemma FreshPut<T>(q: Queue<T>, v: T, more: seq<T>) returns (skipped: seq<T>)
    ensures Fresh(q) + ([v] + more) == skipped + (Fresh(PutValue(q, v)) + more)
  {
    skipped := if q.values == [] && v == q.last then [v] else [];
    assert (q.values + [v])[1..] == if q.values == [] then [] else q.values[1..] + [v];
  }

  //
  // Modules of which only the latest value matters
  //

  lemma {:induction false} RunConcat<T>(mode: Mode, q: Queue<T>, a: seq<Op<T>>, b: seq<Op<T>>)
    ensures Run(mode, q, a + b) == Run(mode, Run(mode, q, a), b)
    decreases a
  {
    if a == [] {
      assert a + b == b;
    } else {
      assert (a + b)[1..] == a[1..] + b;
      RunConcat(mode, After(mode, q, a[0]), a[1..], b);
    }
  }

  lemma KeepsLast<T>(mode: Mode, none: T, q: Queue<T>, more: seq<T>)
    ensures var d := Poll(mode, q).1;
      && (d.values + more == [] <==> q.values + more == [])
      && LastOr(none, d.values + more) == LastOr(none, q.values + more)
      && d.last == LastOr(q.last, Result(mode, q))
  {
  }

  lemma LastOrConcat<T>(prev: T, a: seq<T>, b: seq<T>)
    ensures LastOr(prev, a + b) == LastOr(LastOr(prev, a), b)
  {
  }

  /** The queue never gives up the latest value; the value delivered last is the one recorded. */
  lemma {:induction false} KeepsLatest<T>(mode: Mode, none: T, q: Queue<T>, ops: seq<Op<T>>)
    ensures var d := Run(mode, q, ops);
      && (d.values == [] <==> q.values + Queued(ops) == [])
      && LastOr(none, d.values) == LastOr(none, q.values + Queued(ops))
      && d.last == LastOr(q.last, Delivered(mode, q, ops))
    decreases ops
  {
    if ops == [] {
      assert q.values + Queued(ops) == q.values;
    } else {
      hide LastOr, Run, Poll, Result, Queued, Delivered;
      KeepsLatest(mode, none, After(mode, q, ops[0]), ops[1..]);
      RunStep(mode, q, ops);
      if ops[0].Take? {
        KeepsLast(mode, none, q, Queued(ops[1..]));
        LastOrConcat(q.last, Result(mode, q), Delivered(mode, Poll(mode, q).1, ops[1..]));
      }
    }
  }

  /** How many polls until the value delivered last is the latest. */
  function CatchUp(mode: Mode): nat {
    if mode == Latest then 1 else 2
  }

  lemma CatchesUp<T>(mode: Mode, none: T, q: Queue<T>)
    requires mode != Every && q.values != []
    ensures Run(mode, q, Takes(CatchUp(mode))).last == LastOr(none, q.values)
  {
    var d := Poll(mode, q).1;
    assert Run(mode, d, []) == d;
    assert Takes<T>(2)[1..] == Takes<T>(1) && Takes<T>(1)[1..] == [];
    assert Run(mode, q, Takes(1)) == d;
    if mode == FirstThenLatest {
      var e := Poll(mode, d).1;
      assert Run(mode, e, []) == e;
      assert Run(mode, d, Takes(1)) == e;
    }
  }

  /**
   However values and polls were mixed, one more poll (two for updates) leaves the latest value queued as the last one
   delivered.
   */
  lemma LatestDelivered<T>(mode: Mode, none: T, q: Queue<T>, ops: seq<Op<T>>)
    requires mode != Every && q.values + Queued(ops) != []
    ensures LastOr(q.last, Delivered(mode, q, ops + Takes(CatchUp(mode)))) == LastOr(none, q.values + Queued(ops))
  {
    KeepsLatest(mode, none, q, ops);
    KeepsLatest(mode, none, q, ops + Takes(CatchUp(mode)));
    RunConcat(mode, q, ops, Takes(CatchUp(mode)));
    CatchesUp(mode, none, Run(mode, q, ops));
  }
}
