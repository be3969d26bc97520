/** `incr_floor` called on one key again and again, among everything else the fleet does. */
module CounterRuns {
  import opened ByteStrings
  import opened Options
  import opened Store
  import opened PlainStore
  import opened CounterFloor

  /** A call, and what happened on the server since the one before. */
  datatype Call = Call(before: seq<Op>, delta: I64, floor: I64, ttl: nat, nowMs: int)

  /** The server when a call's script runs, and what it then does. */
  function Served(db: Db, k: Key, call: Call): (Db, Reply) {
    IncrFloorScript(Run(db, call.before), k, call.delta, call.floor, call.ttl, call.nowMs)
  }

  /** The results of the calls; an error ends the sequence. */
  function Results(db: Db, k: Key, calls: seq<Call>): seq<int>
    decreases |calls|
  {
    if calls == [] then []
    else
      var (db', reply) := Served(db, k, calls[0]);
      if reply.Precondition? then [] else [reply.n] + Results(db', k, calls[1..])
  }

  /** Between the calls nobody else writes the key and it does not expire. Time passes, its
      TTL may be changed, and all else is free. */
  ghost predicate Undisturbed(db: Db, k: Key, calls: seq<Call>)
    decreases |calls|
  {
    calls == [] ||
    (&& (forall i :: 0 <= i < |calls[0].before| ==> Spares(calls[0].before[i], k))
     && (db.Live(k) ==> Run(db, calls[0].before).Live(k))
     && Undisturbed(Served(db, k, calls[0]).0, k, calls[1..]))
  }

  lemma {:induction false} StaysAbsent(db: Db, ops: seq<Op>, k: Key)
    requires !db.Live(k) && forall i :: 0 <= i < |ops| ==> Spares(ops[i], k)
    ensures !Run(db, ops).Live(k)
    decreases |ops|
  {
    if ops != [] {
      assert Spares(ops[0], k);
      StaysAbsent(Apply(db, ops[0]).0, ops[1..], k);
    }
  }

  /** The counter stands still between the calls. */
  lemma StandsStill(db: Db, ops: seq<Op>, k: Key)
    requires forall i :: 0 <= i < |ops| ==> Spares(ops[i], k)
    requires db.Live(k) ==> Run(db, ops).Live(k)
    ensures CounterValue(Run(db, ops), k) == CounterValue(db, k)
  {
    if db.Live(k) {
      ReadWhileSpared(db, ops, k);
    } else {
      StaysAbsent(db, ops, k);
    }
  }

  /** One call: its result is above the counter and the floor, and is the counter after. */
  lemma CallRaises(db: Db, k: Key, call: Call)
    requires CounterValue(db, k).Some? && CounterValue(db, k).value >= 0 && call.delta >= 1
    requires forall i :: 0 <= i < |call.before| ==> Spares(call.before[i], k)
    requires db.Live(k) ==> Run(db, call.before).Live(k)
    ensures var (db', reply) := Served(db, k, call);
            reply.Count? ==> CounterValue(db', k) == Some(reply.n) &&
                             reply.n > CounterValue(db, k).value && reply.n > call.floor
  {
    StandsStill(db, call.before, k);
    var at, current := Run(db, call.before), CounterValue(db, k).value;
    AcceptedCallStores(at, k, call.delta, call.floor, call.ttl, call.nowMs);
    if InRange(current, call.delta, call.floor) {
      OperandsAccepted(current, call.delta, call.floor);
      StrictlyAbove(current, call.delta, call.floor);
    }
  }

  /** Successive results on an undisturbed key strictly increase, and each is above its
      own floor. */
  lemma {:induction false} ResultsIncrease(db: Db, k: Key, calls: seq<Call>)
    requires CounterValue(db, k).Some? && CounterValue(db, k).value >= 0
    requires Undisturbed(db, k, calls)
    requires forall i :: 0 <= i < |calls| ==> calls[i].delta >= 1
    ensures |Results(db, k, calls)| <= |calls|
    ensures forall i :: 0 <= i < |Results(db, k, calls)| ==>
              Results(db, k, calls)[i] > CounterValue(db, k).value && Results(db, k, calls)[i] > calls[i].floor
    ensures forall i, j :: 0 <= i < j < |Results(db, k, calls)| ==>
              Results(db, k, calls)[i] < Results(db, k, calls)[j]
    decreases |calls|
  {
    if calls != [] {
      var (db', reply) := Served(db, k, calls[0]);
      CallRaises(db, k, calls[0]);
      if reply.Count? {
        ResultsIncrease(db', k, calls[1..]);
        var rest := Results(db', k, calls[1..]);
        assert Results(db, k, calls) == [reply.n] + rest;
        forall i | 0 <= i < |[reply.n] + rest|
          ensures ([reply.n] + rest)[i] > CounterValue(db, k).value && ([reply.n] + rest)[i] > calls[i].floor
        {
          if i > 0 {
            assert calls[1..][i - 1] == calls[i];
          }
        }
      }
    }
  }
}
