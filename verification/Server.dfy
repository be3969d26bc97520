/** The server as an object the scripts change in place, statement by statement as the Lua
    of `src/state/kv.rs` does, each proved against its function in `Store`; and the sweep
    loop over it. */
module Server {
  import opened ByteStrings
  import opened Options
  import opened Store
  import opened Coverage
  import opened CounterFloor
  import opened Doubles

  const SWEEP_BATCH: nat := 1000

  /** The keys the expiry index says are due at `nowMs`. */
  function Due(db: Db, nowMs: int): set<Key> {
    set k | k in db.scores && db.scores[k] <= nowMs
  }

  /** Those of them with exactly 0 ms left. */
  function AtZero(db: Db, nowMs: int): set<Key> {
    set k | k in Due(db, nowMs) && db.Pttl(k) == 0
  }

  predicate Distinct(keys: seq<Key>) {
    forall i, j :: 0 <= i < j < |keys| ==> keys[i] != keys[j]
  }

  class Redis {
    var data: map<Key, Cell>
    var index: set<Key>
    var scores: map<Key, int>
    var marked: bool
    var now: int

    function State(): Db
      reads this
    {
      Db(data, index, scores, marked, now)
    }

    constructor (db: Db)
      ensures State() == db
    {
      data, index, scores, marked, now := db.data, db.index, db.scores, db.marked, db.now;
    }

    /** Any step of any other client. */
    method Interfere(op: Op)
      modifies this
      ensures State() == Apply(old(State()), op).0
    {
      var db := Apply(State(), op).0;
      data, index, scores, marked, now := db.data, db.index, db.scores, db.marked, db.now;
    }

    method Set(k: Key, v: Value, ttl: nat, nowMs: int, nx: bool) returns (stored: int)
      modifies this
      ensures (State(), Count(stored)) == SetScript(old(State()), k, v, ttl, nowMs, nx)
    {
      if nx {
        if State().Live(k) {
          return 0;
        }
        if ttl > 0 {
          data := data[k := Cell(v, Some(now + ttl))];
        } else {
          data := data[k := Cell(v, None)];
        }
      } else if ttl > 0 {
        data := data[k := Cell(v, Some(now + ttl))];
      } else {
        data := data[k := Cell(v, None)];
      }
      if ttl > 0 {
        scores := scores[k := nowMs + ttl];
      } else {
        scores := scores - {k};
      }
      index := index + {k};
      return 1;
    }

    method Del(k: Key) returns (n: int)
      modifies this
      ensures (State(), Count(n)) == DelScript(old(State()), k)
    {
      n := if State().Live(k) then 1 else 0;
      data := data - {k};
      index := index - {k};
      scores := scores - {k};
    }

    method Expire(k: Key, ttl: nat, nowMs: int) returns (updated: int)
      modifies this
      ensures (State(), Count(updated)) == ExpireScript(old(State()), k, ttl, nowMs)
    {
      if !State().Live(k) {
        return 0;
      }
      if ttl > 0 {
        data := data[k := data[k].(expiry := Some(now + ttl))];
        scores := scores[k := nowMs + ttl];
      } else {
        data := data[k := data[k].(expiry := None)];
        scores := scores - {k};
      }
      index := index + {k};
      return 1;
    }

    method Incr(k: Key, delta: int, ttl: nat, nowMs: int) returns (reply: Reply)
      modifies this
      ensures (State(), reply) == IncrScript(old(State()), k, delta, ttl, nowMs)
    {
      var cell := IncrBy(State(), k, delta);
      if cell.None? {
        return Precondition;
      }
      data := data[k := cell.value];
      if ttl > 0 {
        data := data[k := cell.value.(expiry := Some(now + ttl))];
        assert data == old(data)[k := cell.value.(expiry := Some(now + ttl))];
        scores := scores[k := nowMs + ttl];
      }
      index := index + {k};
      return Count(cell.value.value.n);
    }

    /** The script in its own steps, for a counter that holds (or counts from) `current`. */
    method RaiseCounter(k: Key, current: I64, delta: I64, floor: I64, ttl: nat, nowMs: int) returns (reply: Reply)
      requires CounterValue(State(), k) == Some(current)
      modifies this
      ensures (State(), reply) == IncrFloorScript(old(State()), k, delta, floor, ttl, nowMs)
    {
      var c, d, f := Round(current), Round(delta), Round(floor);
      if Abs(c) >= EXACT || Abs(f) >= EXACT || Abs(d) >= EXACT {
        return Precondition;
      }
      var base := c;
      if base < f {
        base := f;
      }
      reply := Incr(k, Round(Round(base - c) + d), ttl, nowMs);
    }

    /** The counter ends at `max(current, floor) + delta` exactly when the sums meet
        `ExactStep`, and for a positive delta above both except in one family of negative
        counters; an operand of 2^53 or more, or a value that is no integer, changes nothing. */
    method IncrFloor(k: Key, delta: I64, floor: I64, ttl: nat, nowMs: int) returns (reply: Reply)
      modifies this
      ensures (State(), reply) == IncrFloorScript(old(State()), k, delta, floor, ttl, nowMs)
      ensures FloorOutcome(old(State()), State(), reply, k, delta, floor)
    {
      OutcomeOfFloor(State(), k, delta, floor, ttl, nowMs);
      var current: I64 := 0;
      if State().Live(k) {
        if data[k].value.Blob? {
          return Precondition;
        }
        current := data[k].value.n;
      }
      reply := RaiseCounter(k, current, delta, floor, ttl, nowMs);
    }

    method PruneBatch(keys: seq<Key>) returns (n: nat)
      modifies this
      ensures (State(), Count(n)) == PruneScript(old(State()), keys)
    {
      ghost var was := State();
      n := 0;
      for i := 0 to |keys|
        invariant State() == Forget(was, Elements(keys[..i]))
        invariant n == CountGone(was, keys[..i])
      {
        var k := keys[i];
        OneMore(was, keys, i);
        ForgetOneMore(was, Elements(keys[..i]), k);
        if !State().Live(k) {
          index := index - {k};
          scores := scores - {k};
          n := n + 1;
        }
      }
      assert keys[..|keys|] == keys;
    }

    method SettleOne(k: Key, nowMs: int) returns (gone: nat)
      modifies this
      ensures State() == SettleKey(old(State()), k, nowMs)
      ensures gone == if old(State()).Live(k) then 0 else 1
    {
      gone := 0;
      var pttl := State().Pttl(k);
      if pttl == -2 {
        index := index - {k};
        scores := scores - {k};
        gone := 1;
      } else if pttl == -1 {
        scores := scores - {k};
      } else {
        scores := scores[k := nowMs + pttl];
      }
    }

    method SweepBatch(keys: seq<Key>, nowMs: int) returns (gone: nat)
      modifies this
      ensures (State(), Count(gone)) == SweepScript(old(State()), keys, nowMs)
    {
      ghost var was := State();
      SettleNothing(was, nowMs);
      gone := 0;
      for i := 0 to |keys|
        invariant State() == Settle(was, Elements(keys[..i]), nowMs)
        invariant gone == CountGone(was, keys[..i])
      {
        OneMore(was, keys, i);
        SettleNext(was, Elements(keys[..i]), keys[i], nowMs);
        var n := SettleOne(keys[i], nowMs);
        gone := gone + n;
      }
      assert keys[..|keys|] == keys;
    }

    method AdoptOne(k: Key, nowMs: int) returns (n: nat)
      modifies this
      ensures State() == AdoptKey(old(State()), k, nowMs)
      ensures n == if old(State()).Live(k) then 1 else 0
    {
      n := 0;
      var pttl := State().Pttl(k);
      if pttl != -2 {
        index := index + {k};
        if pttl > 0 {
          scores := scores[k := nowMs + pttl];
        }
        n := 1;
      }
    }

    method BackfillBatch(keys: seq<Key>, nowMs: int) returns (n: nat)
      modifies this
      ensures (State(), Count(n)) == BackfillScript(old(State()), keys, nowMs)
    {
      ghost var was := State();
      AdoptNothing(was, nowMs);
      n := 0;
      for i := 0 to |keys|
        invariant State() == Adopt(was, Elements(keys[..i]), nowMs)
        invariant n == i - CountGone(was, keys[..i])
      {
        OneMore(was, keys, i);
        AdoptNext(was, Elements(keys[..i]), keys[i], nowMs);
        var one := AdoptOne(keys[i], nowMs);
        n := n + one;
      }
      assert keys[..|keys|] == keys;
    }

    /** `ZRANGEBYSCORE -inf nowMs LIMIT 0 1000`: some due keys, a full batch if there are
        that many. */
    method DueBatch(nowMs: int) returns (due: seq<Key>)
      ensures Distinct(due)
      ensures forall k :: k in due ==> k in Due(State(), nowMs)
      ensures |due| == if |Due(State(), nowMs)| < SWEEP_BATCH then |Due(State(), nowMs)| else SWEEP_BATCH
      ensures |due| < SWEEP_BATCH ==> Due(State(), nowMs) == Elements(due)
    {
      var left := Due(State(), nowMs);
      due := [];
      while left != {} && |due| < SWEEP_BATCH
        invariant Distinct(due)
        invariant forall k :: k in due ==> k !in left
        invariant Due(State(), nowMs) == left + Elements(due)
        invariant |due| + |left| == |Due(State(), nowMs)|
        invariant |due| <= SWEEP_BATCH
      {
        var k :| k in left;
        left := left - {k};
        due := due + [k];
      }
    }

    /** One round of the sweep loop: read a batch of due keys and settle it. */
    method SweepRound(nowMs: int) returns (found: nat, removed: nat, ghost batch: set<Key>)
      modifies this
      ensures State() == Settle(old(State()), batch, nowMs)
      ensures batch <= Due(old(State()), nowMs) && found == |batch|
      ensures found < SWEEP_BATCH ==> batch == Due(old(State()), nowMs)
      ensures removed == |Gone(old(State()), batch)|
    {
      var due := DueBatch(nowMs);
      batch := Elements(due);
      found := |due|;
      DistinctSize(due);
      CountGoneDistinct(State(), due);
      removed := SweepBatch(due, nowMs);
    }

    /** `sweep` while the clocks stand still. A due key with exactly 0 ms left is re-scored
        at `nowMs` itself and stays due, so the loop needs that there is no full batch of
        them; `SweepNeverEnds` shows that with one it does not end. */
    method Sweep(nowMs: int) returns (gone: nat)
      requires |AtZero(State(), nowMs)| < SWEEP_BATCH
      modifies this
      ensures State() == Settle(old(State()), Due(old(State()), nowMs), nowMs)
      ensures Due(State(), nowMs) == AtZero(old(State()), nowMs)
      ensures gone == |Gone(old(State()), Due(old(State()), nowMs))|
    {
      ghost var was, settled := State(), {};
      SettleNothing(was, nowMs);
      gone := 0;
      while true
        invariant State() == Settle(was, settled, nowMs)
        invariant settled <= Due(was, nowMs)
        invariant gone == |Gone(was, settled)|
        decreases Left(was, settled, nowMs)
      {
        var found, removed, batch := SweepRound(nowMs);
        AfterRound(was, settled, batch, nowMs);
        gone := gone + removed;
        settled := settled + batch;
        if found < SWEEP_BATCH {
          return;
        }
      }
    }
  }

  // ---- Facts about settling ----

  lemma SettleNothing(db: Db, nowMs: int)
    ensures Settle(db, {}, nowMs) == db
  {
    assert Settle(db, {}, nowMs).scores == db.scores;
  }

  lemma AdoptNothing(db: Db, nowMs: int)
    ensures Adopt(db, {}, nowMs) == db
  {
    assert Adopt(db, {}, nowMs).scores == db.scores;
  }

  lemma OneMore(db: Db, keys: seq<Key>, i: nat)
    requires i < |keys|
    ensures Elements(keys[..i + 1]) == Elements(keys[..i]) + {keys[i]}
    ensures CountGone(db, keys[..i + 1]) == CountGone(db, keys[..i]) + if db.Live(keys[i]) then 0 else 1
  {
    assert keys[..i + 1][..i] == keys[..i];
    assert keys[..i + 1] == keys[..i] + [keys[i]];
  }

  lemma ForgetOneMore(db: Db, done: set<Key>, k: Key)
    ensures var a, b := Forget(db, done), Forget(db, done + {k});
            b == if db.Live(k) then a else a.(index := a.index - {k}, scores := a.scores - {k})
  {
    assert Gone(db, done + {k}) == Gone(db, done) + if db.Live(k) then {} else {k};
  }

  lemma SettleOneMore(db: Db, done: set<Key>, k: Key, nowMs: int)
    ensures Gone(db, done + {k}) == Gone(db, done) + if db.Live(k) then {} else {k}
    ensures SettledScores(db, done + {k}, nowMs) ==
            if db.Pttl(k) >= 0 then SettledScores(db, done, nowMs)[k := nowMs + db.Pttl(k)]
            else SettledScores(db, done, nowMs) - {k}
  {
  }

  lemma AdoptOneMore(db: Db, done: set<Key>, k: Key, nowMs: int)
    ensures Present(db, done + {k}) == Present(db, done) + if db.Live(k) then {k} else {}
    ensures AdoptedScores(db, done + {k}, nowMs) ==
            if db.Pttl(k) > 0 then AdoptedScores(db, done, nowMs)[k := nowMs + db.Pttl(k)]
            else AdoptedScores(db, done, nowMs)
  {
  }

  /** The body of the sweep script's loop. */
  function SettleKey(db: Db, k: Key, nowMs: int): Db {
    db.(index := if db.Live(k) then db.index else db.index - {k},
        scores := if db.Pttl(k) >= 0 then db.scores[k := nowMs + db.Pttl(k)] else db.scores - {k})
  }

  /** The body of the backfill script's loop. */
  function AdoptKey(db: Db, k: Key, nowMs: int): Db {
    db.(index := if db.Live(k) then db.index + {k} else db.index,
        scores := if db.Pttl(k) > 0 then db.scores[k := nowMs + db.Pttl(k)] else db.scores)
  }

  lemma SettleNext(db: Db, done: set<Key>, k: Key, nowMs: int)
    ensures Settle(db, done + {k}, nowMs) == SettleKey(Settle(db, done, nowMs), k, nowMs)
    ensures Settle(db, done, nowMs).Live(k) <==> db.Live(k)
  {
    SettleOneMore(db, done, k, nowMs);
    assert db.index - (Gone(db, done) + {k}) == db.index - Gone(db, done) - {k};
  }

  lemma AdoptNext(db: Db, done: set<Key>, k: Key, nowMs: int)
    ensures Adopt(db, done + {k}, nowMs) == AdoptKey(Adopt(db, done, nowMs), k, nowMs)
    ensures Adopt(db, done, nowMs).Live(k) <==> db.Live(k)
  {
    AdoptOneMore(db, done, k, nowMs);
    assert db.index + (Present(db, done) + {k}) == db.index + Present(db, done) + {k};
  }

  lemma SettleTwice(db: Db, first: set<Key>, second: set<Key>, nowMs: int)
    ensures Settle(Settle(db, first, nowMs), second, nowMs) == Settle(db, first + second, nowMs)
  {
    var mid := Settle(db, first, nowMs);
    assert Gone(mid, second) == Gone(db, second);
    assert Gone(db, first + second) == Gone(db, first) + Gone(db, second);
    assert SettledScores(mid, second, nowMs) == SettledScores(db, first + second, nowMs);
  }

  /** Each settled key leaves the due set, unless it has exactly 0 ms left. */
  lemma DueAfterSettling(db: Db, settled: set<Key>, nowMs: int)
    requires settled <= Due(db, nowMs)
    ensures Due(Settle(db, settled, nowMs), nowMs) == Due(db, nowMs) - (settled - AtZero(db, nowMs))
  {
  }

  /** How many due keys the sweep can still settle for good. */
  ghost function Left(db: Db, settled: set<Key>, nowMs: int): nat {
    |Due(db, nowMs) - AtZero(db, nowMs) - settled|
  }

  /** A full batch holds a key that leaves the due set, when those at 0 ms do not fill it. */
  lemma FullBatchProgresses(db: Db, settled: set<Key>, batch: set<Key>, nowMs: int)
    requires settled <= Due(db, nowMs) && batch <= Due(db, nowMs) - (settled - AtZero(db, nowMs))
    requires |AtZero(db, nowMs)| < SWEEP_BATCH <= |batch|
    ensures Left(db, settled + batch, nowMs) < Left(db, settled, nowMs)
  {
    var zero := AtZero(db, nowMs);
    if batch <= zero {
      SubsetSize(batch, zero);
      assert false;
    }
    var k :| k in batch && k !in zero;
    var before, after := Due(db, nowMs) - zero - settled, Due(db, nowMs) - zero - (settled + batch);
    assert k in before;
    SubsetSize(after, before - {k});
  }

  /** One round of the sweep loop: it adds its batch to the settled, a full batch makes
      progress, and one that took all due keys leaves only those at 0 ms due. */
  lemma AfterRound(db: Db, settled: set<Key>, batch: set<Key>, nowMs: int)
    requires |AtZero(db, nowMs)| < SWEEP_BATCH
    requires settled <= Due(db, nowMs) && batch <= Due(Settle(db, settled, nowMs), nowMs)
    ensures Settle(Settle(db, settled, nowMs), batch, nowMs) == Settle(db, settled + batch, nowMs)
    ensures settled + batch <= Due(db, nowMs)
    ensures |Gone(db, settled + batch)| == |Gone(db, settled)| + |Gone(Settle(db, settled, nowMs), batch)|
    ensures |batch| >= SWEEP_BATCH ==> Left(db, settled + batch, nowMs) < Left(db, settled, nowMs)
    ensures batch == Due(Settle(db, settled, nowMs), nowMs) ==>
              settled + batch == Due(db, nowMs) && Due(Settle(db, settled + batch, nowMs), nowMs) == AtZero(db, nowMs)
  {
    DueAfterSettling(db, settled, nowMs);
    SettleMore(db, settled, batch, nowMs);
    DueAfterSettling(db, settled + batch, nowMs);
    if |batch| >= SWEEP_BATCH {
      FullBatchProgresses(db, settled, batch, nowMs);
    }
    if batch == Due(Settle(db, settled, nowMs), nowMs) {
      assert settled + batch == Due(db, nowMs);
      assert Due(db, nowMs) - (Due(db, nowMs) - AtZero(db, nowMs)) == AtZero(db, nowMs);
    }
  }

  lemma SubsetSize(a: set<Key>, b: set<Key>)
    requires a <= b
    ensures |a| <= |b|
  {
    assert b == a + (b - a);
  }

  lemma {:induction false} CountGoneDistinct(db: Db, keys: seq<Key>)
    requires Distinct(keys)
    ensures CountGone(db, keys) == |Gone(db, Elements(keys))|
  {
    if keys != [] {
      var init, last := keys[..|keys| - 1], keys[|keys| - 1];
      CountGoneDistinct(db, init);
      assert keys == init + [last];
      assert Elements(keys) == Elements(init) + {last};
      assert last !in Elements(init);
      SettleOneMore(db, Elements(init), last, 0);
    } else {
      assert Gone(db, Elements(keys)) == {};
    }
  }

  lemma {:induction false} DistinctSize(keys: seq<Key>)
    requires Distinct(keys)
    ensures |Elements(keys)| == |keys|
  {
    if keys != [] {
      var init, last := keys[..|keys| - 1], keys[|keys| - 1];
      DistinctSize(init);
      assert keys == init + [last];
      assert Elements(keys) == Elements(init) + {last};
    }
  }

  /** Settling a further batch of due keys adds up, the count of the gone included. */
  lemma SettleMore(db: Db, settled: set<Key>, batch: set<Key>, nowMs: int)
    requires batch <= Due(db, nowMs) - (settled - AtZero(db, nowMs))
    ensures Settle(Settle(db, settled, nowMs), batch, nowMs) == Settle(db, settled + batch, nowMs)
    ensures |Gone(db, settled + batch)| == |Gone(db, settled)| + |Gone(Settle(db, settled, nowMs), batch)|
  {
    SettleTwice(db, settled, batch, nowMs);
    assert Gone(Settle(db, settled, nowMs), batch) == Gone(db, batch);
    assert Gone(db, settled + batch) == Gone(db, settled) + Gone(db, batch);
    assert Gone(db, settled) !! Gone(db, batch);
  }

  /** Sweep exactness: on one clock, where every live key is indexed and nothing leaked, a
      sweep leaves the key index equal to the live keys. */
  lemma SweepLeavesLiveKeys(db: Db)
    requires Covers(db) && Settleable(db)
    ensures Settle(db, Due(db, db.now), db.now).index == set k | k in db.data && db.Live(k)
  {
    var swept := Settle(db, Due(db, db.now), db.now);
    forall k
      ensures k in swept.index <==> db.Live(k)
    {
    }
  }

  /** What `Found` is for: the entry of a gone key is due at some clock reading if and only
      if it is in the expiry index, and the sweep it is due at drops it. */
  lemma SweepFindsExactly(db: Db, k: Key)
    requires k in db.index && !db.Live(k)
    ensures (exists nowMs :: k in Due(db, nowMs)) <==> Found(db, k)
    ensures forall nowMs :: k in Due(db, nowMs) ==> k !in Settle(db, Due(db, nowMs), nowMs).index
  {
    if Found(db, k) {
      assert k in Due(db, db.scores[k]);
    }
  }

  /** Settling a due key leaves it due exactly when it has 0 ms left. */
  lemma ZeroMsStaysDue(db: Db, k: Key, nowMs: int)
    requires k in Due(db, nowMs)
    ensures k in Due(Settle(db, {k}, nowMs), nowMs) <==> db.Pttl(k) == 0
  {
  }

  /** The state after rounds of the sweep loop that settle these batches. */
  function Rounds(db: Db, batches: seq<set<Key>>, nowMs: int): Db
    decreases |batches|
  {
    if batches == [] then db else Rounds(Settle(db, batches[0], nowMs), batches[1..], nowMs)
  }

  /** The other half of the condition of `Sweep`: with a full batch of due keys at 0 ms, after
      any number of rounds, whichever batches they took, a full batch is due again, and the
      loop goes on. */
  lemma {:induction false} SweepNeverEnds(db: Db, batches: seq<set<Key>>, nowMs: int)
    requires |AtZero(db, nowMs)| >= SWEEP_BATCH
    ensures |Due(Rounds(db, batches, nowMs), nowMs)| >= SWEEP_BATCH
    decreases |batches|
  {
    if batches == [] {
      SubsetSize(AtZero(db, nowMs), Due(db, nowMs));
    } else {
      var db' := Settle(db, batches[0], nowMs);
      SubsetSize(AtZero(db, nowMs), AtZero(db', nowMs));
      SweepNeverEnds(db', batches[1..], nowMs);
    }
  }
}
