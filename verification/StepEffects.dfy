/** What one step does to one key's entries in the indexes, whatever state it meets: no
    coverage, no clock and no build is assumed. And what follows for the scores. */
module StepEffects {
  import opened ByteStrings
  import opened Options
  import opened Store
  import opened CounterFloor
  import opened Coverage

  /** The step stored, expired or counted this key, by its answer to the caller. */
  predicate Wrote(db: Db, op: Op, k: Key) {
    match op
    case Put(x, _, _, _, _) => x == k && Apply(db, op).1 == Count(1)
    case Expire(x, _, _) => x == k && Apply(db, op).1 == Count(1)
    case Incr(x, _, _, _) => x == k && Apply(db, op).1.Count?
    case IncrFloor(x, _, _, _, _) => x == k && Apply(db, op).1.Count?
    case _ => false
  }

  /** Exactly when a key is in the key index after a step: a successful write and a backfill
      of a live key put it there, whether or not it was; a delete, and a prune or a sweep of
      a gone key, take it out; nothing else moves it. */
  lemma IndexAfter(db: Db, op: Op, k: Key)
    ensures Wrote(db, op, k) ==> k in Apply(db, op).0.index
    ensures op.Delete? && op.key == k ==> k !in Apply(db, op).0.index
    ensures (op.Prune? || op.Sweep?) && k in op.keys && !db.Live(k) ==> k !in Apply(db, op).0.index
    ensures op.Backfill? && k in op.keys && db.Live(k) ==> k in Apply(db, op).0.index
    ensures (k in Apply(db, op).0.index) != (k in db.index) ==>
              Wrote(db, op, k) || (op.Delete? && op.key == k) ||
              ((op.Prune? || op.Sweep?) && k in op.keys && !db.Live(k)) ||
              (op.Backfill? && k in op.keys && db.Live(k))
  {
  }

  function Score(db: Db, k: Key): Option<int> {
    if k in db.scores then Some(db.scores[k]) else None
  }

  /** Exactly what a key's score is after a step, as a function of the TTL given or found. */
  lemma ScoreAfter(db: Db, op: Op, k: Key)
    ensures var after := Score(Apply(db, op).0, k);
            && (Wrote(db, op, k) && op.ttl > 0 ==> after == Some(op.nowMs + op.ttl))
            && (Wrote(db, op, k) && op.ttl == 0 && (op.Put? || op.Expire?) ==> after == None)
            && (op.Delete? && op.key == k ==> after == None)
            && ((op.Prune? || op.Sweep?) && k in op.keys && db.Pttl(k) == -2 ==> after == None)
            && (op.Sweep? && k in op.keys && db.Pttl(k) == -1 ==> after == None)
            && (op.Sweep? && k in op.keys && db.Pttl(k) >= 0 ==> after == Some(op.nowMs + db.Pttl(k)))
            && (op.Backfill? && k in op.keys && db.Pttl(k) > 0 ==> after == Some(op.nowMs + db.Pttl(k)))
            && (after != Score(db, k) ==>
                  (Wrote(db, op, k) && (op.ttl > 0 || op.Put? || op.Expire?)) ||
                  (op.Delete? && op.key == k) ||
                  (op.Prune? && k in op.keys && db.Pttl(k) == -2) || (op.Sweep? && k in op.keys) ||
                  (op.Backfill? && k in op.keys && db.Pttl(k) > 0))
  {
  }

  /** The mark and the clock move only by the steps that are there to move them. */
  lemma MarkAndClockAfter(db: Db, op: Op)
    ensures Apply(db, op).0.marked == ((db.marked && !op.ClearMark?) || op.SetMark?)
    ensures Apply(db, op).0.now == if op.Elapse? then db.now + op.ms else db.now
  {
  }

  /** An older build's write changes the one data key as it says. */
  lemma OlderWriteAfter(db: Db, k: Key, cell: Option<Cell>, x: Key)
    ensures var data := Apply(db, OlderWrite(k, cell)).0.data;
            && (x == k ==> (x in data <==> cell.Some?) && (cell.Some? ==> data[x] == cell.value))
            && (x != k ==> (x in data <==> x in db.data) && (x in data ==> data[x] == db.data[x]))
  {
  }

  /** `incr` counts exactly when the value is an integer and the sum fits 64 bits. */
  lemma IncrCounts(db: Db, k: Key, delta: I64, ttl: nat, nowMs: int)
    ensures var reply := IncrScript(db, k, delta, ttl, nowMs).1;
            var current := CounterValue(db, k);
            && (reply.Count? <==>
                  (current.Some? && -0x8000_0000_0000_0000 <= current.value + delta < 0x8000_0000_0000_0000))
            && (reply.Count? ==> reply.n == current.value + delta)
  {
  }

  // ---- The counts of the repair scripts ----

  function DeadAt(db: Db, keys: seq<Key>): set<int> {
    set i | 0 <= i < |keys| && !db.Live(keys[i])
  }

  function AliveAt(db: Db, keys: seq<Key>): set<int> {
    set i | 0 <= i < |keys| && db.Live(keys[i])
  }

  lemma OnePositionMore(db: Db, keys: seq<Key>, n: nat)
    requires |keys| == n + 1
    ensures DeadAt(db, keys) == DeadAt(db, keys[..n]) + if db.Live(keys[n]) then {} else {n}
    ensures AliveAt(db, keys) == AliveAt(db, keys[..n]) + if db.Live(keys[n]) then {n} else {}
    ensures n !in DeadAt(db, keys[..n]) && n !in AliveAt(db, keys[..n])
  {
  }

  lemma {:induction false} CountGoneIs(db: Db, keys: seq<Key>)
    ensures CountGone(db, keys) == |DeadAt(db, keys)|
    ensures |keys| - CountGone(db, keys) == |AliveAt(db, keys)|
  {
    if keys == [] {
      assert DeadAt(db, keys) == {} && AliveAt(db, keys) == {};
    } else {
      CountGoneIs(db, keys[..|keys| - 1]);
      OnePositionMore(db, keys, |keys| - 1);
    }
  }

  /** Prune and sweep answer how many of their arguments were gone, backfill how many were
      alive, a repeated key counted as often as it is given. */
  lemma RepairCounts(db: Db, keys: seq<Key>, nowMs: int)
    ensures PruneScript(db, keys).1 == Count(|DeadAt(db, keys)|)
    ensures SweepScript(db, keys, nowMs).1 == Count(|DeadAt(db, keys)|)
    ensures BackfillScript(db, keys, nowMs).1 == Count(|AliveAt(db, keys)|)
  {
    CountGoneIs(db, keys);
  }

  // ---- Scores, under one clock ----

  /** Every live key is scored if and only if it has a TTL, at exactly its expiry. */
  ghost predicate ExactScores(db: Db) {
    forall k :: db.Live(k) ==> ExactScore(db, k)
  }

  predicate ExactScore(db: Db, k: Key)
    requires db.Live(k)
  {
    Score(db, k) == db.data[k].expiry
  }

  /** A counter without a TTL takes over the score an expired key left behind. */
  predicate TakesOver(db: Db, op: Op) {
    (op.Incr? || op.IncrFloor?) && op.ttl == 0 && Apply(db, op).1.Count? &&
    !db.Live(op.key) && op.key in db.scores
  }

  lemma ScoreOfOne(db: Db, op: Op, k: Key)
    requires !op.OlderWrite? && OnClock(db, op) && Apply(db, op).0.Live(k)
    requires db.Live(k) ==> ExactScore(db, k)
    ensures ExactScore(Apply(db, op).0, k) <==> !(TakesOver(db, op) && op.key == k)
  {
  }

  /** On one clock the scores of live keys stay exact, except through that one step. */
  lemma ScoresStayExactIff(db: Db, op: Op)
    requires !op.OlderWrite? && OnClock(db, op) && ExactScores(db)
    ensures ExactScores(Apply(db, op).0) <==> !TakesOver(db, op)
  {
    var db' := Apply(db, op).0;
    forall k | db'.Live(k)
      ensures ExactScore(db', k) <==> !(TakesOver(db, op) && op.key == k)
    {
      ScoreOfOne(db, op, k);
    }
    if TakesOver(db, op) {
      assert db'.Live(op.key);
    }
  }

  /** A live key with a TTL is scored at exactly its expiry; any other score is of the past,
      so that the next sweep finds it. */
  ghost predicate ScoresInOrder(db: Db) {
    forall k :: ScoreInOrder(db, k)
  }

  predicate ScoreInOrder(db: Db, k: Key) {
    if db.Pttl(k) >= 0 then Score(db, k) == Some(db.data[k].expiry.value)
    else Score(db, k).Some? ==> Score(db, k).value < db.now
  }

  lemma StepKeepsOrder(db: Db, op: Op, k: Key)
    requires !op.OlderWrite? && OnClock(db, op) && ScoreInOrder(db, k)
    ensures ScoreInOrder(Apply(db, op).0, k)
  {
  }

  /** Over every run of current builds on one clock. */
  lemma {:induction false} RunKeepsScoresInOrder(db: Db, ops: seq<Op>)
    requires RunOnClock(db, ops) && ScoresInOrder(db)
    ensures ScoresInOrder(Run(db, ops))
    decreases |ops|
  {
    if ops != [] {
      var db' := Apply(db, ops[0]).0;
      forall k
        ensures ScoreInOrder(db', k)
      {
        StepKeepsOrder(db, ops[0], k);
      }
      RunKeepsScoresInOrder(db', ops[1..]);
    }
  }
}
