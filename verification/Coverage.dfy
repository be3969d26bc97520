/** What every step keeps of the two indexes, whatever the replicas' clocks say. */
module Coverage {
  import opened ByteStrings
  import opened Options
  import opened Store
  import opened CounterFloor

  /** Every live data key is in the key index. */
  ghost predicate Covers(db: Db) {
    forall k :: db.Live(k) ==> k in db.index
  }

  /** Every live key with time left on its TTL is in the expiry index. */
  ghost predicate CoversExpiry(db: Db) {
    forall k :: db.Pttl(k) > 0 ==> k in db.scores
  }

  /** How a key can be alive after a step of a current build: it is indexed, or it was
      alive and unindexed before and the step did not backfill it. Prunes and sweeps of
      arbitrary keys, with arbitrary clock readings, are among the steps. */
  lemma LiveAfterStep(db: Db, op: Op, k: Key)
    requires !op.OlderWrite?
    requires Apply(db, op).0.Live(k)
    ensures k in Apply(db, op).0.index ||
            (db.Live(k) && k !in db.index && !(op.Backfill? && k in op.keys))
  {
  }

  lemma StepKeepsCoverage(db: Db, op: Op)
    requires !op.OlderWrite? && Covers(db)
    ensures Covers(Apply(db, op).0)
  {
    forall k | Apply(db, op).0.Live(k)
      ensures k in Apply(db, op).0.index
    {
      LiveAfterStep(db, op, k);
    }
  }

  lemma StepKeepsExpiryCoverage(db: Db, op: Op)
    requires !op.OlderWrite? && CoversExpiry(db)
    ensures CoversExpiry(Apply(db, op).0)
  {
    var db' := Apply(db, op).0;
    forall k | db'.Pttl(k) > 0
      ensures k in db'.scores
    {
      assert db.Pttl(k) > 0 ==> k in db.scores;
    }
  }

  /** Coverage is inductive: no run of current builds, with any interleaving and any
      clock skew, loses a live key from either index. */
  lemma {:induction false} RunKeepsCoverage(db: Db, ops: seq<Op>)
    requires forall i :: 0 <= i < |ops| ==> !ops[i].OlderWrite?
    ensures Covers(db) ==> Covers(Run(db, ops))
    ensures CoversExpiry(db) ==> CoversExpiry(Run(db, ops))
    decreases |ops|
  {
    if ops != [] {
      if Covers(db) {
        StepKeepsCoverage(db, ops[0]);
      }
      if CoversExpiry(db) {
        StepKeepsExpiryCoverage(db, ops[0]);
      }
      RunKeepsCoverage(Apply(db, ops[0]).0, ops[1..]);
    }
  }

  /** However stale the caller's view of `keys`, a prune or a sweep takes no live key out
      of the key index, and no live key with time left out of the expiry index. */
  lemma RepairSparesLiveKeys(db: Db, keys: seq<Key>, nowMs: int, k: Key)
    requires db.Live(k)
    ensures k in PruneScript(db, keys).0.index <==> k in db.index
    ensures k in SweepScript(db, keys, nowMs).0.index <==> k in db.index
    ensures k in PruneScript(db, keys).0.scores <==> k in db.scores
    ensures db.Pttl(k) >= 0 && k in db.scores ==> k in SweepScript(db, keys, nowMs).0.scores
  {
  }

  // ---- No leaked entries, under one clock ----

  /** The step's clock reading is the server's. */
  predicate OnClock(db: Db, op: Op) {
    match op
    case Put(_, _, _, nowMs, _) => nowMs == db.now
    case Expire(_, _, nowMs) => nowMs == db.now
    case Incr(_, _, _, nowMs) => nowMs == db.now
    case IncrFloor(_, _, _, _, nowMs) => nowMs == db.now
    case Sweep(_, nowMs) => nowMs == db.now
    case Backfill(_, nowMs) => nowMs == db.now
    case _ => true
  }

  /** The expiry index holds every live key with a TTL, at a score no later than its
      expiry, and every indexed key that is not alive is due. */
  ghost predicate Settleable(db: Db) {
    && (forall k :: db.Pttl(k) >= 0 ==> k in db.scores && db.scores[k] <= db.now + db.Pttl(k))
    && (forall k :: k in db.index && !db.Live(k) ==> k in db.scores && db.scores[k] <= db.now)
  }

  lemma StepKeepsSettleable(db: Db, op: Op)
    requires !op.OlderWrite? && OnClock(db, op) && Settleable(db)
    ensures Settleable(Apply(db, op).0)
  {
    var db' := Apply(db, op).0;
    forall k
      ensures db'.Pttl(k) >= 0 ==> k in db'.scores && db'.scores[k] <= db'.now + db'.Pttl(k)
      ensures k in db'.index && !db'.Live(k) ==> k in db'.scores && db'.scores[k] <= db'.now
    {
      SettleableKey(db, op, k);
    }
  }

  lemma SettleableKey(db: Db, op: Op, k: Key)
    requires !op.OlderWrite? && OnClock(db, op)
    requires db.Pttl(k) >= 0 ==> k in db.scores && db.scores[k] <= db.now + db.Pttl(k)
    requires k in db.index && !db.Live(k) ==> k in db.scores && db.scores[k] <= db.now
    ensures var db' := Apply(db, op).0;
            && (db'.Pttl(k) >= 0 ==> k in db'.scores && db'.scores[k] <= db'.now + db'.Pttl(k))
            && (k in db'.index && !db'.Live(k) ==> k in db'.scores && db'.scores[k] <= db'.now)
  {
  }

  /** A run whose every step reads the server's clock. */
  ghost predicate RunOnClock(db: Db, ops: seq<Op>)
    decreases |ops|
  {
    ops == [] ||
    (!ops[0].OlderWrite? && OnClock(db, ops[0]) && RunOnClock(Apply(db, ops[0]).0, ops[1..]))
  }

  /** No leaked entries: in every run of current builds on one clock, an index entry is
      alive or already due in the expiry index, so the next sweep finds it. */
  lemma {:induction false} RunLeaksNothing(db: Db, ops: seq<Op>)
    requires RunOnClock(db, ops) && Settleable(db)
    ensures Settleable(Run(db, ops))
    ensures forall k :: k in Run(db, ops).index ==>
              Run(db, ops).Live(k) || (k in Run(db, ops).scores && Run(db, ops).scores[k] <= Run(db, ops).now)
    decreases |ops|
  {
    if ops != [] {
      StepKeepsSettleable(db, ops[0]);
      RunLeaksNothing(Apply(db, ops[0]).0, ops[1..]);
    }
  }

  // ---- Lost entries, under any clocks ----

  /** When the key is gone, some later sweep will find its index entry. */
  predicate Found(db: Db, k: Key) {
    db.Pttl(k) == -1 || k in db.scores
  }

  /** No index entry is lost: each is of a key without a TTL or is in the expiry index. */
  ghost predicate Findable(db: Db) {
    forall k :: k in db.index ==> Found(db, k)
  }

  /** The steps that lose an index entry: a backfill that meets an unscored key at 0 ms, a
      counter step that goes through on a live unscored key and keeps its TTL, whatever is
      left of it, and an older write that gives an indexed, unscored key a TTL or ends it. */
  ghost predicate Loses(db: Db, op: Op) {
    match op
    case Backfill(keys, _) => exists k :: k in keys && db.Pttl(k) == 0 && k !in db.scores
    case Incr(k, delta, ttl, _) => ttl == 0 && db.Live(k) && !Found(db, k) && IncrBy(db, k, delta).Some?
    case IncrFloor(k, delta, floor, ttl, _) =>
      ttl == 0 && db.Live(k) && !Found(db, k) &&
      db.data[k].value.Number? && InRange(db.data[k].value.n, delta, floor)
    case OlderWrite(k, cell) =>
      k in db.index && k !in db.scores && (cell.Some? ==> cell.value.expiry.Some?)
    case _ => false
  }

  /** Whatever the clocks say, a step of any build loses an index entry if and only if it is
      one of these. */
  lemma LosesExactly(db: Db, op: Op)
    requires Findable(db)
    ensures Findable(Apply(db, op).0) <==> !Loses(db, op)
  {
    var db' := Apply(db, op).0;
    if op.IncrFloor? {
      OutcomeOfFloor(db, op.key, op.delta, op.floor, op.ttl, op.nowMs);
    }
    if !Loses(db, op) {
      forall k | k in db'.index
        ensures Found(db', k)
      {
        assert k in db.index ==> Found(db, k);
        StaysFound(db, op, k);
      }
    } else if op.Backfill? {
      var k :| k in op.keys && db.Pttl(k) == 0 && k !in db.scores;
      assert k in db'.index && !Found(db', k);
    } else {
      assert op.key in db'.index && !Found(db', op.key);
    }
  }

  lemma StaysFound(db: Db, op: Op, k: Key)
    requires !Loses(db, op) && k in Apply(db, op).0.index
    requires k in db.index ==> Found(db, k)
    requires op.IncrFloor? ==> FloorOutcome(db, Apply(db, op).0, Apply(db, op).1, op.key, op.delta, op.floor)
    ensures Found(Apply(db, op).0, k)
  {
  }

  /** Every live key with a TTL and every index entry of a gone key is in the expiry index. */
  ghost predicate AllScored(db: Db) {
    forall k :: db.Pttl(k) >= 0 || (k in db.index && !db.Live(k)) ==> k in db.scores
  }

  /** So no run of current builds loses one, whatever their clocks say. */
  lemma {:induction false} RunLosesNothing(db: Db, ops: seq<Op>)
    requires forall i :: 0 <= i < |ops| ==> !ops[i].OlderWrite?
    requires AllScored(db)
    ensures AllScored(Run(db, ops)) && Findable(Run(db, ops))
    decreases |ops|
  {
    if ops != [] {
      StepKeepsScored(db, ops[0]);
      RunLosesNothing(Apply(db, ops[0]).0, ops[1..]);
    }
  }

  lemma StepKeepsScored(db: Db, op: Op)
    requires !op.OlderWrite? && AllScored(db)
    ensures AllScored(Apply(db, op).0)
  {
    var db' := Apply(db, op).0;
    forall k | db'.Pttl(k) >= 0 || (k in db'.index && !db'.Live(k))
      ensures k in db'.scores
    {
      assert db.Pttl(k) >= 0 || (k in db.index && !db.Live(k)) ==> k in db.scores;
    }
  }

  // ---- Late or lost entries, under one clock ----

  /** An indexed key's expiry entry will be due by the time the key is gone. Unlike
      `Settleable` this says nothing of keys an older build wrote and nobody indexed. */
  ghost predicate LeakFree(db: Db) {
    forall k :: k in db.index ==> SettlesInTime(db, k)
  }

  predicate SettlesInTime(db: Db, k: Key) {
    db.Pttl(k) == -1 ||
    (k in db.scores && db.scores[k] <= if db.Live(k) then db.now + db.Pttl(k) else db.now)
  }

  /** The entry an older write leaves for an indexed key is due by the time the key is gone. */
  predicate DueInTime(db: Db, k: Key, cell: Option<Cell>) {
    (cell.Some? && cell.value.expiry.None?) ||
    (k in db.scores &&
     db.scores[k] <= if cell.Some? && cell.value.expiry.value > db.now then cell.value.expiry.value else db.now)
  }

  /** The steps that strand an index entry, so that it is due late or never: a backfill that
      meets a key at 0 ms not scored in time, a counter step that goes through on a live key
      not scored in time and keeps its TTL, and an older write to an indexed key that
      shortens its life, or ends it, behind the expiry index. */
  ghost predicate Strands(db: Db, op: Op) {
    match op
    case Backfill(keys, _) => exists k :: k in keys && db.Pttl(k) == 0 && !SettlesInTime(db, k)
    case Incr(k, delta, ttl, _) =>
      ttl == 0 && db.Live(k) && !SettlesInTime(db, k) && IncrBy(db, k, delta).Some?
    case IncrFloor(k, delta, floor, ttl, _) =>
      ttl == 0 && db.Live(k) && !SettlesInTime(db, k) &&
      db.data[k].value.Number? && InRange(db.data[k].value.n, delta, floor)
    case OlderWrite(k, cell) => k in db.index && !DueInTime(db, k, cell)
    case _ => false
  }

  /** A step on the server's clock, of any build, leaves an index entry that will be due late
      or never if and only if it strands one. */
  lemma LeaksExactlyWhenStranding(db: Db, op: Op)
    requires OnClock(db, op) && LeakFree(db)
    ensures LeakFree(Apply(db, op).0) <==> !Strands(db, op)
  {
    var db' := Apply(db, op).0;
    if op.IncrFloor? {
      OutcomeOfFloor(db, op.key, op.delta, op.floor, op.ttl, op.nowMs);
    }
    if !Strands(db, op) {
      forall k | k in db'.index
        ensures SettlesInTime(db', k)
      {
        assert k in db.index ==> SettlesInTime(db, k);
        StaysInTime(db, op, k);
      }
    } else if op.Backfill? {
      var k :| k in op.keys && db.Pttl(k) == 0 && !SettlesInTime(db, k);
      assert k in db'.index && !SettlesInTime(db', k);
    } else {
      assert op.key in db'.index && !SettlesInTime(db', op.key);
    }
  }

  lemma StaysInTime(db: Db, op: Op, k: Key)
    requires OnClock(db, op) && !Strands(db, op) && k in Apply(db, op).0.index
    requires k in db.index ==> SettlesInTime(db, k)
    requires op.IncrFloor? ==> FloorOutcome(db, Apply(db, op).0, Apply(db, op).1, op.key, op.delta, op.floor)
    ensures SettlesInTime(Apply(db, op).0, k)
  {
  }
}
