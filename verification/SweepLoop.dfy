/** `sweep` among the steps of everyone else, the clocks moving: every round reads its own
    clock, and between a round's read and its script anything may happen. */
module SweepLoop {
  import opened ByteStrings
  import opened Store
  import opened Coverage
  import opened Server
  import opened Backfill

  /** One round of the loop: what others do before the due keys are read, the clock reading,
      and what others do before the script runs. */
  datatype Round = Round(before: seq<Op>, nowMs: int, between: seq<Op>)

  function AtRead(db: Db, round: Round): Db {
    Run(db, round.before)
  }

  function AtScript(db: Db, round: Round): Db {
    Run(AtRead(db, round), round.between)
  }

  /** The state after a round that read this batch; without due keys no script runs. */
  function Swept(db: Db, round: Round, batch: set<Key>): Db {
    if batch == {} then AtRead(db, round) else Settle(AtScript(db, round), batch, round.nowMs)
  }

  /** The state after the rounds that read these batches. */
  function SweptBy(db: Db, rounds: seq<Round>, batches: seq<set<Key>>): Db
    requires |batches| <= |rounds|
    decreases |batches|
  {
    if batches == [] then db
    else
      var n := |batches| - 1;
      Swept(SweptBy(db, rounds, batches[..n]), rounds[n], batches[n])
  }

  /** How many keys the rounds found gone. */
  function GoneOver(db: Db, rounds: seq<Round>, batches: seq<set<Key>>): nat
    requires |batches| <= |rounds|
    decreases |batches|
  {
    if batches == [] then 0
    else
      var n := |batches| - 1;
      GoneOver(db, rounds, batches[..n])
      + |Gone(AtScript(SweptBy(db, rounds, batches[..n]), rounds[n]), batches[n])|
  }

  /** The batch is one `ZRANGEBYSCORE ... LIMIT` may have read. */
  predicate Reads(db: Db, round: Round, batch: set<Key>) {
    && batch <= Due(AtRead(db, round), round.nowMs)
    && (|batch| < SWEEP_BATCH ==> batch == Due(AtRead(db, round), round.nowMs))
  }

  predicate AllRead(db: Db, rounds: seq<Round>, batches: seq<set<Key>>)
    requires |batches| <= |rounds|
    decreases |batches|
  {
    batches == [] ||
    var n := |batches| - 1;
    AllRead(db, rounds, batches[..n]) && Reads(SweptBy(db, rounds, batches[..n]), rounds[n], batches[n])
  }

  /** `sweep`: rounds until one reads less than a full batch. If `rounds` run out before, it
      is still at work. */
  method SweepAmong(server: Redis, rounds: seq<Round>) returns (gone: nat, finished: bool, ghost batches: seq<set<Key>>)
    modifies server
    ensures |batches| <= |rounds| && AllRead(old(server.State()), rounds, batches)
    ensures server.State() == SweptBy(old(server.State()), rounds, batches)
    ensures gone == GoneOver(old(server.State()), rounds, batches)
    ensures finished <==> batches != [] && |batches[|batches| - 1]| < SWEEP_BATCH
    ensures forall i :: 0 <= i < |batches| - 1 ==> |batches[i]| >= SWEEP_BATCH
    ensures !finished ==> |batches| == |rounds|
  {
    gone, finished, batches := 0, false, [];
    var i := 0;
    while i < |rounds| && !finished
      invariant i == |batches| <= |rounds| && AllRead(old(server.State()), rounds, batches)
      invariant server.State() == SweptBy(old(server.State()), rounds, batches)
      invariant gone == GoneOver(old(server.State()), rounds, batches)
      invariant finished <==> batches != [] && |batches[|batches| - 1]| < SWEEP_BATCH
      invariant forall j :: 0 <= j < |batches| - 1 ==> |batches[j]| >= SWEEP_BATCH
      decreases |rounds| - i
    {
      var n, found, batch := OneRound(server, rounds[i]);
      assert (batches + [batch])[..i] == batches;
      gone := gone + n;
      finished := found < SWEEP_BATCH;
      batches := batches + [batch];
      i := i + 1;
    }
  }

  method OneRound(server: Redis, round: Round) returns (removed: nat, found: nat, ghost batch: set<Key>)
    modifies server
    ensures Reads(old(server.State()), round, batch) && found == |batch|
    ensures server.State() == Swept(old(server.State()), round, batch)
    ensures removed == |Gone(AtScript(old(server.State()), round), batch)|
  {
    InterfereAll(server, round.before);
    var due := server.DueBatch(round.nowMs);
    batch := Elements(due);
    found := |due|;
    DistinctSize(due);
    if due == [] {
      return 0, 0, batch;
    }
    InterfereAll(server, round.between);
    assert due[0] in batch;
    CountGoneDistinct(server.State(), due);
    removed := server.SweepBatch(due, round.nowMs);
  }

  // ---- What it keeps, and what it achieves ----

  predicate CurrentBuilds(rounds: seq<Round>) {
    forall i :: 0 <= i < |rounds| ==> Indexed(rounds[i].before) && Indexed(rounds[i].between)
  }

  /** However the clocks move and others step in, a sweep keeps both indexes complete and
      loses no entry. */
  lemma {:induction false} SweepKeeps(db: Db, rounds: seq<Round>, batches: seq<set<Key>>)
    requires |batches| <= |rounds| && CurrentBuilds(rounds)
    ensures Covers(db) ==> Covers(SweptBy(db, rounds, batches))
    ensures CoversExpiry(db) ==> CoversExpiry(SweptBy(db, rounds, batches))
    ensures AllScored(db) ==> AllScored(SweptBy(db, rounds, batches))
    decreases |batches|
  {
    if batches != [] {
      var n := |batches| - 1;
      SweepKeeps(db, rounds, batches[..n]);
      RoundKeeps(SweptBy(db, rounds, batches[..n]), rounds[n], batches[n]);
    }
  }

  lemma RoundKeeps(db: Db, round: Round, batch: set<Key>)
    requires Indexed(round.before) && Indexed(round.between)
    ensures Covers(db) ==> Covers(Swept(db, round, batch))
    ensures CoversExpiry(db) ==> CoversExpiry(Swept(db, round, batch))
    ensures AllScored(db) ==> AllScored(Swept(db, round, batch))
  {
    StepsKeep(db, round.before);
    StepsKeep(AtRead(db, round), round.between);
    SettleKeeps(AtScript(db, round), batch, round.nowMs);
  }

  lemma StepsKeep(db: Db, ops: seq<Op>)
    requires Indexed(ops)
    ensures Covers(db) ==> Covers(Run(db, ops))
    ensures CoversExpiry(db) ==> CoversExpiry(Run(db, ops))
    ensures AllScored(db) ==> AllScored(Run(db, ops))
  {
    RunKeepsCoverage(db, ops);
    if AllScored(db) {
      RunLosesNothing(db, ops);
    }
  }

  lemma SettleKeeps(db: Db, batch: set<Key>, nowMs: int)
    ensures Covers(db) ==> Covers(Settle(db, batch, nowMs))
    ensures CoversExpiry(db) ==> CoversExpiry(Settle(db, batch, nowMs))
    ensures AllScored(db) ==> AllScored(Settle(db, batch, nowMs))
  {
    var db' := Settle(db, batch, nowMs);
    assert forall k :: db'.Live(k) <==> db.Live(k);
    assert forall k :: db'.Pttl(k) == db.Pttl(k);
  }

  /** A finished sweep settled every key due when it last read: of those the key index then
      holds no gone one, and every live one it held. */
  lemma FinishedSweepSettles(db: Db, rounds: seq<Round>, batches: seq<set<Key>>, k: Key)
    requires batches != [] && |batches| <= |rounds| && AllRead(db, rounds, batches)
    requires |batches[|batches| - 1]| < SWEEP_BATCH
    ensures var n := |batches| - 1;
            var last := SweptBy(db, rounds, batches[..n]);
            var end := SweptBy(db, rounds, batches);
            k in Due(AtRead(last, rounds[n]), rounds[n].nowMs) ==>
              (k in end.index <==> k in AtScript(last, rounds[n]).index && AtScript(last, rounds[n]).Live(k))
  {
  }
}
