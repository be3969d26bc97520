/** `complete_key_index`: a completion that lists the peers before its backfill but not after
    it. When the mark it sets is right, and when it is not. */
module GateCompletion {
  import opened ByteStrings
  import opened Options
  import opened Store
  import opened Coverage
  import opened Backfill
  import opened Gate
  import opened GateLimits
  import opened GateLeave

  /** What `complete_key_index` does when its backfill is over: it listed the peers before
      the backfill, and sets the mark and the flag without listing them again. */
  function CompletedUnchecked(w: World, r: Id): World
    requires r in w.replicas
  {
    Update(SetMarked(w, true), r, w.replicas[r].(ready := true, phase := Idle, quiet := false))
  }

  /** No older node has written since the backfill began: the mark is right. */
  lemma RightWithoutWriters(w: World, r: Id)
    requires Inv(w) && r in w.replicas && Enabled(w, StartRecheck(r)) && w.replicas[r].writers == {}
    ensures Covers(CompletedUnchecked(w, r).db)
  {
    var rep := w.replicas[r];
    assert ReplicaOk(w.db, w.older, rep);
    FillingEnds(w.db, rep.phase.steady, rep.phase.handled);
    assert forall k :: CompletedUnchecked(w, r).db.Live(k) <==> w.db.Live(k);
  }

  /** An older write to a key nothing has indexed leaves it out of the completed index. */
  lemma WriteBehind(w: World, r: Id, node: Node, key: Key)
    requires r in w.replicas && key !in w.db.index
    ensures var w' := Next(w, OlderNodeWrites(node, key, Some(CELL)));
            r in w'.replicas && !Covers(CompletedUnchecked(w', r).db)
  {
    var w' := Next(w, OlderNodeWrites(node, key, Some(CELL)));
    var done := CompletedUnchecked(w', r);
    assert done.db == Apply(w.db, OlderWrite(key, Some(CELL))).0.(marked := true);
    assert done.db.Live(key) && key !in done.db.index;
  }

  /** An older node's write that slips in just before the mark and makes it wrong. */
  ghost predicate Spoils(w: World, r: Id, s: Step)
    requires r in w.replicas
  {
    s.OlderNodeWrites? && MayWrite(w, s.node) && !Covers(CompletedUnchecked(Next(w, s), r).db)
  }

  /** One write an older node may make now is enough to spoil it. */
  lemma WrongAfterAWrite(w: World, r: Id, node: Node)
    requires r in w.replicas && MayWrite(w, node)
    ensures exists s :: Spoils(w, r, s)
  {
    var k := UnusedKey(w.db.index);
    WriteBehind(w, r, node, k);
    assert Spoils(w, r, OlderNodeWrites(node, k, Some(CELL)));
  }

  /** The exact condition, in any state of the protocol at the end of a backfill that no older
      node wrote during: the mark is right now, and right even if one step of an older node
      comes before it, if and only if none may write then. */
  lemma UncheckedExact(w: World, r: Id)
    requires Inv(w) && r in w.replicas && Enabled(w, StartRecheck(r)) && w.replicas[r].writers == {}
    ensures Covers(CompletedUnchecked(w, r).db)
    ensures (forall s :: !Spoils(w, r, s)) <==> forall node :: !MayWrite(w, node)
  {
    RightWithoutWriters(w, r);
    if node :| MayWrite(w, node) {
      WrongAfterAWrite(w, r, node);
    }
  }

  // ---- Over whole backfills ----

  ghost predicate NoOlderWrites(steps: seq<Step>) {
    forall i :: 0 <= i < |steps| ==> !steps[i].OlderNodeWrites?
  }

  ghost predicate Unwitnessed(w: World, r: Id) {
    r in w.replicas && Backfilling(w.replicas[r]) ==> w.replicas[r].writers == {}
  }

  lemma {:induction false} WritersStayEmpty(w: World, steps: seq<Step>, r: Id)
    requires IsRun(w, steps) && NoOlderWrites(steps) && Unwitnessed(w, r)
    ensures Unwitnessed(After(w, steps), r)
    decreases |steps|
  {
    if steps != [] {
      assert Unwitnessed(Next(w, steps[0]), r);
      WritersStayEmpty(Next(w, steps[0]), steps[1..], r);
    }
  }

  /** Over every run, however others interleave: if no older node writes from the start of
      the backfill to the mark, the mark is right. */
  lemma QuietCompletionIsRight(w: World, r: Id, steps: seq<Step>)
    requires Inv(w) && Enabled(w, StartBackfill(r))
    requires IsRun(Next(w, StartBackfill(r)), steps) && NoOlderWrites(steps)
    requires var end := After(Next(w, StartBackfill(r)), steps); r in end.replicas && Enabled(end, StartRecheck(r))
    ensures Covers(CompletedUnchecked(After(Next(w, StartBackfill(r)), steps), r).db)
  {
    var start := Next(w, StartBackfill(r));
    StepKeepsInv(w, StartBackfill(r));
    RunKeepsInv(start, steps);
    WritersStayEmpty(start, steps, r);
    RightWithoutWriters(After(start, steps), r);
  }

  /** The states a backfill begun in `w` can be completed in. */
  ghost predicate Completes(w: World, r: Id, end: World)
    requires Enabled(w, StartBackfill(r))
  {
    Reaches(Next(w, StartBackfill(r)), end) && r in end.replicas && Enabled(end, StartRecheck(r))
  }

  lemma {:induction false} KeysInSomeOrder(keys: set<Key>) returns (order: seq<Key>)
    ensures Elements(order) == keys
  {
    if keys == {} {
      order := [];
      assert Elements(order) == {};
    } else {
      var k :| k in keys;
      var rest := KeysInSomeOrder(keys - {k});
      order := [k] + rest;
      assert Elements(order) == {k} + Elements(rest);
    }
  }

  /** A replica's own step that leaves it calm leaves the others free to write. */
  lemma StillMayWrite(w: World, r: Id, rep: Replica, node: Node)
    requires MayWrite(w, node) && Calm(rep) && !rep.phase.Rechecking?
    ensures MayWrite(Update(w, r, rep), node)
  {
  }

  /** The server replies to the backfill's scan with all keys at once. */
  lemma ScansAtOnce(w: World, r: Id, node: Node) returns (end: World)
    requires Enabled(w, StartBackfill(r)) && MayWrite(w, node)
    ensures Reaches(Next(w, StartBackfill(r)), end) && MayWrite(end, node)
    ensures r in end.replicas && Enabled(end, FillStep(r, 0)) && end.replicas[r].phase.last
  {
    var started := Next(w, StartBackfill(r));
    StillMayWrite(w, r, started.replicas[r], node);
    var steady := LiveKeys(w.db);
    var batch := KeysInSomeOrder(steady);
    assert started.replicas[r].phase == Scanning(steady, {}, None, false);
    end := Next(started, ScanStep(r, batch, true));
    StillMayWrite(started, r, end.replicas[r], node);
    ReachStep(started, ScanStep(r, batch, true), end);
  }

  /** The script for the last reply. */
  lemma FillsAtOnce(w: World, r: Id, node: Node) returns (end: World)
    requires r in w.replicas && Enabled(w, FillStep(r, 0)) && w.replicas[r].phase.last && MayWrite(w, node)
    ensures Reaches(w, end) && MayWrite(end, node)
    ensures r in end.replicas && Enabled(end, StartRecheck(r))
  {
    end := Next(w, FillStep(r, 0));
    var filled := w.(db := end.db);
    assert MayWrite(filled, node);
    assert end == Update(filled, r, end.replicas[r]);
    StillMayWrite(filled, r, end.replicas[r], node);
    ReachStep(w, FillStep(r, 0), end);
  }

  lemma StillAtTheEnd(w: World, r: Id, s: Step)
    requires r in w.replicas && Enabled(w, StartRecheck(r)) && s.OlderNodeWrites?
    ensures r in Next(w, s).replicas && Enabled(Next(w, s), StartRecheck(r))
  {
    var db := Apply(w.db, OlderWrite(s.key, s.cell)).0;
    assert Next(w, s).replicas[r] == Remember(Observe(w.replicas[r], db), s.node);
  }

  /** The backfill over, an older node writes a key nothing has indexed. */
  lemma LateWrite(w: World, r: Id, node: Node) returns (end: World)
    requires r in w.replicas && Enabled(w, StartRecheck(r)) && MayWrite(w, node)
    ensures Reaches(w, end) && r in end.replicas && Enabled(end, StartRecheck(r))
    ensures !Covers(CompletedUnchecked(end, r).db)
  {
    var k := UnusedKey(w.db.index);
    var write := OlderNodeWrites(node, k, Some(CELL));
    end := Next(w, write);
    assert Enabled(w, write);
    ReachStep(w, write, end);
    WriteBehind(w, r, node, k);
    StillAtTheEnd(w, r, write);
  }

  /** The other half: where an older node may write as the backfill begins, some run
      completes it, the mark is set, and it misses a key. */
  lemma SomeCompletionIsWrong(w: World, r: Id, node: Node)
    requires Enabled(w, StartBackfill(r)) && MayWrite(w, node)
    ensures exists end :: Completes(w, r, end) && !Covers(CompletedUnchecked(end, r).db)
  {
    var start := Next(w, StartBackfill(r));
    var scanned := ScansAtOnce(w, r, node);
    var filled := FillsAtOnce(scanned, r, node);
    var end := LateWrite(filled, r, node);
    ReachTrans(start, scanned, filled);
    ReachTrans(start, filled, end);
    assert Completes(w, r, end);
  }

  /** Why a backfill must list the peers again: with its last script done, an older node may
      have written a key it never saw, and a completion without the second listing then
      leaves a mark and a flag that miss the key. */
  lemma RecheckIsNeeded()
    ensures Starts(Only(EMPTY, FRESH, {}))
    ensures exists end :: Reaches(Only(EMPTY, FRESH, {}), end) && Enabled(end, StartRecheck(0)) &&
                          var done := CompletedUnchecked(end, 0);
                          done.db.marked && done.replicas[0].ready && !Covers(done.db)
  {
    BackfillRuns();
    OlderNodeWritesBehind();
    var end := Only(UNSEEN, FILLED.(writers := {NODE}), {NODE});
    ReachTrans(Only(EMPTY, FRESH, {}), Only(EMPTY, FILLED, {}), end);
    var done := CompletedUnchecked(end, 0);
    assert done.db.Live(KEY) && KEY !in done.db.index;
    assert Enabled(end, StartRecheck(0));
  }
}
