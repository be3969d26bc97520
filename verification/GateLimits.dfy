/** Runs that show what the gate's safety rests on, and that the gate opens at all. */
module GateLimits {
  import opened ByteStrings
  import opened Options
  import opened Store
  import opened Coverage
  import opened Backfill
  import opened Gate

  const NODE: Node := [110]
  const KEY: Key := [107]
  const CELL: Cell := Cell(Number(1), None)

  ghost predicate Reaches(a: World, b: World) {
    exists steps :: IsRun(a, steps) && After(a, steps) == b
  }

  lemma ReachStep(a: World, s: Step, b: World)
    requires Enabled(a, s) && Next(a, s) == b
    ensures Reaches(a, b)
  {
    assert IsRun(b, []);
    assert [s][1..] == [];
    assert IsRun(a, [s]) && After(a, [s]) == b;
  }

  lemma {:induction false} RunsCompose(w: World, a: seq<Step>, b: seq<Step>)
    requires IsRun(w, a) && IsRun(After(w, a), b)
    ensures IsRun(w, a + b) && After(w, a + b) == After(After(w, a), b)
    decreases |a|
  {
    if a == [] {
      assert a + b == b;
    } else {
      assert (a + b)[1..] == a[1..] + b;
      RunsCompose(Next(w, a[0]), a[1..], b);
    }
  }

  lemma ReachTrans(a: World, b: World, c: World)
    requires Reaches(a, b) && Reaches(b, c)
    ensures Reaches(a, c)
  {
    var s :| IsRun(a, s) && After(a, s) == b;
    var t :| IsRun(b, t) && After(b, t) == c;
    RunsCompose(a, s, t);
  }

  /** A step that moves the only replica along. */
  lemma Moves(w: World, r: Id, rep: Replica, rep': Replica, s: Step)
    requires w.replicas == map[r := rep] && Enabled(w, s) && Next(w, s) == Update(w, r, rep')
    ensures Reaches(w, w.(replicas := map[r := rep']))
  {
    assert w.replicas[r := rep'] == map[r := rep'];
    ReachStep(w, s, w.(replicas := map[r := rep']));
  }

  // ---- A fleet that vanishes with the mark set ----

  /** The server after a fleet completed the index and shut down: the mark stays. */
  const COMPLETED: Db := EMPTY.(marked := true)
  const ABANDONED: World := World(COMPLETED, map[], {})

  /** The same server after an older build wrote one key. */
  const STALE: Db := COMPLETED.(data := map[KEY := CELL])

  function Alone(db: Db, rep: Replica): World {
    World(db, map[1 := rep], {})
  }

  /** With no replica around, an older node comes, writes and goes. */
  lemma OlderBuildComesAndGoes()
    ensures Reaches(ABANDONED, World(STALE, map[], {}))
  {
    var w1, w2, w3 := World(COMPLETED, map[], {NODE}), World(STALE, map[], {NODE}), World(STALE, map[], {});
    ReachStep(ABANDONED, OlderNodeRegisters(NODE), w1);
    var write := OlderNodeWrites(NODE, KEY, Some(CELL));
    assert Next(w1, write).replicas == map[];
    assert Next(w1, write) == w2;
    ReachStep(w1, write, w2);
    assert Next(w2, OlderNodeLeaves(NODE)).replicas == map[];
    assert Next(w2, OlderNodeLeaves(NODE)) == w3;
    ReachStep(w2, OlderNodeLeaves(NODE), w3);
    ReachTrans(ABANDONED, w1, w2);
    ReachTrans(ABANDONED, w2, w3);
  }

  lemma NewReplicaJoinsAndLists()
    ensures Reaches(World(STALE, map[], {}), Alone(STALE, FRESH.(phase := Listed(false))))
  {
    var w0, w1 := World(STALE, map[], {}), Alone(STALE, FRESH);
    assert w0.replicas[1 := FRESH] == w1.replicas;
    ReachStep(w0, Join(1), w1);
    Moves(w1, 1, FRESH, FRESH.(phase := Listed(false)), ListPeers(1, Some(false)));
    ReachTrans(w0, w1, Alone(STALE, FRESH.(phase := Listed(false))));
  }

  lemma NewReplicaReadsAndStores()
    ensures Reaches(Alone(STALE, FRESH.(phase := Listed(false))), Alone(STALE, Replica(true, Gated(false), false, {})))
  {
    var a, b, c := FRESH.(phase := Listed(false)), FRESH.(phase := ReadMark(true)),
        Replica(true, Gated(false), false, {});
    Moves(Alone(STALE, a), 1, a, b, ReadTheMark(1, true));
    Moves(Alone(STALE, b), 1, b, c, StoreFlag(1));
    ReachTrans(Alone(STALE, a), Alone(STALE, b), Alone(STALE, c));
  }

  /** A new replica joins, sees no older build, and believes the mark. */
  lemma NewReplicaTrusts()
    ensures Reaches(World(STALE, map[], {}), Alone(STALE, Replica(true, Gated(false), false, {})))
  {
    NewReplicaJoinsAndLists();
    NewReplicaReadsAndStores();
    ReachTrans(World(STALE, map[], {}), Alone(STALE, FRESH.(phase := Listed(false))),
               Alone(STALE, Replica(true, Gated(false), false, {})));
  }

  /** Why `Leave` is conditional (`GateLeave` has the exact condition): after a fleet vanished
      with the mark set, an older build can write unseen, and a replica that joins later
      lists an index that misses the key. */
  lemma RollbackBreaksTheGate()
    ensures !Enabled(Alone(COMPLETED, Replica(true, Idle, false, {})), Leave(1))
    ensures exists end :: Reaches(ABANDONED, end) && 1 in end.replicas && end.replicas[1].ready && !Covers(end.db)
  {
    var end := Alone(STALE, Replica(true, Gated(false), false, {}));
    OlderBuildComesAndGoes();
    NewReplicaTrusts();
    ReachTrans(ABANDONED, World(STALE, map[], {}), end);
    assert STALE.Live(KEY) && KEY !in STALE.index;
  }

  // ---- A backfill that an older node writes behind ----

  function Only(db: Db, rep: Replica, older: set<Node>): World {
    World(db, map[0 := rep], older)
  }

  const FILLED: Replica := Replica(false, Scanning({}, {}, None, true), true, {})

  const GATED: Replica := Replica(false, Gated(false), true, {})

  lemma FindsNoMark()
    ensures Reaches(Only(EMPTY, FRESH, {}), Only(EMPTY, GATED, {}))
  {
    var a, b := FRESH.(phase := Listed(false)), FRESH.(phase := ReadMark(false));
    Moves(Only(EMPTY, FRESH, {}), 0, FRESH, a, ListPeers(0, Some(false)));
    Moves(Only(EMPTY, a, {}), 0, a, b, ReadTheMark(0, true));
    Moves(Only(EMPTY, b, {}), 0, b, GATED, StoreFlag(0));
    ReachTrans(Only(EMPTY, FRESH, {}), Only(EMPTY, a, {}), Only(EMPTY, b, {}));
    ReachTrans(Only(EMPTY, FRESH, {}), Only(EMPTY, b, {}), Only(EMPTY, GATED, {}));
  }

  lemma ScansNothing()
    ensures Reaches(Only(EMPTY, GATED, {}), Only(EMPTY, GATED.(phase := Scanning({}, {}, Some([]), true)), {}))
  {
    var a, b := GATED.(phase := Scanning({}, {}, None, false)), GATED.(phase := Scanning({}, {}, Some([]), true));
    assert LiveKeys(EMPTY) == {};
    Moves(Only(EMPTY, GATED, {}), 0, GATED, a, StartBackfill(0));
    Moves(Only(EMPTY, a, {}), 0, a, b, ScanStep(0, [], true));
    ReachTrans(Only(EMPTY, GATED, {}), Only(EMPTY, a, {}), Only(EMPTY, b, {}));
  }

  lemma FillsNothing()
    ensures Reaches(Only(EMPTY, GATED.(phase := Scanning({}, {}, Some([]), true)), {}), Only(EMPTY, FILLED, {}))
  {
    var a := GATED.(phase := Scanning({}, {}, Some([]), true));
    var db := BackfillScript(EMPTY, [], 0).0;
    assert db.index == {} && db.scores == map[] && db == EMPTY;
    assert Elements([]) == {};
    Moves(Only(EMPTY, a, {}), 0, a, FILLED, FillStep(0, 0));
  }

  /** The only replica finds no mark and backfills the empty store. */
  lemma BackfillRuns()
    ensures Reaches(Only(EMPTY, FRESH, {}), Only(EMPTY, FILLED, {}))
  {
    FindsNoMark();
    ScansNothing();
    FillsNothing();
    ReachTrans(Only(EMPTY, FRESH, {}), Only(EMPTY, GATED, {}),
               Only(EMPTY, GATED.(phase := Scanning({}, {}, Some([]), true)), {}));
    ReachTrans(Only(EMPTY, FRESH, {}), Only(EMPTY, GATED.(phase := Scanning({}, {}, Some([]), true)), {}),
               Only(EMPTY, FILLED, {}));
  }

  // ---- The gate does open ----

  lemma RechecksAndMarks()
    ensures Reaches(Only(EMPTY, FILLED, {}), Only(COMPLETED, Replica(false, Marked, false, {}), {}))
  {
    var a, b, c := FILLED.(phase := Rechecking({})), FILLED.(phase := Clean), Replica(false, Marked, false, {});
    Moves(Only(EMPTY, FILLED, {}), 0, FILLED, a, StartRecheck(0));
    Moves(Only(EMPTY, a, {}), 0, a, b, Recheck(0, Some(false)));
    assert Only(EMPTY, b, {}).replicas[0 := c] == map[0 := c];
    ReachStep(Only(EMPTY, b, {}), SetTheMark(0, true, true), Only(COMPLETED, c, {}));
    ReachTrans(Only(EMPTY, FILLED, {}), Only(EMPTY, a, {}), Only(EMPTY, b, {}));
    ReachTrans(Only(EMPTY, FILLED, {}), Only(EMPTY, b, {}), Only(COMPLETED, c, {}));
  }

  /** Without older builds a replica does complete the index: a run of the protocol ends with
      the mark set and the flag up, so the safety theorem is not about nothing. */
  lemma GateOpens()
    ensures Starts(Only(EMPTY, FRESH, {}))
    ensures Reaches(Only(EMPTY, FRESH, {}), Only(COMPLETED, Replica(true, Idle, false, {}), {}))
  {
    BackfillRuns();
    RechecksAndMarks();
    var marked, ready := Replica(false, Marked, false, {}), Replica(true, Idle, false, {});
    Moves(Only(COMPLETED, marked, {}), 0, marked, ready, RaiseFlag(0));
    ReachTrans(Only(EMPTY, FRESH, {}), Only(EMPTY, FILLED, {}), Only(COMPLETED, marked, {}));
    ReachTrans(Only(EMPTY, FRESH, {}), Only(COMPLETED, marked, {}), Only(COMPLETED, ready, {}));
  }

  const UNSEEN: Db := EMPTY.(data := map[KEY := CELL])

  lemma WriteIsRemembered()
    ensures Next(Only(EMPTY, FILLED, {NODE}), OlderNodeWrites(NODE, KEY, Some(CELL))) ==
            Only(UNSEEN, FILLED.(writers := {NODE}), {NODE})
  {
    var w := Only(EMPTY, FILLED, {NODE});
    var w' := Next(w, OlderNodeWrites(NODE, KEY, Some(CELL)));
    assert w'.db.data == map[KEY := CELL];
    assert w'.db == UNSEEN;
    assert {} * LiveKeys(UNSEEN) == {};
    var rep := w'.replicas[0];
    assert rep == Remember(Observe(FILLED, UNSEEN), NODE);
    assert rep.phase == FILLED.phase;
    assert {} + {NODE} == {NODE};
    assert w'.replicas == map[0 := rep];
  }

  /** Then an older node registers and writes. */
  lemma OlderNodeWritesBehind()
    ensures Reaches(Only(EMPTY, FILLED, {}), Only(UNSEEN, FILLED.(writers := {NODE}), {NODE}))
  {
    var w0, w1 := Only(EMPTY, FILLED, {}), Only(EMPTY, FILLED, {NODE});
    var w2 := Only(UNSEEN, FILLED.(writers := {NODE}), {NODE});
    assert Next(w0, OlderNodeRegisters(NODE)) == w1;
    ReachStep(w0, OlderNodeRegisters(NODE), w1);
    WriteIsRemembered();
    ReachStep(w1, OlderNodeWrites(NODE, KEY, Some(CELL)), w2);
    ReachTrans(w0, w1, w2);
  }
}
