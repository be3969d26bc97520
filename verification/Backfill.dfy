/** `backfill_index` among the steps of every other client. A `SCAN` iteration promises one
    thing: a key alive from its start to its end is returned at least once. */
module Backfill {
  import opened ByteStrings
  import opened Store
  import opened Coverage
  import opened Server
  import opened StepEffects

  function LiveKeys(db: Db): set<Key> {
    set k | k in db.data && db.Live(k)
  }

  /** Every live key is indexed, or has been alive since the backfill began and is not yet
      among the keys it handled. */
  ghost predicate Filling(db: Db, steady: set<Key>, handled: set<Key>) {
    forall k :: db.Live(k) ==> k in db.index || (k in steady && k !in handled)
  }

  /** A backfill may begin with any index at all. */
  lemma FillingStarts(db: Db)
    ensures Filling(db, LiveKeys(db), {})
  {
  }

  /** A step of any other client (of a current build) keeps it. */
  lemma FillingThroughStep(db: Db, steady: set<Key>, handled: set<Key>, op: Op)
    requires !op.OlderWrite? && Filling(db, steady, handled)
    ensures var db' := Apply(db, op).0; Filling(db', steady * LiveKeys(db'), handled)
  {
    var db' := Apply(db, op).0;
    forall k | db'.Live(k)
      ensures k in db'.index || (k in steady * LiveKeys(db') && k !in handled)
    {
      LiveAfterStep(db, op, k);
    }
  }

  /** So does the backfill script, which settles its batch. */
  lemma FillingThroughScript(db: Db, steady: set<Key>, handled: set<Key>, batch: seq<Key>, nowMs: int)
    requires Filling(db, steady, handled)
    ensures Filling(BackfillScript(db, batch, nowMs).0, steady, handled + Elements(batch))
  {
    var db' := Apply(db, Op.Backfill(batch, nowMs)).0;
    forall k | db'.Live(k)
      ensures k in db'.index || (k in steady && k !in handled + Elements(batch))
    {
      LiveAfterStep(db, Op.Backfill(batch, nowMs), k);
    }
  }

  /** Once it has handled every key alive throughout, the index is complete. */
  lemma FillingEnds(db: Db, steady: set<Key>, handled: set<Key>)
    requires Filling(db, steady, handled) && steady <= handled
    ensures Covers(db)
  {
  }

  // ---- A whole backfill ----

  /** One iteration of the loop: what others do before the `SCAN` step is served, its
      reply, what others do before the script runs, and the clock reading it is given. */
  datatype Turn = Turn(before: seq<Op>, batch: seq<Key>, between: seq<Op>, nowMs: int)

  predicate Indexed(ops: seq<Op>) {
    forall i :: 0 <= i < |ops| ==> !ops[i].OlderWrite?
  }

  /** The keys of `steady` alive in every state a run of others passes through. */
  function Survivors(db: Db, steady: set<Key>, ops: seq<Op>): set<Key>
    decreases |ops|
  {
    if ops == [] then steady
    else
      var db' := Apply(db, ops[0]).0;
      Survivors(db', steady * LiveKeys(db'), ops[1..])
  }

  /** The state after a turn. */
  function AfterTurn(db: Db, turn: Turn): Db {
    BackfillScript(Run(Run(db, turn.before), turn.between), turn.batch, turn.nowMs).0
  }

  /** The state after all turns. */
  function AfterTurns(db: Db, turns: seq<Turn>): Db
    decreases |turns|
  {
    if turns == [] then db else AfterTurns(AfterTurn(db, turns[0]), turns[1..])
  }

  /** No build without the index writes during the turns. */
  predicate AllIndexed(turns: seq<Turn>) {
    forall i :: 0 <= i < |turns| ==> Indexed(turns[i].before) && Indexed(turns[i].between)
  }

  /** How many entries of the turn's batch were alive when its script ran, a repeated key
      counted each time. */
  function IndexedBy(db: Db, turn: Turn): nat {
    |AliveAt(Run(Run(db, turn.before), turn.between), turn.batch)|
  }

  /** The same over all turns. */
  function CountIndexed(db: Db, turns: seq<Turn>): int
    decreases |turns|
  {
    if turns == [] then 0
    else
      var turn := turns[0];
      IndexedBy(db, turn) + CountIndexed(AfterTurn(db, turn), turns[1..])
  }

  /** The promise of `SCAN` over the turns: at its last reply every key alive throughout
      has been returned. */
  ghost predicate ScanPromise(db: Db, steady: set<Key>, seen: set<Key>, turns: seq<Turn>)
    requires turns != []
    decreases |turns|
  {
    var turn := turns[0];
    var db1, steady1 := Run(db, turn.before), Survivors(db, steady, turn.before);
    if |turns| == 1 then steady1 <= seen + Elements(turn.batch)
    else ScanPromise(AfterTurn(db, turn), Survivors(db1, steady1, turn.between),
                     seen + Elements(turn.batch), turns[1..])
  }

  lemma {:induction false} FillingThroughRun(db: Db, steady: set<Key>, handled: set<Key>, ops: seq<Op>)
    requires Indexed(ops) && Filling(db, steady, handled)
    ensures Filling(Run(db, ops), Survivors(db, steady, ops), handled)
    decreases |ops|
  {
    if ops != [] {
      var db' := Apply(db, ops[0]).0;
      FillingThroughStep(db, steady, handled, ops[0]);
      FillingThroughRun(db', steady * LiveKeys(db'), handled, ops[1..]);
    }
  }

  /** The other clients' steps, run on the server. */
  method InterfereAll(server: Redis, ops: seq<Op>)
    modifies server
    ensures server.State() == Run(old(server.State()), ops)
  {
    var i := 0;
    while i < |ops|
      invariant 0 <= i <= |ops|
      invariant Run(server.State(), ops[i..]) == Run(old(server.State()), ops)
    {
      assert ops[i..][0] == ops[i] && ops[i..][1..] == ops[i + 1..];
      server.Interfere(ops[i]);
      i := i + 1;
    }
    assert ops[i..] == [];
  }

  /** One turn, as the invariant sees it. */
  lemma FillingThroughTurn(db: Db, steady: set<Key>, handled: set<Key>, turn: Turn)
    requires Indexed(turn.before) && Indexed(turn.between) && Filling(db, steady, handled)
    ensures var db1, steady1 := Run(db, turn.before), Survivors(db, steady, turn.before);
            Filling(AfterTurn(db, turn), Survivors(db1, steady1, turn.between), handled + Elements(turn.batch))
  {
    var db1, steady1 := Run(db, turn.before), Survivors(db, steady, turn.before);
    FillingThroughRun(db, steady, handled, turn.before);
    FillingThroughRun(db1, steady1, handled, turn.between);
    FillingThroughScript(Run(db1, turn.between), Survivors(db1, steady1, turn.between), handled, turn.batch,
                         turn.nowMs);
  }

  lemma {:induction false} SurvivorsShrink(db: Db, steady: set<Key>, ops: seq<Op>)
    ensures Survivors(db, steady, ops) <= steady
    decreases |ops|
  {
    if ops != [] {
      var db' := Apply(db, ops[0]).0;
      SurvivorsShrink(db', steady * LiveKeys(db'), ops[1..]);
    }
  }

  /** Backfill completeness: from an arbitrary index, with puts, deletes, increments,
      expiries, prunes and sweeps of others at every point, the turns end with every live
      key indexed, provided no build without the index writes meanwhile. */
  lemma {:induction false} TurnsComplete(db: Db, steady: set<Key>, handled: set<Key>, turns: seq<Turn>)
    requires turns != [] && AllIndexed(turns)
    requires Filling(db, steady, handled) && ScanPromise(db, steady, handled, turns)
    ensures Covers(AfterTurns(db, turns))
    decreases |turns|
  {
    var turn := turns[0];
    var db1, steady1 := Run(db, turn.before), Survivors(db, steady, turn.before);
    var db2, steady2 := AfterTurn(db, turn), Survivors(db1, steady1, turn.between);
    FillingThroughTurn(db, steady, handled, turn);
    if |turns| == 1 {
      SurvivorsShrink(db1, steady1, turn.between);
      FillingEnds(db2, steady2, handled + Elements(turn.batch));
      assert turns[1..] == [];
    } else {
      TurnsComplete(db2, steady2, handled + Elements(turn.batch), turns[1..]);
    }
  }

  lemma TakeTurn(db: Db, turns: seq<Turn>, i: nat)
    requires i < |turns|
    ensures AfterTurns(db, turns[i..]) == AfterTurns(AfterTurn(db, turns[i]), turns[i + 1..])
    ensures CountIndexed(db, turns[i..]) ==
            IndexedBy(db, turns[i]) + CountIndexed(AfterTurn(db, turns[i]), turns[i + 1..])
  {
    assert turns[i..][0] == turns[i] && turns[i..][1..] == turns[i + 1..];
  }

  /** One iteration of the loop. */
  method OneTurn(server: Redis, turn: Turn) returns (indexed: nat)
    modifies server
    ensures server.State() == AfterTurn(old(server.State()), turn)
    ensures indexed == IndexedBy(old(server.State()), turn)
  {
    InterfereAll(server, turn.before);
    InterfereAll(server, turn.between);
    RepairCounts(server.State(), turn.batch, turn.nowMs);
    indexed := server.BackfillBatch(turn.batch, turn.nowMs);
  }

  /** `backfill_index`, on the server others use too. `turns` is what the server and the
      others do; the loop takes one per `SCAN` step. It ends with every live key indexed
      unless a build without the index wrote meanwhile. */
  method BackfillIndex(server: Redis, turns: seq<Turn>) returns (indexed: nat)
    requires turns != []
    requires ScanPromise(server.State(), LiveKeys(server.State()), {}, turns)
    modifies server
    ensures server.State() == AfterTurns(old(server.State()), turns)
    ensures AllIndexed(turns) ==> Covers(server.State())
    ensures indexed == CountIndexed(old(server.State()), turns)
  {
    ghost var was := server.State();
    if AllIndexed(turns) {
      FillingStarts(was);
      TurnsComplete(was, LiveKeys(was), {}, turns);
    }
    indexed := 0;
    assert turns[0..] == turns;
    var i := 0;
    while i < |turns|
      invariant 0 <= i <= |turns|
      invariant AfterTurns(server.State(), turns[i..]) == AfterTurns(was, turns)
      invariant indexed + CountIndexed(server.State(), turns[i..]) == CountIndexed(was, turns)
    {
      var turn := turns[i];
      TakeTurn(server.State(), turns, i);
      var n := OneTurn(server, turn);
      indexed := indexed + n;
      i := i + 1;
    }
    assert turns[i..] == [];
  }
}
