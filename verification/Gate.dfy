/** The index gate of `src/maintenance.rs`: every replica's tick as separate steps, with any
    number of replicas, every other client, and nodes of an older build (which write no
    index entries) interleaved between them.

    A tick lists the peers; if it sees an older build it drops its ready flag and deletes
    the completeness mark, otherwise it reads the mark and stores what it read as its flag.
    A replica without the flag may then backfill, list the peers again, set the mark and
    raise its flag. Listing replies and lock outcomes are arbitrary, any command may fail,
    and a failed command may have taken effect. */
module Gate {
  import opened ByteStrings
  import opened Options
  import opened Store
  import opened Coverage
  import opened Backfill

  type Node = Key
  type Id = nat

  /** Where a replica is in its tick. */
  datatype Phase =
    | Idle
    | Listed(older: bool)             // list_registrations answered
    | Lowered                         // invalidate_index: flag down, the DEL outstanding
    | ReadMark(present: bool)         // index_complete answered, the flag not yet stored
    | Gated(older: bool)              // gate_index returned; lock and sweep
    | Scanning(steady: set<Key>,      // backfill: the keys alive since it began,
               handled: set<Key>,     //   those its scripts handled,
               batch: Option<seq<Key>>, // the reply its next script takes,
               last: bool)            //   and whether that reply was the last
    | Rechecking(witnesses: set<Node>) // listing again; the older nodes registered since it began
    | Clean                           // it saw none; the SET outstanding
    | Marked                          // SET answered, the flag not yet raised

  datatype Replica = Replica(
    ready: bool,         // listings read the index
    phase: Phase,
    quiet: bool,         // history: its latest gate step found or made the mark absent, and
                         //   it sent no SET since
    writers: set<Node>)  // history: older nodes that wrote since its backfill began

  const FRESH: Replica := Replica(false, Idle, false, {})

  datatype World = World(db: Db, replicas: map<Id, Replica>, older: set<Node>)

  datatype Step =
    | Client(op: Op)                                        // any step of a current build
    | OlderNodeWrites(node: Node, key: Key, cell: Option<Cell>)
    | OlderNodeRegisters(node: Node)
    | OlderNodeLeaves(node: Node)
    | ListPeers(r: Id, reply: Option<bool>)                 // an older build seen; None: error
    | LowerFlag(r: Id)
    | DeleteMark(r: Id, took: bool, ok: bool)
    | ReadTheMark(r: Id, ok: bool)
    | StoreFlag(r: Id)
    | EndTick(r: Id)
    | StartBackfill(r: Id)
    | ScanStep(r: Id, batch: seq<Key>, last: bool)
    | FillStep(r: Id, nowMs: int)
    | AbandonBackfill(r: Id)
    | StartRecheck(r: Id)
    | Recheck(r: Id, reply: Option<bool>)
    | SetTheMark(r: Id, took: bool, ok: bool)
    | RaiseFlag(r: Id)
    | Restart(r: Id)
    | Join(r: Id)
    | Leave(r: Id)

  // ---- The steps ----

  /** A replica's view after the data changed to `db`: a backfill loses the keys that died. */
  function Observe(rep: Replica, db: Db): Replica {
    if rep.phase.Scanning? then rep.(phase := rep.phase.(steady := rep.phase.steady * LiveKeys(db))) else rep
  }

  function Backfilling(rep: Replica): bool {
    rep.phase.Scanning? || rep.phase.Rechecking?
  }

  /** An older node wrote: every backfill under way remembers it. */
  function Remember(rep: Replica, node: Node): Replica {
    if Backfilling(rep) then rep.(writers := rep.writers + {node}) else rep
  }

  function LoseWitness(rep: Replica, node: Node): Replica {
    if rep.phase.Rechecking? then rep.(phase := Rechecking(rep.phase.witnesses - {node})) else rep
  }

  function Each(replicas: map<Id, Replica>, f: Replica -> Replica): map<Id, Replica> {
    map r | r in replicas :: f(replicas[r])
  }

  /** This replica neither trusts the index nor is about to set the mark: its latest gate
      step found or made the mark absent, it sent no SET since, and it is not between a clean
      second listing and its SET. */
  predicate Calm(rep: Replica) {
    rep.quiet && !rep.phase.Clean?
  }

  /** Environment: an older node writes only while it is registered and every replica is
      calm; and, where a replica is rechecking, only a node registered since that recheck
      began. */
  ghost predicate MayWrite(w: World, node: Node) {
    && node in w.older
    && forall r :: r in w.replicas ==>
         Calm(w.replicas[r]) &&
         (w.replicas[r].phase.Rechecking? ==> node in w.replicas[r].phase.witnesses)
  }

  /** Environment: an older node stays registered until every backfill it wrote during has
      listed the peers again. */
  ghost predicate MayLeave(w: World, node: Node) {
    forall r :: r in w.replicas && Backfilling(w.replicas[r]) ==> node !in w.replicas[r].writers
  }

  /** A replica that may have put the mark there, or be about to, and has not found it gone
      since. */
  predicate Accountable(rep: Replica) {
    !Calm(rep) && rep.phase != ReadMark(false)
  }

  /** When the step can happen. */
  ghost predicate Enabled(w: World, s: Step) {
    match s
    case Client(op) => !op.OlderWrite? && !op.SetMark? && !op.ClearMark?
    case OlderNodeWrites(node, _, _) => MayWrite(w, node)
    case OlderNodeRegisters(_) => true
    case OlderNodeLeaves(node) => MayLeave(w, node)
    case Join(r) => r !in w.replicas
    case Leave(r) => r in w.replicas &&
                     (w.db.marked ==> exists o :: o in w.replicas && o != r && Accountable(w.replicas[o]))
    case _ => s.r in w.replicas && ReplicaEnabled(w, w.replicas[s.r], s)
  }

  ghost predicate ReplicaEnabled(w: World, rep: Replica, s: Step) {
    match s
    case ListPeers(_, _) => rep.phase.Idle?
    case LowerFlag(_) => rep.phase == Listed(true)
    case DeleteMark(_, took, ok) => rep.phase.Lowered? && (ok ==> took)
    case ReadTheMark(_, _) => rep.phase == Listed(false)
    case StoreFlag(_) => rep.phase.ReadMark?
    case EndTick(_) => rep.phase.Gated?
    case StartBackfill(_) => rep.phase == Gated(false) && !rep.ready
    case ScanStep(_, batch, last) =>
      // SCAN's promise at its last reply: every key alive throughout was returned.
      rep.phase.Scanning? && rep.phase.batch.None? && !rep.phase.last &&
      (last ==> rep.phase.steady <= rep.phase.handled + Elements(batch))
    case FillStep(_, _) => rep.phase.Scanning? && rep.phase.batch.Some?
    case AbandonBackfill(_) => rep.phase.Scanning?
    case StartRecheck(_) => rep.phase.Scanning? && rep.phase.last && rep.phase.batch.None?
    case Recheck(_, reply) =>
      // A fresh listing sees a registration present throughout (`Peers.FreshListingSees`).
      rep.phase.Rechecking? && (rep.phase.witnesses != {} ==> reply != Some(false))
    case SetTheMark(_, took, ok) => rep.phase.Clean? && (ok ==> took)
    case RaiseFlag(_) => rep.phase.Marked?
    case Restart(_) => true
    case _ => false
  }

  function SetMarked(w: World, marked: bool): World {
    w.(db := w.db.(marked := marked))
  }

  function Update(w: World, r: Id, rep: Replica): World {
    w.(replicas := w.replicas[r := rep])
  }

  function Next(w: World, s: Step): World
    requires !s.Client? && !s.OlderNodeWrites? && !s.OlderNodeRegisters? && !s.OlderNodeLeaves? && !s.Join? && !s.Leave?
             ==> s.r in w.replicas
  {
    match s
    case Client(op) =>
      var db := Apply(w.db, op).0;
      w.(db := db, replicas := Each(w.replicas, rep => Observe(rep, db)))
    case OlderNodeWrites(node, key, cell) =>
      var db := Apply(w.db, OlderWrite(key, cell)).0;
      w.(db := db, replicas := Each(w.replicas, rep => Remember(Observe(rep, db), node)))
    case OlderNodeRegisters(node) => w.(older := w.older + {node})
    case OlderNodeLeaves(node) =>
      w.(older := w.older - {node}, replicas := Each(w.replicas, rep => LoseWitness(rep, node)))
    case ListPeers(r, reply) =>
      if reply.None? then w else Update(w, r, w.replicas[r].(phase := Listed(reply.value)))
    case LowerFlag(r) => Update(w, r, w.replicas[r].(ready := false, phase := Lowered))
    case DeleteMark(r, took, ok) =>
      var w' := if took then SetMarked(w, false) else w;
      Update(w', r, w.replicas[r].(phase := Gated(true), quiet := w.replicas[r].quiet || ok))
    case ReadTheMark(r, ok) =>
      var rep := w.replicas[r];
      if !ok then Update(w, r, rep.(phase := Gated(false)))
      else Update(w, r, rep.(phase := ReadMark(w.db.marked), quiet := rep.quiet && !w.db.marked))
    case StoreFlag(r) =>
      var rep := w.replicas[r];
      if !rep.phase.ReadMark? then w
      else Update(w, r, rep.(ready := rep.phase.present, phase := Gated(false), quiet := !rep.phase.present))
    case EndTick(r) => Update(w, r, w.replicas[r].(phase := Idle))
    case StartBackfill(r) =>
      Update(w, r, w.replicas[r].(phase := Scanning(LiveKeys(w.db), {}, None, false), writers := {}))
    case ScanStep(r, batch, last) =>
      var rep := w.replicas[r];
      if !rep.phase.Scanning? then w
      else Update(w, r, rep.(phase := rep.phase.(batch := Some(batch), last := last)))
    case FillStep(r, nowMs) =>
      var rep := w.replicas[r];
      if !(rep.phase.Scanning? && rep.phase.batch.Some?) then w
      else
        var batch := rep.phase.batch.value;
        Update(w.(db := BackfillScript(w.db, batch, nowMs).0), r,
               rep.(phase := rep.phase.(handled := rep.phase.handled + Elements(batch), batch := None)))
    case AbandonBackfill(r) => Update(w, r, w.replicas[r].(phase := Idle))
    case StartRecheck(r) => Update(w, r, w.replicas[r].(phase := Rechecking(w.older)))
    case Recheck(r, reply) =>
      if reply == Some(false) then Update(w, r, w.replicas[r].(phase := Clean))
      else Update(w, r, w.replicas[r].(phase := Idle))
    case SetTheMark(r, took, ok) =>
      Update(if took then SetMarked(w, true) else w, r,
             w.replicas[r].(phase := if ok then Marked else Idle, quiet := false))
    case RaiseFlag(r) => Update(w, r, w.replicas[r].(ready := true, phase := Idle))
    case Restart(r) => Update(w, r, FRESH)
    case Join(r) => Update(w, r, FRESH)
    case Leave(r) => w.(replicas := w.replicas - {r})
  }

  // ---- The invariant ----

  /** This replica trusts the index, or is about to say that others may. */
  predicate Trusts(rep: Replica) {
    rep.ready || rep.phase == ReadMark(true) || rep.phase.Clean? || rep.phase.Marked?
  }

  /** The keys of the reply a backfill has yet to handle. */
  function Outstanding(batch: Option<seq<Key>>): set<Key> {
    if batch.Some? then Elements(batch.value) else {}
  }

  /** What holds of one replica. */
  ghost predicate ReplicaOk(db: Db, older: set<Node>, rep: Replica) {
    && (Trusts(rep) ==> Covers(db) && !Calm(rep))
    && (rep.phase.Lowered? ==> !rep.ready)
    && (Backfilling(rep) ==> rep.writers <= older)
    && (rep.phase.Scanning? && rep.writers == {} ==> Filling(db, rep.phase.steady, rep.phase.handled))
    && (rep.phase.Scanning? && rep.phase.last ==>
          rep.phase.steady <= rep.phase.handled + Outstanding(rep.phase.batch))
    && (rep.phase.Rechecking? ==> rep.writers <= rep.phase.witnesses && (rep.writers == {} ==> Covers(db)))
  }

  ghost predicate Inv(w: World) {
    && (w.db.marked ==> Covers(w.db))
    && (w.db.marked ==> exists r :: r in w.replicas && Accountable(w.replicas[r]))
    && (forall r :: r in w.replicas ==> ReplicaOk(w.db, w.older, w.replicas[r]))
  }

  // ---- Every step keeps it ----

  /** A step that changes one replica's own view, the server state standing still. */
  lemma UpdateKeeps(w: World, r: Id, rep: Replica)
    requires Inv(w) && ReplicaOk(w.db, w.older, rep)
    requires w.db.marked && r in w.replicas && Accountable(w.replicas[r]) ==> Accountable(rep)
    ensures Inv(Update(w, r, rep))
  {
    var w' := Update(w, r, rep);
    if w.db.marked {
      var o :| o in w.replicas && Accountable(w.replicas[o]);
      assert o in w'.replicas && Accountable(w'.replicas[o]);
    }
  }

  /** Coverage and backfills survive a step of a current build. */
  lemma ObserveKeeps(db: Db, older: set<Node>, rep: Replica, op: Op)
    requires !op.OlderWrite? && ReplicaOk(db, older, rep)
    ensures ReplicaOk(Apply(db, op).0, older, Observe(rep, Apply(db, op).0))
  {
    if Covers(db) {
      StepKeepsCoverage(db, op);
    }
    if rep.phase.Scanning? && rep.writers == {} {
      FillingThroughStep(db, rep.phase.steady, rep.phase.handled, op);
    }
  }

  lemma EachKeepsAccountable(replicas: map<Id, Replica>, f: Replica -> Replica)
    requires exists r :: r in replicas && Accountable(replicas[r])
    requires forall rep :: Accountable(rep) ==> Accountable(f(rep))
    ensures exists r :: r in Each(replicas, f) && Accountable(Each(replicas, f)[r])
  {
    var r :| r in replicas && Accountable(replicas[r]);
    assert Accountable(Each(replicas, f)[r]);
  }

  lemma ClientKeeps(w: World, op: Op)
    requires Inv(w) && Enabled(w, Client(op))
    ensures Inv(Next(w, Client(op)))
  {
    var w' := Next(w, Client(op));
    var db := Apply(w.db, op).0;
    assert db.marked == w.db.marked;
    if w.db.marked {
      StepKeepsCoverage(w.db, op);
      EachKeepsAccountable(w.replicas, rep => Observe(rep, db));
    }
    forall r | r in w'.replicas
      ensures ReplicaOk(db, w.older, w'.replicas[r])
    {
      ObserveKeeps(w.db, w.older, w.replicas[r], op);
    }
  }

  lemma OlderWriteSeen(db: Db, older: set<Node>, rep: Replica, node: Node, key: Key, cell: Option<Cell>)
    requires ReplicaOk(db, older, rep) && Calm(rep) && node in older
    requires rep.phase.Rechecking? ==> node in rep.phase.witnesses
    ensures var db' := Apply(db, OlderWrite(key, cell)).0;
            ReplicaOk(db', older, Remember(Observe(rep, db'), node))
  {
  }

  /** While an older node may write, nobody trusts the index and the mark is absent, so
      there is nothing to lose but the backfills, which remember the writer. */
  lemma OlderWriteKeeps(w: World, node: Node, key: Key, cell: Option<Cell>)
    requires Inv(w) && MayWrite(w, node)
    ensures Inv(Next(w, OlderNodeWrites(node, key, cell)))
  {
    var w' := Next(w, OlderNodeWrites(node, key, cell));
    assert !w.db.marked;
    forall r | r in w'.replicas
      ensures ReplicaOk(w'.db, w'.older, w'.replicas[r])
    {
      OlderWriteSeen(w.db, w.older, w.replicas[r], node, key, cell);
    }
  }

  lemma OlderLeavesKeeps(w: World, node: Node)
    requires Inv(w) && MayLeave(w, node)
    ensures Inv(Next(w, OlderNodeLeaves(node)))
  {
    var w' := Next(w, OlderNodeLeaves(node));
    if w.db.marked {
      EachKeepsAccountable(w.replicas, rep => LoseWitness(rep, node));
    }
    forall r | r in w'.replicas
      ensures ReplicaOk(w'.db, w'.older, w'.replicas[r])
    {
      assert ReplicaOk(w.db, w.older, w.replicas[r]);
    }
  }

  /** The backfill script of one replica, seen by all. */
  lemma FillStepKeeps(w: World, r: Id, nowMs: int)
    requires Inv(w) && Enabled(w, FillStep(r, nowMs))
    ensures Inv(Next(w, FillStep(r, nowMs)))
  {
    var batch := w.replicas[r].phase.batch.value;
    var op := Op.Backfill(batch, nowMs);
    ClientKeeps(w, op);
    var seen := Next(w, Client(op));
    var rep := w.replicas[r];
    assert LiveKeys(seen.db) == LiveKeys(w.db);
    var w' := Next(w, FillStep(r, nowMs));
    var rep' := w'.replicas[r];
    assert ReplicaOk(w.db, w.older, rep);
    if rep.writers == {} {
      FillingThroughScript(w.db, rep.phase.steady, rep.phase.handled, batch, nowMs);
    }
    forall o | o in w'.replicas
      ensures ReplicaOk(w'.db, w'.older, w'.replicas[o])
    {
      if o != r {
        var other := w.replicas[o];
        assert ReplicaOk(w.db, w.older, other);
        if Covers(w.db) {
          StepKeepsCoverage(w.db, op);
        }
        if other.phase.Scanning? && other.writers == {} {
          FillingThroughStep(w.db, other.phase.steady, other.phase.handled, op);
        }
      }
    }
    if w.db.marked {
      var o :| o in w.replicas && Accountable(w.replicas[o]);
      assert Accountable(w'.replicas[o]);
    }
  }

  /** The mark goes: whoever relied on its coverage keeps the coverage. */
  lemma DeleteMarkKeeps(w: World, r: Id, took: bool, ok: bool)
    requires Inv(w) && Enabled(w, DeleteMark(r, took, ok))
    ensures Inv(Next(w, DeleteMark(r, took, ok)))
  {
    assert ReplicaOk(w.db, w.older, w.replicas[r]);
    var w1 := if took then SetMarked(w, false) else w;
    SetMarkedKeeps(w, took);
    UpdateKeeps(w1, r, Next(w, DeleteMark(r, took, ok)).replicas[r]);
  }

  lemma SetMarkedKeeps(w: World, took: bool)
    requires Inv(w)
    ensures Inv(if took then SetMarked(w, false) else w)
  {
    forall r | r in w.replicas
      ensures ReplicaOk(SetMarked(w, false).db, w.older, w.replicas[r])
    {
      MarkIsNotData(w.db, false, w.older, w.replicas[r]);
    }
  }

  lemma MarkIsNotData(db: Db, marked: bool, older: set<Node>, rep: Replica)
    requires ReplicaOk(db, older, rep)
    ensures ReplicaOk(db.(marked := marked), older, rep)
  {
    var db' := db.(marked := marked);
    assert forall k :: db'.Live(k) <==> db.Live(k);
  }

  /** The mark comes: a clean recheck vouches for the coverage. */
  lemma SetTheMarkKeeps(w: World, r: Id, took: bool, ok: bool)
    requires Inv(w) && Enabled(w, SetTheMark(r, took, ok))
    ensures Inv(Next(w, SetTheMark(r, took, ok)))
  {
    var w' := Next(w, SetTheMark(r, took, ok));
    assert ReplicaOk(w.db, w.older, w.replicas[r]);
    assert Covers(w.db);
    assert forall k :: w'.db.Live(k) <==> w.db.Live(k);
    forall o | o in w'.replicas
      ensures ReplicaOk(w'.db, w'.older, w'.replicas[o])
    {
      MarkIsNotData(w.db, w'.db.marked, w.older, w.replicas[o]);
    }
    assert Accountable(w'.replicas[r]);
  }

  /** The steps that only move one replica along its tick. */
  lemma LocalKeeps(w: World, s: Step)
    requires Inv(w) && Enabled(w, s)
    requires s.ListPeers? || s.LowerFlag? || s.ReadTheMark? || s.StoreFlag? || s.EndTick? || s.StartBackfill? ||
             s.ScanStep? || s.AbandonBackfill? || s.StartRecheck? || s.Recheck? || s.RaiseFlag? || s.Restart?
    ensures Inv(Next(w, s))
  {
    var rep, rep' := w.replicas[s.r], Next(w, s).replicas[s.r];
    assert ReplicaOk(w.db, w.older, rep);
    if s.StartBackfill? {
      FillingStarts(w.db);
    }
    if s.StartRecheck? && rep.writers == {} {
      FillingEnds(w.db, rep.phase.steady, rep.phase.handled);
    }
    if s.ListPeers? && s.reply.None? {
      assert Next(w, s) == w;
    } else {
      UpdateKeeps(w, s.r, rep');
    }
  }

  lemma LeaveKeeps(w: World, r: Id)
    requires Inv(w) && Enabled(w, Leave(r))
    ensures Inv(Next(w, Leave(r)))
  {
    var w' := Next(w, Leave(r));
    if w.db.marked {
      var o :| o in w.replicas && o != r && Accountable(w.replicas[o]);
      assert o in w'.replicas && Accountable(w'.replicas[o]);
    }
  }

  lemma RegisterKeeps(w: World, node: Node)
    requires Inv(w)
    ensures Inv(Next(w, OlderNodeRegisters(node)))
  {
    forall r | r in w.replicas
      ensures ReplicaOk(w.db, w.older + {node}, w.replicas[r])
    {
      assert ReplicaOk(w.db, w.older, w.replicas[r]);
    }
  }

  lemma StepKeepsInv(w: World, s: Step)
    requires Inv(w) && Enabled(w, s)
    ensures Inv(Next(w, s))
  {
    match s {
      case Client(op) => ClientKeeps(w, op);
      case OlderNodeWrites(node, key, cell) => OlderWriteKeeps(w, node, key, cell);
      case OlderNodeRegisters(node) => RegisterKeeps(w, node);
      case OlderNodeLeaves(node) => OlderLeavesKeeps(w, node);
      case DeleteMark(r, took, ok) => DeleteMarkKeeps(w, r, took, ok);
      case FillStep(r, nowMs) => FillStepKeeps(w, r, nowMs);
      case SetTheMark(r, took, ok) => SetTheMarkKeeps(w, r, took, ok);
      case Join(r) => UpdateKeeps(w, r, FRESH);
      case Leave(r) => LeaveKeeps(w, r);
      case _ => LocalKeeps(w, s);
    }
  }

  /** A run of enabled steps. */
  ghost predicate IsRun(w: World, steps: seq<Step>)
    decreases |steps|
  {
    steps == [] || (Enabled(w, steps[0]) && IsRun(Next(w, steps[0]), steps[1..]))
  }

  ghost function After(w: World, steps: seq<Step>): World
    requires IsRun(w, steps)
    decreases |steps|
  {
    if steps == [] then w else After(Next(w, steps[0]), steps[1..])
  }

  /** Where a run may start: replicas that have not ticked, and a mark that is either absent
      or right, with a replica around to take it away. */
  ghost predicate Starts(w: World) {
    && (forall r :: r in w.replicas ==> w.replicas[r] == FRESH)
    && (w.db.marked ==> Covers(w.db) && w.replicas != map[])
  }

  lemma StartsInv(w: World)
    requires Starts(w)
    ensures Inv(w)
  {
    if w.db.marked {
      var r :| r in w.replicas;
      assert Accountable(w.replicas[r]);
    }
  }

  lemma {:induction false} RunKeepsInv(w: World, steps: seq<Step>)
    requires Inv(w) && IsRun(w, steps)
    ensures Inv(After(w, steps))
    decreases |steps|
  {
    if steps != [] {
      StepKeepsInv(w, steps[0]);
      RunKeepsInv(Next(w, steps[0]), steps[1..]);
    }
  }

  /** Gate safety over whole runs: in every interleaving, while a replica's ready flag is up,
      or the mark is present, or a replica has read it as present or is about to set it,
      every live data key is in the key index. */
  lemma GateSafety(w: World, steps: seq<Step>)
    requires Starts(w) && IsRun(w, steps)
    ensures var end := After(w, steps);
            (end.db.marked || exists r :: r in end.replicas && Trusts(end.replicas[r])) ==> Covers(end.db)
  {
    StartsInv(w);
    RunKeepsInv(w, steps);
  }
}
