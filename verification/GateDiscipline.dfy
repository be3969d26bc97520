/** A simpler rule for older nodes under which the gate is safe: write only while every
    replica's latest tick saw an older build and its deletion of the mark was answered. It
    keeps the environment conditions of `Gate`, so it is a special case of them. */
module GateDiscipline {
  import opened ByteStrings
  import opened Store
  import opened Coverage
  import opened Gate

  /** The replicas whose latest tick with a peer list saw an older build and deleted the
      mark, tracked along the steps. */
  function Blocked(blocked: set<Id>, s: Step): set<Id> {
    match s
    case DeleteMark(r, _, ok) => if ok then blocked + {r} else blocked
    case ListPeers(r, reply) => if reply.Some? then blocked - {r} else blocked
    case Restart(r) => blocked - {r}
    case Join(r) => blocked - {r}
    case Leave(r) => blocked - {r}
    case _ => blocked
  }

  /** The steps as in `Gate`, with the simpler rule for older nodes: they write only while
      every replica is blocked, and may leave at any time. */
  ghost predicate EnabledInTicks(w: World, blocked: set<Id>, s: Step) {
    match s
    case OlderNodeWrites(node, _, _) => node in w.older && forall r :: r in w.replicas ==> r in blocked
    case OlderNodeLeaves(_) => true
    case _ => Enabled(w, s)
  }

  /** A blocked replica is between its deletion and its next peer list, and no backfill has
      an older write behind it. */
  ghost predicate TickOk(w: World, blocked: set<Id>) {
    forall r :: r in w.replicas ==> ReplicaTickOk(w.replicas[r], r in blocked)
  }

  predicate ReplicaTickOk(rep: Replica, blocked: bool) {
    && (blocked ==> rep.quiet && (rep.phase.Idle? || rep.phase == Gated(true)))
    && (Backfilling(rep) ==> rep.writers == {})
  }

  /** The simpler rule implies the environment conditions of `Gate`. */
  lemma TickRuleImplies(w: World, blocked: set<Id>, s: Step)
    requires TickOk(w, blocked) && EnabledInTicks(w, blocked, s)
    ensures Enabled(w, s)
    ensures s.OlderNodeWrites? ==> MayWrite(w, s.node)
    ensures s.OlderNodeLeaves? ==> MayLeave(w, s.node)
  {
  }

  /** The steps of the environment, seen by one replica. */
  lemma OthersKeepTick(w: World, blocked: set<Id>, s: Step, r: Id)
    requires TickOk(w, blocked) && EnabledInTicks(w, blocked, s) && r in w.replicas
    requires s.Client? || s.OlderNodeWrites? || s.OlderNodeRegisters? || s.OlderNodeLeaves?
    ensures r in Next(w, s).replicas && ReplicaTickOk(Next(w, s).replicas[r], r in blocked)
  {
    assert ReplicaTickOk(w.replicas[r], r in blocked);
  }

  /** A replica's own step. */
  lemma OwnKeepsTick(w: World, blocked: set<Id>, s: Step)
    requires TickOk(w, blocked) && EnabledInTicks(w, blocked, s)
    requires !s.Client? && !s.OlderNodeWrites? && !s.OlderNodeRegisters? && !s.OlderNodeLeaves? && !s.Leave?
    ensures s.r in Next(w, s).replicas && ReplicaTickOk(Next(w, s).replicas[s.r], s.r in Blocked(blocked, s))
    ensures forall o :: o != s.r ==> (o in Next(w, s).replicas <==> o in w.replicas)
    ensures forall o :: o in w.replicas && o != s.r ==>
              Next(w, s).replicas[o] == w.replicas[o] && (o in Blocked(blocked, s) <==> o in blocked)
  {
    if s.r in w.replicas {
      assert ReplicaTickOk(w.replicas[s.r], s.r in blocked);
    }
  }

  lemma TickRuleKept(w: World, blocked: set<Id>, s: Step)
    requires TickOk(w, blocked) && EnabledInTicks(w, blocked, s)
    ensures TickOk(Next(w, s), Blocked(blocked, s))
  {
    if s.Client? || s.OlderNodeWrites? || s.OlderNodeRegisters? || s.OlderNodeLeaves? {
      forall r | r in Next(w, s).replicas
        ensures ReplicaTickOk(Next(w, s).replicas[r], r in Blocked(blocked, s))
      {
        OthersKeepTick(w, blocked, s, r);
      }
    } else if !s.Leave? {
      OwnKeepsTick(w, blocked, s);
    }
  }

  ghost predicate IsTickRun(w: World, blocked: set<Id>, steps: seq<Step>)
    decreases |steps|
  {
    steps == [] ||
    (EnabledInTicks(w, blocked, steps[0]) &&
     IsTickRun(Next(w, steps[0]), Blocked(blocked, steps[0]), steps[1..]))
  }

  lemma {:induction false} TickRunIsRun(w: World, blocked: set<Id>, steps: seq<Step>)
    requires TickOk(w, blocked) && IsTickRun(w, blocked, steps)
    ensures IsRun(w, steps)
    decreases |steps|
  {
    if steps != [] {
      TickRuleImplies(w, blocked, steps[0]);
      TickRuleKept(w, blocked, steps[0]);
      TickRunIsRun(Next(w, steps[0]), Blocked(blocked, steps[0]), steps[1..]);
    }
  }

  /** Gate safety under the simpler rule. */
  lemma GateSafetyInTicks(w: World, steps: seq<Step>)
    requires Starts(w) && IsTickRun(w, {}, steps)
    ensures IsRun(w, steps)
    ensures var end := After(w, steps);
            (end.db.marked || exists r :: r in end.replicas && Trusts(end.replicas[r])) ==> Covers(end.db)
  {
    TickRunIsRun(w, {}, steps);
    GateSafety(w, steps);
  }
}
