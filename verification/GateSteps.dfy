/** The single steps of `Gate` put together again: without anyone stepping in they do to flag
    and mark what `gate_index` and `complete_index` do as methods in `Maintenance`. */
module GateSteps {
  import opened ByteStrings
  import opened Options
  import opened Store
  import opened Gate

  /** The flag and the mark as this replica's step left them, the data untouched. */
  ghost predicate Leaves(before: World, after: World, r: Id, ready: bool, marked: bool) {
    && r in after.replicas && after.replicas[r].ready == ready
    && after.db == before.db.(marked := marked) && after.older == before.older
    && forall o :: o != r ==>
         (o in after.replicas <==> o in before.replicas) &&
         (o in after.replicas ==> after.replicas[o] == before.replicas[o])
  }

  /** The gate step of a tick that saw an older build: the flag goes down whatever becomes of
      the deletion, and the mark goes if it took. */
  lemma LowersAsWritten(w: World, r: Id, took: bool, answered: bool)
    requires r in w.replicas && w.replicas[r].phase == Listed(true) && (answered ==> took)
    ensures Enabled(w, LowerFlag(r)) &&
            var w1 := Next(w, LowerFlag(r));
            Enabled(w1, DeleteMark(r, took, answered)) &&
            var w2 := Next(w1, DeleteMark(r, took, answered));
            Leaves(w, w2, r, false, w.db.marked && !took) && w2.replicas[r].phase == Gated(true)
  {
  }

  /** Of a tick that saw none: the flag follows the mark, or stays when there is no answer. */
  lemma FollowsAsWritten(w: World, r: Id, answered: bool)
    requires r in w.replicas && w.replicas[r].phase == Listed(false)
    ensures Enabled(w, ReadTheMark(r, answered)) &&
            var w1 := Next(w, ReadTheMark(r, answered));
            if !answered then
              Leaves(w, w1, r, w.replicas[r].ready, w.db.marked) && w1.replicas[r].phase == Gated(false)
            else
              Enabled(w1, StoreFlag(r)) &&
              var w2 := Next(w1, StoreFlag(r));
              Leaves(w, w2, r, w.db.marked, w.db.marked) && w2.replicas[r].phase == Gated(false)
  {
  }

  /** The end of a backfill: only a clean second listing leads to the mark, which is set if
      the command took, and only an answer to that raises the flag. */
  lemma CompletesAsWritten(w: World, r: Id, olderPeer: Option<bool>, took: bool, answered: bool)
    requires r in w.replicas && w.replicas[r].phase.Rechecking? && (answered ==> took)
    requires Enabled(w, Recheck(r, olderPeer))
    ensures var w1 := Next(w, Recheck(r, olderPeer));
            if olderPeer != Some(false) then
              Leaves(w, w1, r, w.replicas[r].ready, w.db.marked) && w1.replicas[r].phase.Idle?
            else
              Enabled(w1, SetTheMark(r, took, answered)) &&
              var w2 := Next(w1, SetTheMark(r, took, answered));
              if !answered then Leaves(w, w2, r, w.replicas[r].ready, w.db.marked || took) && w2.replicas[r].phase.Idle?
              else
                Enabled(w2, RaiseFlag(r)) &&
                var w3 := Next(w2, RaiseFlag(r));
                Leaves(w, w3, r, true, true) && w3.replicas[r].phase.Idle?
  {
  }

  /** A process that starts, anew or again, does not trust the index. */
  lemma StartsDistrusting(w: World, r: Id)
    ensures r in w.replicas ==> Next(w, Restart(r)).replicas[r] == FRESH && Next(w, Restart(r)).db == w.db
    ensures Next(w, Join(r)).replicas[r] == FRESH && Next(w, Join(r)).db == w.db
    ensures !FRESH.ready && FRESH.phase.Idle?
  {
  }

  /** Which steps begin a backfill, and when: after a gate step that saw no older build, and
      only without the flag; an error anywhere in it leaves flag and mark alone. */
  lemma BackfillsAsWritten(w: World, r: Id)
    requires r in w.replicas
    ensures Enabled(w, StartBackfill(r)) <==> w.replicas[r].phase == Gated(false) && !w.replicas[r].ready
    ensures Enabled(w, AbandonBackfill(r)) ==>
              Leaves(w, Next(w, AbandonBackfill(r)), r, w.replicas[r].ready, w.db.marked)
  {
  }
}
