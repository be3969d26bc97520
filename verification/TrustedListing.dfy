/** The gate and the listing together: what a caller may rely on when its first page is read
    through the index. */
module TrustedListing {
  import opened ByteStrings
  import opened Options
  import opened Store
  import opened Coverage
  import opened Gate
  import opened IndexListing

  /** A live indexed key leaves the index only by dying, whoever writes. */
  lemma IndexedWhileLive(db: Db, op: Op, k: Key)
    requires db.Live(k) && k in db.index && Apply(db, op).0.Live(k)
    ensures k in Apply(db, op).0.index
  {
    if !op.OlderWrite? {
      LiveAfterStep(db, op, k);
    }
  }

  /** The same for a step of the fleet. */
  lemma IndexedThroughStep(w: World, s: Step, k: Key)
    requires Enabled(w, s) && w.db.Live(k) && k in w.db.index && Next(w, s).db.Live(k)
    ensures k in Next(w, s).db.index
  {
    match s {
      case Client(op) => IndexedWhileLive(w.db, op, k);
      case OlderNodeWrites(_, key, cell) => IndexedWhileLive(w.db, OlderWrite(key, cell), k);
      case FillStep(r, nowMs) => IndexedWhileLive(w.db, Op.Backfill(w.replicas[r].phase.batch.value, nowMs), k);
      case _ =>
    }
  }

  /** The states a run passes through, its first and last included. */
  ghost function States(w: World, steps: seq<Step>): seq<Db>
    requires IsRun(w, steps)
    decreases |steps|
  {
    [w.db] + if steps == [] then [] else States(Next(w, steps[0]), steps[1..])
  }

  ghost predicate LiveThroughout(states: seq<Db>, k: Key) {
    forall t :: 0 <= t < |states| ==> states[t].Live(k)
  }

  lemma {:induction false} IndexedThroughRun(w: World, steps: seq<Step>, k: Key)
    requires IsRun(w, steps) && k in w.db.index && LiveThroughout(States(w, steps), k)
    ensures Throughout(States(w, steps), k)
    decreases |steps|
  {
    var states := States(w, steps);
    assert states[0] == w.db;
    if steps != [] {
      var w' := Next(w, steps[0]);
      var rest := States(w', steps[1..]);
      assert states[1..] == rest && rest[0] == w'.db;
      assert states[1].Live(k);
      IndexedThroughStep(w, steps[0], k);
      forall t | 0 <= t < |rest|
        ensures rest[t].Live(k)
      {
        assert rest[t] == states[t + 1];
      }
      IndexedThroughRun(w', steps[1..], k);
      forall t | 0 <= t < |states|
        ensures states[t].Live(k) && k in states[t].index
      {
        if t > 0 {
          assert states[t] == rest[t - 1];
        }
      }
    }
  }

  /** Over every interleaving: when a replica's flag is up as a pass begins, every key with
      the prefix that is alive from then to the end of the pass comes out exactly once, in
      order, even if the flag drops and older builds write while the pass is under way. */
  lemma TrustedPassMissesNothing(
      w: World, before: seq<Step>, r: Id, during: seq<Step>,
      keyPrefix: Key, prefix: Key, pages: seq<IndexPage>)
    requires Starts(w) && IsRun(w, before)
    requires r in After(w, before).replicas && After(w, before).replicas[r].ready
    requires IsRun(After(w, before), during)
    requires FinishedPass(States(After(w, before), during), pages, FullKey(keyPrefix, prefix), None)
    ensures var states := States(After(w, before), during);
            var es := Emitted(states, keyPrefix, pages, FullKey(keyPrefix, prefix), None);
            && AscendingEntries(es)
            && forall key :: prefix <= key && LiveThroughout(states, FullKey(keyPrefix, key)) ==> Once(es, key)
  {
    GateSafety(w, before);
    var start := After(w, before);
    var states := States(start, during);
    IndexPassIsSound(states, keyPrefix, prefix, pages);
    forall key | prefix <= key && LiveThroughout(states, FullKey(keyPrefix, key))
      ensures Throughout(states, FullKey(keyPrefix, key))
    {
      assert states[0] == start.db;
      IndexedThroughRun(start, during, FullKey(keyPrefix, key));
    }
  }
}
