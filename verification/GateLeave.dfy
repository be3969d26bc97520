/** When a replica may leave the fleet: the guard of `Leave` in `Gate` is not only enough for
    the gate's safety but also necessary. */
module GateLeave {
  import opened ByteStrings
  import opened Options
  import opened Store
  import opened Coverage
  import opened Gate
  import opened GateLimits

  lemma {:induction false} LengthBound(keys: set<Key>) returns (n: nat)
    ensures forall k :: k in keys ==> |k| <= n
  {
    if keys == {} {
      n := 0;
    } else {
      var k :| k in keys;
      var m := LengthBound(keys - {k});
      n := if m < |k| then |k| else m;
    }
  }

  /** Some key no index entry has. */
  lemma UnusedKey(keys: set<Key>) returns (k: Key)
    ensures k !in keys
  {
    var n := LengthBound(keys);
    k := seq(n + 1, _ => 0);
  }

  /** The replicas with a step to make before an older node may write. */
  function Restless(w: World): set<Id> {
    set r | r in w.replicas && (w.replicas[r].phase == ReadMark(false) || w.replicas[r].phase.Rechecking?)
  }

  ghost predicate NobodyAccountable(w: World) {
    forall r :: r in w.replicas ==> !Accountable(w.replicas[r])
  }

  /** The step that settles a restless replica, and how it leaves the replica. */
  lemma SettlesOne(w: World, r: Id) returns (w': World)
    requires NobodyAccountable(w) && r in Restless(w)
    ensures Reaches(w, w') && NobodyAccountable(w') && w'.db == w.db && Restless(w') == Restless(w) - {r}
  {
    var rep := w.replicas[r];
    var s := if rep.phase.Rechecking? then Recheck(r, None) else StoreFlag(r);
    w' := Next(w, s);
    assert w'.replicas[r].phase.Idle? || w'.replicas[r].phase.Gated?;
    assert Calm(w'.replicas[r]);
    ReachStep(w, s, w');
  }

  /** With nobody accountable for the mark, the fleet can come to a point at which an older
      node may write, the server unchanged. */
  lemma {:induction false} CalmsDown(w: World) returns (end: World)
    requires NobodyAccountable(w)
    ensures Reaches(w, end) && NobodyAccountable(end) && end.db == w.db && Restless(end) == {}
    decreases Restless(w)
  {
    if Restless(w) == {} {
      end := w;
      assert IsRun(w, []) && After(w, []) == w;
    } else {
      var r :| r in Restless(w);
      var w' := SettlesOne(w, r);
      end := CalmsDown(w');
      ReachTrans(w, w', end);
    }
  }

  /** A mark nobody is accountable for can come to miss a key. */
  lemma OrphanedMarkGoesWrong(w: World)
    requires w.db.marked && NobodyAccountable(w)
    ensures exists end :: Reaches(w, end) && end.db.marked && !Covers(end.db)
  {
    var calm := CalmsDown(w);
    var seen := Next(calm, OlderNodeRegisters(NODE));
    ReachStep(calm, OlderNodeRegisters(NODE), seen);
    var k := UnusedKey(calm.db.index);
    var write := OlderNodeWrites(NODE, k, Some(CELL));
    forall r | r in seen.replicas
      ensures Calm(seen.replicas[r]) && !seen.replicas[r].phase.Rechecking?
    {
      assert r !in Restless(calm);
    }
    var end := Next(seen, write);
    ReachStep(seen, write, end);
    assert end.db.Live(k) && k !in end.db.index;
    ReachTrans(w, calm, seen);
    ReachTrans(w, seen, end);
  }

  /** The exact condition: in any state of the protocol a replica can leave so that no run
      from there ever has a mark that misses a key, if and only if the mark is absent or
      another replica is accountable for it. */
  lemma LeaveGuardExact(w: World, r: Id)
    requires Inv(w) && r in w.replicas
    ensures Enabled(w, Leave(r)) <==>
            forall end :: Reaches(Next(w, Leave(r)), end) && end.db.marked ==> Covers(end.db)
  {
    var w' := Next(w, Leave(r));
    if Enabled(w, Leave(r)) {
      StepKeepsInv(w, Leave(r));
      forall end | Reaches(w', end) && end.db.marked
        ensures Covers(end.db)
      {
        var steps :| IsRun(w', steps) && After(w', steps) == end;
        RunKeepsInv(w', steps);
      }
    } else {
      assert w'.db.marked;
      assert NobodyAccountable(w');
      OrphanedMarkGoesWrong(w');
    }
  }
}
