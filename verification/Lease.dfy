/** Leases of `src/lease.rs`: the three scripts, the handles with their local flag, and every
    interleaving of acquisitions, renewals and releases by any nodes. */
module Lease {
  import opened ByteStrings
  import opened Options
  import opened Store

  const SLASH: TextByte := 47
  const FENCE: Key := [58, 102, 101, 110, 99, 101]  // ":fence"

  /** `lease_keys`: the key that is the lease, and the key of its fence counter. */
  function LeaseKey(prefix: Key, kind: Key, name: Key): Key {
    prefix + kind + [SLASH] + name
  }

  function FenceKey(leaseKey: Key): Key {
    leaseKey + FENCE
  }

  /** Two leases of one deployment collide exactly when they are of one kind and one's name
      is the other's followed by ":fence". */
  lemma KeysCollideExactly(prefix: Key, kindA: Key, nameA: Key, kindB: Key, nameB: Key)
    requires SLASH !in kindA && SLASH !in kindB
    ensures FenceKey(LeaseKey(prefix, kindA, nameA)) == LeaseKey(prefix, kindB, nameB) <==>
            kindA == kindB && nameB == nameA + FENCE
    ensures LeaseKey(prefix, kindA, nameA) == LeaseKey(prefix, kindB, nameB) <==> kindA == kindB && nameA == nameB
  {
    SplitAtSlash(prefix, kindA, nameA + FENCE, kindB, nameB);
    SplitAtSlash(prefix, kindA, nameA, kindB, nameB);
    assert FenceKey(LeaseKey(prefix, kindA, nameA)) == LeaseKey(prefix, kindA, nameA + FENCE);
  }

  lemma SplitAtSlash(prefix: Key, kindA: Key, a: Key, kindB: Key, b: Key)
    requires SLASH !in kindA && SLASH !in kindB
    ensures LeaseKey(prefix, kindA, a) == LeaseKey(prefix, kindB, b) <==> kindA == kindB && a == b
  {
    var x, y := LeaseKey(prefix, kindA, a), LeaseKey(prefix, kindB, b);
    var p, m, n := |prefix|, |kindA|, |kindB|;
    assert x[p + m] == SLASH && y[p + n] == SLASH;
    assert m < n ==> y[p + m] == kindB[m] != SLASH;
    assert n < m ==> x[p + n] == kindA[n] != SLASH;
    if x == y {
      assert m == n;
      assert x[p..p + m] == kindA && y[p..p + n] == kindB;
      assert x[p + m + 1..] == a && y[p + n + 1..] == b;
    }
  }

  // ---- The scripts ----

  datatype LeaseDb = LeaseDb(keys: map<Key, Cell>, now: int)
  {
    predicate Live(k: Key) {
      k in keys && (keys[k].expiry.Some? ==> now <= keys[k].expiry.value)
    }

    /** The key is alive and holds this node's id. */
    predicate HeldBy(k: Key, node: Value) {
      Live(k) && keys[k].value == node
    }
  }

  datatype Grant = Granted(token: int) | Refused | Failed

  /** `SET` with the TTL and `INCR` of the fence, when the key is absent. A failing `INCR`
      does not undo the `SET`. */
  function AcquireScript(db: LeaseDb, k: Key, node: Value, ttl: nat): (LeaseDb, Grant) {
    if db.Live(k) then (db, Refused)
    else
      var db1 := db.(keys := db.keys[k := Cell(node, Some(db.now + ttl))]);
      var fence := if db1.Live(FenceKey(k)) then db1.keys[FenceKey(k)] else Cell(Number(0), None);
      if fence.value.Number? && fence.value.n < INT64_MAX
      then (db1.(keys := db1.keys[FenceKey(k) := fence.(value := Number(fence.value.n + 1))]),
            Granted(fence.value.n + 1))
      else (db1, Failed)
  }

  /** `PEXPIRE` when the holder still matches. */
  function RenewScript(db: LeaseDb, k: Key, node: Value, ttl: nat): (LeaseDb, bool) {
    if db.HeldBy(k, node) then (db.(keys := db.keys[k := Cell(node, Some(db.now + ttl))]), true) else (db, false)
  }

  /** `DEL` when the holder still matches. */
  function ReleaseScript(db: LeaseDb, k: Key, node: Value): (LeaseDb, bool) {
    if db.HeldBy(k, node) then (db.(keys := db.keys - {k}), true) else (db, false)
  }

  // ---- The system ----

  datatype Handle = Handle(key: Key, node: Value, ttl: nat, token: int, released: bool)

  /** A call on a handle that passed its local check and has further steps to make. */
  datatype Flight = Renewing(h: nat) | Renewed(h: nat, updated: bool) | Releasing(h: nat) | Done

  /** Handles in the order of their acquisition; several calls on one may be under way. */
  datatype System = System(db: LeaseDb, handles: seq<Handle>, flights: seq<Flight>)

  datatype Step =
    | Elapse(ms: nat)
    | Acquire(key: Key, node: Value, ttl: nat)
    | BeginRenew(h: nat)    // renew_state reads the flag
    | RunRenew(f: nat)      // its script
    | EndRenew(f: nat)      // it sees the reply
    | LoseRenew(f: nat)     // or an error, whether its script ran or not
    | BeginRelease(h: nat)  // release_state swaps the flag
    | RunRelease(f: nat)    // its script

  predicate Enabled(s: System, step: Step) {
    match step
    case Elapse(_) => true
    case Acquire(k, _, ttl) => ttl >= 1 && FenceOf(s.db, k) < INT64_MAX
    case BeginRenew(h) => h < |s.handles|
    case RunRenew(f) => f < |s.flights| && s.flights[f].Renewing? && s.flights[f].h < |s.handles|
    case EndRenew(f) => f < |s.flights| && s.flights[f].Renewed? && s.flights[f].h < |s.handles|
    case LoseRenew(f) => f < |s.flights| && (s.flights[f].Renewing? || s.flights[f].Renewed?)
    case BeginRelease(h) => h < |s.handles|
    case RunRelease(f) => f < |s.flights| && s.flights[f].Releasing? && s.flights[f].h < |s.handles|
  }

  function Next(s: System, step: Step): System
    requires Enabled(s, step)
  {
    match step
    case Elapse(ms) => s.(db := s.db.(now := s.db.now + ms))
    case Acquire(k, node, ttl) =>
      var (db, grant) := AcquireScript(s.db, k, node, ttl);
      s.(db := db,
         handles := if grant.Granted? then s.handles + [Handle(k, node, ttl, grant.token, false)] else s.handles)
    case BeginRenew(h) =>
      if s.handles[h].released then s else s.(flights := s.flights + [Renewing(h)])
    case RunRenew(f) =>
      var hd := s.handles[s.flights[f].h];
      var (db, updated) := RenewScript(s.db, hd.key, hd.node, hd.ttl);
      s.(db := db, flights := s.flights[f := Renewed(s.flights[f].h, updated)])
    case EndRenew(f) =>
      var h := s.flights[f].h;
      s.(flights := s.flights[f := Done],
         handles := if s.flights[f].updated then s.handles else s.handles[h := s.handles[h].(released := true)])
    case LoseRenew(f) => s.(flights := s.flights[f := Done])
    case BeginRelease(h) =>
      if s.handles[h].released then s
      else s.(handles := s.handles[h := s.handles[h].(released := true)], flights := s.flights + [Releasing(h)])
    case RunRelease(f) =>
      var hd := s.handles[s.flights[f].h];
      s.(db := ReleaseScript(s.db, hd.key, hd.node).0, flights := s.flights[f := Done])
  }

  ghost predicate IsRun(s: System, steps: seq<Step>)
    decreases |steps|
  {
    steps == [] || (Enabled(s, steps[0]) && IsRun(Next(s, steps[0]), steps[1..]))
  }

  ghost function After(s: System, steps: seq<Step>): System
    requires IsRun(s, steps)
    decreases |steps|
  {
    if steps == [] then s else After(Next(s, steps[0]), steps[1..])
  }

  // ---- Fences and holders ----

  /** The fence counter of a lease; an absent one is 0. */
  function FenceOf(db: LeaseDb, k: Key): int {
    if db.Live(FenceKey(k)) && db.keys[FenceKey(k)].value.Number? then db.keys[FenceKey(k)].value.n else 0
  }

  /** No lease in use is named as another's fence. */
  ghost predicate NoClash(leases: set<Key>) {
    forall a, b :: a in leases && b in leases ==> b != FenceKey(a)
  }

  /** The fence key holds a counter without a TTL, or nothing. */
  predicate CleanFence(db: LeaseDb, k: Key) {
    FenceKey(k) in db.keys ==> db.keys[FenceKey(k)].value.Number? && db.keys[FenceKey(k)].expiry.None?
  }

  /** What the handles of one lease have to do with its keys: tokens strictly increase in
      acquisition order up to the fence counter, and a live lease is held by the node that
      received the counter's value. */
  ghost predicate LeaseOk(s: System, k: Key) {
    && CleanFence(s.db, k)
    && (forall i :: 0 <= i < |s.handles| && s.handles[i].key == k ==> s.handles[i].token <= FenceOf(s.db, k))
    && (forall i, j :: 0 <= i < j < |s.handles| && s.handles[i].key == k && s.handles[j].key == k ==>
          s.handles[i].token < s.handles[j].token)
    && (s.db.Live(k) ==> exists i :: 0 <= i < |s.handles| && s.handles[i].key == k &&
                                     s.handles[i].token == FenceOf(s.db, k) && s.db.keys[k].value == s.handles[i].node)
  }

  ghost predicate Inv(s: System, leases: set<Key>) {
    && NoClash(leases)
    && (forall i :: 0 <= i < |s.handles| ==> s.handles[i].key in leases)
    && (forall k :: k in leases ==> LeaseOk(s, k))
  }

  ghost predicate Uses(step: Step, leases: set<Key>) {
    step.Acquire? ==> step.key in leases
  }

  lemma FenceKeysDistinct(a: Key, b: Key)
    ensures FenceKey(a) != a
    ensures FenceKey(a) == FenceKey(b) <==> a == b
  {
    if FenceKey(a) == FenceKey(b) {
      assert FenceKey(a)[..|a|] == a && FenceKey(b)[..|b|] == b;
    }
  }

  /** What a granted acquisition writes: its lease and its fence, and nothing else. */
  lemma AcquireEffects(db: LeaseDb, k: Key, node: Value, ttl: nat)
    requires !db.Live(k) && CleanFence(db, k) && FenceOf(db, k) < INT64_MAX
    ensures var (db', grant) := AcquireScript(db, k, node, ttl);
            && grant == Granted(FenceOf(db, k) + 1)
            && db'.HeldBy(k, node)
            && CleanFence(db', k) && FenceOf(db', k) == FenceOf(db, k) + 1
            && forall x :: x != k && x != FenceKey(k) ==>
                (x in db'.keys <==> x in db.keys) && (x in db.keys ==> db'.keys[x] == db.keys[x])
  {
    FenceKeysDistinct(k, k);
  }

  /** The acquisition of one lease, seen from any lease. */
  lemma AcquireKeeps(s: System, step: Step, leases: set<Key>, k: Key)
    requires Inv(s, leases) && step.Acquire? && Enabled(s, step) && Uses(step, leases) && k in leases
    ensures LeaseOk(Next(s, step), k)
  {
    var s' := Next(s, step);
    assert LeaseOk(s, k) && LeaseOk(s, step.key);
    if s.db.Live(step.key) {
      assert s' == s;
    } else {
      AcquireEffects(s.db, step.key, step.node, step.ttl);
      FenceKeysDistinct(k, step.key);
      var last := |s.handles|;
      assert s'.handles[last] == Handle(step.key, step.node, step.ttl, FenceOf(s.db, step.key) + 1, false);
      assert forall i :: 0 <= i < last ==> s'.handles[i] == s.handles[i];
      if k != step.key {
        assert FenceOf(s'.db, k) == FenceOf(s.db, k);
      }
    }
  }

  /** Every other step leaves the handles as they were, but for their flags, and any key it
      does not act on; the key it acts on it can only keep for its holder or drop. */
  lemma OtherEffects(s: System, step: Step, k: Key)
    requires !step.Acquire? && Enabled(s, step)
    ensures var s' := Next(s, step);
            && |s'.handles| == |s.handles|
            && (forall i :: 0 <= i < |s.handles| ==>
                  s'.handles[i].key == s.handles[i].key && s'.handles[i].token == s.handles[i].token &&
                  s'.handles[i].node == s.handles[i].node)
            && (s'.db.Live(k) ==> s.db.Live(k) && s'.db.keys[k].value == s.db.keys[k].value)
            && ((forall i :: 0 <= i < |s.handles| ==> s.handles[i].key != k) ==>
                  (k in s'.db.keys <==> k in s.db.keys) && (k in s.db.keys ==> s'.db.keys[k] == s.db.keys[k]))
  {
  }

  /** A lease stays in order while its handles and fence stay and it is kept or dropped. */
  lemma LeaseOkCarries(s: System, s': System, k: Key)
    requires LeaseOk(s, k) && CleanFence(s'.db, k) && FenceOf(s'.db, k) == FenceOf(s.db, k)
    requires |s'.handles| == |s.handles|
    requires forall i :: 0 <= i < |s.handles| ==>
               s'.handles[i].key == s.handles[i].key && s'.handles[i].token == s.handles[i].token &&
               s'.handles[i].node == s.handles[i].node
    requires s'.db.Live(k) ==> s.db.Live(k) && s'.db.keys[k].value == s.db.keys[k].value
    ensures LeaseOk(s', k)
  {
    if s'.db.Live(k) {
      var i :| 0 <= i < |s.handles| && s.handles[i].key == k &&
               s.handles[i].token == FenceOf(s.db, k) && s.db.keys[k].value == s.handles[i].node;
      assert s'.handles[i].key == k && s'.handles[i].node == s.handles[i].node;
    }
  }

  lemma OtherKeeps(s: System, step: Step, leases: set<Key>, k: Key)
    requires Inv(s, leases) && !step.Acquire? && Enabled(s, step) && k in leases
    ensures LeaseOk(Next(s, step), k)
  {
    assert LeaseOk(s, k);
    OtherEffects(s, step, k);
    assert FenceKey(k) !in leases;
    OtherEffects(s, step, FenceKey(k));
    LeaseOkCarries(s, Next(s, step), k);
  }

  ghost predicate FlightsOk(s: System) {
    forall f :: 0 <= f < |s.flights| && !s.flights[f].Done? ==> s.flights[f].h < |s.handles|
  }

  lemma StepKeepsInv(s: System, step: Step, leases: set<Key>)
    requires Inv(s, leases) && FlightsOk(s) && Enabled(s, step) && Uses(step, leases)
    ensures Inv(Next(s, step), leases) && FlightsOk(Next(s, step))
  {
    forall k | k in leases
      ensures LeaseOk(Next(s, step), k)
    {
      if step.Acquire? {
        AcquireKeeps(s, step, leases, k);
      } else {
        OtherKeeps(s, step, leases, k);
      }
    }
  }

  lemma {:induction false} RunKeepsInv(s: System, steps: seq<Step>, leases: set<Key>)
    requires Inv(s, leases) && FlightsOk(s) && IsRun(s, steps)
    requires forall i :: 0 <= i < |steps| ==> Uses(steps[i], leases)
    ensures Inv(After(s, steps), leases) && FlightsOk(After(s, steps))
    decreases |steps|
  {
    if steps != [] {
      StepKeepsInv(s, steps[0], leases);
      RunKeepsInv(Next(s, steps[0]), steps[1..], leases);
    }
  }

  /** A fleet that holds nothing yet; fence counters may be left from earlier. */
  ghost predicate Starts(s: System, leases: set<Key>) {
    && s.handles == [] && s.flights == []
    && (forall k :: k in leases ==> !s.db.Live(k) && CleanFence(s.db, k))
  }

  /** Fence and holder: for leases none of which is named as another's fence, in every run
      the tokens of one lease strictly increase in acquisition order, across expiry, release
      and different nodes, and while the lease is alive its holder is the node that
      received the largest token. */
  lemma FenceAndHolder(s: System, steps: seq<Step>, leases: set<Key>)
    requires NoClash(leases) && Starts(s, leases) && IsRun(s, steps)
    requires forall i :: 0 <= i < |steps| ==> Uses(steps[i], leases)
    ensures var hs := After(s, steps).handles;
            forall i, j :: 0 <= i < j < |hs| && hs[i].key == hs[j].key ==> hs[i].token < hs[j].token
    ensures var end := After(s, steps);
            forall k :: k in leases && end.db.Live(k) ==>
              exists i :: 0 <= i < |end.handles| && end.handles[i].key == k && end.db.HeldBy(k, end.handles[i].node) &&
                          forall j :: 0 <= j < |end.handles| && end.handles[j].key == k ==>
                              end.handles[j].token <= end.handles[i].token
  {
    RunKeepsInv(s, steps, leases);
    var end := After(s, steps);
    forall k | k in leases && end.db.Live(k)
      ensures exists i :: 0 <= i < |end.handles| && end.handles[i].key == k && end.db.HeldBy(k, end.handles[i].node) &&
                          forall j :: 0 <= j < |end.handles| && end.handles[j].key == k ==>
                              end.handles[j].token <= end.handles[i].token
    {
      assert LeaseOk(end, k);
    }
    forall i, j | 0 <= i < j < |end.handles| && end.handles[i].key == end.handles[j].key
      ensures end.handles[i].token < end.handles[j].token
    {
      assert LeaseOk(end, end.handles[i].key);
    }
  }

  /** What goes wrong otherwise. With the lease "x:fence" held by a node whose id is a
      number, acquiring "x" increments that id as its fence counter, under the other lease's
      TTL: once it runs out, tokens of "x" start over. */
  lemma ClashRestartsTokens(x: Key)
    ensures !NoClash({x, FenceKey(x)})
    ensures var db0 := LeaseDb(map[], 0);
            var (db1, g1) := AcquireScript(db0, FenceKey(x), Number(7), 10);
            var (db2, g2) := AcquireScript(db1, x, Number(1), 5);
            var (db3, g3) := AcquireScript(db2.(now := 11), x, Number(2), 5);
            g1 == Granted(1) && g2 == Granted(8) && g3 == Granted(1)
  {
    FenceKeysDistinct(x, FenceKey(x));
    FenceKeysDistinct(FenceKey(x), x);
    assert |FenceKey(FenceKey(x))| > |FenceKey(x)| > |x|;
  }

  /** A run from a fleet that holds nothing yet, on these leases only. */
  ghost predicate LeaseRun(s: System, steps: seq<Step>, leases: set<Key>) {
    Starts(s, leases) && IsRun(s, steps) && forall i :: 0 <= i < |steps| ==> Uses(steps[i], leases)
  }

  ghost predicate TokensIncrease(s: System) {
    forall i, j :: 0 <= i < j < |s.handles| && s.handles[i].key == s.handles[j].key ==>
      s.handles[i].token < s.handles[j].token
  }

  const NOTHING: System := System(LeaseDb(map[], 0), [], [])

  lemma RunFrom(s: System, step: Step, rest: seq<Step>)
    requires Enabled(s, step) && IsRun(Next(s, step), rest)
    ensures IsRun(s, [step] + rest) && After(s, [step] + rest) == After(Next(s, step), rest)
  {
    assert ([step] + rest)[1..] == rest;
  }

  /** The run of `ClashRestartsTokens`. */
  lemma ClashRun(x: Key, leases: set<Key>) returns (steps: seq<Step>)
    requires x in leases && FenceKey(x) in leases
    ensures LeaseRun(NOTHING, steps, leases) && !TokensIncrease(After(NOTHING, steps))
  {
    ClashRestartsTokens(x);
    FenceKeysDistinct(x, FenceKey(x));
    var a, b, c := Acquire(FenceKey(x), Number(7), 10), Acquire(x, Number(1), 5), Acquire(x, Number(2), 5);
    var s1 := Next(NOTHING, a);
    var s2 := Next(s1, b);
    var s3 := Next(s2, Step.Elapse(11));
    var s4 := Next(s3, c);
    assert s2.handles[1] == Handle(x, Number(1), 5, 8, false);
    assert s4.handles[1] == s2.handles[1] && s4.handles[2] == Handle(x, Number(2), 5, 1, false);
    RunFrom(s3, c, []);
    RunFrom(s2, Step.Elapse(11), [c]);
    RunFrom(s1, b, [Step.Elapse(11)] + [c]);
    steps := [a] + ([b] + ([Step.Elapse(11)] + [c]));
    RunFrom(NOTHING, a, [b] + ([Step.Elapse(11)] + [c]));
    assert [c] + [] == [c];
  }

  /** The exact condition: over every run on these leases the tokens of each strictly increase,
      if and only if none of them is named as another's fence. */
  lemma TokensIncreaseIff(leases: set<Key>)
    ensures NoClash(leases) <==>
            forall s, steps :: LeaseRun(s, steps, leases) ==> TokensIncrease(After(s, steps))
  {
    if NoClash(leases) {
      forall s, steps | LeaseRun(s, steps, leases)
        ensures TokensIncrease(After(s, steps))
      {
        FenceAndHolder(s, steps, leases);
      }
    } else {
      var x, y :| x in leases && y in leases && y == FenceKey(x);
      var steps := ClashRun(x, leases);
    }
  }

  // ---- Stale handles ----

  /** The lease a step's script acts on, and for which node. */
  function Actor(s: System, step: Step): Option<Handle>
    requires Enabled(s, step)
  {
    match step
    case RunRenew(f) => Some(s.handles[s.flights[f].h])
    case RunRelease(f) => Some(s.handles[s.flights[f].h])
    case _ => None
  }

  /** A renewal or release of a handle whose node is not the holder changes no key, however
      long ago its local check passed; no step but an acquisition brings a dead lease to
      life; and no step changes the holder of a live one. */
  lemma StaleHandlesAreHarmless(s: System, step: Step, k: Key)
    requires Enabled(s, step)
    ensures var a := Actor(s, step); a.Some? && !s.db.HeldBy(a.value.key, a.value.node) ==> Next(s, step).db == s.db
    ensures !step.Acquire? && !s.db.Live(k) ==> !Next(s, step).db.Live(k)
    ensures s.db.Live(k) && Next(s, step).db.Live(k) && (step.Acquire? ==> k != FenceKey(step.key)) ==>
              Next(s, step).db.keys[k].value == s.db.keys[k].value
    ensures s.db.Live(k) && !Next(s, step).db.Live(k) ==>
              step.Elapse? || (step.RunRelease? && Actor(s, step).value.key == k &&
                               Actor(s, step).value.node == s.db.keys[k].value)
  {
  }

  /** No renewal or release, by whomever and however late, ever brings a dead lease back:
      over a run without an acquisition of it, it stays dead. */
  lemma {:induction false} DeadUntilAcquired(s: System, steps: seq<Step>, k: Key)
    requires IsRun(s, steps) && !s.db.Live(k)
    requires forall i :: 0 <= i < |steps| && steps[i].Acquire? ==> k != steps[i].key && k != FenceKey(steps[i].key)
    ensures !After(s, steps).db.Live(k)
    decreases |steps|
  {
    if steps != [] {
      StaleHandlesAreHarmless(s, steps[0], k);
      DeadUntilAcquired(Next(s, steps[0]), steps[1..], k);
    }
  }

  /** A handle once released stays released. */
  lemma {:induction false} ReleasedForever(s: System, steps: seq<Step>, h: nat)
    requires IsRun(s, steps) && h < |s.handles| && s.handles[h].released
    ensures |After(s, steps).handles| > h && After(s, steps).handles[h].released
    decreases |steps|
  {
    if steps != [] {
      var s' := Next(s, steps[0]);
      assert h < |s'.handles| && s'.handles[h].released;
      ReleasedForever(s', steps[1..], h);
    }
  }

  /** A lease changes hands only through an instant at which it is dead. */
  lemma {:induction false} HandoverThroughDeath(s: System, steps: seq<Step>, leases: set<Key>, k: Key)
    requires IsRun(s, steps) && NoClash(leases) && k in leases
    requires forall i :: 0 <= i < |steps| ==> Uses(steps[i], leases)
    requires s.db.Live(k)
    requires !After(s, steps).db.HeldBy(k, s.db.keys[k].value)
    ensures exists n :: 0 < n <= |steps| && IsRun(s, steps[..n]) && !After(s, steps[..n]).db.Live(k)
    decreases |steps|
  {
    var s' := Next(s, steps[0]);
    StaleHandlesAreHarmless(s, steps[0], k);
    if !s'.db.Live(k) {
      assert steps[..1][1..] == [] && steps[..1][0] == steps[0];
      assert IsRun(s', []);
      assert IsRun(s, steps[..1]) && After(s, steps[..1]) == s';
    } else {
      HandoverThroughDeath(s', steps[1..], leases, k);
      var n :| 0 < n <= |steps[1..]| && IsRun(s', steps[1..][..n]) && !After(s', steps[1..][..n]).db.Live(k);
      assert steps[..n + 1][1..] == steps[1..][..n] && steps[..n + 1][0] == steps[0];
      assert IsRun(s, steps[..n + 1]) && After(s, steps[..n + 1]) == After(s', steps[1..][..n]);
    }
  }

  // ---- What each script achieves ----

  /** Nothing but this key differs. */
  ghost predicate OnlyKey(before: LeaseDb, after: LeaseDb, k: Key) {
    after.now == before.now &&
    forall x :: x != k ==>
      (x in after.keys <==> x in before.keys) && (x in after.keys ==> after.keys[x] == before.keys[x])
  }

  /** The node holds the key, which dies `ttl` from now. */
  predicate HeldFor(db: LeaseDb, k: Key, node: Value, ttl: nat) {
    db.HeldBy(k, node) && db.keys[k].expiry == Some(db.now + ttl)
  }

  /** A renewal succeeds exactly for the holder, and then the lease lasts `ttl` from now. */
  lemma RenewExactly(db: LeaseDb, k: Key, node: Value, ttl: nat)
    ensures var (db', updated) := RenewScript(db, k, node, ttl);
            && (updated <==> db.HeldBy(k, node))
            && (updated ==> HeldFor(db', k, node, ttl) && OnlyKey(db, db', k))
            && (!updated ==> db' == db)
  {
  }

  /** A release by the holder frees the lease, and only that; anybody else's does nothing. */
  lemma ReleaseExactly(db: LeaseDb, k: Key, node: Value)
    ensures var (db', deleted) := ReleaseScript(db, k, node);
            && (deleted <==> db.HeldBy(k, node))
            && (deleted ==> k !in db'.keys && OnlyKey(db, db', k))
            && (!deleted ==> db' == db)
  {
  }

  /** An acquisition is refused exactly while the key is alive, whoever holds it. Otherwise
      the node holds it for `ttl`, and it is granted, with the next token, if its fence is a
      counter below the limit. */
  lemma AcquireExactly(db: LeaseDb, k: Key, node: Value, ttl: nat)
    ensures var (db', grant) := AcquireScript(db, k, node, ttl);
            && (grant.Refused? <==> db.Live(k)) && (grant.Refused? ==> db' == db)
            && (!db.Live(k) ==> HeldFor(db', k, node, ttl))
            && (!db.Live(k) && CleanFence(db, k) && FenceOf(db, k) < INT64_MAX ==>
                  grant == Granted(FenceOf(db, k) + 1) && FenceOf(db', k) == FenceOf(db, k) + 1)
  {
    FenceKeysDistinct(k, k);
  }

  /** After a release by the holder, any node's next attempt is granted. */
  lemma ReleaseFrees(db: LeaseDb, k: Key, holder: Value, next: Value, ttl: nat)
    requires db.HeldBy(k, holder) && CleanFence(db, k) && FenceOf(db, k) < INT64_MAX
    ensures var freed := ReleaseScript(db, k, holder).0;
            var (db', grant) := AcquireScript(freed, k, next, ttl);
            && !freed.Live(k)
            && grant == Granted(FenceOf(db, k) + 1) && HeldFor(db', k, next, ttl)
  {
    FenceKeysDistinct(k, k);
    ReleaseExactly(db, k, holder);
    assert FenceOf(ReleaseScript(db, k, holder).0, k) == FenceOf(db, k);
    AcquireExactly(ReleaseScript(db, k, holder).0, k, next, ttl);
  }

  /** An acquired or renewed lease dies `ttl` later, to the millisecond. */
  lemma LeaseEnds(db: LeaseDb, k: Key, node: Value, ttl: nat, ms: nat)
    requires HeldFor(db, k, node, ttl)
    ensures db.(now := db.now + ms).HeldBy(k, node) <==> ms <= ttl
  {
  }

  /** A renewal nobody steps into, in its three steps: on a released handle nothing happens;
      else the flag goes up exactly if the script finds the node no longer the holder. */
  lemma RenewInSteps(s: System, h: nat)
    requires h < |s.handles|
    ensures s.handles[h].released ==> Next(s, BeginRenew(h)) == s
    ensures !s.handles[h].released ==>
              var f, hd := |s.flights|, s.handles[h];
              var s1 := Next(s, BeginRenew(h));
              Enabled(s1, RunRenew(f)) &&
              var s2 := Next(s1, RunRenew(f));
              Enabled(s2, EndRenew(f)) &&
              var s3 := Next(s2, EndRenew(f));
              && s3.db == RenewScript(s.db, hd.key, hd.node, hd.ttl).0
              && s3.handles[h] == hd.(released := !s.db.HeldBy(hd.key, hd.node))
  {
  }

  /** And a release: the flag goes up at once, and the holder's frees the lease. */
  lemma ReleaseInSteps(s: System, h: nat)
    requires h < |s.handles|
    ensures s.handles[h].released ==> Next(s, BeginRelease(h)) == s
    ensures !s.handles[h].released ==>
              var f, hd := |s.flights|, s.handles[h];
              var s1 := Next(s, BeginRelease(h));
              s1.db == s.db && s1.handles[h].released && Enabled(s1, RunRelease(f)) &&
              var s2 := Next(s1, RunRelease(f));
              s2.db == ReleaseScript(s.db, hd.key, hd.node).0 && s2.handles[h].released
  {
  }
}
