/** The renewal task: how long it sleeps, and that renewing on time keeps the lease through
    runs of any length. */
module Renewal {
  import opened ByteStrings
  import opened Options
  import opened Store
  import opened Lease

  const NANOS_PER_MS: nat := 1_000_000
  const U64_MAX: nat := 0xFFFF_FFFF_FFFF_FFFF

  /** The longest `Duration`, in nanoseconds. */
  const DURATION_MAX: nat := (U64_MAX + 1) * 1_000_000_000 - 1

  function Clamp(x: int, lo: int, hi: int): int {
    if x < lo then lo else if x > hi then hi else x
  }

  /** How long the task sleeps between renewals, in nanoseconds. */
  function RenewalInterval(ttlMs: nat, percent: nat): nat {
    var pct := Clamp(percent, 1, 99);
    var product := ttlMs * NANOS_PER_MS * (100 - pct);
    var sleep := (if product > DURATION_MAX then DURATION_MAX else product) / 100;
    if sleep == 0 then 100 * NANOS_PER_MS else sleep
  }

  /** For every TTL of at least 1 ms and every configured percentage the task sleeps for a
      positive time strictly below the TTL: neither the saturation nor the fallback for a
      zero sleep ever takes effect. */
  lemma IntervalInsideTtl(ttlMs: nat, percent: nat)
    requires 1 <= ttlMs <= U64_MAX
    ensures 0 < RenewalInterval(ttlMs, percent) < ttlMs * NANOS_PER_MS
    ensures 100 * RenewalInterval(ttlMs, percent) == ttlMs * NANOS_PER_MS * (100 - Clamp(percent, 1, 99))
  {
    var rest := 100 - Clamp(percent, 1, 99);
    Scaled(ttlMs, rest);
    var scaled := ttlMs * rest;
    assert ttlMs * NANOS_PER_MS * rest == 100 * (10_000 * scaled);
  }

  lemma Scaled(ttlMs: nat, rest: nat)
    requires 1 <= rest <= 99
    ensures ttlMs <= ttlMs * rest <= 99 * ttlMs
    ensures ttlMs * NANOS_PER_MS * rest == NANOS_PER_MS * (ttlMs * rest)
  {
    assert ttlMs * (rest - 1) >= 0;
    assert ttlMs * (99 - rest) >= 0;
  }

  /** The server's millisecond clock at an instant in nanoseconds. */
  function Ms(nanos: nat): nat {
    nanos / NANOS_PER_MS
  }

  /** A cycle whose delay on top of the sleep is at most what the TTL leaves stays, at every
      instant up to its renewal, within the TTL of the renewal before. */
  lemma CycleIsPunctual(ttlMs: nat, percent: nat, renewedAt: nat, delay: nat, t: nat)
    requires 1 <= ttlMs <= U64_MAX
    requires delay <= ttlMs * NANOS_PER_MS - RenewalInterval(ttlMs, percent)
    requires renewedAt <= t <= renewedAt + RenewalInterval(ttlMs, percent) + delay
    ensures Ms(t) <= Ms(renewedAt) + ttlMs
  {
    IntervalInsideTtl(ttlMs, percent);
    assert Ms(renewedAt + ttlMs * NANOS_PER_MS) == Ms(renewedAt) + ttlMs;
  }

  /** The node holds the lease, until the deadline or some later instant. */
  ghost predicate Holds(s: System, k: Key, node: Value, deadline: int) {
    && s.db.HeldBy(k, node) && s.db.now <= deadline
    && s.db.keys[k].expiry.Some? && deadline <= s.db.keys[k].expiry.value
  }

  /** The step is a renewal script of this node on this lease. */
  ghost predicate Renews(s: System, step: Step, k: Key, node: Value)
    requires Enabled(s, step)
  {
    step.RunRenew? && Actor(s, step).value.key == k && Actor(s, step).value.node == node
  }

  /** A run in which the clock never passes `last + ttl` before the next renewal, this
      node's renewals ask for at least `ttl`, no handle of this node releases the lease, and
      nobody uses the lease's key as a fence. All else is free: other nodes may acquire,
      renew and release this lease and any other at any point. */
  ghost predicate Punctual(s: System, steps: seq<Step>, k: Key, node: Value, ttl: nat, last: int)
    decreases |steps|
  {
    steps == [] ||
    var step := steps[0];
    && Enabled(s, step)
    && Next(s, step).db.now <= last + ttl
    && (step.RunRelease? ==> !(Actor(s, step).value.key == k && Actor(s, step).value.node == node))
    && (step.Acquire? ==> k != FenceKey(step.key))
    && (Renews(s, step, k, node) ==> Actor(s, step).value.ttl >= ttl)
    && Punctual(Next(s, step), steps[1..], k, node, ttl, if Renews(s, step, k, node) then s.db.now else last)
  }

  /** Along the run every renewal of this node is told it succeeded, and every acquisition
      of this lease, by anyone, is refused. */
  ghost predicate NothingLost(s: System, steps: seq<Step>, k: Key, node: Value)
    decreases |steps|
  {
    steps == [] ||
    (Enabled(s, steps[0]) &&
     (Renews(s, steps[0], k, node) ==> Next(s, steps[0]).flights[steps[0].f].updated) &&
     (steps[0].Acquire? && steps[0].key == k ==> Next(s, steps[0]) == s) &&
     NothingLost(Next(s, steps[0]), steps[1..], k, node))
  }

  lemma StepHolds(s: System, step: Step, k: Key, node: Value, ttl: nat, last: int)
    requires Holds(s, k, node, last + ttl) && Enabled(s, step)
    requires Next(s, step).db.now <= last + ttl
    requires step.RunRelease? ==> !(Actor(s, step).value.key == k && Actor(s, step).value.node == node)
    requires step.Acquire? ==> k != FenceKey(step.key)
    requires Renews(s, step, k, node) ==> Actor(s, step).value.ttl >= ttl
    ensures Holds(Next(s, step), k, node, (if Renews(s, step, k, node) then s.db.now else last) + ttl)
    ensures Renews(s, step, k, node) ==> Next(s, step).flights[step.f].updated
    ensures step.Acquire? && step.key == k ==> Next(s, step) == s
  {
  }

  /** Renewal keeps the lease: in a punctual run of any length every renewal succeeds and no
      acquisition does, and the node still holds the lease at the end. */
  lemma {:induction false} RenewalKeepsTheLease(s: System, steps: seq<Step>, k: Key, node: Value, ttl: nat, last: int)
    requires Holds(s, k, node, last + ttl) && Punctual(s, steps, k, node, ttl, last)
    ensures NothingLost(s, steps, k, node)
    ensures IsRun(s, steps) && After(s, steps).db.HeldBy(k, node)
    decreases |steps|
  {
    if steps != [] {
      var step := steps[0];
      StepHolds(s, step, k, node, ttl, last);
      RenewalKeepsTheLease(Next(s, step), steps[1..], k, node, ttl,
                           if Renews(s, step, k, node) then s.db.now else last);
    }
  }

  // ---- The renewal task on the clock ----

  /** A step with the instant (in ns) it is served at; `byTask` marks the scripts of the
      renewal task. */
  datatype Event = Event(at: nat, step: Step, byTask: bool)

  function AtInstant(s: System, at: nat): System {
    s.(db := s.db.(now := Ms(at)))
  }

  /** A timed run after the node's acquisition, or latest renewal by its task, at `renewedAt`.
      The next renewal by the task is served exactly one sleep and one delay later, the delays
      being what the TTL leaves at most; until then anyone may do anything, with the same
      exceptions as in `Punctual`. `prev` is the instant of the event before. */
  ghost predicate Timed(s: System, events: seq<Event>, k: Key, node: Value, ttl: nat, percent: nat,
                        prev: nat, renewedAt: nat, delays: seq<nat>)
    decreases |events|
  {
    events == [] ||
    var e := events[0];
    var s1 := AtInstant(s, e.at);
    && delays != []
    && RenewalInterval(ttl, percent) + delays[0] <= ttl * NANOS_PER_MS
    && prev <= e.at <= renewedAt + RenewalInterval(ttl, percent) + delays[0]
    && !e.step.Elapse? && Enabled(s1, e.step)
    && (e.step.RunRelease? ==> !(Actor(s1, e.step).value.key == k && Actor(s1, e.step).value.node == node))
    && (e.step.Acquire? ==> k != FenceKey(e.step.key))
    && (Renews(s1, e.step, k, node) ==> Actor(s1, e.step).value.ttl >= ttl)
    && (e.byTask ==>
          Renews(s1, e.step, k, node) && e.at == renewedAt + RenewalInterval(ttl, percent) + delays[0])
    && Timed(Next(s1, e.step), events[1..], k, node, ttl, percent, e.at,
             if e.byTask then e.at else renewedAt, if e.byTask then delays[1..] else delays)
  }

  /** The timed run as steps of the system: the clock moves, then the step is served. */
  function StepsOf(events: seq<Event>, prev: nat): seq<Step> {
    if events == [] then []
    else
      [Step.Elapse(if events[0].at < prev then 0 else Ms(events[0].at) - Ms(prev)), events[0].step]
      + StepsOf(events[1..], events[0].at)
  }

  /** A timed run is punctual. */
  lemma {:induction false} TimedIsPunctual(s: System, events: seq<Event>, k: Key, node: Value, ttl: nat, percent: nat,
                                           prev: nat, renewedAt: nat, delays: seq<nat>, last: int)
    requires 1 <= ttl <= U64_MAX && renewedAt <= prev && s.db.now == Ms(prev) && last >= Ms(renewedAt)
    requires Timed(s, events, k, node, ttl, percent, prev, renewedAt, delays)
    ensures Punctual(s, StepsOf(events, prev), k, node, ttl, last)
    decreases |events|
  {
    if events != [] {
      var e, rest := events[0], StepsOf(events[1..], events[0].at);
      var elapse := Step.Elapse(Ms(e.at) - Ms(prev));
      var s1 := Next(s, elapse);
      assert s1 == AtInstant(s, e.at);
      CycleIsPunctual(ttl, percent, renewedAt, delays[0], e.at);
      var s2 := Next(s1, e.step);
      var last' := if Renews(s1, e.step, k, node) then s1.db.now else last;
      TimedIsPunctual(s2, events[1..], k, node, ttl, percent, e.at,
                      if e.byTask then e.at else renewedAt, if e.byTask then delays[1..] else delays, last');
      var steps := StepsOf(events, prev);
      assert steps == [elapse, e.step] + rest;
      assert steps[1..] == [e.step] + rest && steps[1..][1..] == rest;
      assert Punctual(s1, steps[1..], k, node, ttl, last);
    }
  }

  /** From the acquisition on, for every TTL, every configured percentage and every schedule
      of delays within what the TTL leaves: each renewal succeeds, no acquisition does, and
      the node holds the lease at the end, over runs of any length. */
  lemma TaskKeepsTheLease(s: System, k: Key, node: Value, ttl: nat, percent: nat,
                          acquiredAt: nat, events: seq<Event>, delays: seq<nat>)
    requires 1 <= ttl <= U64_MAX && s.db.now == Ms(acquiredAt) && !s.db.Live(k)
    requires Enabled(s, Acquire(k, node, ttl))
    requires Timed(Next(s, Acquire(k, node, ttl)), events, k, node, ttl, percent, acquiredAt, acquiredAt, delays)
    ensures var acquired, steps := Next(s, Acquire(k, node, ttl)), StepsOf(events, acquiredAt);
            && NothingLost(acquired, steps, k, node)
            && IsRun(acquired, steps) && After(acquired, steps).db.HeldBy(k, node)
  {
    var acquired := Next(s, Acquire(k, node, ttl));
    AcquisitionHolds(s, k, node, ttl);
    TimedIsPunctual(acquired, events, k, node, ttl, percent, acquiredAt, acquiredAt, delays, Ms(acquiredAt));
    RenewalKeepsTheLease(acquired, StepsOf(events, acquiredAt), k, node, ttl, Ms(acquiredAt));
  }

  /** It starts with an acquisition: the node that is granted the lease holds it for the TTL. */
  lemma AcquisitionHolds(s: System, k: Key, node: Value, ttl: nat)
    requires Enabled(s, Acquire(k, node, ttl)) && !s.db.Live(k)
    ensures Holds(Next(s, Acquire(k, node, ttl)), k, node, s.db.now + ttl)
  {
    FenceKeysDistinct(k, k);
  }
}
