/** `incr_floor` computes in doubles: which operands it takes, when its result is the
    exact `max(current, floor) + delta`, and what holds where it is not. */
module CounterFloor {
  import opened ByteStrings
  import opened Options
  import opened Store
  import opened Doubles

  function Max(a: int, b: int): int {
    if a < b then b else a
  }

  /** All three operands are integers of magnitude below 2^53. */
  predicate InRange(current: int, delta: int, floor: int) {
    Abs(current) < EXACT && Abs(floor) < EXACT && Abs(delta) < EXACT
  }

  /** The guard accepts exactly the integer operands of magnitude below 2^53. */
  lemma OperandsAccepted(current: I64, delta: I64, floor: I64)
    ensures FloorStep(current, delta, floor).Some? <==> InRange(current, delta, floor)
    ensures FloorStep(current, delta, floor).Some? ==>
              FloorStep(current, delta, floor).value == Round(Round(Max(current, floor) - current) + delta)
  {
    GuardExact(current);
    GuardExact(delta);
    GuardExact(floor);
    if InRange(current, delta, floor) {
      RoundSmall(current);
      RoundSmall(delta);
      RoundSmall(floor);
    }
  }

  /** The step of an accepted call: the two roundings, each over a sum below 2^55. */
  lemma StepRoundings(current: I64, delta: I64, floor: I64) returns (gap: nat, raised: int, step: int)
    requires InRange(current, delta, floor)
    ensures gap == Max(current, floor) - current <= 2 * EXACT - 2
    ensures Rounded(gap, raised) && raised == Round(gap)
    ensures Rounded(raised + delta, step) && FloorStep(current, delta, floor) == Some(step)
  {
    OperandsAccepted(current, delta, floor);
    gap := Max(current, floor) - current;
    RoundCases(gap);
    raised := Round(gap);
    RoundCases(raised + delta);
    step := Round(raised + delta);
  }

  /** The step an accepted call adds stays far inside 64 bits, so `INCRBY` never raises. */
  lemma StepBounded(current: I64, delta: I64, floor: I64)
    requires InRange(current, delta, floor)
    ensures FloorStep(current, delta, floor).Some? && Abs(FloorStep(current, delta, floor).value) <= 4 * EXACT
  {
    var gap, raised, step := StepRoundings(current, delta, floor);
  }

  /** While both partial sums stay within 2^53 the result is exact. */
  lemma ExactWithinRange(current: I64, delta: I64, floor: I64)
    requires InRange(current, delta, floor)
    requires var base := Max(current, floor); Abs(base - current) <= EXACT && Abs(base - current + delta) <= EXACT
    ensures FloorStep(current, delta, floor) == Some(Max(current, floor) + delta - current)
  {
    OperandsAccepted(current, delta, floor);
    RoundSmall(Max(current, floor) - current);
    RoundSmall(Max(current, floor) - current + delta);
  }

  /** When the step comes out as `gap + delta`, by the sums a caller can form beforehand. */
  predicate ExactStep(gap: nat, delta: int) {
    var step := gap + delta;
    if gap <= EXACT || gap % 2 == 0
    then step <= EXACT || (step <= 2 * EXACT && step % 2 == 0) || step % 4 == 0
    else step % 4 == 0 && (if gap % 4 == 1 then step > EXACT else step >= EXACT)
  }

  lemma EvenByFours(x: int)
    ensures x % 2 == 0 <==> x % 4 == 0 || x % 4 == 2
  {
  }

  /** When a rounding is the identity, and when it moves by one up or down. */
  lemma RoundedBy(x: int, r: int)
    requires Rounded(x, r)
    ensures r == x <==> x <= EXACT || (x <= 2 * EXACT && x % 2 == 0) || x % 4 == 0
    ensures r == x + 1 <==> x % 4 == 3 && x + 1 > EXACT
    ensures r == x - 1 <==> x % 4 == 1 && x - 1 >= EXACT
  {
    EvenByFours(x);
  }

  lemma ExactArithmetic(gap: nat, delta: int, raised: int, step: int)
    requires Rounded(gap, raised) && Rounded(raised + delta, step) && gap <= 2 * EXACT - 2
    ensures step == gap + delta <==> ExactStep(gap, delta)
  {
    EvenByFours(gap);
    RoundedBy(gap, raised);
    var sum, exact := raised + delta, gap + delta;
    RoundedBy(sum, step);
    if raised == gap - 1 {
      assert sum % 4 == 3 <==> exact % 4 == 0;
    } else if raised == gap + 1 {
      assert sum % 4 == 1 <==> exact % 4 == 0;
    }
  }

  lemma ExactSmallGap(gap: nat, delta: int, step: int)
    requires gap < EXACT && delta < EXACT && step == gap + delta
    ensures ExactStep(gap, delta) <==> step <= EXACT || step % 2 == 0
  {
    EvenByFours(step);
    assert step < 2 * EXACT;
  }

  /** Over all operands the guard accepts, the result is max(current, floor) + delta if and
      only if `ExactStep` holds of the gap up to the floor and the delta. */
  lemma ExactIff(current: I64, delta: I64, floor: I64)
    requires InRange(current, delta, floor)
    ensures FloorStep(current, delta, floor) == Some(Max(current, floor) + delta - current) <==>
            ExactStep(Max(current, floor) - current, delta)
  {
    var gap, raised, step := StepRoundings(current, delta, floor);
    ExactArithmetic(gap, delta, raised, step);
  }

  /** For a counter that is not negative the condition is that the step is at most 2^53 or
      even. */
  lemma ExactForCounters(current: I64, delta: I64, floor: I64)
    requires InRange(current, delta, floor) && current >= 0
    ensures ExactStep(Max(current, floor) - current, delta) <==>
            Max(current, floor) - current + delta <= EXACT || (Max(current, floor) - current + delta) % 2 == 0
  {
    ExactSmallGap(Max(current, floor) - current, delta, Max(current, floor) - current + delta);
  }

  lemma AboveArithmetic(gap: nat, delta: int, raised: int, step: int)
    requires Rounded(gap, raised) && Rounded(raised + delta, step) && gap <= 2 * EXACT - 2 && delta >= 1
    ensures step > gap <==> !(delta == 1 && gap >= EXACT && (gap % 4 == 0 || gap % 4 == 1))
    ensures step < gap <==> delta == 1 && gap >= EXACT && gap % 4 == 1
  {
  }

  /** Raised by at least one, the counter ends above both itself and the floor, except in
      one family: a delta of 1 where the floor is 2^53 or more above the counter, at a
      distance of 0 or 1 modulo 4. There it ends at the floor or, at 1 modulo 4, below it. */
  lemma AboveIff(current: I64, delta: I64, floor: I64)
    requires InRange(current, delta, floor) && delta >= 1
    ensures FloorStep(current, delta, floor).Some?
    ensures var gap, base := Max(current, floor) - current, Max(current, floor);
            var result := current + FloorStep(current, delta, floor).value;
            && (result > base <==> !(delta == 1 && gap >= EXACT && (gap % 4 == 0 || gap % 4 == 1)))
            && (result < base <==> delta == 1 && gap >= EXACT && gap % 4 == 1)
  {
    var gap, raised, step := StepRoundings(current, delta, floor);
    AboveArithmetic(gap, delta, raised, step);
  }

  /** A counter that is not negative, raised by at least one, ends strictly above both
      itself and the floor even where the sum rounds. */
  lemma StrictlyAbove(current: I64, delta: I64, floor: I64)
    requires InRange(current, delta, floor) && current >= 0 && delta >= 1
    ensures FloorStep(current, delta, floor).Some?
    ensures var result := current + FloorStep(current, delta, floor).value; current < result && floor < result
  {
    AboveIff(current, delta, floor);
  }

  /** The exactness promised for operands below 2^53 fails: a sum past 2^53 rounds. */
  lemma InexactSum()
    ensures FloorStep(0, 2, EXACT - 1) == Some(EXACT)
    ensures Max(0, EXACT - 1) + 2 == EXACT + 1
  {
    var gap, raised, step := StepRoundings(0, 2, EXACT - 1);
  }

  /** For a negative counter the result can be no more than the floor, or even less. */
  lemma BelowFloor()
    ensures var step := FloorStep(-1, 1, EXACT - 1); step.Some? && -1 + step.value == EXACT - 1
    ensures var step := FloorStep(1 - EXACT, 1, EXACT - 2); step.Some? && 1 - EXACT + step.value < EXACT - 2
  {
    var gap, raised, step := StepRoundings(-1, 1, EXACT - 1);
    gap, raised, step := StepRoundings(1 - EXACT, 1, EXACT - 2);
  }

  /** An accepted call never fails in `INCRBY`: the script answers with the counter's new
      value and stores exactly that, keeping the TTL when none is given. */
  lemma AcceptedCallStores(db: Db, k: Key, delta: I64, floor: I64, ttl: nat, nowMs: int)
    requires CounterValue(db, k).Some?
    ensures var current := CounterValue(db, k).value;
            var (db', reply) := IncrFloorScript(db, k, delta, floor, ttl, nowMs);
            if InRange(current, delta, floor)
            then reply.Count? && CounterValue(db', k) == Some(reply.n) &&
                 reply.n == current + Round(Round(Max(current, floor) - current) + delta)
            else reply.Precondition? && db' == db
  {
    var current := CounterValue(db, k).value;
    OperandsAccepted(current, delta, floor);
    if FloorStep(current, delta, floor).Some? {
      StepBounded(current, delta, floor);
    }
  }

  /** What a caller of `incr_floor` gets, from the state before to the state after. */
  ghost predicate FloorOutcome(before: Db, after: Db, reply: Reply, k: Key, delta: I64, floor: I64) {
    var current := CounterValue(before, k);
    if current.Some? && InRange(current.value, delta, floor)
    then reply.Count? && CounterValue(after, k) == Some(reply.n) && Promised(current.value, delta, floor, reply.n)
    else reply == Precondition && after == before
  }

  /** An accepted call's result: when it is exact, and when it is above counter and floor. */
  predicate Promised(current: I64, delta: I64, floor: I64, result: int) {
    var gap, base := Max(current, floor) - current, Max(current, floor);
    && (result == base + delta <==> ExactStep(gap, delta))
    && (delta >= 1 ==> (result > base <==> !(delta == 1 && gap >= EXACT && (gap % 4 == 0 || gap % 4 == 1))))
  }

  lemma PromiseKept(current: I64, delta: I64, floor: I64)
    requires InRange(current, delta, floor)
    ensures FloorStep(current, delta, floor).Some?
    ensures Promised(current, delta, floor, current + FloorStep(current, delta, floor).value)
  {
    OperandsAccepted(current, delta, floor);
    ExactIff(current, delta, floor);
    if delta >= 1 {
      AboveIff(current, delta, floor);
    }
  }

  lemma OutcomeOfFloor(db: Db, k: Key, delta: I64, floor: I64, ttl: nat, nowMs: int)
    ensures var (db', reply) := IncrFloorScript(db, k, delta, floor, ttl, nowMs);
            FloorOutcome(db, db', reply, k, delta, floor)
  {
    if CounterValue(db, k).Some? {
      var current := CounterValue(db, k).value;
      AcceptedCallStores(db, k, delta, floor, ttl, nowMs);
      if InRange(current, delta, floor) {
        OperandsAccepted(current, delta, floor);
        PromiseKept(current, delta, floor);
      }
    }
  }
}
