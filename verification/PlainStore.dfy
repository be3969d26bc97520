/** The store as its callers see it: a map whose entries vanish when their time is up,
    with no indexes, no marks and no leftovers. */
module PlainStore {
  import opened ByteStrings
  import opened Options
  import opened Store
  import opened IndexListing

  datatype Plain = Plain(entries: map<Key, Cell>, now: int)

  /** The entries still alive at `now`. */
  function Unexpired(entries: map<Key, Cell>, now: int): map<Key, Cell> {
    map k | k in entries && (entries[k].expiry.Some? ==> now <= entries[k].expiry.value) :: entries[k]
  }

  function Abstract(db: Db): Plain {
    Plain(Unexpired(db.data, db.now), db.now)
  }

  function Deadline(p: Plain, ttl: nat): Option<int> {
    if ttl == 0 then None else Some(p.now + ttl)
  }

  /** Add to a counter: absent counts as a counter at 0 without a TTL; a TTL of 0 keeps
      the one there is. */
  function PlainAdd(p: Plain, k: Key, delta: int, ttl: nat): (Plain, Reply) {
    var was := if k in p.entries then p.entries[k] else Cell(Number(0), None);
    if was.value.Blob? || !Int64(was.value.n + delta) then (p, Precondition)
    else
      var sum := was.value.n + delta;
      (p.(entries := p.entries[k := Cell(Number(sum), if ttl == 0 then was.expiry else Deadline(p, ttl))]), Count(sum))
  }

  function PlainApply(p: Plain, op: Op): (Plain, Reply) {
    match op
    case Put(k, v, ttl, _, nx) =>
      if nx && k in p.entries then (p, Count(0))
      else (p.(entries := p.entries[k := Cell(v, Deadline(p, ttl))]), Count(1))
    case Delete(k) => (p.(entries := p.entries - {k}), Count(if k in p.entries then 1 else 0))
    case Expire(k, ttl, _) =>
      if k !in p.entries then (p, Count(0))
      else (p.(entries := p.entries[k := Cell(p.entries[k].value, Deadline(p, ttl))]), Count(1))
    case Incr(k, delta, ttl, _) => PlainAdd(p, k, delta, ttl)
    case IncrFloor(k, delta, floor, ttl, _) =>
      if k in p.entries && p.entries[k].value.Blob? then (p, Precondition)
      else
        var step := FloorStep(if k in p.entries then p.entries[k].value.n else 0, delta, floor);
        if step.None? then (p, Precondition) else PlainAdd(p, k, step.value, ttl)
    case Elapse(ms) => (Plain(Unexpired(p.entries, p.now + ms), p.now + ms), Count(0))
    case _ => (p, Count(0))
  }

  /** The operations a caller gets an answer from. */
  predicate CallerOp(op: Op) {
    op.Put? || op.Delete? || op.Expire? || op.Incr? || op.IncrFloor?
  }

  /** Storing a cell that is alive shows in the visible entries and nowhere else. */
  lemma UnexpiredAfterStore(entries: map<Key, Cell>, now: int, k: Key, cell: Cell)
    requires cell.expiry.Some? ==> now <= cell.expiry.value
    ensures Unexpired(entries[k := cell], now) == Unexpired(entries, now)[k := cell]
  {
  }

  lemma UnexpiredAfterRemoval(entries: map<Key, Cell>, now: int, gone: set<Key>)
    ensures Unexpired(entries - gone, now) == Unexpired(entries, now) - gone
  {
  }

  lemma UnexpiredLater(entries: map<Key, Cell>, now: int, ms: nat)
    ensures Unexpired(entries, now + ms) == Unexpired(Unexpired(entries, now), now + ms)
  {
  }

  lemma AddRefines(db: Db, k: Key, delta: int, ttl: nat, nowMs: int)
    ensures var (db', reply) := IncrScript(db, k, delta, ttl, nowMs);
            (Abstract(db'), reply) == PlainAdd(Abstract(db), k, delta, ttl)
  {
    var cell := IncrBy(db, k, delta);
    if cell.Some? {
      var stored := if ttl > 0 then cell.value.(expiry := Some(db.now + ttl)) else cell.value;
      UnexpiredAfterStore(db.data, db.now, k, stored);
    }
  }

  lemma FloorRefines(db: Db, k: Key, delta: I64, floor: I64, ttl: nat, nowMs: int)
    ensures var op := Op.IncrFloor(k, delta, floor, ttl, nowMs);
            Abstract(Apply(db, op).0) == PlainApply(Abstract(db), op).0 &&
            Apply(db, op).1 == PlainApply(Abstract(db), op).1
  {
    var current := CounterValue(db, k);
    if current.Some? && FloorStep(current.value, delta, floor).Some? {
      AddRefines(db, k, FloorStep(current.value, delta, floor).value, ttl, nowMs);
    }
  }

  /** Freed cells were expired already. */
  lemma ReapRefines(db: Db, gone: set<Key>)
    ensures Abstract(Apply(db, Reap(gone)).0) == Abstract(db)
  {
    var dead := set k | k in gone && !db.Live(k);
    UnexpiredAfterRemoval(db.data, db.now, dead);
    assert Unexpired(db.data, db.now) - dead == Unexpired(db.data, db.now);
  }

  lemma ExpireRefines(db: Db, k: Key, ttl: nat, nowMs: int)
    ensures var op := Op.Expire(k, ttl, nowMs);
            Abstract(Apply(db, op).0) == PlainApply(Abstract(db), op).0 &&
            Apply(db, op).1 == PlainApply(Abstract(db), op).1
  {
    if db.Live(k) {
      UnexpiredAfterStore(db.data, db.now, k, db.data[k].(expiry := ExpiryAfter(db, ttl)));
    }
  }

  /** One step: same visible state, same answer. Index repair, marks and freeing of
      expired cells are invisible. */
  lemma StepRefines(db: Db, op: Op)
    requires !op.OlderWrite?
    ensures Abstract(Apply(db, op).0) == PlainApply(Abstract(db), op).0
    ensures CallerOp(op) ==> Apply(db, op).1 == PlainApply(Abstract(db), op).1
  {
    match op {
      case Put(k, v, ttl, _, _) => UnexpiredAfterStore(db.data, db.now, k, Cell(v, ExpiryAfter(db, ttl)));
      case Delete(k) => UnexpiredAfterRemoval(db.data, db.now, {k});
      case Expire(k, ttl, nowMs) => ExpireRefines(db, k, ttl, nowMs);
      case Incr(k, delta, ttl, nowMs) => AddRefines(db, k, delta, ttl, nowMs);
      case IncrFloor(k, delta, floor, ttl, nowMs) => FloorRefines(db, k, delta, floor, ttl, nowMs);
      case Elapse(ms) => UnexpiredLater(db.data, db.now, ms);
      case Reap(gone) => ReapRefines(db, gone);
      case _ =>
    }
  }

  /** The answers the callers get over a run. */
  function Replies(db: Db, ops: seq<Op>): seq<Reply>
    decreases |ops|
  {
    if ops == [] then []
    else
      var (db', reply) := Apply(db, ops[0]);
      (if CallerOp(ops[0]) then [reply] else []) + Replies(db', ops[1..])
  }

  function PlainReplies(p: Plain, ops: seq<Op>): seq<Reply>
    decreases |ops|
  {
    if ops == [] then []
    else
      var (p', reply) := PlainApply(p, ops[0]);
      (if CallerOp(ops[0]) then [reply] else []) + PlainReplies(p', ops[1..])
  }

  function PlainRun(p: Plain, ops: seq<Op>): Plain
    decreases |ops|
  {
    if ops == [] then p else PlainRun(PlainApply(p, ops[0]).0, ops[1..])
  }

  /** Store refinement: over every run the scripts answer as the plain map does, expired
      being the same as absent, and leave the same visible state. */
  lemma {:induction false} RunRefines(db: Db, ops: seq<Op>)
    requires forall i :: 0 <= i < |ops| ==> !ops[i].OlderWrite?
    ensures Replies(db, ops) == PlainReplies(Abstract(db), ops)
    ensures Abstract(Run(db, ops)) == PlainRun(Abstract(db), ops)
    decreases |ops|
  {
    if ops != [] {
      StepRefines(db, ops[0]);
      RunRefines(Apply(db, ops[0]).0, ops[1..]);
    }
  }

  /** What a caller of the plain map reads: the value and the milliseconds left. */
  function PlainGet(p: Plain, k: Key): Option<Entry> {
    if k !in p.entries then None
    else
      var cell := p.entries[k];
      Some(Entry(cell.value, if cell.expiry.None? then None else Some(cell.expiry.value - p.now)))
  }

  /** `get`: the replies of `GET` and of `PTTL`, which other clients may step between. */
  function GetEntry(atGet: Db, atPttl: Db, k: Key): Option<Entry> {
    EntryOf(Answer(atGet.Get(k), atPttl.Pttl(k)))
  }

  /** A read that nobody steps into is the plain map's. */
  lemma ReadsRefine(db: Db, k: Key)
    ensures GetEntry(db, db, k) == PlainGet(Abstract(db), k)
  {
    assert Abstract(db).entries.Keys == set x | x in db.data && db.Live(x);
  }

  /** In general a read is the plain map's at its second command if and only if the key was
      dead then or had the same value at the first; and at its first if and only if the key
      was dead then or is still alive with as much time left. It finds nothing exactly when
      the key was dead at either. */
  lemma ReadExactly(atGet: Db, atPttl: Db, k: Key)
    ensures GetEntry(atGet, atPttl, k) == PlainGet(Abstract(atPttl), k) <==>
            (atPttl.Live(k) ==> atGet.Get(k) == atPttl.Get(k))
    ensures GetEntry(atGet, atPttl, k) == PlainGet(Abstract(atGet), k) <==>
            (atGet.Live(k) ==> atGet.Pttl(k) == atPttl.Pttl(k))
    ensures GetEntry(atGet, atPttl, k).None? <==> !atGet.Live(k) || !atPttl.Live(k)
  {
    ReadsRefine(atGet, k);
    ReadsRefine(atPttl, k);
  }

  /** So a read is torn, the plain map's at neither command, if and only if the key is alive at
      both with another value and with another time left. */
  lemma TornExactly(atGet: Db, atPttl: Db, k: Key)
    ensures GetEntry(atGet, atPttl, k) != PlainGet(Abstract(atGet), k) &&
            GetEntry(atGet, atPttl, k) != PlainGet(Abstract(atPttl), k) <==>
            atGet.Live(k) && atPttl.Live(k) &&
            atGet.data[k].value != atPttl.data[k].value && atGet.Pttl(k) != atPttl.Pttl(k)
  {
    ReadExactly(atGet, atPttl, k);
  }

  /** The step changes neither the key's value nor whether it is there, unless it expires. */
  predicate Spares(op: Op, k: Key) {
    match op
    case Put(x, _, _, _, _) => x != k
    case Delete(x) => x != k
    case Incr(x, _, _, _) => x != k
    case IncrFloor(x, _, _, _, _) => x != k
    case OlderWrite(x, _) => x != k
    case _ => true
  }

  /** In particular it is while nobody writes the key: its TTL may be changed, it may expire,
      the indexes may be repaired, and all other keys are free. */
  lemma {:induction false} ReadWhileSpared(db: Db, ops: seq<Op>, k: Key)
    requires forall i :: 0 <= i < |ops| ==> Spares(ops[i], k)
    ensures Run(db, ops).Live(k) ==> db.Get(k) == Run(db, ops).Get(k)
    ensures GetEntry(db, Run(db, ops), k) == PlainGet(Abstract(Run(db, ops)), k)
    decreases |ops|
  {
    if ops != [] {
      var db' := Apply(db, ops[0]).0;
      assert Spares(ops[0], k);
      ReadWhileSpared(db', ops[1..], k);
    }
    ReadExactly(db, Run(db, ops), k);
  }

  /** Otherwise a read can be torn: the old value with the new one's TTL, which the key never
      had together. */
  lemma TornRead(k: Key)
    ensures var before := SetScript(EMPTY, k, Number(1), 0, 0, false).0;
            var after := SetScript(before, k, Number(2), 5, 0, false).0;
            var torn := GetEntry(before, after, k);
            torn == Some(Entry(Number(1), Some(5))) &&
            torn != PlainGet(Abstract(before), k) && torn != PlainGet(Abstract(after), k)
  {
  }

  predicate Claims(db: Db, op: Op, k: Key) {
    op.Put? && op.nx && op.key == k && Apply(db, op).1 == Count(1)
  }

  /** Single winner: after a successful `put_if_absent`, no further one on the key succeeds
      until an instant at which the key is absent. */
  lemma {:induction false} SingleWinner(db: Db, claim: Op, between: seq<Op>, again: Op, k: Key)
    requires Claims(db, claim, k)
    requires Claims(Run(Apply(db, claim).0, between), again, k)
    ensures Apply(db, claim).0.Live(k)
    ensures between != []
    ensures exists n :: 0 < n <= |between| && !Run(Apply(db, claim).0, between[..n]).Live(k)
  {
    var db1 := Apply(db, claim).0;
    assert between[..|between|] == between;
    assert !Run(db1, between).Live(k);
    assert between != [];
  }

  /** How long a key given the caller's TTL has left, in milliseconds (-1 for ever): none for
      an absent TTL, else its whole milliseconds, at least 1 and at most 2^64 - 1. */
  predicate Asked(ttlNanos: Option<nat>, left: int) {
    match ttlNanos
    case None => left == -1
    case Some(nanos) =>
      && 1 <= left <= 0xFFFF_FFFF_FFFF_FFFF
      && (nanos < 1_000_000 ==> left == 1)
      && (1_000_000 <= nanos < 0x1_0000_0000_0000_0000 * 1_000_000 ==>
            left * 1_000_000 <= nanos < (left + 1) * 1_000_000)
      && (nanos >= 0x1_0000_0000_0000_0000 * 1_000_000 ==> left == 0xFFFF_FFFF_FFFF_FFFF)
  }

  /** The key has its asked time left and is scored to match, if it ends at all. */
  ghost predicate Honoured(db: Db, k: Key, ttlNanos: Option<nat>, nowMs: int) {
    && Asked(ttlNanos, db.Pttl(k))
    && (ttlNanos.None? ==> k !in db.scores)
    && (ttlNanos.Some? ==> k in db.scores && db.scores[k] == nowMs + db.Pttl(k))
  }

  /** What storing with a TTL and setting one on a live key give. */
  lemma TtlHonoured(db: Db, k: Key, v: Value, ttlNanos: Option<nat>, nowMs: int)
    ensures Honoured(SetScript(db, k, v, TtlMs(ttlNanos), nowMs, false).0, k, ttlNanos, nowMs)
    ensures !db.Live(k) ==> Honoured(SetScript(db, k, v, TtlMs(ttlNanos), nowMs, true).0, k, ttlNanos, nowMs)
    ensures db.Live(k) ==> Honoured(ExpireScript(db, k, TtlMs(ttlNanos), nowMs).0, k, ttlNanos, nowMs)
  {
  }

  /** A counter keeps the TTL it had when none is given, none at all if it is new. */
  lemma CounterTtlHonoured(db: Db, k: Key, delta: int, ttlNanos: Option<nat>, nowMs: int)
    requires IncrScript(db, k, delta, TtlMs(ttlNanos), nowMs).1.Count?
    ensures var db' := IncrScript(db, k, delta, TtlMs(ttlNanos), nowMs).0;
            if ttlNanos.Some? then Honoured(db', k, ttlNanos, nowMs)
            else db'.Pttl(k) == (if db.Live(k) then db.Pttl(k) else -1) && db'.scores == db.scores
  {
  }

  /** And so does a floored one. */
  lemma FloorTtlHonoured(db: Db, k: Key, delta: I64, floor: I64, ttlNanos: Option<nat>, nowMs: int)
    requires IncrFloorScript(db, k, delta, floor, TtlMs(ttlNanos), nowMs).1.Count?
    ensures var db' := IncrFloorScript(db, k, delta, floor, TtlMs(ttlNanos), nowMs).0;
            if ttlNanos.Some? then Honoured(db', k, ttlNanos, nowMs)
            else db'.Pttl(k) == (if db.Live(k) then db.Pttl(k) else -1) && db'.scores == db.scores
  {
    CounterTtlHonoured(db, k, FloorStep(CounterValue(db, k).value, delta, floor).value, ttlNanos, nowMs);
  }

  /** Time passes: a key with no time limit stays for ever, any other is alive up to and at
      its last millisecond and gone after it. */
  lemma TimePasses(db: Db, k: Key, ms: nat)
    requires db.Live(k)
    ensures var later := Apply(db, Elapse(ms)).0;
            && (db.Pttl(k) == -1 ==> later.Pttl(k) == -1 && later.Get(k) == db.Get(k))
            && (db.Pttl(k) >= 0 ==>
                  (later.Live(k) <==> ms <= db.Pttl(k)) &&
                  (later.Live(k) ==> later.Pttl(k) == db.Pttl(k) - ms && later.Get(k) == db.Get(k)))
  {
  }

  /** What a caller's TTL means: a key stored or re-timed with one lives exactly that long;
      with none it lives until somebody changes it. An absent TTL is never read as a short
      one, nor a given one, zero included, as none. */
  lemma GivenTtlExpires(db: Db, k: Key, v: Value, ttlNanos: Option<nat>, nowMs: int, ms: nat)
    ensures var stored := SetScript(db, k, v, TtlMs(ttlNanos), nowMs, false).0;
            var later := Apply(stored, Elapse(ms)).0;
            && Honoured(stored, k, ttlNanos, nowMs)
            && (later.Live(k) <==> ttlNanos.None? || ms <= stored.Pttl(k))
            && (ttlNanos.None? ==> later.Pttl(k) == -1 && k !in later.scores)
    ensures db.Live(k) ==>
              var timed := ExpireScript(db, k, TtlMs(ttlNanos), nowMs).0;
              var later := Apply(timed, Elapse(ms)).0;
              && Honoured(timed, k, ttlNanos, nowMs)
              && (later.Live(k) <==> ttlNanos.None? || ms <= timed.Pttl(k))
              && (ttlNanos.None? ==> later.Pttl(k) == -1 && k !in later.scores)
  {
    TtlHonoured(db, k, v, ttlNanos, nowMs);
    TimePasses(SetScript(db, k, v, TtlMs(ttlNanos), nowMs, false).0, k, ms);
    if db.Live(k) {
      TimePasses(ExpireScript(db, k, TtlMs(ttlNanos), nowMs).0, k, ms);
    }
  }
}
