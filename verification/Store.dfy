/** The server state behind `src/state/kv.rs` and the effect of each Lua script on it.
    A script runs atomically, so one function application is one step of the fleet. */
module Store {
  import opened ByteStrings
  import opened Options
  import Doubles

  const INT64_MAX: int := 0x7FFF_FFFF_FFFF_FFFF

  predicate Int64(n: int) {
    -INT64_MAX - 1 <= n <= INT64_MAX
  }

  type I64 = n: int | Int64(n)

  /** A stored string: `Number(n)` when the bytes are the canonical decimal of the
      64-bit integer `n` (what `INCRBY` accepts), otherwise the bytes. */
  datatype Value = Number(n: I64) | Blob(bytes: Bytes)

  /** A data key's value and the server instant (Unix ms) it lives until. */
  datatype Cell = Cell(value: Value, expiry: Option<int>)

  datatype Db = Db(
    data: map<Key, Cell>,   // the keyspace; an expired cell may still sit in it
    index: set<Key>,        // the key index
    scores: map<Key, int>,  // the expiry index
    marked: bool,           // the completeness mark exists
    now: int)               // the server clock
  {
    /** Redis expires a key once the clock is past its expiry, so 0 ms left is alive. */
    predicate Live(k: Key) {
      k in data && (data[k].expiry.Some? ==> now <= data[k].expiry.value)
    }

    /** `PTTL`: -2 absent, -1 no expiry, otherwise the milliseconds left. */
    function Pttl(k: Key): int {
      if !Live(k) then -2
      else if data[k].expiry.None? then -1
      else data[k].expiry.value - now
    }

    /** `GET`. */
    function Get(k: Key): Option<Value> {
      if Live(k) then Some(data[k].value) else None
    }
  }

  const EMPTY: Db := Db(map[], {}, map[], false, 0)

  datatype Reply = Count(n: int) | Precondition

  /** `ttl_ms`: an absent TTL is 0, any given one (in ns) is between 1 ms and u64::MAX. */
  function TtlMs(ttlNanos: Option<nat>): nat {
    if ttlNanos.None? then 0
    else
      var ms := ttlNanos.value / 1_000_000;
      if ms < 1 then 1 else if ms > 0xFFFF_FFFF_FFFF_FFFF then 0xFFFF_FFFF_FFFF_FFFF else ms
  }

  function ExpiryAfter(db: Db, ttl: nat): Option<int> {
    if ttl > 0 then Some(db.now + ttl) else None
  }

  function SetScript(db: Db, k: Key, v: Value, ttl: nat, nowMs: int, nx: bool): (Db, Reply) {
    if nx && db.Live(k) then (db, Count(0))
    else
      (db.(data := db.data[k := Cell(v, ExpiryAfter(db, ttl))],
           scores := if ttl > 0 then db.scores[k := nowMs + ttl] else db.scores - {k},
           index := db.index + {k}),
       Count(1))
  }

  function DelScript(db: Db, k: Key): (Db, Reply) {
    (db.(data := db.data - {k}, index := db.index - {k}, scores := db.scores - {k}),
     Count(if db.Live(k) then 1 else 0))
  }

  function ExpireScript(db: Db, k: Key, ttl: nat, nowMs: int): (Db, Reply) {
    if !db.Live(k) then (db, Count(0))
    else
      (db.(data := db.data[k := db.data[k].(expiry := ExpiryAfter(db, ttl))],
           scores := if ttl > 0 then db.scores[k := nowMs + ttl] else db.scores - {k},
           index := db.index + {k}),
       Count(1))
  }

  /** `INCRBY`: the new cell, or `None` when it raises. An absent key counts from 0. */
  function IncrBy(db: Db, k: Key, delta: int): Option<Cell> {
    var cell := if db.Live(k) then db.data[k] else Cell(Number(0), None);
    if cell.value.Number? && Int64(cell.value.n + delta)
    then Some(cell.(value := Number(cell.value.n + delta)))
    else None
  }

  /** The common tail of the counter scripts: store, re-arm the TTL, index. */
  function StoreCounter(db: Db, k: Key, cell: Cell, ttl: nat, nowMs: int): Db {
    db.(data := db.data[k := if ttl > 0 then cell.(expiry := Some(db.now + ttl)) else cell],
        scores := if ttl > 0 then db.scores[k := nowMs + ttl] else db.scores,
        index := db.index + {k})
  }

  function IncrScript(db: Db, k: Key, delta: int, ttl: nat, nowMs: int): (Db, Reply) {
    var cell := IncrBy(db, k, delta);
    if cell.None? then (db, Precondition)
    else (StoreCounter(db, k, cell.value, ttl, nowMs), Count(cell.value.value.n))
  }

  /** The integer the counter holds; an absent key holds 0. A value that is not a
      canonical integer ends in the precondition error whatever `tonumber` makes of it:
      nil and too large are refused by the script, anything else by `INCRBY`. */
  function CounterValue(db: Db, k: Key): Option<I64> {
    if !db.Live(k) then Some(0)
    else if db.data[k].value.Number? then Some(db.data[k].value.n)
    else None
  }

  /** The `INCRBY` argument of `incr_floor`, computed in doubles; `None` when an operand
      is refused. */
  function FloorStep(current: I64, delta: I64, floor: I64): Option<int> {
    var c, d, f := Doubles.Round(current), Doubles.Round(delta), Doubles.Round(floor);
    if Doubles.Abs(c) >= Doubles.EXACT || Doubles.Abs(f) >= Doubles.EXACT || Doubles.Abs(d) >= Doubles.EXACT
    then None
    else
      var base := if c < f then f else c;
      Some(Doubles.Round(Doubles.Round(base - c) + d))
  }

  function IncrFloorScript(db: Db, k: Key, delta: I64, floor: I64, ttl: nat, nowMs: int): (Db, Reply) {
    var current := CounterValue(db, k);
    if current.None? then (db, Precondition)
    else
      var step := FloorStep(current.value, delta, floor);
      if step.None? then (db, Precondition)
      else IncrScript(db, k, step.value, ttl, nowMs)
  }

  function Elements(keys: seq<Key>): set<Key> {
    set k | k in keys
  }

  function Gone(db: Db, keys: set<Key>): set<Key> {
    set k | k in keys && !db.Live(k)
  }

  function Present(db: Db, keys: set<Key>): set<Key> {
    set k | k in keys && db.Live(k)
  }

  /** How many arguments of a batch name a gone key (a repeated one counts again). */
  function CountGone(db: Db, keys: seq<Key>): nat {
    if keys == [] then 0
    else CountGone(db, keys[..|keys| - 1]) + if db.Live(keys[|keys| - 1]) then 0 else 1
  }

  /** Drop the index entries of the gone among `keys`. */
  function Forget(db: Db, keys: set<Key>): Db {
    db.(index := db.index - Gone(db, keys), scores := db.scores - Gone(db, keys))
  }

  /** The score the key gets when its TTL is read as `pttl` at `nowMs`. */
  function SettledScores(db: Db, keys: set<Key>, nowMs: int): map<Key, int> {
    map k | k in db.scores.Keys + keys && (k in keys ==> db.Pttl(k) >= 0) ::
      if k in keys then nowMs + db.Pttl(k) else db.scores[k]
  }

  function AdoptedScores(db: Db, keys: set<Key>, nowMs: int): map<Key, int> {
    map k | k in db.scores.Keys + keys && (k !in db.scores ==> db.Pttl(k) > 0) ::
      if k in keys && db.Pttl(k) > 0 then nowMs + db.Pttl(k) else db.scores[k]
  }

  /** Settle `keys`: drop the entries of the gone, forget those without a TTL, re-score the
      rest at the TTL they have left. */
  function Settle(db: Db, keys: set<Key>, nowMs: int): Db {
    db.(index := db.index - Gone(db, keys), scores := SettledScores(db, keys, nowMs))
  }

  /** Index the live among `keys` and score those with time left; one at 0 ms gets no score. */
  function Adopt(db: Db, keys: set<Key>, nowMs: int): Db {
    db.(index := db.index + Present(db, keys), scores := AdoptedScores(db, keys, nowMs))
  }

  function PruneScript(db: Db, keys: seq<Key>): (Db, Reply) {
    (Forget(db, Elements(keys)), Count(CountGone(db, keys)))
  }

  function SweepScript(db: Db, keys: seq<Key>, nowMs: int): (Db, Reply) {
    (Settle(db, Elements(keys), nowMs), Count(CountGone(db, keys)))
  }

  function BackfillScript(db: Db, keys: seq<Key>, nowMs: int): (Db, Reply) {
    (Adopt(db, Elements(keys), nowMs), Count(|keys| - CountGone(db, keys)))
  }

  /** One atomic step of the fleet on the server. Every `nowMs` is a client's own clock
      reading and may be anything. */
  datatype Op =
    | Put(key: Key, value: Value, ttl: nat, nowMs: int, nx: bool)
    | Delete(key: Key)
    | Expire(key: Key, ttl: nat, nowMs: int)
    | Incr(key: Key, delta: I64, ttl: nat, nowMs: int)
    | IncrFloor(key: Key, delta: I64, floor: I64, ttl: nat, nowMs: int)
    | Prune(keys: seq<Key>)
    | Sweep(keys: seq<Key>, nowMs: int)
    | Backfill(keys: seq<Key>, nowMs: int)
    | Elapse(ms: nat)                            // the server clock moves; keys expire
    | Reap(gone: set<Key>)                       // Redis frees expired cells
    | SetMark
    | ClearMark
    | OlderWrite(key: Key, cell: Option<Cell>)   // a build without indexes changes a data key

  function Apply(db: Db, op: Op): (Db, Reply) {
    match op
    case Put(k, v, ttl, nowMs, nx) => SetScript(db, k, v, ttl, nowMs, nx)
    case Delete(k) => DelScript(db, k)
    case Expire(k, ttl, nowMs) => ExpireScript(db, k, ttl, nowMs)
    case Incr(k, delta, ttl, nowMs) => IncrScript(db, k, delta, ttl, nowMs)
    case IncrFloor(k, delta, floor, ttl, nowMs) => IncrFloorScript(db, k, delta, floor, ttl, nowMs)
    case Prune(keys) => PruneScript(db, keys)
    case Sweep(keys, nowMs) => SweepScript(db, keys, nowMs)
    case Backfill(keys, nowMs) => BackfillScript(db, keys, nowMs)
    case Elapse(ms) => (db.(now := db.now + ms), Count(0))
    case Reap(gone) => (db.(data := db.data - (set k | k in gone && !db.Live(k))), Count(0))
    case SetMark => (db.(marked := true), Count(0))
    case ClearMark => (db.(marked := false), Count(0))
    case OlderWrite(k, cell) =>
      (db.(data := if cell.Some? then db.data[k := cell.value] else db.data - {k}), Count(0))
  }

  /** The state a run of steps ends in. */
  function Run(db: Db, ops: seq<Op>): Db
    decreases |ops|
  {
    if ops == [] then db else Run(Apply(db, ops[0]).0, ops[1..])
  }
}
