# A verified model of the Redis cluster coordinator

The plugin keeps a fleet of gateway replicas in step through one Redis. Every Lua script is
one atomic step, and the replicas interleave their steps freely. This project models the
server as an explicit state and the scripts, loops and protocols over it, and proves what
holds over every interleaving. `dafny verify dfyconfig.toml` checks all of it.

- **Keyspace and indexes** (`Store`, `Server`). Data keys with their expiry instant, the key
  index, the expiry index, the completeness mark and the server clock; a function per
  script, and the same scripts as methods that change a server object statement by statement.
- **What every step does and keeps** (`StepEffects`, `Coverage`, `PlainStore`, `CounterFloor`, `CounterRuns`, `Doubles`). Live keys stay
  indexed under arbitrary clock skew, nothing leaks on one clock, callers see a plain map with
  expiry, and counters computed in IEEE doubles.
- **Repair** (`Server.Redis.Sweep`, `SweepLoop`, `Backfill`). The batched sweep equals one settling of
  all due keys, and among the steps of everyone else settles what it read; a backfill completes an
  arbitrary index meanwhile.
- **Listings** (`IndexListing`, `ScanListing`, `ListPages`, `ListingAgreement`, `Glob`, `ByteStrings`).
  Pagination while anyone writes, the `SCAN` fallback, that a pass keeps to one of them, and that
  both return the same entries.
- **The index gate** (`Gate`, `GateDiscipline`, `GateLeave`, `GateCompletion`, `GateLimits`,
  `GateSteps`, `Maintenance`, `Peers`, `OpenPatterns`, `TrustedListing`). The mixed-version rollout protocol as
  single steps of any number of replicas, exactly when a replica may leave, and exactly when a
  completion may skip the second listing.
- **Leases** (`Lease`, `Renewal`, `LeaseHandle`). Fence tokens, holder checks, stale handles and
  the renewal task on the clock.
- **Messages and peers** (`Envelope`, `Utf8`, `WatchPeers`). The wire envelope, the subscriber's
  filter, and the replay of peer events.

## Reading the model

- A key is a sequence of bytes below 0xFF; `Utf8.NoTopByte` shows that every UTF-8 string is one.
- A stored string is `Number(n)` when it is the canonical decimal of a 64-bit integer, which is
  what `INCRBY` accepts, and `Blob` otherwise.
- A key lives while the server clock is at or before its expiry, so 0 ms left is alive. An
  expired cell may linger in the keyspace; it counts as absent.
- Each `nowMs` is a client's own clock reading and may be anything, unless `OnClock` is asked.
- `SCAN` is an adversary with one promise: a key alive during the whole iteration is returned
  at least once. Repeats are allowed.
- A run may contain steps of an older build (`OlderWrite`), which changes data keys and no index.
- An acquisition whose reply is lost is a lease handle that nobody calls.
- TTLs and clock readings are exact integers, as they are in Lua below 2^53.

## What turned out to be false, and when it does hold

- The comment on `incr_floor` calls its arithmetic exact for operands below 2^53. A sum past 2^53
  rounds (`CounterFloor.InexactSum`). Over all accepted operands the result is exact if and only if
  the distance to the floor and the delta meet `CounterFloor.ExactStep` (`CounterFloor.ExactIff`); for
  a counter that is not negative that says the step is at most 2^53 or even
  (`CounterFloor.ExactForCounters`).
- Nor is its result always above the floor (`CounterFloor.BelowFloor`). For a positive delta it is
  above both counter and floor if and only if the call is not of one family: a delta of 1 with the
  floor 2^53 or more above the counter, at a distance of 0 or 1 modulo 4 (`CounterFloor.AboveIff`).
  A counter that is not negative is never in it.
- A step can lose an index entry, so that no sweep at any clock reading finds it once its key is
  gone (`Server.SweepFindsExactly`). Whatever the clocks say, a step does so if and only if a
  backfill meets an unscored key at 0 ms, a counter step goes through on a live unscored key that
  has a TTL and keeps it, or an older build gives an indexed, unscored key a TTL or ends it
  (`Coverage.LosesExactly`). Runs of current
  builds from a state with every TTL in the expiry index never do (`Coverage.RunLosesNothing`).
- On one clock, entries can also be due late. A step makes one late or loses it if and only if the
  same happens to a key that is not scored in time, or an older build shortens the life of an indexed
  key behind the expiry index (`Coverage.LeaksExactlyWhenStranding`).
- A live key without a TTL can be in the expiry index: on one clock exactly when a counter without
  a TTL takes over the score an expired key left (`StepEffects.ScoresStayExactIff`). That score is
  of the past, and the next sweep forgets it (`StepEffects.RunKeepsScoresInOrder`).
- A sweep at a standing clock does not get past a due key with exactly 0 ms left
  (`Server.ZeroMsStaysDue`). The loop ends if there are fewer of them than one batch
  (`Server.Redis.Sweep`), and goes on for ever if there are a full batch or more, whichever
  batches the server picks (`Server.SweepNeverEnds`).
- `get` is two commands, and a write between them can pair an old value with a new TTL
  (`PlainStore.TornRead`). The pair is the plain map's at neither command if and only if the key is
  alive at both, with another value and with another time left (`PlainStore.TornExactly`).
- The gate does not survive a fleet that disappears with the mark set: an older build can then
  write unseen, and the next replica believes the mark (`GateLimits.RollbackBreaksTheGate`). In every
  state of the protocol a replica can leave safely if and only if the mark is absent or another
  replica is accountable for it, the guard of `Leave` (`GateLeave.LeaveGuardExact`).
- `complete_key_index` lists the peers before its backfill only, and can so set a mark that
  misses a key (`GateCompletion.RecheckIsNeeded`). Over every run its mark is right if no older
  node writes from the start of its backfill to the mark (`GateCompletion.QuietCompletionIsRight`);
  where one may write at the start, some run ends with a wrong mark
  (`GateCompletion.SomeCompletionIsWrong`). At the end of a backfill nobody wrote during, the mark is
  safe from one more write if and only if no older node may write then
  (`GateCompletion.UncheckedExact`).
- Fence tokens can start over when one lease is named as another's fence key
  (`Lease.ClashRestartsTokens`). They increase over every run if and only if no such pair is in use
  (`Lease.TokensIncreaseIff`).
- The peer scan pattern is not escaped: with a prefix such as `[a]` it finds no registration
  (`Peers.PatternCanMissPeers`). For every prefix it finds all registrations if and only if the
  pattern matches that of an empty id and is open-ended, that is, it still has a star, and what
  follows its last star takes every character (`Peers.FindsAllIff`). Prefixes without `[` and
  backslash meet this (`Peers.PatternFindsPeers`), and so do some with, such as `[peers/[]`
  (`Peers.PatternMayStillFind`).

## The gate's environment

A replica is calm when its latest gate step found or made the mark absent, it has sent no `SET`
of the mark since, and it is not between a clean second listing and its `SET`. An older node writes
only while it is registered and every replica is calm; if a replica is listing the peers again
after its backfill, the writer was registered before that listing began. It stays registered
until every backfill it wrote during has listed the peers again.

A simpler rule that implies this: older nodes write only while every replica's latest tick saw one
and its deletion of the mark was answered. Then nothing more is asked of when they leave
(`GateDiscipline.TickRuleImplies`, `GateDiscipline.GateSafetyInTicks`).

Replies to the tick's own peer list are arbitrary, any command may fail, and a failed one may have
taken effect.

## Model

| member | source | states |
|---|---|---|
| `ByteStrings.PrefixRangeExact` | src/state/kv.rs:341-349 | The interval from `p` to `p` followed by 0xFF, in byte order, holds exactly the keys with prefix `p`. |
| `ByteStrings.PrefixRangeOfFullKeys` | src/state/kv.rs:249-255 | The same through `full_key`: exactly the keys whose logical key has the caller's prefix. |
| `ByteStrings.KeyNamesRoundTrip` | src/state/kv.rs:249-265 | `logical_key` inverts `full_key`, and back for every key of the deployment. |
| `Utf8.NoTopByte` | src/state/kv.rs:346-349 | UTF-8 never holds a byte above 0xF4, so never 0xFF. |
| `Utf8.ValidExactly` | src/envelope.rs:96-98 | The accepted routing keys are exactly the encodings of texts: nothing overlong, no surrogate, nothing past U+10FFFF. |
| `Glob.GlobEscape` | src/state/kv.rs:721-730 | The loop computes the escaping the theorems below are about. |
| `Glob.EscapedPrefixExact` | src/state/kv.rs:376-376 | Under Redis's matcher, `escape(s)*` matches `t` if and only if `s` is a prefix of `t`. |
| `Glob.EscapedKeyExact` | src/state/kv.rs:720-730 | An escaped key as a pattern matches only itself. |
| `Glob.ScanPatternExact` | src/state/kv.rs:376-376 | The scan page's pattern selects exactly the keys with the caller's prefix. |
| `Glob.BackfillPatternExact` | src/state/kv.rs:455-459 | The backfill pattern selects exactly the deployment's data keys and none of its `#` keys. |
| `Server.Redis.Set` | src/state/kv.rs:19-41 | The script's statements have the effect and reply that refinement and coverage are proved of. |
| `Server.Redis.Del` | src/state/kv.rs:44-49 | As above, for delete. |
| `Server.Redis.Expire` | src/state/kv.rs:53-65 | As above, for expire and persist. |
| `Server.Redis.Incr` | src/state/kv.rs:72-86 | As above, for increment, its error and its TTL re-arm. |
| `Server.Redis.IncrFloor` | src/state/kv.rs:93-121 | The stored and returned count is max(current, floor) + delta exactly when the sums meet `ExactStep`, and above both outside the one family; an unacceptable operand or value changes nothing. |
| `Server.Redis.PruneBatch` | src/state/kv.rs:125-135 | The loop drops exactly the index entries of the gone keys and counts them. |
| `Server.Redis.SweepBatch` | src/state/kv.rs:141-158 | The loop settles exactly its batch: gone dropped, TTL-less forgotten, the rest re-scored. |
| `Server.Redis.BackfillBatch` | src/state/kv.rs:162-175 | The loop indexes exactly the live keys of its batch and scores those with time left. |
| `Server.Redis.Sweep` | src/state/kv.rs:418-449 | With less than a batch of due keys at 0 ms the batched loop ends, settles all keys due at the start at once, leaves due exactly those at 0 ms, and counts the gone. |
| `Server.SettleMore` | src/state/kv.rs:418-449 | Settling batches of due keys one after the other adds up to one settling, and so do the counts of the gone. |
| `Server.AfterRound` | src/state/kv.rs:418-449 | A full batch brings the loop nearer its end, and a batch of all due keys leaves due those at 0 ms only. |
| `Server.SweepLeavesLiveKeys` | src/state/kv.rs:416-449 | On one clock, with coverage and nothing leaked, a sweep leaves the key index equal to the live keys. |
| `Server.ZeroMsStaysDue` | src/state/kv.rs:153-155 | Settling a due key leaves it due if and only if it has exactly 0 ms left. |
| `Server.SweepNeverEnds` | src/state/kv.rs:418-449 | With a full batch of due keys at 0 ms, every sequence of rounds leaves a full batch due. |
| `Server.SweepFindsExactly` | src/state/kv.rs:418-449 | A gone key's entry is due at some clock reading if and only if it is in the expiry index, and the sweep it is due at drops it. |
| `StepEffects.IndexAfter` | src/state/kv.rs:19-175 | In every state, covered or not: a write that succeeds and a backfill of a live key leave it in the key index, a delete and a repair of a gone key take it out, and nothing else moves it. |
| `StepEffects.ScoreAfter` | src/state/kv.rs:19-175 | In every state, exactly what a key's score is after any step, from the TTL given or found. |
| `StepEffects.IncrCounts` | src/state/kv.rs:72-86 | `incr` counts if and only if the value is an integer and the sum fits 64 bits, and answers the sum. |
| `StepEffects.RepairCounts` | src/state/kv.rs:125-175 | Prune and sweep answer how many arguments were gone, backfill how many were alive, repeats counted. |
| `StepEffects.ScoresStayExactIff` | src/state/kv.rs:10-15 | On one clock, where every live key is scored exactly when it has a TTL and at its expiry, a step keeps that if and only if it is not a counter without a TTL that takes over the score of an expired key. |
| `StepEffects.RunKeepsScoresInOrder` | src/state/kv.rs:10-15 | Over every run of current builds on one clock a live key with a TTL is scored at exactly its expiry, and any other score is of the past. |
| `SweepLoop.SweepAmong` | src/state/kv.rs:418-449 | With a clock reading per round and others stepping in before and after each read, the loop settles batch by batch what it read and stops at the first that is not full. |
| `SweepLoop.SweepKeeps` | src/state/kv.rs:418-449 | Such a sweep keeps both indexes complete and loses no entry, over any number of rounds. |
| `SweepLoop.FinishedSweepSettles` | src/state/kv.rs:418-449 | When it ends, of the keys due at its last read the index holds exactly those it held that are alive. |
| `Coverage.LiveAfterStep` | src/state/kv.rs:19-175 | A key alive after any step of a current build is indexed, unless it was alive and unindexed before and not backfilled. |
| `Coverage.RunKeepsCoverage` | src/state/kv.rs:19-175 | Over every run with any clocks, live keys stay in the key index and those with time left in the expiry index. |
| `Coverage.RepairSparesLiveKeys` | src/state/kv.rs:125-158 | Prune and sweep drop no live key, however stale the view of the keys they are given. |
| `Coverage.RunLeaksNothing` | src/state/kv.rs:10-15 | Over every run of current builds on one clock, each index entry is alive or already due. |
| `Coverage.LosesExactly` | src/state/kv.rs:10-175 | Under any clocks a step of any build leaves an entry no sweep will find if and only if it adopts an unscored key at 0 ms, keeps the TTL of a live unscored one, or gives an indexed, unscored one a TTL or ends it behind the index. |
| `Coverage.RunLosesNothing` | src/state/kv.rs:19-175 | Over every run of current builds with any clocks, from a state with every TTL scored, each index entry is of a key without a TTL or in the expiry index. |
| `Coverage.LeaksExactlyWhenStranding` | src/state/kv.rs:10-175 | On the server's clock a step of any build makes an entry due late or never if and only if it adopts or keeps the TTL of a key not scored in time, or shortens an indexed key's life behind the expiry index. |
| `PlainStore.RunRefines` | src/state/kv.rs:529-691 | Every run answers its callers, and leaves them, as a plain map with expiry would. |
| `PlainStore.ReadsRefine` | src/state/kv.rs:537-560 | A read nobody steps into returns the plain map's value and remaining time. |
| `PlainStore.ReadExactly` | src/state/kv.rs:537-560 | With others between the two commands: exactly when the reply is the plain map's at the second, exactly when at the first, and nothing is found exactly when the key was dead at either. |
| `PlainStore.TornExactly` | src/state/kv.rs:537-560 | It is the plain map's at neither if and only if the key is alive at both with another value and another time left. |
| `PlainStore.ReadWhileSpared` | src/state/kv.rs:537-560 | So it is over every run between them in which nobody writes the key, whatever happens to its TTL, the indexes and other keys. |
| `PlainStore.TornRead` | src/state/kv.rs:537-560 | Otherwise an old value can come back with a new TTL, a pair the key never had. |
| `PlainStore.SingleWinner` | src/state/kv.rs:582-603 | Between two successful claims of a key there is an instant at which it is absent. |
| `PlainStore.GivenTtlExpires` | src/state/kv.rs:529-532 | From the caller's optional TTL: a key stored or re-timed with one lives its whole milliseconds, clamped to 1 and 2^64 - 1, alive at the last and gone after, and scored; with none it is unscored and lives through any passing of time. |
| `PlainStore.CounterTtlHonoured` | src/state/kv.rs:72-86 | A counter call with a TTL arms exactly that; without one it keeps the TTL and the score the key had, and a new counter has none. |
| `PlainStore.FloorTtlHonoured` | src/state/kv.rs:93-121 | As above, for the floor increment. |
| `Doubles.RoundIsNearestEven` | src/state/kv.rs:88-92 | The model's rounding gives a double, no double is nearer, ties go to the even significand. |
| `Doubles.GuardExact` | src/state/kv.rs:103-105 | Testing the rounded operand against 2^53 decides the operand itself. |
| `CounterFloor.OperandsAccepted` | src/state/kv.rs:94-105 | The guard accepts exactly operands of magnitude below 2^53. |
| `CounterFloor.ExactWithinRange` | src/state/kv.rs:106-108 | The result is max(current, floor) + delta while both partial sums stay within 2^53. |
| `CounterFloor.ExactIff` | src/state/kv.rs:106-108 | For all accepted operands: exact if and only if the gap to the floor and the delta meet `ExactStep`. |
| `CounterFloor.ExactForCounters` | src/state/kv.rs:106-108 | For a counter not negative `ExactStep` says: the step is at most 2^53 or even. |
| `CounterFloor.AboveIff` | src/state/kv.rs:106-108 | For delta >= 1 the result is above counter and floor if and only if not delta = 1 with a gap of 2^53 or more that is 0 or 1 modulo 4; below the floor exactly in the latter case. |
| `CounterFloor.StrictlyAbove` | src/state/kv.rs:106-108 | For current >= 0 and delta >= 1 the result is above both current and floor even where it rounds. |
| `CounterRuns.ResultsIncrease` | src/state/kv.rs:93-121 | Successive results on a key nobody else writes and that does not expire strictly increase, each above its floor, for any TTLs, passing time and steps on other keys. |
| `CounterFloor.AcceptedCallStores` | src/state/kv.rs:93-121 | An accepted call never fails in `INCRBY`, and stores and returns the same value; a refused one changes nothing. |
| `CounterFloor.InexactSum` | src/state/kv.rs:106-108 | Operands below 2^53 whose sum is not exact. |
| `CounterFloor.BelowFloor` | src/state/kv.rs:106-108 | Negative counters that end at the floor and below it. |
| `Backfill.BackfillIndex` | src/state/kv.rs:454-497 | From any index, with others stepping in before and after each scan reply, the loop ends with every live key indexed unless an older build wrote meanwhile; it returns how many batch entries were alive at their script. |
| `Backfill.TurnsComplete` | src/state/kv.rs:454-497 | Turns of a backfill among steps of current builds end with every live key indexed. |
| `Backfill.FillingThroughStep` | src/state/kv.rs:454-497 | "Indexed, or alive since the start and not yet handled" survives every step of a current build. |
| `Backfill.FillingThroughScript` | src/state/kv.rs:480-491 | It survives the backfill script, which moves its batch to the handled. |
| `IndexListing.FetchEntries` | src/state/kv.rs:299-321 | The loop splits the keys into the entries still there and the gone, in order. |
| `IndexListing.PageFills` | src/state/kv.rs:335-365 | A page returns the first keys of its interval, at most the limit, is full and ends at its cursor when it has one, and has one if and only if the interval held more. |
| `IndexListing.MissingExactly` | src/state/kv.rs:299-328 | The keys handed to the prune are exactly those whose answers make no entry. |
| `IndexListing.PassAscending` | src/state/kv.rs:335-365 | Over every finished pass the keys ascend strictly, whatever happens meanwhile. |
| `IndexListing.PassComplete` | src/state/kv.rs:335-365 | A key alive and indexed throughout comes out, even when the cursor's key is gone. |
| `IndexListing.IndexPassIsSound` | src/state/kv.rs:280-365 | Both together: strictly ascending, only the prefix, and such a key exactly once. |
| `ScanListing.ScanPage` | src/state/kv.rs:370-410 | The loop pulls until the page is full or the server pass is over, and carries the rest. |
| `ScanListing.PageConserves` | src/state/kv.rs:377-411 | A page loses and invents no key, is full unless last, and calls the server neither while it has keys enough nor after the end of the server pass. |
| `ScanListing.ScanPassConserves` | src/state/kv.rs:370-414 | Over every pass the pages concatenate to the batches of one server pass, each reply's cursor used once. |
| `ScanListing.ScanPassFinishes` | src/state/kv.rs:370-414 | A pass ends after at most one page per key and one more. |
| `ListPages.PassKeepsItsWay` | src/state/kv.rs:615-639 | A whole pass, with a ready flag per page that may be anything, is a finished index pass or a finished scan pass as its first page was, hands on its keys, and is never rejected. |
| `ListPages.OlderPassGoesOn` | src/state/kv.rs:622-638 | A pass taken up at an older build's cursor finishes as the scan it was. |
| `ListPages.ListPassConserves` | src/state/kv.rs:615-639 | A pass begun as a scan hands on exactly the batches of one server pass, however the flags flap. |
| `ListPages.PagesFit` | src/state/kv.rs:616-639 | Over every pass of either kind a page holds at most max(limit, 1) keys and that many if it has a cursor; an index page has one if and only if the interval held more. |
| `ListPages.RejectedExactly` | src/state/kv.rs:622-638 | A cursor is rejected if and only if it is no index cursor and does not decode; without one the ready flag decides. |
| `ListingAgreement.IndexPassExact` | src/state/kv.rs:335-365 | In an unchanging covered state an index pass returns exactly the live keys with the prefix. |
| `ListingAgreement.ScanPassExact` | src/state/kv.rs:370-414 | So does a scan pass, its entries fetched page by page, for every choice of page limits. |
| `ListingAgreement.PruneDropsTheStale` | src/state/kv.rs:322-328 | In an unchanging state the prune after a page drops exactly the page's gone keys from both indexes. |
| `ListingAgreement.FastListingRefinesSlow` | src/state/kv.rs:335-414 | Both return the same entries for every prefix and limit, stale index entries or not. |
| `Gate.StepKeepsInv` | src/maintenance.rs:43-177 | Every step of every replica, client and older node keeps the gate's invariant. |
| `Gate.GateSafety` | src/maintenance.rs:43-177 | Over every run: a ready flag, a present mark, one read as present or about to be set means every live key is indexed. |
| `Gate.OlderWriteKeeps` | src/maintenance.rs:7-12 | A write the environment allows an older node keeps the gate's invariant: nobody trusts the index then and the mark is absent. |
| `Gate.SetTheMarkKeeps` | src/maintenance.rs:149-165 | A mark set after a clean second listing is right. |
| `GateSteps.LowersAsWritten` | src/maintenance.rs:116-123 | The gate's single steps put together: flag down, mark gone if the deletion took. |
| `GateSteps.FollowsAsWritten` | src/maintenance.rs:123-138 | The flag follows the mark read, or stays without an answer. |
| `GateSteps.CompletesAsWritten` | src/maintenance.rs:149-171 | Only a clean second listing sets the mark, only an answer to that raises the flag. |
| `GateDiscipline.TickRuleImplies` | src/maintenance.rs:7-12 | Writing only while every replica's latest tick saw an older build and deleted the mark implies the conditions `GateSafety` asks of older nodes. |
| `GateDiscipline.GateSafetyInTicks` | src/maintenance.rs:43-177 | Gate safety over every run under that rule. |
| `GateLeave.OrphanedMarkGoesWrong` | src/state/kv.rs:501-517 | From every state with a mark no replica is accountable for, some run ends with a mark that misses a live key. |
| `GateLeave.LeaveGuardExact` | src/maintenance.rs:43-177 | In every state of the protocol: a replica can leave so that no mark ever misses a key if and only if the mark is absent or another replica is accountable for it. |
| `GateLimits.RollbackBreaksTheGate` | src/state/kv.rs:501-517 | One such run: a fleet vanishes with the mark set, and a replica that joins later lists an index that misses a key. |
| `GateCompletion.RecheckIsNeeded` | src/lib.rs:374-399 | A completion without the second listing can set mark and flag while a key of an older node is missing. |
| `GateCompletion.UncheckedExact` | src/lib.rs:374-399 | In every state of the protocol at the end of a backfill no older node wrote during: the mark is right, and stays so under one more older write if and only if none is allowed. |
| `GateCompletion.QuietCompletionIsRight` | src/lib.rs:374-399 | Over every run without an older write from the start of the backfill to the mark, the mark is right. |
| `GateCompletion.SomeCompletionIsWrong` | src/lib.rs:374-399 | From every state where an older node may write as the backfill begins, some run completes it with a mark that misses a key. |
| `GateLimits.GateOpens` | src/maintenance.rs:123-171 | A run from an empty store ends with the mark set and the flag up, so the safety theorem is not vacuous. |
| `Maintenance.Replica.GateIndex` | src/maintenance.rs:116-138 | Flag and mark after the gate step, with and without an answer; neither comes up wrongly. |
| `Maintenance.Replica.CompleteIndex` | src/maintenance.rs:142-177 | The mark comes up exactly on a clean second listing whose `SET` took effect, the flag exactly when it is answered too, and otherwise only the backfill shows; with no older write meanwhile the index ends complete. |
| `TrustedListing.TrustedPassMissesNothing` | src/state/kv.rs:616-639 | A pass begun with the flag up returns every key alive throughout exactly once, even if the flag drops and older builds write meanwhile. |
| `Peers.ListRegistrations` | src/peer.rs:254-289 | Listed are exactly the registrations read for members of the sorted set, of any build, and the older builds scanned outside it; current builds that left do not come back. |
| `Peers.ReadKeepsOrder` | src/peer.rs:145-182 | Members all registered are listed each once, in order. |
| `Peers.FreshListingSees` | src/peer.rs:145-289 | A listing reports an older build if and only if it read one; one registered throughout is always seen. |
| `Peers.LegacyPeerScan.Registrations` | src/peer.rs:102-140 | The answer is a fresh scan or one younger than the limit; after forgetting, always fresh. |
| `Peers.FindsAllIff` | src/peer.rs:46-52 | For every prefix the unescaped pattern finds all registrations if and only if it matches that of an empty id and is open-ended. |
| `OpenPatterns.MatchesExtensionsIff` | src/peer.rs:46-52 | For every pattern and text: it matches the text with anything appended if and only if it matches the text and is open-ended. |
| `Peers.PatternFindsPeers` | src/peer.rs:46-52 | The unescaped pattern finds every registration when the prefix has no `[` and no backslash. |
| `Peers.PatternCanMissPeers` | src/peer.rs:46-52 | With the prefix `[a]` it finds none. |
| `Peers.PatternMayStillFind` | src/peer.rs:46-52 | With the prefix `[peers/[]` it finds every registration. |
| `Lease.KeysCollideExactly` | src/lib.rs:500-504 | Lease and fence keys of two leases coincide if and only if one name is the other followed by ":fence". |
| `Lease.FenceAndHolder` | src/lease.rs:98-198 | Over every run tokens of a lease strictly increase, and a live lease is held by the node with the largest. |
| `Lease.ClashRestartsTokens` | src/lease.rs:98-110 | With a name that is another's fence key, tokens start over. |
| `Lease.TokensIncreaseIff` | src/lease.rs:98-110 | The tokens of each lease strictly increase over every run if and only if no lease in use is named as another's fence key. |
| `Lease.StaleHandlesAreHarmless` | src/lease.rs:116-143 | A renewal or release for a node that is not the holder changes nothing, however late; a live lease dies only by time or its holder's release. |
| `Lease.DeadUntilAcquired` | src/lease.rs:334-360 | No renewal or release re-creates a missing lease, over every run. |
| `Lease.ReleasedForever` | src/lease.rs:350-365 | The released flag never goes back. |
| `Lease.HandoverThroughDeath` | src/lease.rs:98-143 | Over every run a lease changes hands only through an instant at which it is dead. |
| `Lease.ReleaseExactly` | src/lease.rs:130-143 | A release by the holder deletes the lease and touches no other key; anybody else's changes nothing. |
| `Lease.ReleaseFrees` | src/lease.rs:98-143 | After a release by the holder any node's next attempt is granted, for its full TTL. |
| `Lease.RenewExactly` | src/lease.rs:112-127 | A renewal succeeds exactly for the holder and sets the end to the TTL from now, keeping value and other keys. |
| `Lease.AcquireExactly` | src/lease.rs:98-110 | An acquisition is refused exactly while the key is alive; otherwise the node holds it for its TTL and gets the next token. |
| `Lease.LeaseEnds` | src/lease.rs:98-127 | An acquired or renewed lease dies its TTL later, to the millisecond. |
| `Lease.RenewInSteps` | src/lease.rs:334-360 | The three steps of a renewal, nobody stepping in: nothing on a released handle, else the script and the flag up exactly when the node no longer held the lease. |
| `Lease.ReleaseInSteps` | src/lease.rs:362-376 | The two steps of a release: the flag first, then the script; nothing on a released handle. |
| `LeaseHandle.LeaseServer.RunAcquire` | src/lease.rs:98-110 | The script's statements have the effect the run theorems are about, its failing case included. |
| `LeaseHandle.LeaseState.TryAcquire` | src/lease.rs:164-198 | A handle exactly on a grant, with the new fence value, and then the lease is held for the TTL. |
| `LeaseHandle.LeaseState.Renew` | src/lease.rs:334-360 | Success only when unreleased and still the holder at the script, and then the lease lasts its TTL from now; a lost reply leaves the flag as it is whether or not the script ran; the flag goes up on an expiry or another release only. |
| `LeaseHandle.LeaseState.Release` | src/lease.rs:362-376 | The first call frees the lease if its script runs and the node holds it; it is idempotent and harmless when another node holds it by then. |
| `Renewal.IntervalInsideTtl` | src/lease.rs:200-208 | For every TTL and percentage the sleep is positive and below the TTL; neither saturation nor fallback occurs. |
| `Renewal.CycleIsPunctual` | src/lease.rs:210-223 | A delay within what the TTL leaves keeps every instant up to the renewal within the TTL. |
| `Renewal.RenewalKeepsTheLease` | src/lease.rs:200-223 | In every run whose clock stays within the TTL of the latest renewal, all renewals succeed and no acquisition does. |
| `Renewal.TimedIsPunctual` | src/lease.rs:200-223 | A run timed by the sleep and any delays within what the TTL leaves is such a run. |
| `Renewal.TaskKeepsTheLease` | src/lease.rs:164-223 | From the acquisition on, for every TTL, percentage and schedule of such delays, the renewals keep the lease over runs of any length. |
| `Envelope.Encode` | src/envelope.rs:52-69 | The buffer is the documented format; the only error is a key past 65535 bytes. |
| `Envelope.WireLayout` | src/envelope.rs:52-69 | The bytes at their places: version, flag, the length with its high byte first, key, payload. |
| `Envelope.DecodeNamesTheFault` | src/envelope.rs:71-103 | Which error a byte string gets, by its bytes alone, with the numbers it names. |
| `Envelope.DecodeInvertsEncode` | src/envelope.rs:52-103 | Decoding inverts encoding for every routing key up to 65535 bytes and every payload. |
| `Envelope.EncodeInvertsDecode` | src/envelope.rs:71-103 | Every accepted byte string re-encodes to itself. |
| `Envelope.WireIsBijection` | src/envelope.rs:52-103 | The decoder accepts exactly the encodings, one message each. |
| `Envelope.Subscribe` | src/pubsub.rs:117-153 | The loop forwards what decoding and filtering leave, in order. |
| `Envelope.FilteredDelivery` | src/pubsub.rs:33-153 | A subscriber gets exactly the published messages matching its filter, in order, unchanged. |
| `WatchPeers.Watcher.Diff` | src/lib.rs:600-626 | After a poll, replaying everything sent gives exactly the peers of that poll; each event sent is a peer that came, as the poll has it, or a node that went. |
| `WatchPeers.Watch` | src/lib.rs:582-637 | For every sequence of polls, replay gives the non-empty ids of the last successful one, and every peer is sent as a poll had it. |
| `WatchPeers.EventsAlternate` | src/lib.rs:606-625 | Each node's events alternate, starting with Joined. |
| `WatchPeers.SnapshotKeepsLast` | src/lib.rs:600-604 | Of several peers with one id the poll's last is kept. |

## Left out

- Connection management, TLS, configuration parsing, runtimes, the FFI surface, logging and the manifest: plumbing around the model.
- `src/state/topic.rs`, reconnect and backoff timing, `jittered`, `acquire_async`'s polling delays and random node ids: they would only add easy members.
- JSON: the scan cursor's text is a pair of functions of which only the round trip is assumed; registrations are taken as parsed.
- The tick loop of `run` is taken apart into single steps on values in `Gate`, because replicas interleave inside a tick; only `gate_index` and `complete_index` are also given as methods on the server object.
- That the gate notices an older build before it writes: peer lists may be cached, so the write discipline is an assumption, stated above.
- `complete_key_index` running beside the tick loop: only the state it leaves behind is modelled, in `GateCompletion`.
- Renewal ending when a handle is dropped, exclusivity between two handles of one node, and anything derived from a handle's own `expires_at`.
- Commands that take effect long after the client gave up on them: in `Gate` a failed command takes effect at once or never.
- The refusal of blank lease names.
- Redis eviction, failover, and TTLs so large that Redis rejects them in the middle of a script.
- The order by score of `ZRANGEBYSCORE` and of a `BTreeMap`: sweeps and peer events are proved for any order of a batch.
- Delivery across reconnects, a receiver that goes away mid-stream, and the deregistration of peers.
- Server.Redis.Sweep: the clocks stand still during the loop, the case in which its end is decided; `SweepLoop.SweepAmong` is the same loop with moving clocks and others at work, of which no end is promised.
- Backfill.BackfillIndex: the filter against the store's own `#` keys is not modelled, because `Glob.BackfillPatternExact` shows the pattern never returns them.
