# Timebase scheduler and pin debouncer, modelled in Dafny

This project models the time-driven core of an STM32 firmware skeleton: the
millisecond **timebase** (`User/utils/timebase.c`) and the **debouncer** built
on it (`User/utils/debounce.c`). Both are fixed-capacity slot tables driven by
a 1 ms tick.

- The timebase keeps a wrapping 32-bit clock `SystemTime_ms` and two tables.
  The periodic-task table holds callbacks run every N ms. The future-task table
  holds one-shot callbacks run after a delay. One counter, shared by both
  tables, hands out task pids and never gives out `PID_NONE` (0).
- The debouncer keeps a table of monitored pins and its own id counter. It
  installs one periodic task that scans every live pin on each tick. A pin's
  stable state follows its raw level only after the level has disagreed with it
  long enough. The pin's callback then gets `(payload, new state)`.

Every operation is a pure function from the old state to the new state. The
tables are sequences of records. The clock, counters and ids are `u32` values
with explicit wrap-around (module `UInt32`). Callbacks, arguments and GPIO
banks are opaque addresses (`Addr`; `NULL` is 0). Callbacks never run: a tick
returns, slot by slot, the `(callback, arg)` calls it made. A debounce scan
returns the `(callback, payload, state)` edges it reported. The raw pin level
is an input: a `PinReader` function for a scan, and a plain boolean for the
single read that `debo_register_pin` does. A call to `error()` is the
`logged` flag of a registration result.

Files and modules:

- `uint32.dfy` (`UInt32`): `uint32_t` addition, increment, decrement and
  subtraction modulo 2^32.
- `slots.dfy` (`Slots`): the first-match linear scan used by every operation,
  and the id counter shared by `make_pid` and `make_id`.
- `timebase.dfy` (`Timebase`): the scheduler state and every timebase
  operation.
- `timebase_proofs.dfy` (`TimebaseProofs`): properties over many ticks.
- `debounce.dfy` (`Debounce`): the debouncer state and every debouncer
  operation.
- `debounce_proofs.dfy` (`DebounceProofs`): properties over runs of scans,
  and the findings.

Behaviour the model keeps exactly as the code has it:

- A task registered with `enqueue = true` never runs its callback. The queue
  post is commented out. Its counter still restarts, and a one-shot slot is
  still freed. The header (User/utils/timebase.h:9-13) expects such tasks to
  be run later by `run_pending_tasks()` from the main loop; no such function
  exists in the code, so nothing runs them.
- A future task with delay D runs on the (D+1)-th tick after scheduling, not
  the D-th. The comparison uses the value from before the post-decrement. The
  header documents the argument only as "task delay (ms)"
  (User/utils/timebase.h:82).
- A pin confirms an edge on the (T+1)-th consecutive disagreeing scan, where T
  is its debounce time, not the T-th. The comparison is `==` on the value from
  before the post-increment. The header documents the field only as the
  debounce time in ms, 20 by default (User/utils/debounce.h:30).
- `add_periodic_task` stores `interval - 1` as the threshold. An interval of 0
  wraps to 0xFFFFFFFF, so that task runs every 2^32 ms.
  `set_periodic_task_interval` stores the interval unchanged (see Findings).
- A full periodic table logs an error. A full future table and a full pin
  table fail silently.
- A freed future slot is left holding countdown 0xFFFFFFFF, because the
  post-decrement also runs on the tick that fires the task.

## Model

| member | source | states |
|---|---|---|
| `Slots.Find` | User/utils/timebase.c:150-156 | the id-keyed scan returns the lowest index whose key matches, or none exactly when no slot matches |
| `Slots.MakeId` | User/utils/timebase.c:65-75 | returns the counter and moves it forward by one, stepping from MAX to 1 over 0; from a non-zero counter the id is never 0 |
| `Slots.NthIdCycles` | User/utils/timebase.c:61-75 | from a non-zero start, the k-th id handed out is `(start - 1 + k) mod (2^32 - 1) + 1`, so the counter cycles through 1..MAX |
| `Slots.IdsDistinctWithinCycle` | User/utils/timebase.c:61-75 | any 2^32 - 1 consecutive draws give pairwise distinct non-zero ids |
| `Slots.NextIdBelowMax` | User/utils/timebase.c:65-75 | a draw from a counter below MAX moves it forward by exactly one |
| `Timebase.Init` | User/utils/timebase.c:51-61 | both tables have the requested capacity with every slot free; the clock is left at whatever the tick has advanced it to; the pid counter is at its initial 1 |
| `Timebase.MakePid` | User/utils/timebase.c:61-75 | one counter serves both tables; a valid counter never yields `PID_NONE` |
| `Timebase.ClaimPeriodicSlot` | User/utils/timebase.c:79-96 | claims the lowest slot with pid 0, or none exactly when the table is full; only that slot changes; counter 0, threshold + 1 = interval (mod 2^32), enabled, the given queue flag, the next pid; callback and argument untouched |
| `Timebase.ClaimFutureSlot` | User/utils/timebase.c:100-115 | claims the lowest slot with pid 0, or none exactly when the table is full; only that slot changes; it gets the countdown, the queue flag and the next pid |
| `Timebase.AddPeriodicTask` | User/utils/timebase.c:118-128 | on a full table: state unchanged, `PID_NONE` returned, error logged; otherwise the lowest free slot holds the whole task with a fresh non-zero pid, and nothing else changes |
| `Timebase.ScheduleTask` | User/utils/timebase.c:132-142 | on a full table: state unchanged and `PID_NONE` returned, never logged; otherwise the lowest free future slot holds the task with countdown = delay and a fresh non-zero pid |
| `Timebase.EnablePeriodicTask` | User/utils/timebase.c:146-159 | true exactly when the pid is not `PID_NONE` and some slot holds it; on false nothing changes; on true only `enabled` of the first matching slot changes |
| `Timebase.IsPeriodicTaskEnabled` | User/utils/timebase.c:163-175 | the flag of the first slot holding the pid; false for `PID_NONE` or an unknown pid |
| `Timebase.ResetPeriodicTask` | User/utils/timebase.c:177-190 | true exactly for a known pid; only the counter of the matching slot changes, to 0 |
| `Timebase.SetPeriodicTaskInterval` | User/utils/timebase.c:193-205 | true exactly for a known pid; only the threshold changes, and it becomes the given interval itself |
| `Timebase.SetPeriodicTaskIntervalFixed` | User/utils/timebase.c:193-205 | corrected setter: true exactly for a known pid; only the threshold of the matching slot changes, and threshold + 1 equals the interval modulo 2^32, as in `add_periodic_task`; the clock, the future table and the pid counter are untouched |
| `Timebase.RemovePeriodicTask` | User/utils/timebase.c:209-222 | true exactly for a known pid; only the pid of the matching slot changes, to `PID_NONE` |
| `Timebase.AbortScheduledTask` | User/utils/timebase.c:226-239 | true exactly when the pid is not `PID_NONE` and some future slot holds it; only that slot's pid is cleared |
| `Timebase.RunPeriodicTask` | User/utils/timebase.c:243-255 | a call is emitted exactly when the task is enabled and not queued |
| `Timebase.RunFutureTask` | User/utils/timebase.c:259-269 | a call is emitted exactly when the task is not queued |
| `Timebase.PeriodicStep` | User/utils/timebase.c:281-290 | free slots are untouched; a due task (counter at or past the threshold) restarts at 0; any other task counts up by exactly one without wrapping; only the counter changes; a call happens exactly when the task is live, due, enabled and not queued |
| `Timebase.FutureStep` | User/utils/timebase.c:294-304 | free slots are untouched; a task at countdown 0 is freed unconditionally and calls only if not queued; any other task counts down by one silently |
| `Timebase.Tick` | User/utils/timebase.c:275-305 | the clock moves exactly 1 ms forward modulo 2^32; every slot of both tables takes its own step independently; capacities and the pid counter are unchanged |
| `TimebaseProofs.TickMovesClock` | User/utils/timebase.c:275-278 | `ms_now` after a tick is `ms_now` before it plus 1 ms, modulo 2^32 |
| `TimebaseProofs.RegistrationsKeepClock` | User/utils/timebase.c:334-337 | `ms_now` reads the same before and after adding a periodic or scheduling a future task |
| `TimebaseProofs.KeyedOpsKeepClock` | User/utils/timebase.c:334-337 | `ms_now` reads the same before and after every pid-keyed call, whether it succeeds or fails |
| `Timebase.MsElapsed` | User/utils/timebase.c:327-330 | start + result = now modulo 2^32, so the result is the wrap-safe elapsed time; it equals now - start when no wrap happened |
| `Timebase.MsLoopElapsed` | User/utils/timebase.c:341-349 | true exactly when the elapsed time is at least the duration; only then does the start move to now |
| `TimebaseProofs.Ticks` | User/utils/timebase.c:275-305 | n consecutive ticks keep both capacities and the pid counter |
| `TimebaseProofs.TicksAdvanceClock` | User/utils/timebase.c:275-278 | after n ticks, now - old now = n mod 2^32 |
| `TimebaseProofs.ElapsedAcrossTicks` | User/utils/timebase.c:327-337 | a timestamp taken n < 2^32 ticks ago is exactly n ms old, even across a wrap-around of the clock |
| `TimebaseProofs.LoopElapsedPeriod` | User/utils/timebase.c:341-349 | a loop guard that has just fired fires again after exactly `duration` ticks, and not earlier |
| `TimebaseProofs.TicksPeriodicSlot` | User/utils/timebase.c:280-291 | after n ticks each periodic slot is its own slot stepped n times |
| `TimebaseProofs.PeriodicCadence` | User/utils/timebase.c:285-290 | with counter 0 and threshold th, the counter is n mod (th + 1) after n ticks, and the task is due exactly on every (th + 1)-th tick |
| `TimebaseProofs.PeriodicCountsUp` | User/utils/timebase.c:285-289 | until it is first due, a live task's counter grows by exactly one per tick |
| `TimebaseProofs.SilentBeforeFirstDue` | User/utils/timebase.c:285-289 | a live task makes no call on the ticks before it is first due |
| `TimebaseProofs.RunsWhenFirstDue` | User/utils/timebase.c:285-290 | on the tick it is first due a live task makes its call (if enabled and immediate) and its counter restarts at 0 |
| `TimebaseProofs.CadenceAfterFirstDue` | User/utils/timebase.c:285-290 | after that tick the task is due exactly when the number of further ticks is a multiple of threshold + 1 |
| `TimebaseProofs.PeriodicCadenceFrom` | User/utils/timebase.c:285-290 | a live task with counter c and threshold th is due on the next tick if c >= th, else on tick th - c + 1, and then on every (th + 1)-th tick, never in between |
| `TimebaseProofs.CadenceOfSlotFrom` | User/utils/timebase.c:280-291 | the same cadence for a live slot of the whole scheduler |
| `TimebaseProofs.AddedTaskFiresEveryInterval` | User/utils/timebase.c:79-96 | a task added with interval K calls back on ticks K, 2K, 3K, ... (every 2^32 ticks for K = 0), and never when queued |
| `TimebaseProofs.SetIntervalPeriod` | User/utils/timebase.c:193-205 | after the interval is set to V on a task with counter c, it is due on the next tick if c >= V, else on tick V - c + 1, and then on every (V + 1)-th tick |
| `TimebaseProofs.SetIntervalOneTickLate` | User/utils/timebase.c:200 | the same interval V >= 1 gives a call on tick V when added, but on tick V + 1 and not V when set afterwards |
| `TimebaseProofs.SetIntervalFromZero` | User/utils/timebase.c:193-205 | interval V >= 1 set on a task with counter 0: no call on tick V, the task's call on tick V + 1 |
| `TimebaseProofs.FixedSetIntervalMatchesAdd` | User/utils/timebase.c:193-205 | with the corrected setter a task with counter c is due on the next tick if c >= V - 1, else on tick V - c, and then every V ticks (2^32 for V = 0); with counter 0 it runs on ticks V, 2V, ..., exactly as a task just added with interval V |
| `TimebaseProofs.FreePeriodicStaysFree` | User/utils/timebase.c:283 | a free periodic slot stays free and emits nothing |
| `TimebaseProofs.EnableThenQuery` | User/utils/timebase.c:146-175 | the query reads back the flag the enable call wrote; when the enable fails (`PID_NONE` or unknown pid) the query says false |
| `TimebaseProofs.DisabledTaskStaysSilent` | User/utils/timebase.c:243-245 | a task disabled through its pid keeps its slot but calls back on no tick at all |
| `TimebaseProofs.ResetRestartsCadence` | User/utils/timebase.c:177-190 | after a reset the task is due on every (threshold + 1)-th tick counted from the reset, whatever its counter was |
| `TimebaseProofs.RemovedTaskNeverRuns` | User/utils/timebase.c:209-222 | after removal the slot stays free and emits no call on any later tick |
| `TimebaseProofs.TicksFutureSlot` | User/utils/timebase.c:293-304 | after n ticks each future slot is its own slot stepped n times |
| `TimebaseProofs.FutureCountdown` | User/utils/timebase.c:298 | a live future task counts down by one per tick until it reaches 0 |
| `TimebaseProofs.FreeFutureStaysFree` | User/utils/timebase.c:296 | a free future slot stays free and emits nothing |
| `TimebaseProofs.ScheduledTaskFiresOnce` | User/utils/timebase.c:294-304 | a task scheduled with delay D stays pending with countdown D - n for n <= D ticks; it calls back on tick D + 1 only, and only if not queued; its slot is free from then on |
| `TimebaseProofs.FutureFiresOnce` | User/utils/timebase.c:298-303 | a live future slot with countdown D holds D - n after n <= D ticks, emits its call on the step after the D-th tick only, and is free afterwards |
| `TimebaseProofs.AbortedTaskNeverRuns` | User/utils/timebase.c:226-239 | the abort succeeds, the slot stays free and the task emits no call on any later tick |
| `TimebaseProofs.AddKeepsPidsDistinct` | User/utils/timebase.c:118-128 | if live pids are distinct and the counter is not a live pid, they stay distinct after a periodic registration |
| `TimebaseProofs.ScheduleKeepsPidsDistinct` | User/utils/timebase.c:132-142 | the same for a future registration |
| `TimebaseProofs.TickKeepsPidsDistinct` | User/utils/timebase.c:275-305 | a tick only frees slots, so distinct live pids stay distinct |
| `TimebaseProofs.ReAddReusesSlot` | User/utils/timebase.c:209-222 | add, remove, add again: the removal succeeds; the second add reuses the same slot and leaves the table as the first did except for a new, different pid |
| `TimebaseProofs.AddedSlot` | User/utils/timebase.c:79-96 | the slot a successful add fills holds exactly callback, argument, threshold interval - 1, counter 0, the drawn pid, enabled and the queue flag, and no other slot changes |
| `TimebaseProofs.RemoveIsFinal` | User/utils/timebase.c:209-222 | with live pids distinct, a removed pid is gone: it reads as disabled and a second remove or an enable fails |
| `TimebaseProofs.AbortIsFinal` | User/utils/timebase.c:226-239 | with live pids distinct, a second abort of the same pid fails |
| `TimebaseProofs.PidInvariantIsFresh` | User/utils/timebase.c:61-75 | when the counter is non-zero and above every pid in both tables, neither table holds the pid it hands out next |
| `TimebaseProofs.InitEstablishesPidInvariant` | User/utils/timebase.c:51-61 | after `timebase_init` the counter is 1, above every (free) slot, and live pids are distinct |
| `TimebaseProofs.AddKeepsPidInvariant` | User/utils/timebase.c:118-128 | while the counter is below MAX, adding a periodic task keeps the counter above every pid and live pids distinct |
| `TimebaseProofs.ScheduleKeepsPidInvariant` | User/utils/timebase.c:132-142 | the same for scheduling a future task |
| `TimebaseProofs.ClearingKeepsPidInvariant` | User/utils/timebase.c:209-239 | any change that keeps each pid or clears it to `PID_NONE`, with the counter and capacities unchanged, keeps the invariant |
| `TimebaseProofs.TickKeepsPidInvariant` | User/utils/timebase.c:275-305 | a tick keeps the invariant |
| `TimebaseProofs.EnableResetKeepPidInvariant` | User/utils/timebase.c:146-190 | enabling, disabling and resetting a task keep the invariant, whether they succeed or fail |
| `TimebaseProofs.SetIntervalKeepsPidInvariant` | User/utils/timebase.c:193-205 | the interval setter, as written and corrected, keeps the invariant, whether it succeeds or fails |
| `TimebaseProofs.RemovalsKeepPidInvariant` | User/utils/timebase.c:209-239 | removing a periodic task and aborting a future one keep the invariant |
| `Debounce.DebounceInit` | User/utils/debounce.c:54-60 | every pin slot is free and the id counter is 1; the scan is added to the lowest free periodic slot, enabled, immediate, with threshold 0, argument NULL and counter 0; on a full task table the timebase logs and nothing is installed; the clock and the future table are untouched, and an installed scan uses up one pid |
| `Debounce.MakePinId` | User/utils/debounce.c:31-50 | pin ids come from their own counter and are never 0 |
| `Debounce.RegisterPin` | User/utils/debounce.c:64-90 | a full table returns `DEBO_PIN_NONE` and changes nothing; otherwise the lowest free slot is overwritten in every field: counters 0, debounce time 0 replaced by 20, state = raw XOR invert, a fresh id |
| `Debounce.PinUpdate` | User/utils/debounce.c:98-132 | a level equal to the state clears both counters; a differing level counts up only its own counter and commits exactly when that counter's old value equals the debounce time; a report is made exactly on commit with a non-NULL callback; only state and counters change |
| `Debounce.PinStep` | User/utils/debounce.c:102-131 | the scan body as written: after a commit the counter is one past the debounce time and is not cleared; the other counter is untouched |
| `Debounce.ScanTick` | User/utils/debounce.c:94-133 | every slot reads its own pin and takes its own step; the id counter and capacity are unchanged |
| `Debounce.PinState` | User/utils/debounce.c:141-153 | the state of the first slot holding the id; false for `DEBO_PIN_NONE` or an unknown id; nothing changes |
| `Debounce.RemovePin` | User/utils/debounce.c:161-174 | true exactly for a known id; on a match only that slot's id is cleared |
| `DebounceProofs.PinRun` | User/utils/debounce.c:98-132 | over any run of scans only state and counters change, with at most one report per scan |
| `DebounceProofs.DisagreeingRun` | User/utils/debounce.c:105-126 | k disagreeing scans with k <= debounce time - counter (mod 2^32) only add k to that counter: no state change and no report |
| `DebounceProofs.CommitRun` | User/utils/debounce.c:105-126 | a disagreeing level commits on scan (debounce time - counter mod 2^32) + 1, with exactly one report; the counter is then one past the debounce time |
| `DebounceProofs.CountUpToDeboTime` | User/utils/debounce.c:116-126 | the disagreeing scans before the commit bring the counter exactly to the debounce time, silently |
| `DebounceProofs.CommitScan` | User/utils/debounce.c:116-126 | as written, the scan on which the counter's old value equals the debounce time flips the state, leaves the counter at T + 1 and reports once |
| `DebounceProofs.EdgeOnScanTPlusOne` | User/utils/debounce.c:105-131 | from a zero counter, the state flips on exactly the (T + 1)-th consecutive disagreeing scan with exactly one callback, and not before |
| `DebounceProofs.CommitFromZero` | User/utils/debounce.c:105-126 | from a zero counter, scan T + 1 flips the state with one report |
| `DebounceProofs.SilentFromZero` | User/utils/debounce.c:105-126 | from a zero counter, the first T scans keep the state and report nothing |
| `DebounceProofs.GlitchForgotten` | User/utils/debounce.c:127-131 | a disagreement of at most T scans followed by one agreeing scan leaves the state unchanged, both counters at 0 and no report |
| `DebounceProofs.StaleCounterStallsEdge` | User/utils/debounce.c:116-126 | as written: after a rising then a falling edge back to back, a held high level is still not confirmed after 2^32 - 1 scans |
| `DebounceProofs.RegisteredPinSettled` | User/utils/debounce.c:76-82 | a freshly registered pin satisfies the settled invariant |
| `DebounceProofs.ClearedStepKeepsSettled` | User/utils/debounce.c:105-131 | the corrected step, which clears both counters on commit, preserves the settled invariant |
| `DebounceProofs.AsWrittenStepBreaksSettled` | User/utils/debounce.c:109-125 | as written, a settled pin that commits an edge (debounce time below MAX) ends with the counter towards its new state at T + 1, so it is no longer settled |
| `DebounceProofs.AgreeingRun` | User/utils/debounce.c:127-131 | agreeing scans on a pin with zero counters change nothing and report nothing |
| `DebounceProofs.ClearedCommitsWithinWindow` | User/utils/debounce.c:105-126 | with the corrected step, T + 1 disagreeing scans on any settled pin end in the new state, settled, with exactly one report |
| `DebounceProofs.ClearedBackToBackEdges` | User/utils/debounce.c:105-126 | with the corrected step, the back-to-back trace confirms all three edges |
| `DebounceProofs.Scans` | User/utils/debounce.c:94-100 | consecutive scans keep the capacity and the id counter |
| `DebounceProofs.ScansPinSlot` | User/utils/debounce.c:98-103 | over consecutive scans each pin slot evolves alone, from the levels of its own pin |
| `DebounceProofs.ScanRunsEveryTick` | User/utils/debounce.c:59 | the scan installed by `debounce_init` is called on every tick |
| `DebounceProofs.ReRegisterOverwritesSlot` | User/utils/debounce.c:64-90 | register, remove, register again: the same slot is reused and equals the first registration except for a new, different id |
| `DebounceProofs.RegisteredSlot` | User/utils/debounce.c:64-90 | the slot a successful registration fills holds exactly the configured pin, state raw XOR invert, the drawn id, the debounce time (20 for 0) and zero counters, and no other slot changes |
| `DebounceProofs.RegisterThenState` | User/utils/debounce.c:78-86 | the state query on a freshly registered id gives the level read at registration, inverted if configured |
| `DebounceProofs.RegisterKeepsIdsDistinct` | User/utils/debounce.c:64-90 | registering under an id no live slot holds keeps live ids distinct |
| `DebounceProofs.RemoveIsFinal` | User/utils/debounce.c:161-174 | with live ids distinct, a removed id reads as low and a second removal fails |
| `DebounceProofs.IdInvariantIsFresh` | User/utils/debounce.c:40-50 | when the id counter is non-zero and above every id in the table, no slot holds the id it hands out next |
| `DebounceProofs.InitEstablishesIdInvariant` | User/utils/debounce.c:54-60 | after `debounce_init` the id counter is 1, above every (free) slot, and live ids are distinct |
| `DebounceProofs.RegisterKeepsIdInvariant` | User/utils/debounce.c:64-90 | while the id counter is below MAX, a registration keeps the counter above every id and live ids distinct |
| `DebounceProofs.ScanKeepsIdInvariant` | User/utils/debounce.c:94-133 | a scan keeps the invariant |
| `DebounceProofs.RemoveKeepsIdInvariant` | User/utils/debounce.c:161-174 | a removal keeps the invariant, whether it succeeds or fails |

## Findings

| source | as written | input that shows it | evidently intended | confidence | as-written member | corrected member |
|---|---|---|---|---|---|---|
| User/utils/debounce.c:109-125 | a commit leaves the counter at T + 1, and only an agreeing scan clears it | default T = 20: level high for 21 ms, low for 21 ms, then high for good; the third edge is confirmed only after 2^32 ms (about 49.7 days) | clear both counters on commit, so every edge is confirmed after T + 1 disagreeing scans | medium; not executed | `DebounceProofs.StaleCounterStallsEdge` | `DebounceProofs.ClearedCommitsWithinWindow` |
| User/utils/timebase.c:200 | `set_periodic_task_interval` stores the interval as the threshold, with no `- 1` | `add_periodic_task(cb, arg, 5, false)` runs every 5 ms; after `set_periodic_task_interval(pid, 5)` and a counter at 0 it runs every 6 ms | store `interval - 1`, as `add_periodic_task` does | medium; not executed | `TimebaseProofs.SetIntervalOneTickLate` | `TimebaseProofs.FixedSetIntervalMatchesAdd` |

The corrected definitions are `Debounce.PinUpdate` with `clearOnCommit` true
and `Timebase.SetPeriodicTaskIntervalFixed`. The operations `ScanTick` and
`SetPeriodicTaskInterval` keep the behaviour of the code.

## Left out

- `delay_ms`, `delay_s` (User/utils/timebase.c:310-323) and `delay_cycles`, `delay_ns`, `delay_us` (User/utils/timebase.h:111-140): busy-waits on a clock changed by an interrupt, and cycle-counted inline assembly.
- `until_timeout` and `retry_TO` (User/utils/timebase.h:29-36): control-flow macros over `ms_elapsed`.
- Interrupt timing: the tick interrupting a registration or removal half-way, and `ms_loop_elapsed` reading the volatile clock twice. Every operation is modelled as atomic.
- Callbacks that re-enter the scheduler or the debouncer from inside a tick: a callback is an emitted event and has no effect on the tables.
- Running a callback. A NULL timebase callback would be called and crash; the model only emits the call.
- The task queue meant for `enqueue` tasks: it does not exist in the code, so queued tasks emit nothing.
- `HAL_GPIO_ReadPin`: an input, a `PinReader` function per scan and a boolean for the read at registration.
- `error()` and the rest of `debug.c`: only the fact that an error was logged is kept.
- `calloc_s` and `malloc_safe.c`: tables are given zero-filled with their capacity; allocation failure (a device reset) is not modelled.
- Calling `timebase_init` or `debounce_init` more than once: `Init` and `DebounceInit` model the first call, when the pid and pin-id counters still hold their static initial value 1. The clock is not reset by either call; `Init` takes its current reading as a parameter, because the tick may already have advanced it.
- `handlers.c`, `init.c`, `user_main.c` and `syscalls.c`: application glue, HAL hooks and C runtime stubs.
- `TimebaseProofs.AddKeepsPidsDistinct`: pid uniqueness is proved only while the counter does not point at a live pid. The code never checks for a clash after 2^32 - 1 registrations wrap the counter, so uniqueness does not hold in general. `PidInvariant` gives that freshness from `timebase_init` on, through every operation, until the counter reaches MAX.
- `TimebaseProofs.ScheduleKeepsPidsDistinct`: the same freshness assumption, for the same reason.
- `TimebaseProofs.AddKeepsPidInvariant`: requires the counter below MAX; the registration that draws MAX wraps the counter to 1, and from then on a live pid may be handed out again.
- `TimebaseProofs.ScheduleKeepsPidInvariant`: requires the counter below MAX, for the same reason.
- `DebounceProofs.RegisterKeepsIdsDistinct`: proved only while the id counter does not point at a live id. `IdInvariant` gives that freshness from `debounce_init` on, through every operation, until the counter reaches MAX.
- `DebounceProofs.RegisterKeepsIdInvariant`: requires the id counter below MAX, for the same reason.
- `DebounceProofs.ReRegisterOverwritesSlot`: does not compare `debo_pin_state` of the two ids, because an earlier slot could already hold the second id once the counter has wrapped.
- `TimebaseProofs.RemoveIsFinal`: holds only while live pids are distinct. After the counter wraps, a later slot may hold the same pid, and the code would then act on that slot.
- `TimebaseProofs.AbortIsFinal`: holds only while live pids are distinct, for the same reason.
- `DebounceProofs.RemoveIsFinal`: holds only while live pin ids are distinct, for the same reason.
- `DebounceProofs.RegisterThenState`: requires that no live slot already holds the new id. After the id counter wraps, an earlier slot could hold it and would answer the query instead.
