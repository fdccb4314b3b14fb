/**
 The millisecond timebase: a wrapping 32-bit clock, a table of periodic tasks
 and a table of one-shot future tasks, all advanced by one tick per
 millisecond. Every operation is a pure transition of the `Scheduler` state;
 a tick also returns, slot by slot, the callbacks it invoked.
 */
module Timebase {
  import opened UInt32
  import opened Slots

  /** `PID_NONE`: the pid of an unused slot, never given to a task. */
  const PID_NONE: u32 := NONE

  /**
   One slot of the periodic table (`periodic_task_t`). `interval` is the match
   threshold `interval_ms`: the task is due when its pre-increment `countup`
   is at least `interval`.
   */
  datatype PeriodicTask = PeriodicTask(
    callback: Addr,
    arg: Addr,
    interval: u32,
    countup: u32,
    pid: u32,
    enabled: bool,
    enqueue: bool)

  /** One slot of the future table (`future_task_t`). */
  datatype FutureTask = FutureTask(
    callback: Addr,
    arg: Addr,
    countdown: u32,
    pid: u32,
    enqueue: bool)

  /** A callback invocation `callback(arg)`. */
  datatype Call = Call(callback: Addr, arg: Addr)

  /**
   The whole timebase: `SystemTime_ms`, the two tables (their lengths are the
   slot counts given at initialisation) and the shared pid counter.
   */
  datatype Scheduler = Scheduler(
    now: u32,
    periodic: seq<PeriodicTask>,
    future: seq<FutureTask>,
    nextPid: u32)

  /** The state a registration leaves, the pid it returned and whether it logged an error. */
  datatype Registration = Registration(sched: Scheduler, pid: u32, logged: bool)

  /** The state an id-keyed operation leaves and its boolean return value. */
  datatype Outcome = Outcome(sched: Scheduler, ok: bool)

  /** A claimed slot: the updated table, the index taken and the pid counter after the draw. */
  datatype Claim<T> = Claim(table: seq<T>, slot: nat, next: u32)

  /** The new state after one tick and the callbacks fired, aligned with the slots. */
  datatype TickResult = TickResult(
    sched: Scheduler,
    periodicCalls: seq<Option<Call>>,
    futureCalls: seq<Option<Call>>)

  function PeriodicPid(t: PeriodicTask): u32 { t.pid }

  function FuturePid(t: FutureTask): u32 { t.pid }

  /** A slot as `calloc` leaves it. */
  const ZeroPeriodic := PeriodicTask(NULL, NULL, 0, 0, PID_NONE, false, false)
  const ZeroFuture := FutureTask(NULL, NULL, 0, PID_NONE, false)

  /** The pid counter never holds `PID_NONE` once the program has started. */
  predicate Valid(s: Scheduler)
  {
    s.nextPid != PID_NONE
  }

  /**
   `timebase_init`: both tables zero-filled, so every slot is free, and the pid
   counter at its static initial value 1. The clock is not touched: SysTick may
   already have advanced it to `now` before the call.
   */
  function Init(periodicCount: nat, futureCount: nat, now: u32): (s: Scheduler)
    ensures Valid(s) && s.nextPid == 1 && s.now == now
    ensures |s.periodic| == periodicCount && |s.future| == futureCount
    ensures forall i :: 0 <= i < |s.periodic| ==> s.periodic[i].pid == PID_NONE
    ensures forall i :: 0 <= i < |s.future| ==> s.future[i].pid == PID_NONE
  {
    Scheduler(now, seq(periodicCount, _ => ZeroPeriodic), seq(futureCount, _ => ZeroFuture), 1)
  }

  /** `make_pid`: the shared counter serves periodic and future registrations alike. */
  function MakePid(s: Scheduler): (r: Draw)
    ensures Valid(s) ==> r.id != PID_NONE
    ensures r.id == s.nextPid && r.next != PID_NONE
    ensures r.next == NthId(s.nextPid, 1)
  {
    MakeId(s.nextPid)
  }

  // ---- registration ----------------------------------------------------

  /**
   `claim_periodic_task_slot`: take the lowest-index slot whose pid is 0 and set
   its counter, threshold (one less than the interval), queue flag, a fresh pid
   and the enable flag. Callback and argument are left as they were. `None`
   when no slot is free.
   */
  function ClaimPeriodicSlot(table: seq<PeriodicTask>, counter: u32, interval: u32, enqueue: bool)
    : (r: Option<Claim<PeriodicTask>>)
    ensures r.None? <==> Absent(table, PeriodicPid, PID_NONE)
    ensures r.Some? ==>
      var c := r.value;
      && IsFirst(table, PeriodicPid, PID_NONE, c.slot)
      && OnlySlotChanged(table, c.table, c.slot)
      && c.table[c.slot].countup == 0
      && Add(c.table[c.slot].interval, 1) == interval
      && c.table[c.slot].enqueue == enqueue
      && c.table[c.slot].enabled
      && c.table[c.slot].pid == counter
      && c.table[c.slot].callback == table[c.slot].callback
      && c.table[c.slot].arg == table[c.slot].arg
      && c.next == NthId(counter, 1)
  {
    match Find(table, PeriodicPid, PID_NONE)
    case None => None
    case Some(i) =>
      var d := MakeId(counter);
      var t := table[i].(countup := 0, interval := Sub(interval, 1), enqueue := enqueue,
                         pid := d.id, enabled := true);
      Some(Claim(table[i := t], i, d.next))
  }

  /**
   `claim_future_task_slot`: take the lowest-index slot whose pid is 0 and set
   its countdown, queue flag and a fresh pid. `None` when no slot is free.
   */
  function ClaimFutureSlot(table: seq<FutureTask>, counter: u32, delay: u32, enqueue: bool)
    : (r: Option<Claim<FutureTask>>)
    ensures r.None? <==> Absent(table, FuturePid, PID_NONE)
    ensures r.Some? ==>
      var c := r.value;
      && IsFirst(table, FuturePid, PID_NONE, c.slot)
      && OnlySlotChanged(table, c.table, c.slot)
      && c.table[c.slot] == table[c.slot].(countdown := delay, enqueue := enqueue, pid := counter)
      && c.next == NthId(counter, 1)
  {
    match Find(table, FuturePid, PID_NONE)
    case None => None
    case Some(i) =>
      var d := MakeId(counter);
      Some(Claim(table[i := table[i].(countdown := delay, enqueue := enqueue, pid := d.id)], i, d.next))
  }

  /**
   `add_periodic_task`: on a full table nothing changes, `PID_NONE` is returned
   and an error is logged; otherwise the lowest free slot holds the new task,
   enabled, with counter 0 and threshold `interval - 1`, under a fresh pid.
   */
  function AddPeriodicTask(s: Scheduler, callback: Addr, arg: Addr, interval: u32, enqueue: bool)
    : (r: Registration)
    ensures Absent(s.periodic, PeriodicPid, PID_NONE) ==> r == Registration(s, PID_NONE, true)
    ensures !Absent(s.periodic, PeriodicPid, PID_NONE) ==>
      && !r.logged
      && r.pid == s.nextPid
      && (Valid(s) ==> r.pid != PID_NONE)
      && Valid(r.sched)
      && r.sched.now == s.now && r.sched.future == s.future
      && r.sched.nextPid == NthId(s.nextPid, 1)
    ensures forall i :: IsFirst(s.periodic, PeriodicPid, PID_NONE, i) ==>
      && OnlySlotChanged(s.periodic, r.sched.periodic, i)
      && r.sched.periodic[i].callback == callback
      && r.sched.periodic[i].arg == arg
      && r.sched.periodic[i].countup == 0
      && Add(r.sched.periodic[i].interval, 1) == interval
      && r.sched.periodic[i].pid == r.pid
      && r.sched.periodic[i].enabled
      && r.sched.periodic[i].enqueue == enqueue
  {
    match ClaimPeriodicSlot(s.periodic, s.nextPid, interval, enqueue)
    case None => Registration(s, PID_NONE, true)
    case Some(c) =>
      var t := c.table[c.slot].(callback := callback, arg := arg);
      Registration(s.(periodic := c.table[c.slot := t], nextPid := c.next), t.pid, false)
  }

  /**
   `schedule_task`: on a full table nothing changes and `PID_NONE` is returned
   with no error logged; otherwise the lowest free future slot holds the task
   with countdown `delay`, under a fresh pid.
   */
  function ScheduleTask(s: Scheduler, callback: Addr, arg: Addr, delay: u32, enqueue: bool)
    : (r: Registration)
    ensures !r.logged
    ensures Absent(s.future, FuturePid, PID_NONE) ==> r == Registration(s, PID_NONE, false)
    ensures !Absent(s.future, FuturePid, PID_NONE) ==>
      && r.pid == s.nextPid
      && (Valid(s) ==> r.pid != PID_NONE)
      && Valid(r.sched)
      && r.sched.now == s.now && r.sched.periodic == s.periodic
      && r.sched.nextPid == NthId(s.nextPid, 1)
    ensures forall i :: IsFirst(s.future, FuturePid, PID_NONE, i) ==>
      && OnlySlotChanged(s.future, r.sched.future, i)
      && r.sched.future[i] == FutureTask(callback, arg, delay, r.pid, enqueue)
  {
    match ClaimFutureSlot(s.future, s.nextPid, delay, enqueue)
    case None => Registration(s, PID_NONE, false)
    case Some(c) =>
      var t := c.table[c.slot].(callback := callback, arg := arg);
      Registration(s.(future := c.table[c.slot := t], nextPid := c.next), t.pid, false)
  }

  // ---- id-keyed operations ---------------------------------------------

  /** The periodic slot a pid-keyed operation acts on: the first live slot holding `pid`. */
  predicate PeriodicTarget(s: Scheduler, pid: u32, i: int)
  {
    pid != PID_NONE && IsFirst(s.periodic, PeriodicPid, pid, i)
  }

  /** Whether a pid-keyed periodic operation finds its slot. */
  predicate PeriodicKnown(s: Scheduler, pid: u32)
  {
    pid != PID_NONE && !Absent(s.periodic, PeriodicPid, pid)
  }

  /**
   Apply `change` to the first periodic slot holding `pid`; false and no change
   for `PID_NONE` or a pid no slot holds.
   */
  function UpdatePeriodic(s: Scheduler, pid: u32, change: PeriodicTask -> PeriodicTask): (r: Outcome)
    ensures r.ok <==> PeriodicKnown(s, pid)
    ensures !r.ok ==> r.sched == s
    ensures forall i :: PeriodicTarget(s, pid, i) ==>
      r.sched == s.(periodic := s.periodic[i := change(s.periodic[i])])
  {
    if pid == PID_NONE then Outcome(s, false)
    else match Find(s.periodic, PeriodicPid, pid)
      case None => Outcome(s, false)
      case Some(i) => Outcome(s.(periodic := s.periodic[i := change(s.periodic[i])]), true)
  }

  /** `enable_periodic_task`: only the `enabled` field of the matching slot changes. */
  function EnablePeriodicTask(s: Scheduler, pid: u32, enable: bool): (r: Outcome)
    ensures r.ok <==> PeriodicKnown(s, pid)
    ensures !r.ok ==> r.sched == s
    ensures forall i :: PeriodicTarget(s, pid, i) ==>
      && r.sched.now == s.now && r.sched.future == s.future && r.sched.nextPid == s.nextPid
      && OnlySlotChanged(s.periodic, r.sched.periodic, i)
      && r.sched.periodic[i] == s.periodic[i].(enabled := enable)
  {
    UpdatePeriodic(s, pid, (t: PeriodicTask) => t.(enabled := enable))
  }

  /** `is_periodic_task_enabled`: the enable flag of the matching slot, false when none matches. */
  function IsPeriodicTaskEnabled(s: Scheduler, pid: u32): (r: bool)
    ensures r ==> PeriodicKnown(s, pid)
    ensures forall i :: PeriodicTarget(s, pid, i) ==> (r <==> s.periodic[i].enabled)
  {
    if pid == PID_NONE then false
    else match Find(s.periodic, PeriodicPid, pid)
      case None => false
      case Some(i) => s.periodic[i].enabled
  }

  /** `reset_periodic_task`: only the counter of the matching slot changes, to 0. */
  function ResetPeriodicTask(s: Scheduler, pid: u32): (r: Outcome)
    ensures r.ok <==> PeriodicKnown(s, pid)
    ensures !r.ok ==> r.sched == s
    ensures forall i :: PeriodicTarget(s, pid, i) ==>
      && r.sched.now == s.now && r.sched.future == s.future && r.sched.nextPid == s.nextPid
      && OnlySlotChanged(s.periodic, r.sched.periodic, i)
      && r.sched.periodic[i] == s.periodic[i].(countup := 0)
  {
    UpdatePeriodic(s, pid, (t: PeriodicTask) => t.(countup := 0))
  }

  /**
   `set_periodic_task_interval`: only the threshold of the matching slot
   changes, to `interval` itself (no `- 1`, unlike `add_periodic_task`).
   */
  function SetPeriodicTaskInterval(s: Scheduler, pid: u32, interval: u32): (r: Outcome)
    ensures r.ok <==> PeriodicKnown(s, pid)
    ensures !r.ok ==> r.sched == s
    ensures forall i :: PeriodicTarget(s, pid, i) ==>
      && r.sched.now == s.now && r.sched.future == s.future && r.sched.nextPid == s.nextPid
      && OnlySlotChanged(s.periodic, r.sched.periodic, i)
      && r.sched.periodic[i] == s.periodic[i].(interval := interval)
  {
    UpdatePeriodic(s, pid, (t: PeriodicTask) => t.(interval := interval))
  }

  /**
   The evidently intended `set_periodic_task_interval`: store `interval - 1`,
   as `add_periodic_task` does, so that the interval means the same period in
   both calls.
   */
  function SetPeriodicTaskIntervalFixed(s: Scheduler, pid: u32, interval: u32): (r: Outcome)
    ensures r.ok <==> PeriodicKnown(s, pid)
    ensures !r.ok ==> r.sched == s
    ensures forall i :: PeriodicTarget(s, pid, i) ==>
      && r.sched.now == s.now && r.sched.future == s.future && r.sched.nextPid == s.nextPid
      && OnlySlotChanged(s.periodic, r.sched.periodic, i)
      && Add(r.sched.periodic[i].interval, 1) == interval
      && r.sched.periodic[i] == s.periodic[i].(interval := r.sched.periodic[i].interval)
  {
    UpdatePeriodic(s, pid, (t: PeriodicTask) => t.(interval := Sub(interval, 1)))
  }

  /** `remove_periodic_task`: only the pid of the matching slot changes, to `PID_NONE`. */
  function RemovePeriodicTask(s: Scheduler, pid: u32): (r: Outcome)
    ensures r.ok <==> PeriodicKnown(s, pid)
    ensures !r.ok ==> r.sched == s
    ensures forall i :: PeriodicTarget(s, pid, i) ==>
      && r.sched.now == s.now && r.sched.future == s.future && r.sched.nextPid == s.nextPid
      && OnlySlotChanged(s.periodic, r.sched.periodic, i)
      && r.sched.periodic[i] == s.periodic[i].(pid := PID_NONE)
  {
    UpdatePeriodic(s, pid, (t: PeriodicTask) => t.(pid := PID_NONE))
  }

  /**
   `abort_scheduled_task`: false and no change for `PID_NONE` or a pid no future
   slot holds; otherwise only the pid of the first matching slot is cleared.
   */
  function AbortScheduledTask(s: Scheduler, pid: u32): (r: Outcome)
    ensures r.ok <==> pid != PID_NONE && !Absent(s.future, FuturePid, pid)
    ensures !r.ok ==> r.sched == s
    ensures forall i :: pid != PID_NONE && IsFirst(s.future, FuturePid, pid, i) ==>
      && r.sched.now == s.now && r.sched.periodic == s.periodic && r.sched.nextPid == s.nextPid
      && OnlySlotChanged(s.future, r.sched.future, i)
      && r.sched.future[i] == s.future[i].(pid := PID_NONE)
  {
    if pid == PID_NONE then Outcome(s, false)
    else match Find(s.future, FuturePid, pid)
      case None => Outcome(s, false)
      case Some(i) => Outcome(s.(future := s.future[i := s.future[i].(pid := PID_NONE)]), true)
  }

  // ---- the tick --------------------------------------------------------

  /** A live periodic task is due when its pre-increment counter has reached the threshold. */
  predicate Due(t: PeriodicTask)
  {
    t.countup >= t.interval
  }

  /**
   `run_periodic_task`: a disabled task runs nothing; an enabled queued task
   runs nothing either, because posting to the task queue is not implemented;
   an enabled immediate task calls `callback(arg)`.
   */
  function RunPeriodicTask(t: PeriodicTask): (r: Option<Call>)
    ensures r.Some? <==> t.enabled && !t.enqueue
    ensures r.Some? ==> r.value == Call(t.callback, t.arg)
  {
    if !t.enabled then None
    else if t.enqueue then None
    else Some(Call(t.callback, t.arg))
  }

  /**
   `run_future_task`: a queued task runs nothing, because posting to the task
   queue is not implemented; an immediate task calls `callback(arg)`.
   */
  function RunFutureTask(t: FutureTask): (r: Option<Call>)
    ensures r.Some? <==> !t.enqueue
    ensures r.Some? ==> r.value == Call(t.callback, t.arg)
  {
    if t.enqueue then None else Some(Call(t.callback, t.arg))
  }

  /**
   One periodic slot in one tick: a free slot is skipped; a due task is run
   and its counter restarts at 0; any other live task counts up by exactly one
   (the counter is below the threshold, so it cannot wrap). Nothing but the
   counter ever changes.
   */
  function PeriodicStep(t: PeriodicTask): (r: Stepped<PeriodicTask, Call>)
    ensures r.slot == t.(countup := r.slot.countup)
    ensures t.pid == PID_NONE ==> r == Stepped(t, None)
    ensures t.pid != PID_NONE && Due(t) ==> r.slot.countup == 0
    ensures t.pid != PID_NONE && !Due(t) ==> r.slot.countup == t.countup + 1
    ensures r.event.Some? <==> t.pid != PID_NONE && Due(t) && t.enabled && !t.enqueue
    ensures r.event.Some? ==> r.event.value == Call(t.callback, t.arg)
  {
    if t.pid == PID_NONE then Stepped(t, None)
    else if Due(t) then Stepped(t.(countup := 0), RunPeriodicTask(t))
    else Stepped(t.(countup := Inc(t.countup)), None)
  }

  /**
   One future slot in one tick: a free slot is skipped; a task whose countdown
   is already 0 is run and its slot freed (the post-decrement leaves MAX
   behind); any other live task counts down by one.
   */
  function FutureStep(t: FutureTask): (r: Stepped<FutureTask, Call>)
    ensures t.pid == PID_NONE ==> r == Stepped(t, None)
    ensures t.pid != PID_NONE && t.countdown == 0 ==>
      && r.slot == t.(pid := PID_NONE, countdown := MAX)
      && (r.event.Some? <==> !t.enqueue)
      && (r.event.Some? ==> r.event.value == Call(t.callback, t.arg))
    ensures t.pid != PID_NONE && t.countdown != 0 ==>
      r == Stepped(t.(countdown := t.countdown - 1), None)
  {
    if t.pid == PID_NONE then Stepped(t, None)
    else if t.countdown == 0 then
      Stepped(t.(countdown := Dec(t.countdown), pid := PID_NONE), RunFutureTask(t))
    else Stepped(t.(countdown := Dec(t.countdown)), None)
  }

  /**
   `timebase_ms_cb`: the clock moves one millisecond forward (modulo 2^32),
   then every periodic slot and every future slot takes its own step, each
   independently of the others, in slot order.
   */
  function Tick(s: Scheduler): (r: TickResult)
    ensures Sub(r.sched.now, s.now) == 1
    ensures r.sched.nextPid == s.nextPid
    ensures |r.sched.periodic| == |r.periodicCalls| == |s.periodic|
    ensures |r.sched.future| == |r.futureCalls| == |s.future|
    ensures forall i :: 0 <= i < |s.periodic| ==>
      Stepped(r.sched.periodic[i], r.periodicCalls[i]) == PeriodicStep(s.periodic[i])
    ensures forall i :: 0 <= i < |s.future| ==>
      Stepped(r.sched.future[i], r.futureCalls[i]) == FutureStep(s.future[i])
  {
    var ps := seq(|s.periodic|, i requires 0 <= i < |s.periodic| => PeriodicStep(s.periodic[i]));
    var fs := seq(|s.future|, i requires 0 <= i < |s.future| => FutureStep(s.future[i]));
    TickResult(
      Scheduler(Inc(s.now),
                seq(|ps|, i requires 0 <= i < |ps| => ps[i].slot),
                seq(|fs|, i requires 0 <= i < |fs| => fs[i].slot),
                s.nextPid),
      seq(|ps|, i requires 0 <= i < |ps| => ps[i].event),
      seq(|fs|, i requires 0 <= i < |fs| => fs[i].event))
  }

  // ---- time helpers ----------------------------------------------------

  /** `ms_now`: the current timestamp. */
  function MsNow(s: Scheduler): u32
  {
    s.now
  }

  /**
   `ms_elapsed`: milliseconds since `start`, by unsigned subtraction, so that
   `start` plus the result is the current time even across a wrap-around.
   */
  function MsElapsed(s: Scheduler, start: u32): (r: u32)
    ensures Add(start, r) == MsNow(s)
    ensures start <= MsNow(s) ==> r == MsNow(s) - start
  {
    Sub(s.now, start)
  }

  /** The return value of `ms_loop_elapsed` and the value it leaves in `*start`. */
  datatype LoopCheck = LoopCheck(elapsed: bool, start: u32)

  /**
   `ms_loop_elapsed`: true exactly when at least `duration` ms have elapsed
   since `start`; only then is the start moved to the current time.
   */
  function MsLoopElapsed(s: Scheduler, start: u32, duration: u32): (r: LoopCheck)
    ensures r.elapsed <==> MsElapsed(s, start) >= duration
    ensures r.elapsed ==> r.start == MsNow(s)
    ensures !r.elapsed ==> r.start == start
  {
    if Sub(s.now, start) >= duration then LoopCheck(true, s.now) else LoopCheck(false, start)
  }
}
