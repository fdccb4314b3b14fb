/**
 Properties of the timebase over many ticks: the clock and the elapsed-time
 helpers across wrap-around, the cadence of periodic tasks, the single firing
 of future tasks, pid uniqueness and slot reuse.
 */
module TimebaseProofs {
  import opened UInt32
  import opened Slots
  import opened Timebase

  /** The state after `n` ticks with no other operation in between. */
  function Ticks(s: Scheduler, n: nat): (r: Scheduler)
    ensures |r.periodic| == |s.periodic| && |r.future| == |s.future|
    ensures r.nextPid == s.nextPid
    decreases n
  {
    if n == 0 then s else Tick(Ticks(s, n - 1)).sched
  }

  /** A periodic slot after `n` of its own steps. */
  function PeriodicAfter(t: PeriodicTask, n: nat): PeriodicTask
    decreases n
  {
    if n == 0 then t else PeriodicStep(PeriodicAfter(t, n - 1)).slot
  }

  /** A future slot after `n` of its own steps. */
  function FutureAfter(t: FutureTask, n: nat): FutureTask
    decreases n
  {
    if n == 0 then t else FutureStep(FutureAfter(t, n - 1)).slot
  }

  /** Quotient and remainder are the only pair that rebuilds `y`. */
  lemma ModUnique(y: int, m: int, q: int, r: int)
    requires m > 0 && 0 <= r < m && y == q * m + r
    ensures y % m == r
  {
    var q', r' := y / m, y % m;
    assert y == q' * m + r';
    assert (q - q') * m == r' - r;
    if q - q' >= 1 {
      assert false;
    } else if q - q' <= -1 {
      assert false;
    }
  }

  /** Counting `x + 1` modulo `m` either steps by one or wraps to 0. */
  lemma ModSucc(x: nat, m: nat)
    requires m > 0
    ensures x % m == m - 1 ==> (x + 1) % m == 0
    ensures x % m < m - 1 ==> (x + 1) % m == x % m + 1
  {
    var q, r := x / m, x % m;
    assert x == q * m + r;
    if r == m - 1 {
      ModUnique(x + 1, m, q + 1, 0);
    } else {
      ModUnique(x + 1, m, q, r + 1);
    }
  }

  /** One more millisecond on top of `k` elapsed ones is `k + 1` elapsed, modulo 2^32. */
  lemma ElapsedStep(start: u32, before: u32, after: u32, k: nat)
    requires Sub(before, start) == k % MOD && Sub(after, before) == 1
    ensures Sub(after, start) == (k + 1) % MOD
  {
  }

  // ---- the clock -------------------------------------------------------

  /**
   After `n` ticks the clock has moved `n` milliseconds forward modulo 2^32,
   and the tables keep their capacity.
   */
  lemma {:induction false} TicksAdvanceClock(s: Scheduler, n: nat)
    ensures Sub(MsNow(Ticks(s, n)), MsNow(s)) == n % MOD
    ensures |Ticks(s, n).periodic| == |s.periodic| && |Ticks(s, n).future| == |s.future|
    ensures Ticks(s, n).nextPid == s.nextPid
    decreases n
  {
    if n > 0 {
      TicksAdvanceClock(s, n - 1);
      ElapsedStep(s.now, Ticks(s, n - 1).now, Ticks(s, n).now, n - 1);
    }
  }

  /**
   A timestamp taken before `n < 2^32` ticks is exactly `n` ms old afterwards,
   whether or not the clock wrapped in between.
   */
  lemma {:induction false} ElapsedAcrossTicks(s: Scheduler, n: nat)
    requires n < MOD
    ensures MsElapsed(Ticks(s, n), MsNow(s)) == n
  {
    TicksAdvanceClock(s, n);
  }

  /**
   A loop guard that has just fired (its start is the current time) fires
   again after exactly `duration` ticks, and not before.
   */
  lemma LoopElapsedPeriod(s: Scheduler, duration: u32, n: nat)
    requires n < MOD
    ensures MsLoopElapsed(Ticks(s, n), MsNow(s), duration).elapsed <==> n >= duration
  {
    ElapsedAcrossTicks(s, n);
  }

  /**
   `ms_now` reads the counter the SysTick tick advances: one tick moves it one
   millisecond forward, to 0 after MAX.
   */
  lemma TickMovesClock(s: Scheduler)
    ensures MsNow(Tick(s).sched) == Inc(MsNow(s))
  {
  }

  /** Registering a periodic or a future task does not move the clock. */
  lemma RegistrationsKeepClock(s: Scheduler, callback: Addr, arg: Addr, x: u32, enqueue: bool)
    ensures MsNow(AddPeriodicTask(s, callback, arg, x, enqueue).sched) == MsNow(s)
    ensures MsNow(ScheduleTask(s, callback, arg, x, enqueue).sched) == MsNow(s)
  {
  }

  /** No pid-keyed call moves the clock, whether or not the pid is known. */
  lemma KeyedOpsKeepClock(s: Scheduler, pid: u32, enable: bool, x: u32)
    ensures MsNow(EnablePeriodicTask(s, pid, enable).sched) == MsNow(s)
    ensures MsNow(ResetPeriodicTask(s, pid).sched) == MsNow(s)
    ensures MsNow(SetPeriodicTaskInterval(s, pid, x).sched) == MsNow(s)
    ensures MsNow(SetPeriodicTaskIntervalFixed(s, pid, x).sched) == MsNow(s)
    ensures MsNow(RemovePeriodicTask(s, pid).sched) == MsNow(s)
    ensures MsNow(AbortScheduledTask(s, pid).sched) == MsNow(s)
  {
  }

  // ---- periodic tasks --------------------------------------------------

  /** Ticks act on every periodic slot independently. */
  lemma {:induction false} TicksPeriodicSlot(s: Scheduler, n: nat, i: nat)
    requires i < |s.periodic|
    ensures |Ticks(s, n).periodic| == |s.periodic|
    ensures Ticks(s, n).periodic[i] == PeriodicAfter(s.periodic[i], n)
    decreases n
  {
    if n > 0 {
      TicksPeriodicSlot(s, n - 1, i);
    }
  }

  /** The call slot `i` makes on the tick after `n` ticks is the call of its own next step. */
  lemma {:induction false} PeriodicCallAfter(s: Scheduler, n: nat, i: nat)
    requires i < |s.periodic|
    ensures |Ticks(s, n).periodic| == |s.periodic|
    ensures Ticks(s, n).periodic[i] == PeriodicAfter(s.periodic[i], n)
    ensures Tick(Ticks(s, n)).periodicCalls[i] == PeriodicStep(PeriodicAfter(s.periodic[i], n)).event
  {
    TicksPeriodicSlot(s, n, i);
    var u := Ticks(s, n);
    assert Stepped(Tick(u).sched.periodic[i], Tick(u).periodicCalls[i]) == PeriodicStep(u.periodic[i]);
  }

  /**
   A live task with counter 0 and threshold `th` has counter `n mod (th + 1)`
   after `n` ticks, and is due (runs, if enabled and immediate) on the ticks
   whose number is a multiple of `th + 1`.
   */
  lemma {:induction false} PeriodicCadence(t: PeriodicTask, n: nat)
    requires t.pid != PID_NONE && t.countup == 0
    ensures PeriodicAfter(t, n) == t.(countup := n % (t.interval + 1))
    ensures PeriodicStep(PeriodicAfter(t, n)).event ==
      (if (n + 1) % (t.interval + 1) == 0 then RunPeriodicTask(t) else None)
    decreases n
  {
    var m := t.interval + 1;
    if n > 0 {
      PeriodicCadence(t, n - 1);
      ModSucc(n - 1, m);
    }
    ModSucc(n, m);
  }

  /** A live slot with counter 0 calls back on every (threshold + 1)-th tick of the whole scheduler. */
  lemma CadenceOfSlot(s: Scheduler, n: nat, i: nat)
    requires i < |s.periodic| && s.periodic[i].pid != PID_NONE && s.periodic[i].countup == 0
    ensures Tick(Ticks(s, n)).periodicCalls[i] ==
      (if (n + 1) % (s.periodic[i].interval + 1) == 0 then RunPeriodicTask(s.periodic[i]) else None)
  {
    PeriodicCallAfter(s, n, i);
    PeriodicCadence(s.periodic[i], n);
  }

  /**
   The number of ticks a live task with counter `countup` and threshold
   `threshold` waits before the step on which it is due: none when the counter
   has already reached the threshold, else the distance to it.
   */
  function FirstDue(countup: u32, threshold: u32): (d: nat)
    ensures d == 0 <==> countup >= threshold
    ensures d > 0 ==> countup + d == threshold
  {
    if countup >= threshold then 0 else threshold - countup
  }

  /** Until it is first due, a live task counts up by one per tick. */
  lemma {:induction false} PeriodicCountsUp(t: PeriodicTask, n: nat)
    requires t.pid != PID_NONE && n <= FirstDue(t.countup, t.interval)
    ensures PeriodicAfter(t, n) == t.(countup := t.countup + n)
    decreases n
  {
    if n > 0 {
      PeriodicCountsUp(t, n - 1);
    }
  }

  /** Running `a` steps and then `b` steps is running `a + b` steps. */
  lemma {:induction false} PeriodicAfterSplit(t: PeriodicTask, a: nat, b: nat)
    ensures PeriodicAfter(PeriodicAfter(t, a), b) == PeriodicAfter(t, a + b)
    decreases b
  {
    if b > 0 {
      PeriodicAfterSplit(t, a, b - 1);
    }
  }

  /** Before it is first due, a live task is silent. */
  lemma SilentBeforeFirstDue(t: PeriodicTask, n: nat)
    requires t.pid != PID_NONE && n < FirstDue(t.countup, t.interval)
    ensures PeriodicStep(PeriodicAfter(t, n)).event == None
  {
    PeriodicCountsUp(t, n);
    assert !Due(PeriodicAfter(t, n));
  }

  /** On the step it is first due a live task runs, and its counter restarts at 0. */
  lemma RunsWhenFirstDue(t: PeriodicTask)
    requires t.pid != PID_NONE
    ensures var d := FirstDue(t.countup, t.interval);
      && PeriodicStep(PeriodicAfter(t, d)).event == RunPeriodicTask(t)
      && PeriodicAfter(t, d + 1) == t.(countup := 0)
  {
    var d := FirstDue(t.countup, t.interval);
    PeriodicCountsUp(t, d);
    var u := PeriodicAfter(t, d);
    assert Due(u);
    assert RunPeriodicTask(u) == RunPeriodicTask(t);
  }

  /**
   A live task with any counter is due on step `d` = FirstDue (tick d + 1),
   and from then on on every (threshold + 1)-th step, never in between.
   */
  lemma PeriodicCadenceFrom(t: PeriodicTask, n: nat)
    requires t.pid != PID_NONE
    ensures var d := FirstDue(t.countup, t.interval);
      PeriodicStep(PeriodicAfter(t, n)).event ==
        (if n >= d && (n - d) % (t.interval + 1) == 0 then RunPeriodicTask(t) else None)
  {
    var d := FirstDue(t.countup, t.interval);
    if n < d {
      SilentBeforeFirstDue(t, n);
    } else if n == d {
      RunsWhenFirstDue(t);
      assert (n - d) % (t.interval + 1) == 0;
    } else {
      CadenceAfterFirstDue(t, n);
    }
  }

  /** After the step it is first due, a live task follows the cadence of a counter restarted at 0. */
  lemma CadenceAfterFirstDue(t: PeriodicTask, n: nat)
    requires t.pid != PID_NONE && n > FirstDue(t.countup, t.interval)
    ensures var d := FirstDue(t.countup, t.interval);
      PeriodicStep(PeriodicAfter(t, n)).event ==
        (if (n - d) % (t.interval + 1) == 0 then RunPeriodicTask(t) else None)
  {
    var d := FirstDue(t.countup, t.interval);
    var m := n - d - 1;
    var t0 := t.(countup := 0);
    RunsWhenFirstDue(t);
    PeriodicAfterSplit(t, d + 1, m);
    assert d + 1 + m == n && m + 1 == n - d;
    assert PeriodicAfter(t, n) == PeriodicAfter(t0, m);
    PeriodicCadence(t0, m);
    assert RunPeriodicTask(t0) == RunPeriodicTask(t);
  }

  /** The same for a live slot of the whole scheduler. */
  lemma CadenceOfSlotFrom(s: Scheduler, n: nat, i: nat)
    requires i < |s.periodic| && s.periodic[i].pid != PID_NONE
    ensures var t := s.periodic[i];
      var d := FirstDue(t.countup, t.interval);
      Tick(Ticks(s, n)).periodicCalls[i] ==
        (if n >= d && (n - d) % (t.interval + 1) == 0 then RunPeriodicTask(t) else None)
  {
    PeriodicCallAfter(s, n, i);
    PeriodicCadenceFrom(s.periodic[i], n);
  }

  /** The period, in ticks, of a task added with `interval`: `interval - 1` wraps for 0. */
  function AddedPeriod(interval: u32): (p: nat)
    ensures p == Sub(interval, 1) + 1
  {
    if interval == 0 then MOD else interval
  }

  /**
   A task just added with interval K runs on tick K, 2K, 3K, ... after its
   registration (on every 2^32-th tick for K = 0), as long as nothing else
   touches it; a queued task never runs.
   */
  lemma AddedTaskFiresEveryInterval(s: Scheduler, callback: Addr, arg: Addr, interval: u32,
                                    enqueue: bool, i: nat, n: nat)
    requires Valid(s) && IsFirst(s.periodic, PeriodicPid, PID_NONE, i)
    ensures var r := AddPeriodicTask(s, callback, arg, interval, enqueue);
      Tick(Ticks(r.sched, n)).periodicCalls[i] ==
        (if (n + 1) % AddedPeriod(interval) == 0 && !enqueue then Some(Call(callback, arg)) else None)
  {
    var r := AddPeriodicTask(s, callback, arg, interval, enqueue);
    var t := r.sched.periodic[i];
    assert t.interval == Sub(interval, 1) && t.pid != PID_NONE && t.countup == 0;
    CadenceOfSlot(r.sched, n, i);
    assert RunPeriodicTask(t) == if enqueue then None else Some(Call(callback, arg));
  }

  /**
   After `set_periodic_task_interval(pid, V)` on a task whose counter is c,
   the task is due on the next tick if c >= V and on tick V - c + 1 otherwise,
   and then on every (V + 1)-th tick.
   */
  lemma SetIntervalPeriod(s: Scheduler, pid: u32, v: u32, i: nat, n: nat)
    requires PeriodicTarget(s, pid, i)
    ensures var r := SetPeriodicTaskInterval(s, pid, v);
      var d := FirstDue(s.periodic[i].countup, v);
      Tick(Ticks(r.sched, n)).periodicCalls[i] ==
        (if n >= d && (n - d) % (v + 1) == 0 then RunPeriodicTask(s.periodic[i]) else None)
  {
    var r := SetPeriodicTaskInterval(s, pid, v);
    assert r.sched.periodic[i] == s.periodic[i].(interval := v);
    CadenceWithThreshold(r.sched, n, i, s.periodic[i], v);
  }

  /** The cadence of a live slot holding task `t` with its threshold replaced by `th`. */
  lemma CadenceWithThreshold(s: Scheduler, n: nat, i: nat, t: PeriodicTask, th: u32)
    requires i < |s.periodic| && t.pid != PID_NONE && s.periodic[i] == t.(interval := th)
    ensures var d := FirstDue(t.countup, th);
      Tick(Ticks(s, n)).periodicCalls[i] ==
        (if n >= d && (n - d) % (th + 1) == 0 then RunPeriodicTask(t) else None)
  {
    CadenceOfSlotFrom(s, n, i);
    assert RunPeriodicTask(s.periodic[i]) == RunPeriodicTask(t);
  }

  /**
   The discrepancy: an enabled immediate task added with interval V >= 1 runs
   on tick V, but the same task given interval V by `set_periodic_task_interval`
   (counter 0) does not run on tick V; it runs on tick V + 1.
   */
  lemma SetIntervalOneTickLate(s: Scheduler, callback: Addr, arg: Addr, v: u32, i: nat)
    requires Valid(s) && PidFresh(s) && IsFirst(s.periodic, PeriodicPid, PID_NONE, i) && v >= 1
    ensures var added := AddPeriodicTask(s, callback, arg, v, false);
      var changed := SetPeriodicTaskInterval(added.sched, added.pid, v);
      && Tick(Ticks(added.sched, v - 1)).periodicCalls[i] == Some(Call(callback, arg))
      && Tick(Ticks(changed.sched, v - 1)).periodicCalls[i] == None
      && Tick(Ticks(changed.sched, v)).periodicCalls[i] == Some(Call(callback, arg))
  {
    var added := AddPeriodicTask(s, callback, arg, v, false);
    assert Tick(Ticks(added.sched, v - 1)).periodicCalls[i] == Some(Call(callback, arg)) by {
      AddedTaskFiresEveryInterval(s, callback, arg, v, false, i, v - 1);
      ModUnique(v, v, 1, 0);
      assert AddedPeriod(v) == v;
    }
    var t := added.sched.periodic[i];
    assert PeriodicTarget(added.sched, added.pid, i) && t.countup == 0;
    assert RunPeriodicTask(t) == Some(Call(callback, arg));
    SetIntervalFromZero(added.sched, added.pid, v, i);
  }

  /** Interval V >= 1 set on a task with counter 0: silent on tick V, due on tick V + 1. */
  lemma SetIntervalFromZero(s: Scheduler, pid: u32, v: u32, i: nat)
    requires PeriodicTarget(s, pid, i) && s.periodic[i].countup == 0 && v >= 1
    ensures var r := SetPeriodicTaskInterval(s, pid, v);
      && Tick(Ticks(r.sched, v - 1)).periodicCalls[i] == None
      && Tick(Ticks(r.sched, v)).periodicCalls[i] == RunPeriodicTask(s.periodic[i])
  {
    assert FirstDue(s.periodic[i].countup, v) == v;
    var r := SetPeriodicTaskInterval(s, pid, v);
    assert Tick(Ticks(r.sched, v - 1)).periodicCalls[i] == None by {
      SetIntervalPeriod(s, pid, v, i, v - 1);
    }
    assert Tick(Ticks(r.sched, v)).periodicCalls[i] == RunPeriodicTask(s.periodic[i]) by {
      SetIntervalPeriod(s, pid, v, i, v);
    }
  }

  /**
   The corrected interval setter stores V - 1 as `add_periodic_task` does: a
   task with counter c is first due after FirstDue(c, V - 1) ticks and then
   every AddedPeriod(V) ticks, and a task with counter 0 gets exactly the
   cadence of a task just added with interval V.
   */
  lemma FixedSetIntervalMatchesAdd(s: Scheduler, pid: u32, v: u32, i: nat, n: nat)
    requires PeriodicTarget(s, pid, i)
    ensures var r := SetPeriodicTaskIntervalFixed(s, pid, v);
      var d := FirstDue(s.periodic[i].countup, Sub(v, 1));
      Tick(Ticks(r.sched, n)).periodicCalls[i] ==
        (if n >= d && (n - d) % AddedPeriod(v) == 0 then RunPeriodicTask(s.periodic[i]) else None)
    ensures var r := SetPeriodicTaskIntervalFixed(s, pid, v);
      s.periodic[i].countup == 0 ==>
        Tick(Ticks(r.sched, n)).periodicCalls[i] ==
          (if (n + 1) % AddedPeriod(v) == 0 then RunPeriodicTask(s.periodic[i]) else None)
  {
    var r := SetPeriodicTaskIntervalFixed(s, pid, v);
    var t := r.sched.periodic[i];
    assert t == s.periodic[i].(interval := Sub(v, 1));
    assert RunPeriodicTask(t) == RunPeriodicTask(s.periodic[i]);
    SlotCadenceWithPeriod(r.sched, n, i, AddedPeriod(v));
  }

  /** Both cadence lemmas for a live slot, with its period `p` = threshold + 1 named. */
  lemma SlotCadenceWithPeriod(s: Scheduler, n: nat, i: nat, p: nat)
    requires i < |s.periodic| && s.periodic[i].pid != PID_NONE && p == s.periodic[i].interval + 1
    ensures var t := s.periodic[i];
      var d := FirstDue(t.countup, t.interval);
      Tick(Ticks(s, n)).periodicCalls[i] ==
        (if n >= d && (n - d) % p == 0 then RunPeriodicTask(t) else None)
    ensures s.periodic[i].countup == 0 ==>
      Tick(Ticks(s, n)).periodicCalls[i] ==
        (if (n + 1) % p == 0 then RunPeriodicTask(s.periodic[i]) else None)
  {
    if s.periodic[i].countup == 0 {
      CadenceOfSlot(s, n, i);
    }
    CadenceOfSlotFrom(s, n, i);
  }

  /** Ticks change nothing in a periodic slot but its counter. */
  lemma {:induction false} PeriodicAfterKeeps(t: PeriodicTask, n: nat)
    ensures PeriodicAfter(t, n) == t.(countup := PeriodicAfter(t, n).countup)
    decreases n
  {
    if n > 0 {
      PeriodicAfterKeeps(t, n - 1);
    }
  }

  /** A free periodic slot stays free and silent under ticks. */
  lemma {:induction false} FreePeriodicStaysFree(t: PeriodicTask, n: nat)
    requires t.pid == PID_NONE
    ensures PeriodicAfter(t, n) == t
    ensures PeriodicStep(PeriodicAfter(t, n)).event == None
    decreases n
  {
    if n > 0 {
      FreePeriodicStaysFree(t, n - 1);
    }
  }

  /**
   `is_periodic_task_enabled` reads back what `enable_periodic_task` wrote;
   when the write fails (`PID_NONE` or an unknown pid) the query says false.
   */
  lemma EnableThenQuery(s: Scheduler, pid: u32, enable: bool)
    ensures var r := EnablePeriodicTask(s, pid, enable);
      IsPeriodicTaskEnabled(r.sched, pid) == (r.ok && enable)
  {
    var r := EnablePeriodicTask(s, pid, enable);
    if r.ok {
      var i := Find(s.periodic, PeriodicPid, pid).value;
      assert PeriodicTarget(r.sched, pid, i);
    }
  }

  /** A disabled task keeps its slot and counter but never calls back, however many ticks pass. */
  lemma {:induction false} DisabledTaskStaysSilent(s: Scheduler, pid: u32, i: nat, n: nat)
    requires PeriodicTarget(s, pid, i)
    ensures var r := EnablePeriodicTask(s, pid, false);
      && Ticks(r.sched, n).periodic[i].pid == pid
      && Tick(Ticks(r.sched, n)).periodicCalls[i] == None
  {
    var r := EnablePeriodicTask(s, pid, false);
    PeriodicCallAfter(r.sched, n, i);
    PeriodicAfterKeeps(r.sched.periodic[i], n);
  }

  /**
   After `reset_periodic_task` the task starts a fresh period whatever its
   counter was: it is due on every (threshold + 1)-th tick from then on.
   */
  lemma {:induction false} ResetRestartsCadence(s: Scheduler, pid: u32, i: nat, n: nat)
    requires PeriodicTarget(s, pid, i)
    ensures var r := ResetPeriodicTask(s, pid);
      Tick(Ticks(r.sched, n)).periodicCalls[i] ==
        (if (n + 1) % (s.periodic[i].interval + 1) == 0 then RunPeriodicTask(s.periodic[i]) else None)
  {
    var r := ResetPeriodicTask(s, pid);
    var t := r.sched.periodic[i];
    assert t == s.periodic[i].(countup := 0);
    CadenceOfSlot(r.sched, n, i);
    assert RunPeriodicTask(t) == RunPeriodicTask(s.periodic[i]);
  }

  /** A removed task never runs again: its slot stays free under ticks. */
  lemma {:induction false} RemovedTaskNeverRuns(s: Scheduler, pid: u32, i: nat, n: nat)
    requires PeriodicTarget(s, pid, i)
    ensures var r := RemovePeriodicTask(s, pid);
      && Ticks(r.sched, n).periodic[i].pid == PID_NONE
      && Tick(Ticks(r.sched, n)).periodicCalls[i] == None
  {
    var r := RemovePeriodicTask(s, pid);
    PeriodicCallAfter(r.sched, n, i);
    FreePeriodicStaysFree(r.sched.periodic[i], n);
  }

  // ---- future tasks ----------------------------------------------------

  /** Ticks act on every future slot independently. */
  lemma {:induction false} TicksFutureSlot(s: Scheduler, n: nat, i: nat)
    requires i < |s.future|
    ensures |Ticks(s, n).future| == |s.future|
    ensures Ticks(s, n).future[i] == FutureAfter(s.future[i], n)
    decreases n
  {
    if n > 0 {
      TicksFutureSlot(s, n - 1, i);
    }
  }

  /** The call future slot `i` makes on the tick after `n` ticks is the call of its own next step. */
  lemma {:induction false} FutureCallAfter(s: Scheduler, n: nat, i: nat)
    requires i < |s.future|
    ensures |Ticks(s, n).future| == |s.future|
    ensures Ticks(s, n).future[i] == FutureAfter(s.future[i], n)
    ensures Tick(Ticks(s, n)).futureCalls[i] == FutureStep(FutureAfter(s.future[i], n)).event
  {
    TicksFutureSlot(s, n, i);
    var u := Ticks(s, n);
    assert Stepped(Tick(u).sched.future[i], Tick(u).futureCalls[i]) == FutureStep(u.future[i]);
  }

  /** A live future task counts down by one per tick while it is waiting. */
  lemma {:induction false} FutureCountdown(t: FutureTask, n: nat)
    requires t.pid != PID_NONE && n <= t.countdown
    ensures FutureAfter(t, n) == t.(countdown := t.countdown - n)
    decreases n
  {
    if n > 0 {
      FutureCountdown(t, n - 1);
    }
  }

  /** A free future slot stays free and silent under ticks. */
  lemma {:induction false} FreeFutureStaysFree(t: FutureTask, n: nat)
    requires t.pid == PID_NONE
    ensures FutureAfter(t, n) == t
    ensures FutureStep(FutureAfter(t, n)).event == None
    decreases n
  {
    if n > 0 {
      FreeFutureStaysFree(t, n - 1);
    }
  }

  /**
   A task scheduled with delay D stays pending for D ticks, runs on tick
   D + 1 (if immediate), its slot is free from then on, and it never runs
   again: the callback is emitted exactly once.
   */
  lemma {:induction false} ScheduledTaskFiresOnce(s: Scheduler, callback: Addr, arg: Addr, delay: u32,
                               enqueue: bool, i: nat, n: nat)
    requires Valid(s) && IsFirst(s.future, FuturePid, PID_NONE, i)
    ensures var r := ScheduleTask(s, callback, arg, delay, enqueue);
      && (n <= delay ==> Ticks(r.sched, n).future[i] == FutureTask(callback, arg, delay - n, r.pid, enqueue))
      && Tick(Ticks(r.sched, n)).futureCalls[i] ==
           (if n == delay && !enqueue then Some(Call(callback, arg)) else None)
      && (n > delay ==> Ticks(r.sched, n).future[i].pid == PID_NONE)
  {
    var r := ScheduleTask(s, callback, arg, delay, enqueue);
    var t := r.sched.future[i];
    assert t == FutureTask(callback, arg, delay, r.pid, enqueue);
    FutureCallAfter(r.sched, n, i);
    FutureFiresOnce(t, n);
  }

  /**
   A live future task with countdown D stays pending with countdown D - n for
   n <= D ticks, calls back (if immediate) on the step after the D-th tick
   only, and is free from then on.
   */
  lemma {:induction false} FutureFiresOnce(t: FutureTask, n: nat)
    requires t.pid != PID_NONE
    ensures n <= t.countdown ==> FutureAfter(t, n) == t.(countdown := t.countdown - n)
    ensures FutureStep(FutureAfter(t, n)).event == (if n == t.countdown then RunFutureTask(t) else None)
    ensures n > t.countdown ==> FutureAfter(t, n).pid == PID_NONE
  {
    if n <= t.countdown {
      FutureCountdown(t, n);
    } else {
      FutureCountdown(t, t.countdown);
      var freed := FutureAfter(t, t.countdown + 1);
      assert freed.pid == PID_NONE;
      FreeFutureStaysFree(freed, n - t.countdown - 1);
      FutureAfterSplit(t, t.countdown + 1, n - t.countdown - 1);
    }
  }

  /** An aborted task never runs: its slot stays free under ticks. */
  lemma {:induction false} AbortedTaskNeverRuns(s: Scheduler, pid: u32, i: nat, n: nat)
    requires pid != PID_NONE && IsFirst(s.future, FuturePid, pid, i)
    ensures var r := AbortScheduledTask(s, pid);
      && r.ok
      && Ticks(r.sched, n).future[i].pid == PID_NONE
      && Tick(Ticks(r.sched, n)).futureCalls[i] == None
  {
    var r := AbortScheduledTask(s, pid);
    FutureCallAfter(r.sched, n, i);
    FreeFutureStaysFree(r.sched.future[i], n);
  }

  /** Running `a` steps and then `b` steps is running `a + b` steps. */
  lemma {:induction false} FutureAfterSplit(t: FutureTask, a: nat, b: nat)
    ensures FutureAfter(FutureAfter(t, a), b) == FutureAfter(t, a + b)
    decreases b
  {
    if b > 0 {
      FutureAfterSplit(t, a, b - 1);
    }
  }

  // ---- pid uniqueness and slot reuse -----------------------------------

  /** No two live entries, in either table or across the tables, share a pid. */
  predicate LivePidsDistinct(s: Scheduler)
  {
    && (forall i, j :: 0 <= i < j < |s.periodic| && s.periodic[i].pid != PID_NONE ==>
          s.periodic[i].pid != s.periodic[j].pid)
    && (forall i, j :: 0 <= i < j < |s.future| && s.future[i].pid != PID_NONE ==>
          s.future[i].pid != s.future[j].pid)
    && (forall i, j :: 0 <= i < |s.periodic| && 0 <= j < |s.future| && s.periodic[i].pid != PID_NONE ==>
          s.periodic[i].pid != s.future[j].pid)
  }

  /** The pid counter does not point at a pid some live entry still holds. */
  predicate PidFresh(s: Scheduler)
  {
    && Absent(s.periodic, PeriodicPid, s.nextPid)
    && Absent(s.future, FuturePid, s.nextPid)
  }

  /** Adding a periodic task under a fresh pid keeps live pids distinct. */
  lemma AddKeepsPidsDistinct(s: Scheduler, callback: Addr, arg: Addr, interval: u32, enqueue: bool)
    requires Valid(s) && LivePidsDistinct(s) && PidFresh(s)
    ensures LivePidsDistinct(AddPeriodicTask(s, callback, arg, interval, enqueue).sched)
  {
    var r := AddPeriodicTask(s, callback, arg, interval, enqueue);
    match Find(s.periodic, PeriodicPid, PID_NONE)
    case None =>
    case Some(k) =>
      assert forall j :: 0 <= j < |s.periodic| ==> s.periodic[j].pid != r.pid;
      assert forall j :: 0 <= j < |s.future| ==> s.future[j].pid != r.pid;
  }

  /** Scheduling a future task under a fresh pid keeps live pids distinct. */
  lemma ScheduleKeepsPidsDistinct(s: Scheduler, callback: Addr, arg: Addr, delay: u32, enqueue: bool)
    requires Valid(s) && LivePidsDistinct(s) && PidFresh(s)
    ensures LivePidsDistinct(ScheduleTask(s, callback, arg, delay, enqueue).sched)
  {
    var r := ScheduleTask(s, callback, arg, delay, enqueue);
    match Find(s.future, FuturePid, PID_NONE)
    case None =>
    case Some(k) =>
      assert forall j :: 0 <= j < |s.periodic| ==> s.periodic[j].pid != r.pid;
      assert forall j :: 0 <= j < |s.future| ==> s.future[j].pid != r.pid;
  }

  /** A tick only ever frees slots, so it keeps live pids distinct. */
  lemma TickKeepsPidsDistinct(s: Scheduler)
    requires LivePidsDistinct(s)
    ensures LivePidsDistinct(Tick(s).sched)
  {
    var r := Tick(s).sched;
    assert forall i :: 0 <= i < |s.periodic| ==> r.periodic[i].pid == s.periodic[i].pid;
    assert forall i :: 0 <= i < |s.future| ==> r.future[i].pid == PID_NONE || r.future[i].pid == s.future[i].pid;
  }

  /**
   Register, remove, register again with the same parameters: the second
   registration takes the same slot and leaves the table exactly as the first
   one did, except for a new pid. No stale field leaks through.
   */
  lemma ReAddReusesSlot(s: Scheduler, callback: Addr, arg: Addr, interval: u32, enqueue: bool, i: nat)
    requires Valid(s) && PidFresh(s) && IsFirst(s.periodic, PeriodicPid, PID_NONE, i)
    ensures var first := AddPeriodicTask(s, callback, arg, interval, enqueue);
      var removed := RemovePeriodicTask(first.sched, first.pid);
      var second := AddPeriodicTask(removed.sched, callback, arg, interval, enqueue);
      && removed.ok
      && second.pid != first.pid && second.pid != PID_NONE
      && second.sched.periodic == first.sched.periodic[i := first.sched.periodic[i].(pid := second.pid)]
      && second.sched.future == s.future
  {
    var first := AddPeriodicTask(s, callback, arg, interval, enqueue);
    AddedSlot(s, callback, arg, interval, enqueue, i);
    assert PeriodicTarget(first.sched, first.pid, i);
    var removed := RemovePeriodicTask(first.sched, first.pid);
    assert removed.ok && removed.sched.nextPid == NthId(s.nextPid, 1);
    assert removed.sched.periodic == first.sched.periodic[i := first.sched.periodic[i].(pid := PID_NONE)];
    assert IsFirst(removed.sched.periodic, PeriodicPid, PID_NONE, i);
    var second := AddPeriodicTask(removed.sched, callback, arg, interval, enqueue);
    AddedSlot(removed.sched, callback, arg, interval, enqueue, i);
    assert second.pid != first.pid && second.pid != PID_NONE by {
      IdsDistinctWithinCycle(s.nextPid, 0, 1);
    }
  }

  /** The slot `add_periodic_task` fills, as one record. */
  lemma AddedSlot(s: Scheduler, callback: Addr, arg: Addr, interval: u32, enqueue: bool, i: nat)
    requires IsFirst(s.periodic, PeriodicPid, PID_NONE, i)
    ensures var r := AddPeriodicTask(s, callback, arg, interval, enqueue);
      && r.sched.periodic == s.periodic[i := PeriodicTask(callback, arg, Sub(interval, 1), 0, r.pid, true, enqueue)]
      && r.pid == s.nextPid && r.sched.future == s.future
  {
    var r := AddPeriodicTask(s, callback, arg, interval, enqueue);
    assert r.sched.periodic[i].interval == Sub(interval, 1);
  }

  /**
   While live pids are distinct, a removal is final: the pid is gone from the
   periodic table, so it reads as disabled and every pid-keyed call on it fails.
   */
  lemma RemoveIsFinal(s: Scheduler, pid: u32)
    requires LivePidsDistinct(s)
    ensures var r := RemovePeriodicTask(s, pid);
      && !PeriodicKnown(r.sched, pid)
      && !IsPeriodicTaskEnabled(r.sched, pid)
      && !RemovePeriodicTask(r.sched, pid).ok
      && !EnablePeriodicTask(r.sched, pid, true).ok
  {
    var r := RemovePeriodicTask(s, pid);
    if r.ok {
      var i := Find(s.periodic, PeriodicPid, pid).value;
      forall j | 0 <= j < |r.sched.periodic| ensures r.sched.periodic[j].pid != pid {
        if j > i {
          assert s.periodic[i].pid != s.periodic[j].pid;
        }
      }
    }
  }

  /** While live pids are distinct, an abort is final: a second abort of the pid fails. */
  lemma AbortIsFinal(s: Scheduler, pid: u32)
    requires LivePidsDistinct(s)
    ensures var r := AbortScheduledTask(s, pid);
      !AbortScheduledTask(r.sched, pid).ok
  {
    var r := AbortScheduledTask(s, pid);
    if r.ok {
      var i := Find(s.future, FuturePid, pid).value;
      forall j | 0 <= j < |r.sched.future| ensures r.sched.future[j].pid != pid {
        if j > i {
          assert s.future[i].pid != s.future[j].pid;
        }
      }
    }
  }

  // ---- the pid invariant of reachable states ---------------------------

  /**
   The pid counter is ahead of every pid in both tables (free slots hold 0).
   `make_pid` hands out increasing pids until the counter reaches MAX, so this
   holds from `timebase_init` on, through the first 2^32 - 2 registrations.
   */
  predicate PidsBelowCounter(s: Scheduler)
  {
    && s.nextPid != PID_NONE
    && (forall i :: 0 <= i < |s.periodic| ==> s.periodic[i].pid < s.nextPid)
    && (forall i :: 0 <= i < |s.future| ==> s.future[i].pid < s.nextPid)
  }

  /** The invariant of every state the program reaches before the pid counter wraps. */
  predicate PidInvariant(s: Scheduler)
  {
    PidsBelowCounter(s) && LivePidsDistinct(s)
  }

  /** A counter ahead of every pid is fresh: no slot holds the pid it hands out next. */
  lemma PidInvariantIsFresh(s: Scheduler)
    requires PidInvariant(s)
    ensures Valid(s) && PidFresh(s)
  {
    assert forall j :: 0 <= j < |s.periodic| ==> PeriodicPid(s.periodic[j]) < s.nextPid;
    assert forall j :: 0 <= j < |s.future| ==> FuturePid(s.future[j]) < s.nextPid;
  }

  /** `timebase_init` establishes the invariant, whatever the clock reads. */
  lemma InitEstablishesPidInvariant(periodicCount: nat, futureCount: nat, now: u32)
    ensures PidInvariant(Init(periodicCount, futureCount, now))
  {
  }

  /** `add_periodic_task` keeps the invariant while the counter has not reached MAX. */
  lemma AddKeepsPidInvariant(s: Scheduler, callback: Addr, arg: Addr, interval: u32, enqueue: bool)
    requires PidInvariant(s) && s.nextPid < MAX
    ensures PidInvariant(AddPeriodicTask(s, callback, arg, interval, enqueue).sched)
  {
    PidInvariantIsFresh(s);
    AddKeepsPidsDistinct(s, callback, arg, interval, enqueue);
    NextIdBelowMax(s.nextPid);
  }

  /** `schedule_task` keeps the invariant while the counter has not reached MAX. */
  lemma ScheduleKeepsPidInvariant(s: Scheduler, callback: Addr, arg: Addr, delay: u32, enqueue: bool)
    requires PidInvariant(s) && s.nextPid < MAX
    ensures PidInvariant(ScheduleTask(s, callback, arg, delay, enqueue).sched)
  {
    PidInvariantIsFresh(s);
    ScheduleKeepsPidsDistinct(s, callback, arg, delay, enqueue);
    NextIdBelowMax(s.nextPid);
  }

  /** `b` differs from `a` in pids only by slots freed; capacity and counter are kept. */
  predicate PidsKeptOrCleared(a: Scheduler, b: Scheduler)
  {
    && |b.periodic| == |a.periodic| && |b.future| == |a.future| && b.nextPid == a.nextPid
    && (forall i :: 0 <= i < |a.periodic| ==>
          b.periodic[i].pid == a.periodic[i].pid || b.periodic[i].pid == PID_NONE)
    && (forall i :: 0 <= i < |a.future| ==>
          b.future[i].pid == a.future[i].pid || b.future[i].pid == PID_NONE)
  }

  /** Freeing slots keeps the invariant. */
  lemma ClearingKeepsPidInvariant(a: Scheduler, b: Scheduler)
    requires PidInvariant(a) && PidsKeptOrCleared(a, b)
    ensures PidInvariant(b)
  {
    forall i, j | 0 <= i < j < |b.periodic| && b.periodic[i].pid != PID_NONE
      ensures b.periodic[i].pid != b.periodic[j].pid
    {
      assert a.periodic[i].pid != a.periodic[j].pid;
    }
    forall i, j | 0 <= i < j < |b.future| && b.future[i].pid != PID_NONE
      ensures b.future[i].pid != b.future[j].pid
    {
      assert a.future[i].pid != a.future[j].pid;
    }
    forall i, j | 0 <= i < |b.periodic| && 0 <= j < |b.future| && b.periodic[i].pid != PID_NONE
      ensures b.periodic[i].pid != b.future[j].pid
    {
      assert a.periodic[i].pid != a.future[j].pid;
    }
  }

  /** A tick keeps the invariant: it frees slots and never hands out a pid. */
  lemma TickKeepsPidInvariant(s: Scheduler)
    requires PidInvariant(s)
    ensures PidInvariant(Tick(s).sched)
  {
    assert PidsKeptOrCleared(s, Tick(s).sched);
    ClearingKeepsPidInvariant(s, Tick(s).sched);
  }

  /** Enabling, disabling or resetting a task changes a flag or a counter, never a pid. */
  lemma EnableResetKeepPidInvariant(s: Scheduler, pid: u32, enable: bool)
    requires PidInvariant(s)
    ensures PidInvariant(EnablePeriodicTask(s, pid, enable).sched)
    ensures PidInvariant(ResetPeriodicTask(s, pid).sched)
  {
    var e := EnablePeriodicTask(s, pid, enable).sched;
    assert PidsKeptOrCleared(s, e);
    ClearingKeepsPidInvariant(s, e);
    var z := ResetPeriodicTask(s, pid).sched;
    assert PidsKeptOrCleared(s, z);
    ClearingKeepsPidInvariant(s, z);
  }

  /** Both interval setters change a threshold, never a pid. */
  lemma SetIntervalKeepsPidInvariant(s: Scheduler, pid: u32, interval: u32)
    requires PidInvariant(s)
    ensures PidInvariant(SetPeriodicTaskInterval(s, pid, interval).sched)
    ensures PidInvariant(SetPeriodicTaskIntervalFixed(s, pid, interval).sched)
  {
    var v := SetPeriodicTaskInterval(s, pid, interval).sched;
    assert PidsKeptOrCleared(s, v);
    ClearingKeepsPidInvariant(s, v);
    var f := SetPeriodicTaskIntervalFixed(s, pid, interval).sched;
    assert PidsKeptOrCleared(s, f);
    ClearingKeepsPidInvariant(s, f);
  }

  /** Removing a periodic task or aborting a future one only frees a slot. */
  lemma RemovalsKeepPidInvariant(s: Scheduler, pid: u32)
    requires PidInvariant(s)
    ensures PidInvariant(RemovePeriodicTask(s, pid).sched)
    ensures PidInvariant(AbortScheduledTask(s, pid).sched)
  {
    var d := RemovePeriodicTask(s, pid).sched;
    assert PidsKeptOrCleared(s, d);
    ClearingKeepsPidInvariant(s, d);
    var a := AbortScheduledTask(s, pid).sched;
    assert PidsKeptOrCleared(s, a);
    ClearingKeepsPidInvariant(s, a);
  }
}
