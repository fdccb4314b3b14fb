/**
 Properties of the debouncer over runs of consecutive scans: when an edge is
 confirmed, that a short glitch is forgotten, how a stale counter delays the
 edge after back-to-back transitions, and that clearing the counters on commit
 restores the debounce window. Also slot reuse and the installed scan task.
 */
module DebounceProofs {
  import opened UInt32
  import opened Slots
  import Timebase
  import TimebaseProofs
  import opened Debounce

  /** A pin after a run of scans, and the edges reported along the way, in order. */
  datatype Run = Run(pin: Pin, edges: seq<Edge>)

  function Events(e: Option<Edge>): seq<Edge>
  {
    if e.Some? then [e.value] else []
  }

  /** The same raw level on `k` consecutive scans. */
  function Hold(raw: bool, k: nat): seq<bool>
  {
    seq(k, _ => raw)
  }

  /**
   One pin through consecutive scans reading the raw levels `raws`. Only its
   state and counters change, and it reports at most one edge per scan.
   */
  function PinRun(p: Pin, raws: seq<bool>, clearOnCommit: bool): (r: Run)
    ensures r.pin == p.(state := r.pin.state, counter0 := r.pin.counter0, counter1 := r.pin.counter1)
    ensures |r.edges| <= |raws|
    decreases |raws|
  {
    if |raws| == 0 then Run(p, [])
    else
      var first := PinUpdate(p, raws[0], clearOnCommit);
      var rest := PinRun(first.slot, raws[1..], clearOnCommit);
      Run(rest.pin, Events(first.event) + rest.edges)
  }

  /** Running `a` then `b` is running `a + b`. */
  lemma {:induction false} PinRunAppend(p: Pin, a: seq<bool>, b: seq<bool>, clearOnCommit: bool)
    ensures var ra := PinRun(p, a, clearOnCommit);
      var rb := PinRun(ra.pin, b, clearOnCommit);
      PinRun(p, a + b, clearOnCommit) == Run(rb.pin, ra.edges + rb.edges)
    decreases |a|
  {
    if |a| > 0 {
      var first := PinUpdate(p, a[0], clearOnCommit);
      assert (a + b)[0] == a[0];
      assert (a + b)[1..] == a[1..] + b;
      PinRunAppend(first.slot, a[1..], b, clearOnCommit);
      var ra' := PinRun(first.slot, a[1..], clearOnCommit);
      var rb := PinRun(ra'.pin, b, clearOnCommit);
      assert Events(first.event) + (ra'.edges + rb.edges) == (Events(first.event) + ra'.edges) + rb.edges;
    } else {
      assert a + b == b;
    }
  }

  /** `c + 1 + (k - 1)` and `c + k` agree modulo 2^32. */
  lemma AddShift(c: u32, k: u32)
    requires k >= 1
    ensures Add(Inc(c), k - 1) == Add(c, k)
  {
  }

  /**
   While the counter towards a disagreeing level has not yet reached the
   debounce time, each scan only counts: after `k` scans the counter has
   advanced by `k` modulo 2^32, the state is unchanged and nothing is reported.
   The commit comes `Sub(deboTime, counter) + 1` scans after the run starts.
   */
  lemma {:induction false} DisagreeingRun(p: Pin, raw: bool, k: nat, clearOnCommit: bool)
    requires p.id != DEBO_PIN_NONE && Level(p, raw) != p.state
    requires k <= Sub(p.deboTime, Counter(p, Level(p, raw)))
    ensures PinRun(p, Hold(raw, k), clearOnCommit) ==
      Run(WithCounter(p, Level(p, raw), Add(Counter(p, Level(p, raw)), k)), [])
    decreases k
  {
    var level := Level(p, raw);
    var c := Counter(p, level);
    if k > 0 {
      var first := PinUpdate(p, raw, clearOnCommit);
      assert first.slot == WithCounter(p, level, Inc(c));
      assert Hold(raw, k)[1..] == Hold(raw, k - 1);
      assert Sub(p.deboTime, Inc(c)) == Sub(p.deboTime, c) - 1;
      DisagreeingRun(first.slot, raw, k - 1, clearOnCommit);
      AddShift(c, k);
    }
  }

  /** The edge a pin committing to `level` reports: none when its callback is NULL. */
  function EdgeOf(p: Pin, level: bool): seq<Edge>
  {
    if p.callback != NULL then [Edge(p.callback, p.payload, level)] else []
  }

  /**
   As written: a disagreeing level held for `Sub(deboTime, counter) + 1` scans
   is committed on the last of them, with exactly one report; the counter ends
   one past the debounce time and is not cleared.
   */
  lemma CommitRun(p: Pin, raw: bool)
    requires p.id != DEBO_PIN_NONE && Level(p, raw) != p.state
    ensures var level := Level(p, raw);
      var k := Sub(p.deboTime, Counter(p, level)) + 1;
      PinRun(p, Hold(raw, k), false) ==
        Run(WithCounter(p, level, Inc(p.deboTime)).(state := level), EdgeOf(p, level))
  {
    var level := Level(p, raw);
    var m := Sub(p.deboTime, Counter(p, level));
    var q := WithCounter(p, level, p.deboTime);
    CountUpToDeboTime(p, raw, false);
    RunThenScan(p, raw, m, false);
    assert Level(q, raw) == level;
    CommitScan(q, raw);
    assert [] + EdgeOf(q, level) == EdgeOf(p, level);
    assert WithCounter(q, level, Inc(q.deboTime)) == WithCounter(p, level, Inc(p.deboTime));
  }

  /** The disagreeing scans before the commit bring the counter exactly to the debounce time. */
  lemma CountUpToDeboTime(p: Pin, raw: bool, clearOnCommit: bool)
    requires p.id != DEBO_PIN_NONE && Level(p, raw) != p.state
    ensures var level := Level(p, raw);
      PinRun(p, Hold(raw, Sub(p.deboTime, Counter(p, level))), clearOnCommit) ==
        Run(WithCounter(p, level, p.deboTime), [])
  {
    var level := Level(p, raw);
    DisagreeingRun(p, raw, Sub(p.deboTime, Counter(p, level)), clearOnCommit);
  }

  /** `k + 1` scans of a held level are `k` scans followed by one more. */
  lemma RunThenScan(p: Pin, raw: bool, k: nat, clearOnCommit: bool)
    ensures var ra := PinRun(p, Hold(raw, k), clearOnCommit);
      var rb := PinRun(ra.pin, [raw], clearOnCommit);
      PinRun(p, Hold(raw, k + 1), clearOnCommit) == Run(rb.pin, ra.edges + rb.edges)
  {
    assert Hold(raw, k + 1) == Hold(raw, k) + [raw];
    PinRunAppend(p, Hold(raw, k), [raw], clearOnCommit);
  }

  /** As written: the scan on which the counter's old value equals the debounce time commits. */
  lemma CommitScan(q: Pin, raw: bool)
    requires q.id != DEBO_PIN_NONE && Level(q, raw) != q.state && Counter(q, Level(q, raw)) == q.deboTime
    ensures var level := Level(q, raw);
      PinRun(q, [raw], false) == Run(WithCounter(q, level, Inc(q.deboTime)).(state := level), EdgeOf(q, level))
  {
    assert PinRun(q, [raw], false).edges == Events(PinUpdate(q, raw, false).event) + [];
  }

  /**
   A pin settled at `state` (counter towards the other level at 0) confirms a
   change of level on exactly the (T + 1)-th consecutive disagreeing scan,
   T being its debounce time: before that the state is unchanged and nothing
   is reported, on that scan the state flips with exactly one report.
   */
  lemma EdgeOnScanTPlusOne(p: Pin, raw: bool, k: nat)
    requires p.id != DEBO_PIN_NONE && Level(p, raw) != p.state
    requires Counter(p, Level(p, raw)) == 0 && k <= p.deboTime + 1
    ensures var r := PinRun(p, Hold(raw, k), false);
      && r.pin.state == (if k == p.deboTime + 1 then Level(p, raw) else p.state)
      && r.edges == (if k == p.deboTime + 1 then EdgeOf(p, Level(p, raw)) else [])
  {
    if k == p.deboTime + 1 {
      CommitFromZero(p, raw);
    } else {
      SilentFromZero(p, raw, k);
    }
  }

  /** From a zero counter, scan T + 1 commits with one report. */
  lemma CommitFromZero(p: Pin, raw: bool)
    requires p.id != DEBO_PIN_NONE && Level(p, raw) != p.state && Counter(p, Level(p, raw)) == 0
    ensures var r := PinRun(p, Hold(raw, p.deboTime + 1), false);
      r.pin.state == Level(p, raw) && r.edges == EdgeOf(p, Level(p, raw))
  {
    assert Sub(p.deboTime, Counter(p, Level(p, raw))) == p.deboTime;
    CommitRun(p, raw);
  }

  /** From a zero counter, the first T scans keep the state and report nothing. */
  lemma SilentFromZero(p: Pin, raw: bool, k: nat)
    requires p.id != DEBO_PIN_NONE && Level(p, raw) != p.state
    requires Counter(p, Level(p, raw)) == 0 && k <= p.deboTime
    ensures var r := PinRun(p, Hold(raw, k), false);
      r.pin.state == p.state && r.edges == []
  {
    var level := Level(p, raw);
    assert Sub(p.deboTime, Counter(p, level)) == p.deboTime;
    DisagreeingRun(p, raw, k, false);
    assert WithCounter(p, level, Add(0, k)).state == p.state;
  }

  /**
   A disagreeing level that returns to the stable state before the window is
   over is forgotten: state unchanged, both counters back to 0, nothing reported.
   */
  lemma GlitchForgotten(p: Pin, raw: bool, k: nat)
    requires p.id != DEBO_PIN_NONE && Level(p, raw) != p.state
    requires Counter(p, Level(p, raw)) == 0 && k <= p.deboTime
    ensures PinRun(p, Hold(raw, k) + [!raw], false) == Run(p.(counter0 := 0, counter1 := 0), [])
  {
    PinRunAppend(p, Hold(raw, k), [!raw], false);
    DisagreeingRun(p, raw, k, false);
    var q := WithCounter(p, Level(p, raw), Add(0, k));
    assert PinRun(q, [!raw], false).edges == [];
  }

  // ---- the stale counter after back-to-back edges ----------------------

  /**
   As written: starting settled low with both counters 0 and a debounce time
   T < MAX, the level goes high for T + 1 scans (rising edge confirmed), then
   low for T + 1 scans (falling edge confirmed), then high again. The rising
   counter still holds T + 1 from the first edge, so the third high phase is
   not confirmed for 2^32 - 1 scans: up to `n <= MAX` scans later the state is
   still low, although the level has been high for far longer than T.
   */
  lemma StaleCounterStallsEdge(p: Pin, high: bool, n: nat)
    requires p.id != DEBO_PIN_NONE && !p.state && p.counter0 == 0 && p.counter1 == 0
    requires Level(p, high) && p.deboTime < MAX && n <= MAX
    ensures var t := p.deboTime;
      var r := PinRun(p, Hold(high, t + 1) + Hold(!high, t + 1) + Hold(high, n), false);
      && !r.pin.state
      && r.edges == EdgeOf(p, true) + EdgeOf(p, false)
  {
    var t := p.deboTime;
    CommitRun(p, high);
    var p1 := PinRun(p, Hold(high, t + 1), false).pin;
    assert p1 == p.(state := true, counter1 := t + 1);
    CommitRun(p1, !high);
    var p2 := PinRun(p1, Hold(!high, t + 1), false).pin;
    assert p2 == p.(state := false, counter0 := t + 1, counter1 := t + 1);
    assert Sub(t, t + 1) == MAX;
    DisagreeingRun(p2, high, n, false);
    PinRunAppend(p, Hold(high, t + 1), Hold(!high, t + 1), false);
    PinRunAppend(p, Hold(high, t + 1) + Hold(!high, t + 1), Hold(high, n), false);
  }

  // ---- the corrected step: clear both counters on commit ---------------

  /**
   A pin the corrected step keeps settled: the counter towards its own state
   is 0 and the counter towards the other level has not passed the debounce time.
   */
  predicate Settled(p: Pin)
  {
    Counter(p, p.state) == 0 && Counter(p, !p.state) <= p.deboTime
  }

  /** A freshly registered pin is settled. */
  lemma RegisteredPinSettled(d: Debouncer, cfg: PinConfig, raw: bool, i: nat)
    requires IsFirst(d.slots, PinId, DEBO_PIN_NONE, i)
    ensures Settled(RegisterPin(d, cfg, raw).debo.slots[i])
  {
  }

  /** The corrected step keeps every pin settled. */
  lemma ClearedStepKeepsSettled(p: Pin, raw: bool)
    requires Settled(p)
    ensures Settled(PinUpdate(p, raw, true).slot)
  {
  }

  /**
   The step as written does not: a settled pin that commits an edge leaves
   the counter towards its new state at T + 1 instead of 0.
   */
  lemma AsWrittenStepBreaksSettled(p: Pin, raw: bool)
    requires p.id != DEBO_PIN_NONE && Settled(p) && p.deboTime < MAX
    requires Level(p, raw) != p.state && Counter(p, Level(p, raw)) == p.deboTime
    ensures var q := PinStep(p, raw).slot;
      q.state == Level(p, raw) && Counter(q, q.state) == p.deboTime + 1 && !Settled(q)
  {
  }

  /** Agreeing scans on a pin whose counters are both 0 change nothing and report nothing. */
  lemma {:induction false} AgreeingRun(p: Pin, raw: bool, k: nat, clearOnCommit: bool)
    requires Level(p, raw) == p.state && p.counter0 == 0 && p.counter1 == 0
    ensures PinRun(p, Hold(raw, k), clearOnCommit) == Run(p, [])
    decreases k
  {
    if k > 0 {
      assert Hold(raw, k)[1..] == Hold(raw, k - 1);
      AgreeingRun(p, raw, k - 1, clearOnCommit);
    }
  }

  /**
   With the corrected step, any settled pin whose level disagrees for T + 1
   consecutive scans ends the run in the new state, settled, with exactly one
   report: the debounce window holds from every reachable state.
   */
  lemma ClearedCommitsWithinWindow(p: Pin, raw: bool)
    requires p.id != DEBO_PIN_NONE && Level(p, raw) != p.state && Settled(p)
    ensures var level := Level(p, raw);
      PinRun(p, Hold(raw, p.deboTime + 1), true) ==
        Run(p.(state := level, counter0 := 0, counter1 := 0), EdgeOf(p, level))
  {
    var level := Level(p, raw);
    var c := Counter(p, level);
    var k := p.deboTime - c;
    assert Sub(p.deboTime, c) == k;
    var q := WithCounter(p, level, Add(c, k));
    var committed := p.(state := level, counter0 := 0, counter1 := 0);
    assert PinRun(p, Hold(raw, k), true) == Run(q, []) by {
      DisagreeingRun(p, raw, k, true);
    }
    assert PinRun(q, [raw], true) == Run(committed, EdgeOf(p, level)) by {
      assert Counter(q, level) == q.deboTime && Level(q, raw) == level;
      ClearedCommitStep(q, raw);
      assert q.(state := level, counter0 := 0, counter1 := 0) == committed;
    }
    assert PinRun(committed, Hold(raw, c), true) == Run(committed, []) by {
      AgreeingRun(committed, raw, c, true);
    }
    var e := EdgeOf(p, level);
    var ab := Hold(raw, k) + [raw];
    assert PinRun(p, ab, true) == Run(committed, e) by {
      PinRunAppend(p, Hold(raw, k), [raw], true);
      assert [] + e == e;
    }
    assert PinRun(p, ab + Hold(raw, c), true) == Run(committed, e) by {
      PinRunAppend(p, ab, Hold(raw, c), true);
      assert e + [] == e;
    }
    assert Hold(raw, p.deboTime + 1) == ab + Hold(raw, c) by {
      HoldSplit(raw, k, c);
    }
  }

  /** The corrected step on a counter at the debounce time commits and clears both counters. */
  lemma ClearedCommitStep(q: Pin, raw: bool)
    requires q.id != DEBO_PIN_NONE && Level(q, raw) != q.state && Counter(q, Level(q, raw)) == q.deboTime
    ensures PinRun(q, [raw], true) ==
      Run(q.(state := Level(q, raw), counter0 := 0, counter1 := 0), EdgeOf(q, Level(q, raw)))
  {
    assert [raw][1..] == [];
  }

  /** A held level split around one scan. */
  lemma HoldSplit(raw: bool, a: nat, b: nat)
    ensures Hold(raw, a + 1 + b) == Hold(raw, a) + [raw] + Hold(raw, b)
  {
  }

  /**
   The corrected step on the back-to-back trace: the third phase is confirmed
   after T + 1 scans like the first two, with three reports in all.
   */
  lemma ClearedBackToBackEdges(p: Pin, high: bool)
    requires p.id != DEBO_PIN_NONE && !p.state && p.counter0 == 0 && p.counter1 == 0
    requires Level(p, high)
    ensures var t := p.deboTime;
      var r := PinRun(p, Hold(high, t + 1) + Hold(!high, t + 1) + Hold(high, t + 1), true);
      && r.pin.state
      && r.edges == EdgeOf(p, true) + EdgeOf(p, false) + EdgeOf(p, true)
  {
    var t: nat := p.deboTime;
    ClearedCommitsWithinWindow(p, high);
    var p1 := p.(state := true);
    ClearedCommitsWithinWindow(p1, !high);
    ClearedCommitsWithinWindow(p, high);
    PinRunAppend(p, Hold(high, t + 1), Hold(!high, t + 1), true);
    PinRunAppend(p, Hold(high, t + 1) + Hold(!high, t + 1), Hold(high, t + 1), true);
  }

  // ---- the debouncer as a whole ----------------------------------------

  /** The debouncer after one scan per reader in `readers`. */
  function Scans(d: Debouncer, readers: seq<PinReader>): (r: Debouncer)
    ensures |r.slots| == |d.slots| && r.nextId == d.nextId
    decreases |readers|
  {
    if |readers| == 0 then d else Scans(ScanTick(d, readers[0]).debo, readers[1..])
  }

  /** The raw levels pin `p` sees under the readers `readers`. */
  function LevelsSeen(p: Pin, readers: seq<PinReader>): (raws: seq<bool>)
    ensures |raws| == |readers|
  {
    seq(|readers|, k requires 0 <= k < |readers| => readers[k](p.port, p.pin))
  }

  /** Scans act on every pin slot independently, each reading its own pin. */
  lemma {:induction false} ScansPinSlot(d: Debouncer, readers: seq<PinReader>, i: nat)
    requires i < |d.slots|
    ensures Scans(d, readers).slots[i] == PinRun(d.slots[i], LevelsSeen(d.slots[i], readers), false).pin
    decreases |readers|
  {
    if |readers| > 0 {
      var d1 := ScanTick(d, readers[0]).debo;
      ScansPinSlot(d1, readers[1..], i);
      assert LevelsSeen(d.slots[i], readers)[1..] == LevelsSeen(d1.slots[i], readers[1..]);
    }
  }

  /**
   `debounce_init` on a scheduler with a free periodic slot installs a scan
   that runs on every tick from the first one on.
   */
  lemma ScanRunsEveryTick(sched: Timebase.Scheduler, slotCount: nat, scan: Addr, i: nat, n: nat)
    requires Timebase.Valid(sched)
    requires IsFirst(sched.periodic, Timebase.PeriodicPid, Timebase.PID_NONE, i)
    ensures var r := DebounceInit(sched, slotCount, scan);
      Timebase.Tick(TimebaseProofs.Ticks(r.sched, n)).periodicCalls[i] == Some(Timebase.Call(scan, NULL))
  {
    TimebaseProofs.AddedTaskFiresEveryInterval(sched, scan, NULL, 1, false, i, n);
  }

  /**
   Register, remove, register again with the same configuration and raw level:
   the second registration takes the same slot and leaves it exactly as the
   first did, except for a new id. No counter or state leaks through.
   */
  lemma ReRegisterOverwritesSlot(d: Debouncer, cfg: PinConfig, raw: bool, i: nat)
    requires d.nextId != DEBO_PIN_NONE && Absent(d.slots, PinId, d.nextId)
    requires IsFirst(d.slots, PinId, DEBO_PIN_NONE, i)
    ensures var first := RegisterPin(d, cfg, raw);
      var removed := RemovePin(first.debo, first.id);
      var second := RegisterPin(removed.debo, cfg, raw);
      && removed.ok
      && second.id != first.id && second.id != DEBO_PIN_NONE
      && second.debo.slots == first.debo.slots[i := first.debo.slots[i].(id := second.id)]
  {
    var first := RegisterPin(d, cfg, raw);
    RegisteredSlot(d, cfg, raw, i);
    assert IsFirst(first.debo.slots, PinId, first.id, i);
    var removed := RemovePin(first.debo, first.id);
    assert removed.ok && removed.debo.nextId == NthId(d.nextId, 1);
    assert removed.debo.slots == first.debo.slots[i := first.debo.slots[i].(id := DEBO_PIN_NONE)];
    assert IsFirst(removed.debo.slots, PinId, DEBO_PIN_NONE, i);
    var second := RegisterPin(removed.debo, cfg, raw);
    RegisteredSlot(removed.debo, cfg, raw, i);
    assert second.id != first.id && second.id != DEBO_PIN_NONE by {
      IdsDistinctWithinCycle(d.nextId, 0, 1);
    }
  }

  /** The slot `debo_register_pin` fills, as one record. */
  lemma RegisteredSlot(d: Debouncer, cfg: PinConfig, raw: bool, i: nat)
    requires IsFirst(d.slots, PinId, DEBO_PIN_NONE, i)
    ensures var r := RegisterPin(d, cfg, raw);
      var time := if cfg.deboTime == 0 then DEF_DEBO_TIME else cfg.deboTime;
      && r.debo.slots == d.slots[i := Pin(cfg.port, cfg.pin, raw != cfg.invert, cfg.invert, r.id,
                                          cfg.payload, time, 0, 0, cfg.callback)]
      && r.id == d.nextId && r.debo.nextId == NthId(d.nextId, 1)
  {
  }

  /** No two live pin slots share an id. */
  predicate LiveIdsDistinct(d: Debouncer)
  {
    forall i, j :: 0 <= i < j < |d.slots| && d.slots[i].id != DEBO_PIN_NONE ==>
      d.slots[i].id != d.slots[j].id
  }

  /**
   `debo_pin_state` on a freshly registered id reports the level read at
   registration, inverted if so configured, as long as no slot held the id.
   */
  lemma RegisterThenState(d: Debouncer, cfg: PinConfig, raw: bool, i: nat)
    requires d.nextId != DEBO_PIN_NONE && Absent(d.slots, PinId, d.nextId)
    requires IsFirst(d.slots, PinId, DEBO_PIN_NONE, i)
    ensures var r := RegisterPin(d, cfg, raw);
      PinState(r.debo, r.id) == (raw != cfg.invert)
  {
    var r := RegisterPin(d, cfg, raw);
    assert IsFirst(r.debo.slots, PinId, r.id, i);
  }

  /** Registering under an id no live slot holds keeps live ids distinct. */
  lemma RegisterKeepsIdsDistinct(d: Debouncer, cfg: PinConfig, raw: bool)
    requires LiveIdsDistinct(d) && Absent(d.slots, PinId, d.nextId)
    ensures LiveIdsDistinct(RegisterPin(d, cfg, raw).debo)
  {
    var r := RegisterPin(d, cfg, raw);
    match Find(d.slots, PinId, DEBO_PIN_NONE)
    case None =>
    case Some(k) =>
      assert forall j :: 0 <= j < |d.slots| ==> d.slots[j].id != r.id;
  }

  /**
   While live ids are distinct, a removal is final: the id reads as low and a
   second removal fails.
   */
  lemma RemoveIsFinal(d: Debouncer, id: u32)
    requires LiveIdsDistinct(d)
    ensures var r := RemovePin(d, id);
      !PinState(r.debo, id) && !RemovePin(r.debo, id).ok
  {
    var r := RemovePin(d, id);
    if r.ok {
      var i := Find(d.slots, PinId, id).value;
      forall j | 0 <= j < |r.debo.slots| ensures r.debo.slots[j].id != id {
        if j > i {
          assert d.slots[i].id != d.slots[j].id;
        }
      }
    }
  }

  /**
   The invariant of every debouncer the program reaches before the id counter
   wraps: the counter is non-zero and ahead of every id in the table, and live
   ids are distinct.
   */
  predicate IdInvariant(d: Debouncer)
  {
    && d.nextId != DEBO_PIN_NONE
    && (forall i :: 0 <= i < |d.slots| ==> d.slots[i].id < d.nextId)
    && LiveIdsDistinct(d)
  }

  /** A counter ahead of every id is fresh: no slot holds the id it hands out next. */
  lemma IdInvariantIsFresh(d: Debouncer)
    requires IdInvariant(d)
    ensures d.nextId != DEBO_PIN_NONE && Absent(d.slots, PinId, d.nextId)
  {
    assert forall j :: 0 <= j < |d.slots| ==> PinId(d.slots[j]) < d.nextId;
  }

  /** `debounce_init` establishes the invariant, whether or not the scan task was installed. */
  lemma InitEstablishesIdInvariant(sched: Timebase.Scheduler, slotCount: nat, scan: Addr)
    ensures IdInvariant(DebounceInit(sched, slotCount, scan).debo)
  {
  }

  /** `debo_register_pin` keeps the invariant while the id counter has not reached MAX. */
  lemma RegisterKeepsIdInvariant(d: Debouncer, cfg: PinConfig, raw: bool)
    requires IdInvariant(d) && d.nextId < MAX
    ensures IdInvariant(RegisterPin(d, cfg, raw).debo)
  {
    IdInvariantIsFresh(d);
    RegisterKeepsIdsDistinct(d, cfg, raw);
    NextIdBelowMax(d.nextId);
  }

  /** A scan changes only states and counters, so it keeps the invariant. */
  lemma ScanKeepsIdInvariant(d: Debouncer, read: PinReader)
    requires IdInvariant(d)
    ensures IdInvariant(ScanTick(d, read).debo)
  {
    var r := ScanTick(d, read).debo;
    forall i | 0 <= i < |r.slots| ensures r.slots[i].id == d.slots[i].id {
      assert Stepped(r.slots[i], ScanTick(d, read).edges[i])
        == PinUpdate(d.slots[i], read(d.slots[i].port, d.slots[i].pin), false);
    }
  }

  /** `debo_remove_pin` only frees a slot, so it keeps the invariant. */
  lemma RemoveKeepsIdInvariant(d: Debouncer, id: u32)
    requires IdInvariant(d)
    ensures IdInvariant(RemovePin(d, id).debo)
  {
    var r := RemovePin(d, id).debo;
    assert r.nextId == d.nextId && |r.slots| == |d.slots|;
    assert forall i :: 0 <= i < |r.slots| ==> r.slots[i].id == d.slots[i].id || r.slots[i].id == DEBO_PIN_NONE;
    forall i, j | 0 <= i < j < |r.slots| && r.slots[i].id != DEBO_PIN_NONE
      ensures r.slots[i].id != r.slots[j].id
    {
      assert d.slots[i].id != d.slots[j].id;
    }
  }
}
