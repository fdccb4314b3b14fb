/**
 The pin debouncer: a fixed table of monitored pins scanned on every tick by
 one periodic timebase task. Each live pin keeps a stable logical state and
 two edge counters; the state follows the raw level only after the level has
 disagreed with it for long enough, and the pin's callback is told of each
 confirmed edge.
 */
module Debounce {
  import opened UInt32
  import opened Slots
  import Timebase

  /** `DEBO_PIN_NONE`: the id of an unused slot, never given to a pin. */
  const DEBO_PIN_NONE: u32 := NONE

  /** `DEF_DEBO_TIME`: the debounce time used when a pin is registered with 0. */
  const DEF_DEBO_TIME: u32 := 20

  /** A GPIO pin mask (`uint16_t`). */
  type u16 = x: int | 0 <= x < 0x1_0000

  /** `HAL_GPIO_ReadPin`: the raw level of a pin of a GPIO bank at the time of the read. */
  type PinReader = (Addr, u16) -> bool

  /** `debo_init_t`: what the caller supplies to register a pin. */
  datatype PinConfig = PinConfig(
    port: Addr,
    pin: u16,
    invert: bool,
    deboTime: u32,
    payload: u32,
    callback: Addr)

  /**
   One slot of the pin table (`debo_slot_t`). `counter0` counts towards a
   falling edge, `counter1` towards a rising edge.
   */
  datatype Pin = Pin(
    port: Addr,
    pin: u16,
    state: bool,
    invert: bool,
    id: u32,
    payload: u32,
    deboTime: u32,
    counter0: u32,
    counter1: u32,
    callback: Addr)

  /** The pin table (its length is the slot count) and the pin id counter. */
  datatype Debouncer = Debouncer(slots: seq<Pin>, nextId: u32)

  /** A callback invocation `callback(payload, state)` for a confirmed edge. */
  datatype Edge = Edge(callback: Addr, payload: u32, state: bool)

  /** The scheduler and debouncer after `debounce_init`, and whether the timebase logged an error. */
  datatype Setup = Setup(sched: Timebase.Scheduler, debo: Debouncer, logged: bool)

  /** The debouncer after `debo_register_pin` and the id it returned. */
  datatype PinRegistration = PinRegistration(debo: Debouncer, id: u32)

  /** The debouncer after `debo_remove_pin` and its return value. */
  datatype PinOutcome = PinOutcome(debo: Debouncer, ok: bool)

  /** The debouncer after one scan and the edge callbacks fired, aligned with the slots. */
  datatype ScanResult = ScanResult(debo: Debouncer, edges: seq<Option<Edge>>)

  function PinId(p: Pin): u32 { p.id }

  /** A slot as `calloc` leaves it. */
  const ZeroPin := Pin(NULL, 0, false, false, DEBO_PIN_NONE, 0, 0, 0, 0, NULL)

  /** The logical level of a raw read: inverted when the pin is configured so. */
  function Level(p: Pin, raw: bool): bool
  {
    if p.invert then !raw else raw
  }

  /** The edge counter that counts towards `level`. */
  function Counter(p: Pin, level: bool): u32
  {
    if level then p.counter1 else p.counter0
  }

  /** `p` with the counter towards `level` set to `v`. */
  function WithCounter(p: Pin, level: bool, v: u32): (q: Pin)
    ensures Counter(q, level) == v && Counter(q, !level) == Counter(p, !level)
  {
    if level then p.(counter1 := v) else p.(counter0 := v)
  }

  /**
   `debounce_init`: a zero-filled pin table (every slot free, the id counter
   at its initial 1) and one periodic task for the scan, added with interval 1
   and not queued, so its threshold is 0. A full task table makes the
   timebase log an error and the scan is never installed.
   */
  function DebounceInit(sched: Timebase.Scheduler, slotCount: nat, scan: Addr): (r: Setup)
    ensures |r.debo.slots| == slotCount && r.debo.nextId == 1
    ensures forall i :: 0 <= i < |r.debo.slots| ==> r.debo.slots[i].id == DEBO_PIN_NONE
    ensures r.logged <==> Absent(sched.periodic, Timebase.PeriodicPid, Timebase.PID_NONE)
    ensures r.logged ==> r.sched == sched
    ensures r.sched.now == sched.now && r.sched.future == sched.future
    ensures !r.logged ==> r.sched.nextPid == NthId(sched.nextPid, 1)
    ensures forall i :: IsFirst(sched.periodic, Timebase.PeriodicPid, Timebase.PID_NONE, i) ==>
      && OnlySlotChanged(sched.periodic, r.sched.periodic, i)
      && r.sched.periodic[i] == Timebase.PeriodicTask(scan, NULL, 0, 0, sched.nextPid, true, false)
  {
    var reg := Timebase.AddPeriodicTask(sched, scan, NULL, 1, false);
    Setup(reg.sched, Debouncer(seq(slotCount, _ => ZeroPin), 1), reg.logged)
  }

  /** `make_id`: a counter of its own, so pin ids may equal task pids. */
  function MakePinId(d: Debouncer): (r: Draw)
    ensures d.nextId != DEBO_PIN_NONE ==> r.id != DEBO_PIN_NONE
    ensures r.id == d.nextId && r.next != DEBO_PIN_NONE
    ensures r.next == NthId(d.nextId, 1)
  {
    MakeId(d.nextId)
  }

  /**
   `debo_register_pin`: a full table returns `DEBO_PIN_NONE` and changes
   nothing. Otherwise the lowest free slot is overwritten in every field:
   both counters 0, debounce time 0 replaced by 20, stable state taken from
   the raw level `raw` read now (inverted if configured), and a fresh id.
   */
  function RegisterPin(d: Debouncer, cfg: PinConfig, raw: bool): (r: PinRegistration)
    ensures Absent(d.slots, PinId, DEBO_PIN_NONE) ==> r == PinRegistration(d, DEBO_PIN_NONE)
    ensures !Absent(d.slots, PinId, DEBO_PIN_NONE) ==>
      && r.id == d.nextId
      && (d.nextId != DEBO_PIN_NONE ==> r.id != DEBO_PIN_NONE)
      && r.debo.nextId == NthId(d.nextId, 1)
    ensures forall i :: IsFirst(d.slots, PinId, DEBO_PIN_NONE, i) ==>
      && OnlySlotChanged(d.slots, r.debo.slots, i)
      && var p := r.debo.slots[i];
      && p.port == cfg.port && p.pin == cfg.pin && p.invert == cfg.invert
      && p.payload == cfg.payload && p.callback == cfg.callback
      && p.counter0 == 0 && p.counter1 == 0
      && p.state == (raw != cfg.invert)
      && p.id == r.id
      && p.deboTime != 0
      && (cfg.deboTime != 0 ==> p.deboTime == cfg.deboTime)
      && (cfg.deboTime == 0 ==> p.deboTime == DEF_DEBO_TIME)
  {
    match Find(d.slots, PinId, DEBO_PIN_NONE)
    case None => PinRegistration(d, DEBO_PIN_NONE)
    case Some(i) =>
      var state := if cfg.invert then !raw else raw;
      var draw := MakePinId(d);
      var p := Pin(cfg.port, cfg.pin, state, cfg.invert, draw.id, cfg.payload,
                   if cfg.deboTime == 0 then DEF_DEBO_TIME else cfg.deboTime, 0, 0, cfg.callback);
      PinRegistration(Debouncer(d.slots[i := p], draw.next), draw.id)
  }

  /**
   One pin in one scan, as the source does it (`clearOnCommit` false), or with
   both counters cleared when an edge is committed (`clearOnCommit` true).

   A free slot is skipped. A level equal to the stable state clears both
   counters. A level that differs post-increments the counter towards that
   level; when its value before the increment equals the debounce time the
   stable state becomes the level and, unless the callback is NULL, the
   callback is told `(payload, level)`. Only state and counters ever change.
   */
  function PinUpdate(p: Pin, raw: bool, clearOnCommit: bool): (r: Stepped<Pin, Edge>)
    ensures r.slot == p.(state := r.slot.state, counter0 := r.slot.counter0, counter1 := r.slot.counter1)
    ensures p.id == DEBO_PIN_NONE ==> r == Stepped(p, None)
    ensures p.id != DEBO_PIN_NONE && Level(p, raw) == p.state ==>
      r == Stepped(p.(counter0 := 0, counter1 := 0), None)
    ensures p.id != DEBO_PIN_NONE && Level(p, raw) != p.state ==>
      var level := Level(p, raw);
      var commit := Counter(p, level) == p.deboTime;
      && (r.slot.state == level <==> commit)
      && (commit && clearOnCommit ==> r.slot.counter0 == 0 && r.slot.counter1 == 0)
      && (!(commit && clearOnCommit) ==>
            Counter(r.slot, level) == Inc(Counter(p, level)) && Counter(r.slot, !level) == Counter(p, !level))
      && (r.event.Some? <==> commit && p.callback != NULL)
      && (r.event.Some? ==> r.event.value == Edge(p.callback, p.payload, level))
  {
    if p.id == DEBO_PIN_NONE then Stepped(p, None)
    else
      var level := Level(p, raw);
      if p.state == level then Stepped(p.(counter0 := 0, counter1 := 0), None)
      else
        var c := Counter(p, level);
        var counted := WithCounter(p, level, Inc(c));
        if c != p.deboTime then Stepped(counted, None)
        else
          var committed := if clearOnCommit then counted.(state := level, counter0 := 0, counter1 := 0)
                           else counted.(state := level);
          Stepped(committed, if p.callback != NULL then Some(Edge(p.callback, p.payload, level)) else None)
  }

  /** The body of the scan loop in `debo_periodic_task` for one slot, as written. */
  function PinStep(p: Pin, raw: bool): (r: Stepped<Pin, Edge>)
    ensures p.id == DEBO_PIN_NONE ==> r == Stepped(p, None)
    ensures p.id != DEBO_PIN_NONE && Level(p, raw) == p.state ==>
      r == Stepped(p.(counter0 := 0, counter1 := 0), None)
    ensures p.id != DEBO_PIN_NONE && Level(p, raw) != p.state && Counter(p, Level(p, raw)) == p.deboTime ==>
      && r.slot.state == Level(p, raw)
      && Counter(r.slot, Level(p, raw)) == Inc(p.deboTime)
      && Counter(r.slot, !Level(p, raw)) == Counter(p, !Level(p, raw))
      && r.slot == p.(state := r.slot.state, counter0 := r.slot.counter0, counter1 := r.slot.counter1)
      && r.event == (if p.callback != NULL then Some(Edge(p.callback, p.payload, Level(p, raw))) else None)
    ensures p.id != DEBO_PIN_NONE && Level(p, raw) != p.state && Counter(p, Level(p, raw)) != p.deboTime ==>
      r == Stepped(WithCounter(p, Level(p, raw), Inc(Counter(p, Level(p, raw)))), None)
  {
    PinUpdate(p, raw, false)
  }

  /**
   `debo_periodic_task`: every slot reads its own pin through `read` and takes
   its own step; the id counter is untouched.
   */
  function ScanTick(d: Debouncer, read: PinReader): (r: ScanResult)
    ensures r.debo.nextId == d.nextId
    ensures |r.debo.slots| == |r.edges| == |d.slots|
    ensures forall i :: 0 <= i < |d.slots| ==>
      Stepped(r.debo.slots[i], r.edges[i]) == PinStep(d.slots[i], read(d.slots[i].port, d.slots[i].pin))
  {
    var steps := seq(|d.slots|, i requires 0 <= i < |d.slots| =>
                       PinStep(d.slots[i], read(d.slots[i].port, d.slots[i].pin)));
    ScanResult(Debouncer(seq(|steps|, i requires 0 <= i < |steps| => steps[i].slot), d.nextId),
               seq(|steps|, i requires 0 <= i < |steps| => steps[i].event))
  }

  /**
   `debo_pin_state`: the stable state of the first slot holding `id`; false
   for `DEBO_PIN_NONE` or an id no slot holds.
   */
  function PinState(d: Debouncer, id: u32): (r: bool)
    ensures r ==> id != DEBO_PIN_NONE && !Absent(d.slots, PinId, id)
    ensures forall i :: id != DEBO_PIN_NONE && IsFirst(d.slots, PinId, id, i) ==> r == d.slots[i].state
  {
    if id == DEBO_PIN_NONE then false
    else match Find(d.slots, PinId, id)
      case None => false
      case Some(i) => d.slots[i].state
  }

  /**
   `debo_remove_pin`: false and no change for `DEBO_PIN_NONE` or an unknown id;
   otherwise only the id of the first matching slot is cleared, which makes
   the slot claimable again.
   */
  function RemovePin(d: Debouncer, id: u32): (r: PinOutcome)
    ensures r.ok <==> id != DEBO_PIN_NONE && !Absent(d.slots, PinId, id)
    ensures !r.ok ==> r.debo == d
    ensures forall i :: id != DEBO_PIN_NONE && IsFirst(d.slots, PinId, id, i) ==>
      && r.debo.nextId == d.nextId
      && OnlySlotChanged(d.slots, r.debo.slots, i)
      && r.debo.slots[i] == d.slots[i].(id := DEBO_PIN_NONE)
  {
    if id == DEBO_PIN_NONE then PinOutcome(d, false)
    else match Find(d.slots, PinId, id)
      case None => PinOutcome(d, false)
      case Some(i) => PinOutcome(d.(slots := d.slots[i := d.slots[i].(id := DEBO_PIN_NONE)]), true)
  }
}
