/**
 Vocabulary shared by the scheduler and the debouncer: fixed-capacity slot
 tables scanned linearly from index 0, opaque code/data addresses, and the
 wrapping id counter that never hands out the reserved id 0.
 */
module Slots {
  import opened UInt32

  /** A code or data address (callback pointer, `void *` argument, GPIO bank). */
  type Addr = nat

  /** The null pointer. */
  const NULL: Addr := 0

  /** The id that marks a slot as unused (`PID_NONE`, `DEBO_PIN_NONE`). */
  const NONE: u32 := 0

  datatype Option<T> = None | Some(value: T)

  /** One slot after one tick, with the callback it fired, if any. */
  datatype Stepped<T, E> = Stepped(slot: T, event: Option<E>)

  /** Slot `i` is the first slot, scanning upwards from index 0, whose key is `v`. */
  predicate IsFirst<T>(ts: seq<T>, key: T -> u32, v: u32, i: int)
  {
    && 0 <= i < |ts|
    && key(ts[i]) == v
    && forall j :: 0 <= j < i ==> key(ts[j]) != v
  }

  /** No slot of the table has key `v`. */
  predicate Absent<T>(ts: seq<T>, key: T -> u32, v: u32)
  {
    forall j :: 0 <= j < |ts| ==> key(ts[j]) != v
  }

  /** Two tables of the same capacity that agree everywhere except at slot `i`. */
  predicate OnlySlotChanged<T(==)>(a: seq<T>, b: seq<T>, i: int)
  {
    && |a| == |b|
    && forall j :: 0 <= j < |a| && j != i ==> a[j] == b[j]
  }

  /** The linear scan `for (i = 0; i < count; i++) if (key(slot[i]) == v) ...`. */
  function Find<T>(ts: seq<T>, key: T -> u32, v: u32): (r: Option<nat>)
    ensures r.None? <==> Absent(ts, key, v)
    ensures r.Some? ==> IsFirst(ts, key, v, r.value)
  {
    if |ts| == 0 then None
    else if key(ts[0]) == v then Some(0)
    else match Find(ts[1..], key, v)
      case None => None
      case Some(k) =>
        assert forall j :: 1 <= j < k + 1 ==> ts[j] == ts[1..][j - 1];
        Some(k + 1)
  }

  /** The id handed out by one draw from a counter, and the counter after it. */
  datatype Draw = Draw(id: u32, next: u32)

  /**
   Draw an id: hand out the counter and post-increment it, stepping over the
   reserved id 0 when the counter wraps around.
   */
  function MakeId(counter: u32): (r: Draw)
    ensures r.id == counter
    ensures r.next != NONE
    ensures counter != NONE ==> r.id != NONE
    ensures r.id < MAX ==> r.next == r.id + 1
    ensures r.id == MAX ==> r.next == 1
  {
    var next := Inc(counter);
    Draw(counter, if next == NONE then Inc(next) else next)
  }

  /** The id handed out by the `k`-th draw (counting from 0) starting at `counter`. */
  function NthId(counter: u32, k: nat): u32
    decreases k
  {
    if k == 0 then MakeId(counter).id else NthId(MakeId(counter).next, k - 1)
  }

  /**
   Starting from a non-zero counter, the draws walk the cycle 1, 2, ..., MAX,
   1, 2, ... without ever producing 0.
   */
  lemma {:induction false} NthIdCycles(counter: u32, k: nat)
    requires counter != NONE
    ensures NthId(counter, k) == (counter - 1 + k) % MAX + 1
    decreases k
  {
    if k > 0 {
      var next := MakeId(counter).next;
      NthIdCycles(next, k - 1);
      assert next - 1 == counter % MAX;
    }
  }

  /** Drawing from a counter below MAX moves it forward by exactly one. */
  lemma NextIdBelowMax(counter: u32)
    requires counter < MAX
    ensures NthId(counter, 1) == counter + 1
  {
    assert NthId(counter, 1) == NthId(MakeId(counter).next, 0);
  }

  /** Any MAX = 2^32 - 1 consecutive draws hand out pairwise distinct non-zero ids. */
  lemma IdsDistinctWithinCycle(counter: u32, j: nat, k: nat)
    requires counter != NONE
    requires j < k < MAX
    ensures NthId(counter, j) != NONE
    ensures NthId(counter, j) != NthId(counter, k)
  {
    NthIdCycles(counter, j);
    NthIdCycles(counter, k);
    var a := counter - 1 + j;
    var b := counter - 1 + k;
    assert 0 < b - a < MAX;
    assert a % MAX != b % MAX;
  }
}
