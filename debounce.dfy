/**
 * Mask-level debounce of the tick routine, as values. Each tick samples the
 * active-level mask; a mask different from the last one restarts the
 * settling time at the current tick, and the state machines are dispatched
 * only once the mask has been stable for the debounce time.
 */
module Debounce {
  import opened ButtonDefs
  import opened StateMachine

  /** The engine's clock and settling state: tick counter, last mask, time of the last mask change. */
  datatype Timing = Timing(tick: u32, lastMask: Mask, entryTime: u32)

  /** The timing after one tick and whether that tick dispatches. */
  datatype Gate = Gate(next: Timing, open: bool)

  /** Ticks of stability after which dispatch resumes: 40 ms at 5 ms per tick. */
  const DEBOUNCE_TICKS: nat := DEBOUNCE_TIME_MS / TICKS_INTERVAL_MS

  /**
   * One tick with sampled mask `newMask`: the settling time is measured at
   * the tick value from before the increment, and dispatch happens when the
   * settled time in milliseconds (32-bit arithmetic) reaches the debounce
   * time.
   */
  function TickGate(t: Timing, newMask: Mask): (g: Gate)
    ensures g.next.tick == (t.tick + 1) % U32 && g.next.lastMask == newMask
    ensures newMask != t.lastMask ==> g.next.entryTime == t.tick && !g.open
    ensures newMask == t.lastMask ==> g.next.entryTime == t.entryTime
  {
    var current := t.tick;
    var entry := if t.lastMask != newMask then current else t.entryTime;
    Gate(Timing((t.tick + 1) % U32, newMask, entry), ElapsedMs(current, entry) >= DEBOUNCE_TIME_MS)
  }

  /** While no more than about 858 million ticks have passed, the millisecond product does not wrap. */
  const NO_WRAP_TICKS: nat := U32 / TICKS_INTERVAL_MS

  /**
   * With an unchanged mask, a tick dispatches exactly when at least eight
   * ticks (40 ms) have passed since the last mask change, as long as the
   * settled time is too short for the millisecond product to wrap.
   */
  lemma {:induction false} GateOpensAfterDebounce(t: Timing, m: Mask)
    requires m == t.lastMask
    requires Elapsed(t.tick, t.entryTime) < NO_WRAP_TICKS
    ensures TickGate(t, m).open <==> Elapsed(t.tick, t.entryTime) >= DEBOUNCE_TICKS
  {
    var e := Elapsed(t.tick, t.entryTime);
    assert e * 5 < U32;
    assert ElapsedMs(t.tick, t.entryTime) == e * 5;
  }

  /** The dispatch decisions of consecutive ticks with sampled masks `masks`. */
  function GateRun(t: Timing, masks: seq<Mask>): (r: seq<bool>)
    ensures |r| == |masks|
    decreases |masks|
  {
    if masks == [] then []
    else
      var g := TickGate(t, masks[0]);
      [g.open] + GateRun(g.next, masks[1..])
  }

  /** The settled time grows by one tick per tick while the mask is unchanged. */
  lemma {:induction false} ElapsedStep(t: Timing, m: Mask)
    requires m == t.lastMask
    ensures Elapsed(TickGate(t, m).next.tick, TickGate(t, m).next.entryTime) == (Elapsed(t.tick, t.entryTime) + 1) % U32
  {
    var a: int := t.tick;
    var b: int := t.entryTime;
    var a': int := TickGate(t, m).next.tick;
    assert TickGate(t, m).next.entryTime == b;
    Wrap(a + 1);
    Wrap(a - b);
    Wrap(a' - b);
    Wrap(Elapsed(a, b) + 1);
  }

  /** Reduction modulo 2^32 of a value at most one period out of range. */
  lemma Wrap(x: int)
    requires -U32 < x < 2 * U32
    ensures x % U32 == if x < 0 then x + U32 else if x < U32 then x else x - U32
  {
  }

  /**
   * With the mask held at `m` and the settled time at `d` ticks, the `j`-th
   * further tick dispatches exactly when `d + j` reaches the debounce ticks.
   */
  lemma {:induction false} StableRun(t: Timing, m: Mask, masks: seq<Mask>)
    requires m == t.lastMask
    requires forall j :: 0 <= j < |masks| ==> masks[j] == m
    requires Elapsed(t.tick, t.entryTime) + |masks| < NO_WRAP_TICKS
    ensures forall j :: 0 <= j < |masks| ==>
      (GateRun(t, masks)[j] <==> Elapsed(t.tick, t.entryTime) + j >= DEBOUNCE_TICKS)
    decreases |masks|
  {
    if masks != [] {
      var g := TickGate(t, masks[0]);
      var e := Elapsed(t.tick, t.entryTime);
      GateOpensAfterDebounce(t, m);
      ElapsedStep(t, m);
      Wrap(e + 1);
      StableRun(g.next, m, masks[1..]);
      var run := GateRun(t, masks);
      assert run == [g.open] + GateRun(g.next, masks[1..]);
      forall j | 0 <= j < |masks|
        ensures run[j] <==> e + j >= DEBOUNCE_TICKS
      {
        if j > 0 {
          assert run[j] == GateRun(g.next, masks[1..])[j - 1];
        }
      }
    }
  }

  /**
   * After the mask changes to `m` and then holds, the tick of the change and
   * the next seven do not dispatch; every later tick (within the no-wrap
   * range) does.
   */
  lemma {:induction false} DispatchResumesAfterDebounce(t: Timing, masks: seq<Mask>)
    requires masks != [] && masks[0] != t.lastMask
    requires forall j :: 0 <= j < |masks| ==> masks[j] == masks[0]
    requires |masks| < NO_WRAP_TICKS
    ensures forall j :: 0 <= j < |masks| ==> (GateRun(t, masks)[j] <==> j >= DEBOUNCE_TICKS)
  {
    var g := TickGate(t, masks[0]);
    assert Elapsed(g.next.tick, g.next.entryTime) == 1 by {
      if t.tick + 1 == U32 {
        assert (0 - t.tick) % U32 == 1;
      }
    }
    StableRun(g.next, masks[0], masks[1..]);
    assert GateRun(t, masks) == [g.open] + GateRun(g.next, masks[1..]);
    forall j | 1 <= j < |masks|
      ensures GateRun(t, masks)[j] <==> j >= DEBOUNCE_TICKS
    {
      assert GateRun(t, masks)[j] == GateRun(g.next, masks[1..])[j - 1];
    }
  }

  /** A mask that changes on every tick (contact chatter) never lets a tick dispatch. */
  lemma {:induction false} ChatterNeverDispatches(t: Timing, masks: seq<Mask>)
    requires masks != [] ==> masks[0] != t.lastMask
    requires forall j :: 0 < j < |masks| ==> masks[j] != masks[j - 1]
    ensures forall j :: 0 <= j < |masks| ==> !GateRun(t, masks)[j]
    decreases |masks|
  {
    if masks != [] {
      var g := TickGate(t, masks[0]);
      ChatterNeverDispatches(g.next, masks[1..]);
      assert GateRun(t, masks) == [g.open] + GateRun(g.next, masks[1..]);
    }
  }
}
