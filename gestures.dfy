/**
 * Runs of one button's state machine over many ticks, and the documented
 * gesture signatures derived from such runs: single and double click, long
 * press start, hold and hold-then-release, and clicks followed by a long press.
 */
module Gestures {
  import opened ButtonDefs
  import opened StateMachine

  /** What the machine sees on one tick: its pressed flag and the tick count. */
  datatype Input = Input(pressed: bool, now: u32)

  /** The machine after a run, and what each tick of the run reported. */
  datatype RunResult = RunResult(m: Machine, events: seq<Option<Result>>)

  /** Steps the machine once per input, collecting the reported results. */
  function Run(m: Machine, keyId: u16, param: Option<Param>, inputs: seq<Input>): (r: RunResult)
    ensures |r.events| == |inputs|
    decreases |inputs|
  {
    if inputs == [] then RunResult(m, [])
    else
      var r := Step(m, keyId, param, inputs[0].pressed, inputs[0].now);
      var rest := Run(r.m, keyId, param, inputs[1..]);
      RunResult(rest.m, [r.emitted] + rest.events)
  }

  /** A run over two input sequences is the second run started where the first ended. */
  lemma {:induction false} RunAppend(m: Machine, keyId: u16, param: Option<Param>, a: seq<Input>, b: seq<Input>)
    ensures var ra := Run(m, keyId, param, a);
      var rb := Run(ra.m, keyId, param, b);
      Run(m, keyId, param, a + b) == RunResult(rb.m, ra.events + rb.events)
    decreases |a|
  {
    if a != [] {
      assert (a + b)[0] == a[0];
      assert (a + b)[1..] == a[1..] + b;
      var r := Step(m, keyId, param, a[0].pressed, a[0].now);
      RunAppend(r.m, keyId, param, a[1..], b);
      var ra' := Run(r.m, keyId, param, a[1..]);
      var rb := Run(ra'.m, keyId, param, b);
      assert [r.emitted] + (ra'.events + rb.events) == ([r.emitted] + ra'.events) + rb.events;
    } else {
      assert a + b == b;
    }
  }

  /** Runs of one, two and three inputs, unfolded. */
  lemma Run1(m: Machine, keyId: u16, param: Option<Param>, x: Input)
    ensures var r := Step(m, keyId, param, x.pressed, x.now);
      Run(m, keyId, param, [x]) == RunResult(r.m, [r.emitted])
  {
    var r := Step(m, keyId, param, x.pressed, x.now);
    assert [x][1..] == [];
    assert Run(r.m, keyId, param, []) == RunResult(r.m, []);
  }

  lemma Run2(m: Machine, keyId: u16, param: Option<Param>, x: Input, y: Input)
    ensures var r1 := Step(m, keyId, param, x.pressed, x.now);
      var r2 := Step(r1.m, keyId, param, y.pressed, y.now);
      Run(m, keyId, param, [x, y]) == RunResult(r2.m, [r1.emitted, r2.emitted])
  {
    var r1 := Step(m, keyId, param, x.pressed, x.now);
    assert [x, y] == [x] + [y];
    RunAppend(m, keyId, param, [x], [y]);
    Run1(m, keyId, param, x);
    Run1(r1.m, keyId, param, y);
  }

  lemma Run3(m: Machine, keyId: u16, param: Option<Param>, x: Input, y: Input, z: Input)
    ensures var r1 := Step(m, keyId, param, x.pressed, x.now);
      var r2 := Step(r1.m, keyId, param, y.pressed, y.now);
      var r3 := Step(r2.m, keyId, param, z.pressed, z.now);
      Run(m, keyId, param, [x, y, z]) == RunResult(r3.m, [r1.emitted, r2.emitted, r3.emitted])
  {
    var r1 := Step(m, keyId, param, x.pressed, x.now);
    assert [x, y, z] == [x] + [y, z];
    RunAppend(m, keyId, param, [x], [y, z]);
    Run1(m, keyId, param, x);
    Run2(r1.m, keyId, param, y, z);
  }

  // ---------------------------------------------------------------------------
  // Phases of a gesture
  // ---------------------------------------------------------------------------

  /**
   * A short click from Idle: pressed at `t1`, released at `t2` before the
   * long-press start time, and one more tick at `t3`. The signature gains
   * the bits 1 then 0, and PRESSED and RELEASE results are reported.
   */
  lemma ClickPhase(m: Machine, keyId: u16, param: Option<Param>, t1: u32, t2: u32, t3: Input)
    requires param.Some?
    requires m.state == Idle
    requires ElapsedMs(t2, t1) <= param.value.longPressStartMs as int
    ensures var r := Run(m, keyId, param, [Input(true, t1), Input(false, t2), t3]);
      && r.m.state == ReleaseWindow && Settled(r.m)
      && r.m.entryTime == t3.now
      && r.m.bits == AppendBit(AppendBit(m.bits, 1), 0)
      && r.m.longPressCount == m.longPressCount
      && r.events[0] == Some(Result(EventPressed, keyId, 0, AppendBit(m.bits, 1)))
      && r.events[1] == None
      && r.events[2] == Some(Result(EventRelease, keyId, 0, r.m.bits))
  {
    Run3(m, keyId, param, Input(true, t1), Input(false, t2), t3);
  }

  /**
   * A press held from Idle past the long-press start time: pressed at `t1`
   * and still (or no longer) pressed at `t2`. The signature gains 1 then 1,
   * the counter is zeroed, and PRESSED and LONG_PRESS results are reported.
   */
  lemma LongStartPhase(m: Machine, keyId: u16, param: Option<Param>, t1: u32, t2: Input)
    requires param.Some?
    requires m.state == Idle
    requires ElapsedMs(t2.now, t1) > param.value.longPressStartMs as int
    ensures var r := Run(m, keyId, param, [Input(true, t1), t2]);
      && r.m.state == LongPress && Settled(r.m)
      && r.m.entryTime == t2.now
      && r.m.bits == AppendBit(AppendBit(m.bits, 1), 1)
      && r.m.longPressCount == 0
      && r.events[0] == Some(Result(EventPressed, keyId, 0, AppendBit(m.bits, 1)))
      && r.events[1] == Some(Result(EventLongPress, keyId, 0, r.m.bits))
  {
    Run2(m, keyId, param, Input(true, t1), t2);
  }

  /**
   * Releasing a long press (at `t1`, then one more tick at `t2`): bit 0 is
   * appended, the counter is zeroed and a RELEASE result is reported.
   */
  lemma LongReleasePhase(m: Machine, keyId: u16, param: Option<Param>, t1: u32, t2: Input)
    requires param.Some?
    requires m.state == LongPress
    ensures var r := Run(m, keyId, param, [Input(false, t1), t2]);
      && r.m.state == ReleaseWindow && Settled(r.m)
      && r.m.entryTime == t2.now
      && r.m.bits == AppendBit(m.bits, 0)
      && r.m.longPressCount == 0
      && r.events[0] == None
      && r.events[1] == Some(Result(EventRelease, keyId, 0, r.m.bits))
  {
    Run2(m, keyId, param, Input(false, t1), t2);
  }

  /**
   * A press inside the time window: the machine goes back to Idle keeping
   * its signature, so the following click extends the same gesture.
   */
  lemma RepressPhase(m: Machine, keyId: u16, param: Option<Param>, t: u32)
    requires param.Some?
    requires m.state == ReleaseWindow
    ensures var r := Run(m, keyId, param, [Input(true, t)]);
      && r.m.state == Idle && Settled(r.m)
      && r.m.entryTime == t
      && r.m.bits == m.bits
      && r.m.longPressCount == m.longPressCount
      && r.events[0] == None
  {
    Run1(m, keyId, param, Input(true, t));
  }

  /**
   * The time window running out (not pressed at `t1`, past the window) and
   * one more tick at `t2`: a FINISH result carries the whole signature, which
   * is then cleared.
   */
  lemma WindowClosePhase(m: Machine, keyId: u16, param: Option<Param>, t1: u32, t2: Input)
    requires param.Some?
    requires m.state == ReleaseWindow
    requires ElapsedMs(t1, m.entryTime) > param.value.timeWindowMs as int
    ensures var r := Run(m, keyId, param, [Input(false, t1), t2]);
      && r.m.state == Idle && Settled(r.m)
      && r.m.entryTime == m.entryTime
      && r.m.bits == 0
      && r.m.longPressCount == m.longPressCount
      && r.events[0] == None
      && r.events[1] == Some(Result(EventFinish, keyId, 0, m.bits))
  {
    Run2(m, keyId, param, Input(false, t1), t2);
  }

  // ---------------------------------------------------------------------------
  // Long-press repeats
  // ---------------------------------------------------------------------------

  /** The signature after a repeat tick: one more 1 only while the low bits read 0b011. */
  function Grow(bits: bv32): (r: bv32)
  {
    if BitsMatch(bits, 3, 3) then AppendBit(bits, 1) else bits
  }

  /** Growing twice is growing once: the signature saturates after one repeat. */
  lemma GrowIdempotent(bits: bv32)
    ensures Grow(Grow(bits)) == Grow(bits)
  {
  }

  /** Each tick time is more than one period after the previous one (the first after `since`). */
  predicate PeriodsElapse(since: u32, times: seq<u32>, periodMs: u16)
    decreases |times|
  {
    times != [] ==>
      && ElapsedMs(times[0], since) > periodMs as int
      && PeriodsElapse(times[0], times[1..], periodMs)
  }

  /** The inputs of a button held down at each of the given ticks. */
  function Holds(times: seq<u32>): (r: seq<Input>)
    ensures |r| == |times|
  {
    if times == [] then [] else [Input(true, times[0])] + Holds(times[1..])
  }

  /** Reducing modulo 2^16 before an addition does not change the reduced sum. */
  lemma ModAddU16(a: nat, b: nat)
    ensures ((a % U16) + b) % U16 == (a + b) % U16
  {
    var q := a / U16;
    assert a == q * U16 + a % U16;
    assert a + b == (a % U16 + b) + q * U16;
  }

  /** One repeat tick of a long press: a fresh period has elapsed while still pressed. */
  lemma HoldStep(m: Machine, keyId: u16, param: Option<Param>, t: u32)
    requires param.Some?
    requires m.state == LongPress && Settled(m)
    requires ElapsedMs(t, m.entryTime) > param.value.longPressPeriodMs as int
    ensures var s := Step(m, keyId, param, true, t);
      var c := (m.longPressCount + 1) % U16;
      && s.m == Machine(LongPress, LongPress, t, Grow(m.bits), c)
      && s.emitted == Some(Result(EventLongPress, keyId, c, Grow(m.bits)))
  {
  }

  /**
   * Holding a long press through `n` repeat periods: the machine stays in
   * LongPress, the 16-bit counter rises by `n`, each repeat reports a
   * LONG_PRESS result with the running count, and the signature grows at
   * most once, whatever `n` is.
   */
  lemma {:induction false} HoldRepeats(m: Machine, keyId: u16, param: Option<Param>, times: seq<u32>)
    requires param.Some?
    requires m.state == LongPress && Settled(m)
    requires PeriodsElapse(m.entryTime, times, param.value.longPressPeriodMs)
    ensures var r := Run(m, keyId, param, Holds(times));
      && r.m.state == LongPress && Settled(r.m)
      && r.m.longPressCount == (m.longPressCount + |times|) % U16
      && r.m.bits == (if times == [] then m.bits else Grow(m.bits))
      && r.m.entryTime == (if times == [] then m.entryTime else times[|times| - 1])
      && forall j :: 0 <= j < |times| ==>
           r.events[j] == Some(Result(EventLongPress, keyId, (m.longPressCount + j + 1) % U16, Grow(m.bits)))
    decreases |times|
  {
    if times != [] {
      var x := Input(true, times[0]);
      var rest := times[1..];
      assert Holds(times) == [x] + Holds(rest);
      var s := Step(m, keyId, param, true, times[0]);
      HoldStep(m, keyId, param, times[0]);
      HoldRepeats(s.m, keyId, param, rest);
      Run1(m, keyId, param, x);
      RunAppend(m, keyId, param, [x], Holds(rest));
      GrowIdempotent(m.bits);
      ModAddU16(m.longPressCount + 1, |rest|);
      var r := Run(m, keyId, param, Holds(times));
      var rr := Run(s.m, keyId, param, Holds(rest));
      assert r.events == [s.emitted] + rr.events;
      forall j | 0 <= j < |times|
        ensures r.events[j] == Some(Result(EventLongPress, keyId, (m.longPressCount + j + 1) % U16, Grow(m.bits)))
      {
        if j > 0 {
          assert r.events[j] == rr.events[j - 1];
          ModAddU16(m.longPressCount + 1, j);
        }
      }
    }
  }

  // ---------------------------------------------------------------------------
  // Documented signatures
  // ---------------------------------------------------------------------------

  /**
   * Single click: from an idle button with an empty signature, one short
   * press and release followed by the time window running out ends in a
   * FINISH result with key value 0b010 and leaves the button idle and empty.
   */
  lemma SingleClick(m: Machine, keyId: u16, param: Option<Param>, t1: u32, t2: u32, t3: Input, t4: u32, t5: Input)
    requires param.Some?
    requires m.state == Idle && m.bits == NONE_PRESS_KV
    requires ElapsedMs(t2, t1) <= param.value.longPressStartMs as int
    requires ElapsedMs(t4, t3.now) > param.value.timeWindowMs as int
    ensures var r := Run(m, keyId, param, [Input(true, t1), Input(false, t2), t3, Input(false, t4), t5]);
      && r.events[|r.events| - 1] == Some(Result(EventFinish, keyId, 0, SINGLE_CLICK_KV))
      && r.m.state == Idle && r.m.bits == NONE_PRESS_KV
  {
    var a := [Input(true, t1), Input(false, t2), t3];
    var b := [Input(false, t4), t5];
    assert a + b == [Input(true, t1), Input(false, t2), t3, Input(false, t4), t5];
    ClickPhase(m, keyId, param, t1, t2, t3);
    var ma := Run(m, keyId, param, a).m;
    WindowClosePhase(ma, keyId, param, t4, t5);
    RunAppend(m, keyId, param, a, b);
  }

  /**
   * Double click: a short click, a new press inside the time window (seen on
   * two ticks: one returns to Idle, the next registers the press), a second
   * short release, and the window running out give a FINISH result with key
   * value 0b01010.
   */
  lemma DoubleClick(m: Machine, keyId: u16, param: Option<Param>,
                    t1: u32, t2: u32, t3: Input, t4: u32, t5: u32, t6: u32, t7: Input, t8: u32, t9: Input)
    requires param.Some?
    requires m.state == Idle && m.bits == NONE_PRESS_KV
    requires ElapsedMs(t2, t1) <= param.value.longPressStartMs as int
    requires ElapsedMs(t6, t5) <= param.value.longPressStartMs as int
    requires ElapsedMs(t8, t7.now) > param.value.timeWindowMs as int
    ensures var r := Run(m, keyId, param,
              [Input(true, t1), Input(false, t2), t3, Input(true, t4),
               Input(true, t5), Input(false, t6), t7, Input(false, t8), t9]);
      && r.events[|r.events| - 1] == Some(Result(EventFinish, keyId, 0, DOUBLE_CLICK_KV))
      && r.m.state == Idle && r.m.bits == NONE_PRESS_KV
  {
    var a := [Input(true, t1), Input(false, t2), t3];
    var b := [Input(true, t4)];
    var c := [Input(true, t5), Input(false, t6), t7];
    var d := [Input(false, t8), t9];
    assert a + (b + (c + d)) == [Input(true, t1), Input(false, t2), t3, Input(true, t4),
                                 Input(true, t5), Input(false, t6), t7, Input(false, t8), t9];
    ClickPhase(m, keyId, param, t1, t2, t3);
    var ma := Run(m, keyId, param, a).m;
    RepressPhase(ma, keyId, param, t4);
    var mb := Run(ma, keyId, param, b).m;
    ClickPhase(mb, keyId, param, t5, t6, t7);
    var mc := Run(mb, keyId, param, c).m;
    WindowClosePhase(mc, keyId, param, t8, t9);
    RunAppend(mc, keyId, param, c, d);
    RunAppend(mb, keyId, param, c, d);
    RunAppend(ma, keyId, param, b, c + d);
    RunAppend(m, keyId, param, a, b + (c + d));
  }

  /**
   * Long press start: holding from an idle button with an empty signature
   * past the start time reports LONG_PRESS with key value 0b011 and a zero
   * counter, and leaves the machine in LongPress holding that signature.
   */
  lemma LongPressStart(m: Machine, keyId: u16, param: Option<Param>, t1: u32, t2: u32)
    requires param.Some?
    requires m.state == Idle && m.bits == NONE_PRESS_KV
    requires ElapsedMs(t2, t1) > param.value.longPressStartMs as int
    ensures var r := Run(m, keyId, param, [Input(true, t1), Input(true, t2)]);
      && r.events[1] == Some(Result(EventLongPress, keyId, 0, LONG_PRESS_START_KV))
      && r.m.state == LongPress && Settled(r.m)
      && r.m.bits == LONG_PRESS_START_KV && r.m.entryTime == t2
  {
    LongStartPhase(m, keyId, param, t1, Input(true, t2));
    assert AppendBit(AppendBit(NONE_PRESS_KV, 1), 1) == LONG_PRESS_START_KV;
  }

  /**
   * Long press hold: each further period held after the start reports
   * LONG_PRESS with key value 0b0111 and the running counter.
   */
  lemma LongPressHold(m: Machine, keyId: u16, param: Option<Param>, times: seq<u32>)
    requires param.Some?
    requires m.state == LongPress && Settled(m) && m.bits == LONG_PRESS_START_KV && m.longPressCount == 0
    requires times != [] && PeriodsElapse(m.entryTime, times, param.value.longPressPeriodMs)
    ensures var r := Run(m, keyId, param, Holds(times));
      && (forall j :: 0 <= j < |times| ==>
            r.events[j] == Some(Result(EventLongPress, keyId, (j + 1) % U16, LONG_PRESS_HOLD_KV)))
      && r.m.state == LongPress && Settled(r.m) && r.m.bits == LONG_PRESS_HOLD_KV
  {
    HoldRepeats(m, keyId, param, times);
    assert Grow(LONG_PRESS_START_KV) == LONG_PRESS_HOLD_KV;
  }

  /** Long press hold end: releasing after a hold reports RELEASE with key value 0b01110. */
  lemma LongPressHoldEnd(m: Machine, keyId: u16, param: Option<Param>, t1: u32, t2: Input)
    requires param.Some?
    requires m.state == LongPress && m.bits == LONG_PRESS_HOLD_KV
    ensures var r := Run(m, keyId, param, [Input(false, t1), t2]);
      r.events[1] == Some(Result(EventRelease, keyId, 0, LONG_PRESS_HOLD_END_KV))
  {
    LongReleasePhase(m, keyId, param, t1, t2);
    assert AppendBit(LONG_PRESS_HOLD_KV, 0) == LONG_PRESS_HOLD_END_KV;
  }

  /**
   * Single click then long press: a short click, a new press inside the time
   * window held past the start time reports LONG_PRESS with key value 0b01011.
   */
  lemma SingleClickThenLongPress(m: Machine, keyId: u16, param: Option<Param>,
                                 t1: u32, t2: u32, t3: Input, t4: u32, t5: u32, t6: Input)
    requires param.Some?
    requires m.state == Idle && m.bits == NONE_PRESS_KV
    requires ElapsedMs(t2, t1) <= param.value.longPressStartMs as int
    requires ElapsedMs(t6.now, t5) > param.value.longPressStartMs as int
    ensures var r := Run(m, keyId, param, [Input(true, t1), Input(false, t2), t3, Input(true, t4), Input(true, t5), t6]);
      r.events[|r.events| - 1] == Some(Result(EventLongPress, keyId, 0, SINGLE_CLICK_THEN_LONG_PRESS_KV))
  {
    var a := [Input(true, t1), Input(false, t2), t3];
    var b := [Input(true, t4)];
    var c := [Input(true, t5), t6];
    assert a + (b + c) == [Input(true, t1), Input(false, t2), t3, Input(true, t4), Input(true, t5), t6];
    ClickPhase(m, keyId, param, t1, t2, t3);
    var ma := Run(m, keyId, param, a).m;
    RepressPhase(ma, keyId, param, t4);
    var mb := Run(ma, keyId, param, b).m;
    LongStartPhase(mb, keyId, param, t5, t6);
    RunAppend(ma, keyId, param, b, c);
    RunAppend(m, keyId, param, a, b + c);
  }

  /**
   * Double click then long press: two short clicks and a third press held
   * past the start time report LONG_PRESS with key value 0b0101011.
   */
  lemma DoubleClickThenLongPress(m: Machine, keyId: u16, param: Option<Param>,
                                 t1: u32, t2: u32, t3: Input, t4: u32,
                                 t5: u32, t6: u32, t7: Input, t8: u32,
                                 t9: u32, t10: Input)
    requires param.Some?
    requires m.state == Idle && m.bits == NONE_PRESS_KV
    requires ElapsedMs(t2, t1) <= param.value.longPressStartMs as int
    requires ElapsedMs(t6, t5) <= param.value.longPressStartMs as int
    requires ElapsedMs(t10.now, t9) > param.value.longPressStartMs as int
    ensures var r := Run(m, keyId, param,
              [Input(true, t1), Input(false, t2), t3, Input(true, t4),
               Input(true, t5), Input(false, t6), t7, Input(true, t8),
               Input(true, t9), t10]);
      r.events[|r.events| - 1] == Some(Result(EventLongPress, keyId, 0, DOUBLE_CLICK_THEN_LONG_PRESS_KV))
  {
    var a := [Input(true, t1), Input(false, t2), t3];
    var b := [Input(true, t4)];
    var c := [Input(true, t5), Input(false, t6), t7];
    var d := [Input(true, t8)];
    var e := [Input(true, t9), t10];
    assert a + (b + (c + (d + e))) ==
      [Input(true, t1), Input(false, t2), t3, Input(true, t4),
       Input(true, t5), Input(false, t6), t7, Input(true, t8),
       Input(true, t9), t10];
    ClickPhase(m, keyId, param, t1, t2, t3);
    var ma := Run(m, keyId, param, a).m;
    RepressPhase(ma, keyId, param, t4);
    var mb := Run(ma, keyId, param, b).m;
    ClickPhase(mb, keyId, param, t5, t6, t7);
    var mc := Run(mb, keyId, param, c).m;
    RepressPhase(mc, keyId, param, t8);
    var md := Run(mc, keyId, param, d).m;
    LongStartPhase(md, keyId, param, t9, t10);
    RunAppend(mc, keyId, param, d, e);
    RunAppend(mb, keyId, param, c, d + e);
    RunAppend(ma, keyId, param, b, c + (d + e));
    RunAppend(m, keyId, param, a, b + (c + (d + e)));
  }
}
