/**
 * The per-button gesture state machine: the bit helpers that grow a gesture
 * signature, the transition function for one tick, and the update of a
 * button struct that carries it out field by field.
 */
module StateMachine {
  import opened ButtonDefs

  /** Appends one bit at the low end of a 32-bit signature; the top bit falls off. */
  function AppendBit(bits: bv32, bit: bv32): (r: bv32)
    requires bit <= 1
    ensures r & 1 == bit
    ensures r >> 1 == bits & 0x7FFF_FFFF
  {
    (bits << 1) | bit
  }

  /** Whether the low `n` bits of `bits` equal `target`. */
  function BitsMatch(bits: bv32, target: bv32, n: bv32): (r: bool)
    requires n < 32
  {
    bits & (((1 as bv32) << n) - 1) == target
  }

  /**
   * The one match the machine makes, three bits against 0b011: it holds
   * exactly when the signature's last three appended bits were 0, 1, 1
   * (a release followed by two presses), i.e. its value modulo 8 is 3.
   */
  lemma BitsMatchLongPress(bits: bv32)
    ensures BitsMatch(bits, 3, 3) <==> bits % 8 == 3
    ensures BitsMatch(bits, 3, 3) <==> bits == AppendBit(AppendBit(AppendBit(bits >> 3, 0), 1), 1)
  {
  }

  /** The machine's states; the numbering of the source is IDLE = 0 up to FINISH = 5. */
  datatype State = Idle | Pressed | LongPress | Release | ReleaseWindow | Finish

  /** The mutable part of a button, as a value. */
  datatype Machine = Machine(
    state: State,
    lastState: State,
    entryTime: u32,
    bits: bv32,
    longPressCount: u16)

  /** The all-zero machine: what the static initialiser and a reset leave behind. */
  const ZERO: Machine := Machine(Idle, Idle, 0, 0, 0)

  /** Ticks elapsed since `since`, with 32-bit unsigned wrap-around. */
  function Elapsed(now: u32, since: u32): u32
  {
    (now - since) % U32
  }

  /** Elapsed ticks converted to milliseconds in 32-bit unsigned arithmetic. */
  function ElapsedMs(now: u32, since: u32): u32
  {
    (Elapsed(now, since) * TICKS_INTERVAL_MS) % U32
  }

  /** The outcome of one tick: the new machine and the result reported, if any. */
  datatype StepResult = StepResult(m: Machine, emitted: Option<Result>)

  /**
   * One tick of the state machine of a button with identifier `keyId` and
   * parameters `param`, given whether it is pressed and the current tick.
   * A missing parameter block makes the tick a no-op.
   */
  function Step(m: Machine, keyId: u16, param: Option<Param>, pressed: bool, now: u32): StepResult
  {
    if param.None? then StepResult(m, None)
    else
      var p := param.value;
      var ms := ElapsedMs(now, m.entryTime);
      var r :=
        match m.state
        case Idle =>
          if pressed then
            var b := AppendBit(m.bits, 1);
            StepResult(m.(state := Pressed, entryTime := now, bits := b), Some(Result(EventPressed, keyId, 0, b)))
          else StepResult(m, None)
        case Pressed =>
          if ms > p.longPressStartMs as int then
            var b := AppendBit(m.bits, 1);
            StepResult(m.(state := LongPress, entryTime := now, bits := b, longPressCount := 0),
                       Some(Result(EventLongPress, keyId, 0, b)))
          else if !pressed then StepResult(m.(state := Release), None)
          else StepResult(m, None)
        case LongPress =>
          if !pressed then StepResult(m.(state := Release, longPressCount := 0), None)
          else if ms > p.longPressPeriodMs as int then
            var c := (m.longPressCount + 1) % U16;
            var b := if BitsMatch(m.bits, 3, 3) then AppendBit(m.bits, 1) else m.bits;
            StepResult(m.(entryTime := now, longPressCount := c, bits := b), Some(Result(EventLongPress, keyId, c, b)))
          else StepResult(m, None)
        case Release =>
          var b := AppendBit(m.bits, 0);
          StepResult(m.(state := ReleaseWindow, entryTime := now, bits := b), Some(Result(EventRelease, keyId, 0, b)))
        case ReleaseWindow =>
          if pressed then StepResult(m.(state := Idle, entryTime := now), None)
          else if ms > p.timeWindowMs as int then StepResult(m.(state := Finish), None)
          else StepResult(m, None)
        case Finish =>
          StepResult(m.(state := Idle, bits := 0), Some(Result(EventFinish, keyId, 0, m.bits)));
      StepResult(r.m.(lastState := r.m.state), r.emitted)
  }

  /**
   * A single button or the embedded button of a combo (`button_obj_t`), as
   * the struct an application's button array holds: key id, active level,
   * parameter block (None for a NULL pointer) and the machine state.
   */
  datatype Button = Button(keyId: u16, activeLevel: Level, param: Option<Param>, m: Machine)

  /**
   * `update_button_state_machine`: advances the machine of button `b` by one
   * tick at time `now`, returning the updated struct and the result it
   * reports on this tick, if any; the configuration fields are unchanged.
   */
  method Update(b: Button, pressed: bool, now: u32) returns (b': Button, emitted: Option<Result>)
    ensures b' == b.(m := b'.m) && StepResult(b'.m, emitted) == Step(b.m, b.keyId, b.param, pressed, now)
  {
    b', emitted := b, None;
    if b.param.None? {
      return;
    }
    var p := b.param.value;
    var currentState, lastState, stateEntryTime, stateBits, longPressCount :=
      b.m.state, b.m.lastState, b.m.entryTime, b.m.bits, b.m.longPressCount;
    var timeDiff := ElapsedMs(now, stateEntryTime);
    match currentState {
      case Idle =>
        if pressed {
          stateBits := AppendBit(stateBits, 1);
          currentState := Pressed;
          stateEntryTime := now;
          emitted := Some(Result(EventPressed, b.keyId, 0, stateBits));
        }
      case Pressed =>
        if timeDiff > p.longPressStartMs as int {
          stateBits := AppendBit(stateBits, 1);
          currentState := LongPress;
          stateEntryTime := now;
          longPressCount := 0;
          emitted := Some(Result(EventLongPress, b.keyId, 0, stateBits));
        } else if !pressed {
          currentState := Release;
        }
      case LongPress =>
        if !pressed {
          longPressCount := 0;
          currentState := Release;
        } else if timeDiff > p.longPressPeriodMs as int {
          stateEntryTime := now;
          longPressCount := (longPressCount + 1) % U16;
          if BitsMatch(stateBits, 3, 3) {
            stateBits := AppendBit(stateBits, 1);
          }
          emitted := Some(Result(EventLongPress, b.keyId, longPressCount, stateBits));
        }
      case Release =>
        stateBits := AppendBit(stateBits, 0);
        emitted := Some(Result(EventRelease, b.keyId, 0, stateBits));
        currentState := ReleaseWindow;
        stateEntryTime := now;
      case ReleaseWindow =>
        if pressed {
          currentState := Idle;
          stateEntryTime := now;
        } else if timeDiff > p.timeWindowMs as int {
          currentState := Finish;
        }
      case Finish =>
        emitted := Some(Result(EventFinish, b.keyId, 0, stateBits));
        stateBits := 0;
        currentState := Idle;
    }
    if lastState != currentState {
      lastState := currentState;
    }
    b' := b.(m := Machine(currentState, lastState, stateEntryTime, stateBits, longPressCount));
  }

  /** A machine whose last state agrees with its current state, as every tick leaves it. */
  predicate Settled(m: Machine)
  {
    m.lastState == m.state
  }

  /** With a parameter block, every tick leaves the machine settled. */
  lemma StepSettles(m: Machine, keyId: u16, p: Param, pressed: bool, now: u32)
    ensures Settled(Step(m, keyId, Some(p), pressed, now).m)
  {
  }

  /** Without a parameter block a tick changes nothing and reports nothing. */
  lemma StepWithoutParamIsNoop(m: Machine, keyId: u16, pressed: bool, now: u32)
    ensures Step(m, keyId, None, pressed, now) == StepResult(m, None)
  {
  }

  /**
   * Idle: a press appends bit 1, enters Pressed at `now` and reports a PRESSED
   * result carrying the new signature; no press leaves the machine idle.
   */
  lemma IdleTransitions(m: Machine, keyId: u16, p: Param, pressed: bool, now: u32)
    requires m.state == Idle
    ensures var r := Step(m, keyId, Some(p), pressed, now);
      if pressed then
        var b := AppendBit(m.bits, 1);
        && r.m == Machine(Pressed, Pressed, now, b, m.longPressCount)
        && r.emitted == Some(Result(EventPressed, keyId, 0, b))
      else r.m == m.(lastState := Idle) && r.emitted == None
  {
  }

  /**
   * Pressed: once held longer than the long-press start time the machine
   * enters LongPress, appends bit 1, zeroes the repeat counter and reports a
   * LONG_PRESS result; before that, a release enters Release silently.
   */
  lemma PressedTransitions(m: Machine, keyId: u16, p: Param, pressed: bool, now: u32)
    requires m.state == Pressed
    ensures var r := Step(m, keyId, Some(p), pressed, now);
      if ElapsedMs(now, m.entryTime) > p.longPressStartMs as int then
        var b := AppendBit(m.bits, 1);
        && r.m == Machine(LongPress, LongPress, now, b, 0)
        && r.emitted == Some(Result(EventLongPress, keyId, 0, b))
      else if !pressed then
        r.m == m.(state := Release, lastState := Release) && r.emitted == None
      else r.m == m.(lastState := Pressed) && r.emitted == None
  {
  }

  /**
   * LongPress: a release zeroes the counter and enters Release; each elapsed
   * period increments the counter (16-bit) and appends bit 1 only while the
   * low three bits read 0b011, reporting a LONG_PRESS result with the count.
   */
  lemma LongPressTransitions(m: Machine, keyId: u16, p: Param, pressed: bool, now: u32)
    requires m.state == LongPress
    ensures var r := Step(m, keyId, Some(p), pressed, now);
      if !pressed then
        r.m == m.(state := Release, lastState := Release, longPressCount := 0) && r.emitted == None
      else if ElapsedMs(now, m.entryTime) > p.longPressPeriodMs as int then
        var c := (m.longPressCount + 1) % U16;
        var b := if m.bits & 7 == 3 then AppendBit(m.bits, 1) else m.bits;
        && r.m == Machine(LongPress, LongPress, now, b, c)
        && r.emitted == Some(Result(EventLongPress, keyId, c, b))
      else r.m == m.(lastState := LongPress) && r.emitted == None
  {
    assert BitsMatch(m.bits, 3, 3) <==> m.bits & 7 == 3;
  }

  /** Release: unconditionally appends bit 0, reports RELEASE and opens the time window. */
  lemma ReleaseTransition(m: Machine, keyId: u16, p: Param, pressed: bool, now: u32)
    requires m.state == Release
    ensures var r := Step(m, keyId, Some(p), pressed, now);
      var b := AppendBit(m.bits, 0);
      && r.m == Machine(ReleaseWindow, ReleaseWindow, now, b, m.longPressCount)
      && r.emitted == Some(Result(EventRelease, keyId, 0, b))
  {
  }

  /**
   * ReleaseWindow: a new press returns to Idle keeping the signature (so the
   * next click extends it); the window running out enters Finish.
   */
  lemma ReleaseWindowTransitions(m: Machine, keyId: u16, p: Param, pressed: bool, now: u32)
    requires m.state == ReleaseWindow
    ensures var r := Step(m, keyId, Some(p), pressed, now);
      var s := if pressed then Idle
               else if ElapsedMs(now, m.entryTime) > p.timeWindowMs as int then Finish
               else ReleaseWindow;
      var e := if pressed then now else m.entryTime;
      && r.m == m.(state := s, lastState := s, entryTime := e)
      && r.emitted == None
  {
  }

  /**
   * Finish: reports the whole signature in a FINISH result, clears it and
   * returns to Idle, so every gesture cycle starts from an empty signature.
   */
  lemma FinishTransition(m: Machine, keyId: u16, p: Param, pressed: bool, now: u32)
    requires m.state == Finish
    ensures var r := Step(m, keyId, Some(p), pressed, now);
      && r.m == m.(state := Idle, lastState := Idle, bits := 0)
      && r.emitted == Some(Result(EventFinish, keyId, 0, m.bits))
  {
  }
}
