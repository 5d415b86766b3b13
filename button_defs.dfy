/**
 * Types, constants and enumerations of the BitsButton header: fixed-width
 * integers, the result record, the timing parameters, the documented gesture
 * signatures, the error codes and the event codes.
 */
module ButtonDefs {

  /** Fixed-width unsigned integers of the C source, as bounded ints. */
  const U16: int := 0x1_0000
  const U32: int := 0x1_0000_0000
  type u8 = x: int | 0 <= x < 0x100
  type u16 = x: int | 0 <= x < U16
  type u32 = x: int | 0 <= x < U32

  /** A one-bit field (`active_level : 1`). */
  type Level = x: int | 0 <= x <= 1

  /**
   * A button mask (`button_mask_type_t`, 32 bits wide) is modelled by the set
   * of positions of its set bits: `m | (1 << i)` is `m + {i}`, bit `i` set is
   * `i in m`, and `(m & c) == c` is `c <= m`.
   */
  type Mask = set<nat>

  /** Width of the mask type in bytes. */
  const MASK_BYTES: nat := 4
  /** Largest number of single buttons: one mask bit per button. */
  const MAX_BUTTONS: nat := MASK_BYTES * 8
  /** Largest number of combo buttons. */
  const MAX_COMBO_BUTTONS: nat := 8

  /** Timing constants, in milliseconds. */
  const TICKS_INTERVAL_MS: nat := 5
  const DEBOUNCE_TIME_MS: nat := 40
  const SHORT_TIME_MS: u16 := 350
  const LONG_PRESS_START_TIME_MS: u16 := 1000
  const LONG_PRESS_PERIOD_TRIGGER_MS: u16 := 1000
  const TIME_WINDOW_TIME_MS: u16 := 300

  /** Documented gesture signatures (key values); binary form in comments. */
  const NONE_PRESS_KV: bv32 := 0x0                      // 0
  const SINGLE_CLICK_KV: bv32 := 0x2                    // 0b010
  const DOUBLE_CLICK_KV: bv32 := 0xA                    // 0b01010
  const SINGLE_CLICK_THEN_LONG_PRESS_KV: bv32 := 0xB    // 0b01011
  const DOUBLE_CLICK_THEN_LONG_PRESS_KV: bv32 := 0x2B   // 0b0101011
  const LONG_PRESS_START_KV: bv32 := 0x3                // 0b011
  const LONG_PRESS_HOLD_KV: bv32 := 0x7                 // 0b0111
  const LONG_PRESS_HOLD_END_KV: bv32 := 0xE             // 0b01110

  /** Per-button timing parameters (`bits_btn_obj_param_t`). */
  datatype Param = Param(
    shortPressMs: u16,
    longPressStartMs: u16,
    longPressPeriodMs: u16,
    timeWindowMs: u16)

  const DEFAULT_PARAM: Param :=
    Param(SHORT_TIME_MS, LONG_PRESS_START_TIME_MS, LONG_PRESS_PERIOD_TRIGGER_MS, TIME_WINDOW_TIME_MS)

  datatype Option<+T> = None | Some(value: T)

  /** Events carried by a result (`bits_btn_event_t`). */
  datatype Event = EventPressed | EventLongPress | EventRelease | EventFinish

  /** The numeric value of each event in the header enumeration. */
  function EventCode(e: Event): (c: u8)
    ensures 1 <= c <= 5 && c != 4
  {
    match e
    case EventPressed => 1
    case EventLongPress => 2
    case EventRelease => 3
    case EventFinish => 5
  }

  /** Decodes a numeric event value; values outside the enumeration give None. */
  function EventOfCode(c: int): (r: Option<Event>)
    ensures r.Some? <==> c in {1, 2, 3, 5}
  {
    if c == 1 then Some(EventPressed)
    else if c == 2 then Some(EventLongPress)
    else if c == 3 then Some(EventRelease)
    else if c == 5 then Some(EventFinish)
    else None
  }

  /** Each event code decodes back to its event, so the codes are pairwise distinct. */
  lemma EventCodeRoundTrip(e: Event)
    ensures EventOfCode(EventCode(e)) == Some(e)
  {
  }

  /** A gesture result as reported and queued (`bits_btn_result_t`). */
  datatype Result = Result(event: Event, keyId: u16, longPressCount: u16, keyValue: bv32)

  /** Initialisation failures (`bits_btn_error_t` without BITS_BTN_OK). */
  datatype InitError =
    | InvalidComboId
    | InvalidParam
    | TooManyCombos
    | BufferOpsNull
    | TooManyButtons
    | BtnParamNull
    | ComboParamNull
    | ComboKeysInvalid

  const OK: int := 0

  /** The numeric value of each error: always negative, so never BITS_BTN_OK. */
  function ErrorCode(e: InitError): (c: int)
    ensures -8 <= c < OK
  {
    match e
    case InvalidComboId => -1
    case InvalidParam => -2
    case TooManyCombos => -3
    case BufferOpsNull => -4
    case TooManyButtons => -5
    case BtnParamNull => -6
    case ComboParamNull => -7
    case ComboKeysInvalid => -8
  }

  /** Decodes a status value; 0 and unknown values give None. */
  function ErrorOfCode(c: int): (r: Option<InitError>)
    ensures r.Some? <==> -8 <= c <= -1
  {
    if c == -1 then Some(InvalidComboId)
    else if c == -2 then Some(InvalidParam)
    else if c == -3 then Some(TooManyCombos)
    else if c == -4 then Some(BufferOpsNull)
    else if c == -5 then Some(TooManyButtons)
    else if c == -6 then Some(BtnParamNull)
    else if c == -7 then Some(ComboParamNull)
    else if c == -8 then Some(ComboKeysInvalid)
    else None
  }

  /** Every error decodes back from its code: the codes are pairwise distinct. */
  lemma ErrorCodeRoundTrip(e: InitError)
    ensures ErrorOfCode(ErrorCode(e)) == Some(e)
  {
  }

  /** Distinct errors have distinct codes, and success is none of them. */
  lemma ErrorCodesDistinct(e1: InitError, e2: InitError)
    ensures e1 != e2 ==> ErrorCode(e1) != ErrorCode(e2)
    ensures ErrorOfCode(OK) == None
  {
    ErrorCodeRoundTrip(e1);
    ErrorCodeRoundTrip(e2);
  }
}
