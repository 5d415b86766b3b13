# BitsButton gesture engine in Dafny

This project models the core of BitsButton, a C library for embedded
button handling. An application calls `bits_button_ticks` every 5 ms. Each
call samples every button pin into a bit mask and applies a mask-level
debounce of 40 ms. It then steps a small state machine per button. Each
machine grows a gesture "signature" (`state_bits`): bit 1 is appended for a
press or a long-press start, bit 0 for a release. The signature is reported
as PRESSED, LONG_PRESS, RELEASE and FINISH results.

Combo buttons are chords of single buttons. Their member key ids are
resolved into a mask when `bits_button_init` runs. Each tick they are
stepped before the single buttons, in descending order of member count. A
combo that has its suppress flag and is pressed (or mid-gesture) suppresses
its member buttons for that tick. Results go to an optional callback and,
except RELEASE results, into a ring buffer with one reserved slot. When the
buffer is full, the oldest result is overwritten and an overwrite counter
grows.

The files follow the C source's structure:

- `button_defs.dfy` holds the header's types, constants, event codes and error codes.
- `state_machine.dfy` holds `update_button_state_machine`. `Step` is the value-level transition. `Update` is the field-by-field update of a button struct.
- `gestures.dfy` holds runs of one machine over many ticks and the documented signatures (`BITS_BTN_*_KV`).
- `debounce.dfy` holds the mask-level debounce of `bits_button_ticks`.
- `combo_sort.dfy` holds the in-place insertion sort of the combo indices.
- `dispatch.dfy` is a value-level specification of one dispatch round: combos, the suppression mask, then single buttons.
- `ring_buffer.dfy` holds the result ring buffer as a class over an array, with its ghost contents.
- `engine.dfy` holds the global engine as a class over the application's button arrays. It covers init, tick, dispatch, reporting, reset and result retrieval. It proves the heap-level methods against the value-level specification.

Three behaviours of the code are easy to misread:

- Every combo is stepped on every dispatching tick, whatever the suppression mask holds. Suppression gates only single buttons. So a larger combo does not stop a smaller overlapping combo from reporting in the same tick. `Dispatch.RoundSpec` states this. The suppression mask is the order-free union `Dispatch.Suppression`, so the sort changes only the order in which results are reported.
- The header's note on the result filter says only LONG_PRESS and FINISH results are buffered by default. `bits_btn_report_event` buffers every result except RELEASE, and the model does the same.
- The debounce test at bits_button.c:597-599 multiplies the settled tick count by 5 in `uint32_t`, so the product wraps. After a mask has been stable for 2^32/5 ticks (about 49.7 days), the gate closes again for up to 8 ticks. `Debounce.TickGate` and `Engine.Engine.Sample` keep the wrap; the debounce lemmas assume settled times short enough that it cannot happen.

## Model

| member | source | states |
|---|---|---|
| ButtonDefs.EventCode | bits_button.h:40-45 | Each event's enum value lies in 1..5 and is never 4. |
| ButtonDefs.EventOfCode | bits_button.h:40-45 | A numeric event decodes exactly when it is 1, 2, 3 or 5. |
| ButtonDefs.EventCodeRoundTrip | bits_button.h:40-45 | Decoding an event's code gives back the event, so the codes are distinct. |
| ButtonDefs.ErrorCode | bits_button.h:27-37 | Every error code lies in -8..-1, so it is never BITS_BTN_OK. |
| ButtonDefs.ErrorOfCode | bits_button.h:27-37 | A status decodes to an error exactly when it lies in -8..-1. |
| ButtonDefs.ErrorCodeRoundTrip | bits_button.h:27-37 | Decoding an error's code gives back the error. |
| ButtonDefs.ErrorCodesDistinct | bits_button.h:24-37 | Distinct errors have distinct codes, and 0 (success) is none of them. |
| StateMachine.AppendBit | bits_button.c:279-282 | The new low bit is the appended bit, and the old signature minus its top bit sits one place higher. |
| StateMachine.BitsMatchLongPress | bits_button.c:291-296 | The 3-bit match against 0b011 holds exactly when the signature is 3 modulo 8, i.e. its last three appended bits were 0, 1, 1. |
| StateMachine.Update | bits_button.c:348-458 | The updated struct keeps its id, level and parameters, and its machine and reported result are exactly those of the transition `Step`. |
| StateMachine.StepSettles | bits_button.c:450-457 | With parameters, every tick leaves `last_state` equal to `current_state`. |
| StateMachine.StepWithoutParamIsNoop | bits_button.c:355-356 | A button with a NULL parameter block is not changed and reports nothing. |
| StateMachine.IdleTransitions | bits_button.c:360-372 | From IDLE, a press appends 1, enters PRESSED at the current tick and reports PRESSED with the new signature; otherwise nothing changes. |
| StateMachine.PressedTransitions | bits_button.c:373-390 | From PRESSED, past the long-press start time: append 1, enter LONG_PRESS, zero the counter and report; else a release enters RELEASE silently; else nothing changes. |
| StateMachine.LongPressTransitions | bits_button.c:391-412 | From LONG_PRESS, a release zeroes the counter and enters RELEASE. Each further period increments the 16-bit counter with wrap, appends 1 only while the low bits are 0b011, and reports LONG_PRESS with the count. |
| StateMachine.ReleaseTransition | bits_button.c:413-423 | RELEASE always appends 0, reports RELEASE and opens the time window at the current tick. |
| StateMachine.ReleaseWindowTransitions | bits_button.c:424-435 | In the window nothing is emitted and the whole machine is determined: a press returns to IDLE at `now` keeping the signature; a timeout enters FINISH; otherwise only `lastState` is refreshed. |
| StateMachine.FinishTransition | bits_button.c:436-444 | FINISH reports the whole signature, clears it and returns to IDLE. |
| Gestures.Run | bits_button.c:348-458 | A run over n ticks reports exactly one optional result per tick. |
| Gestures.RunAppend | bits_button.c:348-458 | A run over two input sequences is the second run started where the first ended. |
| Gestures.ClickPhase | bits_button.c:360-423 | A short press and release from IDLE appends 1 then 0 and reports PRESSED then RELEASE. |
| Gestures.LongStartPhase | bits_button.c:360-385 | A press held past the start time appends 1, 1 and reports PRESSED then LONG_PRESS with count 0. |
| Gestures.LongReleasePhase | bits_button.c:391-423 | Releasing a long press appends 0, zeroes the counter and reports RELEASE. |
| Gestures.RepressPhase | bits_button.c:424-429 | A press inside the time window returns to IDLE keeping the signature, so the gesture continues. |
| Gestures.WindowClosePhase | bits_button.c:430-444 | The window running out reports FINISH with the whole signature, then clears it. |
| Gestures.GrowIdempotent | bits_button.c:402-405 | The conditional append during a hold saturates: applying it twice equals applying it once. |
| Gestures.HoldStep | bits_button.c:397-411 | One repeat period while held reports LONG_PRESS with the incremented counter and the grown signature. |
| Gestures.HoldRepeats | bits_button.c:391-412 | Holding through n periods stays in LONG_PRESS, raises the 16-bit counter by n, reports the running count each time and grows the signature at most once. |
| Gestures.SingleClick | bits_button.h:61-62 | A short click and the window running out report FINISH with 0b010 and leave the button idle and empty. |
| Gestures.DoubleClick | bits_button.h:61-63 | Two short clicks within the window report FINISH with 0b01010. |
| Gestures.LongPressStart | bits_button.h:68 | Holding past the start time reports LONG_PRESS with 0b011 and count 0. |
| Gestures.LongPressHold | bits_button.h:69 | Each further period held reports LONG_PRESS with 0b0111 and the running count. |
| Gestures.LongPressHoldEnd | bits_button.h:70 | Releasing after a hold reports RELEASE with 0b01110. |
| Gestures.SingleClickThenLongPress | bits_button.h:65 | A click, then a press within the window held past the start time, reports LONG_PRESS with 0b01011. |
| Gestures.DoubleClickThenLongPress | bits_button.h:66 | Two clicks, then a held press, report LONG_PRESS with 0b0101011. |
| Debounce.TickGate | bits_button.c:567-602 | The tick advances with 32-bit wrap and the last mask becomes the sample. A changed mask restarts settling at the pre-increment tick and never dispatches; an unchanged one keeps the settling start. |
| Debounce.GateOpensAfterDebounce | bits_button.c:597-602 | With a stable mask, a tick dispatches exactly when at least 8 ticks (40 ms) have passed since the last change, while the millisecond product cannot wrap. |
| Debounce.ElapsedStep | bits_button.c:570-597 | With a stable mask, the settled time grows by one tick per tick, modulo 2^32. |
| Debounce.StableRun | bits_button.c:589-602 | With the mask held, the j-th later tick dispatches exactly when the settled time plus j reaches 8 ticks. |
| Debounce.DispatchResumesAfterDebounce | bits_button.c:589-602 | After a mask change that then holds, the first 8 ticks do not dispatch and every later tick does. |
| Debounce.ChatterNeverDispatches | bits_button.c:589-602 | A mask that changes on every tick never lets a tick dispatch. |
| ComboSort.SortByKeyCount | bits_button.c:494-508 | The in-place insertion sort leaves the array equal to the insertion sort `SortDesc` of its old contents. |
| ComboSort.InsertPass | bits_button.c:496-506 | One outer pass shifts the smaller-count indices right and drops the held index into the gap; the rest of the array is untouched. |
| ComboSort.SortDescStep | bits_button.c:494-508 | Sorting one more element inserts it into the sorted prefix. |
| ComboSort.InsertPermutes | bits_button.c:497-505 | One insertion adds exactly the held index to the multiset. |
| ComboSort.SortPermutes | bits_button.c:494-508 | Sorting is a permutation: no combo index is lost or duplicated. |
| ComboSort.InsertOrdered | bits_button.c:499-505 | Inserting an index larger than all present keeps descending-count, index-stable order. |
| ComboSort.SortIncreasingOrdered | bits_button.c:494-508 | Sorting an increasing index list gives descending key counts, with ties in index order. |
| ComboSort.DispatchOrderSpec | bits_button.c:519-526 | The dispatch order is a permutation of 0..n-1 with more-key combos first and ties in configuration order. |
| Dispatch.CombosUpToCombos | bits_button.c:528-542 | Within the combo loop, each visited combo is stepped once from its state before the round and keeps its configuration; the others are untouched. |
| Dispatch.CombosUpToSuppression | bits_button.c:535-541 | The suppression mask after k iterations is the union of the masks of the visited suppress combos that are pressed or hold a signature after their step. |
| Dispatch.SinglesUpToButtons | bits_button.c:551-565 | Each single button is stepped with its own bit unless its bit is suppressed, in which case it is left alone. |
| Dispatch.StepKeyId | bits_button.c:352-353 | A step reports only results that carry the button's own key id. |
| Dispatch.SinglesUpToEvents | bits_button.c:551-565 | Every result of the single-button loop was emitted by the step of an unsuppressed button, identified by position, and carries its key id. |
| Dispatch.DispatchOrderCovers | bits_button.c:519-526 | The dispatch order visits every combo exactly once. |
| Dispatch.RoundSpec | bits_button.c:516-565 | In one round every combo is stepped with "all members pressed". The suppression mask is exactly the order-free `Suppression`. A single button inside it is left alone; any other is stepped with its own bit. |
| Dispatch.SuppressedReportNothing | bits_button.c:604-608 | Combo results come first, and every later result was emitted by the step of a single button, by position, outside the suppression mask, so a suppressed button reports nothing even if another shares its key id. |
| RingBuffer.CountBelowSize | bits_button.c:90-104 | The two-branch count stays below the array size. It is 0 exactly when the indices are equal, and size-1 exactly when the write index is one behind the read index. |
| RingBuffer.CountAfterWrite | bits_button.c:139-149 | A non-full write grows the count by one. |
| RingBuffer.CountAfterOverwrite | bits_button.c:174-182 | A full overwrite advances both indices and keeps the count. |
| RingBuffer.ResultBuffer.Init | bits_button.c:62-69 | Both indices and the overwrite counter are zero, and the buffer is empty. |
| RingBuffer.ResultBuffer.Clear | bits_button.c:110-116 | Both indices are zero and the buffer is empty; the overwrite counter is kept. |
| RingBuffer.ResultBuffer.Capacity | bits_button.h:268-277 | The usable capacity is the array size minus one. |
| RingBuffer.ResultBuffer.IsEmpty | bits_button.c:71-78 | Equal indices exactly when nothing is stored. |
| RingBuffer.ResultBuffer.IsFull | bits_button.c:80-88 | The write index is one behind the read index exactly when the stored count equals the capacity. |
| RingBuffer.ResultBuffer.Count | bits_button.c:90-104 | The count equals the number of stored results and never exceeds the capacity. |
| RingBuffer.ResultBuffer.Peek | bits_button.h:215-220 | The oldest stored result, without removing it; None when empty. |
| RingBuffer.ResultBuffer.Write | bits_button.c:128-151 | Succeeds exactly when there is room and then appends. A refused write leaves the contents alone and counts one overwrite. |
| RingBuffer.ResultBuffer.WriteOverwrite | bits_button.c:158-184 | Always stores the result. When full it drops the oldest and counts one overwrite; the contents are `Pushed` of the old ones. |
| RingBuffer.ResultBuffer.Read | bits_button.c:191-208 | A FIFO pop: the oldest result, removed; None with nothing changed when empty; the overwrite counter kept. |
| RingBuffer.NewestOfNewest | bits_button.c:158-184 | Keeping the newest k before appending, then the newest k again, is keeping the newest k of everything. |
| RingBuffer.PushedIsNewest | bits_button.c:158-184 | One overwrite push keeps the newest `cap` results. |
| RingBuffer.PushAllKeepsNewest | bits_button.c:158-184 | After any run of overwrite pushes the buffer holds the newest `cap` results in write order, so loss is FIFO. |
| RingBuffer.PushAllWithRoom | bits_button.c:158-184 | While there is room, overwrite pushes lose nothing. |
| RingBuffer.OverflowsAccount | bits_button.c:171-182 | What is stored plus what was overwritten equals everything stored or pushed. |
| RingBuffer.EmptyAndFull | bits_button.c:71-88 | With at least two slots the buffer is never empty and full at once; with one slot it always is. |
| Engine.FirstIndex | bits_button.c:37-49 | The first position holding the key, with no earlier one; -1 exactly when the key is absent. |
| Engine.MaskOfSpec | bits_button.c:239-255 | Resolution succeeds exactly when every member id names a button. The mask then holds exactly the first index of each member id, all below the button count. |
| Engine.MaskOfPrefixNone | bits_button.c:244-252 | Once a prefix of the member ids fails to resolve, the whole combo fails. |
| Engine.ComboPressedIffMembersActive | bits_button.c:467-470 | `(current & combo_mask) == combo_mask` holds exactly when every member's button is active. |
| Engine.FirstUnresolvable | bits_button.c:239-255 | Every combo before the result resolves, and the one at the result (if any) does not. |
| Engine.ConfigCheck | bits_button.h:183-200 | Passes exactly when the config has buttons, a read function, at most 32 buttons and 8 combos, all parameter blocks, and member ids with a nonzero count. -2 comes exactly when buttons or the read function are missing. Each other code comes only when its condition holds. |
| Engine.BufferedSpec | bits_button.c:332-335 | The buffered results are exactly the reported non-RELEASE ones. |
| Engine.BufferedSnoc | bits_button.c:332-335 | Reporting one more result extends the buffered results by it unless it is a RELEASE. |
| Engine.PushAllSnoc | bits_button.c:158-184 | One more overwrite push after a run, with the overflow counted when full. |
| Engine.LogAfterSnoc | bits_button.c:322-340 | Reporting one more result after a sequence. |
| Engine.LogAfterSpec | bits_button.c:322-340 | After reporting a sequence, the callback saw all of it (when registered). The buffer is the overwrite pushes of its non-RELEASE results, and the counter grew by the overflows. |
| Engine.LogAfterKeepsNewest | bits_button.c:322-340 | The buffer keeps the newest `cap` buffered results, and stored plus overwritten accounts for every result pushed. |
| Engine.LogAfterAppend | bits_button.c:322-340 | Reporting a then b is reporting a + b. |
| Engine.LogAfterEmitted | bits_button.c:322-340 | Reporting what one step emitted extends the reported sequence by it. |
| Engine.SortedIndices | bits_button.c:519-526 | The identity index list sorted in place is the dispatch order. |
| Engine.Engine.constructor | bits_button.c:9 | The static engine starts zeroed: no buttons, empty masks, tick 0, no callback. |
| Engine.Engine.Report | bits_button.c:322-340 | A non-RELEASE result is pushed in overwrite mode, and every result goes to the callback trace when a callback is set. |
| Engine.Engine.ReportEmitted | bits_button.c:322-340 | Reports what one step emitted, if anything. |
| Engine.Engine.IndexOfKey | bits_button.c:37-49 | The linear search returns the first index of the key id, or -1. |
| Engine.Engine.ResolveCombo | bits_button.c:241-254 | Clears the combo's mask and ORs in each member's bit. It succeeds exactly when the combo resolves, with the mask then `Resolved`; other combos are untouched. |
| Engine.Engine.ResolveCombos | bits_button.c:239-255 | Combos before the first unresolvable one get their resolved masks, later ones are untouched, and success means none is unresolvable. |
| Engine.Engine.Init | bits_button.c:211-261 | A missing button array or read function gives -2 with nothing changed. Otherwise the engine is zeroed and filled in and the combos are resolved. -1 leaves the buffer alone; success resets the buffer and returns 0. |
| Engine.Engine.InitConfig | bits_button.h:183-200 | A failing `ConfigCheck` returns its code and changes nothing. A passing config is initialised as by `Init`, with the same zeroed state, resolved masks, status and buffer reset. |
| Engine.Engine.BuildMask | bits_button.c:574-586 | Bit i is set exactly when button i reads its active level. |
| Engine.Engine.DispatchCombo | bits_button.c:528-542 | One combo-loop iteration keeps the combo array and suppression mask equal to the value-level `CombosUpTo`, and the log equal to reporting its results in order. |
| Engine.Engine.DispatchCombos | bits_button.c:516-543 | Steps the combos in dispatch order. The combo array, the suppression mask and the log match the value-level combo loop. |
| Engine.Engine.DispatchInOrder | bits_button.c:528-542 | After the loop over the sorted index list, the combo array and suppression mask are those of the value-level combo loop, and the log is its results reported in order. |
| Engine.Engine.DispatchSingle | bits_button.c:553-564 | One single-button iteration keeps the button array equal to `SinglesUpTo`, and the log equal to reporting its results in order. |
| Engine.Engine.DispatchSingles | bits_button.c:551-565 | The button array is that of the value-level single-button loop, and the log is its results reported in order. |
| Engine.Engine.Sample | bits_button.c:567-602 | Samples the active mask and advances the clock as `TickGate` does; dispatches exactly when `TickGate` opens. |
| Engine.Engine.DispatchAll | bits_button.c:604-608 | Combos then singles: the arrays become `DispatchRound`'s, and the log is its results reported in order. |
| Engine.Engine.Tick | bits_button.c:567-609 | The clock follows `TickGate`. A tick that does not dispatch changes no button, callback trace or buffer; one that does makes the arrays and the log those of `DispatchRound` at the incremented tick. |
| Engine.Engine.ResetStates | bits_button.h:222-228 | Every single and combo button gets the all-zero idle machine and keeps its configuration. |
| Engine.Engine.GetKeyResult | bits_button.c:268-271 | Takes the oldest buffered result, or None when there is none; the overwrite counter is kept. |
| Engine.Engine.PeekKeyResult | bits_button.h:215-220 | The oldest buffered result, left in place; None when there is none. |

## Left out

- Atomic loads, stores and memory orderings of the ring buffer are not modelled (bits_button.c:15-19, 62-208). The buffer is modelled for a single thread, so concurrent producer and consumer access is not covered.
- Debug output (`debug_printf`, `debug_print_binary`) is I/O and is left out.
- The result callback is not called. Whether one is registered is a boolean, and the results it would receive are the ghost trace `reported` (bits_button.c:337-338).
- Reading a GPIO level through `read_button_level_func` is a foreign call. It becomes the `levels` input of `Tick`, one level per button (bits_button.c:578).
- The 32-bit `button_mask_type_t` is modelled as a set of bit positions. More than 32 buttons would make the shift at bits_button.c:582 undefined behaviour. That case is excluded by `Engine.Engine.Init`'s requires and by `Engine.Engine.Valid`, not modelled.
- A NULL or too-short `key_single_ids` array with a nonzero `key_count` is read out of bounds by the seven-argument init. That case is excluded by `Engine.Engine.Init`'s requires (`Readable`). `Engine.Engine.InitConfig` accepts a NULL array and reports -8 for it.
- The build without `BITS_BTN_BUFFER_SIZE` is not modelled: no buffer, capacity 0 (bits_button.c:11, 257-259, 332-335; bits_button.h:275). The model always has a buffer of at least one slot.
- The user buffer operations (`bits_btn_buffer_ops_t`, `bits_button_set_buffer_ops`) and their error -4 are not modelled. The model always uses the built-in ring buffer.
- The result filter hook `bits_btn_register_result_filter_callback` is not modelled. Its note says the default writes only LONG_PRESS and FINISH. The model follows bits_button.c:333, which buffers every result except RELEASE. So after a click the head of the queue is the PRESSED result, not the FINISH result that test/cases/basic/test_peek_functionality.c:59-61 expects there.
- NULL `result` pointers (bits_button.c:132, 162, 326) cannot occur in the model: results are values.
- A NULL configuration pointer to the configuration-struct init is not modelled. `Engine.Engine.InitConfig` takes the configuration's fields directly.
- `Engine.ConfigCheck` checks -2 first, then -5, -3, -6, -7 and -8. The header lists these codes but not their order, so the order of -5/-3/-6/-7/-8 is a choice of this model.
- The configuration-struct init of bits_button.h:183-200 has no body among the sources. It is modelled as the checks of `Engine.ConfigCheck` followed by the seven-argument init of bits_button.c:211-261.
- `bits_button_peek_key_result`, `bits_button_reset_states` and `get_bits_btn_buffer_capacity` are declared in bits_button.h but have no body among the sources. `Engine.Engine.PeekKeyResult`, `Engine.Engine.ResetStates` and `RingBuffer.ResultBuffer.Capacity` follow their header comments. `Engine.Engine.ResetStates` resets only the button machines, not the engine's masks or tick.
- The values of the `BTN_STATE_*` constants are not in the sources. They are inferred from `result.event = button->current_state` and the event enum (PRESSED 1, LONG_PRESS 2, RELEASE 3, FINISH 5), giving IDLE 0 and RELEASE_WINDOW 4. The `default:` branch (bits_button.c:445-446) is unreachable because the states are a datatype.
- The header's `get_bits_btn_buffer_used_count` is `get_bits_btn_buffer_count` in bits_button.c:90. `RingBuffer.ResultBuffer.Count` models the C body.
- RingBuffer.ResultBuffer.WriteOverwrite: the overwrite counter is an unbounded `nat`; the source's `atomic_size_t` (bits_button.c:19, incremented at :175) wraps at SIZE_MAX.
- RingBuffer.ResultBuffer.Write: the overwrite counter is an unbounded `nat`; the source's `atomic_size_t` (bits_button.c:19, incremented at :142) wraps at SIZE_MAX.
- `get_bits_btn_overwrite_count` (bits_button.c:118-121) is a plain read of the `overwriteCount` field and has no member of its own.
- The `int16_t j` of the insertion sort is modelled as an unbounded integer. With at most 8 combos it cannot overflow.
- `__popcount` and the `#if 0` helper `check_is_repeat_click_mode` are unused by the core and left out.
- The single buttons' and combos' structs are values in arrays. The model updates a struct by writing back the value computed by `StateMachine.Update`, so aliasing between a button and a combo's embedded button is not modelled (the source has none).
- The simulator, examples and tests are not modelled.
