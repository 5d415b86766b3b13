/**
 * The button engine (`bits_button_t`): initialisation with combo-id
 * resolution, the periodic tick (mask sampling, mask-level debounce and
 * dispatch of combos and single buttons), event reporting into the result
 * buffer and the user callback, state reset and result retrieval.
 */
module Engine {
  import opened ButtonDefs
  import opened StateMachine
  import opened ComboSort
  import opened Dispatch
  import opened Debounce
  import opened RingBuffer

  // ---------------------------------------------------------------------------
  // Combo member resolution
  // ---------------------------------------------------------------------------

  /** The position of the first button with id `key`, or -1 when there is none. */
  function FirstIndex(ids: seq<u16>, key: u16): (r: int)
    ensures -1 <= r < |ids|
    ensures r == -1 <==> key !in ids
    ensures r >= 0 ==> ids[r] == key && key !in ids[..r]
  {
    if ids == [] then -1
    else if ids[0] == key then 0
    else
      var r := FirstIndex(ids[1..], key);
      assert forall q :: 0 < q <= |ids| ==> ids[..q] == [ids[0]] + ids[1..][..q - 1];
      if r == -1 then -1 else r + 1
  }

  /**
   * The mask the combo loop builds from member ids: the OR of `1 << index`
   * over the members' button indices; None as soon as one id is unknown.
   */
  function MaskOf(members: seq<u16>, ids: seq<u16>): Option<Mask>
    decreases |members|
  {
    if members == [] then Some({})
    else
      var prefix := MaskOf(members[..|members| - 1], ids);
      var idx := FirstIndex(ids, members[|members| - 1]);
      if prefix.None? || idx == -1 then None else Some(prefix.value + {idx})
  }

  /**
   * Resolution succeeds exactly when every member id names a button; the
   * mask then holds the index of the first button with each member id and
   * nothing else, so a combo counts as pressed exactly when all its member
   * buttons are active.
   */
  lemma {:induction false} MaskOfSpec(members: seq<u16>, ids: seq<u16>)
    ensures MaskOf(members, ids).Some? <==> forall j :: 0 <= j < |members| ==> members[j] in ids
    ensures MaskOf(members, ids).Some? ==>
      forall i :: i in MaskOf(members, ids).value <==>
        exists j :: 0 <= j < |members| && i == FirstIndex(ids, members[j])
    ensures MaskOf(members, ids).Some? ==> forall i :: i in MaskOf(members, ids).value ==> i < |ids|
    decreases |members|
  {
    if members != [] {
      var init := members[..|members| - 1];
      MaskOfSpec(init, ids);
      assert forall j :: 0 <= j < |init| ==> init[j] == members[j];
    }
  }

  /** Once a prefix of the members fails to resolve, so do all of them. */
  lemma {:induction false} MaskOfPrefixNone(members: seq<u16>, ids: seq<u16>, j: nat)
    requires j <= |members| && MaskOf(members[..j], ids).None?
    ensures MaskOf(members, ids).None?
    decreases |members| - j
  {
    if j < |members| {
      assert members[..j + 1][..j] == members[..j];
      MaskOfPrefixNone(members, ids, j + 1);
    } else {
      assert members[..j] == members;
    }
  }

  /** A combo counts as pressed exactly when the button of every member id is active. */
  lemma {:induction false} ComboPressedIffMembersActive(members: seq<u16>, ids: seq<u16>, cur: Mask)
    requires MaskOf(members, ids).Some?
    ensures MaskOf(members, ids).value <= cur <==>
      forall j :: 0 <= j < |members| ==> FirstIndex(ids, members[j]) in cur
  {
    MaskOfSpec(members, ids);
    var m := MaskOf(members, ids).value;
    if forall j :: 0 <= j < |members| ==> FirstIndex(ids, members[j]) in cur {
      forall i | i in m ensures i in cur {
        var j :| 0 <= j < |members| && i == FirstIndex(ids, members[j]);
      }
    }
  }

  /** The key ids of a button array, in order. */
  function KeyIds(bs: seq<Button>): seq<u16>
  {
    seq(|bs|, i requires 0 <= i < |bs| => bs[i].keyId)
  }

  /** The member ids the resolution loop reads exist: with a count of zero none are read. */
  predicate Readable(c: Combo)
  {
    c.keyCount == 0 || (c.keyIds.Some? && c.keyCount as int <= |c.keyIds.value|)
  }

  /** The first `key_count` member ids. */
  function Members(c: Combo): seq<u16>
    requires Readable(c)
  {
    if c.keyCount == 0 then [] else c.keyIds.value[..c.keyCount]
  }

  /** Every member id of the combo names a button. */
  predicate Resolvable(c: Combo, ids: seq<u16>)
  {
    Readable(c) && MaskOf(Members(c), ids).Some?
  }

  /** The combo with its mask rebuilt from its member ids. */
  function Resolved(c: Combo, ids: seq<u16>): (r: Combo)
    requires Resolvable(c, ids)
  {
    c.(mask := MaskOf(Members(c), ids).value)
  }

  /** The index of the first combo with an unknown member id; `|cs|` when every id is known. */
  function FirstUnresolvable(cs: seq<Combo>, ids: seq<u16>): (f: nat)
    ensures f <= |cs|
    ensures forall c :: 0 <= c < f ==> Resolvable(cs[c], ids)
    ensures f < |cs| ==> !Resolvable(cs[f], ids)
    decreases |cs|
  {
    if cs == [] || !Resolvable(cs[0], ids) then 0
    else 1 + FirstUnresolvable(cs[1..], ids)
  }

  /**
   * The extra validation of the header's configuration-struct
   * `bits_button_init`, which the seven-argument init of the C file does not
   * perform: a missing button array or read function (-2), more buttons
   * than the mask has bits (-5), more combos than allowed (-3), a single
   * button without parameters (-6), a combo without parameters (-7), and a
   * combo without member ids or with a zero member count (-8). None means
   * the configuration passes on to combo-id resolution.
   */
  function ConfigCheck(bs: Option<seq<Button>>, cs: seq<Combo>, readFn: bool): (r: Option<InitError>)
    ensures r.None? <==>
      && bs.Some? && readFn
      && |bs.value| <= MAX_BUTTONS && |cs| <= MAX_COMBO_BUTTONS
      && (forall i :: 0 <= i < |bs.value| ==> bs.value[i].param.Some?)
      && (forall c :: 0 <= c < |cs| ==> cs[c].btn.param.Some? && cs[c].keyIds.Some? && cs[c].keyCount > 0)
    ensures r == Some(InvalidParam) <==> bs.None? || !readFn
    ensures r == Some(TooManyButtons) ==> |bs.value| > MAX_BUTTONS
    ensures r == Some(TooManyCombos) ==> |cs| > MAX_COMBO_BUTTONS
    ensures r == Some(BtnParamNull) ==> exists i :: 0 <= i < |bs.value| && bs.value[i].param.None?
    ensures r == Some(ComboParamNull) ==> exists c :: 0 <= c < |cs| && cs[c].btn.param.None?
    ensures r == Some(ComboKeysInvalid) ==> exists c :: 0 <= c < |cs| && (cs[c].keyIds.None? || cs[c].keyCount == 0)
    ensures r != Some(InvalidComboId) && r != Some(BufferOpsNull)
  {
    if bs.None? || !readFn then Some(InvalidParam)
    else if |bs.value| > MAX_BUTTONS then Some(TooManyButtons)
    else if |cs| > MAX_COMBO_BUTTONS then Some(TooManyCombos)
    else if exists i :: 0 <= i < |bs.value| && bs.value[i].param.None? then Some(BtnParamNull)
    else if exists c :: 0 <= c < |cs| && cs[c].btn.param.None? then Some(ComboParamNull)
    else if exists c :: 0 <= c < |cs| && (cs[c].keyIds.None? || cs[c].keyCount == 0) then Some(ComboKeysInvalid)
    else None
  }

  /** Bit `i` is set when button `i` reads its active level. */
  function ActiveMask(levels: seq<u8>, bs: seq<Button>): Mask
    requires |levels| == |bs|
  {
    set i: nat | i < |levels| && levels[i] == bs[i].activeLevel
  }

  // ---------------------------------------------------------------------------
  // What reporting leaves in the result buffer
  // ---------------------------------------------------------------------------

  /** The results `bits_btn_report_event` writes to the buffer: all but RELEASE results. */
  function Buffered(evs: seq<Result>): (r: seq<Result>)
    decreases |evs|
  {
    if evs == [] then []
    else
      var last := evs[|evs| - 1];
      Buffered(evs[..|evs| - 1]) + (if last.event == EventRelease then [] else [last])
  }

  /** The buffered results are exactly the reported ones that are not RELEASE results, in order. */
  lemma {:induction false} BufferedSpec(evs: seq<Result>)
    ensures forall e :: e in Buffered(evs) <==> e in evs && e.event != EventRelease
    ensures |Buffered(evs)| <= |evs|
    decreases |evs|
  {
    if evs != [] {
      var last := evs[|evs| - 1];
      BufferedSpec(evs[..|evs| - 1]);
      assert evs == evs[..|evs| - 1] + [last];
    }
  }

  /** Reporting one more result extends the buffered sequence by it unless it is a RELEASE. */
  lemma {:induction false} BufferedSnoc(evs: seq<Result>, x: Result)
    ensures Buffered(evs + [x]) == Buffered(evs) + (if x.event == EventRelease then [] else [x])
  {
    assert (evs + [x])[..|evs|] == evs;
  }

  /** Pushing one more result after a run of pushes. */
  lemma {:induction false} PushAllSnoc(s: seq<Result>, xs: seq<Result>, x: Result, cap: nat)
    requires |s| <= cap
    ensures PushAll(s, xs + [x], cap) == Pushed(PushAll(s, xs, cap), x, cap)
    ensures Overflows(s, xs + [x], cap) == Overflows(s, xs, cap) + (if |PushAll(s, xs, cap)| == cap then 1 else 0)
  {
    assert (xs + [x])[..|xs|] == xs;
  }

  /** What reporting has left behind: the callback trace, the buffered results and the overwrite counter. */
  datatype Log = Log(reported: seq<Result>, contents: seq<Result>, overwrites: nat)

  /**
   * `bits_btn_report_event` on a buffer of capacity `cap`: every result
   * except RELEASE is pushed in overwrite mode, counting one overwrite when
   * the buffer was full; every result goes to the callback, if one is set.
   */
  function Reported(l: Log, x: Result, callback: bool, cap: nat): (l': Log)
    requires |l.contents| <= cap
    ensures |l'.contents| <= cap
  {
    var pushed := x.event != EventRelease;
    Log(l.reported + (if callback then [x] else []),
        if pushed then Pushed(l.contents, x, cap) else l.contents,
        l.overwrites + (if pushed && |l.contents| == cap then 1 else 0))
  }

  /** Reporting `evs` one after another. */
  function LogAfter(l0: Log, evs: seq<Result>, callback: bool, cap: nat): (l: Log)
    requires |l0.contents| <= cap
    ensures |l.contents| <= cap
    decreases |evs|
  {
    if evs == [] then l0
    else Reported(LogAfter(l0, evs[..|evs| - 1], callback, cap), evs[|evs| - 1], callback, cap)
  }

  /** Reporting one more result after `evs`. */
  lemma {:induction false} LogAfterSnoc(l0: Log, evs: seq<Result>, x: Result, callback: bool, cap: nat)
    requires |l0.contents| <= cap
    ensures LogAfter(l0, evs + [x], callback, cap) == Reported(LogAfter(l0, evs, callback, cap), x, callback, cap)
  {
    assert (evs + [x])[..|evs|] == evs;
  }

  /**
   * After reporting `evs`, the callback has seen all of them (when one is
   * registered), the buffer holds what overwrite-mode pushes of the
   * non-RELEASE results leave, and the counter has grown by the pushes that
   * found the buffer full.
   */
  lemma {:induction false} LogAfterSpec(l0: Log, evs: seq<Result>, callback: bool, cap: nat)
    requires |l0.contents| <= cap
    ensures var l := LogAfter(l0, evs, callback, cap);
      && l.reported == l0.reported + (if callback then evs else [])
      && l.contents == PushAll(l0.contents, Buffered(evs), cap)
      && l.overwrites == l0.overwrites + Overflows(l0.contents, Buffered(evs), cap)
    decreases |evs|
  {
    if evs != [] {
      var init, x := evs[..|evs| - 1], evs[|evs| - 1];
      LogAfterSpec(l0, init, callback, cap);
      var before := LogAfter(l0, init, callback, cap);
      var l := LogAfter(l0, evs, callback, cap);
      assert l == Reported(before, x, callback, cap) by {
        assert init + [x] == evs;
      }
      assert l.reported == l0.reported + (if callback then evs else []) by {
        assert init + [x] == evs;
      }
      BufferedSnoc(init, x);
      assert init + [x] == evs;
      if x.event != EventRelease {
        assert Buffered(evs) == Buffered(init) + [x];
        PushAllSnoc(l0.contents, Buffered(init), x, cap);
        assert l.contents == Pushed(before.contents, x, cap);
        assert l.overwrites == before.overwrites + (if |before.contents| == cap then 1 else 0);
      } else {
        assert Buffered(evs) == Buffered(init);
        assert l.contents == before.contents && l.overwrites == before.overwrites;
      }
    }
  }

  /**
   * The buffer keeps the newest `cap` of the buffered results, and nothing
   * pushed goes missing uncounted: what it holds plus what was overwritten
   * is everything it held or was given.
   */
  lemma {:induction false} LogAfterKeepsNewest(l0: Log, evs: seq<Result>, callback: bool, cap: nat)
    requires |l0.contents| <= cap
    ensures var l := LogAfter(l0, evs, callback, cap);
      && l.contents == Newest(l0.contents + Buffered(evs), cap)
      && |l.contents| + l.overwrites == |l0.contents| + l0.overwrites + |Buffered(evs)|
  {
    LogAfterSpec(l0, evs, callback, cap);
    PushAllKeepsNewest(l0.contents, Buffered(evs), cap);
    OverflowsAccount(l0.contents, Buffered(evs), cap);
  }

  /** Reporting `a` then `b` is reporting `a + b`. */
  lemma {:induction false} LogAfterAppend(l0: Log, a: seq<Result>, b: seq<Result>, callback: bool, cap: nat)
    requires |l0.contents| <= cap
    ensures LogAfter(LogAfter(l0, a, callback, cap), b, callback, cap) == LogAfter(l0, a + b, callback, cap)
    decreases |b|
  {
    if b == [] {
      assert a + b == a;
    } else {
      var init, x := b[..|b| - 1], b[|b| - 1];
      LogAfterAppend(l0, a, init, callback, cap);
      assert a + b == (a + init) + [x];
      LogAfterSnoc(l0, a + init, x, callback, cap);
    }
  }

  /** Reporting what one step emitted, if anything. */
  function ReportedOpt(l: Log, o: Option<Result>, callback: bool, cap: nat): (l': Log)
    requires |l.contents| <= cap
    ensures |l'.contents| <= cap
  {
    if o.Some? then Reported(l, o.value, callback, cap) else l
  }

  /** Reporting what one step emitted extends the reported sequence by it. */
  lemma {:induction false} LogAfterEmitted(l0: Log, evs: seq<Result>, o: Option<Result>, callback: bool, cap: nat, prev: Log, l: Log)
    requires |l0.contents| <= cap
    requires prev == LogAfter(l0, evs, callback, cap) && l == ReportedOpt(prev, o, callback, cap)
    ensures l == LogAfter(l0, evs + Emitted(o), callback, cap)
  {
    if o.Some? {
      assert evs + Emitted(o) == evs + [o.value];
      LogAfterSnoc(l0, evs, o.value, callback, cap);
    } else {
      assert evs + Emitted(o) == evs;
    }
  }

  /**
   * The index list of `dispatch_combo_buttons`: the identity `0 .. n - 1`
   * sorted in place by descending key count.
   */
  method SortedIndices(counts: seq<nat>) returns (ord: seq<nat>)
    ensures ord == DispatchOrder(counts)
    ensures |ord| == |counts| && InRange(ord, |counts|)
  {
    var n := |counts|;
    var order := new nat[n];
    var k := 0;
    while k < n
      invariant 0 <= k <= n
      invariant forall q :: 0 <= q < k ==> order[q] == q
    {
      order[k] := k;
      k := k + 1;
    }
    assert order[..] == Iota(n);
    SortByKeyCount(order, counts);
    ord := order[..];
    DispatchOrderSpec(counts);
  }

  /**
   * The global button engine (`bits_btn_entity`) with the ring buffer it
   * reports into. `btns` and `combos` are the application's struct arrays,
   * which the engine updates in place.
   */
  class Engine {
    var btns: array<Button>
    var combos: array<Combo>
    var currentMask: Mask
    var lastMask: Mask
    var stateEntryTime: u32
    var tick: u32
    var hasReadFn: bool
    var hasCallback: bool
    const buffer: ResultBuffer
    /** Every result handed to the user callback, in order. */
    ghost var reported: seq<Result>

    /** The buffer is consistent and every button index fits the 32-bit mask. */
    ghost predicate Valid()
      reads this, buffer, buffer.buf
    {
      buffer.Valid() && btns.Length <= MAX_BUTTONS
    }

    /** The zero-initialised static engine, reporting into `buffer`. */
    constructor (buffer: ResultBuffer)
      requires buffer.Valid()
      ensures Valid() && this.buffer == buffer
      ensures btns.Length == 0 && combos.Length == 0 && currentMask == {} && lastMask == {}
      ensures stateEntryTime == 0 && tick == 0 && !hasReadFn && !hasCallback && reported == []
    {
      this.buffer := buffer;
      btns := new Button[0];
      combos := new Combo[0];
      currentMask, lastMask := {}, {};
      stateEntryTime, tick := 0, 0;
      hasReadFn, hasCallback := false, false;
      reported := [];
    }

    function Clock(): Timing
      reads this`tick, this`lastMask, this`stateEntryTime
    {
      Timing(tick, lastMask, stateEntryTime)
    }

    /** The callback trace, the buffered results and the overwrite counter. */
    ghost function CurrentLog(): Log
      reads this`reported, buffer
    {
      Log(reported, buffer.contents, buffer.overwriteCount)
    }

    /** `bits_btn_report_event`. */
    method Report(r: Result)
      requires buffer.Valid()
      modifies this`reported, buffer, buffer.buf
      ensures buffer.Valid()
      ensures CurrentLog() == Reported(old(CurrentLog()), r, hasCallback, buffer.Capacity())
    {
      if r.event != EventRelease {
        var _ := buffer.WriteOverwrite(r);
      }
      if hasCallback {
        reported := reported + [r];
      }
    }

    /** Reports what one step emitted, if anything. */
    method ReportEmitted(o: Option<Result>)
      requires buffer.Valid()
      modifies this`reported, buffer, buffer.buf
      ensures buffer.Valid()
      ensures CurrentLog() == ReportedOpt(old(CurrentLog()), o, hasCallback, buffer.Capacity())
    {
      if o.Some? {
        Report(o.value);
      }
    }

    /** `_get_btn_index_by_key_id`: linear search for the first button with id `key`. */
    method IndexOfKey(key: u16) returns (r: int)
      ensures r == FirstIndex(KeyIds(btns[..]), key)
    {
      ghost var ids := KeyIds(btns[..]);
      var i := 0;
      assert |ids| == btns.Length;
      while i < btns.Length
        invariant 0 <= i <= btns.Length
        invariant key !in ids[..i]
      {
        assert ids[i] == btns[i].keyId;
        if btns[i].keyId == key {
          assert ids[..i + 1] == ids[..i] + [key];
          return i;
        }
        assert ids[..i + 1] == ids[..i] + [btns[i].keyId];
        i := i + 1;
      }
      assert ids[..i] == ids;
      return -1;
    }

    /**
     * The inner loop of `bits_button_init` for combo `i`: the mask is
     * cleared, then the bit of each member's button is ORed in; on the first
     * unknown id it stops with false, leaving the bits found so far.
     */
    method ResolveCombo(i: nat) returns (ok: bool)
      requires i < combos.Length && Readable(combos[i])
      modifies combos
      ensures forall c :: 0 <= c < combos.Length && c != i ==> combos[c] == old(combos[c])
      ensures combos[i] == old(combos[i]).(mask := combos[i].mask)
      ensures ok <==> Resolvable(old(combos[i]), KeyIds(btns[..]))
      ensures ok ==> combos[i] == Resolved(old(combos[i]), KeyIds(btns[..]))
    {
      var combo := combos[i];
      ghost var ids := KeyIds(btns[..]);
      ghost var members := Members(combo);
      combos[i] := combo.(mask := {});
      var j := 0;
      while j < combo.keyCount as int
        invariant 0 <= j <= combo.keyCount as int == |members|
        invariant forall c :: 0 <= c < combos.Length && c != i ==> combos[c] == old(combos[c])
        invariant combos[i] == combo.(mask := combos[i].mask)
        invariant MaskOf(members[..j], ids) == Some(combos[i].mask)
      {
        var idx := IndexOfKey(combo.keyIds.value[j]);
        assert members[..j + 1][..j] == members[..j];
        if idx == -1 {
          assert MaskOf(members[..j + 1], ids).None?;
          MaskOfPrefixNone(members, ids, j + 1);
          return false;
        }
        combos[i] := combos[i].(mask := combos[i].mask + {idx});
        j := j + 1;
      }
      assert members[..j] == members;
      return true;
    }

    /**
     * `bits_button_init`: a missing button array or read function gives -2
     * before anything changes; otherwise the engine is zeroed and filled in,
     * each combo mask is rebuilt from its member ids (-1 on the first unknown
     * id, leaving later combos and the buffer untouched), and finally the
     * buffer is reset and 0 returned.
     */
    method Init(btnArr: Option<array<Button>>, comboArr: array<Combo>, readFn: bool, callback: bool) returns (status: int)
      requires Valid()
      requires btnArr.Some? ==> btnArr.value.Length <= MAX_BUTTONS
      requires forall c :: 0 <= c < comboArr.Length ==> Readable(comboArr[c])
      modifies this, buffer, comboArr
      ensures Valid()
      ensures btnArr.None? || !readFn ==>
        status == ErrorCode(InvalidParam) && unchanged(this) && unchanged(buffer) && unchanged(comboArr)
      ensures btnArr.Some? && readFn ==>
        var ids := KeyIds(btnArr.value[..]);
        var f := FirstUnresolvable(old(comboArr[..]), ids);
        && btns == btnArr.value && combos == comboArr
        && currentMask == {} && lastMask == {} && stateEntryTime == 0 && tick == 0
        && hasReadFn && hasCallback == callback && reported == old(reported)
        && (status == OK <==> f == comboArr.Length)
        && (status != OK ==> status == ErrorCode(InvalidComboId) && unchanged(buffer))
        && (status == OK ==> buffer.contents == [] && buffer.overwriteCount == 0)
        && (forall c :: 0 <= c < f ==> comboArr[c] == Resolved(old(comboArr[c]), ids))
        && (f < comboArr.Length ==> comboArr[f] == old(comboArr[f]).(mask := comboArr[f].mask))
        && (forall c :: f < c < comboArr.Length ==> comboArr[c] == old(comboArr[c]))
    {
      if btnArr.None? || !readFn {
        return ErrorCode(InvalidParam);
      }
      btns, combos := btnArr.value, comboArr;
      currentMask, lastMask := {}, {};
      stateEntryTime, tick := 0, 0;
      hasReadFn, hasCallback := readFn, callback;
      var ok := ResolveCombos();
      if !ok {
        return ErrorCode(InvalidComboId);
      }
      buffer.Init();
      return OK;
    }

    /**
     * The configuration-struct `bits_button_init` of the header: the checks
     * of `ConfigCheck` come first and fail without changing anything; a
     * configuration that passes them is initialised as by `Init`.
     */
    method InitConfig(btnArr: Option<array<Button>>, comboArr: array<Combo>, readFn: bool, callback: bool)
      returns (status: int)
      requires Valid()
      requires forall c :: 0 <= c < comboArr.Length && comboArr[c].keyIds.Some? ==>
        comboArr[c].keyCount as int <= |comboArr[c].keyIds.value|
      modifies this, buffer, comboArr
      ensures Valid()
      ensures var check := ConfigCheck(if btnArr.Some? then Some(btnArr.value[..]) else None, old(comboArr[..]), readFn);
        && (check.Some? ==> status == ErrorCode(check.value) && unchanged(this) && unchanged(buffer) && unchanged(comboArr))
        && (check.None? ==>
              var ids := KeyIds(btnArr.value[..]);
              var f := FirstUnresolvable(old(comboArr[..]), ids);
              && btns == btnArr.value && combos == comboArr
              && currentMask == {} && lastMask == {} && stateEntryTime == 0 && tick == 0
              && hasReadFn && hasCallback == callback && reported == old(reported)
              && (status == OK <==> f == comboArr.Length)
              && (status != OK ==> status == ErrorCode(InvalidComboId) && unchanged(buffer))
              && (status == OK ==> buffer.contents == [] && buffer.overwriteCount == 0)
              && (forall c :: 0 <= c < f ==> comboArr[c] == Resolved(old(comboArr[c]), ids))
              && (f < comboArr.Length ==> comboArr[f] == old(comboArr[f]).(mask := comboArr[f].mask))
              && (forall c :: f < c < comboArr.Length ==> comboArr[c] == old(comboArr[c])))
    {
      var bs := if btnArr.Some? then Some(btnArr.value[..]) else None;
      var check := ConfigCheck(bs, comboArr[..], readFn);
      if check.Some? {
        return ErrorCode(check.value);
      }
      assert forall c :: 0 <= c < comboArr.Length ==> Readable(comboArr[c]) by {
        forall c | 0 <= c < comboArr.Length
          ensures Readable(comboArr[c])
        {
          assert comboArr[..][c] == comboArr[c];
        }
      }
      status := Init(btnArr, comboArr, readFn, callback);
    }

    /**
     * The combo loop of `bits_button_init`: resolves the combos in order and
     * stops at the first one with an unknown member id.
     */
    method ResolveCombos() returns (ok: bool)
      requires forall c :: 0 <= c < combos.Length ==> Readable(combos[c])
      modifies combos
      ensures var ids := KeyIds(btns[..]);
        var f := FirstUnresolvable(old(combos[..]), ids);
        && (ok <==> f == combos.Length)
        && (forall c :: 0 <= c < f ==> combos[c] == Resolved(old(combos[c]), ids))
        && (f < combos.Length ==> combos[f] == old(combos[f]).(mask := combos[f].mask))
        && (forall c :: f < c < combos.Length ==> combos[c] == old(combos[c]))
    {
      ghost var ids := KeyIds(btns[..]);
      ghost var cs0 := combos[..];
      ghost var f := FirstUnresolvable(cs0, ids);
      var i := 0;
      while i < combos.Length
        invariant 0 <= i <= f
        invariant forall c :: 0 <= c < i ==> combos[c] == Resolved(cs0[c], ids)
        invariant forall c :: i <= c < combos.Length ==> combos[c] == cs0[c]
      {
        ok := ResolveCombo(i);
        if !ok {
          return;
        }
        i := i + 1;
      }
      return true;
    }

    /** Builds the active-level mask: bit `i` is set when button `i` reads its active level. */
    method BuildMask(levels: seq<u8>) returns (m: Mask)
      requires |levels| == btns.Length
      ensures m == ActiveMask(levels, btns[..])
    {
      m := {};
      var i := 0;
      while i < btns.Length
        invariant 0 <= i <= btns.Length
        invariant m == set q: nat | q < i && levels[q] == btns[q].activeLevel
      {
        if levels[i] == btns[i].activeLevel {
          m := m + {i};
        }
        i := i + 1;
      }
    }

    /**
     * The state after `i` iterations of the combo loop over `ord`: `cs0` are
     * the combos before the loop, `cur` and `now` the sampled mask and the
     * tick, `l0` the log before the loop and `acc` what the iterations have
     * done.
     */
    ghost predicate CombosAt(ord: seq<nat>, i: nat, supp: Mask, l0: Log,
                             cs0: seq<Combo>, cur: Mask, now: u32, acc: ComboAcc)
      reads this, buffer, buffer.buf, combos
    {
      && buffer.Valid() && InRange(ord, |cs0|) && i <= |ord|
      && cur == currentMask && now == tick
      && acc == CombosUpTo(cs0, ord, cur, now, i)
      && combos[..] == acc.cs && supp == acc.supp
      && |l0.contents| <= buffer.size - 1
      && CurrentLog() == LogAfter(l0, acc.events, hasCallback, buffer.size - 1)
    }

    /**
     * One iteration of `dispatch_combo_buttons`: combo `ord[i]` is stepped
     * with "all members active", what it emits is reported, and its mask is
     * ORed into `supp` when it suppresses.
     */
    method DispatchCombo(ord: seq<nat>, i: nat, supp: Mask, ghost l0: Log,
                         ghost cs0: seq<Combo>, ghost cur: Mask, ghost now: u32, ghost acc: ComboAcc)
      returns (supp': Mask, ghost next: ComboAcc)
      requires i < |ord| && CombosAt(ord, i, supp, l0, cs0, cur, now, acc)
      modifies this`reported, buffer, buffer.buf, combos
      ensures CombosAt(ord, i + 1, supp', l0, cs0, cur, now, next)
    {
      var idx := ord[i];
      var combo := combos[idx];
      var pressed := combo.mask <= currentMask;
      var b, emitted := Update(combo.btn, pressed, tick);
      combos[idx] := combo.(btn := b);
      ghost var before := CurrentLog();
      ReportEmitted(emitted);
      LogAfterEmitted(l0, acc.events, emitted, hasCallback, buffer.size - 1, before, CurrentLog());
      supp' := supp;
      if (pressed || b.m.bits != 0) && combo.suppress {
        supp' := supp + combo.mask;
      }
      next := ComboAcc(combos[..], acc.events + Emitted(emitted), supp');
    }

    /**
     * `dispatch_combo_buttons`: with at least one combo, sorts the combo
     * indices by descending key count and runs the dispatch loop over them.
     */
    method DispatchCombos() returns (supp: Mask, ghost ca: ComboAcc)
      requires buffer.Valid()
      modifies this`reported, buffer, buffer.buf, combos
      ensures buffer.Valid()
      ensures ca == CombosUpTo(old(combos[..]), DispatchOrder(KeyCounts(old(combos[..]))), currentMask, tick, combos.Length)
      ensures combos[..] == ca.cs && supp == ca.supp
      ensures CurrentLog() == LogAfter(old(CurrentLog()), ca.events, hasCallback, buffer.Capacity())
    {
      ghost var l0, cs0 := CurrentLog(), combos[..];
      ghost var cur, now := currentMask, tick;
      DispatchOrderSpec(KeyCounts(cs0));
      if combos.Length == 0 {
        return {}, CombosUpTo(cs0, [], cur, now, 0);
      }
      var ord := SortedIndices(KeyCounts(combos[..]));
      supp, ca := DispatchInOrder(ord, l0, cs0, cur, now);
    }

    /** The loop of `dispatch_combo_buttons` over the sorted index list `ord`. */
    method DispatchInOrder(ord: seq<nat>, ghost l0: Log, ghost cs0: seq<Combo>, ghost cur: Mask, ghost now: u32)
      returns (supp: Mask, ghost acc: ComboAcc)
      requires buffer.Valid() && InRange(ord, |cs0|)
      requires cur == currentMask && now == tick && combos[..] == cs0 && CurrentLog() == l0
      modifies this`reported, buffer, buffer.buf, combos
      ensures buffer.Valid()
      ensures acc == CombosUpTo(cs0, ord, cur, now, |ord|) && combos[..] == acc.cs && supp == acc.supp
      ensures CurrentLog() == LogAfter(l0, acc.events, hasCallback, buffer.Capacity())
    {
      acc := CombosUpTo(cs0, ord, cur, now, 0);
      supp := {};
      var i := 0;
      while i < |ord|
        invariant CombosAt(ord, i, supp, l0, cs0, cur, now, acc)
      {
        supp, acc := DispatchCombo(ord, i, supp, l0, cs0, cur, now, acc);
        i := i + 1;
      }
    }

    /**
     * The state after `i` iterations of the single-button loop: `bs0` are
     * the buttons and `l0` the log before the loop.
     */
    ghost predicate SinglesAt(i: nat, supp: Mask, l0: Log, bs0: seq<Button>, cur: Mask, now: u32, acc: SingleAcc)
      reads this, buffer, buffer.buf, btns
    {
      && buffer.Valid() && i <= |bs0|
      && cur == currentMask && now == tick
      && acc == SinglesUpTo(bs0, cur, supp, now, i)
      && btns[..] == acc.bs
      && |l0.contents| <= buffer.size - 1
      && CurrentLog() == LogAfter(l0, acc.events, hasCallback, buffer.size - 1)
    }

    /**
     * One iteration of `dispatch_unsuppressed_buttons`: unless its bit is in
     * `supp`, button `i` is stepped with its own bit and what it emits is
     * reported.
     */
    method DispatchSingle(i: nat, supp: Mask, ghost l0: Log, ghost bs0: seq<Button>, ghost cur: Mask, ghost now: u32,
                          ghost acc: SingleAcc)
      returns (ghost next: SingleAcc)
      requires i < |bs0| && SinglesAt(i, supp, l0, bs0, cur, now, acc)
      modifies this`reported, buffer, buffer.buf, btns
      ensures SinglesAt(i + 1, supp, l0, bs0, cur, now, next)
    {
      if i in supp {
        return acc;
      }
      var b, emitted := Update(btns[i], i in currentMask, tick);
      btns[i] := b;
      ghost var before := CurrentLog();
      ReportEmitted(emitted);
      LogAfterEmitted(l0, acc.events, emitted, hasCallback, buffer.size - 1, before, CurrentLog());
      next := SingleAcc(btns[..], acc.events + Emitted(emitted));
    }

    /**
     * `dispatch_unsuppressed_buttons`: steps every single button whose bit
     * is not in `supp` with its own bit.
     */
    method DispatchSingles(supp: Mask, ghost l0: Log, ghost bs0: seq<Button>, ghost cur: Mask, ghost now: u32)
      returns (ghost acc: SingleAcc)
      requires buffer.Valid()
      requires cur == currentMask && now == tick && btns[..] == bs0 && CurrentLog() == l0
      modifies this`reported, buffer, buffer.buf, btns
      ensures buffer.Valid()
      ensures acc == SinglesUpTo(bs0, cur, supp, now, |bs0|) && btns[..] == acc.bs
      ensures CurrentLog() == LogAfter(l0, acc.events, hasCallback, buffer.Capacity())
    {
      acc := SinglesUpTo(bs0, cur, supp, now, 0);
      var i := 0;
      while i < btns.Length
        invariant i <= btns.Length && SinglesAt(i, supp, l0, bs0, cur, now, acc)
      {
        acc := DispatchSingle(i, supp, l0, bs0, cur, now, acc);
        i := i + 1;
      }
    }

    /**
     * The first half of `bits_button_ticks`: advances the tick counter,
     * samples the mask, restarts the settling time on a mask change, and
     * says whether the mask has been stable for the debounce time, measured
     * with the tick from before the increment.
     */
    method Sample(levels: seq<u8>) returns (open: bool)
      requires |levels| == btns.Length
      modifies this`tick, this`currentMask, this`lastMask, this`stateEntryTime
      ensures currentMask == ActiveMask(levels, btns[..])
      ensures Clock() == TickGate(old(Clock()), currentMask).next
      ensures open == TickGate(old(Clock()), currentMask).open
    {
      var current := tick;
      tick := (tick + 1) % U32;
      var newMask := BuildMask(levels);
      currentMask := newMask;
      if lastMask != newMask {
        stateEntryTime := current;
        lastMask := newMask;
      }
      var timeDiff := (current - stateEntryTime) % U32;
      open := (timeDiff * TICKS_INTERVAL_MS) % U32 >= DEBOUNCE_TIME_MS;
    }

    /**
     * The second half of `bits_button_ticks`: the combos are dispatched, then
     * the single buttons outside the suppression mask, all reported in that
     * order.
     */
    method DispatchAll() returns (ghost r: Round)
      requires buffer.Valid()
      modifies this`reported, buffer, buffer.buf, btns, combos
      ensures buffer.Valid()
      ensures r == DispatchRound(old(btns[..]), old(combos[..]), currentMask, tick)
      ensures btns[..] == r.singles && combos[..] == r.combos
      ensures CurrentLog() == LogAfter(old(CurrentLog()), r.events, hasCallback, buffer.Capacity())
    {
      ghost var l0 := CurrentLog();
      ghost var bs0, cs0, cur, now := btns[..], combos[..], currentMask, tick;
      var supp, ca := DispatchCombos();
      ghost var l1 := CurrentLog();
      ghost var sa := DispatchSingles(supp, l1, bs0, cur, now);
      ghost var cap := buffer.Capacity();
      LogAfterAppend(l0, ca.events, sa.events, hasCallback, cap);
      r := DispatchRound(bs0, cs0, cur, now);
      assert r.events == ca.events + sa.events;
    }

    /**
     * `bits_button_ticks`: samples the levels and, once the mask has been
     * stable for the debounce time, dispatches combos then singles. The
     * state machines see the incremented tick.
     */
    method Tick(levels: seq<u8>)
      requires Valid() && |levels| == btns.Length
      modifies this`tick, this`currentMask, this`lastMask, this`stateEntryTime, this`reported
      modifies buffer, buffer.buf, btns, combos
      ensures Valid()
      ensures currentMask == ActiveMask(levels, old(btns[..]))
      ensures Clock() == TickGate(old(Clock()), currentMask).next
      ensures !TickGate(old(Clock()), currentMask).open ==>
        && btns[..] == old(btns[..]) && combos[..] == old(combos[..])
        && reported == old(reported)
        && buffer.contents == old(buffer.contents) && buffer.overwriteCount == old(buffer.overwriteCount)
      ensures TickGate(old(Clock()), currentMask).open ==>
        var r := DispatchRound(old(btns[..]), old(combos[..]), currentMask, tick);
        && btns[..] == r.singles && combos[..] == r.combos
        && CurrentLog() == LogAfter(old(CurrentLog()), r.events, hasCallback, buffer.Capacity())
    {
      var open := Sample(levels);
      if open {
        ghost var _ := DispatchAll();
      }
    }

    /** `bits_button_reset_states`: every single and combo button returns to the all-zero idle state. */
    method ResetStates()
      modifies btns, combos
      ensures btns.Length == old(btns.Length) && combos.Length == old(combos.Length)
      ensures forall i :: 0 <= i < btns.Length ==> btns[i] == old(btns[i]).(m := ZERO)
      ensures forall c :: 0 <= c < combos.Length ==> combos[c] == old(combos[c]).(btn := old(combos[c].btn).(m := ZERO))
    {
      var i := 0;
      while i < btns.Length
        invariant 0 <= i <= btns.Length
        invariant forall q :: 0 <= q < i ==> btns[q] == old(btns[q]).(m := ZERO)
        invariant forall q :: i <= q < btns.Length ==> btns[q] == old(btns[q])
        invariant combos[..] == old(combos[..])
      {
        btns[i] := btns[i].(m := ZERO);
        i := i + 1;
      }
      var c := 0;
      while c < combos.Length
        invariant 0 <= c <= combos.Length
        invariant forall q :: 0 <= q < btns.Length ==> btns[q] == old(btns[q]).(m := ZERO)
        invariant forall q :: 0 <= q < c ==> combos[q] == old(combos[q]).(btn := old(combos[q].btn).(m := ZERO))
        invariant forall q :: c <= q < combos.Length ==> combos[q] == old(combos[q])
      {
        combos[c] := combos[c].(btn := combos[c].btn.(m := ZERO));
        c := c + 1;
      }
    }

    /** `bits_button_get_key_result`: takes the oldest buffered result, or None when there is none. */
    method GetKeyResult() returns (r: Option<Result>)
      requires Valid()
      modifies buffer
      ensures Valid() && buffer.overwriteCount == old(buffer.overwriteCount)
      ensures old(buffer.contents) == [] ==> r == None && buffer.contents == []
      ensures old(buffer.contents) != [] ==> r == Some(old(buffer.contents)[0]) && buffer.contents == old(buffer.contents)[1..]
    {
      r := buffer.Read();
    }

    /** `bits_button_peek_key_result`: the oldest buffered result, left in the buffer; None when there is none. */
    method PeekKeyResult() returns (r: Option<Result>)
      requires Valid()
      ensures buffer.contents == [] ==> r == None
      ensures buffer.contents != [] ==> r == Some(buffer.contents[0])
    {
      r := buffer.Peek();
    }
  }
}
