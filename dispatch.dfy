/**
 * One dispatch round, as values: the combos are stepped in dispatch order,
 * each with "pressed" meaning that every member key is active, and build up
 * the suppression mask; then every single button whose bit is not
 * suppressed is stepped with its own bit. The imperative engine is proved
 * to do exactly this to its button arrays.
 */
module Dispatch {
  import opened ButtonDefs
  import opened StateMachine
  import opened ComboSort

  /**
   * A combo button (`button_obj_combo_t`): its embedded button, the member
   * key ids (None for a NULL pointer) and their count, the suppress flag and
   * the member mask that initialisation builds.
   */
  datatype Combo = Combo(btn: Button, keyIds: Option<seq<u16>>, keyCount: u8, suppress: bool, mask: Mask)

  /** The results a step hands to the reporter: none or one. */
  function Emitted(o: Option<Result>): seq<Result>
  {
    if o.Some? then [o.value] else []
  }

  /** One tick of the machine of button `b`. */
  function StepButton(b: Button, pressed: bool, now: u32): StepResult
  {
    Step(b.m, b.keyId, b.param, pressed, now)
  }

  /** Button `b` after one tick: the machine advanced, the configuration kept. */
  function Stepped(b: Button, pressed: bool, now: u32): Button
  {
    b.(m := StepButton(b, pressed, now).m)
  }

  /** A combo counts as pressed when every member bit is active: `(current & mask) == mask`. */
  predicate ComboPressed(c: Combo, cur: Mask)
  {
    c.mask <= cur
  }

  /** After its step, a combo adds its mask to the suppression mask. */
  predicate Suppresses(c: Combo, after: Machine, cur: Mask)
  {
    c.suppress && (ComboPressed(c, cur) || after.bits != 0)
  }

  function KeyCounts(cs: seq<Combo>): (r: seq<nat>)
    ensures |r| == |cs| && forall c :: 0 <= c < |cs| ==> r[c] == cs[c].keyCount as nat
  {
    seq(|cs|, c requires 0 <= c < |cs| => cs[c].keyCount as nat)
  }

  /** The combos, the results reported so far and the suppression mask. */
  datatype ComboAcc = ComboAcc(cs: seq<Combo>, events: seq<Result>, supp: Mask)

  /** The first `k` iterations of the combo loop over `order`. */
  function CombosUpTo(cs: seq<Combo>, order: seq<nat>, cur: Mask, now: u32, k: nat): (acc: ComboAcc)
    requires InRange(order, |cs|) && k <= |order|
    ensures |acc.cs| == |cs|
  {
    if k == 0 then ComboAcc(cs, [], {})
    else
      var acc := CombosUpTo(cs, order, cur, now, k - 1);
      var x := acc.cs[order[k - 1]];
      var st := StepButton(x.btn, ComboPressed(x, cur), now);
      var supp := if Suppresses(x, st.m, cur) then acc.supp + x.mask else acc.supp;
      ComboAcc(acc.cs[order[k - 1] := x.(btn := x.btn.(m := st.m))], acc.events + Emitted(st.emitted), supp)
  }

  /** The single buttons and the results reported so far. */
  datatype SingleAcc = SingleAcc(bs: seq<Button>, events: seq<Result>)

  /** The first `k` iterations of the single-button loop. */
  function SinglesUpTo(bs: seq<Button>, cur: Mask, supp: Mask, now: u32, k: nat): (acc: SingleAcc)
    requires k <= |bs|
    ensures |acc.bs| == |bs|
  {
    if k == 0 then SingleAcc(bs, [])
    else
      var acc := SinglesUpTo(bs, cur, supp, now, k - 1);
      var i := k - 1;
      if i in supp then acc
      else
        var st := StepButton(acc.bs[i], i in cur, now);
        SingleAcc(acc.bs[i := acc.bs[i].(m := st.m)], acc.events + Emitted(st.emitted))
  }

  /** The outcome of one dispatch round. */
  datatype Round = Round(singles: seq<Button>, combos: seq<Combo>, events: seq<Result>, supp: Mask)

  /** `dispatch_combo_buttons` followed by `dispatch_unsuppressed_buttons`. */
  function DispatchRound(singles: seq<Button>, combos: seq<Combo>, cur: Mask, now: u32): (r: Round)
    ensures |r.singles| == |singles| && |r.combos| == |combos|
  {
    var order := DispatchOrder(KeyCounts(combos));
    DispatchOrderSpec(KeyCounts(combos));
    var ca := CombosUpTo(combos, order, cur, now, |order|);
    var sa := SinglesUpTo(singles, cur, ca.supp, now, |singles|);
    Round(sa.bs, ca.cs, ca.events + sa.events, ca.supp)
  }

  // ---------------------------------------------------------------------------
  // What a round does, independent of the loop structure
  // ---------------------------------------------------------------------------

  /** The machine of combo `c` after its step this round, from the combos before the round. */
  function After(cs: seq<Combo>, cur: Mask, now: u32, c: nat): Machine
    requires c < |cs|
  {
    StepButton(cs[c].btn, ComboPressed(cs[c], cur), now).m
  }

  predicate NoDup(s: seq<nat>)
  {
    forall p, q :: 0 <= p < q < |s| ==> s[p] != s[q]
  }

  /**
   * With no combo visited twice, each visited combo is stepped once from its
   * state before the round and keeps its configuration; the others are untouched.
   */
  lemma {:induction false} CombosUpToCombos(cs: seq<Combo>, order: seq<nat>, cur: Mask, now: u32, k: nat)
    requires InRange(order, |cs|) && k <= |order| && NoDup(order)
    ensures forall c :: 0 <= c < |cs| ==>
      CombosUpTo(cs, order, cur, now, k).cs[c] ==
        if c in order[..k] then cs[c].(btn := cs[c].btn.(m := After(cs, cur, now, c))) else cs[c]
  {
    if k > 0 {
      CombosUpToCombos(cs, order, cur, now, k - 1);
      var x := order[k - 1];
      assert x !in order[..k - 1];
      assert order[..k] == order[..k - 1] + [x];
    }
  }

  /**
   * The suppression mask after `k` iterations is the union of the masks of
   * the visited combos that suppress, judged on their stepped machines.
   */
  lemma {:induction false} CombosUpToSuppression(cs: seq<Combo>, order: seq<nat>, cur: Mask, now: u32, k: nat)
    requires InRange(order, |cs|) && k <= |order| && NoDup(order)
    ensures forall i :: i in CombosUpTo(cs, order, cur, now, k).supp <==>
      exists p :: 0 <= p < k && i in cs[order[p]].mask && Suppresses(cs[order[p]], After(cs, cur, now, order[p]), cur)
  {
    if k > 0 {
      CombosUpToSuppression(cs, order, cur, now, k - 1);
      CombosUpToCombos(cs, order, cur, now, k - 1);
      var x := order[k - 1];
      assert x !in order[..k - 1];
    }
  }

  /** Each single button is stepped with its own bit unless suppressed, in which case it is left alone. */
  lemma {:induction false} SinglesUpToButtons(bs: seq<Button>, cur: Mask, supp: Mask, now: u32, k: nat)
    requires k <= |bs|
    ensures forall i :: 0 <= i < |bs| ==>
      SinglesUpTo(bs, cur, supp, now, k).bs[i] == if i < k && i !in supp then Stepped(bs[i], i in cur, now) else bs[i]
  {
    if k > 0 {
      SinglesUpToButtons(bs, cur, supp, now, k - 1);
    }
  }

  /** A step reports only results carrying the button's own key id. */
  lemma StepKeyId(b: Button, pressed: bool, now: u32)
    ensures forall e :: e in Emitted(StepButton(b, pressed, now).emitted) ==> e.keyId == b.keyId
  {
  }

  /**
   * Every result of the single-button loop was emitted by the step of a
   * button, by position, that was not suppressed, and carries its key id.
   */
  lemma {:induction false} SinglesUpToEvents(bs: seq<Button>, cur: Mask, supp: Mask, now: u32, k: nat)
    requires k <= |bs|
    ensures forall e :: e in SinglesUpTo(bs, cur, supp, now, k).events ==>
      exists i :: 0 <= i < k && i !in supp && e in Emitted(StepButton(bs[i], i in cur, now).emitted) && e.keyId == bs[i].keyId
  {
    if k > 0 {
      var j := k - 1;
      SinglesUpToEvents(bs, cur, supp, now, j);
      SinglesUpToButtons(bs, cur, supp, now, j);
      var acc := SinglesUpTo(bs, cur, supp, now, j);
      if j !in supp {
        assert acc.bs[j] == bs[j];
        StepKeyId(bs[j], j in cur, now);
        var st := StepButton(bs[j], j in cur, now);
        assert SinglesUpTo(bs, cur, supp, now, k).events == acc.events + Emitted(st.emitted);
        forall e | e in Emitted(st.emitted)
          ensures exists i :: 0 <= i < k && i !in supp && e in Emitted(StepButton(bs[i], i in cur, now).emitted) && e.keyId == bs[i].keyId
        {
          assert e in Emitted(StepButton(bs[j], j in cur, now).emitted) && e.keyId == bs[j].keyId;
        }
      }
    }
  }

  /**
   * The bits set in the suppression mask: every member bit of a combo that
   * has its suppress flag and, after its step, is either fully pressed or
   * holds a non-empty signature. The dispatch order does not enter into it.
   */
  function Suppression(cs: seq<Combo>, cur: Mask, now: u32): Mask
  {
    set c, i | 0 <= c < |cs| && i in cs[c].mask && Suppresses(cs[c], After(cs, cur, now, c), cur) :: i
  }

  /** The dispatch order visits every combo once. */
  lemma {:induction false} DispatchOrderCovers(cs: seq<Combo>)
    ensures var order := DispatchOrder(KeyCounts(cs));
      && InRange(order, |cs|) && |order| == |cs| && NoDup(order)
      && forall c :: 0 <= c < |cs| ==> c in order
  {
    var counts := KeyCounts(cs);
    var order := DispatchOrder(counts);
    DispatchOrderSpec(counts);
    forall c | 0 <= c < |cs|
      ensures c in order
    {
      assert Iota(|counts|)[c] == c;
      assert c in multiset(Iota(|counts|));
      assert c in multiset(order);
    }
  }

  /**
   * One dispatch round: every combo is stepped once with "all members
   * pressed" and keeps its configuration; the suppression mask is exactly
   * `Suppression`; a single button inside it is left alone, any other is
   * stepped with its own bit.
   */
  lemma {:induction false} RoundSpec(singles: seq<Button>, combos: seq<Combo>, cur: Mask, now: u32)
    ensures var r := DispatchRound(singles, combos, cur, now);
      && r.supp == Suppression(combos, cur, now)
      && (forall c :: 0 <= c < |combos| ==>
            r.combos[c] == combos[c].(btn := Stepped(combos[c].btn, ComboPressed(combos[c], cur), now)))
      && (forall i :: 0 <= i < |singles| ==>
            r.singles[i] == if i in r.supp then singles[i] else Stepped(singles[i], i in cur, now))
  {
    var order := DispatchOrder(KeyCounts(combos));
    DispatchOrderCovers(combos);
    var n := |order|;
    var ca := CombosUpTo(combos, order, cur, now, n);
    var r := DispatchRound(singles, combos, cur, now);
    assert r.supp == ca.supp && r.combos == ca.cs;
    assert order[..n] == order;
    CombosUpToCombos(combos, order, cur, now, n);
    forall c | 0 <= c < |combos|
      ensures r.combos[c] == combos[c].(btn := Stepped(combos[c].btn, ComboPressed(combos[c], cur), now))
    {
      assert c in order[..n];
    }
    CombosUpToSuppression(combos, order, cur, now, n);
    var want := Suppression(combos, cur, now);
    forall i
      ensures i in ca.supp <==> i in want
    {
      if i in want {
        var c :| 0 <= c < |combos| && i in combos[c].mask && Suppresses(combos[c], After(combos, cur, now, c), cur);
        var p :| 0 <= p < n && order[p] == c;
      }
    }
    assert ca.supp == want;
    SinglesUpToButtons(singles, cur, ca.supp, now, |singles|);
    assert r.singles == SinglesUpTo(singles, cur, ca.supp, now, |singles|).bs;
  }

  /**
   * The combos report first, then the single buttons; every result after
   * the combos' was emitted by the step of a single button, by position,
   * outside the suppression mask, so a suppressed button reports nothing
   * during the round even when it shares its key id with another.
   */
  lemma {:induction false} SuppressedReportNothing(singles: seq<Button>, combos: seq<Combo>, cur: Mask, now: u32)
    ensures var r := DispatchRound(singles, combos, cur, now);
      var order := DispatchOrder(KeyCounts(combos));
      var ca := CombosUpTo(combos, order, cur, now, |order|);
      && r.events[..|ca.events|] == ca.events
      && forall e :: e in r.events[|ca.events|..] ==>
           exists i :: 0 <= i < |singles| && i !in r.supp && e in Emitted(StepButton(singles[i], i in cur, now).emitted)
  {
    var order := DispatchOrder(KeyCounts(combos));
    DispatchOrderSpec(KeyCounts(combos));
    var ca := CombosUpTo(combos, order, cur, now, |order|);
    var sa := SinglesUpTo(singles, cur, ca.supp, now, |singles|);
    SinglesUpToEvents(singles, cur, ca.supp, now, |singles|);
    assert (ca.events + sa.events)[|ca.events|..] == sa.events;
  }
}
