/**
 * `set_toggle_mode`: how a KeypadLinc button reacts to presses, staged in
 * bit `button - 1` of the device-wide NON_TOGGLE_MASK (toggle or not) and
 * NON_TOGGLE_ON_OFF_MASK (a non-toggle button sends ON, or OFF).
 */
module ToggleButtons {
  import opened Optional
  import opened Bits
  import opened ConfigProperty
  import opened KeypadLinc

  /** The three toggle modes, numbered 0, 1 and 2 by the device. */
  datatype ToggleMode = Toggle | OnOnly | OffOnly

  /** `ToggleMode(m)`: the mode numbered `m`, or None where the enum raises ValueError. */
  function ModeOf(m: int): (r: Option<ToggleMode>)
    ensures r.Some? <==> 0 <= m <= 2
  {
    if m == 0 then Some(Toggle)
    else if m == 1 then Some(OnOnly)
    else if m == 2 then Some(OffOnly)
    else None
  }

  /** The number of a mode. */
  function ModeNumber(t: ToggleMode): (m: int)
    ensures 0 <= m <= 2
  {
    match t
    case Toggle => 0
    case OnOnly => 1
    case OffOnly => 2
  }

  /** Numbering and enum lookup are inverse to each other, both ways round. */
  lemma ModeNumbering(t: ToggleMode, m: int)
    ensures ModeOf(ModeNumber(t)) == Some(t)
    ensures ModeOf(m).Some? ==> ModeNumber(ModeOf(m).value) == m
  {
  }

  /** The NON_TOGGLE_MASK bit a mode asks for: set unless the button toggles. */
  predicate NonToggleBit(t: ToggleMode) {
    t != Toggle
  }

  /** The NON_TOGGLE_ON_OFF_MASK bit a mode asks for: set only for ON-only buttons. */
  predicate OnOffBit(t: ToggleMode) {
    t == OnOnly
  }

  /**
   * The mode a pair of mask bytes gives a button: a clear non-toggle bit
   * means toggle, whatever the on/off bit says; otherwise the on/off bit
   * picks ON-only or OFF-only.
   */
  function ModeInMasks(toggle: Byte, onOff: Byte, button: int): (r: ToggleMode)
    requires ValidButton(button)
  {
    if !BitIsSet(toggle, button - 1) then Toggle
    else if BitIsSet(onOff, button - 1) then OnOnly
    else OffOnly
  }

  /** The mode of `button` as the pending-or-committed masks of `k` describe it. */
  function PendingMode(k: Keypad, button: int): (r: ToggleMode)
    requires ValidButton(button)
    requires k.nonToggle.value.Some? && k.nonToggleOnOff.value.Some?
  {
    ModeInMasks(DirtyRead(k.nonToggle), DirtyRead(k.nonToggleOnOff), button)
  }

  /** The keypad with both device-wide masks through the load guard (lines 378-381). */
  function LoadToggleMasks(k: Keypad): (r: Keypad)
    requires Wf(k)
    ensures Wf(r)
    ensures r.nonToggle.loaded && r.nonToggleOnOff.loaded
  {
    var l := LoadPair(k.nonToggle, k.nonToggleOnOff);
    k.(nonToggle := l.0, nonToggleOnOff := l.1)
  }

  /**
   * `set_toggle_mode(button, mode)`: ValueError for a button the device
   * does not have, then ValueError for a mode outside 0..2, in both cases
   * with nothing staged; otherwise bit `button - 1` of the pending-or-
   * committed value of both masks is set as the mode asks and staged.
   */
  function SetToggleMode(k: Keypad, button: int, mode: int): (r: Checked)
    requires Wf(k)
    ensures button !in k.buttons ==> r == Err(UnknownButton(button))
    ensures button in k.buttons && !(0 <= mode <= 2) ==> r == Err(InvalidToggleMode(mode))
    ensures r.Ok? <==> button in k.buttons && 0 <= mode <= 2
    ensures r.Ok? ==> Wf(r.dev)
    ensures r.Ok? ==> r.dev == k.(nonToggle := r.dev.nonToggle, nonToggleOnOff := r.dev.nonToggleOnOff)
  {
    if button !in k.buttons then Err(UnknownButton(button))
    else match ModeOf(mode)
      case None => Err(InvalidToggleMode(mode))
      case Some(t) =>
        var l := LoadToggleMasks(k);
        var p := StageMode(l.nonToggle, l.nonToggleOnOff, button - 1, t);
        Ok(l.(nonToggle := p.0, nonToggleOnOff := p.1))
  }

  /** Bit `bit` of both masks staged as mode `t` asks (lines 393-401). */
  function StageMode(toggle: Prop, onOff: Prop, bit: nat, t: ToggleMode): (r: (Prop, Prop))
    requires toggle.value.Some? && onOff.value.Some? && bit < 8
    ensures r.0.value == toggle.value && r.0.loaded == toggle.loaded && r.0.newValue.Some?
    ensures r.1.value == onOff.value && r.1.loaded == onOff.loaded && r.1.newValue.Some?
  {
    (StageBit(toggle, bit, NonToggleBit(t)), StageBit(onOff, bit, OnOffBit(t)))
  }

  /** Staging two different bits commutes. */
  lemma StageModeCommutes(toggle: Prop, onOff: Prop, i: nat, s: ToggleMode, j: nat, t: ToggleMode)
    requires toggle.value.Some? && onOff.value.Some? && i < 8 && j < 8 && i != j
    ensures var x := StageMode(toggle, onOff, i, s);
            var y := StageMode(toggle, onOff, j, t);
            StageMode(x.0, x.1, j, t) == StageMode(y.0, y.1, i, s)
  {
    StageBitCommutes(toggle, i, NonToggleBit(s), j, NonToggleBit(t));
    StageBitCommutes(onOff, i, OnOffBit(s), j, OnOffBit(t));
  }

  /**
   * What a successful `set_toggle_mode(button, mode)` stages: the committed
   * values are those of the load guard; the staged non-toggle bit of the
   * button is set unless the mode is TOGGLE, its staged on/off bit is set
   * only for ON_ONLY; every other bit of both masks is the pending value if
   * there is one, else the committed one.
   */
  lemma SetToggleModeBits(k: Keypad, button: int, mode: int)
    requires Wf(k)
    requires button in k.buttons && 0 <= mode <= 2
    ensures var l := LoadToggleMasks(k);
            var r := SetToggleMode(k, button, mode).dev;
            && r.nonToggle.value == l.nonToggle.value && r.nonToggle.loaded
            && r.nonToggleOnOff.value == l.nonToggleOnOff.value && r.nonToggleOnOff.loaded
            && r.nonToggle.newValue.Some? && r.nonToggleOnOff.newValue.Some?
            && BitIsSet(r.nonToggle.newValue.value, button - 1) == (mode != 0)
            && BitIsSet(r.nonToggleOnOff.newValue.value, button - 1) == (mode == 1)
            && (forall i: nat :: i != button - 1 ==>
                  && BitIsSet(r.nonToggle.newValue.value, i) == BitIsSet(DirtyRead(l.nonToggle), i)
                  && BitIsSet(r.nonToggleOnOff.newValue.value, i) == BitIsSet(DirtyRead(l.nonToggleOnOff), i))
  {
    assert ValidButton(button);
  }

  /** Reading the mode back after setting it gives the mode that was set. */
  lemma ToggleModeRoundTrip(k: Keypad, button: int, mode: int)
    requires Wf(k)
    requires button in k.buttons && 0 <= mode <= 2
    ensures ValidButton(button)
    ensures PendingMode(SetToggleMode(k, button, mode).dev, button) == ModeOf(mode).value
  {
    assert ValidButton(button);
    SetToggleModeBits(k, button, mode);
  }

  /** Setting the mode of one button leaves the mode of every other button as it was (after loading). */
  lemma SetToggleModeKeepsOthers(k: Keypad, button: int, mode: int, other: int)
    requires Wf(k)
    requires button in k.buttons && 0 <= mode <= 2
    requires ValidButton(other) && other != button
    ensures PendingMode(SetToggleMode(k, button, mode).dev, other) == PendingMode(LoadToggleMasks(k), other)
  {
    SetToggleModeBits(k, button, mode);
  }

  /** Setting the same mode twice stages the same as setting it once. */
  lemma SetToggleModeIdempotent(k: Keypad, button: int, mode: int)
    requires Wf(k)
    requires button in k.buttons && 0 <= mode <= 2
    ensures var r := SetToggleMode(k, button, mode).dev;
            SetToggleMode(r, button, mode) == Ok(r)
  {
    var l := LoadToggleMasks(k);
    var t := ModeOf(mode).value;
    assert ValidButton(button);
    StageBitIdempotent(l.nonToggle, button - 1, NonToggleBit(t));
    StageBitIdempotent(l.nonToggleOnOff, button - 1, OnOffBit(t));
  }

  /** Modes of two different buttons can be set in either order with the same result. */
  lemma SetToggleModeCommutes(k: Keypad, b1: int, m1: int, b2: int, m2: int)
    requires Wf(k)
    requires b1 in k.buttons && 0 <= m1 <= 2
    requires b2 in k.buttons && 0 <= m2 <= 2
    requires b1 != b2
    ensures var x := SetToggleMode(SetToggleMode(k, b1, m1).dev, b2, m2).dev;
            var y := SetToggleMode(SetToggleMode(k, b2, m2).dev, b1, m1).dev;
            x == y
  {
    var l := LoadToggleMasks(k);
    var t1, t2 := ModeOf(m1).value, ModeOf(m2).value;
    assert ValidButton(b1) && ValidButton(b2);
    var p1 := StageMode(l.nonToggle, l.nonToggleOnOff, b1 - 1, t1);
    var q1 := StageMode(l.nonToggle, l.nonToggleOnOff, b2 - 1, t2);
    var x1 := SetToggleMode(k, b1, m1).dev;
    var y1 := SetToggleMode(k, b2, m2).dev;
    assert x1 == l.(nonToggle := p1.0, nonToggleOnOff := p1.1);
    assert y1 == l.(nonToggle := q1.0, nonToggleOnOff := q1.1);
    assert LoadToggleMasks(x1) == x1;
    assert LoadToggleMasks(y1) == y1;
    var p2 := StageMode(p1.0, p1.1, b2 - 1, t2);
    var q2 := StageMode(q1.0, q1.1, b1 - 1, t1);
    assert SetToggleMode(x1, b2, m2).dev == x1.(nonToggle := p2.0, nonToggleOnOff := p2.1);
    assert SetToggleMode(y1, b1, m1).dev == y1.(nonToggle := q2.0, nonToggleOnOff := q2.1);
    assert p2 == q2 by {
      StageModeCommutes(l.nonToggle, l.nonToggleOnOff, b1 - 1, t1, b2 - 1, t2);
    }
  }
}
