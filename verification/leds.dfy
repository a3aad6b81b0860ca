/**
 * The button LEDs of a KeypadLinc: the LED states sent with a set-LEDs
 * command, the LED states decoded from a status report, and the group
 * values the device class keeps in step with the toggle and follow masks.
 *
 * Two of the operations test a mask bit with the group number where the
 * mask methods write bit `group - 1`; each comes in an as-written and a
 * corrected form (see the Findings section of the README). The LED command
 * `AsyncSetLed` goes through the as-written `_update_leds`, like the device
 * class; `AsyncSetLedCorrected` is the same command with the corrected one.
 */
module KeypadLeds {
  import opened Optional
  import opened Bits
  import opened ConfigProperty
  import opened Responses
  import opened KeypadLinc
  import opened ToggleButtons
  import opened RadioButtons

  /** `bool(group.value)` for a group the device has; False for one it does not. */
  predicate GroupOn(groups: map<int, int>, g: int) {
    g in groups && groups[g] != 0
  }

  /** The value a boolean LED state is stored as (Python's True == 1, False == 0). */
  function Flag(b: bool): (r: int) {
    if b then 1 else 0
  }

  // ---------------------------------------------------------------------
  // _change_led_status and _led_status
  // ---------------------------------------------------------------------

  /** The loop of `_change_led_status` from LED `curr` up to LED 8. */
  function LedsFrom(groups: map<int, int>, led: int, isOn: bool, curr: nat): (r: seq<bool>)
    requires 1 <= curr <= 9
    ensures |r| == 9 - curr
    ensures forall i :: 0 <= i < |r| ==> r[i] == (if curr + i == led then isOn else GroupOn(groups, curr + i))
    decreases 9 - curr
  {
    if curr == 9 then []
    else [if curr == led then isOn else GroupOn(groups, curr)] + LedsFrom(groups, led, isOn, curr + 1)
  }

  /**
   * `_change_led_status(led, is_on)`: the states of LEDs 1 to 8 (entry `i`
   * is LED `i + 1`, the command's `group{i+1}` argument). The target LED
   * gets `isOn`; every other LED shows whether its group is on.
   */
  function ChangeLedStatus(groups: map<int, int>, led: int, isOn: bool): (r: seq<bool>)
    ensures |r| == 8
    ensures forall i :: 0 <= i < 8 ==> r[i] == (if i + 1 == led then isOn else GroupOn(groups, i + 1))
  {
    LedsFrom(groups, led, isOn, 1)
  }

  /** Bits `i` to 7 of `acc` set from the LED states. */
  function LedByteFrom(leds: seq<bool>, i: nat, acc: Byte): (r: Byte)
    requires |leds| == 8 && i <= 8
    ensures forall j: nat :: j < i ==> BitIsSet(r, j) == BitIsSet(acc, j)
    ensures forall j: nat :: i <= j < 8 ==> BitIsSet(r, j) == leds[j]
    decreases 8 - i
  {
    if i == 8 then acc
    else LedByteFrom(leds, i + 1, SetBit(acc, i, leds[i]))
  }

  /**
   * The eight LED states as one byte, bit `i` for LED `i + 1`: the layout in
   * which a status report of type 1 carries them (see LedStatus).
   */
  function LedByte(leds: seq<bool>): (r: Byte)
    requires |leds| == 8
  {
    LedByteFrom(leds, 0, 0)
  }

  /** The loop of `_led_status` from group `bit` up to group 8. */
  function LedStatusFrom(groups: map<int, int>, status: Byte, bit: nat): (r: map<int, int>)
    requires 2 <= bit <= 9
    ensures r.Keys == groups.Keys
    ensures forall g :: g in groups ==> r[g] == (if bit <= g <= 8 then Flag(BitIsSet(status, g - 1)) else groups[g])
    decreases 9 - bit
  {
    if bit == 9 then groups
    else
      var next := if bit in groups then groups[bit := Flag(BitIsSet(status, bit - 1))] else groups;
      LedStatusFrom(next, status, bit + 1)
  }

  /**
   * `_led_status(status)`: each group 2 to 8 the device has takes bit
   * `group - 1` of the status byte; group 1 (the load) and every other
   * group keep their value.
   */
  function LedStatus(groups: map<int, int>, status: Byte): (r: map<int, int>)
    ensures r.Keys == groups.Keys
    ensures forall g :: g in groups && !(2 <= g <= 8) ==> r[g] == groups[g]
  {
    LedStatusFrom(groups, status, 2)
  }

  /** What LedStatus stores in every group 2 to 8. */
  lemma LedStatusDecodes(groups: map<int, int>, status: Byte, g: int)
    requires g in groups && 2 <= g <= 8
    ensures LedStatus(groups, status)[g] == Flag(BitIsSet(status, g - 1))
  {
  }

  /**
   * Encoding then decoding: a status report carrying the LED states of a
   * set-LEDs command sets every LED group 2 to 8 to the state the command
   * gave it (the target LED to `isOn`, the others to whether they were on),
   * and leaves group 1 alone.
   */
  lemma LedStatusRoundTrip(groups: map<int, int>, led: int, isOn: bool)
    ensures var r := LedStatus(groups, LedByte(ChangeLedStatus(groups, led, isOn)));
            && r.Keys == groups.Keys
            && (forall g :: g in groups && 2 <= g <= 8 ==> r[g] == Flag(if g == led then isOn else GroupOn(groups, g)))
            && (1 in groups ==> r[1] == groups[1])
  {
    var leds := ChangeLedStatus(groups, led, isOn);
    var r := LedStatus(groups, LedByte(leds));
    forall g | g in groups && 2 <= g <= 8
      ensures r[g] == Flag(if g == led then isOn else GroupOn(groups, g))
    {
      LedStatusDecodes(groups, LedByte(leds), g);
      assert leds[g - 1] == (if g == led then isOn else GroupOn(groups, g));
    }
  }

  // ---------------------------------------------------------------------
  // _update_leds
  // ---------------------------------------------------------------------

  /**
   * `_update_leds(group, value)` with the NON_TOGGLE_MASK bit it tests
   * given as `bit`: a group the device does not have is left alone; a group
   * whose bit is set in the committed mask is forced to 0; any other group
   * takes `value`. No other group changes.
   */
  function UpdateLedsAt(k: Keypad, group: int, bit: nat, value: int): (r: map<int, int>)
    ensures r.Keys == k.groups.Keys
    ensures forall g :: g in k.groups && g != group ==> r[g] == k.groups[g]
    ensures group in k.groups ==> r[group] == (if k.nonToggle.value.Some? && BitIsSet(k.nonToggle.value.value, bit) then 0 else value)
  {
    if group !in k.groups then k.groups
    else
      var nonToggle := if k.nonToggle.value.Some? then BitIsSet(k.nonToggle.value.value, bit) else false;
      k.groups[group := if nonToggle then 0 else value]
  }

  /**
   * `_update_leds` as written (line 458): a group the device has takes
   * `value`, or 0 when bit `group` of the committed NON_TOGGLE_MASK is set;
   * every other group keeps its value.
   */
  function UpdateLedsAsWritten(k: Keypad, group: int, value: int): (r: map<int, int>)
    requires Wf(k)
    ensures r.Keys == k.groups.Keys
    ensures forall g :: g in k.groups && g != group ==> r[g] == k.groups[g]
    ensures group in k.groups ==>
              r[group] == if k.nonToggle.value.Some? && BitIsSet(k.nonToggle.value.value, group) then 0 else value
  {
    if group in k.groups then
      assert ValidButton(group) by { assert group in k.masks; }
      UpdateLedsAt(k, group, group, value)
    else k.groups
  }

  /**
   * `_update_leds` testing the bit `set_toggle_mode` writes for the group's
   * button, bit `group - 1`: a group the device has takes `value`, or 0 when
   * its button is non-toggle in the committed mask; every other group keeps
   * its value.
   */
  function UpdateLeds(k: Keypad, group: int, value: int): (r: map<int, int>)
    requires Wf(k)
    ensures r.Keys == k.groups.Keys
    ensures forall g :: g in k.groups && g != group ==> r[g] == k.groups[g]
    ensures group in k.groups ==>
              && group >= 1
              && r[group] == if k.nonToggle.value.Some? && BitIsSet(k.nonToggle.value.value, group - 1) then 0 else value
  {
    if group in k.groups then
      assert ValidButton(group) by { assert group in k.masks; }
      UpdateLedsAt(k, group, group - 1, value)
    else k.groups
  }

  /** Both masks of `set_toggle_mode` written to the device and acknowledged as staged. */
  function CommitToggleMasks(k: Keypad): (r: Keypad)
    requires Wf(k)
    requires k.nonToggle.newValue.Some? && k.nonToggleOnOff.newValue.Some?
    ensures Wf(r)
  {
    k.(nonToggle := Commit(k.nonToggle, k.nonToggle.newValue.value),
       nonToggleOnOff := Commit(k.nonToggleOnOff, k.nonToggleOnOff.newValue.value))
  }

  /**
   * The intended behaviour, proved for the corrected UpdateLeds: once
   * `set_toggle_mode(b, mode)` has reached the device, a successful LED
   * command on button `b` leaves its group at the requested value for a
   * toggle button and at 0 for a non-toggle one.
   */
  lemma UpdateLedsHonoursToggleMode(k: Keypad, b: int, mode: int, value: int)
    requires Wf(k)
    requires b in k.buttons && 0 <= mode <= 2
    ensures var c := CommitToggleMasks(SetToggleMode(k, b, mode).dev);
            UpdateLeds(c, b, value)[b] == (if mode == 0 then value else 0)
  {
    SetToggleModeBits(k, b, mode);
    assert b in k.groups by { assert b in k.masks; }
  }

  /**
   * As written, button 8 can never be forced off: bit 8 of a byte reads as
   * clear, so even after `set_toggle_mode(8, ON_ONLY)` has reached the
   * device the group takes the requested value (0xFF after `async_on`).
   */
  lemma UpdateLedsAsWrittenIgnoresButton8(k: Keypad, value: int)
    requires Wf(k)
    requires 8 in k.buttons
    ensures var c := CommitToggleMasks(SetToggleMode(k, 8, 1).dev);
            UpdateLedsAsWritten(c, 8, value)[8] == value
  {
    assert 8 in k.groups by { assert 8 in k.masks; }
  }

  // ---------------------------------------------------------------------
  // _led_follow_check
  // ---------------------------------------------------------------------

  /**
   * Button `b` follows a change of `group`, judged on mask bit `bit`: it is
   * not the group itself, both its masks are loaded, and `bit` is set in its
   * committed ON_MASK.
   */
  predicate Follows(k: Keypad, group: int, bit: nat, b: int)
    requires Wf(k) && b in k.masks
  {
    var m := k.masks[b];
    b != group && m.on.loaded && m.off.loaded && BitIsSet(m.on.value.value, bit)
  }

  /** The value a following button takes: 0 if `bit` is set in its committed OFF_MASK, else `onLevel`. */
  function FollowValue(k: Keypad, bit: nat, b: int, onLevel: int): (r: int)
    requires Wf(k) && b in k.masks && k.masks[b].off.loaded
  {
    if BitIsSet(k.masks[b].off.value.value, bit) then 0 else onLevel
  }

  /** The loop of lines 428-442 over the buttons still to visit. */
  function FollowLoop(k: Keypad, group: int, bit: nat, onLevel: int, todo: seq<int>, groups: map<int, int>): (r: map<int, int>)
    requires Wf(k)
    requires forall b :: b in todo ==> b in k.masks
    requires groups.Keys == k.groups.Keys
    ensures r.Keys == groups.Keys
    decreases |todo|
  {
    if todo == [] then groups
    else
      var b := todo[0];
      var next := if Follows(k, group, bit, b) then groups[b := FollowValue(k, bit, b, onLevel)] else groups;
      FollowLoop(k, group, bit, onLevel, todo[1..], next)
  }

  /** What the loop leaves in the group of button `b`. */
  lemma {:induction false} FollowLoopAt(k: Keypad, group: int, bit: nat, onLevel: int, todo: seq<int>, groups: map<int, int>, b: int)
    requires Wf(k)
    requires forall b :: b in todo ==> b in k.masks
    requires groups.Keys == k.groups.Keys
    requires b in k.masks
    ensures FollowLoop(k, group, bit, onLevel, todo, groups)[b]
              == if b in todo && Follows(k, group, bit, b) then FollowValue(k, bit, b, onLevel) else groups[b]
    decreases |todo|
  {
    if todo != [] {
      var b0 := todo[0];
      var next := if Follows(k, group, bit, b0) then groups[b0 := FollowValue(k, bit, b0, onLevel)] else groups;
      FollowLoopAt(k, group, bit, onLevel, todo[1..], next, b);
      assert b in todo <==> b == b0 || b in todo[1..];
    }
  }

  /** The loop over all buttons, judged on mask bit `bit`, button by button. */
  lemma FollowLoopAll(k: Keypad, group: int, bit: nat, onLevel: int)
    requires Wf(k)
    ensures var r := FollowLoop(k, group, bit, onLevel, k.buttons, k.groups);
            forall b :: b in k.groups ==>
              r[b] == if Follows(k, group, bit, b) then FollowValue(k, bit, b, onLevel) else k.groups[b]
  {
    forall b | b in k.groups
      ensures FollowLoop(k, group, bit, onLevel, k.buttons, k.groups)[b]
                == if Follows(k, group, bit, b) then FollowValue(k, bit, b, onLevel) else k.groups[b]
    {
      assert b in k.buttons;
      FollowLoopAt(k, group, bit, onLevel, k.buttons, k.groups, b);
    }
  }

  /**
   * `_led_follow_check(group, on_level)` as written (lines 436-437): every
   * other button whose loaded ON_MASK has bit `group` set takes 0 if its
   * OFF_MASK has that bit too and the new on-level otherwise; every other
   * group keeps its value.
   */
  function LedFollowCheckAsWritten(k: Keypad, group: int, onLevel: int): (r: map<int, int>)
    requires Wf(k)
    requires group in k.buttons
    ensures r.Keys == k.groups.Keys
    ensures forall b :: b in k.groups ==>
              r[b] == if Follows(k, group, group, b) then FollowValue(k, group, b, onLevel) else k.groups[b]
  {
    assert ValidButton(group);
    FollowLoopAll(k, group, group, onLevel);
    FollowLoop(k, group, group, onLevel, k.buttons, k.groups)
  }

  /**
   * `_led_follow_check` judged on the bit the radio-group methods write for
   * `group`, bit `group - 1`: every other button whose loaded ON_MASK has
   * that bit set takes 0 if its OFF_MASK has it too and the new on-level
   * otherwise; every other group keeps its value.
   */
  function LedFollowCheck(k: Keypad, group: int, onLevel: int): (r: map<int, int>)
    requires Wf(k)
    requires group in k.buttons
    ensures group >= 1
    ensures r.Keys == k.groups.Keys
    ensures forall b :: b in k.groups ==>
              r[b] == if Follows(k, group, group - 1, b) then FollowValue(k, group - 1, b, onLevel) else k.groups[b]
  {
    assert ValidButton(group);
    FollowLoopAll(k, group, group - 1, onLevel);
    FollowLoop(k, group, group - 1, onLevel, k.buttons, k.groups)
  }

  /** Button `b`'s masks hold committed radio masks of `radio` (what set_radio_buttons stages, once written). */
  ghost predicate CommittedRadio(k: Keypad, b: int, radio: seq<int>)
    requires Wf(k) && b in k.masks
  {
    var m := k.masks[b];
    && m.on.loaded && m.off.loaded
    && (exists c :: RadioBits(m.on.value.value, radio, b, c))
    && (exists c :: RadioBits(m.off.value.value, radio, b, c))
  }

  /**
   * The intended behaviour, proved for the corrected LedFollowCheck: when
   * one button of a committed radio group comes on, every other member's
   * LED goes off.
   */
  lemma LedFollowCheckTurnsOffRadioMembers(k: Keypad, radio: seq<int>, group: int, b: int, onLevel: int)
    requires Wf(k)
    requires group in k.buttons && group in radio
    requires b in k.masks && b in radio && b != group
    requires CommittedRadio(k, b, radio)
    ensures LedFollowCheck(k, group, onLevel)[b] == 0
  {
    assert ValidButton(group) && ValidButton(b);
    assert b in k.groups;
    var m := k.masks[b];
    var c1 :| RadioBits(m.on.value.value, radio, b, c1);
    var c2 :| RadioBits(m.off.value.value, radio, b, c2);
    assert BitIsSet(m.on.value.value, group - 1);
    assert BitIsSet(m.off.value.value, group - 1);
  }

  /**
   * As written, `_led_follow_check` reads the bit of the next button: for
   * the member right after `group` in a committed radio group that bit is
   * the member's own, which a radio mask clears, so its LED is left as it
   * was instead of going off.
   */
  lemma LedFollowCheckAsWrittenMissesNext(k: Keypad, radio: seq<int>, group: int, onLevel: int)
    requires Wf(k)
    requires group in k.buttons && group in radio
    requires group + 1 in k.masks && group + 1 in radio
    requires CommittedRadio(k, group + 1, radio)
    ensures LedFollowCheckAsWritten(k, group, onLevel)[group + 1] == k.groups[group + 1]
  {
    var b := group + 1;
    assert ValidButton(group) && ValidButton(b);
    assert b in k.groups && b in k.buttons;
    var m := k.masks[b];
    var c1 :| RadioBits(m.on.value.value, radio, b, c1);
    assert !BitIsSet(m.on.value.value, group);
  }

  /** Button 4 of the committed radio group [3, 4], with its LED on. */
  function RadioExample(): (k: Keypad)
    ensures Wf(k)
  {
    var loaded := Prop(Some(0x04), None, true);
    var three := Prop(Some(0x08), None, true);
    Keypad([3, 4], map[3 := Masks(three, three), 4 := Masks(loaded, loaded)], Unloaded, Unloaded, map[3 := 0, 4 := 0xFF])
  }

  /** Button 3 of that group comes on: as written button 4's LED stays on; corrected it goes off. */
  lemma RadioExampleShowsFollowBit()
    ensures CommittedRadio(RadioExample(), 4, [3, 4])
    ensures LedFollowCheckAsWritten(RadioExample(), 3, 0xFF)[4] == 0xFF
    ensures LedFollowCheck(RadioExample(), 3, 0xFF)[4] == 0
  {
    var k := RadioExample();
    assert RadioBits(0x04, [3, 4], 4, 0) by {
      forall i: nat | i < 8 ensures BitIsSet(0x04, i) == (if i + 1 in [3, 4] then i != 3 else BitIsSet(0, i)) {
        assert i + 1 in [3, 4] <==> i == 2 || i == 3;
      }
    }
  }

  /** Button 8 of a keypad whose committed NON_TOGGLE_MASK makes button 8 non-toggle. */
  function NonToggleExample(): (k: Keypad)
    ensures Wf(k)
  {
    var none := Prop(Some(0), None, true);
    Keypad([8], map[8 := Masks(none, none)], Prop(Some(0x80), None, true), Prop(Some(0x80), None, true), map[8 := 0])
  }

  /** `async_on(8)` succeeds: as written the LED group becomes 0xFF; corrected it is held at 0. */
  lemma NonToggleExampleShowsToggleBit()
    ensures PendingMode(NonToggleExample(), 8) == OnOnly
    ensures UpdateLedsAsWritten(NonToggleExample(), 8, 0xFF)[8] == 0xFF
    ensures UpdateLeds(NonToggleExample(), 8, 0xFF)[8] == 0
  {
  }

  // ---------------------------------------------------------------------
  // async_on / async_off
  // ---------------------------------------------------------------------

  /**
   * What `async_on(group)` / `async_off(group)` do around the send: the LED
   * states sent (None for groups 0 and 1, which go through the base class's
   * on/off command instead), the group values afterwards, and whether a
   * status request follows.
   */
  datatype LedCommand = LedCommand(leds: Option<seq<bool>>, groups: map<int, int>, refreshStatus: bool)

  /**
   * `async_on(group)` when `isOn`, `async_off(group)` otherwise, given the
   * transport's answer `result`: the group values change only on SUCCESS,
   * through `_update_leds` as written with 0xFF or 0; DIRECT_NAK_PRE_NAK asks
   * for a status report instead.
   */
  function AsyncSetLed(k: Keypad, group: int, isOn: bool, result: ResponseStatus): (r: LedCommand)
    requires Wf(k)
    ensures r.leds.None? <==> group == 0 || group == 1
    ensures r.leds.Some? ==> r.leds.value == ChangeLedStatus(k.groups, group, isOn)
    ensures r.groups.Keys == k.groups.Keys
    ensures r.refreshStatus <==> result == DirectNakPreNak
  {
    var leds := if group == 0 || group == 1 then None else Some(ChangeLedStatus(k.groups, group, isOn));
    var groups := if result == Success then UpdateLedsAsWritten(k, group, if isOn then 0xFF else 0) else k.groups;
    LedCommand(leds, groups, result == DirectNakPreNak)
  }

  /**
   * The group values after an LED command: unchanged unless the send
   * succeeded; after a success only the commanded group changes, and it
   * becomes 0 when bit `group` of the committed NON_TOGGLE_MASK is set (the
   * mask bit of the NEXT button) and 0xFF or 0 as asked otherwise.
   */
  lemma AsyncSetLedGroups(k: Keypad, group: int, isOn: bool, result: ResponseStatus)
    requires Wf(k)
    ensures var r := AsyncSetLed(k, group, isOn, result);
            && (result != Success ==> r.groups == k.groups)
            && (forall g :: g in k.groups && g != group ==> r.groups[g] == k.groups[g])
            && (result == Success && group in k.groups ==>
                  ValidButton(group) &&
                  r.groups[group] == if k.nonToggle.value.Some? && BitIsSet(k.nonToggle.value.value, group) then 0
                                     else if isOn then 0xFF else 0)
  {
    if group in k.groups {
      assert group in k.buttons;
    }
  }

  /** The same LED command with `_update_leds` testing bit `group - 1`, the bit of the group's own button. */
  function AsyncSetLedCorrected(k: Keypad, group: int, isOn: bool, result: ResponseStatus): (r: LedCommand)
    requires Wf(k)
    ensures r.leds == AsyncSetLed(k, group, isOn, result).leds
    ensures r.refreshStatus == AsyncSetLed(k, group, isOn, result).refreshStatus
    ensures r.groups.Keys == k.groups.Keys
  {
    var groups := if result == Success then UpdateLeds(k, group, if isOn then 0xFF else 0) else k.groups;
    AsyncSetLed(k, group, isOn, result).(groups := groups)
  }

  /**
   * The intended group values: after a success the commanded group becomes
   * 0 when its own button is non-toggle in the committed mask, 0xFF or 0 as
   * asked otherwise, and nothing else changes.
   */
  lemma AsyncSetLedCorrectedGroups(k: Keypad, group: int, isOn: bool, result: ResponseStatus)
    requires Wf(k)
    ensures var r := AsyncSetLedCorrected(k, group, isOn, result);
            && (result != Success ==> r.groups == k.groups)
            && (forall g :: g in k.groups && g != group ==> r.groups[g] == k.groups[g])
            && (result == Success && group in k.groups ==>
                  ValidButton(group) &&
                  r.groups[group] == if k.nonToggle.value.Some? && BitIsSet(k.nonToggle.value.value, group - 1) then 0
                                     else if isOn then 0xFF else 0)
  {
    if group in k.groups {
      assert group in k.buttons;
    }
  }

  /**
   * Buttons 3 and 4 with button 4 committed as ON_ONLY (NON_TOGGLE_MASK and
   * NON_TOGGLE_ON_OFF_MASK both 0x08) and button 3 a toggle button.
   */
  function NeighbourExample(): (k: Keypad)
    ensures Wf(k)
  {
    var none := Prop(Some(0), None, true);
    var four := Prop(Some(0x08), None, true);
    Keypad([3, 4], map[3 := Masks(none, none), 4 := Masks(none, none)], four, four, map[3 := 0, 4 := 0])
  }

  /**
   * A successful `async_on(3)`: as written, button 3's group is held at 0
   * because button 4 is non-toggle; corrected, it becomes 0xFF.
   */
  lemma NeighbourExampleShowsToggleBit()
    ensures PendingMode(NeighbourExample(), 3) == Toggle
    ensures PendingMode(NeighbourExample(), 4) == OnOnly
    ensures AsyncSetLed(NeighbourExample(), 3, true, Success).groups[3] == 0
    ensures AsyncSetLedCorrected(NeighbourExample(), 3, true, Success).groups[3] == 0xFF
  {
  }
}
