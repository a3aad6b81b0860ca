/** Result codes a command exchange reports back to the device classes. */
module Responses {

  /**
   * The transport's verdict on one command. The device code only tells
   * SUCCESS and DIRECT_NAK_PRE_NAK apart from the rest; every other code
   * (plain failure, timeout, ...) is handled like `Failure`.
   */
  datatype ResponseStatus = Success | Failure | DirectNakPreNak
}

/**
 * The state of a KeypadLinc that its button-mask and LED logic works on:
 * the buttons, the ON_MASK and OFF_MASK property of every button, the
 * device-wide NON_TOGGLE_MASK and NON_TOGGLE_ON_OFF_MASK properties, and the
 * on/off value of every button's group.
 */
module KeypadLinc {
  import opened Optional
  import opened Bits
  import opened ConfigProperty

  /** The ON_MASK and OFF_MASK properties of one button. */
  datatype Masks = Masks(on: Prop, off: Prop)

  datatype Keypad = Keypad(
    buttons: seq<int>,          // the keys of the device's button table, in order
    masks: map<int, Masks>,     // button -> its ON_MASK / OFF_MASK properties
    nonToggle: Prop,            // NON_TOGGLE_MASK
    nonToggleOnOff: Prop,       // NON_TOGGLE_ON_OFF_MASK
    groups: map<int, int>)      // group number -> current value of its on/off group

  /** The exceptions the mask-editing methods raise. */
  datatype KeypadError =
    | TooFewButtons                 // IndexError: fewer than two radio buttons
    | UnknownButton(button: int)    // ValueError: not a button of this device
    | InvalidToggleMode(mode: int)  // ValueError: not one of the toggle modes
    | NoMaskProperty(button: int)   // KeyError: the button has no mask properties

  /**
   * The state after a method that may raise part-way: edits made before the
   * exception stay staged (there is no rollback).
   */
  datatype Staged = Staged(dev: Keypad, error: Option<KeypadError>)

  /** The outcome of a method that raises before changing anything. */
  datatype Checked = Ok(dev: Keypad) | Err(error: KeypadError)

  /** KeypadLinc buttons are numbered 1 to 8; button `b` owns bit `b - 1` of every mask. */
  predicate ValidButton(b: int) {
    1 <= b <= 8
  }

  predicate ConsistentMasks(m: Masks) {
    Consistent(m.on) && Consistent(m.off)
  }

  /**
   * What device registration guarantees: distinct buttons numbered 1 to 8,
   * mask properties and an on/off group for exactly those buttons, and
   * consistent properties.
   */
  predicate Wf(k: Keypad) {
    && (forall i, j :: 0 <= i < j < |k.buttons| ==> k.buttons[i] != k.buttons[j])
    && (forall b :: b in k.buttons ==> ValidButton(b))
    && (forall b :: b in k.buttons ==> b in k.masks)
    && (forall b :: b in k.masks ==> b in k.buttons)
    && k.groups.Keys == k.masks.Keys
    && AllConsistent(k.masks)
    && Consistent(k.nonToggle)
    && Consistent(k.nonToggleOnOff)
  }

  predicate AllConsistent(ms: map<int, Masks>) {
    forall b :: b in ms ==> ConsistentMasks(ms[b])
  }

  /** Replacing the mask table by one with the same buttons and consistent masks keeps a keypad well formed. */
  lemma WithMasks(k: Keypad, ms: map<int, Masks>)
    requires Wf(k)
    requires ms.Keys == k.masks.Keys
    requires AllConsistent(ms)
    ensures Wf(k.(masks := ms))
  {
  }

  /** The load guard applied to one button's ON_MASK / OFF_MASK pair. */
  function LoadMasks(m: Masks): (r: Masks)
    requires ConsistentMasks(m)
    ensures ConsistentMasks(r)
    ensures r.on.loaded && r.off.loaded && r.on.value.Some? && r.off.value.Some?
    ensures r.on.newValue == m.on.newValue && r.off.newValue == m.off.newValue
  {
    var (on, off) := LoadPair(m.on, m.off);
    Masks(on, off)
  }

  /** Index of the first entry of `xs` that is not in `buttons`, or `|xs|` if there is none. */
  function FirstUnknown(buttons: seq<int>, xs: seq<int>): (j: nat)
    ensures j <= |xs|
    ensures forall i :: 0 <= i < j ==> xs[i] in buttons
    ensures j < |xs| ==> xs[j] !in buttons
    ensures j == |xs| ==> forall x :: x in xs ==> x in buttons
  {
    if xs == [] then 0
    else if xs[0] !in buttons then 0
    else
      var j := 1 + FirstUnknown(buttons, xs[1..]);
      assert forall x :: x in xs ==> x == xs[0] || x in xs[1..];
      j
  }

  /** Membership in a non-empty prefix, split at the head. */
  lemma PrefixMembers(xs: seq<int>, j: nat)
    requires 1 <= j <= |xs|
    ensures forall b :: b in xs[..j] <==> b == xs[0] || b in xs[1..][..j - 1]
  {
    assert xs[..j] == [xs[0]] + xs[1..][..j - 1];
  }
}
