/**
 * One byte-wide configuration property of a device (an ON_MASK, OFF_MASK,
 * NON_TOGGLE_MASK, ...), as the KeypadLinc methods use it: a committed value
 * read from or written to the device, a pending value staged locally, and a
 * flag telling whether a value was ever loaded.
 *
 * The property class itself lives outside the modelled files; its behaviour
 * is taken from the way the KeypadLinc methods use it:
 *  - `set_value(v)` makes `v` the committed value and marks the property
 *    loaded; it does not touch the pending value;
 *  - assigning `new_value` stages that value as pending;
 *  - `is_dirty` holds when a pending value exists and differs from the
 *    committed one;
 *  - a loaded property always has a committed value (`Consistent`).
 */
module ConfigProperty {
  import opened Optional
  import opened Bits

  datatype Prop = Prop(value: Option<Byte>, newValue: Option<Byte>, loaded: bool)

  /** A property that was never read or written. */
  const Unloaded: Prop := Prop(None, None, false)

  /** Representation invariant: a loaded property has a committed value. */
  predicate Consistent(p: Prop) {
    p.loaded ==> p.value.Some?
  }

  /** `set_value(v)`. */
  function SetValue(p: Prop, v: Byte): (r: Prop) {
    p.(value := Some(v), loaded := true)
  }

  /** `new_value = v`. */
  function Stage(p: Prop, v: Byte): (r: Prop) {
    p.(newValue := Some(v))
  }

  /** `is_dirty`: a pending value that differs from the committed one. */
  predicate IsDirty(p: Prop) {
    p.newValue.Some? && p.newValue != p.value
  }

  /**
   * The value read by `new_value if is_dirty else value` (the readers of
   * clear_radio_buttons). It is the same byte as the one read by
   * `value if new_value is None else new_value` (set_toggle_mode), so the two
   * styles of reader in the source never disagree.
   */
  function DirtyRead(p: Prop): (r: Byte)
    requires p.value.Some?
    ensures r == (if p.newValue.None? then p.value.value else p.newValue.value)
  {
    if IsDirty(p) then p.newValue.value else p.value.value
  }

  /**
   * The edit every mask method makes: bit `i` of the pending-or-committed
   * value forced to `on`, and the result staged.
   */
  function StageBit(p: Prop, i: nat, on: bool): (r: Prop)
    requires p.value.Some? && i < 8
    ensures r.value == p.value && r.loaded == p.loaded && r.newValue.Some?
    ensures BitIsSet(DirtyRead(r), i) == on
    ensures forall j: nat :: j != i ==> BitIsSet(DirtyRead(r), j) == BitIsSet(DirtyRead(p), j)
  {
    Stage(p, SetBit(DirtyRead(p), i, on))
  }

  /** Forcing the same bit to the same value twice is the same as once. */
  lemma StageBitIdempotent(p: Prop, i: nat, on: bool)
    requires p.value.Some? && i < 8
    ensures StageBit(StageBit(p, i, on), i, on) == StageBit(p, i, on)
  {
    var r1 := StageBit(p, i, on);
    var r2 := StageBit(r1, i, on);
    SameBitsSameByte(r2.newValue.value, r1.newValue.value);
  }

  /** Edits of two different bits commute. */
  lemma StageBitCommutes(p: Prop, i: nat, a: bool, j: nat, b: bool)
    requires p.value.Some? && i < 8 && j < 8 && i != j
    ensures StageBit(StageBit(p, i, a), j, b) == StageBit(StageBit(p, j, b), i, a)
  {
    var x := StageBit(StageBit(p, i, a), j, b);
    var y := StageBit(StageBit(p, j, b), i, a);
    SameBitsSameByte(x.newValue.value, y.newValue.value);
  }

  /**
   * The load guard shared by set_radio_buttons, clear_radio_buttons and
   * set_toggle_mode: when either property of a pair was never loaded, both
   * get the committed value 0, even the one that was loaded.
   */
  function LoadPair(a: Prop, b: Prop): (r: (Prop, Prop))
    requires Consistent(a) && Consistent(b)
    ensures r.0.loaded && r.1.loaded
    ensures r.0.value.Some? && r.1.value.Some?
    ensures a.loaded && b.loaded ==> r == (a, b)
    ensures !(a.loaded && b.loaded) ==> r.0.value == Some(0) && r.1.value == Some(0)
    ensures r.0.newValue == a.newValue && r.1.newValue == b.newValue
  {
    if !a.loaded || !b.loaded then (SetValue(a, 0), SetValue(b, 0)) else (a, b)
  }

  /**
   * A successful write acknowledged with byte `v`: the device's answer
   * becomes the committed value and nothing stays pending. The write path is
   * not part of this model; this is the commit rule of the property layer,
   * used only to state what a staged mask means once it reaches the device.
   */
  function Commit(p: Prop, v: Byte): (r: Prop)
    ensures r.loaded && r.value == Some(v) && !IsDirty(r)
  {
    Prop(Some(v), None, true)
  }
}
