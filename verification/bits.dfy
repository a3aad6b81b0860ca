/**
 * Byte-level helpers shared by the device models: an optional value, and
 * the `bit_is_set` / `set_bit` pair the device classes use to read and edit
 * bit masks held in one byte of device memory.
 */
module Optional {

  /** A value that may be absent (Python's `None`). */
  datatype Option<+T> = None | Some(value: T)
}

module Bits {

  /** One byte of device configuration memory or of a status report. */
  type Byte = bv8

  /** The single-bit mask `1 << i` of bit position `i` inside a byte. */
  function Mask(i: nat): (m: Byte)
    requires i < 8
  {
    if i == 0 then 0x01
    else if i == 1 then 0x02
    else if i == 2 then 0x04
    else if i == 3 then 0x08
    else if i == 4 then 0x10
    else if i == 5 then 0x20
    else if i == 6 then 0x40
    else 0x80
  }

  /**
   * `bit_is_set(x, i)`: whether bit `i` of the byte `x` is one. A byte has no
   * bit at position 8 or above, so those positions always read as clear.
   */
  function BitIsSet(x: Byte, i: nat): (r: bool)
    ensures r ==> i < 8 && x != 0
  {
    i < 8 && x & Mask(i) != 0
  }

  /**
   * `BitIsSet` agrees with the other usual reading of bit `i`: shift it down
   * to position 0 and look at the parity.
   */
  lemma BitIsSetShifted(x: Byte, i: nat)
    ensures BitIsSet(x, i) <==> i < 8 && (x >> i) % 2 == 1
  {
  }

  /** `set_bit(x, i, on)`: the byte `x` with bit `i` forced to `on`. */
  function SetBit(x: Byte, i: nat, on: bool): (r: Byte)
    requires i < 8
    ensures BitIsSet(r, i) == on
    ensures forall j: nat :: j != i ==> BitIsSet(r, j) == BitIsSet(x, j)
  {
    var r := if on then x | Mask(i) else x & !Mask(i);
    MaskSelf(x, i, on);
    forall j: nat | j != i ensures BitIsSet(r, j) == BitIsSet(x, j) {
      if j < 8 {
        MaskOther(x, i, on, j);
      }
    }
    r
  }

  /** Forcing bit `i` leaves exactly `on` at position `i`. */
  lemma MaskSelf(x: Byte, i: nat, on: bool)
    requires i < 8
    ensures (if on then x | Mask(i) else x & !Mask(i)) & Mask(i) == (if on then Mask(i) else 0)
  {
  }

  /** Forcing bit `i` does not disturb bit `j`. */
  lemma MaskOther(x: Byte, i: nat, on: bool, j: nat)
    requires i < 8 && j < 8 && i != j
    ensures (if on then x | Mask(i) else x & !Mask(i)) & Mask(j) == x & Mask(j)
  {
    assert Mask(i) & Mask(j) == 0;
  }

  /** Two bytes that agree on all eight bits are the same byte. */
  lemma {:induction false} SameBitsSameByte(x: Byte, y: Byte)
    requires forall i: nat :: i < 8 ==> BitIsSet(x, i) == BitIsSet(y, i)
    ensures x == y
  {
    assert BitIsSet(x, 0) == BitIsSet(y, 0);
    assert BitIsSet(x, 1) == BitIsSet(y, 1);
    assert BitIsSet(x, 2) == BitIsSet(y, 2);
    assert BitIsSet(x, 3) == BitIsSet(y, 3);
    assert BitIsSet(x, 4) == BitIsSet(y, 4);
    assert BitIsSet(x, 5) == BitIsSet(y, 5);
    assert BitIsSet(x, 6) == BitIsSet(y, 6);
    assert BitIsSet(x, 7) == BitIsSet(y, 7);
  }
}
