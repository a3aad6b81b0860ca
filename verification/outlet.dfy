/**
 * The status report of an On/Off outlet: one byte whose bit 0 tells whether
 * the top outlet is on and bit 1 whether the bottom one is.
 */
module OnOffOutlet {
  import opened Bits

  /** The outlets' group numbers. */
  const TopGroup: int := 1
  const BottomGroup: int := 2

  /** The group value a status bit becomes: 1 when set, 0 when clear. */
  function OutletValue(status: Byte, i: nat): (v: int)
    requires i < 8
    ensures v == 0 || v == 1
    ensures v == 1 <==> BitIsSet(status, i)
  {
    if status & Mask(i) != 0 then 1 else 0
  }

  /**
   * `_handle_status(status)`: the top group takes bit 0 and the bottom
   * group bit 1 of the status byte; no other group changes.
   */
  function HandleStatus(groups: map<int, int>, status: Byte): (r: map<int, int>)
    ensures r.Keys == groups.Keys + {TopGroup, BottomGroup}
    ensures forall g :: g in groups && g != TopGroup && g != BottomGroup ==> r[g] == groups[g]
    ensures r[TopGroup] == 0 || r[TopGroup] == 1
    ensures r[BottomGroup] == 0 || r[BottomGroup] == 1
  {
    groups[TopGroup := OutletValue(status, 0)][BottomGroup := OutletValue(status, 1)]
  }

  /** The status byte a device in the given state reports in its two low bits. */
  function StatusByte(topOn: bool, bottomOn: bool): (s: Byte)
    ensures BitIsSet(s, 0) == topOn && BitIsSet(s, 1) == bottomOn
  {
    SetBit(SetBit(0, 0, topOn), 1, bottomOn)
  }

  /** Decoding a reported state recovers it: each outlet is on exactly when it was reported on. */
  lemma HandleStatusRoundTrip(groups: map<int, int>, topOn: bool, bottomOn: bool)
    ensures var r := HandleStatus(groups, StatusByte(topOn, bottomOn));
            && (r[TopGroup] == 1 <==> topOn)
            && (r[BottomGroup] == 1 <==> bottomOn)
  {
  }

  /** Only the two low bits matter: every other bit of the status byte is ignored. */
  lemma HandleStatusIgnoresHighBits(groups: map<int, int>, s: Byte, t: Byte)
    requires BitIsSet(s, 0) == BitIsSet(t, 0) && BitIsSet(s, 1) == BitIsSet(t, 1)
    ensures HandleStatus(groups, s) == HandleStatus(groups, t)
  {
  }
}
