/**
 * Radio-button groups of a KeypadLinc: `set_radio_buttons` and
 * `clear_radio_buttons` stage new ON_MASK / OFF_MASK values, computed bit by
 * bit, where bit `i` of a button's masks stands for button `i + 1`.
 */
module RadioButtons {
  import opened Optional
  import opened Bits
  import opened ConfigProperty
  import opened KeypadLinc

  // ---------------------------------------------------------------------
  // set_radio_buttons
  // ---------------------------------------------------------------------

  /** Bit `bit` of the mask being built for `button` of radio group `group`. */
  function RadioBit(group: seq<int>, button: int, committed: Byte, bit: nat): bool {
    if bit + 1 in group then bit != button - 1 else BitIsSet(committed, bit)
  }

  /** The bit loop: bits `bit` to 7 set one after the other into `acc`. */
  function RadioMaskFrom(group: seq<int>, button: int, committed: Byte, bit: nat, acc: Byte): (r: Byte)
    requires bit <= 8
    ensures forall i: nat :: i < bit ==> BitIsSet(r, i) == BitIsSet(acc, i)
    ensures forall i: nat :: bit <= i < 8 ==> BitIsSet(r, i) == RadioBit(group, button, committed, i)
    decreases 8 - bit
  {
    if bit == 8 then acc
    else RadioMaskFrom(group, button, committed, bit + 1, SetBit(acc, bit, RadioBit(group, button, committed, bit)))
  }

  /**
   * The mask staged for `button`: the bits of the group's members are set,
   * except the button's own bit, which is cleared; all other bits are copied
   * from the committed mask.
   */
  function RadioMask(group: seq<int>, button: int, committed: Byte): (r: Byte)
  {
    RadioMaskFrom(group, button, committed, 0, 0)
  }

  lemma RadioMaskSpec(group: seq<int>, button: int, committed: Byte)
    ensures var r := RadioMask(group, button, committed);
      && (forall i: nat :: i < 8 && i + 1 in group ==> BitIsSet(r, i) == (i != button - 1))
      && (forall i: nat :: i < 8 && i + 1 !in group ==> BitIsSet(r, i) == BitIsSet(committed, i))
  {
  }

  /** `m` has the bits a radio mask of `button` in `group` over `committed` must have. */
  ghost predicate RadioBits(m: Byte, group: seq<int>, button: int, committed: Byte) {
    forall i: nat :: i < 8 ==> BitIsSet(m, i) == (if i + 1 in group then i != button - 1 else BitIsSet(committed, i))
  }

  /**
   * `after` is what `before` must become once `button` of `group` is
   * processed: both masks loaded (with committed value 0 if either one was
   * not), committed values otherwise untouched, and radio masks pending.
   */
  ghost predicate RadioStaged(before: Masks, after: Masks, group: seq<int>, button: int)
    requires ConsistentMasks(before)
  {
    var l := LoadMasks(before);
    && after.on.loaded && after.off.loaded
    && after.on.value == l.on.value && after.off.value == l.off.value
    && after.on.newValue.Some? && after.off.newValue.Some?
    && RadioBits(after.on.newValue.value, group, button, l.on.value.value)
    && RadioBits(after.off.newValue.value, group, button, l.off.value.value)
  }

  /** One pass of the outer loop (lines 274-292) for a known `button`. */
  function StageRadioButton(m: Masks, group: seq<int>, button: int): (r: Masks)
    requires ConsistentMasks(m)
    ensures ConsistentMasks(r)
  {
    var l := LoadMasks(m);
    Masks(Stage(l.on, RadioMask(group, button, l.on.value.value)),
          Stage(l.off, RadioMask(group, button, l.off.value.value)))
  }

  lemma StageRadioButtonSpec(m: Masks, group: seq<int>, button: int)
    requires ConsistentMasks(m)
    ensures RadioStaged(m, StageRadioButton(m, group, button), group, button)
  {
    var l := LoadMasks(m);
    RadioMaskSpec(group, button, l.on.value.value);
    RadioMaskSpec(group, button, l.off.value.value);
  }

  /** Processing a button a second time (a repeated entry) changes nothing more. */
  lemma StageRadioButtonIdempotent(m: Masks, group: seq<int>, button: int)
    requires ConsistentMasks(m)
    ensures StageRadioButton(StageRadioButton(m, group, button), group, button) == StageRadioButton(m, group, button)
  {
  }

  /**
   * The outer loop over the entries `todo` still to be processed: an entry
   * that is not one of `buttons` raises ValueError, a known one has its
   * masks staged.
   */
  function StageRadio(ms: map<int, Masks>, buttons: seq<int>, group: seq<int>, todo: seq<int>): (r: (map<int, Masks>, Option<KeypadError>))
    requires AllConsistent(ms)
    requires forall b :: b in buttons ==> b in ms
    ensures AllConsistent(r.0)
    ensures r.0.Keys == ms.Keys
    decreases |todo|
  {
    if todo == [] then (ms, None)
    else if todo[0] !in buttons then (ms, Some(UnknownButton(todo[0])))
    else
      var b := todo[0];
      StageRadio(ms[b := StageRadioButton(ms[b], group, b)], buttons, group, todo[1..])
  }

  /**
   * `set_radio_buttons(group)`: fewer than two entries raise IndexError
   * before anything is staged; otherwise the entries are processed in order
   * (see SetRadioButtonsStages for what is staged).
   */
  function SetRadioButtons(k: Keypad, group: seq<int>): (r: Staged)
    requires Wf(k)
    ensures Wf(r.dev)
    ensures |group| < 2 ==> r == Staged(k, Some(TooFewButtons))
    ensures r.dev == k.(masks := r.dev.masks)
    ensures r.dev.masks.Keys == k.masks.Keys
  {
    if |group| < 2 then Staged(k, Some(TooFewButtons))
    else
      var (ms, err) := StageRadio(k.masks, k.buttons, group, group);
      WithMasks(k, ms);
      Staged(k.(masks := ms), err)
  }

  /** The exception the outer loop raises: at the first entry that is not a button. */
  lemma {:induction false} StageRadioError(ms: map<int, Masks>, buttons: seq<int>, group: seq<int>, todo: seq<int>)
    requires AllConsistent(ms)
    requires forall b :: b in buttons ==> b in ms
    ensures var j := FirstUnknown(buttons, todo);
            StageRadio(ms, buttons, group, todo).1 == (if j == |todo| then None else Some(UnknownButton(todo[j])))
    decreases |todo|
  {
    if todo != [] && todo[0] in buttons {
      var b0 := todo[0];
      StageRadioError(ms[b0 := StageRadioButton(ms[b0], group, b0)], buttons, group, todo[1..]);
    }
  }

  /** What the outer loop leaves in the masks of button `b`. */
  lemma {:induction false} StageRadioAt(ms: map<int, Masks>, buttons: seq<int>, group: seq<int>, todo: seq<int>, b: int)
    requires AllConsistent(ms)
    requires forall b :: b in buttons ==> b in ms
    requires b in ms
    ensures var j := FirstUnknown(buttons, todo);
            StageRadio(ms, buttons, group, todo).0[b]
              == (if b in todo[..j] then StageRadioButton(ms[b], group, b) else ms[b])
    decreases |todo|
  {
    if todo == [] || todo[0] !in buttons {
      assert todo[..0] == [];
    } else {
      var b0 := todo[0];
      var ms' := ms[b0 := StageRadioButton(ms[b0], group, b0)];
      StageRadioAt(ms', buttons, group, todo[1..], b);
      var j := FirstUnknown(buttons, todo);
      PrefixMembers(todo, j);
      if b == b0 {
        StageRadioButtonIdempotent(ms[b0], group, b0);
      }
    }
  }

  /**
   * The staging `set_radio_buttons(group)` performs. Let `j` be the index of
   * the first entry that is not a button of the device: ValueError is raised
   * there (no error if there is none). Every button among the entries
   * before `j` gets radio masks staged on both ON_MASK and OFF_MASK; those
   * stay staged even when the error is raised later. No other button's
   * masks change.
   */
  lemma SetRadioButtonsStages(k: Keypad, group: seq<int>)
    requires Wf(k)
    requires |group| >= 2
    ensures var r := SetRadioButtons(k, group);
            var j := FirstUnknown(k.buttons, group);
            && r.error == (if j == |group| then None else Some(UnknownButton(group[j])))
            && (forall b :: b in k.masks && b in group[..j] ==> RadioStaged(k.masks[b], r.dev.masks[b], group, b))
            && (forall b :: b in k.masks && b !in group[..j] ==> r.dev.masks[b] == k.masks[b])
  {
    StageRadioError(k.masks, k.buttons, group, group);
    forall b | b in k.masks
      ensures var j := FirstUnknown(k.buttons, group);
              SetRadioButtons(k, group).dev.masks[b]
                == (if b in group[..j] then StageRadioButton(k.masks[b], group, b) else k.masks[b])
      ensures RadioStaged(k.masks[b], StageRadioButton(k.masks[b], group, b), group, b)
    {
      StageRadioAt(k.masks, k.buttons, group, group, b);
      StageRadioButtonSpec(k.masks[b], group, b);
    }
  }

  // ---------------------------------------------------------------------
  // clear_radio_buttons
  // ---------------------------------------------------------------------

  /** Lines 309-311: the device's buttons, in order, that are neither arguments nor button 1. */
  function OtherButtons(buttons: seq<int>, args: seq<int>): (r: seq<int>)
    ensures forall b :: b in r <==> b in buttons && b !in args && b != 1
  {
    if buttons == [] then []
    else (if buttons[0] !in args && buttons[0] != 1 then [buttons[0]] else []) + OtherButtons(buttons[1..], args)
  }

  /** Some argument's bit is set in the pending-or-committed ON or OFF mask. */
  ghost predicate Linked(m: Masks, args: seq<int>)
    requires m.on.value.Some? && m.off.value.Some?
  {
    exists a :: a in args && a >= 1 && (BitIsSet(DirtyRead(m.on), a - 1) || BitIsSet(DirtyRead(m.off), a - 1))
  }

  /**
   * The inner loop of lines 320-334 for other button `o`, with the test of
   * line 332 as written: `on_set or (off_set and o not in addl)`.
   */
  function CollectLinks(m: Masks, o: int, args: seq<int>, addl: seq<int>): (r: seq<int>)
    requires m.on.value.Some? && m.off.value.Some?
    requires forall a :: a in args ==> a >= 1
    ensures forall x :: x in r <==> x in addl || (x == o && Linked(m, args))
  {
    if args == [] then addl
    else
      assert args[0] >= 1 by { assert args[0] in args; }
      var bit := args[0] - 1;
      var onSet := BitIsSet(DirtyRead(m.on), bit);
      var offSet := BitIsSet(DirtyRead(m.off), bit);
      assert forall a :: a in args[1..] ==> a in args;
      var r := CollectLinks(m, o, args[1..], if onSet || (offSet && o !in addl) then addl + [o] else addl);
      assert Linked(m, args) <==> (onSet || offSet || Linked(m, args[1..])) by {
        if Linked(m, args) {
          var a :| a in args && a >= 1 && (BitIsSet(DirtyRead(m.on), a - 1) || BitIsSet(DirtyRead(m.off), a - 1));
          if a != args[0] {
            assert a in args[1..];
          }
        }
        if Linked(m, args[1..]) {
          var a :| a in args[1..] && a >= 1 && (BitIsSet(DirtyRead(m.on), a - 1) || BitIsSet(DirtyRead(m.off), a - 1));
          assert a in args;
        }
        if onSet || offSet {
          assert args[0] in args && args[0] >= 1;
        }
      }
      r
  }

  /** Whether both masks of button `o` have a committed value. */
  predicate HasValues(ms: map<int, Masks>, o: int) {
    o in ms && ms[o].on.value.Some? && ms[o].off.value.Some?
  }

  /** The outer loop of lines 313-334: load every other button's masks and collect the linked ones. */
  function ScanOthers(ms: map<int, Masks>, others: seq<int>, args: seq<int>, addl: seq<int>): (r: (map<int, Masks>, seq<int>))
    requires AllConsistent(ms)
    requires forall o :: o in others ==> o in ms
    requires forall a :: a in args ==> a >= 1
    requires forall o :: o in addl ==> HasValues(ms, o)
    ensures AllConsistent(r.0)
    ensures r.0.Keys == ms.Keys
    ensures forall o :: o in r.1 ==> HasValues(r.0, o)
    decreases |others|
  {
    if others == [] then (ms, addl)
    else
      var o := others[0];
      var m := LoadMasks(ms[o]);
      var addl' := CollectLinks(m, o, args, addl);
      assert forall x :: x in addl' ==> HasValues(ms[o := m], x) by {
        forall x | x in addl' ensures HasValues(ms[o := m], x) {
          if x != o { assert HasValues(ms, x); }
        }
      }
      ScanOthers(ms[o := m], others[1..], args, addl')
  }

  /** Both masks of `m` staged to 0. */
  function ZeroMasks(m: Masks): (r: Masks) {
    Masks(Stage(m.on, 0), Stage(m.off, 0))
  }

  /** Lines 336-341: both masks of every argument staged to 0; KeyError at the first one without masks. */
  function StageZero(ms: map<int, Masks>, args: seq<int>): (r: (map<int, Masks>, Option<KeypadError>))
    requires AllConsistent(ms)
    ensures AllConsistent(r.0)
    ensures r.0.Keys == ms.Keys
    ensures forall o :: HasValues(ms, o) ==> HasValues(r.0, o)
    decreases |args|
  {
    if args == [] then (ms, None)
    else if args[0] !in ms then (ms, Some(NoMaskProperty(args[0])))
    else
      var b := args[0];
      StageZero(ms[b := ZeroMasks(ms[b])], args[1..])
  }

  /**
   * Lines 347-355 for one linked button: for every argument, its bit is
   * cleared in the pending-or-committed value of both masks and the result
   * staged. The committed values stay as they are.
   */
  function ClearBitsOf(m: Masks, args: seq<int>): (r: Masks)
    requires m.on.value.Some? && m.off.value.Some?
    requires forall a :: a in args ==> ValidButton(a)
    ensures r.on.value == m.on.value && r.off.value == m.off.value
    ensures r.on.loaded == m.on.loaded && r.off.loaded == m.off.loaded
    ensures args == [] ==> r == m
    ensures args != [] ==> r.on.newValue.Some? && r.off.newValue.Some?
    decreases |args|
  {
    if args == [] then m
    else
      assert ValidButton(args[0]) by { assert args[0] in args; }
      var bit := args[0] - 1;
      ClearBitsOf(Masks(StageBit(m.on, bit, false), StageBit(m.off, bit, false)), args[1..])
  }

  /**
   * The bits ClearBitsOf leaves: those of the pending-or-committed values,
   * minus the arguments' bits.
   */
  lemma {:induction false} ClearBitsOfSpec(m: Masks, args: seq<int>)
    requires m.on.value.Some? && m.off.value.Some?
    requires forall a :: a in args ==> ValidButton(a)
    ensures var r := ClearBitsOf(m, args);
            forall i: nat :: i < 8 ==>
              && BitIsSet(DirtyRead(r.on), i) == (BitIsSet(DirtyRead(m.on), i) && i + 1 !in args)
              && BitIsSet(DirtyRead(r.off), i) == (BitIsSet(DirtyRead(m.off), i) && i + 1 !in args)
    decreases |args|
  {
    if args != [] {
      assert ValidButton(args[0]) by { assert args[0] in args; }
      var bit := args[0] - 1;
      var m' := Masks(StageBit(m.on, bit, false), StageBit(m.off, bit, false));
      ClearBitsOfSpec(m', args[1..]);
      forall i: nat | i < 8
        ensures && BitIsSet(DirtyRead(m'.on), i) == (BitIsSet(DirtyRead(m.on), i) && i != bit)
                && BitIsSet(DirtyRead(m'.off), i) == (BitIsSet(DirtyRead(m.off), i) && i != bit)
      {
      }
    }
  }

  /** Clearing the same bits twice (a button appended twice to the list) clears them once. */
  lemma ClearBitsOfIdempotent(m: Masks, args: seq<int>)
    requires m.on.value.Some? && m.off.value.Some?
    requires forall a :: a in args ==> ValidButton(a)
    ensures ClearBitsOf(ClearBitsOf(m, args), args) == ClearBitsOf(m, args)
  {
    if args != [] {
      var r1 := ClearBitsOf(m, args);
      var r2 := ClearBitsOf(r1, args);
      ClearBitsOfSpec(m, args);
      ClearBitsOfSpec(r1, args);
      SameBitsSameByte(r2.on.newValue.value, r1.on.newValue.value);
      SameBitsSameByte(r2.off.newValue.value, r1.off.newValue.value);
    }
  }

  /** The outer loop of lines 343-355 over the collected buttons. */
  function ClearLinks(ms: map<int, Masks>, addl: seq<int>, args: seq<int>): (r: map<int, Masks>)
    requires AllConsistent(ms)
    requires forall o :: o in addl ==> HasValues(ms, o)
    requires forall a :: a in args ==> ValidButton(a)
    ensures AllConsistent(r)
    ensures r.Keys == ms.Keys
    decreases |addl|
  {
    if addl == [] then ms
    else
      var o := addl[0];
      assert HasValues(ms, o) by { assert o in addl; }
      var m := ClearBitsOf(ms[o], args);
      assert forall x :: x in addl[1..] ==> HasValues(ms[o := m], x) by {
        forall x | x in addl[1..] ensures HasValues(ms[o := m], x) {
          assert x in addl;
          assert HasValues(ms, x);
        }
      }
      ClearLinks(ms[o := m], addl[1..], args)
  }

  /** The three steps of `clear_radio_buttons` on the mask map: scan, zero, clear links. */
  function ClearMasks(ms: map<int, Masks>, buttons: seq<int>, args: seq<int>): (r: (map<int, Masks>, Option<KeypadError>))
    requires AllConsistent(ms)
    requires forall b :: b in buttons <==> b in ms
    requires forall b :: b in buttons ==> ValidButton(b)
    requires forall a :: a in args ==> a >= 1
    ensures AllConsistent(r.0)
    ensures r.0.Keys == ms.Keys
  {
    var scan := ScanOthers(ms, OtherButtons(buttons, args), args, []);
    var zero := StageZero(scan.0, args);
    if zero.1.Some? then zero
    else
      StageZeroError(scan.0, buttons, args);
      (ClearLinks(zero.0, scan.1, args), None)
  }

  /**
   * `clear_radio_buttons(args)`, step by step as written: scan and load the
   * other buttons, stage the arguments' masks to 0, then clear the
   * arguments' bits in the masks of every linked other button.
   */
  function ClearRadioButtons(k: Keypad, args: seq<int>): (r: Staged)
    requires Wf(k)
    requires forall a :: a in args ==> a >= 1
    ensures Wf(r.dev)
    ensures r.dev == k.(masks := r.dev.masks)
    ensures r.dev.masks.Keys == k.masks.Keys
  {
    var c := ClearMasks(k.masks, k.buttons, args);
    WithMasks(k, c.0);
    Staged(k.(masks := c.0), c.1)
  }

  lemma {:induction false} ScanOthersAt(ms: map<int, Masks>, others: seq<int>, args: seq<int>, addl: seq<int>, b: int)
    requires AllConsistent(ms)
    requires forall o :: o in others ==> o in ms
    requires forall a :: a in args ==> a >= 1
    requires forall o :: o in addl ==> HasValues(ms, o)
    requires b in ms
    ensures ScanOthers(ms, others, args, addl).0[b] == (if b in others then LoadMasks(ms[b]) else ms[b])
    decreases |others|
  {
    if others != [] {
      var o := others[0];
      var m := LoadMasks(ms[o]);
      ScanOthersAt(ms[o := m], others[1..], args, CollectLinks(m, o, args, addl), b);
      assert LoadMasks(m) == m;
      assert b in others ==> b == o || b in others[1..];
    }
  }

  lemma {:induction false} ScanOthersLinks(ms: map<int, Masks>, others: seq<int>, args: seq<int>, addl: seq<int>, x: int)
    requires AllConsistent(ms)
    requires forall o :: o in others ==> o in ms
    requires forall a :: a in args ==> a >= 1
    requires forall o :: o in addl ==> HasValues(ms, o)
    ensures x in ScanOthers(ms, others, args, addl).1 <==> x in addl || (x in others && Linked(LoadMasks(ms[x]), args))
    decreases |others|
  {
    if others != [] {
      var o := others[0];
      var m := LoadMasks(ms[o]);
      ScanOthersLinks(ms[o := m], others[1..], args, CollectLinks(m, o, args, addl), x);
      assert LoadMasks(m) == m;
      assert x in others ==> x == o || x in others[1..];
    }
  }

  lemma {:induction false} StageZeroError(ms: map<int, Masks>, buttons: seq<int>, args: seq<int>)
    requires AllConsistent(ms)
    requires forall b :: b in buttons <==> b in ms
    ensures var j := FirstUnknown(buttons, args);
            StageZero(ms, args).1 == (if j == |args| then None else Some(NoMaskProperty(args[j])))
    decreases |args|
  {
    if args != [] && args[0] in ms {
      var b0 := args[0];
      StageZeroError(ms[b0 := ZeroMasks(ms[b0])], buttons, args[1..]);
    }
  }

  lemma {:induction false} StageZeroAt(ms: map<int, Masks>, buttons: seq<int>, args: seq<int>, b: int)
    requires AllConsistent(ms)
    requires forall b :: b in buttons <==> b in ms
    requires b in ms
    ensures var j := FirstUnknown(buttons, args);
            StageZero(ms, args).0[b] == (if b in args[..j] then ZeroMasks(ms[b]) else ms[b])
    decreases |args|
  {
    if args == [] || args[0] !in ms {
      assert args[..0] == [];
    } else {
      var b0 := args[0];
      StageZeroAt(ms[b0 := ZeroMasks(ms[b0])], buttons, args[1..], b);
      PrefixMembers(args, FirstUnknown(buttons, args));
    }
  }

  lemma {:induction false} ClearLinksAt(ms: map<int, Masks>, addl: seq<int>, args: seq<int>, b: int)
    requires AllConsistent(ms)
    requires forall o :: o in addl ==> HasValues(ms, o)
    requires forall a :: a in args ==> ValidButton(a)
    requires b in ms
    ensures ClearLinks(ms, addl, args)[b] == (if b in addl then ClearBitsOf(ms[b], args) else ms[b])
    decreases |addl|
  {
    if addl != [] {
      var o := addl[0];
      assert HasValues(ms, o) by { assert o in addl; }
      var ms' := ms[o := ClearBitsOf(ms[o], args)];
      assert forall x :: x in addl[1..] ==> HasValues(ms', x) by {
        forall x | x in addl[1..] ensures HasValues(ms', x) {
          assert x in addl;
        }
      }
      ClearLinksAt(ms', addl[1..], args, b);
      assert b in addl ==> b == o || b in addl[1..];
      if b == o {
        ClearBitsOfIdempotent(ms[o], args);
      }
    }
  }

  /**
   * `after` is `before` (already loaded) with the arguments' bits cleared in
   * the pending-or-committed value of both masks, that result staged, and
   * every other bit kept.
   */
  ghost predicate LinksCleared(before: Masks, after: Masks, args: seq<int>)
    requires before.on.value.Some? && before.off.value.Some?
  {
    && after.on.value == before.on.value && after.off.value == before.off.value
    && after.on.loaded == before.on.loaded && after.off.loaded == before.off.loaded
    && after.on.newValue.Some? && after.off.newValue.Some?
    && forall i: nat :: i < 8 ==>
         && BitIsSet(after.on.newValue.value, i) == (BitIsSet(DirtyRead(before.on), i) && i + 1 !in args)
         && BitIsSet(after.off.newValue.value, i) == (BitIsSet(DirtyRead(before.off), i) && i + 1 !in args)
  }

  /** What `clear_radio_buttons(args)` leaves in the masks of button `b` (see ClearRadioButtonsSpec). */
  ghost predicate ClearedAt(ms: map<int, Masks>, buttons: seq<int>, args: seq<int>, after: Masks, b: int)
    requires AllConsistent(ms) && b in ms
  {
    var j := FirstUnknown(buttons, args);
    if b in args[..j] then after == ZeroMasks(ms[b])
    else if b in args || b == 1 then after == ms[b]
    else
      var l := LoadMasks(ms[b]);
      if j == |args| && Linked(l, args) then LinksCleared(l, after, args)
      else after == l
  }

  /** The error ClearMasks reports, and its result in terms of its steps. */
  lemma ClearMasksSteps(ms: map<int, Masks>, buttons: seq<int>, args: seq<int>)
    requires AllConsistent(ms)
    requires forall b :: b in buttons <==> b in ms
    requires forall b :: b in buttons ==> ValidButton(b)
    requires forall a :: a in args ==> a >= 1
    ensures var scan := ScanOthers(ms, OtherButtons(buttons, args), args, []);
            var zero := StageZero(scan.0, args);
            var r := ClearMasks(ms, buttons, args);
            var j := FirstUnknown(buttons, args);
            && r.1 == zero.1
            && r.1 == (if j == |args| then None else Some(NoMaskProperty(args[j])))
            && (zero.1.None? <==> j == |args|)
            && (zero.1.Some? ==> r.0 == zero.0)
            && (zero.1.None? ==> r.0 == ClearLinks(zero.0, scan.1, args))
  {
    var scan := ScanOthers(ms, OtherButtons(buttons, args), args, []);
    StageZeroError(scan.0, buttons, args);
  }

  /** The masks of button `b` after the scan and the zeroing steps. */
  lemma ClearZeroedAt(ms: map<int, Masks>, buttons: seq<int>, args: seq<int>, b: int)
    requires AllConsistent(ms)
    requires forall b :: b in buttons <==> b in ms
    requires forall a :: a in args ==> a >= 1
    requires b in ms
    ensures var scan := ScanOthers(ms, OtherButtons(buttons, args), args, []);
            var j := FirstUnknown(buttons, args);
            StageZero(scan.0, args).0[b]
              == if b in args[..j] then ZeroMasks(ms[b])
                 else if b in args || b == 1 then ms[b]
                 else LoadMasks(ms[b])
  {
    var others := OtherButtons(buttons, args);
    var scan := ScanOthers(ms, others, args, []);
    assert b in others <==> b !in args && b != 1 by { assert b in buttons; }
    ScanOthersAt(ms, others, args, [], b);
    StageZeroAt(scan.0, buttons, args, b);
  }

  /** Button `b` is collected by the scan exactly when it is another button linked to an argument. */
  lemma ClearCollectedAt(ms: map<int, Masks>, buttons: seq<int>, args: seq<int>, b: int)
    requires AllConsistent(ms)
    requires forall b :: b in buttons <==> b in ms
    requires forall a :: a in args ==> a >= 1
    requires b in ms
    ensures var scan := ScanOthers(ms, OtherButtons(buttons, args), args, []);
            b in scan.1 <==> b !in args && b != 1 && Linked(LoadMasks(ms[b]), args)
  {
    var others := OtherButtons(buttons, args);
    assert b in others <==> b !in args && b != 1 by { assert b in buttons; }
    ScanOthersLinks(ms, others, args, [], b);
  }

  /** The masks ClearMasks leaves for button `b`. */
  lemma ClearMasksAt(ms: map<int, Masks>, buttons: seq<int>, args: seq<int>, b: int)
    requires AllConsistent(ms)
    requires forall b :: b in buttons <==> b in ms
    requires forall b :: b in buttons ==> ValidButton(b)
    requires forall a :: a in args ==> a >= 1
    requires b in ms
    ensures var j := FirstUnknown(buttons, args);
            var l := LoadMasks(ms[b]);
            ClearMasks(ms, buttons, args).0[b]
              == if b in args[..j] then ZeroMasks(ms[b])
                 else if b in args || b == 1 then ms[b]
                 else if j == |args| && Linked(l, args) then ClearBitsOf(l, args)
                 else l
  {
    var scan := ScanOthers(ms, OtherButtons(buttons, args), args, []);
    var zero := StageZero(scan.0, args);
    var j := FirstUnknown(buttons, args);
    var r := ClearMasks(ms, buttons, args).0;
    ClearZeroedAt(ms, buttons, args, b);
    if zero.1.Some? {
      assert j < |args| && r == zero.0 by { ClearMasksSteps(ms, buttons, args); }
    } else {
      assert j == |args| && r == ClearLinks(zero.0, scan.1, args) by { ClearMasksSteps(ms, buttons, args); }
      assert args[..j] == args;
      ClearCollectedAt(ms, buttons, args, b);
      ClearLinksAt(zero.0, scan.1, args, b);
    }
  }

  /** ClearMasks leaves button `b` as ClearedAt describes. */
  lemma ClearMasksClearedAt(ms: map<int, Masks>, buttons: seq<int>, args: seq<int>, b: int)
    requires AllConsistent(ms)
    requires forall b :: b in buttons <==> b in ms
    requires forall b :: b in buttons ==> ValidButton(b)
    requires forall a :: a in args ==> a >= 1
    requires b in ms
    ensures ClearedAt(ms, buttons, args, ClearMasks(ms, buttons, args).0[b], b)
  {
    ClearMasksAt(ms, buttons, args, b);
    var j := FirstUnknown(buttons, args);
    var l := LoadMasks(ms[b]);
    if b !in args[..j] && b !in args && b != 1 && j == |args| && Linked(l, args) {
      ClearBitsOfSpec(l, args);
      assert args != [];
    }
  }

  /**
   * What `clear_radio_buttons(args)` does to every button `b`, with `j` the
   * index of the first argument that is not a button of the device (KeyError
   * is raised there; no error if there is none):
   *  - an argument before `j` gets both masks staged to 0;
   *  - button 1, and an argument at or after `j` that is not earlier, are untouched;
   *  - every other button has its masks loaded; if no error was raised and
   *    one of the arguments' bits is set in its pending-or-committed ON or
   *    OFF mask, exactly the arguments' bits are cleared in both masks and
   *    the rest kept; otherwise nothing more is changed.
   */
  lemma ClearRadioButtonsSpec(k: Keypad, args: seq<int>)
    requires Wf(k)
    requires forall a :: a in args ==> a >= 1
    ensures var r := ClearRadioButtons(k, args);
            var j := FirstUnknown(k.buttons, args);
            && r.error == (if j == |args| then None else Some(NoMaskProperty(args[j])))
            && forall b :: b in k.masks ==> ClearedAt(k.masks, k.buttons, args, r.dev.masks[b], b)
  {
    assert ClearRadioButtons(k, args).error == ClearMasks(k.masks, k.buttons, args).1;
    ClearMasksSteps(k.masks, k.buttons, args);
    forall b | b in k.masks
      ensures ClearedAt(k.masks, k.buttons, args, ClearRadioButtons(k, args).dev.masks[b], b)
    {
      ClearMasksClearedAt(k.masks, k.buttons, args, b);
    }
  }
}
