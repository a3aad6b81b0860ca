# KeypadLinc masks and LEDs, On/Off outlet status, thermostat routing

A Dafny model of two pieces of byte-level decision logic in pyinsteon's
device classes, and proofs of what they promise.

- **KeypadLinc** (`SwitchedLightingControl_KeypadLinc`). Every button owns an
  ON_MASK and an OFF_MASK configuration byte, in which bit `i` stands for
  button `i + 1`. The device also has a NON_TOGGLE_MASK and a
  NON_TOGGLE_ON_OFF_MASK.
  - `set_radio_buttons`, `clear_radio_buttons` and `set_toggle_mode` stage new
    mask values bit by bit. Each reads either the committed value or the
    value already pending.
  - `_change_led_status` encodes the eight LED states of a set-LEDs command.
  - `_led_status` decodes a status byte into the LED groups.
  - `_update_leds` and `_led_follow_check` apply the toggle and follow masks
    to the group values.
  - `async_on` / `async_off` change the groups only when the send succeeds.
- **On/Off outlet**. `_handle_status` decodes the top and bottom outlet from
  a status byte.
- **Thermostat** (`ClimateControl_Thermostat`).
  - Set-point and humidity arguments are clamped, and the humidity groups are
    updated only when the send succeeds.
  - Python's weekday number is mapped to the device's day number.
  - Status, set-point, mode and temperature reports are routed into groups,
    with the Fahrenheit conversion gated by the CELSIUS flag.
  - The CELSIUS subscriber replaces itself on its first notification.

Files:
- `bits.dfy`: `Optional` and `Bits`. A byte is `bv8`; `BitIsSet` and
  `SetBit` model `bit_is_set` and `set_bit`.
- `property.dfy`: `ConfigProperty`, the configuration-property record
  `{value, newValue, loaded}`.
- `keypad.dfy`: `Responses` and `KeypadLinc`, the keypad state and its
  errors.
- `radio.dfy`: `RadioButtons`.
- `toggle.dfy`: `ToggleButtons`.
- `leds.dfy`: `KeypadLeds`.
- `outlet.dfy`: `OnOffOutlet`.
- `thermostat.dfy`: `Thermostat`.

Operations are pure functions. A method that raises part-way returns
`Staged(dev, error)`: edits made before the exception stay staged, because
the source does not roll back. A method that raises before it changes
anything returns `Checked`.

The property class is not part of this model. Its behaviour is taken from
how these methods use it:
- `set_value(v)` commits `v` and marks the property loaded, leaving the
  pending value alone;
- assigning `new_value` stages a value;
- `is_dirty` means that a pending value exists and differs from the
  committed one.

With these, `new_value if is_dirty else value` (used by
`clear_radio_buttons`) and `value if new_value is None else new_value` (used
by `set_toggle_mode`) read the same byte (`ConfigProperty.DirtyRead`).

## Model

| member | source | states |
|---|---|---|
| Bits.BitIsSet | pyinsteon/device_types/switched_lighting_control.py:287-288 | a bit position of 8 or more reads as clear, and a set bit means the byte is not zero |
| Bits.BitIsSetShifted | pyinsteon/device_types/switched_lighting_control.py:287-288 | bit `i` reads as set exactly when `i < 8` and the byte shifted right by `i` is odd |
| Bits.SetBit | pyinsteon/device_types/switched_lighting_control.py:289-290 | `set_bit(x, i, on)` makes bit `i` equal to `on` and keeps every other bit |
| ConfigProperty.DirtyRead | pyinsteon/device_types/switched_lighting_control.py:321-330 | the dirty-gated read gives the pending value when one exists and the committed value otherwise, the same as the `new_value is None` reader of lines 383-391 |
| ConfigProperty.StageBit | pyinsteon/device_types/switched_lighting_control.py:348-355 | forcing one bit of the pending-or-committed value and staging it sets that bit as asked, keeps every other bit of the read value, and leaves the committed value and loaded flag alone |
| ConfigProperty.StageBitIdempotent | pyinsteon/device_types/switched_lighting_control.py:348-355 | forcing the same bit to the same value twice stages the same as once |
| ConfigProperty.StageBitCommutes | pyinsteon/device_types/switched_lighting_control.py:393-401 | edits of two different bits can be made in either order |
| ConfigProperty.LoadPair | pyinsteon/device_types/switched_lighting_control.py:277-279 | if either mask of a pair is unloaded, both get committed value 0, even the loaded one; if both are loaded nothing changes; pending values are kept |
| KeypadLinc.FirstUnknown | pyinsteon/device_types/switched_lighting_control.py:271-273 | the index of the first entry that is not a device button: every earlier entry is a button, the entry there is not, and if the index is the length then every entry is a button |
| RadioButtons.RadioMaskSpec | pyinsteon/device_types/switched_lighting_control.py:280-290 | in the mask built for `button`, bit `i` of a group member is set exactly when `i != button - 1`; every other bit is copied from the committed mask |
| RadioButtons.StageRadioButtonSpec | pyinsteon/device_types/switched_lighting_control.py:274-292 | one pass of the loop loads the pair (0 if either was unloaded), keeps the committed values, and stages radio masks on both ON_MASK and OFF_MASK |
| RadioButtons.StageRadioButtonIdempotent | pyinsteon/device_types/switched_lighting_control.py:271-292 | a button listed twice gets the same masks as a button listed once |
| RadioButtons.SetRadioButtons | pyinsteon/device_types/switched_lighting_control.py:268-269 | fewer than two entries raise IndexError with nothing staged; the keypad stays well formed and only the masks change |
| RadioButtons.SetRadioButtonsStages | pyinsteon/device_types/switched_lighting_control.py:262-292 | ValueError is raised exactly at the first entry that is not a button; every button before it has radio masks staged on both masks, which stay staged despite the error; no other button's masks change |
| RadioButtons.OtherButtons | pyinsteon/device_types/switched_lighting_control.py:309-311 | the buttons to scan are exactly the device's buttons that are neither arguments nor button 1 |
| RadioButtons.CollectLinks | pyinsteon/device_types/switched_lighting_control.py:320-334 | a scanned button is collected exactly when some argument's bit is set in its pending-or-committed ON_MASK or OFF_MASK; the precedence of line 332 can append it twice, but membership is the same |
| RadioButtons.ScanOthersLinks | pyinsteon/device_types/switched_lighting_control.py:313-334 | after the scan, a button is in the collected list exactly when it was scanned and is linked to an argument |
| RadioButtons.ScanOthersAt | pyinsteon/device_types/switched_lighting_control.py:313-319 | the scan loads the masks of every scanned button and touches no other button |
| RadioButtons.StageZeroError | pyinsteon/device_types/switched_lighting_control.py:336-341 | zeroing raises KeyError exactly at the first argument that is not a button, and not at all if every argument is one |
| RadioButtons.StageZeroAt | pyinsteon/device_types/switched_lighting_control.py:336-341 | every argument before the failing one has both masks staged to 0; every other button is untouched |
| RadioButtons.ClearBitsOfSpec | pyinsteon/device_types/switched_lighting_control.py:343-355 | for a collected button, exactly the arguments' bits are cleared in the pending-or-committed value of both masks, and every other bit is kept |
| RadioButtons.ClearBitsOfIdempotent | pyinsteon/device_types/switched_lighting_control.py:332-333 | clearing the bits of a button collected twice is the same as clearing them once |
| RadioButtons.ClearLinksAt | pyinsteon/device_types/switched_lighting_control.py:343-355 | after the last loop, a collected button has the arguments' bits cleared and every other button is unchanged, even when a button was collected twice |
| RadioButtons.ClearRadioButtons | pyinsteon/device_types/switched_lighting_control.py:294-355 | the keypad stays well formed, only the masks change, and every button keeps its masks entry |
| RadioButtons.ClearMasksSteps | pyinsteon/device_types/switched_lighting_control.py:336-343 | KeyError is raised at the first argument that is not a button; the collected buttons are cleared only if no error was raised |
| RadioButtons.ClearMasksAt | pyinsteon/device_types/switched_lighting_control.py:309-355 | the masks one button ends with: zero if it is an argument before the failing one; unchanged if it is button 1 or another argument; otherwise loaded, and with the arguments' bits cleared if no error was raised and it is linked |
| RadioButtons.ClearRadioButtonsSpec | pyinsteon/device_types/switched_lighting_control.py:294-355 | the error of `clear_radio_buttons`, and for every button the masks it ends with as in ClearMasksAt, with "bits cleared" spelled out bit by bit |
| ToggleButtons.ModeOf | pyinsteon/device_types/switched_lighting_control.py:370-375 | `ToggleMode(m)` is defined exactly for 0, 1 and 2 |
| ToggleButtons.ModeNumbering | pyinsteon/device_types/switched_lighting_control.py:370-375 | mode numbers and modes are inverse to each other, both ways round |
| ToggleButtons.LoadToggleMasks | pyinsteon/device_types/switched_lighting_control.py:377-381 | after the guard both device-wide masks are loaded and the keypad stays well formed |
| ToggleButtons.StageMode | pyinsteon/device_types/switched_lighting_control.py:393-401 | the staged pair keeps committed values and loaded flags and has pending values on both masks |
| ToggleButtons.StageModeCommutes | pyinsteon/device_types/switched_lighting_control.py:393-401 | the modes of two different bits can be staged in either order |
| ToggleButtons.SetToggleMode | pyinsteon/device_types/switched_lighting_control.py:367-401 | an unknown button raises ValueError first, then a mode outside 0..2 raises ValueError, each with nothing staged; it succeeds exactly otherwise, and then only the two device-wide masks change |
| ToggleButtons.SetToggleModeBits | pyinsteon/device_types/switched_lighting_control.py:377-401 | the non-toggle bit of the button is set unless the mode is TOGGLE; the on/off bit is set only for ON_ONLY; every other bit is the pending value if one exists, else the committed value |
| ToggleButtons.ToggleModeRoundTrip | pyinsteon/device_types/switched_lighting_control.py:393-401 | reading the mode back from the staged masks gives the mode that was set |
| ToggleButtons.SetToggleModeKeepsOthers | pyinsteon/device_types/switched_lighting_control.py:393-401 | setting one button's mode leaves the mode of every other button as the loaded masks had it |
| ToggleButtons.SetToggleModeIdempotent | pyinsteon/device_types/switched_lighting_control.py:357-401 | setting the same mode twice stages the same as setting it once |
| ToggleButtons.SetToggleModeCommutes | pyinsteon/device_types/switched_lighting_control.py:357-401 | modes of two different buttons can be set in either order |
| KeypadLeds.ChangeLedStatus | pyinsteon/device_types/switched_lighting_control.py:444-451 | exactly eight LED states; the target LED gets `is_on`; every other LED shows whether its group is on, and False if the group is absent |
| KeypadLeds.LedStatus | pyinsteon/device_types/switched_lighting_control.py:467-472 | the groups keep their keys, and group 1 and every group outside 2..8 keep their value |
| KeypadLeds.LedStatusFrom | pyinsteon/device_types/switched_lighting_control.py:469-472 | each group 2..8 that the device has takes bit `group - 1` of the status byte |
| KeypadLeds.LedStatusDecodes | pyinsteon/device_types/switched_lighting_control.py:469-472 | after a status report, a present group `g` in 2..8 holds 1 if bit `g - 1` is set and 0 otherwise |
| KeypadLeds.LedStatusRoundTrip | pyinsteon/device_types/switched_lighting_control.py:444-472 | decoding the states a set-LEDs command encodes gives every LED group 2..8 the state the command gave it, and leaves group 1 alone |
| KeypadLeds.UpdateLedsAt | pyinsteon/device_types/switched_lighting_control.py:453-464 | an absent group is left alone; a group whose examined bit is set in the committed NON_TOGGLE_MASK is forced to 0; otherwise it takes the value; no other group changes |
| KeypadLeds.UpdateLedsAsWritten | pyinsteon/device_types/switched_lighting_control.py:453-464 | as written: a present group becomes 0 when bit `group` of the committed NON_TOGGLE_MASK is set (the bit of the next button) and takes the value otherwise; no other group changes |
| KeypadLeds.UpdateLeds | pyinsteon/device_types/switched_lighting_control.py:453-464 | corrected: a present group becomes 0 when bit `group - 1`, its own button's bit, is set in the committed NON_TOGGLE_MASK and takes the value otherwise; no other group changes |
| KeypadLeds.UpdateLedsHonoursToggleMode | pyinsteon/device_types/switched_lighting_control.py:453-464 | corrected `_update_leds`: once `set_toggle_mode(b, mode)` has reached the device, the button's group takes the requested value in TOGGLE mode and 0 otherwise |
| KeypadLeds.UpdateLedsAsWrittenIgnoresButton8 | pyinsteon/device_types/switched_lighting_control.py:458 | as written, button 8 in a non-toggle mode still takes the requested value |
| KeypadLeds.NonToggleExampleShowsToggleBit | pyinsteon/device_types/switched_lighting_control.py:458 | on a concrete keypad whose button 8 is ON_ONLY, a successful `async_on(8)` leaves 0xFF as written and 0 corrected |
| KeypadLeds.FollowLoopAt | pyinsteon/device_types/switched_lighting_control.py:428-442 | after the loop, a button other than the group, with both masks loaded and the examined bit set in its committed ON_MASK, takes 0 if the bit is also set in its OFF_MASK and the on-level otherwise; every other group keeps its value |
| KeypadLeds.LedFollowCheckAsWritten | pyinsteon/device_types/switched_lighting_control.py:426-442 | as written: every other button with both masks loaded and bit `group` set in its committed ON_MASK takes 0 if that bit is set in its OFF_MASK and the on-level otherwise; every other group keeps its value |
| KeypadLeds.LedFollowCheck | pyinsteon/device_types/switched_lighting_control.py:426-442 | corrected: the same per-button outcome, testing bit `group - 1`, the bit the radio-group methods write for the group |
| KeypadLeds.LedFollowCheckTurnsOffRadioMembers | pyinsteon/device_types/switched_lighting_control.py:436-442 | corrected: when one member of a committed radio group comes on, every other member's LED goes to 0 |
| KeypadLeds.LedFollowCheckAsWrittenMissesNext | pyinsteon/device_types/switched_lighting_control.py:436-437 | as written, the member right after the group in a committed radio group keeps its LED value |
| KeypadLeds.RadioExampleShowsFollowBit | pyinsteon/device_types/switched_lighting_control.py:436-437 | on the concrete radio group [3, 4], button 3 coming on leaves button 4's LED at 0xFF as written and turns it to 0 corrected |
| KeypadLeds.AsyncSetLed | pyinsteon/device_types/switched_lighting_control.py:234-260 | groups 0 and 1 send no set-LEDs command and other groups send `_change_led_status`; a status request follows exactly on DIRECT_NAK_PRE_NAK; the groups keep their keys |
| KeypadLeds.AsyncSetLedGroups | pyinsteon/device_types/switched_lighting_control.py:242-245 | as written: the groups change only on SUCCESS, and then only the commanded group, which becomes 0 when bit `group` of the committed NON_TOGGLE_MASK is set and 0xFF or 0 as asked otherwise |
| KeypadLeds.AsyncSetLedCorrected | pyinsteon/device_types/switched_lighting_control.py:234-260 | the same command with the corrected `_update_leds`: the same LED states and status request as as-written, and the same group keys |
| KeypadLeds.AsyncSetLedCorrectedGroups | pyinsteon/device_types/switched_lighting_control.py:242-245 | corrected: after SUCCESS the commanded group becomes 0 when its own button's bit `group - 1` is set in the committed NON_TOGGLE_MASK and 0xFF or 0 as asked otherwise; nothing else changes |
| KeypadLeds.NeighbourExampleShowsToggleBit | pyinsteon/device_types/switched_lighting_control.py:458 | on buttons [3, 4] with button 4 ON_ONLY and button 3 TOGGLE, a successful `async_on(3)` leaves group 3 at 0 as written and at 0xFF corrected |
| OnOffOutlet.OutletValue | pyinsteon/device_types/switched_lighting_control.py:609-610 | the outlet value is 1 exactly when its bit is set, else 0 |
| OnOffOutlet.HandleStatus | pyinsteon/device_types/switched_lighting_control.py:607-610 | the top and bottom groups are set to 0 or 1 and no other group changes |
| OnOffOutlet.HandleStatusRoundTrip | pyinsteon/device_types/switched_lighting_control.py:607-610 | decoding a byte that reports the two outlets' states gives each outlet the state reported for it |
| OnOffOutlet.HandleStatusIgnoresHighBits | pyinsteon/device_types/switched_lighting_control.py:609-610 | only bits 0 and 1 of the status byte matter |
| Thermostat.ClampSetPoint | pyinsteon/device_types/climate_control.py:100-108 | the set point sent is in 1..127, unchanged when in range, 1 below it and 127 above it |
| Thermostat.ClampSetPointIdempotent | pyinsteon/device_types/climate_control.py:102 | clamping twice is clamping once |
| Thermostat.ClampSetPointMonotone | pyinsteon/device_types/climate_control.py:107 | clamping keeps the order of set points |
| Thermostat.SetHumidityHigh | pyinsteon/device_types/climate_control.py:110-118 | `min(h, 99)` is sent, so at most 99, unchanged exactly when at most 99; the high set-point group takes it on SUCCESS and is otherwise unchanged |
| Thermostat.SetHumidityLow | pyinsteon/device_types/climate_control.py:120-128 | `max(h, 1)` is sent, so at least 1, unchanged exactly when at least 1; the low set-point group takes it on SUCCESS and is otherwise unchanged |
| Thermostat.DeviceDay | pyinsteon/device_types/climate_control.py:145 | a device day is in 0..6 and is 0 exactly for Python's Sunday (6) |
| Thermostat.DeviceDayBijective | pyinsteon/device_types/climate_control.py:145 | the day mapping is a bijection on 0..6, with WeekdayOf as its inverse on both sides |
| Thermostat.SetDayTime | pyinsteon/device_types/climate_control.py:142-151 | the command is cmd2 0x02 and data1 0x02, with the device day of the weekday in data2 and hour, minute and second in data3..data5 |
| Thermostat.StatusReceived | pyinsteon/device_types/climate_control.py:360-386 | only the eight status groups are written; the temperature is converted to Fahrenheit exactly when the CELSIUS flag is falsy |
| Thermostat.StatusReceivedRoutes | pyinsteon/device_types/climate_control.py:377-386 | cooling, heating, system mode, fan mode, both set points and humidity each land in their own group |
| Thermostat.StatusReceivedIgnoresClock | pyinsteon/device_types/climate_control.py:360-386 | the report's day, time and own celsius field affect no group |
| Thermostat.StatusReceivedIdempotent | pyinsteon/device_types/climate_control.py:383-385 | receiving a report twice gives the same groups as once, so no temperature is converted twice |
| Thermostat.SetPointReceived | pyinsteon/device_types/climate_control.py:388-401 | the four set points go to their groups; firmware and RF offset affect no group |
| Thermostat.ModeReceived | pyinsteon/device_types/climate_control.py:403-406 | the system and fan modes go to their groups and nothing else changes |
| Thermostat.ModeSet | pyinsteon/device_types/climate_control.py:408-413 | FAN_ALWAYS_ON and FAN_AUTO are written to the fan-mode group and leave the system mode alone; every other mode is written to the system-mode group and leaves the fan mode alone; no other group changes |
| Thermostat.TempReceived | pyinsteon/device_types/climate_control.py:415-417 | the temperature group takes the degrees as reported, without conversion, and nothing else changes |
| Thermostat.CoolSetPointSet | pyinsteon/device_types/climate_control.py:433-435 | the cool set-point group takes the acknowledged degrees; zone and deadband affect no group |
| Thermostat.HeatSetPointSet | pyinsteon/device_types/climate_control.py:437-439 | the heat set-point group takes the acknowledged degrees; zone and deadband affect no group |
| Thermostat.Notify | pyinsteon/device_types/climate_control.py:419-431 | after any notification the change subscriber is in place; a status request is made exactly when it was already in place |
| Thermostat.NotifyManyCounts | pyinsteon/device_types/climate_control.py:419-431 | from registration, `n` notifications make `n - 1` status requests (none for `n == 0`), and after the first the change subscriber stays in place |

## Left out

- Transport sends, the `asyncio.Lock` around the set-LEDs send, and the status re-query after DIRECT_NAK_PRE_NAK. They are asynchronous I/O: the send result is an input (`Responses.ResponseStatus`), and the re-query is only flagged (`LedCommand.refreshStatus`).
- The base class's `async_on` / `async_off` for groups 0 and 1. That code is not part of this model, so `AsyncSetLed` records only that no set-LEDs command is sent for them.
- Event triggering in `_update_leds` (line 465). Events carry no state that these methods read.
- Battery "run on wake" wrappers, the ALDB, default links, and the property, op-flag, handler and manager registration tables. They are scheduling or catalogue data, not decision logic.
- The `to_fahrenheit` formula. It is a function parameter of `StatusReceived`.
- `datetime.now()`. Its weekday and time are parameters of `SetDayTime`.
- Python truthiness of a group object is modelled as "the group is present". A group whose value is 0 still counts as present.
- `set_radio_buttons` and `clear_radio_buttons` take a sequence of ints. A single int argument, which Python would reject when iterating it, is not modelled.
- RadioButtons.ClearRadioButtons: requires every argument to be at least 1. `bit_is_set` with a negative bit number (argument 0 or less) is outside the modelled bit helpers.
- Thermostat.ClampSetPoint: models integer set points only; a float temperature argument is not modelled.
- Thermostat.SetHumidityHigh: models integer humidity only; a float argument is not modelled.
- Thermostat.SetHumidityLow: models integer humidity only; a float argument is not modelled.
- The `ThermostatMode` values come from an enum that is not part of this model. Only the two fan modes are told apart from the rest.
- The property class is not part of this model. Its behaviour (see above) is an assumption taken from how these methods use it.
- KeypadLeds.CommitToggleMasks: the write that brings staged masks to the device is not modelled. The device's acknowledgement is assumed to commit the staged value.
- Thermostat.NotifyManyCounts: assumes a notification calls only the subscribers registered when it starts, so the newly subscribed method is not called by the same notification.

## Findings

Both findings come from the same slip: two readers test bit `group` of a
mask, while the writers (`set_toggle_mode`, `set_radio_buttons`) store
button `b` in bit `b - 1`. The model keeps both readers as written where
the device class calls them (`AsyncSetLed` uses `UpdateLedsAsWritten`) and
proves the intended behaviour of the corrected readers (`UpdateLeds`,
`LedFollowCheck`, `AsyncSetLedCorrected`).

| source | as written | input that shows it | evidently intended | confidence | as-written member | corrected member |
|---|---|---|---|---|---|---|
| pyinsteon/device_types/switched_lighting_control.py:458 | `_update_leds` tests bit `group` of NON_TOGGLE_MASK | a keypad whose committed NON_TOGGLE_MASK is 0x80 (button 8 ON_ONLY); `async_on(8)` succeeds; group 8 becomes 0xFF because bit 8 of a byte is never set; likewise, with button 4 ON_ONLY, a successful `async_on(3)` leaves group 3 at 0 | test bit `group - 1`, the bit `set_toggle_mode` writes; group 8 stays 0 | not executed | KeypadLeds.UpdateLedsAsWritten, KeypadLeds.AsyncSetLedGroups, KeypadLeds.UpdateLedsAsWrittenIgnoresButton8, KeypadLeds.NonToggleExampleShowsToggleBit, KeypadLeds.NeighbourExampleShowsToggleBit | KeypadLeds.UpdateLeds, KeypadLeds.AsyncSetLedCorrectedGroups, KeypadLeds.UpdateLedsHonoursToggleMode |
| pyinsteon/device_types/switched_lighting_control.py:436-437 | `_led_follow_check` tests bit `group` of each button's ON_MASK and OFF_MASK | buttons 3 and 4 form a committed radio group (button 4's masks are 0x04); button 3 comes on; button 4 reads its own bit 3, which its radio mask clears, so its LED stays 0xFF | test bit `group - 1`, the bit `set_radio_buttons` writes; button 4's LED goes to 0 | not executed | KeypadLeds.LedFollowCheckAsWritten, KeypadLeds.LedFollowCheckAsWrittenMissesNext, KeypadLeds.RadioExampleShowsFollowBit | KeypadLeds.LedFollowCheck, KeypadLeds.LedFollowCheckTurnsOffRadioMembers |

`_temp_received` (climate_control.py lines 415-417) documents a Celsius
conversion that it does not perform; `Thermostat.TempReceived` follows the
code.
