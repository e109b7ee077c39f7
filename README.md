# RGB LED control plugin for the EVT RSP-LT response box

A Dafny model of the OpenSesame item `RgbLedControl`, which runs a trial on
an EventExchanger response box with coloured button LEDs. The model covers:

- the allowed-response bit mask computed in `prepare`, and the fallback for
  a single bare number;
- the `"#RRGGBB"` colour settings, parsed with `int("0x" + text[1:], 16)`
  and split into red, green and blue bytes;
- the LED commands `run` sends during one trial: idle colours, optional
  correct and incorrect feedback, the wait, and the LEDs switched off;
- decoding of the device's answer (`-1`, or `log2(event) + 1`) and the
  correctness flag;
- the process-wide `open_devices` registry that `prepare` fills from a
  device scan, and the choice of slot from the first character of the device
  name;
- the editor's device list (`"k: product s/n: serial"`, at most nine
  entries) and the reset of a stale selection to `"0: Keyboard"`;
- the editor's check of the timeout field.

The modules are:

- `Bits`: Python's unbounded `<<`, `>>`, `|` and `log2` on non-negative
  integers, and `&` only in the form `x & (2^n - 1)`, which is `x % 2^n`
  (`Bits.MaskBit`).
- `Python`: experiment variable values, exceptions, slicing, `split`, `in`,
  `str(n)`, `int(text)`.
- `Colour`
- `AllowedResponses`
- `Response`
- `Trial`
- `Registry`: the `DeviceRegistry` class.
- `DeviceLabels`
- `Timeout`
- `Plugin`: the `RgbLedControl` class.

Experiment variables are modelled as `VarValue`. The experiment runner
reads text that looks like an integer back as an `int`, so `'1;2;3'` is
`Text("1;2;3")` and `'3'` is `Int(3)`. Exceptions are values of `PyError`,
returned as `Outcome.Raised` or as a `raised` out-parameter.

The parts of the program that are outside the model become inputs:

- the result of `scan` (`Option<seq<Descriptor>>`, with `None` when the scan
  raises);
- the set of device paths whose `attach_id` raises;
- the event `wait_for_event` returns;
- the keyboard's answer.

The LED commands become a trace of `Command` values.

The model follows the code as written, with one exception, the mask, where
the item uses the corrected encoder (see Findings). Points where the code
does something a reader of it might not expect:

- **Mask accumulation.** The comment at line 64 calls the value "the bit
  mask for the allowed responses", a mask with one bit per listed button.
  Line 71 adds the bits with `+=`, so a repeated button carries into the
  next bit. `EncodeSum` models the code as written and `EncodeOr` the
  bitwise or (see Findings).
- **Empty scan.** An empty scan result does not fall back on the
  keyboard. The registry loop of lines 93-101 runs zero times and leaves the
  registry as it is, and line 103 still reads the slot from the device name
  (`Plugin.EmptyScanKeepsSlot`). `run` then raises `KeyError` unless an
  earlier `prepare` filled that slot, in which case it drives that handle.
  Only a scan that raises falls back, through the unbound `device_list`.
- **Failed attach.** An `attach_id` that raises at line 98 ends the loop
  with an unattached handle already stored in its slot. Every later
  `prepare` skips that slot (`Registry.StaleHandleStays`) and adds the
  slots after it, so a second `prepare` on the same list can change the
  registry (`Registry.RetryAfterFailedAttach`). Only after a loop that ran
  to the end does a second `prepare` change nothing
  (`Registry.FillIdempotent`).
- **Malformed allowed-response list.** The fallback of lines 72-77 is
  meant, by its comment, for "one element". For a text list with an entry
  that is not a number, it computes `"text" - 1`. The resulting `TypeError`
  escapes `prepare`, and the partial mask of the loop is left behind.
- **Timeout field.** `check_timeout_duration` assigns `int(text)` to
  `timeout` before the range check at line 242 raises. Its handler, "invalid
  input or out of range value", clears only the text field, so an
  out-of-range number stays in `timeout` and `prepare` and `run` pass it on
  (`Plugin.TimeoutPassedOn`).

## Model

| member | source | states |
|---|---|---|
| AllowedResponses.SumEntries | opensesame_plugins/evt_plugins/rgb_led_control/rgb_led_control.py:69-71 | the `+=` loop leaves the sum of `1 << (n-1)` over the entries before the first that does not parse to a number >= 1, and reports whether it reached the end |
| AllowedResponses.OrEntries | opensesame_plugins/evt_plugins/rgb_led_control/rgb_led_control.py:69-71 | the same loop with `|=` leaves the bitwise or of the same prefix |
| AllowedResponses.EncodeSum | opensesame_plugins/evt_plugins/rgb_led_control/rgb_led_control.py:67-77 | as written: mask and key list are `WrittenMask` and `KeyList` of the setting, including the single-value fallback and the exception it raises for text, `None` and numbers below 1 |
| AllowedResponses.EncodeOr | opensesame_plugins/evt_plugins/rgb_led_control/rgb_led_control.py:67-77 | corrected: the mask is `IntendedMask`, the key list `KeyList` |
| AllowedResponses.ValidPrefixStops | opensesame_plugins/evt_plugins/rgb_led_control/rgb_led_control.py:70-72 | the loop gets through exactly the entries before the first one that raises |
| AllowedResponses.MaskOrBits | opensesame_plugins/evt_plugins/rgb_led_control/rgb_led_control.py:70-71 | bit k of the or-ed mask is set exactly when button k+1 is listed |
| AllowedResponses.MaskSumIsOr | opensesame_plugins/evt_plugins/rgb_led_control/rgb_led_control.py:70-71 | for distinct buttons `+=` equals `|`, and the popcount is the number of buttons |
| AllowedResponses.MaskOrFitsByte | opensesame_plugins/evt_plugins/rgb_led_control/rgb_led_control.py:70-71 | buttons in [1,8] give a mask below 256 |
| AllowedResponses.DistinctList | opensesame_plugins/evt_plugins/rgb_led_control/rgb_led_control.py:67-71 | a written list of distinct buttons in [1,8]: both encoders agree, bit k is set iff button k+1 is listed, popcount equals the list length, mask < 256, and the key list is the entries |
| AllowedResponses.SingleValue | opensesame_plugins/evt_plugins/rgb_led_control/rgb_led_control.py:72-77 | a bare number n >= 1 encodes to exactly `1 << (n-1)`, the one bit of button n, with key list `[n]` |
| AllowedResponses.NonPositiveValue | opensesame_plugins/evt_plugins/rgb_led_control/rgb_led_control.py:75 | a bare number below 1 makes the negative shift raise `ValueError` |
| AllowedResponses.SingleValueMask | opensesame_plugins/evt_plugins/rgb_led_control/rgb_led_control.py:75 | bit k of `1 << (n-1)` is set iff k+1 == n |
| AllowedResponses.RepeatedButtonCarries | opensesame_plugins/evt_plugins/rgb_led_control/rgb_led_control.py:71 | summing button 1 twice gives 2, which has bit 1 set and bit 0 clear; or-ing gives 1 |
| AllowedResponses.RepeatedButtonSetting | opensesame_plugins/evt_plugins/rgb_led_control/rgb_led_control.py:69-71 | the setting `"1;1"` encodes to 2 as written (button 2 allowed, button 1 not) and to 1 as intended |
| Colour.ParseColour | opensesame_plugins/evt_plugins/rgb_led_control/rgb_led_control.py:123-131 | `int("0x" + text[1:], 16)` succeeds only when the character after the dropped first one is a hexadecimal digit, and its value is below `16^n` for the `n` characters after the first |
| Colour.ParseColours | opensesame_plugins/evt_plugins/rgb_led_control/rgb_led_control.py:132-135 | the `BLC` loop yields each colour's value in order, or fails exactly when some colour does not parse |
| Colour.LowByte | opensesame_plugins/evt_plugins/rgb_led_control/rgb_led_control.py:142 | `x & 0xFF` is below 256 |
| Colour.LowByteBits | opensesame_plugins/evt_plugins/rgb_led_control/rgb_led_control.py:142 | `& 0xFF` keeps exactly the bits below 8 |
| Colour.Channels | opensesame_plugins/evt_plugins/rgb_led_control/rgb_led_control.py:140-142 | every channel is in [0,255] |
| Colour.PackChannels | opensesame_plugins/evt_plugins/rgb_led_control/rgb_led_control.py:139-143 | for any 24-bit colour C, `R*65536 + G*256 + B == C` |
| Colour.ChannelsPack | opensesame_plugins/evt_plugins/rgb_led_control/rgb_led_control.py:139-143 | three bytes packed into 24 bits split back into the same bytes |
| Colour.ParseColourBound | opensesame_plugins/evt_plugins/rgb_led_control/rgb_led_control.py:123-131 | `"#"` and six hex digits parse to a value below 2^24 |
| Colour.ParseColourText | opensesame_plugins/evt_plugins/rgb_led_control/rgb_led_control.py:123-131 | writing a colour as `"#rrggbb"` and parsing it with `int("0x"+s[1:],16)` gives the packed value back |
| Colour.HexValueBound | opensesame_plugins/evt_plugins/rgb_led_control/rgb_led_control.py:130-131 | n hex digits have a value below 16^n |
| Bits.Log2 | opensesame_plugins/evt_plugins/rgb_led_control/rgb_led_control.py:168 | the integer log2 k of a power of two m satisfies `1 << k == m` |
| Bits.Log2OfPow2 | opensesame_plugins/evt_plugins/rgb_led_control/rgb_led_control.py:168 | `log2(1 << k) == k` |
| Bits.IsPow2IffOneBit | opensesame_plugins/evt_plugins/rgb_led_control/rgb_led_control.py:168 | an event is a power of two exactly when one bit is set |
| Bits.BitOfPow2 | opensesame_plugins/evt_plugins/rgb_led_control/rgb_led_control.py:71 | `1 << k` has bit j set iff j == k |
| Bits.OrBit | opensesame_plugins/evt_plugins/rgb_led_control/rgb_led_control.py:71 | `a | b` has a bit set iff a or b has it |
| Bits.AddFreshBitIsOr | opensesame_plugins/evt_plugins/rgb_led_control/rgb_led_control.py:71 | adding `1 << k` to a number whose bit k is clear is or-ing it in |
| Bits.AddFreshBitPopCount | opensesame_plugins/evt_plugins/rgb_led_control/rgb_led_control.py:71 | adding a clear bit raises the popcount by one |
| Bits.ShrIsDiv | opensesame_plugins/evt_plugins/rgb_led_control/rgb_led_control.py:140 | `x >> k` is floor division by 2^k |
| Bits.ShrBit | opensesame_plugins/evt_plugins/rgb_led_control/rgb_led_control.py:140 | bit j of `x >> k` is bit j+k of x |
| Bits.MaskBit | opensesame_plugins/evt_plugins/rgb_led_control/rgb_led_control.py:142 | `x % 2^n` keeps exactly the bits below n |
| Python.IntOf | opensesame_plugins/evt_plugins/rgb_led_control/rgb_led_control.py:157 | `int(v)`: an int is itself, text succeeds iff it parses and then gives the parsed value, `None` raises `TypeError`, bad text `ValueError` |
| Python.ParseIntOfStr | opensesame_plugins/evt_plugins/rgb_led_control/rgb_led_control.py:241 | `int(str(n)) == n` for every integer n |
| Python.ParseIntOfDigit | opensesame_plugins/evt_plugins/rgb_led_control/rgb_led_control.py:103 | `int` of one digit character is its value |
| Python.JoinSplit | opensesame_plugins/evt_plugins/rgb_led_control/rgb_led_control.py:69 | joining the parts of `s.split(";")` gives s back |
| Python.SplitJoin | opensesame_plugins/evt_plugins/rgb_led_control/rgb_led_control.py:69 | splitting a join of separator-free parts gives the parts back |
| Python.InIffOccurs | opensesame_plugins/evt_plugins/rgb_led_control/rgb_led_control.py:238 | `t in s` holds exactly when some slice of s equals t |
| Python.NotInWithoutHead | opensesame_plugins/evt_plugins/rgb_led_control/rgb_led_control.py:238 | a text whose first character is not in s is not `in` s |
| Response.IsCorrect | opensesame_plugins/evt_plugins/rgb_led_control/rgb_led_control.py:181-182 | `response == correct_button`: integers are equal by value and text by content, and an integer never equals text or `None` |
| Response.Decode | opensesame_plugins/evt_plugins/rgb_led_control/rgb_led_control.py:167-168 | -1 stays -1; a one-bit event decodes to a button b >= 1 with `1 << (b-1) == event` |
| Response.DecodePress | opensesame_plugins/evt_plugins/rgb_led_control/rgb_led_control.py:168 | event `1 << k` decodes to button k+1 |
| Response.DecodeInjective | opensesame_plugins/evt_plugins/rgb_led_control/rgb_led_control.py:167-168 | different events give different responses |
| Response.CorrectIffConfiguredButton | opensesame_plugins/evt_plugins/rgb_led_control/rgb_led_control.py:181-182 | a press is correct exactly when it is the configured button; a timeout is never correct against a button >= 1 |
| Response.DecodedIsAllowed | opensesame_plugins/evt_plugins/rgb_led_control/rgb_led_control.py:162-168 | an event whose bit is in the mask decodes to a listed button |
| Trial.EmitTrial | opensesame_plugins/evt_plugins/rgb_led_control/rgb_led_control.py:137-174 | the commands issued by the loops are exactly `TrialSpec`: trace and decoded response or the exception from `int(correct_button)` |
| Trial.TraceShape | opensesame_plugins/evt_plugins/rgb_led_control/rgb_led_control.py:137-174 | 5 commands without feedback, 14 with, 8 when `int(correct_button)` raises; idle commands first for LEDs 1..4 with event 1; one wait, at index 4 or 9 |
| Trial.ChannelsAreBytes | opensesame_plugins/evt_plugins/rgb_led_control/rgb_led_control.py:138-158 | every command sends bytes, and each idle command sends exactly its 24-bit colour |
| Trial.NoFeedbackColours | opensesame_plugins/evt_plugins/rgb_led_control/rgb_led_control.py:137-165 | without feedback each LED keeps its idle colour and nothing reacts to a press |
| Trial.FeedbackColours | opensesame_plugins/evt_plugins/rgb_led_control/rgb_led_control.py:145-174 | with feedback, pressing button k shows the correct colour iff k is the correct button and the incorrect colour otherwise; afterwards every LED is off |
| Registry.DeviceRegistry.constructor | opensesame_plugins/evt_plugins/rgb_led_control/rgb_led_control.py:35 | the registry starts empty |
| Registry.DeviceRegistry.Fill | opensesame_plugins/evt_plugins/rgb_led_control/rgb_led_control.py:93-101 | the loop with `d_count` leaves the registry `FillFrom` describes and reports whether it ran to the end |
| Registry.FillKeeps | opensesame_plugins/evt_plugins/rgb_led_control/rgb_led_control.py:95 | pre-existing entries are unchanged |
| Registry.FillAdds | opensesame_plugins/evt_plugins/rgb_led_control/rgb_led_control.py:95-98 | only slots 1..len(list) are added, each with a handle for its own descriptor (unattached only if its attach raised) |
| Registry.FillCovers | opensesame_plugins/evt_plugins/rgb_led_control/rgb_led_control.py:93-101 | after a complete loop every slot 1..len(list) is a key |
| Registry.FillCompletes | opensesame_plugins/evt_plugins/rgb_led_control/rgb_led_control.py:97-98 | the loop completes iff no slot it must add is for a path whose attach raises |
| Registry.FillAllPresent | opensesame_plugins/evt_plugins/rgb_led_control/rgb_led_control.py:95 | when every slot is present the loop adds nothing |
| Registry.FillIdempotent | opensesame_plugins/evt_plugins/rgb_led_control/rgb_led_control.py:93-101 | after a loop that ran to the end, running it again on the same list changes nothing |
| Registry.StaleHandleStays | opensesame_plugins/evt_plugins/rgb_led_control/rgb_led_control.py:95-98 | a handle left unattached by a failed attach is never replaced |
| Registry.RetryAfterFailedAttach | opensesame_plugins/evt_plugins/rgb_led_control/rgb_led_control.py:93-101 | after an attach fails for the first of two devices, a second run of the loop skips its unattached slot and attaches the second device |
| DeviceLabels.Label | opensesame_plugins/evt_plugins/rgb_led_control/rgb_led_control.py:269-270 | a label starts with the slot number followed by `:` and ends with the serial number |
| DeviceLabels.ComposeLabels | opensesame_plugins/evt_plugins/rgb_led_control/rgb_led_control.py:263-277 | the loop with its break builds the list `"0: Keyboard"` + labels and `added_items_list` for at most nine devices |
| DeviceLabels.Reselect | opensesame_plugins/evt_plugins/rgb_led_control/rgb_led_control.py:280-281 | the selection is kept iff it is a new label (or the keyboard), and is otherwise `"0: Keyboard"` |
| DeviceLabels.OneDigit | opensesame_plugins/evt_plugins/rgb_led_control/rgb_led_control.py:269 | a slot below 10 is written as one digit |
| DeviceLabels.LabelSlot | opensesame_plugins/evt_plugins/rgb_led_control/rgb_led_control.py:269-270 | `int(label[:1])` is the label's slot k for k in 1..9 |
| DeviceLabels.LabelsAreDistinct | opensesame_plugins/evt_plugins/rgb_led_control/rgb_led_control.py:269-270 | no label is `"0: Keyboard"`, and labels of different slots differ |
| DeviceLabels.LabelsNumbered | opensesame_plugins/evt_plugins/rgb_led_control/rgb_led_control.py:265-277 | the slots are exactly 1..min(len, 9), and each list entry is the label of its slot |
| DeviceLabels.SelectionNamesSlot | opensesame_plugins/evt_plugins/rgb_led_control/rgb_led_control.py:93-103 | a listed label, after a complete fill on the same scan, reads back as its slot, which holds that device's handle or an earlier one |
| Timeout.CheckTimeout | opensesame_plugins/evt_plugins/rgb_led_control/rgb_led_control.py:236-248 | no timeout iff the text is `in 'infinite'`; accepted values parse and lie in [0, 3600000]; a rejected number is out of range |
| Timeout.NumberIsNotInfinite | opensesame_plugins/evt_plugins/rgb_led_control/rgb_led_control.py:238 | no number text is part of `'infinite'` |
| Timeout.AcceptsEveryValidTimeout | opensesame_plugins/evt_plugins/rgb_led_control/rgb_led_control.py:241-242 | every n in [0, 3600000] written out is accepted as n |
| Timeout.RejectsOutOfRange | opensesame_plugins/evt_plugins/rgb_led_control/rgb_led_control.py:241-248 | a number outside the range is rejected, and the variable still receives it |
| Timeout.PartsOfInfinite | opensesame_plugins/evt_plugins/rgb_led_control/rgb_led_control.py:238-239 | `""`, `"inf"` and `"infinite"` mean no timeout |
| Plugin.RgbLedControl.constructor | opensesame_plugins/evt_plugins/rgb_led_control/rgb_led_control.py:44-57 | the settings `reset` gives |
| Plugin.RgbLedControl.Prepare | opensesame_plugins/evt_plugins/rgb_led_control/rgb_led_control.py:59-116 | mask, exception from the encoder, registry, chosen slot or keyboard fallback with the key list and integer timeout |
| Plugin.RgbLedControl.Run | opensesame_plugins/evt_plugins/rgb_led_control/rgb_led_control.py:118-182 | colour errors first; keyboard answer; `AttributeError`/`KeyError` for a missing slot; otherwise the trial trace, response and correctness |
| Plugin.RgbLedControl.CheckTimeoutDuration | opensesame_plugins/evt_plugins/rgb_led_control/rgb_led_control.py:236-248 | `timeout` becomes `StoredTimeout` of the text and its old value; the field text is kept, or cleared exactly when the check is rejected |
| Plugin.RgbLedControl.ComboboxAddDevices | opensesame_plugins/evt_plugins/rgb_led_control/rgb_led_control.py:250-282 | the new list and selection, and the selection is always an entry of the list |
| Plugin.SelectionIsListed | opensesame_plugins/evt_plugins/rgb_led_control/rgb_led_control.py:278-281 | after the list is rebuilt the selection is one of its entries |
| Plugin.ListedDeviceIsChosen | opensesame_plugins/evt_plugins/rgb_led_control/rgb_led_control.py:93-103 | a device picked from the list of a scan is chosen by `prepare` on that scan when attaches succeed, in the slot of its label |
| Plugin.EmptyScanKeepsSlot | opensesame_plugins/evt_plugins/rgb_led_control/rgb_led_control.py:86-103 | for every registry, an empty scan leaves the registry unchanged and still selects the slot named by the device's first digit |
| Plugin.ChooseDevice | opensesame_plugins/evt_plugins/rgb_led_control/rgb_led_control.py:81-107 | the registry changes only by the fill, and only for a device other than the keyboard after a scan that did not raise; the keyboard is chosen exactly when the device is the keyboard, the scan raised, an attach raised or the first character is not a number; otherwise the slot is `int(device[:1])` |
| Plugin.TimeoutPassedOn | opensesame_plugins/evt_plugins/rgb_led_control/rgb_led_control.py:110-116 | the `timeout` argument after the editor's check: none for any part of `infinite`, the accepted number, the rejected number when `int()` succeeded, and the earlier value when it raised |
| Plugin.OutOfRangeReachesWait | opensesame_plugins/evt_plugins/rgb_led_control/rgb_led_control.py:240-242 | a number outside [0, 3600000] typed into the field is stored and passed on as the wait's timeout |

## Left out

- `opensesame_plugins/evt_plugins/rsp_pyevt/__init__.py` is not part of this model: it only declares GUI controls.
- The vendor `EventExchanger` calls are not modelled. The scan result, the set of paths that fail to attach and the answer of `wait_for_event` are inputs. The LED commands are a trace. What the box does with a command sent to an unattached handle is not modelled.
- Timing is not modelled: `sleep`, `set_item_onset`, the reset delay and response times. The same goes for the second value returned by `wait_for_event` and `get_key`.
- Qt wiring is not modelled: `init_edit_widget`, the refresh checkbox, `update_combobox_device`, `blockSignals`. The line edit is modelled only as its text.
- Also not modelled: `oslogger`, `print`, `experiment.responses.add`, and the `strtobool` round trip of `correct`, which does not change its value.
- The keyboard is not modelled. `prepare` records the key list and timeout it would be given. In `run`, its answer is an input. The source's `self.Keyboard` (where `self.my_keyboard` was set) is neither corrected nor relied on.
- `correct_button` is not set by `reset`, which sets `correct_response` instead; the model keeps both and takes `correct_button` as a constructor parameter.
- Response.Decode: requires a sentinel or one-bit event. For a multi-bit event, `math.log2` gives a fractional response. For 0 or a negative event other than -1, it raises `ValueError` (math domain error). Neither case is modelled. The response is stored as an integer; Python's `k + 1.0 == k + 1` makes the comparison with an integer button the same.
- Python.ParseInt: `int()` also accepts `_` between digits, Unicode digits and Unicode whitespace. These are not modelled, and colour parsing leaves out `_` too.
- Colour, device and button-colour settings are modelled as text. A setting the runner reads back as a number is not modelled; for it, `[1:]` would raise `TypeError`.
- `d['path']` and the other descriptor keys are assumed present.
- Floating-point values are not modelled: `VarValue` has no float case, so a setting the runner reads back as a float (such as `"2.0"`) cannot be expressed. The float that `math.log2(...) + 1` leaves in `response` is modelled as the equal integer (see Response.Decode).
- Plugin.RgbLedControl.Prepare: uses the corrected encoder `EncodeOr`. The as-written `EncodeSum` is modelled next to it.
- Plugin.RgbLedControl.Run: requires four button colours, because the source has exactly four colour variables.
- The module-level `open_devices` dictionary is a `DeviceRegistry` object passed to `Prepare` and `Run`.

## Findings

| source | as written | input that shows it | evidently intended | confidence | as-written member | corrected member |
|---|---|---|---|---|---|---|
| opensesame_plugins/evt_plugins/rgb_led_control/rgb_led_control.py:71 | `combined_allowed_events += 1 << (n - 1)`: a repeated button carries into the next bit | allowed responses `"1;1"` give mask 2, which allows button 2 and not button 1 | the bitwise or of `1 << (n - 1)`, so `"1;1"` allows button 1 only | not executed | AllowedResponses.RepeatedButtonSetting | AllowedResponses.EncodeOr |
