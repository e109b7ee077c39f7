/**
 * The `RgbLedControl` item: its settings, what `prepare` and `run` do with
 * them, and the two editor callbacks that check the timeout field and rebuild
 * the device list. The response box itself is outside the model: a scan is
 * an input, attaching is a set of paths that fail, LED commands are a trace
 * and the answer of `wait_for_event` is an input.
 */
module Plugin {
  import opened Bits
  import opened Python
  import opened Colour
  import opened AllowedResponses
  import opened Response
  import opened Trial
  import opened Registry
  import opened DeviceLabels
  import opened Timeout

  /** The keyboard `prepare` sets up when the response box is not used. */
  datatype KeyboardSetup = KeyboardSetup(keys: seq<VarValue>, timeout: Option<int>)

  /** Which input `prepare` leaves the trial with. */
  datatype DeviceChoice = UseKeyboard | UseSlot(slot: int)

  /** `self.var.timeout if type(self.var.timeout) == int else None` */
  function TimeoutArg(v: VarValue): (t: Option<int>)
    ensures t.Some? <==> v.Int?
    ensures t.Some? ==> t.value == v.i
  {
    if v.Int? then Some(v.i) else None
  }

  /**
   * The device part of `prepare`: the registry it leaves and the input it
   * chooses. Any exception in that part (an unbound `device_list` after a
   * failed scan, an attach that raises, a first character that is not a
   * number) is caught and falls back on the keyboard.
   */
  function ChooseDevice(device: string, scan: Option<seq<Descriptor>>, m: map<int, Handle>,
                        failing: set<string>): (r: (map<int, Handle>, DeviceChoice))
    ensures r.0 == (if device == KeyboardLabel || scan.None? then m else FillFrom(m, scan.value, 1, failing).devices)
    ensures r.1.UseKeyboard? <==>
      || device == KeyboardLabel || scan.None?
      || !FillFrom(m, scan.value, 1, failing).complete || ParseInt(Take(device, 1)).None?
    ensures r.1.UseSlot? ==> ParseInt(Take(device, 1)) == Some(r.1.slot)
  {
    if device == KeyboardLabel || scan.None? then (m, UseKeyboard)
    else
      var r := FillFrom(m, scan.value, 1, failing);
      if !r.complete then (r.devices, UseKeyboard)
      else
        match ParseInt(Take(device, 1))
        case None => (r.devices, UseKeyboard)
        case Some(k) => (r.devices, UseSlot(k))
  }

  class RgbLedControl {
    // the item's settings
    var device: string
    var correctResponse: VarValue
    var correctButton: VarValue
    var allowedResponses: VarValue
    var timeout: VarValue
    var buttonColours: seq<string>
    var resetDelay: int
    var feedback: VarValue
    var correctColour: string
    var incorrectColour: string
    // set by `prepare`
    var combinedAllowedEvents: nat
    var currentDevice: Option<int>
    var keyboard: Option<KeyboardSetup>
    // set by `run`
    var response: VarValue
    var correct: bool
    // the editor's controls
    var timeoutText: string
    var deviceItems: seq<string>

    /**
     * A new item after `reset`. `correct_button` is not among the values
     * `reset` sets, so it is whatever the experiment assigns.
     */
    constructor (correctButton: VarValue)
      ensures device == KeyboardLabel && correctResponse == Int(1) && this.correctButton == correctButton
      ensures allowedResponses == Text("1;2;3") && timeout == Text("infinite")
      ensures buttonColours == ["#000000", "#000000", "#000000", "#000000"]
      ensures resetDelay == 500 && feedback == Text("yes")
      ensures correctColour == "#00FF00" && incorrectColour == "#FF0000"
      ensures combinedAllowedEvents == 0 && currentDevice == None && keyboard == None
      ensures response == NoneValue && !correct
      ensures timeoutText == "infinite" && deviceItems == []
    {
      device := KeyboardLabel;
      correctResponse := Int(1);
      this.correctButton := correctButton;
      allowedResponses := Text("1;2;3");
      timeout := Text("infinite");
      buttonColours := ["#000000", "#000000", "#000000", "#000000"];
      resetDelay := 500;
      feedback := Text("yes");
      correctColour := "#00FF00";
      incorrectColour := "#FF0000";
      combinedAllowedEvents := 0;
      currentDevice := None;
      keyboard := None;
      response := NoneValue;
      correct := false;
      timeoutText := "infinite";
      deviceItems := [];
    }

    /**
     * `prepare`, with the mask accumulated by `|`. An exception from the
     * encoder escapes and is returned; otherwise the device is chosen as
     * `ChooseDevice` says, and a keyboard is set up when it is not the box.
     */
    method Prepare(registry: DeviceRegistry, scan: Option<seq<Descriptor>>, failing: set<string>)
      returns (raised: Option<PyError>)
      modifies this`combinedAllowedEvents, this`device, this`currentDevice, this`keyboard, registry
      ensures combinedAllowedEvents == IntendedMask(allowedResponses)
      ensures KeyList(allowedResponses).Raised? ==>
        && raised == Some(KeyList(allowedResponses).error)
        && device == old(device) && currentDevice == old(currentDevice) && keyboard == old(keyboard)
        && registry.openDevices == old(registry.openDevices)
      ensures KeyList(allowedResponses).Ok? ==>
        var (devices, choice) := ChooseDevice(old(device), scan, old(registry.openDevices), failing);
        && raised == None
        && registry.openDevices == devices
        && (choice.UseSlot? ==> device == old(device) && currentDevice == Some(choice.slot) && keyboard == old(keyboard))
        && (choice.UseKeyboard? ==>
              && device == KeyboardLabel && currentDevice == old(currentDevice)
              && keyboard == Some(KeyboardSetup(KeyList(allowedResponses).value, TimeoutArg(timeout))))
    {
      var mask, keys := EncodeOr(allowedResponses);
      combinedAllowedEvents := mask;
      if keys.Raised? {
        return Some(keys.error);
      }
      var useKeyboard := true;
      if device != KeyboardLabel {
        if scan.Some? {
          var complete := registry.Fill(scan.value, failing);
          if complete {
            var slot := ParseInt(Take(device, 1));
            if slot.Some? {
              currentDevice := slot;
              useKeyboard := false;
            }
          }
        }
        if useKeyboard {
          device := KeyboardLabel;
        }
      }
      if useKeyboard {
        keyboard := Some(KeyboardSetup(keys.value, TimeoutArg(timeout)));
      }
      return None;
    }

    /**
     * `run`: the colours are parsed first; then either the trial runs on the
     * box in slot `current_device`, whose wait returns `event`, or the
     * keyboard answers `keyboardResponse`. The LED commands sent are
     * returned with the exception that ended the run, if any.
     */
    method Run(registry: DeviceRegistry, event: int, keyboardResponse: VarValue)
      returns (trace: seq<Command>, raised: Option<PyError>)
      requires event == NoResponse || IsPow2(event)
      requires |buttonColours| == 4
      modifies this`response, this`correct
      ensures var cc, ic, blc := ParseColour(correctColour), ParseColour(incorrectColour), ColourValues(buttonColours);
        if cc.None? || ic.None? || blc.None? then
          trace == [] && raised == Some(ValueError) && response == old(response) && correct == old(correct)
        else if device == KeyboardLabel then
          trace == [] && raised == None && response == keyboardResponse && correct == IsCorrect(response, correctButton)
        else if currentDevice.None? || currentDevice.value !in registry.openDevices then
          && trace == [] && response == old(response) && correct == old(correct)
          && raised == Some(if currentDevice.None? then AttributeError else KeyError)
        else
          var r := TrialSpec(blc.value, ic.value, cc.value, feedback == Text("yes"), correctButton,
                             combinedAllowedEvents, TimeoutArg(timeout), event);
          && trace == r.trace
          && (r.response.Raised? ==>
                raised == Some(r.response.error) && response == old(response) && correct == old(correct))
          && (r.response.Ok? ==>
                raised == None && response == Int(r.response.value) && correct == IsCorrect(response, correctButton))
    {
      trace := [];
      var cc := ParseColour(correctColour);
      var ic := ParseColour(incorrectColour);
      var blc := ParseColours(buttonColours);
      if cc.None? || ic.None? || blc.None? {
        return [], Some(ValueError);
      }
      if device != KeyboardLabel {
        if currentDevice.None? {
          return [], Some(AttributeError);
        }
        if currentDevice.value !in registry.openDevices {
          return [], Some(KeyError);
        }
        var button;
        trace, button := EmitTrial(blc.value, ic.value, cc.value, feedback == Text("yes"), correctButton,
                                   combinedAllowedEvents, TimeoutArg(timeout), event);
        if button.Raised? {
          return trace, Some(button.error);
        }
        response := Int(button.value);
      } else {
        response := keyboardResponse;
      }
      correct := IsCorrect(response, correctButton);
      raised := None;
    }

    /** `check_timeout_duration`, called with the field's new text. */
    method CheckTimeoutDuration(text: string)
      modifies this`timeout, this`timeoutText
      ensures timeout == StoredTimeout(text, old(timeout))
      ensures timeoutText == (if CheckTimeout(text).Rejected? then "" else text)
    {
      timeoutText := text;
      match CheckTimeout(text) {
        case NoTimeout =>
          timeout := NoneValue;
        case Accepted(n) =>
          timeout := Int(n);
        case Rejected(stored) =>
          if stored.Some? {
            timeout := Int(stored.value);
          }
          timeoutText := "";
      }
    }

    /** `combobox_add_devices`, with the result of the scan as an input. */
    method ComboboxAddDevices(scan: Option<seq<Descriptor>>)
      modifies this`deviceItems, this`device
      ensures deviceItems == [KeyboardLabel] + LabelItems(Scanned(scan))
      ensures device == Reselect(old(device), LabelMap(Scanned(scan)))
      ensures device in deviceItems
    {
      var added, items := ComposeLabels(scan);
      deviceItems := items;
      device := Reselect(device, added);
      SelectionIsListed(old(device), Scanned(scan));
    }
  }

  // ---------------------------------------------------------------------------
  // Properties across the callbacks

  /** After the list is rebuilt, the selection is always one of its entries. */
  lemma SelectionIsListed(device: string, ds: seq<Descriptor>)
    ensures Reselect(device, LabelMap(ds)) in [KeyboardLabel] + LabelItems(ds)
  {
    var d := Reselect(device, LabelMap(ds));
    if d != KeyboardLabel {
      var k :| k in LabelMap(ds) && LabelMap(ds)[k] == d;
      LabelsNumbered(ds);
      assert LabelItems(ds)[k - 1] == d;
      assert ([KeyboardLabel] + LabelItems(ds))[k] == d;
    }
  }

  /**
   * A device picked from the list built from a scan is chosen by `prepare`
   * on the same scan when every attach succeeds: its slot is the label's
   * number and holds the handle for that device, or the one an earlier
   * `prepare` left in that slot.
   */
  lemma ListedDeviceIsChosen(device: string, ds: seq<Descriptor>, m: map<int, Handle>)
    requires device in LabelMap(ds).Values
    ensures var (devices, choice) := ChooseDevice(device, Some(ds), m, {});
      && choice.UseSlot? && 1 <= choice.slot <= |ds| && choice.slot in LabelMap(ds) && LabelMap(ds)[choice.slot] == device
      && choice.slot in devices
      && devices[choice.slot] == (if choice.slot in m then m[choice.slot] else Attached(ds[choice.slot - 1].path))
  {
    var k :| k in LabelMap(ds) && LabelMap(ds)[k] == device;
    LabelsNumbered(ds);
    LabelsAreDistinct(k, k, ds[k - 1], ds[k - 1]);
    assert device != KeyboardLabel;
    FillCompletes(m, ds, 1, {});
    var r := FillFrom(m, ds, 1, {});
    assert r.complete;
    SelectionNamesSlot(ds, device, m, {});
    var slot := ParseInt(Take(device, 1)).value;
    assert ChooseDevice(device, Some(ds), m, {}) == (r.devices, UseSlot(slot));
  }

  /**
   * The timeout `prepare` and `run` pass on after the editor's check: none
   * for any part of `infinite`, the accepted number, and also a number out
   * of range, since it was stored before the check raised; a text `int()`
   * refuses leaves the earlier value in effect.
   */
  lemma TimeoutPassedOn(text: string, previous: VarValue)
    ensures var t := TimeoutArg(StoredTimeout(text, previous));
      match CheckTimeout(text)
      case NoTimeout => t == None
      case Accepted(n) => t == Some(n) && 0 <= n <= MaxTimeout
      case Rejected(stored) => t == (if stored.Some? then stored else TimeoutArg(previous))
  {
  }

  /** A whole number outside `[0, 3600000]` typed in the field reaches `wait_for_event`. */
  lemma OutOfRangeReachesWait(n: int, previous: VarValue)
    requires n < 0 || n > MaxTimeout
    ensures StoredTimeout(IntToStr(n), previous) == Int(n)
    ensures TimeoutArg(StoredTimeout(IntToStr(n), previous)) == Some(n)
  {
    RejectsOutOfRange(n);
  }

  /**
   * An empty scan does not make `prepare` fall back on the keyboard: the
   * registry is left as it is and the slot is still read from the device
   * name. `run` then raises `KeyError` unless an earlier `prepare` filled
   * that slot, in which case it drives that handle.
   */
  lemma EmptyScanKeepsSlot(device: string, m: map<int, Handle>, failing: set<string>)
    requires |device| >= 1 && '1' <= device[0] <= '9'
    ensures ChooseDevice(device, Some([]), m, failing) == (m, UseSlot(device[0] as int - '0' as int))
  {
    var d := device[0] as int - '0' as int;
    assert DigitChar(d) == device[0];
    assert Take(device, 1) == [DigitChar(d)];
    ParseIntOfDigit(d);
    assert device != KeyboardLabel;
  }
}
