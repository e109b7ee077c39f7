/**
 * The LED commands `run` sends to the response box during one trial, as a
 * trace. `set_led_rgb(r, g, b, led, event)` programs LED `led` to show the
 * colour when `event` happens: event 1 at once, event `10 + n` when button `n`
 * is pressed. `wait_for_event(mask, timeout)` is recorded where it is called;
 * its answer is an input of the trial.
 */
module Trial {
  import opened Bits
  import opened Python
  import opened Colour
  import opened Response

  datatype Command =
    | SetLedRgb(rgb: Rgb, led: int, event: int)
    | WaitForEvent(mask: nat, timeout: Option<int>)

  /** Event code of a colour that is shown at once. */
  const Immediate := 1

  /** Event code of a press of button `n`. */
  function PressEvent(n: int): int
  {
    n + 10
  }

  /** `set_led_rgb((c >> 16) & 0xFF, (c >> 8) & 0xFF, c & 0xFF, led, event)` */
  function SetLed(c: nat, led: int, event: int): Command
  {
    SetLedRgb(Channels(c), led, event)
  }

  /** The four button LEDs are first lit in their own colours. */
  function IdleCommands(blc: seq<nat>): seq<Command>
    requires |blc| == 4
  {
    seq(4, b requires 0 <= b < 4 => SetLed(blc[b], b + 1, Immediate))
  }

  /** With feedback, every button's LED is set to turn the incorrect colour when it is pressed. */
  function IncorrectCommands(ic: nat): seq<Command>
  {
    seq(4, b requires 0 <= b < 4 => SetLed(ic, b + 1, PressEvent(b + 1)))
  }

  /** With feedback, the LEDs are switched off after the reset delay. */
  function OffCommands(): seq<Command>
  {
    seq(4, b requires 0 <= b < 4 => SetLedRgb(Rgb(0, 0, 0), b + 1, Immediate))
  }

  /** The trace of one trial and the decoded response, or the exception that ended it. */
  datatype TrialResult = TrialResult(trace: seq<Command>, response: Outcome<int>)

  /**
   * One trial on the response box. `blc` are the four button colours, `ic`
   * and `cc` the incorrect and correct colours, `event` what the wait
   * returns. `int(correct_button)` is evaluated for the ninth command, so if
   * it raises, the trial stops after the incorrect-colour commands.
   */
  function TrialSpec(blc: seq<nat>, ic: nat, cc: nat, feedback: bool, correctButton: VarValue,
                     mask: nat, timeout: Option<int>, event: int): TrialResult
    requires |blc| == 4
    requires event == NoResponse || IsPow2(event)
  {
    var wait := WaitForEvent(mask, timeout);
    if !feedback then
      TrialResult(IdleCommands(blc) + [wait], Ok(Decode(event)))
    else
      match IntOf(correctButton)
      case Raised(e) => TrialResult(IdleCommands(blc) + IncorrectCommands(ic), Raised(e))
      case Ok(n) =>
        TrialResult(IdleCommands(blc) + IncorrectCommands(ic) + [SetLed(cc, n, PressEvent(n)), wait]
                      + OffCommands(), Ok(Decode(event)))
  }

  /** The LED part of `run` for a device, issuing the commands in the source's loops. */
  method EmitTrial(blc: seq<nat>, ic: nat, cc: nat, feedback: bool, correctButton: VarValue,
                   mask: nat, timeout: Option<int>, event: int)
    returns (trace: seq<Command>, response: Outcome<int>)
    requires |blc| == 4
    requires event == NoResponse || IsPow2(event)
    ensures TrialResult(trace, response) == TrialSpec(blc, ic, cc, feedback, correctButton, mask, timeout, event)
  {
    trace := [];
    for b := 0 to 4
      invariant |trace| == b
      invariant forall j :: 0 <= j < b ==> trace[j] == SetLed(blc[j], j + 1, Immediate)
    {
      trace := trace + [SetLed(blc[b], b + 1, Immediate)];
    }
    assert trace == IdleCommands(blc);
    if feedback {
      var incorrect := [];
      for b := 0 to 4
        invariant |incorrect| == b
        invariant forall j :: 0 <= j < b ==> incorrect[j] == SetLed(ic, j + 1, PressEvent(j + 1))
      {
        incorrect := incorrect + [SetLed(ic, b + 1, PressEvent(b + 1))];
      }
      assert incorrect == IncorrectCommands(ic);
      trace := trace + incorrect;
      var n := IntOf(correctButton);
      if n.Raised? {
        return trace, Raised(n.error);
      }
      trace := trace + [SetLed(cc, n.value, PressEvent(n.value))];
    }
    trace := trace + [WaitForEvent(mask, timeout)];
    response := Ok(Decode(event));
    if feedback {
      var off := [];
      for b := 0 to 4
        invariant |off| == b
        invariant forall j :: 0 <= j < b ==> off[j] == SetLedRgb(Rgb(0, 0, 0), j + 1, Immediate)
      {
        off := off + [SetLedRgb(Rgb(0, 0, 0), b + 1, Immediate)];
      }
      assert off == OffCommands();
      trace := trace + off;
    }
  }

  // ---------------------------------------------------------------------------
  // What an LED shows

  /** The colour the last command for `led` and `event` in `cmds` programs, if any. */
  function Setting(cmds: seq<Command>, led: int, event: int): Option<Rgb>
  {
    if cmds == [] then None
    else
      var c := cmds[|cmds| - 1];
      if c.SetLedRgb? && c.led == led && c.event == event then Some(c.rgb)
      else Setting(cmds[..|cmds| - 1], led, event)
  }

  predicate Programs(c: Command, led: int, event: int)
  {
    c.SetLedRgb? && c.led == led && c.event == event
  }

  /** A later command for the same LED and event overrides an earlier one. */
  lemma {:induction false} SettingAppend(a: seq<Command>, b: seq<Command>, led: int, event: int)
    ensures Setting(a + b, led, event) == if Setting(b, led, event).Some? then Setting(b, led, event) else Setting(a, led, event)
    decreases |b|
  {
    if b == [] {
      assert a + b == a;
    } else {
      assert (a + b)[..|a + b| - 1] == a + b[..|b| - 1];
      SettingAppend(a, b[..|b| - 1], led, event);
    }
  }

  /** The setting is the last command that programs the LED for the event. */
  lemma {:induction false} SettingIsLast(cmds: seq<Command>, led: int, event: int, i: int)
    requires 0 <= i < |cmds| && Programs(cmds[i], led, event)
    requires forall j :: i < j < |cmds| ==> !Programs(cmds[j], led, event)
    ensures Setting(cmds, led, event) == Some(cmds[i].rgb)
    decreases |cmds|
  {
    if i < |cmds| - 1 {
      SettingIsLast(cmds[..|cmds| - 1], led, event, i);
    }
  }

  /** Without a command for the LED and event there is no setting. */
  lemma {:induction false} SettingNone(cmds: seq<Command>, led: int, event: int)
    requires forall j :: 0 <= j < |cmds| ==> !Programs(cmds[j], led, event)
    ensures Setting(cmds, led, event).None?
    decreases |cmds|
  {
    if cmds != [] {
      SettingNone(cmds[..|cmds| - 1], led, event);
    }
  }

  // ---------------------------------------------------------------------------
  // Properties of a trial

  /**
   * The shape of the trace: without feedback four idle commands and the wait;
   * with feedback nine setup commands, the wait and four off commands; when
   * `int(correct_button)` raises, the eight commands sent before it.
   */
  lemma TraceShape(blc: seq<nat>, ic: nat, cc: nat, feedback: bool, correctButton: VarValue,
                   mask: nat, timeout: Option<int>, event: int)
    requires |blc| == 4
    requires event == NoResponse || IsPow2(event)
    ensures var r := TrialSpec(blc, ic, cc, feedback, correctButton, mask, timeout, event);
      && (r.response.Raised? <==> feedback && IntOf(correctButton).Raised?)
      && (r.response.Ok? ==> r.response.value == Decode(event))
      && (r.response.Raised? ==> |r.trace| == 8 && r.response.error == IntOf(correctButton).error)
      && (r.response.Ok? ==> |r.trace| == (if feedback then 14 else 5))
      && (r.response.Ok? ==> r.trace[if feedback then 9 else 4] == WaitForEvent(mask, timeout))
      && (forall j :: 0 <= j < 4 ==> r.trace[j] == SetLed(blc[j], j + 1, Immediate))
      && (forall j :: 0 <= j < |r.trace| ==>
            (r.trace[j].WaitForEvent? <==> r.response.Ok? && j == (if feedback then 9 else 4)))
  {
    var r := TrialSpec(blc, ic, cc, feedback, correctButton, mask, timeout, event);
    var idle, incorrect := IdleCommands(blc), IncorrectCommands(ic);
    if feedback && IntOf(correctButton).Ok? {
      var n := IntOf(correctButton).value;
      var setup := idle + incorrect + [SetLed(cc, n, PressEvent(n))];
      assert r.trace == setup + [WaitForEvent(mask, timeout)] + OffCommands();
      assert forall j :: 0 <= j < 9 ==> r.trace[j] == setup[j] && setup[j].SetLedRgb?;
      assert forall j :: 10 <= j < 14 ==> r.trace[j] == OffCommands()[j - 10];
    } else if feedback {
      assert r.trace == idle + incorrect;
      assert forall j :: 0 <= j < 4 ==> r.trace[j] == idle[j];
      assert forall j :: 4 <= j < 8 ==> r.trace[j] == incorrect[j - 4];
    } else {
      assert r.trace == idle + [WaitForEvent(mask, timeout)];
      assert forall j :: 0 <= j < 4 ==> r.trace[j] == idle[j] && idle[j].SetLedRgb?;

    }
  }

  /** Every command sends three bytes, and an idle colour is sent as exactly its 24 bits. */
  lemma ChannelsAreBytes(blc: seq<nat>, ic: nat, cc: nat, feedback: bool, correctButton: VarValue,
                         mask: nat, timeout: Option<int>, event: int)
    requires |blc| == 4
    requires event == NoResponse || IsPow2(event)
    ensures var r := TrialSpec(blc, ic, cc, feedback, correctButton, mask, timeout, event);
      forall j :: 0 <= j < |r.trace| ==> SendsBytes(r.trace[j])
    ensures forall j :: 0 <= j < 4 && blc[j] < Pow2(24) ==> Pack(IdleCommands(blc)[j].rgb) == blc[j]
  {
    var r := TrialSpec(blc, ic, cc, feedback, correctButton, mask, timeout, event);
    var idle, incorrect, off := IdleCommands(blc), IncorrectCommands(ic), OffCommands();
    var wait := [WaitForEvent(mask, timeout)];
    BlocksSendBytes(blc, ic);
    BytesConcat(idle, incorrect);
    if feedback && IntOf(correctButton).Ok? {
      var n := IntOf(correctButton).value;
      var rest := [SetLed(cc, n, PressEvent(n))] + wait;
      assert r.trace == (idle + incorrect) + rest + off;
      BytesConcat(idle + incorrect, rest);
      BytesConcat((idle + incorrect) + rest, off);
    } else if !feedback {
      BytesConcat(idle, wait);
    }
    forall j | 0 <= j < 4 && blc[j] < Pow2(24)
      ensures Pack(IdleCommands(blc)[j].rgb) == blc[j]
    {
      PackChannels(blc[j]);
    }
  }

  /** A command sends three bytes when it sets a colour. */
  predicate SendsBytes(c: Command)
  {
    c.SetLedRgb? ==> c.rgb.r < 256 && c.rgb.g < 256 && c.rgb.b < 256
  }

  /** The three blocks of four LED commands each send bytes. */
  lemma BlocksSendBytes(blc: seq<nat>, ic: nat)
    requires |blc| == 4
    ensures forall j :: 0 <= j < 4 ==> SendsBytes(IdleCommands(blc)[j])
    ensures forall j :: 0 <= j < 4 ==> SendsBytes(IncorrectCommands(ic)[j])
    ensures forall j :: 0 <= j < 4 ==> SendsBytes(OffCommands()[j])
  {
  }

  lemma BytesConcat(a: seq<Command>, b: seq<Command>)
    requires forall j :: 0 <= j < |a| ==> SendsBytes(a[j])
    requires forall j :: 0 <= j < |b| ==> SendsBytes(b[j])
    ensures forall j :: 0 <= j < |a + b| ==> SendsBytes((a + b)[j])
  {
  }

  /** Without feedback each LED keeps its idle colour and nothing reacts to a press. */
  lemma NoFeedbackColours(blc: seq<nat>, ic: nat, cc: nat, correctButton: VarValue,
                          mask: nat, timeout: Option<int>, event: int, k: int)
    requires |blc| == 4
    requires event == NoResponse || IsPow2(event)
    requires 1 <= k <= 4
    ensures var r := TrialSpec(blc, ic, cc, false, correctButton, mask, timeout, event);
      && Setting(r.trace, k, Immediate) == Some(Channels(blc[k - 1]))
      && Setting(r.trace, k, PressEvent(k)).None?
  {
    var idle := IdleCommands(blc);
    var wait := [WaitForEvent(mask, timeout)];
    SettingAppend(idle, wait, k, Immediate);
    SettingAppend(idle, wait, k, PressEvent(k));
    SettingNone(wait, k, Immediate);
    SettingNone(wait, k, PressEvent(k));
    SettingIsLast(idle, k, Immediate, k - 1);
    SettingNone(idle, k, PressEvent(k));
  }

  /**
   * With feedback, pressing button `k` turns its LED the correct colour when
   * `k` is the correct button and the incorrect colour otherwise; after the
   * trial every LED is off.
   */
  lemma FeedbackColours(blc: seq<nat>, ic: nat, cc: nat, correctButton: VarValue,
                        mask: nat, timeout: Option<int>, event: int, k: int)
    requires |blc| == 4
    requires event == NoResponse || IsPow2(event)
    requires 1 <= k <= 4
    requires IntOf(correctButton).Ok?
    ensures var r := TrialSpec(blc, ic, cc, true, correctButton, mask, timeout, event);
      && Setting(r.trace, k, PressEvent(k))
           == Some(Channels(if k == IntOf(correctButton).value then cc else ic))
      && Setting(r.trace, k, Immediate) == Some(Rgb(0, 0, 0))
  {
    var n := IntOf(correctButton).value;
    var idle, incorrect, off := IdleCommands(blc), IncorrectCommands(ic), OffCommands();
    var correct := [SetLed(cc, n, PressEvent(n))];
    var wait := [WaitForEvent(mask, timeout)];
    var setup := idle + incorrect + correct;
    assert TrialSpec(blc, ic, cc, true, correctButton, mask, timeout, event).trace == setup + wait + off;
    // the press setting
    SettingNone(off, k, PressEvent(k));
    SettingNone(wait, k, PressEvent(k));
    SettingAppend(setup + wait, off, k, PressEvent(k));
    SettingAppend(setup, wait, k, PressEvent(k));
    SettingAppend(idle + incorrect, correct, k, PressEvent(k));
    if k == n {
      SettingIsLast(correct, k, PressEvent(k), 0);
    } else {
      SettingNone(correct, k, PressEvent(k));
      SettingAppend(idle, incorrect, k, PressEvent(k));
      SettingIsLast(incorrect, k, PressEvent(k), k - 1);
    }
    // the setting at once
    SettingIsLast(off, k, Immediate, k - 1);
    SettingAppend(setup + wait, off, k, Immediate);
  }
}
