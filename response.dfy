/**
 * What `run` does with the device's answer: `wait_for_event` returns `-1`
 * when the timeout expires and otherwise the event of the pressed button,
 * bit `n - 1` for button `n`; `math.log2(event) + 1` turns that back into the
 * button number, and the trial is correct when it equals the configured
 * button.
 */
module Response {
  import opened Bits
  import opened Python
  import opened AllowedResponses

  /** What `wait_for_event` returns when no allowed button was pressed in time. */
  const NoResponse := -1

  /**
   * The response stored for an event: the sentinel stays, and a one-bit
   * event `1 << k` becomes button `k + 1`.
   */
  function Decode(event: int): (button: int)
    requires event == NoResponse || IsPow2(event)
    ensures event == NoResponse ==> button == NoResponse
    ensures event != NoResponse ==> button >= 1 && Pow2(button - 1) == event
  {
    if event == NoResponse then NoResponse else Log2(event) + 1
  }

  /**
   * `self.var.response == self.var.correct_button`: an integer response only
   * equals an integer setting with the same value, and text only equal text.
   */
  function IsCorrect(response: VarValue, correctButton: VarValue): (r: bool)
    ensures response.Int? && correctButton.Int? ==> (r <==> response.i == correctButton.i)
    ensures response.Text? && correctButton.Text? ==> (r <==> response.s == correctButton.s)
    ensures response.Int? != correctButton.Int? ==> !r
  {
    response == correctButton
  }

  /** Pressing button `k + 1` (event `1 << k`) is recorded as response `k + 1`. */
  lemma DecodePress(k: nat)
    ensures IsPow2(Pow2(k)) && Decode(Pow2(k)) == k + 1
  {
    Log2OfPow2(k);
  }

  /** Different events decode to different responses. */
  lemma DecodeInjective(e1: int, e2: int)
    requires e1 == NoResponse || IsPow2(e1)
    requires e2 == NoResponse || IsPow2(e2)
    requires Decode(e1) == Decode(e2)
    ensures e1 == e2
  {
  }

  /**
   * A press is correct exactly when it is the configured button; a timeout
   * is never correct against a button number.
   */
  lemma CorrectIffConfiguredButton(k: nat, button: int)
    ensures IsPow2(Pow2(k))
    ensures IsCorrect(Int(Decode(Pow2(k))), Int(button)) <==> k + 1 == button
    ensures button >= 1 ==> !IsCorrect(Int(Decode(NoResponse)), Int(button))
  {
    DecodePress(k);
  }

  /**
   * When the device only reports events whose bit is in the mask, the
   * response is one of the allowed buttons.
   */
  lemma DecodedIsAllowed(bs: seq<nat>, event: int)
    requires AllButtons(bs) && IsPow2(event)
    requires Bit(MaskOr(bs), Log2(event))
    ensures Decode(event) in bs
  {
    MaskOrBits(bs, Log2(event));
  }
}
