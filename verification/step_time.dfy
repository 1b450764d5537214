/** `update_step_time` (hack_ui/app.py): the "Next Step" card. */
module StepTime {
  import opened Widgets

  /** Python's `int(x)` on a float: truncation toward zero. */
  function Truncate(x: real): (n: int)
    ensures 0.0 <= x ==> n as real <= x < n as real + 1.0
    ensures x < 0.0 ==> n as real - 1.0 < x <= n as real
  {
    if 0.0 <= x then x.Floor else -((-x).Floor)
  }

  /** The card's content for the parsed seconds-to-next-step value: the
      sentinel -1 after truncation reads "Pause", anything else the
      truncated integer. Because of the truncation, "Pause" is shown for
      every value in (-2, -1], not only for -1 itself. */
  function StepTimeText(secondsToNextStep: real): (c: Cell)
    ensures c.Text? <==> -2.0 < secondsToNextStep <= -1.0
    ensures c.Text? ==> c.text == "Pause"
    ensures c.Int? || c.Text?
    ensures c.Int? ==> c.n != -1 && -1.0 < c.n as real - secondsToNextStep < 1.0
    ensures c.Int? ==> c.n == Truncate(secondsToNextStep)
  {
    var timeTo := Truncate(secondsToNextStep);
    if timeTo == -1 then Text("Pause") else Int(timeTo)
  }

  /** An integral value other than -1 is shown unchanged. */
  lemma IntegerShownUnchanged(n: int)
    requires n != -1
    ensures StepTimeText(n as real) == Int(n)
  {
  }
}
