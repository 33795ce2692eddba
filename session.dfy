/**
 * A worked session with a three-frame window and a ten-second cooldown,
 * one `Step` (one `analyze` call) at a time: three overlapping frames start
 * an event, a fourth only extends it, three frames without a phone end it
 * at time 0, three overlapping frames at time 5 are suppressed by the
 * cooldown, and one more at time 11 starts a second event.
 */
module Session {
  import opened Wrappers
  import opened Geometry
  import opened OverlapSearch
  import opened TrackerSpec

  function Cfg(): Config { Config(3, 10.0) }
  function PersonBox(): Box { Box(0.0, 0.0, 10.0, 10.0) }
  function PhoneBox(): Box { Box(5.0, 5.0, 15.0, 15.0) }
  function FirstEvent(frameCount: nat): EventView { EventView(0, 0.0, PersonBox(), PhoneBox(), frameCount) }

  /** Overlapping frames at time 0: the third starts event 0, the fourth extends it. */
  lemma SessionStarts()
    ensures Step(Cfg(), Init(), [PersonBox()], [PhoneBox()], 0.0) ==
      StepResult(TrackerState([true], None, None, 0), None)
    ensures Step(Cfg(), TrackerState([true], None, None, 0), [PersonBox()], [PhoneBox()], 0.0) ==
      StepResult(TrackerState([true, true], None, None, 0), None)
    ensures Step(Cfg(), TrackerState([true, true], None, None, 0), [PersonBox()], [PhoneBox()], 0.0) ==
      StepResult(TrackerState([true, true, true], Some(FirstEvent(1)), None, 1), Some(FirstEvent(1)))
    ensures Step(Cfg(), TrackerState([true, true, true], Some(FirstEvent(1)), None, 1), [PersonBox()], [PhoneBox()], 0.0) ==
      StepResult(TrackerState([true, true, true], Some(FirstEvent(2)), None, 1), None)
  {
    assert FirstOverlap([PersonBox()], [PhoneBox()]) == Some(Pair(PersonBox(), PhoneBox()));
    assert Push([true, true, true], true, 3) == [true, true, true];
  }

  /** Frames without a phone: the event survives two of them and ends on the third. */
  lemma SessionEnds()
    ensures Step(Cfg(), TrackerState([true, true, true], Some(FirstEvent(2)), None, 1), [PersonBox()], [], 0.0) ==
      StepResult(TrackerState([true, true, false], Some(FirstEvent(2)), None, 1), None)
    ensures Step(Cfg(), TrackerState([true, true, false], Some(FirstEvent(2)), None, 1), [PersonBox()], [], 0.0) ==
      StepResult(TrackerState([true, false, false], Some(FirstEvent(2)), None, 1), None)
    ensures Step(Cfg(), TrackerState([true, false, false], Some(FirstEvent(2)), None, 1), [PersonBox()], [], 0.0) ==
      StepResult(TrackerState([false, false, false], None, Some(0.0), 1), None)
  {
    assert Push([true, true, true], false, 3) == [true, true, false];
    assert Push([true, true, false], false, 3) == [true, false, false];
    assert Push([true, false, false], false, 3) == [false, false, false];
  }

  /** Overlapping frames at time 5 fill the window, but the cooldown suppresses the event. */
  lemma SessionSuppressed()
    ensures Step(Cfg(), TrackerState([false, false, false], None, Some(0.0), 1), [PersonBox()], [PhoneBox()], 5.0) ==
      StepResult(TrackerState([false, false, true], None, Some(0.0), 1), None)
    ensures Step(Cfg(), TrackerState([false, false, true], None, Some(0.0), 1), [PersonBox()], [PhoneBox()], 5.0) ==
      StepResult(TrackerState([false, true, true], None, Some(0.0), 1), None)
    ensures Step(Cfg(), TrackerState([false, true, true], None, Some(0.0), 1), [PersonBox()], [PhoneBox()], 5.0) ==
      StepResult(TrackerState([true, true, true], None, Some(0.0), 1), None)
  {
    assert FirstOverlap([PersonBox()], [PhoneBox()]) == Some(Pair(PersonBox(), PhoneBox()));
    assert Push([false, false, false], true, 3) == [false, false, true];
    assert Push([false, false, true], true, 3) == [false, true, true];
    assert Push([false, true, true], true, 3) == [true, true, true];
  }

  /** At time 11 the cooldown has passed, and the same frame starts event 1. */
  lemma SessionRestarts()
    ensures Step(Cfg(), TrackerState([true, true, true], None, Some(0.0), 1), [PersonBox()], [PhoneBox()], 11.0) ==
      StepResult(TrackerState([true, true, true], Some(EventView(1, 11.0, PersonBox(), PhoneBox(), 1)), Some(0.0), 2),
                 Some(EventView(1, 11.0, PersonBox(), PhoneBox(), 1)))
  {
    assert FirstOverlap([PersonBox()], [PhoneBox()]) == Some(Pair(PersonBox(), PhoneBox()));
    assert Push([true, true, true], true, 3) == [true, true, true];
  }
}
