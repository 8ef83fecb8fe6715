/**
 * The program's entry: set the time, then every 200 ms tick decide between
 * scrolling the time, showing the mood icon and clearing the display.
 */
module MainLoop {
  import opened Wrappers
  import opened Clock
  import opened TimeFormat
  import TimeManager

  /** What one tick of the main loop reads: both button flags and the time since boot. */
  datatype LoopTick = LoopTick(aPressed: bool, bPressed: bool, elapsedMs: nat)

  /** The extra time a status icon asked for with B stays on the display. */
  const StatusHoldMs: nat := 2000

  datatype Decision = ShowTime | ShowStatus(holdMs: nat) | Clear

  /** A wins over everything; then B or the show window bring up the status. */
  function Decide(aPressed: bool, bPressed: bool, inWindow: bool): (d: Decision)
    ensures d == ShowTime <==> aPressed
    ensures d.ShowStatus? <==> !aPressed && (bPressed || inWindow)
    ensures d.ShowStatus? ==> (d.holdMs == StatusHoldMs <==> bPressed) && (d.holdMs == 0 <==> !bPressed)
    ensures d == Clear <==> !aPressed && !bPressed && !inWindow
  {
    if aPressed then ShowTime
    else if bPressed || inWindow then ShowStatus(if bPressed then StatusHoldMs else 0)
    else Clear
  }

  /** What a tick puts on the display. */
  datatype Output = ScrollTime(text: string) | ShowIcon(icon: Icon, holdMs: nat) | ClearDisplay

  /** The display effect of one tick for a clock set to the given offset. */
  function TickOutput(t: LoopTick, offset: nat): (output: Output)
    ensures output.ScrollTime? <==> t.aPressed
    ensures output.ShowIcon? ==> output.icon == Status(CurrentMinutes(t.elapsedMs, offset, TimeMultiplier))
  {
    var minute := CurrentMinutes(t.elapsedMs, offset, TimeMultiplier);
    match Decide(t.aPressed, t.bPressed, InShowWindow(minute))
    case ShowTime => ScrollTime(FormatTime(minute))
    case ShowStatus(hold) => ShowIcon(Status(minute), hold)
    case Clear => ClearDisplay
  }

  /**
   * With A pressed the tick scrolls the HH:MM reading of the clock; without
   * A, B shows the icon held for 2 s and the show window shows it unheld;
   * with neither, the display is cleared.
   */
  lemma TickOutputCases(t: LoopTick, offset: nat)
    ensures var minute := CurrentMinutes(t.elapsedMs, offset, TimeMultiplier);
      && (t.aPressed ==> TickOutput(t, offset).ScrollTime?
                         && ParseTime(TickOutput(t, offset).text) == Some(minute))
      && (!t.aPressed && t.bPressed ==> TickOutput(t, offset) == ShowIcon(Status(minute), StatusHoldMs))
      && (!t.aPressed && !t.bPressed && InShowWindow(minute) ==> TickOutput(t, offset) == ShowIcon(Status(minute), 0))
      && (!t.aPressed && !t.bPressed && !InShowWindow(minute) ==> TickOutput(t, offset) == ClearDisplay)
  {
    ParseOfFormatTime(CurrentMinutes(t.elapsedMs, offset, TimeMultiplier));
  }

  /**
   * Left alone, the watch shows the asleep icon from 6:01 to 6:44, the
   * clocks until 7:14, the happy face until 7:59, and nothing otherwise.
   */
  lemma UnattendedOutput(t: LoopTick, offset: nat)
    requires !t.aPressed && !t.bPressed
    ensures var minute := CurrentMinutes(t.elapsedMs, offset, TimeMultiplier);
      && (360 < minute < 405 <==> TickOutput(t, offset) == ShowIcon(Asleep, 0))
      && (405 <= minute < 435 <==> TickOutput(t, offset) == ShowIcon(AllClocks, 0))
      && (435 <= minute < 480 <==> TickOutput(t, offset) == ShowIcon(Happy, 0))
      && (minute <= 360 || 480 <= minute <==> TickOutput(t, offset) == ClearDisplay)
  {
  }

  /**
   * Pressing A within a minute of boot scrolls exactly the time just set,
   * as HH:MM.
   */
  lemma TimeShownAfterSetting(setupTicks: seq<TimeManager.Tick>, t: LoopTick)
    requires TimeManager.SetupOffset(setupTicks).Some?
    requires t.aPressed && t.elapsedMs < MillisPerMinute
    ensures var offset := TimeManager.SetupOffset(setupTicks).value;
      TickOutput(t, offset) == ScrollTime(FormatTime(offset))
  {
    CurrentMinutesAtStart(t.elapsedMs, TimeManager.SetupOffset(setupTicks).value);
  }

  /** One iteration of the main loop: B's flag is read once and used for both tests. */
  method Step(timeManager: TimeManager.ManageTime, tick: LoopTick) returns (output: Output)
    ensures output == TickOutput(tick, timeManager.initialTimeMinutes)
  {
    var bWasPressed := tick.bPressed;
    if tick.aPressed {
      var text := timeManager.ShowCurrentTime(tick.elapsedMs);
      FormatOfParseTime(text);
      output := ScrollTime(text);
    } else {
      // The window is only consulted when B was not pressed.
      var inWindow := false;
      if !bWasPressed {
        inWindow := timeManager.CurrentTimeIsBetweenShowStartAndEnd(tick.elapsedMs);
      }
      if bWasPressed || inWindow {
        var icon := timeManager.ShowSleepAwakeStatus(tick.elapsedMs);
        output := ShowIcon(icon, if bWasPressed then StatusHoldMs else 0);
      } else {
        output := ClearDisplay;
      }
    }
  }

  /**
   * Sets the time from the setting ticks, then runs one loop iteration per
   * loop tick. If B never commits both items the setting flow does not
   * return and nothing is shown.
   */
  method Run(setupTicks: seq<TimeManager.Tick>, loopTicks: seq<LoopTick>) returns (outputs: seq<Output>)
    ensures TimeManager.SetupOffset(setupTicks).None? ==> outputs == []
    ensures TimeManager.SetupOffset(setupTicks).Some? ==>
      && |outputs| == |loopTicks|
      && forall i :: 0 <= i < |loopTicks| ==>
           outputs[i] == TickOutput(loopTicks[i], TimeManager.SetupOffset(setupTicks).value)
  {
    var timeManager := new TimeManager.ManageTime();
    var done := timeManager.InteractiveSetInitialTime(setupTicks);
    outputs := [];
    if !done {
      return;
    }
    ghost var offset := timeManager.initialTimeMinutes;
    var i := 0;
    while i < |loopTicks|
      invariant 0 <= i <= |loopTicks|
      invariant timeManager.initialTimeMinutes == offset && timeManager.Valid()
      invariant |outputs| == i
      invariant forall j :: 0 <= j < i ==> outputs[j] == TickOutput(loopTicks[j], offset)
    {
      var output := Step(timeManager, loopTicks[i]);
      outputs := outputs + [output];
      i := i + 1;
    }
  }
}
