# Wake-up watch for the BBC micro:bit: a verified model

The program is a children's wake-up watch. It keeps a clock as an offset set at boot plus the time since boot. The child sets the offset with the two buttons: A presses count up the hours, B commits them, and then the same for the minutes. The watch then either scrolls the time as `HH:MM`, shows a mood icon, or clears the display. The icon is asleep before 6:45 and after 21:30, clocks until 7:15, and happy otherwise. It appears on a B press, or unprompted between 6:00 and 8:00 (both ends excluded). A press of A always shows the time.

The model replaces the hardware with plain inputs:

- The millisecond counter becomes an `elapsedMs: nat` argument.
- Each tick of the setting loop becomes a `Tick(presses, bPressed)`.
- Each tick of the main loop becomes a `LoopTick(aPressed, bPressed, elapsedMs)`.
- The LED matrix becomes a 5×5 `array2` of brightness values.
- What the display would show is returned as values: scrolled text, an icon with its hold time, or a clear.

Modules:

- `Clock` (clock.dfy): the minute of the day, the three-way classifier and the show window, with the thresholds as integers (405, 435, 1290, 360, 480).
- `TimeFormat` (time_format.dfy): `%02d` and `%02d:%02d`, plus a parser that inverts them.
- `Display` (display.dfy): the space-to-underscore rewrite and the dark-screen scan.
- `TimeManager` (time_manager.dfy): the `ManageTime` class with its one mutable field `initialTimeMinutes`, and the setting flow.
- `MainLoop` (main_loop.dfy): the per-tick dispatch and the whole run after boot.
- `Wrappers` (wrappers.dfy): `Option`.

The expression on line 60 uses floats. The model writes it in exact real arithmetic (`.Floor`). `Clock.ScaledMinutesExact` proves that this equals the integer form `(M * ms) div 60000 + M * offset`, and `ManageTime.GetCurrentMinutes` computes with that integer form.

Where the description of the program and the code differ, the model follows the code:

- Line 60 multiplies the offset by `TIME_MULTIPLIER` as well as the elapsed minutes, so the offset is scaled too. With the shipped multiplier of 1 this changes nothing. With 60, a clock set to 07:00 reads 12:00 at boot (`Clock.CurrentMinutesScalesOffset`).
- Setting the time does not reset the elapsed-time baseline. `running_time()` counts from boot, so the time spent in the setting flow is added to the offset.

## Model

| member | source | states |
|---|---|---|
| Clock.ScaledMinutes | alarm_clock.py:59-60 | defines the unreduced minute count multiplier × (ms / 60000 + offset), truncated; it is never below multiplier × offset. ScaledMinutesExact and ScaledMinutesMonotone state its properties |
| Clock.CurrentMinutes | alarm_clock.py:58-61 | the minute of the day lies in [0, 1440) for every elapsed time, offset and multiplier |
| Clock.ScaledMinutesExact | alarm_clock.py:59-61 | truncating multiplier × (ms / 60000 + offset) equals (multiplier × ms) div 60000 + multiplier × offset |
| Clock.CurrentMinutesExact | alarm_clock.py:59-61 | the current minute is ((multiplier × ms) div 60000 + multiplier × offset) mod 1440 |
| Clock.ScaledMinutesMonotone | alarm_clock.py:59-60 | the unreduced minute count never decreases as the elapsed time grows |
| Clock.CurrentMinutesAdvance | alarm_clock.py:59-61 | k more real minutes move the shown minute multiplier × k ahead, modulo the day |
| Clock.CurrentMinutesDaily | alarm_clock.py:58-61 | with multiplier 1 the shown minute repeats every 24 h of running time |
| Clock.CurrentMinutesAtStart | alarm_clock.py:58-61 | in the first minute after boot an offset below 1440 is shown unchanged |
| Clock.CurrentMinutesScalesOffset | alarm_clock.py:60 | the multiplier scales the offset too: at boot the minute is (multiplier × offset) mod 1440, so 7:00 with multiplier 60 reads 12:00 |
| Clock.Status | alarm_clock.py:90-97 | asleep iff minute < 405 or > 1290, clocks iff 405 ≤ minute < 435, happy iff 435 ≤ minute ≤ 1290 |
| Clock.StatusBoundaries | alarm_clock.py:92-97 | 404 asleep, 405 clocks, 434 clocks, 435 happy, 1290 happy, 1291 asleep, midnight and 23:59 asleep |
| Clock.InShowWindow | alarm_clock.py:100 | defines the show window, strictly between 360 and 480; every minute in it is a minute of the day. ShowWindowBoundaries and ShowWindowStatus state its edges and icons |
| Clock.ShowWindowBoundaries | alarm_clock.py:99-102 | 360 and 480 are outside the show window, 361 and 479 inside |
| Clock.ShowWindowStatus | alarm_clock.py:92-102 | inside the show window the icon is asleep before 405, clocks before 435 and happy from 435 on |
| TimeFormat.ParseDecimalOfDecimal | alarm_clock.py:65 | reading back the decimal numeral of n gives n |
| TimeFormat.ZeroPad2 | alarm_clock.py:65 | '%02d' gives at least two characters, exactly the tens and units digit when n < 100 |
| TimeFormat.ParseZeroPad2 | alarm_clock.py:65 | the '%02d' text is all digits and reads back as n |
| TimeFormat.FormatTime | alarm_clock.py:65 | defines '%02d:%02d' of minute div 60 and minute mod 60; the text has at least five characters. ParseOfFormatTime, FormatOfParseTime and FormatTimeFields state the round trip and the fields |
| TimeFormat.ParseOfFormatTime | alarm_clock.py:65 | for a minute of the day the text is 5 characters with ':' at index 2 and parses back to that minute |
| TimeFormat.ParseTimeOfFields | alarm_clock.py:65 | two zero-padded fields hh < 24 and mm < 60 joined by ':' parse as 60 × hh + mm |
| TimeFormat.FormatOfParseTime | alarm_clock.py:65 | every HH:MM string that parses is the formatting of the minute it parses to (the other direction of the round trip) |
| TimeFormat.FormatTimeFields | alarm_clock.py:65 | the two leading characters are minute div 60 zero-padded, the two trailing ones minute mod 60 zero-padded, and hh × 60 + mm is the minute |
| Display.ReplaceSpaces | alarm_clock.py:30 | the same length, no space left, every space replaced by '_' and every other character kept |
| Display.ReplaceSpacesIdentity | alarm_clock.py:30 | text without spaces is scrolled unchanged |
| Display.ReplaceSpacesIdempotent | alarm_clock.py:30 | rewriting twice is the same as rewriting once |
| Display.AllPixelsAreOff | alarm_clock.py:45-51 | true exactly when every pixel of the 5×5 grid reads 0 (the contract states only this; stopping at the first lit pixel is in the body and not observable) |
| TimeManager.PressTotal | alarm_clock.py:83 | defines the running value as the sum of the presses read; every tick's presses are included in it. PressTotalAppend states how it adds up over runs of ticks |
| TimeManager.PressTotalAppend | alarm_clock.py:83 | the running value over two runs of ticks is the sum of their totals |
| TimeManager.FirstCommit | alarm_clock.py:84-85 | the committing tick has B pressed and no earlier tick has; none means B was never pressed |
| TimeManager.ItemValue | alarm_clock.py:81-88 | a committed value is below maxval |
| TimeManager.ItemValueCommitted | alarm_clock.py:82-88 | a value is committed iff some tick has B pressed |
| TimeManager.ItemValueCountsCommitTick | alarm_clock.py:82-88 | the value is (presses before the first B tick + presses read on that tick) mod maxval |
| TimeManager.ItemValueExamples | alarm_clock.py:81-88 | 25 presses then B with maxval 24 give 1, presses after the commit are ignored, no B gives no value |
| TimeManager.FirstCommitPrefix | alarm_clock.py:84-85 | ticks after the committing one do not move the commit |
| TimeManager.ItemValueIgnoresLaterTicks | alarm_clock.py:82-88 | nothing read after B commits changes the value |
| TimeManager.SetupOffset | alarm_clock.py:70-74 | a stored offset lies in [0, 1440) |
| TimeManager.SetupOffsetOfItems | alarm_clock.py:70-74 | hours entered on one run of ticks and minutes on the next give hours × 60 + minutes; div 60 and mod 60 return the two entries |
| TimeManager.ManageTime.constructor | alarm_clock.py:55-56 | the offset starts at 0 |
| TimeManager.ManageTime.GetCurrentMinutes | alarm_clock.py:58-61 | the integer computation equals the exact truncated minute of the day, in [0, 1440) |
| TimeManager.ManageTime.ShowCurrentTime | alarm_clock.py:63-65 | the scrolled text is 5 characters, ':' at index 2, and parses to the current minute |
| TimeManager.ManageTime.ShowSleepAwakeStatus | alarm_clock.py:90-97 | the icon is the classification of the current minute |
| TimeManager.ManageTime.CurrentTimeIsBetweenShowStartAndEnd | alarm_clock.py:99-102 | true exactly when the current minute is strictly inside the show window |
| TimeManager.ManageTime.GetInitialTimeItem | alarm_clock.py:76-88 | returns the committed value, reads up to and including the first B tick, and after every earlier tick shows the running total mod maxval as '%02d' |
| TimeManager.ManageTime.InteractiveSetInitialTime | alarm_clock.py:67-74 | when both items are committed the field becomes hours × 60 + minutes, in [0, 1440); otherwise it is unchanged |
| MainLoop.Decide | alarm_clock.py:111-119 | show time iff A; otherwise status iff B or in window, with the 2000 ms hold iff B; clear iff none of the three |
| MainLoop.TickOutput | alarm_clock.py:111-119 | defines what one loop iteration puts on the display; the time scrolls iff A was pressed, and any icon shown is the classification of the current minute. TickOutputCases and UnattendedOutput state the full dispatch; Step and Run are proved against it |
| MainLoop.TickOutputCases | alarm_clock.py:111-119 | A scrolls HH:MM text that parses to the current minute; B alone shows the icon held 2 s; the window alone shows it unheld; otherwise clear |
| MainLoop.UnattendedOutput | alarm_clock.py:111-119 | with no button pressed the watch shows asleep for 361..404, clocks for 405..434, happy for 435..479, and clears otherwise |
| MainLoop.TimeShownAfterSetting | alarm_clock.py:67-74 | A pressed within a minute of boot scrolls exactly the HH:MM just set |
| MainLoop.Step | alarm_clock.py:111-119 | the output is the dispatch of TickOutput for the tick and the stored offset; the tick carries one B flag, which the body takes once and uses for both tests |
| MainLoop.Run | alarm_clock.py:105-120 | after the setting flow, each tick's output is the dispatch for that tick with the stored offset; no output if setting never completes |

## Left out

- The hardware calls: `display.scroll`, `display.show`, `display.clear`, `Image.*`, `sleep` and `running_time`. They become inputs (elapsed milliseconds, button readings, a pixel grid) or returned values (text, icon, clear).
- `scroll_stop_on_press` waiting until a button is pressed or the screen goes dark (lines 31-42). It depends on a scroll animation and real-time waits. Only its text rewrite (line 30) is modelled.
- Button edge flags and press counters drained around every interruptible scroll (lines 27-28 and 39-42) and once before the main loop (line 109). This includes the time scrolled on an A press (line 113): on the device, a B press made while that time scrolls is lost, and the next iteration does not see it. The model accepts any tick sequence, so it does not capture this loss. Each tick supplies one press count and one B flag.
- The prompt texts 'Click A to enter values, B to set.' and 'set hours' / 'set minutes' (lines 69 and 80). They are display output only.
- The infinite `while True` of the main loop and the setting loop. They are modelled over finite tick sequences. When B never comes, the setting loop blocks forever in the program; in the model it ends the run with no value.
- The sleep durations (100 ms, 200 ms, 2000 ms) as timing. The 2000 ms hold is part of the output, not a delay.
- Float rounding in line 59: exact rational arithmetic stands for the float.
- Wrap-around of the hardware millisecond counter: elapsed time is an unbounded `nat`.
- The clocks icon being an animation: the model only returns which icon is shown.
- MainLoop.Run: within one tick, the window check and the status icon each read the clock separately in the program (lines 114-115). The model gives both the tick's one elapsed time.
- TimeManager.ManageTime.GetInitialTimeItem: requires maxval > 0. The callers pass only 24 and 60, and a zero maxval would fail with a division error in the program.
