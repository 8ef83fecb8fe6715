/**
 * The time manager: the stored offset, the queries built on the clock, and
 * the two-button flow that sets the offset.
 *
 * The buttons are read once per 100 ms tick of the setting loop; a tick
 * supplies the number of A presses read on it and whether B was pressed.
 */
module TimeManager {
  import opened Wrappers
  import opened Clock
  import opened TimeFormat
  import opened Display

  datatype Tick = Tick(presses: nat, bPressed: bool)

  const HoursPerDay: nat := 24
  const MinutesPerHour: nat := 60

  /** All A presses read on the given ticks. */
  function PressTotal(ticks: seq<Tick>): (total: nat)
    ensures forall i :: 0 <= i < |ticks| ==> ticks[i].presses <= total
  {
    if ticks == [] then 0 else PressTotal(ticks[..|ticks| - 1]) + ticks[|ticks| - 1].presses
  }

  lemma {:induction false} PressTotalAppend(a: seq<Tick>, b: seq<Tick>)
    ensures PressTotal(a + b) == PressTotal(a) + PressTotal(b)
  {
    if b != [] {
      assert (a + b)[..|a + b| - 1] == a + b[..|b| - 1];
      PressTotalAppend(a, b[..|b| - 1]);
    } else {
      assert a + b == a;
    }
  }

  /** The tick on which B commits the value: the first one with B pressed. */
  function FirstCommit(ticks: seq<Tick>): (k: Option<nat>)
    ensures k.Some? ==> k.value < |ticks| && ticks[k.value].bPressed
    ensures forall j :: 0 <= j < |ticks| && (k.None? || j < k.value) ==> !ticks[j].bPressed
  {
    if ticks == [] then None
    else if ticks[0].bPressed then Some(0)
    else match FirstCommit(ticks[1..])
      case None => None
      case Some(k) => Some(k + 1)
  }

  /**
   * The value entered with A and committed with B, reduced mod maxval; the
   * presses read on the committing tick count. None when B never comes.
   */
  function ItemValue(ticks: seq<Tick>, maxval: nat): (v: Option<nat>)
    requires maxval > 0
    ensures v.Some? ==> v.value < maxval
  {
    match FirstCommit(ticks)
    case None => None
    case Some(k) => Some(PressTotal(ticks[..k + 1]) % maxval)
  }

  /** A value is committed exactly when some tick has B pressed. */
  lemma ItemValueCommitted(ticks: seq<Tick>, maxval: nat)
    requires maxval > 0
    ensures ItemValue(ticks, maxval).Some? <==> exists k :: 0 <= k < |ticks| && ticks[k].bPressed
  {
    if FirstCommit(ticks).Some? {
      assert ticks[FirstCommit(ticks).value].bPressed;
    }
  }

  /** A committed value is the total of the earlier presses plus those of the committing tick. */
  lemma ItemValueCountsCommitTick(ticks: seq<Tick>, maxval: nat, k: nat)
    requires maxval > 0 && k < |ticks| && ticks[k].bPressed
    requires forall j :: 0 <= j < k ==> !ticks[j].bPressed
    ensures ItemValue(ticks, maxval) == Some((PressTotal(ticks[..k]) + ticks[k].presses) % maxval)
  {
    var c := FirstCommit(ticks);
    assert c == Some(k);
    assert ticks[..k + 1][..k] == ticks[..k];
  }

  lemma ItemValueExamples()
    ensures ItemValue([Tick(25, true)], 24) == Some(1)
    ensures ItemValue([Tick(20, false), Tick(5, true), Tick(3, true)], 24) == Some(1)
    ensures ItemValue([Tick(4, false), Tick(0, false)], 60) == None
  {
    assert [Tick(20, false), Tick(5, true), Tick(3, true)][..2] == [Tick(20, false), Tick(5, true)];
    assert [Tick(20, false), Tick(5, true)][..1] == [Tick(20, false)];
  }

  /** Ticks after the committing one do not change where the commit is. */
  lemma {:induction false} FirstCommitPrefix(ticks: seq<Tick>, rest: seq<Tick>)
    requires FirstCommit(ticks).Some?
    ensures FirstCommit(ticks + rest) == FirstCommit(ticks)
  {
    if !ticks[0].bPressed {
      assert (ticks + rest)[1..] == ticks[1..] + rest;
      FirstCommitPrefix(ticks[1..], rest);
    }
  }

  /** Nothing pressed after B commits has any effect on the value. */
  lemma ItemValueIgnoresLaterTicks(ticks: seq<Tick>, rest: seq<Tick>, maxval: nat)
    requires maxval > 0 && FirstCommit(ticks).Some?
    ensures ItemValue(ticks + rest, maxval) == ItemValue(ticks, maxval)
  {
    FirstCommitPrefix(ticks, rest);
    var k := FirstCommit(ticks).value;
    assert (ticks + rest)[..k + 1] == ticks[..k + 1];
  }

  /** The ticks the setting of one item reads: up to and including the committing one. */
  function ItemLength(ticks: seq<Tick>): nat
  {
    match FirstCommit(ticks)
    case None => |ticks|
    case Some(k) => k + 1
  }

  /**
   * The offset the setting flow stores: hours mod 24 from the first
   * committed item, minutes mod 60 from the next.
   */
  function SetupOffset(ticks: seq<Tick>): (offset: Option<nat>)
    ensures offset.Some? ==> offset.value < MinutesPerDay
  {
    match ItemValue(ticks, HoursPerDay)
    case None => None
    case Some(hours) =>
      match ItemValue(ticks[ItemLength(ticks)..], MinutesPerHour)
      case None => None
      case Some(minutes) => Some(hours * 60 + minutes)
  }

  /** The minutes item starts right after the tick that commits the hours. */
  lemma ItemsSplit(hourTicks: seq<Tick>, minuteTicks: seq<Tick>)
    requires FirstCommit(hourTicks) == Some(|hourTicks| - 1)
    ensures ItemValue(hourTicks + minuteTicks, HoursPerDay) == ItemValue(hourTicks, HoursPerDay)
    ensures (hourTicks + minuteTicks)[ItemLength(hourTicks + minuteTicks)..] == minuteTicks
  {
    FirstCommitPrefix(hourTicks, minuteTicks);
    ItemValueIgnoresLaterTicks(hourTicks, minuteTicks, HoursPerDay);
  }

  lemma SetupOffsetOfValues(ticks: seq<Tick>, hours: nat, minutes: nat)
    requires ItemValue(ticks, HoursPerDay) == Some(hours)
    requires ItemValue(ticks[ItemLength(ticks)..], MinutesPerHour) == Some(minutes)
    ensures SetupOffset(ticks) == Some(hours * 60 + minutes)
  {
  }

  /**
   * Entering the hours on one run of ticks and then the minutes on the next
   * stores hours * 60 + minutes, whose fields the clock then shows.
   */
  lemma SetupOffsetOfItems(hourTicks: seq<Tick>, minuteTicks: seq<Tick>)
    requires FirstCommit(hourTicks) == Some(|hourTicks| - 1)
    requires FirstCommit(minuteTicks).Some?
    ensures SetupOffset(hourTicks + minuteTicks)
         == Some(ItemValue(hourTicks, HoursPerDay).value * 60 + ItemValue(minuteTicks, MinutesPerHour).value)
    ensures SetupOffset(hourTicks + minuteTicks).value / 60 == ItemValue(hourTicks, HoursPerDay).value
    ensures SetupOffset(hourTicks + minuteTicks).value % 60 == ItemValue(minuteTicks, MinutesPerHour).value
  {
    var h := ItemValue(hourTicks, HoursPerDay).value;
    var m := ItemValue(minuteTicks, MinutesPerHour).value;
    ItemsSplit(hourTicks, minuteTicks);
    SetupOffsetOfValues(hourTicks + minuteTicks, h, m);
    HourMinuteFields(h, m);
  }

  /** The clock state: the minute of the day entered at boot. */
  class ManageTime {
    var initialTimeMinutes: nat

    ghost predicate Valid()
      reads this
    {
      initialTimeMinutes < MinutesPerDay
    }

    constructor ()
      ensures Valid() && initialTimeMinutes == 0
    {
      initialTimeMinutes := 0;
    }

    /** The minute of the day after the given milliseconds since boot, in integers. */
    method GetCurrentMinutes(elapsedMs: nat) returns (minutes: int)
      ensures minutes == CurrentMinutes(elapsedMs, initialTimeMinutes, TimeMultiplier)
      ensures 0 <= minutes < MinutesPerDay
    {
      CurrentMinutesExact(elapsedMs, initialTimeMinutes, TimeMultiplier);
      minutes := ((TimeMultiplier * elapsedMs) / MillisPerMinute
                  + TimeMultiplier * initialTimeMinutes) % MinutesPerDay;
    }

    /** The text scrolled when A is pressed: the current time as HH:MM. */
    method ShowCurrentTime(elapsedMs: nat) returns (text: string)
      ensures |text| == 5 && text[2] == ':'
      ensures ParseTime(text) == Some(CurrentMinutes(elapsedMs, initialTimeMinutes, TimeMultiplier))
    {
      var minutes := GetCurrentMinutes(elapsedMs);
      var formatted := FormatTime(minutes);
      text := ReplaceSpaces(formatted);
      ParseOfFormatTime(minutes);
      ReplaceSpacesIdentity(formatted);
    }

    /** The icon for the current minute. */
    method ShowSleepAwakeStatus(elapsedMs: nat) returns (icon: Icon)
      ensures icon == Status(CurrentMinutes(elapsedMs, initialTimeMinutes, TimeMultiplier))
    {
      var minutes := GetCurrentMinutes(elapsedMs);
      if minutes < AlmostWakeTime || minutes > SleepTime {
        icon := Asleep;
      } else if minutes < WakeTime {
        icon := AllClocks;
      } else {
        icon := Happy;
      }
    }

    method CurrentTimeIsBetweenShowStartAndEnd(elapsedMs: nat) returns (between: bool)
      ensures between <==> InShowWindow(CurrentMinutes(elapsedMs, initialTimeMinutes, TimeMultiplier))
    {
      var minutes := GetCurrentMinutes(elapsedMs);
      between := ShowStart < minutes < ShowEnd;
    }

    /**
     * Reads ticks until one with B pressed, adding up the A presses; after
     * every other tick it shows the running value mod maxval. Returns the
     * committed value, the number of ticks read and the values shown.
     */
    static method GetInitialTimeItem(ticks: seq<Tick>, maxval: nat)
      returns (value: Option<nat>, used: nat, shown: seq<string>)
      requires maxval > 0
      ensures value == ItemValue(ticks, maxval)
      ensures used == ItemLength(ticks) && used <= |ticks|
      ensures |shown| == (if value.Some? then used - 1 else used)
      ensures forall i :: 0 <= i < |shown| ==> shown[i] == ZeroPad2(PressTotal(ticks[..i + 1]) % maxval)
    {
      var total := 0;
      var i := 0;
      shown := [];
      while i < |ticks|
        invariant 0 <= i <= |ticks|
        invariant total == PressTotal(ticks[..i])
        invariant forall j :: 0 <= j < i ==> !ticks[j].bPressed
        invariant |shown| == i
        invariant forall j :: 0 <= j < i ==> shown[j] == ZeroPad2(PressTotal(ticks[..j + 1]) % maxval)
      {
        assert ticks[..i + 1][..i] == ticks[..i];
        total := total + ticks[i].presses;
        if ticks[i].bPressed {
          ItemValueCountsCommitTick(ticks, maxval, i);
          return Some(total % maxval), i + 1, shown;
        }
        shown := shown + [ZeroPad2(total % maxval)];
        i := i + 1;
      }
      return None, i, shown;
    }

    /** Sets the offset from the hours item and then the minutes item. */
    method InteractiveSetInitialTime(ticks: seq<Tick>) returns (done: bool)
      requires Valid()
      modifies this
      ensures Valid()
      ensures done == SetupOffset(ticks).Some?
      ensures initialTimeMinutes == if done then SetupOffset(ticks).value else old(initialTimeMinutes)
    {
      var hours, used, _ := GetInitialTimeItem(ticks, HoursPerDay);
      if hours.None? {
        return false;
      }
      var minutes, _, _ := GetInitialTimeItem(ticks[used..], MinutesPerHour);
      if minutes.None? {
        return false;
      }
      initialTimeMinutes := hours.value * 60 + minutes.value;
      return true;
    }
  }
}
