/**
 * The stand-alone mood check-in component: its own time-of-day rule, the
 * one layout it renders per time of day, its mood map over the stored value
 * text, and its unclamped counter with the "out of 4" percentage.
 */
module MoodWidget {
  import opened Options
  import opened Mood
  import Text
  import MoodPage

  /** `getMoodTime`: the same three ranges as the page, written as early returns. */
  function GetMoodTime(hours: int): (t: TimeOfDay)
    ensures t == Morning <==> 5 <= hours <= 11
    ensures t == Afternoon <==> 12 <= hours <= 17
  {
    if hours >= 5 && hours <= 11 then Morning
    else if hours >= 12 && hours < 18 then Afternoon
    else Evening
  }

  /** The component and the page put every hour in the same time of day. */
  lemma SameAsPage(hours: int)
    ensures GetMoodTime(hours) == MoodPage.TimeOfHour(hours)
  {
  }

  /** The layouts, in the order the component tests them, each keyed by the time name it compares against. */
  const Layouts: seq<TimeOfDay> := [Morning, Afternoon, Evening]

  /**
   * The layouts whose guard `currentMoodTime === name` holds: for every hour
   * exactly one layout is rendered, the one for that hour's time of day.
   */
  function RenderedLayouts(hours: int): (shown: seq<TimeOfDay>)
    ensures forall i :: 0 <= i < |shown| ==> shown[i] in Layouts
    ensures shown == [GetMoodTime(hours)]
  {
    var t := GetMoodTime(hours);
    TimeNamesDistinct(t, Morning);
    TimeNamesDistinct(t, Afternoon);
    TimeNamesDistinct(t, Evening);
    var name := TimeName(t);
    (if name == TimeName(Morning) then [Morning] else [])
    + (if name == TimeName(Afternoon) then [Afternoon] else [])
    + (if name == TimeName(Evening) then [Evening] else [])
  }

  /**
   * `moodMap[mood]` where `mood` holds the chosen input's value text (the
   * initial value is the number 3, whose property key is "3").
   */
  function MoodOfText(mood: string): (k: Option<MoodKey>)
    ensures k.Some? <==> mood in ["1", "2", "3", "4", "5"]
  {
    if mood == "1" then Some(Sad)
    else if mood == "2" then Some(Dissatisfied)
    else if mood == "3" then Some(Neutral)
    else if mood == "4" then Some(Calm)
    else if mood == "5" then Some(Happy)
    else None
  }

  const InitialMood: string := "3"

  lemma InitialMoodIsNeutral()
    ensures MoodOfText(InitialMood) == Some(Neutral)
  {
  }

  /**
   * The component keeps the value text and the page keeps its number, but
   * for the value of every rendered input (1..5) they select the same mood.
   */
  lemma SameMoodAsPage(code: int)
    requires 1 <= code <= 5
    ensures MoodOfText(Text.NatToString(code)) == MoodPage.MoodOfCode(MoodPage.MoodChange(Text.NatToString(code)))
  {
    assert Text.NatToString(code) == [Text.DigitChar(code)];
  }

  /** `activityStatus`: plus one on check, minus one on uncheck, with no bound either way. */
  function ActivityStatus(prev: int, checked: bool): (next: int)
    ensures checked ==> next == prev + 1
    ensures !checked ==> next == prev - 1
  {
    if checked then prev + 1 else prev - 1
  }

  /** The counter after a run of checkbox events. */
  function RunEvents(start: int, events: seq<bool>): int
    decreases |events|
  {
    if events == [] then start else RunEvents(ActivityStatus(start, events[0]), events[1..])
  }

  function CountChecks(events: seq<bool>, v: bool): (n: nat)
    ensures n <= |events|
  {
    if events == [] then 0 else (if events[0] == v then 1 else 0) + CountChecks(events[1..], v)
  }

  /** After any run of events the counter has moved by the checks less the unchecks. */
  lemma {:induction false} RunEventsNet(start: int, events: seq<bool>)
    ensures RunEvents(start, events) == start + CountChecks(events, true) - CountChecks(events, false)
    decreases |events|
  {
    if events != [] {
      RunEventsNet(ActivityStatus(start, events[0]), events[1..]);
    }
  }

  /** Nothing clamps the counter: unchecking at zero goes below zero. */
  lemma CounterGoesNegative()
    ensures RunEvents(0, [false]) == -1
  {
  }

  /** The displayed percentage, always out of 4. */
  function Percentage(activity: int): (pct: int)
    ensures pct % 25 == 0
    ensures 0 <= activity <= 4 ==> 0 <= pct <= 100
  {
    activity * 25
  }

  lemma FourOfFourIsFull()
    ensures Percentage(4) == 100
  {
  }

  /** From a fresh counter, the displayed percentage is 25 points per check less 25 per uncheck. */
  lemma PercentageOfRun(events: seq<bool>)
    ensures Percentage(RunEvents(0, events)) == 25 * (CountChecks(events, true) - CountChecks(events, false))
  {
    RunEventsNet(0, events);
  }

  /** No check shows 0, and each further check adds exactly 25 points, with no bound either way. */
  lemma PercentageStep(a: int)
    ensures Percentage(0) == 0
    ensures Percentage(a + 1) == Percentage(a) + 25
  {
  }
}
