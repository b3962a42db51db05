/**
 * The mood check-in page: the time of day taken from the local hour, the
 * mood code map, the suggested-activity counter and the confirmation shown
 * after the mood is recorded.
 */
module MoodPage {
  import opened Options
  import opened Mood
  import Text

  /** `currentMoodTime`: 5..11 is morning, 12..17 afternoon, every other hour evening. */
  function TimeOfHour(hours: int): (t: TimeOfDay)
    ensures t == Morning <==> 5 <= hours <= 11
    ensures t == Afternoon <==> 12 <= hours <= 17
    ensures t == Evening <==> hours < 5 || hours > 17
  {
    if hours >= 5 && hours <= 11 then Morning
    else if hours >= 12 && hours < 18 then Afternoon
    else Evening
  }

  /** The boundary hours of the partition. */
  lemma TimeOfHourBoundaries()
    ensures TimeOfHour(0) == Evening && TimeOfHour(4) == Evening
    ensures TimeOfHour(5) == Morning && TimeOfHour(11) == Morning
    ensures TimeOfHour(12) == Afternoon && TimeOfHour(17) == Afternoon
    ensures TimeOfHour(18) == Evening && TimeOfHour(23) == Evening
  {
  }

  /** `moodMap[mood]`: codes 1..5 name the five moods in order; any other code names none. */
  function MoodOfCode(code: int): (k: Option<MoodKey>)
    ensures k.Some? <==> 1 <= code <= 5
  {
    if code == 1 then Some(Sad)
    else if code == 2 then Some(Dissatisfied)
    else if code == 3 then Some(Neutral)
    else if code == 4 then Some(Calm)
    else if code == 5 then Some(Happy)
    else None
  }

  /** The code of each mood, the inverse of the map. */
  function CodeOfMood(k: MoodKey): (code: int)
    ensures 1 <= code <= 5
    ensures MoodOfCode(code) == Some(k)
  {
    match k
    case Sad => 1
    case Dissatisfied => 2
    case Neutral => 3
    case Calm => 4
    case Happy => 5
  }

  /** The mood map is a bijection from 1..5 onto the five moods. */
  lemma MoodMapBijective(code: int, k: MoodKey)
    ensures MoodOfCode(CodeOfMood(k)) == Some(k)
    ensures 1 <= code <= 5 ==> CodeOfMood(MoodOfCode(code).value) == code
  {
  }

  /** `moodChange`: the chosen input's value text read as a number (`Number("")` is 0). */
  function MoodChange(value: string): (mood: int)
    requires Text.AllDigits(value)
    ensures mood >= 0
    ensures value == [] ==> mood == 0
    ensures forall n: nat :: value == Text.NatToString(n) ==> mood == n
  {
    Text.ParseDigits(value)
  }

  /** The decimal text of a code reads back as that code. */
  lemma MoodChangeOfCodeText(code: nat)
    ensures MoodChange(Text.NatToString(code)) == code
  {
  }

  /** The fallback suggestions for the selected mood always hold four activities. */
  lemma FallbackHasFour(code: int)
    requires 1 <= code <= 5
    ensures |Catalogue(MoodOfCode(code).value)| == 4
  {
  }

  /**
   * `activityStatus(e, count)`: a supplied count replaces the counter;
   * without one, checking adds one and unchecking takes one away.
   */
  function ActivityStatus(prev: int, checked: bool, count: Option<int>): (next: int)
    ensures count.Some? ==> next == count.value
    ensures count.None? ==> next - prev == (if checked then 1 else -1)
  {
    match count
    case Some(c) => c
    case None => prev + (if checked then 1 else -1)
  }

  /** Checking and then unchecking without a count returns the counter to where it was. */
  lemma CheckUncheckCancels(prev: int)
    ensures ActivityStatus(ActivityStatus(prev, true, None), false, None) == prev
  {
  }

  /** The outcome of the mood update request: a failure, or a response with its status. */
  datatype UpdateOutcome = UpdateFailed | UpdateResponse(status: int)

  /** `lockOption`: only a status-200 response shows the confirmation; anything else leaves it as it was. */
  function LockOption(alertVisible: bool, outcome: UpdateOutcome): (shown: bool)
    ensures outcome == UpdateResponse(200) ==> shown
    ensures outcome != UpdateResponse(200) ==> shown == alertVisible
  {
    match outcome
    case UpdateResponse(s) => if s == 200 then true else alertVisible
    case UpdateFailed => alertVisible
  }

  /** Once shown, the confirmation stays shown whatever later updates return. */
  lemma AlertStaysShown(outcome: UpdateOutcome)
    ensures LockOption(true, outcome)
  {
  }
}
