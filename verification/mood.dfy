/**
 * What the two mood check-in screens share: the three times of day, the
 * five mood keys, and the catalogue of suggested activities for each mood
 * (the `moodActivities` table of `src/Data.js`, by title).
 */
module Mood {
  datatype TimeOfDay = Morning | Afternoon | Evening

  datatype MoodKey = Sad | Dissatisfied | Neutral | Calm | Happy

  /** The name the screens compare and send: "morning", "afternoon" or "evening". */
  function TimeName(t: TimeOfDay): (name: string)
    ensures name != []
  {
    match t
    case Morning => "morning"
    case Afternoon => "afternoon"
    case Evening => "evening"
  }

  /** The three names are distinct, so each names exactly one time of day. */
  lemma TimeNamesDistinct(a: TimeOfDay, b: TimeOfDay)
    ensures TimeName(a) == TimeName(b) <==> a == b
  {
    if a != b {
      assert TimeName(a)[0] != TimeName(b)[0];
    }
  }

  /** The suggested activities listed for each mood, by title. */
  function Catalogue(k: MoodKey): (titles: seq<string>)
    ensures |titles| == 4
  {
    match k
    case Sad => ["Talk to a Friend", "Go for a Short Walk", "Listen to Uplifting Music", "Write in a Journal"]
    case Dissatisfied => ["Take a 5-Minute Breathing Break", "Declutter Your Space", "Drink Water or Tea",
                          "Watch a Short Comedy Clip"]
    case Neutral => ["Stretch for 5 Minutes", "Check Off a Small Task", "Try a New Song or Podcast",
                     "Step Outside Briefly"]
    case Calm => ["Meditate for 10 Minutes", "Do a Creative Activity", "Cook a Simple Meal", "Practice Gratitude"]
    case Happy => ["Share Your Joy", "Capture the Moment", "Do a Random Act of Kindness", "Dance or Move Freely"]
  }
}
