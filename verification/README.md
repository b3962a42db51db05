# Mindmate front end: verified model of its pure rules

Mindmate is a React wellness tracker. It has a weekly journal, a self-care
checklist, mood check-ins, a music player, peer chat, a profile page, the
sign-up and sign-in forms, and a landing-page carousel. Under the rendering,
network calls and timers sit small deterministic rules. This project models
those rules as pure Dafny functions (plus a few loop-based methods) and proves
what the screens promise about them.

Conventions:
- Instants are integer milliseconds. The UTC day of an instant is its floor
  division by 86 400 000.
- Local hour, weekday index (Sunday = 0) and day of year are plain integers
  supplied by the caller. So is "now".
- Every network request is replaced by its outcome, given as a parameter.
- Strings are `seq<char>`.
- An absent field (`undefined`/`null`) is `None`.

Modules, by source file:

| module | models |
|---|---|
| `UtcCalendar` | UTC day, civil-date split, `isSameUTCDate` |
| `Percent` | `Math.round((c / n) * 100)` on counts, computed exactly |
| `Text` | the JavaScript string primitives used: `trim`, the tag-stripping `replace`, `split(/\s+/)`, `toLowerCase` (ASCII), `includes`, `length` in UTF-16 code units, decimal text |
| `JournalPage` | `src/components/JournalPage.jsx` |
| `JournalLog` | `src/components/PeerMessages.jsx` (the weekly journal-log widget) |
| `SelfCarePage` | `src/Pages/SelfCareList.jsx` |
| `Mood`, `MoodPage` | `src/Data.js` activity table and `src/Pages/MoodCheckin.jsx` |
| `MoodWidget` | `src/components/MoodCheckin.jsx` |
| `SelfCareWidget` | `src/components/SelfCareList.jsx` |
| `SuggestedActivity` | `src/components/SuggestedActivity.jsx` |
| `MusicPlayer` | `src/components/MusicPlayer.jsx` |
| `PeerMessagesPage` | `src/Pages/PeerMessages.jsx` |
| `Profile` | `src/Pages/Profile.jsx` |
| `Constraints`, `Register`, `Login` | HTML constraint validation (HTML Living Standard, section 4.10.21 "Constraints" and section 4.10.5.3.6 "The pattern attribute"), and the fields of `src/Pages/Register.jsx` and `src/Pages/Login.jsx` |
| `Home` | the testimonial carousel of `src/Pages/Home.jsx` |

## Model

| member | source | states |
|---|---|---|
| UtcCalendar.UtcDay | src/Pages/SelfCareList.jsx:26 | the day is the unique d with d·86400000 ≤ t < (d+1)·86400000, i.e. UTC midnight of t |
| UtcCalendar.RoundTrip | src/Pages/SelfCareList.jsx:13-21 | reading the UTC year, month and day of a day number and counting the days back gives the same day number |
| UtcCalendar.CivilFromDaysInjective | src/Pages/SelfCareList.jsx:13-21 | two day numbers have the same UTC year, month and date exactly when they are the same day |
| UtcCalendar.IsSameUtcDate | src/Pages/SelfCareList.jsx:13-21 | two instants have equal UTC year, month and date exactly when they lie on the same UTC day |
| Percent.RoundPercent | src/Pages/SelfCareList.jsx:286-290 | the result is the integer nearest 100·c/n in exact arithmetic, with halves rounded up |
| Percent.RoundPercentRange | src/components/SuggestedActivity.jsx:8 | a count between 0 and the total gives a percentage between 0 and 100 |
| Percent.RoundPercentMonotone | src/components/SuggestedActivity.jsx:8 | for a fixed total, a larger count never shows a smaller percentage |
| Percent.RoundPercentAll | src/components/SuggestedActivity.jsx:8 | all items done shows exactly 100 |
| Text.Trim | src/components/JournalPage.jsx:353 | the result is a contiguous slice of the input, everything cut away at both ends is whitespace, neither end of the result is whitespace, and it is empty exactly when the input is all whitespace |
| Text.TrimOfTrimmed | src/components/JournalPage.jsx:353 | trimming text that already has no outer whitespace leaves it unchanged |
| Text.StripTags | src/components/JournalPage.jsx:353 | removing each `<` through the next `>` never lengthens the text, and text without `<` is returned unchanged |
| Text.StripTagsKeepsPlain | src/components/JournalPage.jsx:353 | the text before the first `<` passes through unchanged, followed by the stripped rest |
| Text.StripTagsDropsTag | src/components/JournalPage.jsx:353 | a `<`, the stretch without `>` after it and the closing `>` are removed, and the text before and after is kept |
| Text.StripTagsKeepsUnclosed | src/components/JournalPage.jsx:353 | a `<` with no `>` after it is kept together with everything that follows |
| Text.StripTagsKeepsOnlyInputChars | src/components/JournalPage.jsx:353 | every character of the stripped text occurs in the input |
| Text.StripTagsLeavesNoTag | src/components/JournalPage.jsx:353 | no `<` of the stripped text is followed anywhere later by a `>` |
| Text.StripTagsKeepsTagFree | src/components/JournalPage.jsx:353 | text with no `<`…`>` pair is left unchanged |
| Text.StripTagsIdempotent | src/components/JournalPage.jsx:353 | stripping twice is stripping once |
| Text.TrimKeepsNoTag | src/components/JournalPage.jsx:353 | trimming tag-free text keeps it tag-free |
| Text.SplitOnSpace | src/components/JournalPage.jsx:386 | splitting on whitespace runs yields at least one piece, and no piece holds whitespace |
| Text.SplitOnSpaceCount | src/components/JournalPage.jsx:386 | the number of pieces is one more than the number of whitespace runs in the text |
| Text.WordCount | src/components/JournalPage.jsx:386 | the word count is one more than the number of whitespace runs in the text |
| Text.SplitOnSpaceLosesOnlySpace | src/components/JournalPage.jsx:386 | joining the pieces gives back the input with only its whitespace removed |
| Text.SplitOfTrimmedHasNoEmptyPiece | src/components/JournalPage.jsx:386 | a non-empty trimmed text splits into non-empty words only |
| Text.ToLower | src/Pages/Profile.jsx:70 | each ASCII capital becomes its small letter and every other character is kept, so the length is kept |
| Text.ToLowerIdempotent | src/Pages/Profile.jsx:70 | lower-casing twice is lower-casing once |
| Text.ContainsIff | src/Pages/Profile.jsx:71-78 | `includes` holds exactly when the word occurs at some position of the text |
| Text.NatToString | src/components/JournalPage.jsx:157 | the decimal text of n is non-empty, all digits, reads back as n, and starts with "0" only when it is "0" |
| Text.Utf16Length | src/Pages/Register.jsx:24-25 | a value's length in code units lies between its length and twice it, and equals its length exactly when no character is outside the Basic Multilingual Plane |
| JournalPage.WeekNumber | src/components/JournalPage.jsx:19-24 | the week is the least w with days + startDay + 1 ≤ 7w, i.e. ⌈(days + startDay + 1)/7⌉ |
| JournalPage.FirstDayIsWeekOne | src/components/JournalPage.jsx:19-24 | 1 January is in week 1 whatever weekday it falls on |
| JournalPage.WeekNumberStep | src/components/JournalPage.jsx:19-24 | from one day to the next the week number stays the same or rises by one |
| JournalPage.WeekNumberMonotone | src/components/JournalPage.jsx:19-24 | a later day never has a smaller week number |
| JournalPage.WeekNumberRange | src/components/JournalPage.jsx:19-24 | every day of a year, leap or not, is in weeks 1..54 |
| JournalPage.WeekTick | src/components/JournalPage.jsx:131-143 | the tick adopts the new week and reloads exactly when the week changed |
| JournalPage.DayIndex | src/components/JournalPage.jsx:40-50 | the index names the matching Sunday-first weekday, and is -1 exactly for a name that is not a weekday |
| JournalPage.CanAccessDay | src/components/JournalPage.jsx:39-52 | a weekday can be opened exactly when its Sunday-first position is not after today's; any other name exactly when today is at least -1 |
| JournalPage.SundayAlwaysAccessible | src/components/JournalPage.jsx:39-52 | Sunday can be opened on every day of the week |
| JournalPage.OnSundayOnlySunday | src/components/JournalPage.jsx:39-52 | on a Sunday, of the seven weekday names only Sunday can be opened |
| JournalPage.UnknownNameAccessible | src/components/JournalPage.jsx:39-52 | a name that is not a weekday is always accessible |
| JournalPage.SwitchToDay | src/components/JournalPage.jsx:446-450 | an accessible day becomes current; an inaccessible one leaves the current day as it was |
| JournalPage.SwitchKeepsAccessible | src/components/JournalPage.jsx:446-450 | switching never moves from an accessible current day to an inaccessible one |
| JournalPage.FindDay | src/components/JournalPage.jsx:65 | the entry found is the first in the view for that day; none is found exactly when no entry has that day |
| JournalPage.HasContent | src/components/JournalPage.jsx:68-74 | a day has content exactly when its entry exists on the server and its content is present, not blank after trimming, and not one of the three placeholders |
| JournalPage.DayStatus | src/components/JournalPage.jsx:54-80 | completed exactly when the day is accessible and has content; missing for an earlier day without content; pending for today without content |
| JournalPage.UpcomingIffInaccessible | src/components/JournalPage.jsx:54-80 | a day shows as upcoming exactly when it cannot be opened |
| JournalPage.InitialLogStatus | src/components/JournalPage.jsx:145-162 | seven pending rows, Monday to Sunday, numbered with the decimal text of 1..7 |
| JournalPage.InitialRowsCoverWeek | src/components/JournalPage.jsx:145-162 | the Monday-first rows name all seven weekdays, row i being weekday (i+1) mod 7 |
| JournalPage.EmptyWeek | src/components/JournalPage.jsx:197-212 | seven entries, Monday to Sunday, none existing, with no content and zero counts |
| JournalPage.EmptyWeekHasNoContent | src/components/JournalPage.jsx:197-212 | no day of the empty week has content |
| JournalPage.WeekNotFound | src/components/JournalPage.jsx:192-221 | a not-found week installs the empty week and seven numbered rows whose statuses are read from the view held before the load |
| JournalPage.WeekLoaded | src/components/JournalPage.jsx:237-250 | a successful load installs the journals and one row per journal, numbered in order, with statuses read from the view held before the load |
| JournalPage.NotFoundIsEmptyLoad | src/components/JournalPage.jsx:192-250 | the not-found branch builds exactly what a successful load of the empty week builds |
| JournalPage.WeekNotFoundFromEmpty | src/components/JournalPage.jsx:192-221 | starting from the empty week, each row is upcoming for a later weekday, missing for an earlier one and pending for today |
| JournalPage.UserId | src/components/JournalPage.jsx:81-83 | the id is the first non-empty of id, uid and _id, and there is none exactly when all three are falsy or there is no user |
| JournalPage.SaveText | src/components/JournalPage.jsx:353 | the checked text is trimmed, contains nothing that looks like a tag, and is no longer than the editor's HTML |
| JournalPage.PlanSave | src/components/JournalPage.jsx:345-388 | the editor check comes first, then the empty or prompt text check, then the user check; a sent request carries the day, the week, the raw HTML and the user id, counts one more word than the stripped, trimmed text has whitespace runs, counts its characters in UTF-16 code units, and is a PUT exactly when the view holds an existing entry for the day |
| JournalPage.PlanSaveSendsIff | src/components/JournalPage.jsx:345-366 | a save is sent exactly when the editor is ready, the stripped text is neither empty nor the prompt, and a user id is known |
| JournalPage.PlanSaveWordCount | src/components/JournalPage.jsx:386 | the sent word count is the number of whitespace-free pieces of the saved text, at least one, and those pieces joined give that text without its whitespace |
| JournalPage.ApplySave | src/components/JournalPage.jsx:411-423 | entries for the saved day take the new content, exist, and carry the sent counts; every other entry is unchanged |
| JournalPage.ApplySaveKeepsOtherDays | src/components/JournalPage.jsx:411-423 | after a save, every other day's status is as before |
| JournalPage.SaveThenPut | src/components/JournalPage.jsx:372-376 | once a listed day has been saved, the next save of that day is a PUT |
| JournalPage.SavedDayIsCompleted | src/components/JournalPage.jsx:411-423 | saving real content for an accessible listed day makes that day completed |
| JournalPage.SetDayStatus | src/components/JournalPage.jsx:426-434 | rows for the saved day take the given status; every other row is unchanged |
| JournalLog.StatusColor | src/components/PeerMessages.jsx:7-12 | a class is returned exactly for the four statuses, nothing for any other string |
| JournalLog.StatusColorsDistinct | src/components/PeerMessages.jsx:7-12 | the four statuses get four different classes |
| JournalLog.FindStatus | src/components/PeerMessages.jsx:53 | the row found is the first row for that day; none is found exactly when no row has that day |
| JournalLog.FindJournal | src/components/PeerMessages.jsx:54 | the journal found is the first journal for that day; none is found exactly when no journal has that day |
| JournalLog.ModalContent | src/components/PeerMessages.jsx:52-61 | anything other than the fallback is the content of a journal for that day |
| JournalLog.ModalContentIff | src/components/PeerMessages.jsx:52-61 | when the day has a first row and a first journal, the modal shows that journal exactly when the first row is completed (a later completed row does not help); with no row or no journal for the day it shows the fallback |
| JournalLog.Click | src/components/PeerMessages.jsx:89-94 | a click opens the modal exactly when the row is not upcoming, with that day's modal content |
| JournalLog.DemoLog | src/components/PeerMessages.jsx:29-37 | the fixed log has seven rows, Monday to Sunday, each numbered by one digit 1..7 |
| JournalLog.DemoLogNumbered | src/components/PeerMessages.jsx:29-37 | the row numbers are the decimal texts of 1..7 in order |
| JournalLog.DemoClicks | src/components/PeerMessages.jsx:29-61 | in the fixed week, Monday opens its journal, Tuesday the fallback, and Friday nothing |
| JournalLog.DemoMonday | src/components/PeerMessages.jsx:29-61 | in the fixed week Monday's first row is completed and Monday has a journal, so the modal shows "<h1>Monday Data</h1>" |
| JournalLog.DemoTuesday | src/components/PeerMessages.jsx:29-61 | in the fixed week Tuesday's first row is missing, so the modal shows the fallback although Tuesday has a journal |
| SelfCarePage.InWindowIff | src/Pages/SelfCareList.jsx:23-29 | an instant is in the weekly window exactly when its UTC day is at most six days before today's |
| SelfCarePage.WindowStart | src/Pages/SelfCareList.jsx:25-27 | the window starts at a UTC midnight six days before today's UTC day, not after now |
| SelfCarePage.CountSince | src/Pages/SelfCareList.jsx:28 | the count is at most the number of dates and is zero exactly when every date precedes the start |
| SelfCarePage.WeeklyCount | src/Pages/SelfCareList.jsx:23-29 | the count is at most the number of dates and is zero exactly when every date is more than six UTC days before today |
| SelfCarePage.CountWeekly | src/Pages/SelfCareList.jsx:23-29 | one pass over the dates yields the filter's count |
| SelfCarePage.CountSinceAppend | src/Pages/SelfCareList.jsx:28 | counting is additive over concatenated date lists |
| SelfCarePage.RepeatedDateCountsTwice | src/Pages/SelfCareList.jsx:23-29 | dates are not deduplicated: a repeated date in the window adds one more |
| SelfCarePage.WindowStartCounted | src/Pages/SelfCareList.jsx:25-28 | a date exactly at the window start is counted |
| SelfCarePage.SeventhDayBackNotCounted | src/Pages/SelfCareList.jsx:25-28 | a date on the UTC day seven days back is not counted |
| SelfCarePage.FutureCounted | src/Pages/SelfCareList.jsx:23-29 | the window has no upper end: a future date is counted |
| SelfCarePage.DoneOn | src/Pages/SelfCareList.jsx:36 | done today exactly when some date is on today's UTC day |
| SelfCarePage.DoneTodayCountsThisWeek | src/Pages/SelfCareList.jsx:23-38 | an activity done today has a weekly count of at least one |
| SelfCarePage.Transform | src/Pages/SelfCareList.jsx:31-38 | the server's record is kept whole; the weekly count is that of its dates (none when missing) and done-today holds exactly when a listed date is today |
| SelfCarePage.CompletedIds | src/Pages/SelfCareList.jsx:63-65 | an id is in the set exactly when some listed activity with that id is done today |
| SelfCarePage.Install | src/Pages/SelfCareList.jsx:61-65 | the list is the transformed records in order, the checked set is the ids done today, the inputs are unchanged, and the page is consistent |
| SelfCarePage.Fetch | src/Pages/SelfCareList.jsx:50-75 | without a user id or on a failed request nothing changes; otherwise the records (none when missing) are installed |
| SelfCarePage.Tick | src/Pages/SelfCareList.jsx:77-98 | the tick keeps every record, the list length and the order, recomputes done-today from the dates, and resets the checked set to the ids done today |
| SelfCarePage.TickConsistentAndIdempotent | src/Pages/SelfCareList.jsx:77-98 | after a tick every checked id is listed, and a second tick at the same instant changes nothing |
| SelfCarePage.Toggle | src/Pages/SelfCareList.jsx:100-140 | without a user the checkbox is forced off and nothing changes; a failed or unsuccessful request changes nothing; an accepted one replaces only the activities with that id and adds or removes only that id |
| SelfCarePage.ToggleKeepsConsistent | src/Pages/SelfCareList.jsx:120-133 | toggling a listed activity answered with the same activity keeps every checked id listed |
| SelfCarePage.Normalise | src/Pages/SelfCareList.jsx:161-165 | an array is taken whole, else a single activity becomes a one-element list, else the list is empty |
| SelfCarePage.PlanAdd | src/Pages/SelfCareList.jsx:142-158 | no request without a user or with a blank title or description; otherwise both inputs are sent trimmed |
| SelfCarePage.ApplyAdd | src/Pages/SelfCareList.jsx:161-181 | a response installs the normalised list and clears both inputs; a failure changes nothing |
| SelfCarePage.ApplyDelete | src/Pages/SelfCareList.jsx:184-217 | a response installs the normalised list and removes only the deleted id from the checked set; a failure changes nothing |
| SelfCarePage.Delete | src/Pages/SelfCareList.jsx:184-218 | nothing changes without a user or a confirmation; a delete never adds a checked id, leaves the deleted id unchecked once answered, and keeps both inputs |
| SelfCarePage.DeleteKeepsConsistentWhenListed | src/Pages/SelfCareList.jsx:198-211 | a delete keeps the page consistent when the returned list still holds every other checked id |
| SelfCarePage.Progress | src/Pages/SelfCareList.jsx:286-290 | 0 for an empty list, otherwise the rounded percentage of checked ids over listed activities |
| SelfCarePage.ProgressInRange | src/Pages/SelfCareList.jsx:286-290 | a consistent page shows a percentage between 0 and 100 |
| SelfCarePage.DeleteCanOverrunProgress | src/Pages/SelfCareList.jsx:198-211 | a delete answered with a single activity can leave a checked id that is no longer listed, so the page shows 200% |
| Mood.TimeNamesDistinct | src/components/MoodCheckin.jsx:49-53 | the three time names are pairwise distinct |
| Mood.Catalogue | src/Data.js:157-268 | each mood lists exactly four suggested activities |
| MoodPage.TimeOfHour | src/Pages/MoodCheckin.jsx:20-26 | hours 5..11 are morning, 12..17 afternoon, all others evening, each hour in exactly one |
| MoodPage.TimeOfHourBoundaries | src/Pages/MoodCheckin.jsx:21-26 | hours 0, 4, 18 and 23 are evening, 5 and 11 morning, 12 and 17 afternoon |
| MoodPage.MoodOfCode | src/Pages/MoodCheckin.jsx:28-35 | exactly the codes 1..5 name a mood |
| MoodPage.CodeOfMood | src/Pages/MoodCheckin.jsx:28-35 | each mood has a code in 1..5 that the map sends back to it |
| MoodPage.MoodMapBijective | src/Pages/MoodCheckin.jsx:28-35 | the map from 1..5 to the five moods is a bijection in the order sad, dissatisfied, neutral, calm, happy |
| MoodPage.MoodChange | src/Pages/MoodCheckin.jsx:39 | the value text is read as a non-negative number: the empty text as 0, and the decimal text of n as n |
| MoodPage.MoodChangeOfCodeText | src/Pages/MoodCheckin.jsx:39 | the number stored for an input's value text is the code that text spells |
| MoodPage.FallbackHasFour | src/Pages/MoodCheckin.jsx:37 | the fallback suggestions for any selected mood hold four activities |
| MoodPage.ActivityStatus | src/Pages/MoodCheckin.jsx:40-46 | a supplied count replaces the counter; otherwise a check adds one and an uncheck takes one away |
| MoodPage.CheckUncheckCancels | src/Pages/MoodCheckin.jsx:40-46 | a check followed by an uncheck restores the counter |
| MoodPage.LockOption | src/Pages/MoodCheckin.jsx:82-103 | only a status-200 response shows the confirmation; any other outcome leaves it as it was |
| MoodPage.AlertStaysShown | src/Pages/MoodCheckin.jsx:82-103 | once shown, the confirmation stays shown whatever later updates return |
| MoodWidget.GetMoodTime | src/components/MoodCheckin.jsx:49-53 | hours 5..11 are morning and 12..17 afternoon, exactly |
| MoodWidget.SameAsPage | src/components/MoodCheckin.jsx:49-53 | the component puts every hour in the same time of day as the page |
| MoodWidget.RenderedLayouts | src/components/MoodCheckin.jsx:66-440 | for every hour exactly one layout is rendered, the one for that hour's time of day |
| MoodWidget.MoodOfText | src/components/MoodCheckin.jsx:35-44 | exactly the value texts "1".."5" name a mood |
| MoodWidget.InitialMoodIsNeutral | src/components/MoodCheckin.jsx:35-44 | the initial value selects the neutral mood |
| MoodWidget.SameMoodAsPage | src/components/MoodCheckin.jsx:23-44 | for every rendered input value the component and the page select the same mood |
| MoodWidget.ActivityStatus | src/components/MoodCheckin.jsx:27-33 | a check adds one and an uncheck takes one away, with no bound |
| MoodWidget.RunEventsNet | src/components/MoodCheckin.jsx:27-33 | after any run of events the counter has moved by the checks less the unchecks |
| MoodWidget.CounterGoesNegative | src/components/MoodCheckin.jsx:27-33 | an uncheck at zero takes the counter below zero |
| MoodWidget.Percentage | src/components/MoodCheckin.jsx:196-204 | the percentage is a multiple of 25 and lies in 0..100 for 0..4 checked items |
| MoodWidget.PercentageStep | src/components/MoodCheckin.jsx:196-204 | no check shows 0, and each further check adds exactly 25 points, with no bound in either direction |
| MoodWidget.PercentageOfRun | src/components/MoodCheckin.jsx:27-33 | from a fresh counter, the percentage shown is 25 points per check less 25 per uncheck |
| MoodWidget.FourOfFourIsFull | src/components/MoodCheckin.jsx:196-204 | four checked items show exactly 100 |
| SelfCareWidget.Initial | src/components/SelfCareList.jsx:9-16 | one "Meditation" entry, the counter at 0, empty inputs |
| SelfCareWidget.Add | src/components/SelfCareList.jsx:18-30 | exactly one entry with the current inputs is appended, earlier entries and the counter are untouched, and both inputs are cleared |
| SelfCareWidget.AddKeepsCounterInRange | src/components/SelfCareList.jsx:18-30 | adding keeps the counter between 0 and the list length |
| SelfCareWidget.Toggle | src/components/SelfCareList.jsx:32-47 | a check counts up only below the list length, an uncheck counts down only above zero, and nothing else changes |
| SelfCareWidget.ToggleKeepsCounterInRange | src/components/SelfCareList.jsx:32-47 | toggling keeps the counter between 0 and the list length |
| SelfCareWidget.Without | src/components/SelfCareList.jsx:49-53 | no kept entry has the id, and every entry without the id is kept as many times as it occurs, so the result is the list with exactly the id's entries removed |
| SelfCareWidget.Delete | src/components/SelfCareList.jsx:49-53 | the list loses exactly the entries with that id; the counter and inputs are untouched |
| SelfCareWidget.WithoutIsSubsequence | src/components/SelfCareList.jsx:49-53 | the kept entries stay in their original order |
| SelfCareWidget.DeleteCanBreakCounterRange | src/components/SelfCareList.jsx:9 | deleting a counted entry can leave the counter above the list length |
| SelfCareWidget.ProgressLabel | src/components/SelfCareList.jsx:111-119 | "0%" for an empty list, otherwise the decimal text of the rounded percentage followed by "%" |
| SelfCareWidget.ProgressLabelInRange | src/components/SelfCareList.jsx:111-119 | while the counter is in range the label's number lies in 0..100 |
| SuggestedActivity.CompletedCount | src/components/SuggestedActivity.jsx:6 | one pass yields the number of positions whose activity is completed, which is also the recursive count, so at most the total |
| SuggestedActivity.Completed | src/components/SuggestedActivity.jsx:6-7 | the count is 0 exactly when none is completed and the total exactly when all are |
| SuggestedActivity.CompletedIsCardinality | src/components/SuggestedActivity.jsx:6 | the recursive count of a prefix is the number of completed positions in it |
| SuggestedActivity.Progress | src/components/SuggestedActivity.jsx:8 | the progress is the nearest integer to 100 times the completed share, halves rounded up; it lies in 0..100 and is 0 for an empty list |
| SuggestedActivity.ProgressExtremes | src/components/SuggestedActivity.jsx:8 | nothing completed shows 0; everything completed in a non-empty list shows 100 |
| SuggestedActivity.ProgressMonotone | src/components/SuggestedActivity.jsx:8 | completing one more activity never lowers the progress |
| MusicPlayer.RoundMinutes | src/components/MusicPlayer.jsx:69-71 | the minutes are the nearest whole number to seconds/60, halves rounded up |
| MusicPlayer.SizeLabel | src/components/MusicPlayer.jsx:69-71 | "Unknown" for a missing or zero duration, otherwise the rounded minutes' text followed by " min" |
| MusicPlayer.DefaultTitle | src/components/MusicPlayer.jsx:66 | "Relaxing Track " followed by the decimal text of the position plus one |
| MusicPlayer.Format | src/components/MusicPlayer.jsx:65-72 | the audio becomes the source, a truthy name the title (else the default title), a truthy image the cover (else the placeholder), and the duration the size label |
| MusicPlayer.FormatAll | src/components/MusicPlayer.jsx:65-72 | one track per response entry, in order: the name or the default title, the audio as source, the image or the placeholder, and the size label |
| MusicPlayer.FormattedTitlesNonEmpty | src/components/MusicPlayer.jsx:65-72 | no formatted track has an empty title or cover |
| MusicPlayer.Next | src/components/MusicPlayer.jsx:124-128 | the last index wraps to 0, any other moves up one, so a valid index stays valid |
| MusicPlayer.Previous | src/components/MusicPlayer.jsx:130-134 | index 0 wraps to the last, any other moves down one, so a valid index stays valid |
| MusicPlayer.NextPreviousInverse | src/components/MusicPlayer.jsx:124-134 | next and previous undo each other on every valid index |
| MusicPlayer.NextSteps | src/components/MusicPlayer.jsx:124-128 | k presses of next, for k up to the list length, land k places on, wrapping once past the end |
| MusicPlayer.NextCycles | src/components/MusicPlayer.jsx:124-128 | as many presses of next as there are tracks come back to the start |
| MusicPlayer.Scroll | src/components/MusicPlayer.jsx:140-148 | near the bottom the window becomes the smaller of 4 more and the list length; elsewhere it is unchanged |
| MusicPlayer.ScrollCanShrink | src/components/MusicPlayer.jsx:51 | the initial window of 8 over a list of 5 becomes 5 on the first scroll near the bottom |
| MusicPlayer.TogglePlay | src/components/MusicPlayer.jsx:111-122 | nothing changes until a track is loaded; then playing and paused swap |
| MusicPlayer.TogglePlayTwiceRestores | src/components/MusicPlayer.jsx:111-122 | toggling twice restores the playing state |
| MusicPlayer.TrackList | src/components/MusicPlayer.jsx:156-170 | the rows are the tracks `slice(0, window)` keeps (a negative window counts back from the end) with their positions, and a row is active exactly when it is the current index |
| MusicPlayer.OneActiveRow | src/components/MusicPlayer.jsx:156-170 | at most one row is active, and one is exactly when the current index is among the rendered rows |
| PeerMessagesPage.Append | src/Pages/PeerMessages.jsx:42-44 | the incoming message is added at the end and the earlier ones are unchanged |
| PeerMessagesPage.MarkDeleted | src/Pages/PeerMessages.jsx:47-53 | messages with that id become deleted by that user with id, sender and content kept; all others are unchanged, and the length is kept |
| PeerMessagesPage.MarkDeletedIdempotent | src/Pages/PeerMessages.jsx:47-53 | applying the same deletion twice is applying it once |
| PeerMessagesPage.HandleSend | src/Pages/PeerMessages.jsx:66-72 | a blank input emits nothing and is kept; any other is emitted untrimmed with the sender and the input is cleared |
| PeerMessagesPage.SentContentNotBlank | src/Pages/PeerMessages.jsx:66-72 | every sent message has some non-whitespace character |
| PeerMessagesPage.SenderKeyOf | src/Pages/PeerMessages.jsx:101 | a populated sender is compared by its non-empty id, else by the record itself; a bare id by itself |
| PeerMessagesPage.IsMine | src/Pages/PeerMessages.jsx:101-102 | a message is mine exactly when its populated or bare sender id equals my id |
| PeerMessagesPage.SenderLabel | src/Pages/PeerMessages.jsx:117-121 | "You" for mine; a sender that is not a populated record gives "Unknown"; the label is never empty |
| PeerMessagesPage.ShowsDelete | src/Pages/PeerMessages.jsx:101-126 | a deleted message never offers the delete control; any other offers it exactly when its sender id is mine |
| PeerMessagesPage.DisplayText | src/Pages/PeerMessages.jsx:140 | a deleted message reads "Message deleted", any other its content |
| PeerMessagesPage.DeletedMessageDisplay | src/Pages/PeerMessages.jsx:47-53 | after a deletion event the deleted messages read "Message deleted" with no delete control; every other message shows as before |
| Profile.MoodGlyph | src/Pages/Profile.jsx:52-67 | 1 and 2 are frowns, 4 and 5 smiles, 3 and every other value a neutral face; any value outside 1..5 gets the grey default |
| Profile.MoodGlyphsDistinct | src/Pages/Profile.jsx:52-67 | the five moods get five different glyphs, none of them the default |
| Profile.StoredMoodsHaveOwnGlyph | src/Pages/Profile.jsx:52-67 | every mood the check-in screens store gets a glyph other than the default |
| Profile.ActivityGlyph | src/Pages/Profile.jsx:69-80 | the icon is chosen by the first keyword group the lower-cased title contains, in the order exercise/workout, meditation/mindful, journal/write, social/friend, else a star |
| Profile.ActivityGlyphIgnoresCase | src/Pages/Profile.jsx:69-80 | a title and its lower-cased form get the same icon |
| Profile.KeywordAnywhere | src/Pages/Profile.jsx:69-80 | a title mentioning "journal" at any position gets the journal icon or one of higher priority |
| Profile.HueOf | src/Pages/Profile.jsx:90-114 | morning, afternoon and evening get yellow, orange and purple, exactly; any other time gets grey |
| Profile.LightClasses | src/Pages/Profile.jsx:91-101 | the light class names its hue and ends in the text shade 800 |
| Profile.DarkClasses | src/Pages/Profile.jsx:102-112 | the dark class names its hue and ends in the text shade 300 |
| Profile.PalettesDistinct | src/Pages/Profile.jsx:90-114 | within each palette the four hues get four different class strings |
| Profile.TimeBadgeClasses | src/Pages/Profile.jsx:90-114 | the light palette is used exactly when the theme is "light" |
| Profile.TimeBadgesDistinct | src/Pages/Profile.jsx:90-114 | within one theme the three times of day get three different badges |
| Profile.UnknownTimeIsGrey | src/Pages/Profile.jsx:90-114 | any other time string gets the grey badge, which no time of day gets |
| Profile.ThemesNeverShareBadge | src/Pages/Profile.jsx:90-114 | a light-themed badge never equals a badge of any other theme |
| Profile.TimeIcon | src/Pages/Profile.jsx:116-122 | sunrise exactly for the morning, sun exactly for the afternoon, moon for anything else |
| Profile.TimeIconOfHour | src/Pages/Profile.jsx:116-122 | a mood logged at a local hour shows the icon of that hour's part of the day |
| Profile.BadgePercent | src/Pages/Profile.jsx:473-477 | no number when no badge is available; otherwise the rounded percentage of unlocked over available |
| Profile.BadgePercentRange | src/Pages/Profile.jsx:473-477 | with no more unlocked than available the percentage lies in 0..100, is 100 when all are unlocked and 0 when none are |
| Profile.LockedPreview | src/Pages/Profile.jsx:557-604 | at most the first three locked badges are listed, a count of the rest appears exactly when there are more than three, and listed plus counted is all of them |
| Profile.PreviewShowsAllWhenFew | src/Pages/Profile.jsx:557-604 | the card lists every locked badge exactly when there are at most three |
| Profile.SelectView | src/Pages/Profile.jsx:124-138 | loading wins; after loading a missing profile gives the error view; a shown profile is the one received |
| Profile.ProfileShownIff | src/Pages/Profile.jsx:124-138 | the profile is shown exactly when loading is over and a profile arrived |
| Constraints.AsciiPatternLength | src/Pages/Register.jsx:19-52 | a value matching the name or phone pattern has as many code units as characters |
| Constraints.ScanLeadingLetter | src/Pages/Register.jsx:23 | one scan decides whether the whole value is a letter followed by letters, digits or dashes |
| Constraints.ScanTenDigits | src/Pages/Register.jsx:48 | one scan decides whether the whole value is ten ASCII digits |
| Constraints.ScanStrongPassword | src/Pages/Register.jsx:87 | one scan decides whether the value has at least 8 characters, no line terminator, and a digit, a lower-case and an upper-case letter |
| Constraints.Check | src/Pages/Register.jsx:19-27 | an empty value is never too short or mismatched; a required empty value is invalid; a valid non-empty value meets every length bound and the pattern |
| Constraints.Validate | src/Pages/Register.jsx:19-27 | one pass for the length and one scan for the pattern reach the same verdict as the declarative check |
| Register.NameValidIff | src/Pages/Register.jsx:19-27 | a name field accepts exactly 3 to 30 ASCII characters, a letter then letters, digits or dashes |
| Register.NameWithSpaceRejected | src/Pages/Register.jsx:19-27 | a full name containing a space is rejected |
| Register.PhoneValidIff | src/Pages/Register.jsx:43-52 | the phone accepts exactly ten ASCII digits |
| Register.PasswordValidIff | src/Pages/Register.jsx:82-104 | both password fields accept exactly the values of the strong-password pattern |
| Register.ConfirmNeedNotMatch | src/Pages/Register.jsx:97-104 | any valid confirmation passes with any valid password: nothing compares the two |
| Register.DifferentValidPasswords | src/Pages/Register.jsx:82-104 | two different values each pass their password field |
| Register.FormValid | src/Pages/Register.jsx:19-104 | every field reports valid exactly when both names follow the name rule, the phone is ten ASCII digits and each password field matches the strong-password pattern on its own |
| Login.UsernameRulesAgree | src/Pages/Login.jsx:15-23 | sign-in accepts a username exactly when sign-up does, i.e. 3 to 30 ASCII characters, a letter then letters, digits or dashes |
| Login.PasswordRulesAgree | src/Pages/Login.jsx:31-38 | sign-in accepts a password exactly when sign-up does, i.e. exactly the strong-password values |
| Home.SlideId | src/Pages/Home.jsx:163 | the slide id is "slide" followed by the decimal text of the testimonial id |
| Home.PrevTarget | src/Pages/Home.jsx:157 | the left arrow of the first slide targets the last, any other the slide before it |
| Home.NextTarget | src/Pages/Home.jsx:158-160 | the right arrow of the last slide targets the first, any other the slide after it |
| Home.ArrowsWrapLikePlaylist | src/Pages/Home.jsx:156-160 | the arrow targets are the playlist's previous and next positions, plus one |
| Home.NextThenPrevReturns | src/Pages/Home.jsx:156-160 | following the right arrow and then the left arrow comes back to the same slide, and the other way round |
| Home.ArrowsLinkToSlides | src/Pages/Home.jsx:55-160 | among the five testimonials, every arrow targets the id of an existing slide |

## Left out

- Network requests, sockets, timers, the DOM, toasts, the rich-text editor, audio playback, theme context and routing are not modelled. Their outcomes (response bodies, status codes, whether a track is loaded, the editor's HTML) are parameters.
- The clock and time zone are inputs: "now" in milliseconds, the local hour, the weekday index and the day of the year. `getCurrentWeek`'s local-time subtraction of 1 January is taken as the day-of-year input.
- React state batching and stale closures are modelled only where they decide a result. `JournalPage.WeekNotFound` and `JournalPage.WeekLoaded` read day statuses from the view held before the load, as the source's closure does. The delayed status update after a save takes its status as a parameter, since the source computes it from the view its closure captured.
- `loadJournalEntry`, the analytics fetches and the AI-suggestion request (`fetchAISuggession`) only move server data into the editor or view, and are not modelled.
- Ids drawn from `uuidv4` and from the server are parameters.
- MoodPage.MoodChange: models `Number(value)` only on digit strings (the values of the rendered radio inputs). Other text, which would give `NaN` or a fractional number, is not modelled.
- MoodPage.ActivityStatus: the count is an optional integer. The suggested-activity list passes its checkbox's boolean state as that second argument, so on the page a check sets the counter to `true` or `false` rather than adding one. JavaScript's coercion of booleans in later arithmetic is not modelled.
- Profile.MoodGlyph: a mood value that is not an integer 1..5 (a string, a fraction, `null`) takes the default glyph, which the model states for every value outside 1..5 it can represent.
- Profile.BadgePercent: `Math.round` of a division by zero gives `NaN` (or `Infinity`) in the source. The model gives `None` instead.
- MusicPlayer.RoundMinutes: durations are whole seconds. A fractional duration from the catalogue service is not modelled.
- Constraints.Check: covers `required`, `minlength`, `maxlength` and `pattern`. The length checks are applied as for a value the user has edited. The browser skips them for a value set by script, and that case is not modelled. The `type="email"` check of the sign-up form is the browser's own and is left out.
- The two mood screens' and the profile's markup (icon sizes, layout classes other than the badge classes) is not modelled.
- SelfCarePage.Toggle: the page changes nothing before the response and nothing on failure; there is no optimistic update and no rollback.
- Percent.RoundPercent: computes the exact nearest integer to 100c/n, halves up. The source evaluates `(c / n) * 100` in IEEE-754 doubles before rounding, which can land just below a half: (23 / 40) * 100 evaluates to 57.49999999999999 and shows 57 where the exact value gives 58, and (29 / 200) * 100 shows 14 where the exact value gives 15. Double arithmetic is not modelled.
- Register.FormValid: states when every field reports valid, which only decides the hints shown. The submit button sits in its own `<form>` holding no fields (src/Pages/Register.jsx:113-129, and likewise src/Pages/Login.jsx:47-63), so field validity gates no submission and the model claims none.
- Text.ToLower: folds only the ASCII capitals A-Z. JavaScript's full Unicode lower-casing (U+212A KELVIN SIGN to "k", U+0130 to two code units, a context-dependent final sigma) is not modelled; the titles it applies to are matched against ASCII keywords.

## Findings

No source defect is claimed. Several behaviours the code has and its wording does not suggest are recorded as lemmas instead:
- `SelfCarePage.DeleteCanOverrunProgress`: the checked set can hold ids the list no longer has.
- `SelfCareWidget.DeleteCanBreakCounterRange`: the counter can exceed the list length after a delete.
- `MoodWidget.CounterGoesNegative`: the counter is unclamped.
- `MusicPlayer.ScrollCanShrink`: the scroll can shrink the window.
- `Register.ConfirmNeedNotMatch`: nothing checks that the confirmation equals the password.
