/**
 * The journal page's calendar rules: the week number, which weekday slots
 * may be opened, the four-way day status, the "has real content" test, and
 * the validation, counting, method choice and local update of a save.
 *
 * The clock is an input: `today` is the local weekday index (Sunday = 0)
 * and a day of the year is a plain integer.
 */
module JournalPage {
  import opened Options
  import Text

  /** Weekday names in the Sunday-first order of `Date.prototype.getDay`. */
  const SundayFirst: seq<string> :=
    ["Sunday", "Monday", "Tuesday", "Wednesday", "Thursday", "Friday", "Saturday"]

  /** Weekday names in the Monday-first order of the weekly log. */
  const MondayFirst: seq<string> :=
    ["Monday", "Tuesday", "Wednesday", "Thursday", "Friday", "Saturday", "Sunday"]

  const EmptyPlaceholder: string := "<p>No Data available</p>"
  const PromptPlaceholder: string := "<p>Start writing your journal entry...</p>"
  const BlankParagraph: string := "<p></p>"
  const PromptText: string := "Start writing your journal entry..."

  datatype Status = Completed | Missing | Pending | Upcoming

  /** One day of `journalView`; `content` is `None` where the server sent `null`. */
  datatype JournalEntry = JournalEntry(
    day: string, saved: bool, content: Option<string>, wordCount: int, characterCount: int)

  /** One row of `logStatus`. */
  datatype LogRow = LogRow(sno: string, day: string, status: Status)

  // ---------------------------------------------------------------------------
  // Week number

  /**
   * `getCurrentWeek`: `ceil((days + startDay + 1) / 7)`, where `days` is the
   * number of whole days since 1 January and `startDay` its weekday.
   */
  function WeekNumber(days: int, startDay: int): (w: int)
    ensures 7 * (w - 1) < days + startDay + 1 <= 7 * w
  {
    (days + startDay + 1 + 6) / 7
  }

  /** 1 January is in week 1 whatever weekday it falls on. */
  lemma FirstDayIsWeekOne(startDay: int)
    requires 0 <= startDay <= 6
    ensures WeekNumber(0, startDay) == 1
  {
  }

  /** The week number never decreases from one day to the next, and rises by at most one. */
  lemma WeekNumberStep(days: int, startDay: int)
    ensures WeekNumber(days, startDay) <= WeekNumber(days + 1, startDay) <= WeekNumber(days, startDay) + 1
  {
  }

  lemma WeekNumberMonotone(d1: int, d2: int, startDay: int)
    requires d1 <= d2
    ensures WeekNumber(d1, startDay) <= WeekNumber(d2, startDay)
  {
  }

  /** Every day of a year, leap years included, lies in weeks 1..54. */
  lemma WeekNumberRange(days: int, startDay: int)
    requires 0 <= days <= 365 && 0 <= startDay <= 6
    ensures 1 <= WeekNumber(days, startDay) <= 54
  {
  }

  /** The interval tick: a changed week is adopted and triggers a reload of the weekly data. */
  datatype WeekTickResult = WeekTickResult(week: int, reload: bool)

  function WeekTick(currentWeek: int, newWeek: int): (r: WeekTickResult)
    ensures r.week == newWeek
    ensures r.reload <==> newWeek != currentWeek
  {
    if newWeek != currentWeek then WeekTickResult(newWeek, true) else WeekTickResult(currentWeek, false)
  }

  // ---------------------------------------------------------------------------
  // Accessible days and day status

  /** `days.indexOf(name)` over the Sunday-first names: -1 for anything else. */
  function DayIndex(name: string): (i: int)
    ensures -1 <= i < 7
    ensures 0 <= i ==> SundayFirst[i] == name
    ensures i == -1 <==> name !in SundayFirst
  {
    if name == "Sunday" then 0
    else if name == "Monday" then 1
    else if name == "Tuesday" then 2
    else if name == "Wednesday" then 3
    else if name == "Thursday" then 4
    else if name == "Friday" then 5
    else if name == "Saturday" then 6
    else -1
  }

  /**
   * `canAccessDay`: a weekday may be opened when its Sunday-first position is
   * not later than today's; a name that is not a weekday counts as position -1.
   */
  function CanAccessDay(name: string, today: int): (ok: bool)
    ensures forall k :: 0 <= k < 7 && SundayFirst[k] == name ==> (ok <==> k <= today)
    ensures name !in SundayFirst ==> (ok <==> -1 <= today)
  {
    DayIndex(name) <= today
  }

  lemma SundayAlwaysAccessible(today: int)
    requires 0 <= today <= 6
    ensures CanAccessDay("Sunday", today)
  {
  }

  /** On Sunday, of the seven day names only Sunday may be opened. */
  lemma OnSundayOnlySunday(name: string)
    requires name in SundayFirst
    ensures CanAccessDay(name, 0) <==> name == "Sunday"
  {
  }

  /** A name that is not a weekday has index -1 and so is always accessible. */
  lemma UnknownNameAccessible(name: string, today: int)
    requires name !in SundayFirst && 0 <= today
    ensures CanAccessDay(name, today)
  {
  }

  /** `switchToDay`: an inaccessible day leaves the current day as it was. */
  function SwitchToDay(currentDay: string, day: string, today: int): (r: string)
    ensures CanAccessDay(day, today) ==> r == day
    ensures !CanAccessDay(day, today) ==> r == currentDay
  {
    if CanAccessDay(day, today) then day else currentDay
  }

  /** Switching never leaves an accessible current day for an inaccessible one. */
  lemma SwitchKeepsAccessible(currentDay: string, day: string, today: int)
    requires CanAccessDay(currentDay, today)
    ensures CanAccessDay(SwitchToDay(currentDay, day, today), today)
  {
  }

  /** `journalView.find(j => j.day === name)`: the first entry for that day. */
  function FindDay(view: seq<JournalEntry>, name: string): (r: Option<JournalEntry>)
    ensures r.Some? ==> r.value in view && r.value.day == name
    ensures forall i :: FirstEntryAt(view, name, i) ==> r == Some(view[i])
    ensures r.None? <==> forall i :: 0 <= i < |view| ==> view[i].day != name
  {
    if view == [] then None
    else if view[0].day == name then Some(view[0])
    else
      var r := FindDay(view[1..], name);
      assert forall i :: FirstEntryAt(view, name, i) ==> FirstEntryAt(view[1..], name, i - 1);
      r
  }

  /** Position `i` holds the first entry of the view for day `name`. */
  predicate FirstEntryAt(view: seq<JournalEntry>, name: string, i: int) {
    0 <= i < |view| && view[i].day == name && forall k :: 0 <= k < i ==> view[k].day != name
  }

  /** The three editor placeholders that do not count as writing. */
  predicate IsPlaceholder(c: string) {
    c == EmptyPlaceholder || c == PromptPlaceholder || c == BlankParagraph
  }

  /**
   * The `hasContent` test of `getDayStatus`, clause by clause in the source's
   * order: an entry has real content exactly when it exists, its content is
   * present, is not whitespace only and is not one of the placeholders.
   */
  function HasContent(j: Option<JournalEntry>): (has: bool)
    ensures has <==>
      && j.Some? && j.value.saved && j.value.content.Some?
      && !Text.AllSpace(j.value.content.value)
      && !IsPlaceholder(j.value.content.value)
  {
    && j.Some?
    && j.value.saved
    && j.value.content.Some?
    && j.value.content.value != ""
    && j.value.content.value != EmptyPlaceholder
    && Text.Trim(j.value.content.value) != ""
    && j.value.content.value != PromptPlaceholder
    && j.value.content.value != BlankParagraph
  }

  function DayStatus(view: seq<JournalEntry>, name: string, today: int): (s: Status)
    ensures s == Completed <==> CanAccessDay(name, today) && HasContent(FindDay(view, name))
    ensures s == Missing <==> DayIndex(name) < today && !HasContent(FindDay(view, name))
    ensures s == Pending <==> DayIndex(name) == today && !HasContent(FindDay(view, name))
  {
    var i := DayIndex(name);
    var has := HasContent(FindDay(view, name));
    if i < today then (if has then Completed else Missing)
    else if i == today then (if has then Completed else Pending)
    else Upcoming
  }

  /** A day shows as upcoming exactly when it cannot be opened. */
  lemma UpcomingIffInaccessible(view: seq<JournalEntry>, name: string, today: int)
    ensures DayStatus(view, name, today) == Upcoming <==> !CanAccessDay(name, today)
  {
  }

  // ---------------------------------------------------------------------------
  // Weekly initialisation

  /** Log rows for the given days and statuses, numbered from "1" in order. */
  function NumberedRows(days: seq<string>, statuses: seq<Status>): (rows: seq<LogRow>)
    requires |statuses| == |days|
    ensures |rows| == |days|
    ensures forall i :: 0 <= i < |days| ==>
      && rows[i].day == days[i]
      && rows[i].status == statuses[i]
      && rows[i].sno == Text.NatToString(i + 1)
  {
    seq(|days|, i requires 0 <= i < |days| => LogRow(Text.NatToString(i + 1), days[i], statuses[i]))
  }

  /** `initializeWeeklyData`: seven pending rows, Monday to Sunday, numbered "1".."7". */
  function InitialLogStatus(): (rows: seq<LogRow>)
    ensures |rows| == 7
    ensures forall i :: 0 <= i < 7 ==>
      && rows[i].day == MondayFirst[i]
      && rows[i].status == Pending
      && rows[i].sno == Text.NatToString(i + 1)
  {
    NumberedRows(MondayFirst, seq(7, i => Pending))
  }

  /** The Monday-first row `i` is the Sunday-first day `(i + 1) % 7`. */
  lemma InitialRowsCoverWeek()
    ensures forall i :: 0 <= i < 7 ==> DayIndex(InitialLogStatus()[i].day) == (i + 1) % 7
  {
  }

  /** The week the server reports as not found: seven absent days with no content and zero counts. */
  function EmptyWeek(): (view: seq<JournalEntry>)
    ensures |view| == 7
    ensures forall i :: 0 <= i < 7 ==>
      view[i].day == MondayFirst[i] && !view[i].saved && view[i].content.None?
      && view[i].wordCount == 0 && view[i].characterCount == 0
  {
    seq(7, i requires 0 <= i < 7 => JournalEntry(MondayFirst[i], false, None, 0, 0))
  }

  /** No day of the empty week has content. */
  lemma EmptyWeekHasNoContent(name: string)
    ensures !HasContent(FindDay(EmptyWeek(), name))
  {
    var j := FindDay(EmptyWeek(), name);
    if j.Some? {
      assert j.value in EmptyWeek();
    }
  }

  datatype WeekLoad = WeekLoad(view: seq<JournalEntry>, log: seq<LogRow>)

  /**
   * The 404 branch of the weekly load: the view becomes the empty week, and
   * the rows take their statuses from `getDayStatus` of the view that the
   * loading closure saw, which is the view from before the reset.
   */
  function WeekNotFound(staleView: seq<JournalEntry>, today: int): (r: WeekLoad)
    ensures r.view == EmptyWeek()
    ensures |r.log| == 7
    ensures forall i :: 0 <= i < 7 ==>
      && r.log[i].day == MondayFirst[i]
      && r.log[i].status == DayStatus(staleView, MondayFirst[i], today)
      && r.log[i].sno == Text.NatToString(i + 1)
  {
    WeekLoad(EmptyWeek(), NumberedRows(MondayFirst,
      seq(7, i requires 0 <= i < 7 => DayStatus(staleView, MondayFirst[i], today))))
  }

  /**
   * The successful weekly load: the view becomes the server's journals, and
   * one row per journal is numbered from "1", its status again taken from the
   * view the loading closure saw.
   */
  function WeekLoaded(staleView: seq<JournalEntry>, journals: seq<JournalEntry>, today: int): (r: WeekLoad)
    ensures r.view == journals
    ensures |r.log| == |journals|
    ensures forall i :: 0 <= i < |journals| ==>
      && r.log[i].day == journals[i].day
      && r.log[i].status == DayStatus(staleView, journals[i].day, today)
      && r.log[i].sno == Text.NatToString(i + 1)
  {
    var days := seq(|journals|, i requires 0 <= i < |journals| => journals[i].day);
    WeekLoad(journals, NumberedRows(days,
      seq(|journals|, i requires 0 <= i < |journals| => DayStatus(staleView, days[i], today))))
  }

  /** The not-found branch builds exactly what a successful load of the empty week would. */
  lemma NotFoundIsEmptyLoad(staleView: seq<JournalEntry>, today: int)
    ensures WeekNotFound(staleView, today) == WeekLoaded(staleView, EmptyWeek(), today)
  {
    var e := EmptyWeek();
    var days := seq(|e|, i requires 0 <= i < |e| => e[i].day);
    assert days == MondayFirst;
    assert seq(|e|, i requires 0 <= i < |e| => DayStatus(staleView, days[i], today))
        == seq(7, i requires 0 <= i < 7 => DayStatus(staleView, MondayFirst[i], today));
  }

  /**
   * When the view from before the reset is itself empty, the rows read: past
   * days missing, today pending, later days upcoming.
   */
  lemma WeekNotFoundFromEmpty(today: int)
    ensures var r := WeekNotFound(EmptyWeek(), today);
      forall i :: 0 <= i < 7 ==>
        var d := DayIndex(r.log[i].day);
        r.log[i].status == (if d < today then Missing else if d == today then Pending else Upcoming)
  {
    var r := WeekNotFound(EmptyWeek(), today);
    forall i | 0 <= i < 7
      ensures var d := DayIndex(r.log[i].day);
        r.log[i].status == (if d < today then Missing else if d == today then Pending else Upcoming)
    {
      EmptyWeekHasNoContent(r.log[i].day);
    }
  }

  // ---------------------------------------------------------------------------
  // Saving

  /** The parts of the signed-in user that `getUserId` reads; `None` is an absent field. */
  datatype User = User(id: Option<string>, uid: Option<string>, mongoId: Option<string>)

  predicate Truthy(s: Option<string>) {
    s.Some? && s.value != ""
  }

  /** `user?.id || user?.uid || user?._id`, with a falsy result as `None`. */
  function UserId(user: Option<User>): (r: Option<string>)
    ensures r.Some? ==> r.value != ""
    ensures r.None? <==> user.None? || (!Truthy(user.value.id) && !Truthy(user.value.uid) && !Truthy(user.value.mongoId))
  {
    if user.None? then None
    else if Truthy(user.value.id) then user.value.id
    else if Truthy(user.value.uid) then user.value.uid
    else if Truthy(user.value.mongoId) then user.value.mongoId
    else None
  }

  /** The text of an editor's HTML as the save checks it: tags removed, then trimmed. */
  function SaveText(content: string): (t: string)
    ensures Text.IsTrimmed(t) && Text.NoTag(t)
    ensures |t| <= |content|
  {
    Text.StripTagsLeavesNoTag(content);
    Text.TrimKeepsNoTag(Text.StripTags(content));
    Text.Trim(Text.StripTags(content))
  }

  datatype Method = Put | Post
  datatype Rejection = EditorNotReady | NothingWritten | NoUser

  datatype SaveRequest = SaveRequest(
    verb: Method, week: int, day: string, content: string, userId: string,
    wordCount: int, characterCount: int)

  datatype SavePlan = Rejected(reason: Rejection) | Send(request: SaveRequest)

  /** `existingEntry`: some entry for the day that exists on the server. */
  predicate HasSavedEntry(view: seq<JournalEntry>, day: string) {
    exists i :: 0 <= i < |view| && view[i].day == day && view[i].saved
  }

  /**
   * Everything `saveJournalEntry` decides before the request is sent: the
   * three rejections in the order the code checks them, then the method and
   * the body.
   */
  function PlanSave(editorReady: bool, content: string, user: Option<User>,
                    view: seq<JournalEntry>, week: int, day: string): (p: SavePlan)
    ensures p == Rejected(EditorNotReady) <==> !editorReady
    ensures p == Rejected(NothingWritten) <==>
      editorReady && (SaveText(content) == [] || SaveText(content) == PromptText)
    ensures p.Send? ==>
      && SaveText(content) != [] && SaveText(content) != PromptText
      && UserId(user).Some? && p.request.userId == UserId(user).value
      && p.request.content == content && p.request.week == week && p.request.day == day
      && (p.request.verb == Put <==> HasSavedEntry(view, day))
      && p.request.wordCount == 1 + Text.SpaceRuns(SaveText(content), false)
      && p.request.characterCount == Text.Utf16Length(SaveText(content))
  {
    if !editorReady then Rejected(EditorNotReady)
    else
      var text := SaveText(content);
      if text == [] || text == PromptText then Rejected(NothingWritten)
      else
        var uid := UserId(user);
        if uid.None? then Rejected(NoUser)
        else
          Text.SplitOfTrimmedHasNoEmptyPiece(text);
          var verb := if HasSavedEntry(view, day) then Put else Post;
          Send(SaveRequest(verb, week, day, content, uid.value, Text.WordCount(text), Text.Utf16Length(text)))
  }

  /** A save is sent exactly when the editor is ready, something is written and a user is known. */
  lemma PlanSaveSendsIff(editorReady: bool, content: string, user: Option<User>,
                         view: seq<JournalEntry>, week: int, day: string)
    ensures PlanSave(editorReady, content, user, view, week, day).Send? <==>
      editorReady && !Text.AllSpace(Text.StripTags(content))
      && SaveText(content) != PromptText && UserId(user).Some?
  {
  }

  /**
   * The word count is the number of whitespace-separated words of the saved
   * text: one more than its runs of whitespace, and the pieces hold every
   * character of the text except the whitespace.
   */
  lemma PlanSaveWordCount(editorReady: bool, content: string, user: Option<User>,
                          view: seq<JournalEntry>, week: int, day: string)
    requires PlanSave(editorReady, content, user, view, week, day).Send?
    ensures var r := PlanSave(editorReady, content, user, view, week, day).request;
      var words := Text.SplitOnSpace(SaveText(content));
      && r.wordCount == |words| >= 1
      && Text.Concat(words) == Text.RemoveSpaces(SaveText(content))
  {
    Text.SplitOnSpaceLosesOnlySpace(SaveText(content));
  }

  /**
   * The local update after a successful save: every entry for the saved day
   * takes the new content, is marked as existing and gets the sent counts;
   * every other entry is unchanged.
   */
  function ApplySave(view: seq<JournalEntry>, r: SaveRequest): (v: seq<JournalEntry>)
    ensures |v| == |view|
    ensures forall i :: 0 <= i < |view| ==>
      if view[i].day == r.day then
        v[i] == view[i].(content := Some(r.content), saved := true,
                         wordCount := r.wordCount, characterCount := r.characterCount)
      else v[i] == view[i]
  {
    seq(|view|, i requires 0 <= i < |view| =>
      if view[i].day == r.day then
        view[i].(content := Some(r.content), saved := true,
                 wordCount := r.wordCount, characterCount := r.characterCount)
      else view[i])
  }

  /** Only the saved day's entries change: the status of every other day is as before. */
  lemma ApplySaveKeepsOtherDays(view: seq<JournalEntry>, r: SaveRequest, name: string, today: int)
    requires name != r.day
    ensures DayStatus(ApplySave(view, r), name, today) == DayStatus(view, name, today)
  {
    FindDayFrame(view, ApplySave(view, r), name);
  }

  lemma {:induction false} FindDayFrame(a: seq<JournalEntry>, b: seq<JournalEntry>, name: string)
    requires |a| == |b|
    requires forall i :: 0 <= i < |a| ==> (a[i].day == name || b[i].day == name ==> a[i] == b[i])
    requires forall i :: 0 <= i < |a| ==> (a[i].day == name <==> b[i].day == name)
    ensures FindDay(a, name) == FindDay(b, name)
  {
    if a != [] && a[0].day != name {
      FindDayFrame(a[1..], b[1..], name);
    }
  }

  /** Once a day has been saved, the next save of that day is a PUT. */
  lemma SaveThenPut(view: seq<JournalEntry>, r: SaveRequest, editorReady: bool, content: string,
                    user: Option<User>, week: int)
    requires exists i :: 0 <= i < |view| && view[i].day == r.day
    requires PlanSave(editorReady, content, user, ApplySave(view, r), week, r.day).Send?
    ensures PlanSave(editorReady, content, user, ApplySave(view, r), week, r.day).request.verb == Put
  {
    var i :| 0 <= i < |view| && view[i].day == r.day;
    assert ApplySave(view, r)[i].saved;
  }

  /**
   * After a save whose text is real writing, the saved day reads as completed
   * whenever it can be opened.
   */
  lemma SavedDayIsCompleted(view: seq<JournalEntry>, r: SaveRequest, today: int)
    requires exists i :: 0 <= i < |view| && view[i].day == r.day
    requires !Text.AllSpace(r.content) && !IsPlaceholder(r.content)
    requires CanAccessDay(r.day, today)
    ensures DayStatus(ApplySave(view, r), r.day, today) == Completed
  {
    var v := ApplySave(view, r);
    var j := FindDay(v, r.day);
    var k :| 0 <= k < |v| && v[k] == j.value;
    assert v[k].content == Some(r.content);
  }

  /** The delayed log update after a save: the rows for the saved day take the given status. */
  function SetDayStatus(log: seq<LogRow>, day: string, s: Status): (r: seq<LogRow>)
    ensures |r| == |log|
    ensures forall i :: 0 <= i < |log| ==>
      r[i].sno == log[i].sno && r[i].day == log[i].day
      && r[i].status == (if log[i].day == day then s else log[i].status)
  {
    seq(|log|, i requires 0 <= i < |log| =>
      if log[i].day == day then log[i].(status := s) else log[i])
  }
}
