/**
 * The weekly journal log component: the colour of each status, the content
 * its modal shows for a day, and which rows open the modal. Statuses are the
 * strings the component compares against.
 */
module JournalLog {
  import opened Options
  import Text

  datatype LogEntry = LogEntry(sno: string, day: string, status: string)

  datatype Journal = Journal(day: string, content: string)

  const Fallback: string := "<h1>No Data available</h1>"

  /** `getStatusColor`: a class for each of the four statuses, and nothing for any other string. */
  function StatusColor(status: string): (c: Option<string>)
    ensures c.Some? <==> status in ["completed", "pending", "missing", "upcoming"]
  {
    if status == "completed" then Some("text-green-500")
    else if status == "pending" then Some("text-blue-500")
    else if status == "missing" then Some("text-red-600")
    else if status == "upcoming" then Some("text-gray-400")
    else None
  }

  /** The four statuses get four different colours. */
  lemma StatusColorsDistinct(s: string, t: string)
    requires s in ["completed", "pending", "missing", "upcoming"]
    requires t in ["completed", "pending", "missing", "upcoming"]
    ensures StatusColor(s) == StatusColor(t) <==> s == t
  {
    if s != t {
      assert StatusColor(s).value[7] != StatusColor(t).value[7];
    }
  }

  /** Position `i` holds the first log row for `day`. */
  predicate FirstRowAt(log: seq<LogEntry>, day: string, i: int) {
    0 <= i < |log| && log[i].day == day && forall k :: 0 <= k < i ==> log[k].day != day
  }

  /** Position `j` holds the first journal for `day`. */
  predicate FirstJournalAt(journals: seq<Journal>, day: string, j: int) {
    0 <= j < |journals| && journals[j].day == day && forall k :: 0 <= k < j ==> journals[k].day != day
  }

  /** `find` on the log: the first row for a day. */
  function FindStatus(log: seq<LogEntry>, day: string): (r: Option<LogEntry>)
    ensures r.Some? ==> r.value in log && r.value.day == day
    ensures forall i :: FirstRowAt(log, day, i) ==> r == Some(log[i])
    ensures r.None? <==> forall i :: 0 <= i < |log| ==> log[i].day != day
  {
    if log == [] then None
    else if log[0].day == day then Some(log[0])
    else
      var r := FindStatus(log[1..], day);
      assert forall i :: FirstRowAt(log, day, i) ==> FirstRowAt(log[1..], day, i - 1);
      r
  }

  /** `find` on the journals: the first journal for a day. */
  function FindJournal(journals: seq<Journal>, day: string): (r: Option<Journal>)
    ensures r.Some? ==> r.value in journals && r.value.day == day
    ensures forall j :: FirstJournalAt(journals, day, j) ==> r == Some(journals[j])
    ensures r.None? <==> forall j :: 0 <= j < |journals| ==> journals[j].day != day
  {
    if journals == [] then None
    else if journals[0].day == day then Some(journals[0])
    else
      var r := FindJournal(journals[1..], day);
      assert forall j :: FirstJournalAt(journals, day, j) ==> FirstJournalAt(journals[1..], day, j - 1);
      r
  }

  /** `setModelContent`: the day's journal when the day is completed and has one, else the fallback. */
  function ModalContent(log: seq<LogEntry>, journals: seq<Journal>, day: string): (html: string)
    ensures html != Fallback ==> exists i :: 0 <= i < |journals| && journals[i].day == day && journals[i].content == html
  {
    var s := FindStatus(log, day);
    var j := FindJournal(journals, day);
    if s.Some? && s.value.status == "completed" && j.Some? then j.value.content else Fallback
  }

  /**
   * The modal shows the day's first journal exactly when the day's first log
   * row is completed; it shows the fallback when that row is not completed
   * (even if a later row for the day is), when the log has no row for the
   * day, and when there is no journal for the day.
   */
  lemma ModalContentIff(log: seq<LogEntry>, journals: seq<Journal>, day: string)
    ensures forall i, j :: FirstRowAt(log, day, i) && FirstJournalAt(journals, day, j) ==>
      ModalContent(log, journals, day) == (if log[i].status == "completed" then journals[j].content else Fallback)
    ensures (forall i :: 0 <= i < |log| ==> log[i].day != day) ==> ModalContent(log, journals, day) == Fallback
    ensures (forall j :: 0 <= j < |journals| ==> journals[j].day != day) ==> ModalContent(log, journals, day) == Fallback
  {
  }

  /** A click on a row: an upcoming row does nothing; any other opens the modal with the day's content. */
  function Click(log: seq<LogEntry>, journals: seq<Journal>, row: LogEntry): (modal: Option<string>)
    ensures modal.None? <==> row.status == "upcoming"
    ensures modal.Some? ==> modal.value == ModalContent(log, journals, row.day)
  {
    if row.status != "upcoming" then Some(ModalContent(log, journals, row.day)) else None
  }

  // ---------------------------------------------------------------------------
  // The fixed week the component shows

  const WeekDays: seq<string> := ["Monday", "Tuesday", "Wednesday", "Thursday", "Friday", "Saturday", "Sunday"]

  function DemoLog(): (log: seq<LogEntry>)
    ensures |log| == 7
    ensures forall i :: 0 <= i < 7 ==> log[i].day == WeekDays[i] && log[i].sno == [Text.DigitChar(i + 1)]
  {
    [LogEntry("1", "Monday", "completed"), LogEntry("2", "Tuesday", "missing"),
     LogEntry("3", "Wednesday", "completed"), LogEntry("4", "Thursday", "pending"),
     LogEntry("5", "Friday", "upcoming"), LogEntry("6", "Saturday", "upcoming"),
     LogEntry("7", "Sunday", "upcoming")]
  }

  function DemoJournals(): (journals: seq<Journal>)
    ensures |journals| == 7
    ensures forall i :: 0 <= i < 7 ==> journals[i].day == WeekDays[i]
  {
    seq(7, i requires 0 <= i < 7 => Journal(WeekDays[i], "<h1>" + WeekDays[i] + " Data</h1>"))
  }

  /** The row numbers read "1" to "7" in order. */
  lemma DemoLogNumbered()
    ensures forall i :: 0 <= i < 7 ==> DemoLog()[i].sno == Text.NatToString(i + 1)
  {
    forall i | 0 <= i < 7
      ensures DemoLog()[i].sno == Text.NatToString(i + 1)
    {
      assert DemoLog()[i].sno == Text.NatToString(i + 1);
    }
  }

  /** In the fixed week, Monday opens its journal, Tuesday (missing) the fallback, and Friday nothing. */
  lemma DemoClicks()
    ensures Click(DemoLog(), DemoJournals(), DemoLog()[0]) == Some("<h1>Monday Data</h1>")
    ensures Click(DemoLog(), DemoJournals(), DemoLog()[1]) == Some(Fallback)
    ensures Click(DemoLog(), DemoJournals(), DemoLog()[4]).None?
  {
    var log := DemoLog();
    assert log[0] == LogEntry("1", "Monday", "completed");
    assert log[1] == LogEntry("2", "Tuesday", "missing");
    assert log[4].status == "upcoming";
    DemoMonday();
    DemoTuesday();
  }

  /** Monday's first row is completed and Monday has a journal, so the modal shows that journal. */
  lemma DemoMonday()
    ensures ModalContent(DemoLog(), DemoJournals(), "Monday") == "<h1>Monday Data</h1>"
  {
    var log, journals := DemoLog(), DemoJournals();
    assert journals[0] == Journal("Monday", "<h1>Monday Data</h1>");
    assert FirstRowAt(log, "Monday", 0) && FirstJournalAt(journals, "Monday", 0);
  }

  /** Tuesday's first row is missing, so the modal shows the fallback although Tuesday has a journal. */
  lemma DemoTuesday()
    ensures ModalContent(DemoLog(), DemoJournals(), "Tuesday") == Fallback
  {
    var log, journals := DemoLog(), DemoJournals();
    assert log[0].day[0] == 'M';
    assert FirstRowAt(log, "Tuesday", 1);
  }
}
