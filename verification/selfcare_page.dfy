/**
 * The self-care page: which activities count as done today, the trailing
 * weekly count, the set of checked activity ids as toggling, adding,
 * deleting and the minute tick change it, and the completion percentage.
 *
 * Instants are integer milliseconds; `now` is the clock reading the source
 * takes with `new Date()`. Every network call is replaced by its outcome,
 * given as a parameter.
 */
module SelfCarePage {
  import opened Options
  import opened UtcCalendar
  import Percent
  import Text

  /** An activity as the server sends it; `performedDates` may be missing. */
  datatype ActivityRecord = ActivityRecord(
    id: string, title: string, description: string, performedDates: Option<seq<int>>)

  /** An activity as the page holds it: the server's fields plus the two derived ones. */
  datatype Activity = Activity(record: ActivityRecord, weeklyCount: int, completedToday: bool)

  datatype Page = Page(activities: seq<Activity>, checked: set<string>, title: string, description: string)

  // ---------------------------------------------------------------------------
  // Weekly count

  /** UTC midnight six days before the day of `now`: the first instant the weekly count includes. */
  function WindowStart(now: int): (start: int)
    ensures UtcDay(start) == UtcDay(now) - 6 && start % DayMs == 0
    ensures start <= now
  {
    (UtcDay(now) - 6) * DayMs
  }

  /** An instant is in the weekly window exactly when its UTC day is at most six days before today's. */
  lemma InWindowIff(d: int, now: int)
    ensures d >= WindowStart(now) <==> UtcDay(d) >= UtcDay(now) - 6
  {
  }

  /** The number of entries at or after `start`, duplicates included. */
  function CountSince(ds: seq<int>, start: int): (n: nat)
    ensures n <= |ds|
    ensures n == 0 <==> forall i :: 0 <= i < |ds| ==> ds[i] < start
  {
    if ds == [] then 0
    else CountSince(ds[..|ds| - 1], start) + (if ds[|ds| - 1] >= start then 1 else 0)
  }

  /** `computeWeeklyCount`: none of the dates counts exactly when all lie before the window. */
  function WeeklyCount(ds: seq<int>, now: int): (n: nat)
    ensures n <= |ds|
    ensures n == 0 <==> forall i :: 0 <= i < |ds| ==> UtcDay(ds[i]) < UtcDay(now) - 6
  {
    forall i | 0 <= i < |ds| {
      InWindowIff(ds[i], now);
    }
    CountSince(ds, WindowStart(now))
  }

  /** The count of the filter, by one pass over the dates. */
  method CountWeekly(ds: seq<int>, now: int) returns (n: nat)
    ensures n == WeeklyCount(ds, now)
  {
    var start := WindowStart(now);
    n := 0;
    var i := 0;
    while i < |ds|
      invariant 0 <= i <= |ds|
      invariant n == CountSince(ds[..i], start)
    {
      assert ds[..i + 1][..i] == ds[..i];
      if ds[i] >= start {
        n := n + 1;
      }
      i := i + 1;
    }
    assert ds[..i] == ds;
  }

  /** Counting is additive over concatenation. */
  lemma {:induction false} CountSinceAppend(a: seq<int>, b: seq<int>, start: int)
    ensures CountSince(a + b, start) == CountSince(a, start) + CountSince(b, start)
    decreases |b|
  {
    if b != [] {
      assert (a + b)[..|a + b| - 1] == a + b[..|b| - 1];
      assert (a + b)[|a + b| - 1] == b[|b| - 1];
      CountSinceAppend(a, b[..|b| - 1], start);
    } else {
      assert a + b == a;
    }
  }

  /** Dates are not deduplicated: performing again at an instant already listed still adds one. */
  lemma RepeatedDateCountsTwice(ds: seq<int>, d: int, now: int)
    requires d in ds && d >= WindowStart(now)
    ensures WeeklyCount(ds + [d], now) == WeeklyCount(ds, now) + 1
  {
    CountSinceAppend(ds, [d], WindowStart(now));
    assert [d][..0] == [];
  }

  /** An entry exactly at the start of the window is counted. */
  lemma WindowStartCounted(now: int)
    ensures WeeklyCount([WindowStart(now)], now) == 1
  {
    assert [WindowStart(now)][..0] == [];
  }

  /** Entries on the UTC day seven days before today are not counted. */
  lemma SeventhDayBackNotCounted(d: int, now: int)
    requires UtcDay(d) == UtcDay(now) - 7
    ensures WeeklyCount([d], now) == 0
  {
    InWindowIff(d, now);
  }

  /** The window has no upper end: an entry in the future is counted too. */
  lemma FutureCounted(d: int, now: int)
    requires d > now
    ensures WeeklyCount([d], now) == 1
  {
    InWindowIff(d, now);
    assert [d][..0] == [];
  }

  // ---------------------------------------------------------------------------
  // Today's completion

  /**
   * `performedDates.some(d => isSameUTCDate(d, now))`: done today means some
   * date falls on the same UTC day as `now`.
   */
  function DoneOn(ds: seq<int>, now: int): (done: bool)
    ensures done <==> exists i :: 0 <= i < |ds| && UtcDay(ds[i]) == UtcDay(now)
  {
    exists i :: 0 <= i < |ds| && IsSameUtcDate(ds[i], now)
  }

  /** Something done today is also in this week's count. */
  lemma DoneTodayCountsThisWeek(ds: seq<int>, now: int)
    requires DoneOn(ds, now)
    ensures WeeklyCount(ds, now) >= 1
  {
    var i :| 0 <= i < |ds| && UtcDay(ds[i]) == UtcDay(now);
    InWindowIff(ds[i], now);
  }

  /** `transformActivity`: the server's fields unchanged, plus the weekly count and today's flag. */
  function Transform(a: ActivityRecord, now: int): (r: Activity)
    ensures r.record == a
    ensures r.weeklyCount == WeeklyCount(a.performedDates.GetOr([]), now)
    ensures r.completedToday <==> a.performedDates.Some? && DoneOn(a.performedDates.value, now)
  {
    var ds := a.performedDates.GetOr([]);
    Activity(a, WeeklyCount(ds, now), DoneOn(ds, now))
  }

  /** The ids of the activities marked as done today. */
  function CompletedIds(list: seq<Activity>): (ids: set<string>)
    ensures forall x :: x in ids <==> exists i :: 0 <= i < |list| && list[i].completedToday && list[i].record.id == x
  {
    set i | 0 <= i < |list| && list[i].completedToday :: list[i].record.id
  }

  /** The ids of all listed activities. */
  function Ids(list: seq<Activity>): (ids: set<string>)
    ensures forall x :: x in ids <==> exists i :: 0 <= i < |list| && list[i].record.id == x
  {
    set i | 0 <= i < |list| :: list[i].record.id
  }

  lemma {:induction false} IdsBound(list: seq<Activity>)
    ensures |Ids(list)| <= |list|
    decreases |list|
  {
    if list != [] {
      var init := list[..|list| - 1];
      IdsBound(init);
      assert Ids(list) == Ids(init) + {list[|list| - 1].record.id} by {
        forall x | x in Ids(list) ensures x in Ids(init) + {list[|list| - 1].record.id} {
          var i :| 0 <= i < |list| && list[i].record.id == x;
          if i < |list| - 1 {
            assert init[i] == list[i];
          }
        }
      }
    }
  }

  /** The page's invariant: every checked id belongs to a listed activity. */
  predicate Consistent(p: Page) {
    p.checked <= Ids(p.activities)
  }

  /** The transformed list and the ids done today, which fetch and add both install. */
  function Install(p: Page, records: seq<ActivityRecord>, now: int): (q: Page)
    ensures |q.activities| == |records|
    ensures forall i :: 0 <= i < |records| ==> q.activities[i] == Transform(records[i], now)
    ensures q.checked == CompletedIds(q.activities)
    ensures q.title == p.title && q.description == p.description
    ensures Consistent(q)
  {
    var list := seq(|records|, i requires 0 <= i < |records| => Transform(records[i], now));
    p.(activities := list, checked := CompletedIds(list))
  }

  // ---------------------------------------------------------------------------
  // Loading and the minute tick

  /** The outcome of the initial `GET`: failed, or the body's `activities` field (missing as `None`). */
  datatype FetchOutcome = FetchFailed | Fetched(activities: Option<seq<ActivityRecord>>)

  /**
   * The initial load: nothing happens without a user id; a failure changes
   * nothing; otherwise the list (empty when missing) is installed.
   */
  function Fetch(p: Page, userId: Option<string>, outcome: FetchOutcome, now: int): (q: Page)
    ensures userId.None? || outcome.FetchFailed? ==> q == p
    ensures userId.Some? && outcome.Fetched? ==>
      q == Install(p, outcome.activities.GetOr([]), now)
  {
    if userId.None? then p
    else match outcome
      case FetchFailed => p
      case Fetched(acts) => Install(p, acts.GetOr([]), now)
  }

  /**
   * The minute tick: every activity's `completedToday` is recomputed from its
   * dates (a missing list reads as not done), and the checked set becomes the
   * ids of the activities with a date on today's UTC day. Nothing else changes.
   */
  function Tick(p: Page, now: int): (q: Page)
    ensures |q.activities| == |p.activities|
    ensures forall i :: 0 <= i < |p.activities| ==>
      && q.activities[i].record == p.activities[i].record
      && q.activities[i].weeklyCount == p.activities[i].weeklyCount
      && (q.activities[i].completedToday <==>
           exists ds :: p.activities[i].record.performedDates == Some(ds) && DoneOn(ds, now))
    ensures q.checked == CompletedIds(q.activities)
    ensures q.title == p.title && q.description == p.description
  {
    var list := seq(|p.activities|, i requires 0 <= i < |p.activities| =>
      var a := p.activities[i];
      a.(completedToday := a.record.performedDates.Some? && DoneOn(a.record.performedDates.value, now)));
    p.(activities := list, checked := CompletedIds(list))
  }

  /** After a tick the page is consistent, and a second tick at the same instant changes nothing. */
  lemma TickConsistentAndIdempotent(p: Page, now: int)
    ensures Consistent(Tick(p, now))
    ensures Tick(Tick(p, now), now) == Tick(p, now)
  {
  }

  // ---------------------------------------------------------------------------
  // Toggling an activity

  /** The outcome of the increment or decrement request. */
  datatype ToggleOutcome = ToggleFailed | ToggleRefused | ToggleAccepted(activity: ActivityRecord)

  /** The page after a toggle, and whether the checkbox was forced off. */
  datatype ToggleResult = ToggleResult(page: Page, forcedOff: bool)

  /**
   * `activityStatus` for activity `id`, where `isChecked` is the checkbox's
   * new state. Without a user nothing is sent and the checkbox is forced off;
   * an accepted request replaces the activities with that id by the server's
   * transformed record and adds or removes `id`; anything else changes nothing.
   */
  function Toggle(p: Page, userId: Option<string>, id: string, isChecked: bool,
                  outcome: ToggleOutcome, now: int): (r: ToggleResult)
    ensures r.forcedOff <==> userId.None?
    ensures userId.None? || !outcome.ToggleAccepted? ==> r.page == p
    ensures userId.Some? && outcome.ToggleAccepted? ==>
      && |r.page.activities| == |p.activities|
      && (forall i :: 0 <= i < |p.activities| ==>
            r.page.activities[i] ==
              if p.activities[i].record.id == id then Transform(outcome.activity, now) else p.activities[i])
      && r.page.checked == (if isChecked then p.checked + {id} else p.checked - {id})
      && r.page.title == p.title && r.page.description == p.description
  {
    if userId.None? then ToggleResult(p, true)
    else match outcome
      case ToggleAccepted(a) =>
        var updated := Transform(a, now);
        var list := seq(|p.activities|, i requires 0 <= i < |p.activities| =>
          if p.activities[i].record.id == id then updated else p.activities[i]);
        var checked := if isChecked then p.checked + {id} else p.checked - {id};
        ToggleResult(p.(activities := list, checked := checked), false)
      case _ => ToggleResult(p, false)
  }

  /** Toggling a listed activity, when the server answers with that same activity, keeps the page consistent. */
  lemma ToggleKeepsConsistent(p: Page, userId: Option<string>, id: string, isChecked: bool,
                              outcome: ToggleOutcome, now: int)
    requires Consistent(p) && id in Ids(p.activities)
    requires outcome.ToggleAccepted? ==> outcome.activity.id == id
    ensures Consistent(Toggle(p, userId, id, isChecked, outcome, now).page)
  {
    var q := Toggle(p, userId, id, isChecked, outcome, now).page;
    if userId.Some? && outcome.ToggleAccepted? {
      forall x | x in q.checked ensures x in Ids(q.activities) {
        var i :| 0 <= i < |p.activities| && p.activities[i].record.id == x;
        assert q.activities[i].record.id == x;
      }
    }
  }

  // ---------------------------------------------------------------------------
  // Adding and deleting

  /** The parts of a create or delete response the page reads. */
  datatype ResponseBody = ResponseBody(activities: Option<seq<ActivityRecord>>, activity: Option<ActivityRecord>)

  /** An array `activities` is taken as it is, else a present `activity` as a one-element list, else nothing. */
  function Normalise(body: ResponseBody): (list: seq<ActivityRecord>)
    ensures body.activities.Some? ==> list == body.activities.value
    ensures body.activities.None? && body.activity.Some? ==> list == [body.activity.value]
    ensures body.activities.None? && body.activity.None? ==> list == []
    ensures |list| <= 1 || body.activities.Some?
  {
    if body.activities.Some? then body.activities.value
    else if body.activity.Some? then [body.activity.value]
    else []
  }

  datatype NewActivity = NewActivity(title: string, description: string, userId: string)

  /**
   * The request `addActivity` sends, if any: none without a user id or when
   * the trimmed title or description is empty; otherwise both trimmed.
   */
  function PlanAdd(p: Page, userId: Option<string>): (r: Option<NewActivity>)
    ensures r.None? <==> userId.None? || Text.AllSpace(p.title) || Text.AllSpace(p.description)
    ensures r.Some? ==>
      && r.value.userId == userId.value
      && r.value.title == Text.Trim(p.title) && r.value.title != []
      && r.value.description == Text.Trim(p.description) && r.value.description != []
  {
    if userId.None? then None
    else
      var t := Text.Trim(p.title);
      var d := Text.Trim(p.description);
      if t == [] || d == [] then None else Some(NewActivity(t, d, userId.value))
  }

  datatype ServerOutcome = ServerFailed | Responded(body: ResponseBody)

  /**
   * The page after the create request: on a response, the normalised list
   * is installed and both inputs are cleared; on a failure nothing changes.
   */
  function ApplyAdd(p: Page, outcome: ServerOutcome, now: int): (q: Page)
    ensures outcome.ServerFailed? ==> q == p
    ensures outcome.Responded? ==>
      q == Install(p, Normalise(outcome.body), now).(title := "", description := "")
  {
    match outcome
    case ServerFailed => p
    case Responded(body) => Install(p, Normalise(body), now).(title := "", description := "")
  }


  /**
   * The page after the delete request: on a response, the normalised list is
   * installed and only `id` leaves the checked set; on a failure nothing changes.
   */
  function ApplyDelete(p: Page, id: string, outcome: ServerOutcome, now: int): (q: Page)
    ensures outcome.ServerFailed? ==> q == p
    ensures outcome.Responded? ==>
      && q.activities == Install(p, Normalise(outcome.body), now).activities
      && q.checked == p.checked - {id}
      && q.title == p.title && q.description == p.description
  {
    match outcome
    case ServerFailed => p
    case Responded(body) => Install(p, Normalise(body), now).(checked := p.checked - {id})
  }

  /**
   * `deleteActivity`: nothing is sent without a user id or when the user does
   * not confirm. A delete never checks an activity: the checked set can only
   * shrink, and a delete that is answered leaves `id` unchecked.
   */
  function Delete(p: Page, userId: Option<string>, confirmed: bool, id: string,
                  outcome: ServerOutcome, now: int): (q: Page)
    ensures userId.None? || !confirmed ==> q == p
    ensures userId.Some? && confirmed ==> q == ApplyDelete(p, id, outcome, now)
    ensures q.checked <= p.checked
    ensures userId.Some? && confirmed && outcome.Responded? ==> id !in q.checked
    ensures q.title == p.title && q.description == p.description
  {
    if userId.None? || !confirmed then p else ApplyDelete(p, id, outcome, now)
  }

  /** A delete keeps the page consistent when the returned list still holds every other checked id. */
  lemma DeleteKeepsConsistentWhenListed(p: Page, id: string, body: ResponseBody, now: int)
    requires p.checked - {id} <= Ids(Install(p, Normalise(body), now).activities)
    ensures Consistent(ApplyDelete(p, id, Responded(body), now))
  {
  }

  // ---------------------------------------------------------------------------
  // Progress

  /** The percentage shown: `round(100 * checked / length)`, or 0 for an empty list. */
  function Progress(p: Page): (pct: int)
    ensures |p.activities| == 0 ==> pct == 0
    ensures |p.activities| > 0 ==>
      2 * |p.activities| * pct <= 200 * |p.checked| + |p.activities| < 2 * |p.activities| * (pct + 1)
  {
    if |p.activities| > 0 then Percent.RoundPercent(|p.checked|, |p.activities|) else 0
  }

  /** A consistent page shows a percentage between 0 and 100. */
  lemma ProgressInRange(p: Page)
    requires Consistent(p)
    ensures 0 <= Progress(p) <= 100
  {
    IdsBound(p.activities);
    assert |p.checked| <= |Ids(p.activities)| by {
      SubsetCard(p.checked, Ids(p.activities));
    }
    if |p.activities| > 0 {
      Percent.RoundPercentRange(|p.checked|, |p.activities|);
    }
  }

  lemma SubsetCard(a: set<string>, b: set<string>)
    requires a <= b
    ensures |a| <= |b|
  {
    assert b == a + (b - a);
  }

  /**
   * The checked set keeps ids the returned list no longer holds: a delete whose
   * response carries a single `activity` can leave a page showing 200%.
   */
  lemma DeleteCanOverrunProgress()
    ensures var a1 := ActivityRecord("a1", "t", "d", None);
      var a2 := ActivityRecord("a2", "t", "d", None);
      var a3 := ActivityRecord("a3", "t", "d", None);
      var p := Page([Activity(a1, 0, false), Activity(a2, 0, false), Activity(a3, 0, false)],
                    {"a1", "a2", "a3"}, "", "");
      var q := ApplyDelete(p, "a1", Responded(ResponseBody(None, Some(a2))), 0);
      Consistent(p) && Progress(q) == 200
  {
    var a1 := ActivityRecord("a1", "t", "d", None);
    var a2 := ActivityRecord("a2", "t", "d", None);
    var a3 := ActivityRecord("a3", "t", "d", None);
    var p := Page([Activity(a1, 0, false), Activity(a2, 0, false), Activity(a3, 0, false)],
                  {"a1", "a2", "a3"}, "", "");
    assert p.activities[0].record.id == "a1";
    assert p.activities[1].record.id == "a2";
    assert p.activities[2].record.id == "a3";
    var q := ApplyDelete(p, "a1", Responded(ResponseBody(None, Some(a2))), 0);
    assert "a1" != "a2" && "a1" != "a3" && "a2" != "a3";
    assert q.checked == {"a2", "a3"};
    assert |q.activities| == 1;
  }
}
