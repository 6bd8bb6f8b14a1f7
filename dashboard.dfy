/** The dashboard: today's status card and the Sunday-to-Saturday week strip,
    both read off the logs of the current week. */
module Dashboard {
  import opened Wrappers
  import opened DailyLog

  /** A day of the week that starts on `weekStart` (a Sunday) and ends six days later. */
  predicate InWeek(weekStart: Day, d: Day)
  {
    weekStart <= d <= weekStart + 6
  }

  /** Some log is dated `day`. */
  predicate LoggedOn(logs: seq<Log>, day: Day)
  {
    exists i :: 0 <= i < |logs| && logs[i].date == day
  }

  /** The line under "Today's Workout". */
  function StatusText(logs: seq<Log>, today: Day): (t: string)
    ensures t == "In progress" <==> LoggedOn(logs, today)
    ensures t == "Not started yet" <==> !LoggedOn(logs, today)
  {
    FindByDateMeansLogged(logs, today);
    if FindByDate(logs, today).Some? then "In progress" else "Not started yet"
  }

  /** The large link to the log page. */
  function ButtonLabel(logs: seq<Log>, today: Day): (t: string)
    ensures t == "Continue Today's Log" <==> LoggedOn(logs, today)
    ensures t == "Start Today's Log" <==> !LoggedOn(logs, today)
  {
    FindByDateMeansLogged(logs, today);
    if FindByDate(logs, today).Some? then "Continue Today's Log" else "Start Today's Log"
  }

  /** The checkmark on the status card: the first log dated today exists and is complete. */
  function ShowsCheckmark(logs: seq<Log>, today: Day): (r: bool)
    ensures r ==> LoggedOn(logs, today)
    ensures r <==> exists k :: 0 <= k < |logs| && logs[k].date == today && IsLogComplete(logs[k].fields) &&
                               (forall j :: 0 <= j < k ==> logs[j].date != today)
  {
    FindByDateMeansLogged(logs, today);
    FindByDateIsFirst(logs, today);
    if FindByDate(logs, today).Some? then
      var k :| 0 <= k < |logs| && logs[k] == FindByDate(logs, today).value &&
        forall j :: 0 <= j < k ==> logs[j].date != today;
      FirstIsUnique(logs, today, k);
      IsLogComplete(FindByDate(logs, today).value.fields)
    else
      false
  }

  /** Two positions that are both the first one dated `day` are the same. */
  lemma FirstIsUnique(logs: seq<Log>, day: Day, k: nat)
    requires k < |logs| && logs[k].date == day
    requires forall j :: 0 <= j < k ==> logs[j].date != day
    ensures forall m :: 0 <= m < |logs| && logs[m].date == day && (forall j :: 0 <= j < m ==> logs[j].date != day) ==> m == k
  {
  }

  /** The first-match lookup finds a log exactly when one is dated `day`. */
  lemma FindByDateMeansLogged(logs: seq<Log>, day: Day)
    ensures FindByDate(logs, day).Some? <==> LoggedOn(logs, day)
  {
    if FindByDate(logs, day).None? {
      assert forall i :: 0 <= i < |logs| ==> logs[i] in logs;
    } else {
      var l := FindByDate(logs, day).value;
      var i :| 0 <= i < |logs| && logs[i] == l;
    }
  }

  /** With one log per day, the checkmark shows exactly when today's log is complete. */
  lemma CheckmarkWithDistinctDates(logs: seq<Log>, today: Day, k: nat)
    requires DistinctDates(logs)
    requires k < |logs| && logs[k].date == today
    ensures ShowsCheckmark(logs, today) <==> IsLogComplete(logs[k].fields)
  {
    StatusWithDistinctDates(logs, today, k);
    FindByDateIsFirst(logs, today);
  }

  /** The marker of a week cell: ✅, 🔄 or ○. */
  function CellMarker(logs: seq<Log>, day: Day): string
  {
    match StatusOf(logs, day)
    case Complete => "\U{2705}"
    case InProgress => "\U{1F504}"
    case Empty => "\U{25CB}"
  }

  /** Each cell shows exactly one of the three markers, ○ exactly when no log
      is dated that day, and, with one log per day, ✅ or 🔄 by whether that
      day's log is complete. */
  lemma CellMarkerCases(logs: seq<Log>, day: Day)
    ensures CellMarker(logs, day) in {"\U{2705}", "\U{1F504}", "\U{25CB}"}
    ensures CellMarker(logs, day) == "\U{25CB}" <==> !LoggedOn(logs, day)
    ensures DistinctDates(logs) ==> forall k :: 0 <= k < |logs| && logs[k].date == day ==>
      CellMarker(logs, day) == (if IsLogComplete(logs[k].fields) then "\U{2705}" else "\U{1F504}")
  {
    FindByDateMeansLogged(logs, day);
    assert "\U{2705}" != "\U{25CB}" && "\U{1F504}" != "\U{25CB}";
    if DistinctDates(logs) {
      forall k | 0 <= k < |logs| && logs[k].date == day
        ensures CellMarker(logs, day) == (if IsLogComplete(logs[k].fields) then "\U{2705}" else "\U{1F504}")
      {
        StatusWithDistinctDates(logs, day, k);
      }
    }
  }

  /** `completedDays` is at most 7: with one log per day and every log inside
      the week, there are at most seven logs, let alone complete ones. */
  lemma WeekCompletedAtMostSeven(logs: seq<Log>, weekStart: Day)
    requires DistinctDates(logs)
    requires forall i :: 0 <= i < |logs| ==> InWeek(weekStart, logs[i].date)
    ensures CompletedCount(logs) <= |logs| <= 7
  {
    DistinctDatesCard(logs);
    var week := {weekStart, weekStart + 1, weekStart + 2, weekStart + 3, weekStart + 4, weekStart + 5, weekStart + 6};
    assert |week| == 7;
    assert DatesOf(logs) <= week by {
      forall d | d in DatesOf(logs) ensures d in week {
        var i :| 0 <= i < |logs| && logs[i].date == d;
        assert InWeek(weekStart, d);
      }
    }
    SubsetCard(DatesOf(logs), week);
  }

  lemma {:induction false} SubsetCard(a: set<Day>, b: set<Day>)
    requires a <= b
    ensures |a| <= |b|
    decreases |b|
  {
    if exists x :: x in a {
      var x :| x in a;
      SubsetCard(a - {x}, b - {x});
    }
  }
}
