/** The "pre-fill vitals" button of the dashboard: it reads the latest record
    and posts its four pre-exercise vitals as today's record. */
module QuickLog {
  import opened Wrappers
  import opened DailyLog
  import LogsRoute

  /** The pre-exercise vitals the button copies. */
  const VitalFields: set<Field> := {RestingO2Sat, RestingHr, InogenSetting, SymptomsScore}

  const NoPreviousWorkout: string := "No previous workout to copy from"
  const SomethingWentWrong: string := "Something went wrong"

  /** The columns of the POST body other than `date`: the four vitals of the
      previous record and nothing else. */
  function QuickFillPayload(previous: Log): (p: Fields)
    ensures p.Keys == VitalFields
    ensures forall f :: f in p ==> p[f] == Read(previous.fields, f)
    ensures !IsLogComplete(p)
  {
    map f | f in VitalFields :: Read(previous.fields, f)
  }

  /** How `fetch('/api/logs?limit=1')` ended. */
  datatype RecentOutcome = RecentOk(logs: seq<Log>) | RecentNotOk | RecentThrew

  /** How the POST of the payload ended. */
  datatype SaveOutcome = SavedOk | SavedNotOk | SaveThrew

  /** The button's state. */
  class QuickLogButton {
    var loading: bool
    var error: Option<string>

    constructor ()
      ensures !loading && error.None?
    {
      loading := false;
      error := None;
    }

    /** `loading ? 'Loading...' : 'Pre-fill vitals from last time'`; the button is disabled while loading. */
    function Label(): (t: string)
      reads this
      ensures loading ==> t == "Loading..."
      ensures !loading ==> t == "Pre-fill vitals from last time"
    {
      if loading then "Loading..." else "Pre-fill vitals from last time"
    }

    /** `handleQuickLog` for the day `today`: returns the POST it issues, if
        any, and the day whose log page it navigates to, if any. */
    method HandleQuickLog(today: Day, recent: RecentOutcome, save: SaveOutcome)
      returns (post: Option<LogsRoute.Post>, navigateTo: Option<Day>)
      modifies this
      ensures !loading
      ensures !recent.RecentOk? ==>
        post.None? && navigateTo.None? && error == Some(SomethingWentWrong)
      ensures recent.RecentOk? && |recent.logs| == 0 ==>
        post.None? && navigateTo.None? && error == Some(NoPreviousWorkout)
      ensures recent.RecentOk? && |recent.logs| > 0 ==>
        post == Some(LogsRoute.Post(today, QuickFillPayload(recent.logs[0])))
      ensures recent.RecentOk? && |recent.logs| > 0 && save == SavedOk ==>
        navigateTo == Some(today) && error.None?
      ensures recent.RecentOk? && |recent.logs| > 0 && save != SavedOk ==>
        navigateTo.None? && error == Some(SomethingWentWrong)
    {
      loading := true;
      error := None;
      post, navigateTo := None, None;
      if !recent.RecentOk? {
        error := Some(SomethingWentWrong);
        loading := false;
        return;
      }
      var recentLogs := recent.logs;
      if |recentLogs| == 0 {
        error := Some(NoPreviousWorkout);
        loading := false;
        return;
      }
      var previousLog := recentLogs[0];
      post := Some(LogsRoute.Post(today, QuickFillPayload(previousLog)));
      if save == SavedOk {
        navigateTo := Some(today);
      } else {
        error := Some(SomethingWentWrong);
      }
      loading := false;
    }
  }

  /** Upserting the payload into today's record overwrites just the four
      vitals with the previous record's; every exercise column and the notes
      keep what today's record held, and no other day changes. */
  lemma QuickFillKeepsTheRest(rows: map<Day, Fields>, today: Day, previous: Log)
    ensures var after := LogsRoute.Upsert(rows, today, QuickFillPayload(previous));
      var before := if today in rows then rows[today] else map[];
      && today in after
      && (forall f :: f in VitalFields ==> Read(after[today], f) == Read(previous.fields, f))
      && (forall f :: f !in VitalFields ==> Read(after[today], f) == Read(before, f))
      && (forall d :: d != today ==> (d in after <==> d in rows) && (d in rows ==> after[d] == rows[d]))
  {
  }

  /** The record copied from is the latest one stored: the logs route ignores
      `limit` and lists every record latest first. */
  lemma QuickFillCopiesLatest(rows: map<Day, Fields>, d: Day)
    requires d in rows
    ensures var recent := LogsRoute.FindMany(rows, None);
      && |recent| > 0
      && recent[0].date in rows
      && (forall e :: e in rows ==> e <= recent[0].date)
      && (forall f :: f in VitalFields ==>
            QuickFillPayload(recent[0])[f] == Read(rows[recent[0].date], f))
  {
    LogsRoute.LatestFirst(rows, d);
  }
}
