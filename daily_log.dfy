/** The DailyLog entity behind the pages and the logs route: one record per calendar
    day, a fixed set of nullable numeric, boolean and text columns, and the
    four-field completion predicate behind the "done" indicators of the
    dashboard and the progress page. */
module DailyLog {
  import opened Wrappers

  /** A calendar date as a whole day number (time of day is discarded). */
  type Day = int

  /** The columns of a daily log other than its date, in declaration order. */
  datatype Field =
    | RestingO2Sat | RestingHr | InogenSetting | SymptomsScore
    | SeatedMarching | ShoulderRolls | DiaphragmaticBreathing | PursedLipBreathingWarmup
    | BicepCurlsDone | BicepCurlsWeight | BicepCurlsReps
    | TricepExtDone | TricepExtWeight | TricepExtReps
    | ShoulderPressDone | ShoulderPressWeight | ShoulderPressReps
    | ChestPressDone | ChestPressBand | ChestPressReps
    | SeatedRowsDone | SeatedRowsBand | SeatedRowsReps
    | SitToStandsDone | SitToStandsReps
    | LegLiftsDone | LegLiftsReps
    | MiniSquatsDone | MiniSquatsReps
    | RowingDuration | RowingAvgO2 | RowingLowO2 | RowingHr | RowingInogen
    | LightRowing | Stretching | PursedLipBreathingCooldown
    | RecoveryO2 | RecoveryHr
    | Notes

  datatype Kind = NumKind | FlagKind | TextKind

  /** A column value: `number | null`, `boolean` or `string`. */
  datatype Value = Num(n: Option<int>) | Flag(b: bool) | Text(s: string)

  /** A record's columns; a posted patch holds only the columns it sets. */
  type Fields = map<Field, Value>

  /** A record as the logs API returns it: its date key and its columns. */
  datatype Log = Log(date: Day, fields: Fields)

  function FieldKind(f: Field): Kind
  {
    match f
    case RestingO2Sat | RestingHr | InogenSetting | SymptomsScore
      | RowingDuration | RowingAvgO2 | RowingLowO2 | RowingHr | RowingInogen
      | RecoveryO2 | RecoveryHr => NumKind
    case SeatedMarching | ShoulderRolls | DiaphragmaticBreathing | PursedLipBreathingWarmup
      | BicepCurlsDone | TricepExtDone | ShoulderPressDone | ChestPressDone | SeatedRowsDone
      | SitToStandsDone | LegLiftsDone | MiniSquatsDone
      | LightRowing | Stretching | PursedLipBreathingCooldown => FlagKind
    case _ => TextKind
  }

  function KindOf(v: Value): Kind
  {
    match v
    case Num(_) => NumKind
    case Flag(_) => FlagKind
    case Text(_) => TextKind
  }

  /** Every value has the type its column declares. */
  predicate WellTyped(fs: Fields)
  {
    forall f :: f in fs ==> KindOf(fs[f]) == FieldKind(f)
  }

  const AllFields: set<Field> := {
    RestingO2Sat, RestingHr, InogenSetting, SymptomsScore,
    SeatedMarching, ShoulderRolls, DiaphragmaticBreathing, PursedLipBreathingWarmup,
    BicepCurlsDone, BicepCurlsWeight, BicepCurlsReps,
    TricepExtDone, TricepExtWeight, TricepExtReps,
    ShoulderPressDone, ShoulderPressWeight, ShoulderPressReps,
    ChestPressDone, ChestPressBand, ChestPressReps,
    SeatedRowsDone, SeatedRowsBand, SeatedRowsReps,
    SitToStandsDone, SitToStandsReps,
    LegLiftsDone, LegLiftsReps,
    MiniSquatsDone, MiniSquatsReps,
    RowingDuration, RowingAvgO2, RowingLowO2, RowingHr, RowingInogen,
    LightRowing, Stretching, PursedLipBreathingCooldown,
    RecoveryO2, RecoveryHr,
    Notes
  }

  lemma AllFieldsComplete(f: Field)
    ensures f in AllFields
  {
  }

  /** The empty value of a column: null, false or the empty string. */
  function DefaultValue(f: Field): (v: Value)
    ensures KindOf(v) == FieldKind(f)
  {
    match FieldKind(f)
    case NumKind => Num(None)
    case FlagKind => Flag(false)
    case TextKind => Text("")
  }

  /** The value of a column; a column the record does not hold reads as empty. */
  function Read(fs: Fields, f: Field): Value
  {
    if f in fs then fs[f] else DefaultValue(f)
  }

  /** JavaScript truthiness of a column value: null, 0, false and "" are falsy. */
  predicate Truthy(v: Value)
  {
    match v
    case Num(o) => o.Some? && o.value != 0
    case Flag(b) => b
    case Text(s) => s != ""
  }

  /** The four columns the completion predicate inspects. */
  const CompletionFields: set<Field> := {RestingO2Sat, SeatedMarching, BicepCurlsDone, RowingDuration}

  /** A day is complete when resting O2, seated marching, biceps curls and
      rowing duration are all truthy. */
  predicate IsLogComplete(fs: Fields)
  {
    && Truthy(Read(fs, RestingO2Sat))
    && Truthy(Read(fs, SeatedMarching))
    && Truthy(Read(fs, BicepCurlsDone))
    && Truthy(Read(fs, RowingDuration))
  }

  /** For well-typed records the predicate is exactly the documented four-field AND. */
  lemma IsLogCompleteIff(fs: Fields)
    requires WellTyped(fs)
    ensures IsLogComplete(fs) <==>
      && Read(fs, RestingO2Sat).n.Some? && Read(fs, RestingO2Sat).n.value != 0
      && Read(fs, SeatedMarching) == Flag(true)
      && Read(fs, BicepCurlsDone) == Flag(true)
      && Read(fs, RowingDuration).n.Some? && Read(fs, RowingDuration).n.value != 0
  {
    assert KindOf(Read(fs, RestingO2Sat)) == NumKind;
    assert KindOf(Read(fs, SeatedMarching)) == FlagKind;
    assert KindOf(Read(fs, BicepCurlsDone)) == FlagKind;
    assert KindOf(Read(fs, RowingDuration)) == NumKind;
  }

  /** Emptying any one of the four columns makes the record incomplete. */
  lemma DroppingAnyCompletionFieldBreaksCompletion(fs: Fields, f: Field)
    requires f in CompletionFields
    ensures !IsLogComplete(fs[f := DefaultValue(f)])
    ensures !IsLogComplete(fs - {f})
  {
  }

  /** Only the four columns matter: records agreeing on them agree on completion. */
  lemma CompletionDependsOnlyOnFourFields(a: Fields, b: Fields)
    requires forall f :: f in CompletionFields ==> Read(a, f) == Read(b, f)
    ensures IsLogComplete(a) <==> IsLogComplete(b)
  {
    assert RestingO2Sat in CompletionFields && SeatedMarching in CompletionFields;
    assert BicepCurlsDone in CompletionFields && RowingDuration in CompletionFields;
  }

  /** `logs.filter(isLogComplete)`. */
  function CompletedLogs(logs: seq<Log>): (r: seq<Log>)
    ensures |r| <= |logs|
    ensures forall l :: l in r ==> l in logs && IsLogComplete(l.fields)
    ensures forall l :: l in logs && IsLogComplete(l.fields) ==> l in r
  {
    if logs == [] then []
    else if IsLogComplete(logs[0].fields) then [logs[0]] + CompletedLogs(logs[1..])
    else CompletedLogs(logs[1..])
  }

  /** `logs.filter(isLogComplete).length`: the "Workouts Completed" total and
      the dashboard's "N of 7 days completed". */
  function CompletedCount(logs: seq<Log>): nat
  {
    |CompletedLogs(logs)|
  }

  /** The count is additive over concatenation, so it is the number of complete logs. */
  lemma {:induction false} CompletedCountAppend(a: seq<Log>, b: seq<Log>)
    ensures CompletedCount(a + b) == CompletedCount(a) + CompletedCount(b)
  {
    if a == [] {
      assert a + b == b;
    } else {
      assert (a + b)[1..] == a[1..] + b;
      CompletedCountAppend(a[1..], b);
    }
  }

  /** The count reaches the number of logs exactly when every log is complete,
      and is zero exactly when none is. */
  lemma {:induction false} CompletedCountExtremes(logs: seq<Log>)
    ensures CompletedCount(logs) <= |logs|
    ensures CompletedCount(logs) == |logs| <==> forall i :: 0 <= i < |logs| ==> IsLogComplete(logs[i].fields)
    ensures CompletedCount(logs) == 0 <==> forall i :: 0 <= i < |logs| ==> !IsLogComplete(logs[i].fields)
  {
    if logs != [] {
      CompletedCountExtremes(logs[1..]);
      assert forall i :: 1 <= i < |logs| ==> logs[i] == logs[1..][i - 1];
    }
  }

  /** `logs.find(log => isSameDay(log.date, day))`: the first log dated `day`. */
  function FindByDate(logs: seq<Log>, day: Day): (r: Option<Log>)
    ensures r.Some? ==> r.value in logs && r.value.date == day
    ensures r.None? <==> forall l :: l in logs ==> l.date != day
  {
    if logs == [] then None
    else if logs[0].date == day then Some(logs[0])
    else FindByDate(logs[1..], day)
  }

  /** The first match comes before every other log with the same date. */
  lemma {:induction false} FindByDateIsFirst(logs: seq<Log>, day: Day)
    ensures FindByDate(logs, day).Some? ==>
      exists k :: 0 <= k < |logs| && logs[k] == FindByDate(logs, day).value &&
        forall j :: 0 <= j < k ==> logs[j].date != day
  {
    if logs != [] && logs[0].date != day {
      FindByDateIsFirst(logs[1..], day);
      if FindByDate(logs, day).Some? {
        var k :| 0 <= k < |logs[1..]| && logs[1..][k] == FindByDate(logs[1..], day).value &&
          forall j :: 0 <= j < k ==> logs[1..][j].date != day;
        assert logs[k + 1] == FindByDate(logs, day).value;
        assert forall j :: 0 <= j < k + 1 ==> logs[j].date != day by {
          forall j | 0 <= j < k + 1 ensures logs[j].date != day {
            if j > 0 { assert logs[j] == logs[1..][j - 1]; }
          }
        }
      }
    }
  }

  /** The marker a calendar cell shows for a day. */
  datatype DayStatus = Complete | InProgress | Empty

  /** `completed ? '✅' : dayLog ? '🔄' : '○'` with `dayLog` the first log of the day. */
  function StatusOf(logs: seq<Log>, day: Day): DayStatus
  {
    match FindByDate(logs, day)
    case None => Empty
    case Some(l) => if IsLogComplete(l.fields) then Complete else InProgress
  }

  /** Logs whose dates are pairwise distinct: at most one log per day. */
  predicate DistinctDates(logs: seq<Log>)
  {
    forall i, j :: 0 <= i < j < |logs| ==> logs[i].date != logs[j].date
  }

  /** The set of days the logs are dated. */
  function DatesOf(logs: seq<Log>): set<Day>
  {
    set i | 0 <= i < |logs| :: logs[i].date
  }

  /** One log per day: as many dates as logs. */
  lemma {:induction false} DistinctDatesCard(logs: seq<Log>)
    requires DistinctDates(logs)
    ensures |DatesOf(logs)| == |logs|
  {
    if logs != [] {
      var tail := logs[1..];
      assert DistinctDates(tail) by {
        forall i, j | 0 <= i < j < |tail| ensures tail[i].date != tail[j].date {
          assert tail[i] == logs[i + 1] && tail[j] == logs[j + 1];
        }
      }
      DistinctDatesCard(tail);
      assert DatesOf(logs) == {logs[0].date} + DatesOf(tail) by {
        forall d | d in DatesOf(logs) ensures d in {logs[0].date} + DatesOf(tail) {
          var i :| 0 <= i < |logs| && logs[i].date == d;
          if i > 0 { assert tail[i - 1].date == d; }
        }
        forall d | d in DatesOf(tail) ensures d in DatesOf(logs) {
          var i :| 0 <= i < |tail| && tail[i].date == d;
          assert logs[i + 1].date == d;
        }
      }
      forall i | 0 <= i < |tail| ensures tail[i].date != logs[0].date {
        assert tail[i] == logs[i + 1];
      }
      assert logs[0].date !in DatesOf(tail);
    }
  }

  /** With one log per day, a cell's marker is decided by that day's log alone:
      complete when it exists and is complete, in progress when it exists and
      is not, empty when there is none. */
  lemma StatusWithDistinctDates(logs: seq<Log>, day: Day, k: nat)
    requires DistinctDates(logs)
    requires k < |logs| && logs[k].date == day
    ensures StatusOf(logs, day) == (if IsLogComplete(logs[k].fields) then Complete else InProgress)
  {
    FindByDateIsFirst(logs, day);
    var m :| 0 <= m < |logs| && logs[m] == FindByDate(logs, day).value &&
      forall j :: 0 <= j < m ==> logs[j].date != day;
    assert m == k;
  }
}
