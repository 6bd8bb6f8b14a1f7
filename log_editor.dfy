/** The daily-log editor: the form state for one date, seeded with empty
    values, overlaid with the stored record when one is found, edited one
    column at a time (numbers through − / + steppers) and posted whole. */
module LogEditor {
  import opened Wrappers
  import opened DailyLog
  import LogsRoute

  /** `defaultLog`: every column present and empty. */
  function DefaultFields(): (fs: Fields)
    ensures fs.Keys == AllFields && forall f :: f in fs
    ensures WellTyped(fs)
    ensures forall f :: f in fs ==> !Truthy(fs[f])
    ensures forall f :: f in fs && FieldKind(f) == NumKind ==> fs[f] == Num(None)
    ensures forall f :: f in fs && FieldKind(f) == FlagKind ==> fs[f] == Flag(false)
    ensures forall f :: f in fs && FieldKind(f) == TextKind ==> fs[f] == Text("")
    ensures !IsLogComplete(fs)
  {
    var fs := map f | f in AllFields :: DefaultValue(f);
    assert forall f :: f in fs ==> fs[f] == DefaultValue(f) && KindOf(fs[f]) == FieldKind(f);
    assert forall f :: f in fs by {
      forall f ensures f in fs { AllFieldsComplete(f); }
    }
    fs
  }

  /** The empty form holds every column. */
  lemma DefaultFieldsHoldEveryColumn()
    ensures forall f :: f in DefaultFields()
  {
  }

  /** The − button: `Math.max(min, (value ?? min) - 1)`. */
  function Decrement(value: Option<int>, lo: int): (r: int)
    ensures r >= lo
    ensures value.Some? && value.value - 1 >= lo ==> r == value.value - 1
    ensures value.Some? && value.value - 1 < lo ==> r == lo
    ensures value.None? ==> r == lo
  {
    var v := if value.Some? then value.value else lo;
    if v - 1 > lo then v - 1 else lo
  }

  /** The + button: `Math.min(max, (value ?? min) + 1)`. */
  function Increment(value: Option<int>, lo: int, hi: int): (r: int)
    ensures r <= hi
    ensures value.Some? && value.value + 1 <= hi ==> r == value.value + 1
    ensures value.Some? && value.value >= hi ==> r == hi
    ensures value.None? ==> r == if lo + 1 <= hi then lo + 1 else hi
  {
    var v := if value.Some? then value.value else lo;
    if v + 1 < hi then v + 1 else hi
  }

  /** Inside the range the two buttons undo each other. */
  lemma StepsUndoEachOther(v: int, lo: int, hi: int)
    requires lo <= v <= hi
    ensures v < hi ==> Decrement(Some(Increment(Some(v), lo, hi)), lo) == v
    ensures lo < v ==> Increment(Some(Decrement(Some(v), lo)), lo, hi) == v
  {
  }

  /** Once inside the range, stepping never leaves it. */
  lemma StepsStayInRange(value: Option<int>, lo: int, hi: int)
    requires lo < hi
    requires value.Some? ==> lo <= value.value <= hi
    ensures lo <= Decrement(value, lo) <= hi
    ensures lo <= Increment(value, lo, hi) <= hi
  {
  }

  /** The `min` and `max` of the stepper each numeric column is edited with. */
  function StepperRange(f: Field): (r: (int, int))
    requires FieldKind(f) == NumKind
    ensures r.0 < r.1
  {
    match f
    case RestingO2Sat | RowingAvgO2 | RowingLowO2 | RecoveryO2 => (70, 100)
    case RestingHr | RecoveryHr => (40, 150)
    case RowingHr => (40, 180)
    case InogenSetting | RowingInogen => (1, 6)
    case SymptomsScore => (0, 10)
    case RowingDuration => (0, 60)
  }

  /** How the request for the day's record ended. */
  datatype FetchOutcome = Received(logs: seq<Log>) | NotOk | Threw

  /** How the POST of the form ended. */
  datatype SaveOutcome = SaveOk | SaveNotOk | SaveThrew

  /** `{ ...defaultLog, ...existingLog, date: dateParam }`. */
  function Overlay(dateParam: Day, existing: Log): (l: Log)
    ensures l.date == dateParam
    ensures l.fields.Keys == AllFields && forall f :: f in l.fields
    ensures forall f :: f in existing.fields ==> l.fields[f] == existing.fields[f]
    ensures forall f :: f !in existing.fields ==> l.fields[f] == DefaultValue(f)
  {
    var fs := DefaultFields() + existing.fields;
    assert fs.Keys == AllFields by {
      forall f | f in fs ensures f in AllFields { AllFieldsComplete(f); }
    }
    assert forall f :: f in fs by {
      forall f ensures f in fs { AllFieldsComplete(f); }
    }
    Log(dateParam, fs)
  }

  /** The overlay keeps the stored record's values and types: for a
      well-typed stored record the form reads exactly like it. */
  lemma OverlayReadsLikeStored(dateParam: Day, existing: Log)
    requires WellTyped(existing.fields)
    ensures WellTyped(Overlay(dateParam, existing).fields)
    ensures forall f :: Read(Overlay(dateParam, existing).fields, f) == Read(existing.fields, f)
    ensures IsLogComplete(Overlay(dateParam, existing).fields) <==> IsLogComplete(existing.fields)
  {
    var l := Overlay(dateParam, existing);
    forall f ensures f in l.fields && Read(l.fields, f) == Read(existing.fields, f)
      && KindOf(l.fields[f]) == FieldKind(f)
    {
      OverlayAt(dateParam, existing, f);
    }
    CompletionDependsOnlyOnFourFields(l.fields, existing.fields);
  }

  /** One column of the overlay: the stored value, or the empty one. */
  lemma OverlayAt(dateParam: Day, existing: Log, f: Field)
    requires WellTyped(existing.fields)
    ensures var l := Overlay(dateParam, existing);
      f in l.fields && Read(l.fields, f) == Read(existing.fields, f) && KindOf(l.fields[f]) == FieldKind(f)
  {
    var l := Overlay(dateParam, existing);
    assert f in l.fields;
    if f in existing.fields {
      assert l.fields[f] == existing.fields[f];
    } else {
      assert l.fields[f] == DefaultValue(f);
    }
  }

  /** The page asks for `startDate=date&endDate=date`, which the logs route
      turns into an inclusive one-day filter: the reply is that day's stored
      record, or no record when none is stored, so `logs[0]` is the stored one. */
  lemma FetchFindsTheDaysRecord(rows: map<Day, Fields>, d: Day)
    ensures LogsRoute.FindMany(rows, Some(LogsRoute.DateFilter(Some(d), Some(d)))) ==
      if d in rows then [Log(d, rows[d])] else []
  {
    var r := LogsRoute.FindMany(rows, Some(LogsRoute.DateFilter(Some(d), Some(d))));
    assert forall i :: 0 <= i < |r| ==> r[i].date == d;
    var dates := DatesOf(r);
    assert DistinctDates(r);
    DistinctDatesCard(r);
    if d in dates {
      assert dates == {d};
    } else {
      assert dates == {};
    }
    if d in rows {
      assert LogsRoute.Matches(Some(LogsRoute.DateFilter(Some(d), Some(d))), d);
      var i :| 0 <= i < |r| && r[i].date == d;
      assert r == [Log(d, rows[d])];
    }
  }

  /** Saving posts the whole form, so the stored record of that day becomes
      exactly the form's columns, whatever was stored before. */
  lemma SaveReplacesRecord(rows: map<Day, Fields>, form: Log)
    requires form.fields.Keys == AllFields
    ensures LogsRoute.Upsert(rows, form.date, form.fields)[form.date] == form.fields
  {
    var before := if form.date in rows then rows[form.date] else map[];
    var after := before + form.fields;
    assert after.Keys == form.fields.Keys by {
      forall f | f in after ensures f in form.fields { AllFieldsComplete(f); }
    }
  }

  /** The form of the log page for the date of its URL. */
  class LogForm {
    const dateParam: Day
    var log: Log
    var saving: bool
    var saved: bool

    /** The form always holds every column and the URL's date. */
    predicate Valid()
      reads this
    {
      log.date == dateParam && forall f :: f in log.fields
    }

    /** `useState({ ...defaultLog, date: dateParam })`. */
    constructor (date: Day)
      ensures dateParam == date
      ensures log == Log(date, DefaultFields())
      ensures !saving && !saved
      ensures Valid()
    {
      dateParam := date;
      log := Log(date, DefaultFields());
      saving := false;
      saved := false;
      DefaultFieldsHoldEveryColumn();
    }

    /** `updateLog(key, value)`; the value has the column's declared type. */
    method UpdateLog(key: Field, value: Value)
      requires Valid()
      requires KindOf(value) == FieldKind(key)
      modifies this
      ensures log == Log(old(log.date), old(log.fields)[key := value])
      ensures Read(log.fields, key) == value
      ensures forall f :: f != key ==> Read(log.fields, f) == Read(old(log.fields), f)
      ensures saving == old(saving) && saved == old(saved)
      ensures Valid()
    {
      log := log.(fields := log.fields[key := value]);
    }

    /** The − button of a numeric column's stepper. */
    method StepDown(key: Field)
      requires Valid()
      requires FieldKind(key) == NumKind && Read(log.fields, key).Num?
      modifies this
      ensures log == Log(old(log.date), old(log.fields)[key := Num(Some(
        Decrement(Read(old(log.fields), key).n, StepperRange(key).0)))])
      ensures Read(log.fields, key).n.value >= StepperRange(key).0
      ensures saving == old(saving) && saved == old(saved)
      ensures Valid()
    {
      var (lo, _) := StepperRange(key);
      UpdateLog(key, Num(Some(Decrement(Read(log.fields, key).n, lo))));
    }

    /** The + button of a numeric column's stepper. */
    method StepUp(key: Field)
      requires Valid()
      requires FieldKind(key) == NumKind && Read(log.fields, key).Num?
      modifies this
      ensures log == Log(old(log.date), old(log.fields)[key := Num(Some(
        Increment(Read(old(log.fields), key).n, StepperRange(key).0, StepperRange(key).1)))])
      ensures Read(log.fields, key).n.value <= StepperRange(key).1
      ensures saving == old(saving) && saved == old(saved)
      ensures Valid()
    {
      var (lo, hi) := StepperRange(key);
      UpdateLog(key, Num(Some(Increment(Read(log.fields, key).n, lo, hi))));
    }

    /** The end of `fetchLog`: only an ok reply with at least one record
        replaces the form, by the overlay of its first record. */
    method ApplyFetch(outcome: FetchOutcome)
      requires Valid()
      modifies this
      ensures outcome.Received? && |outcome.logs| > 0 ==> log == Overlay(dateParam, outcome.logs[0])
      ensures !(outcome.Received? && |outcome.logs| > 0) ==> log == old(log)
      ensures saving == old(saving) && saved == old(saved)
      ensures Valid()
    {
      if outcome.Received? {
        var logs := outcome.logs;
        if |logs| > 0 {
          var existingLog := logs[0];
          log := Overlay(dateParam, existingLog);
        }
      }
    }

    /** `handleSave`: posts the whole form; `saved` turns on only after an ok
        reply, and `saving` is off on every path. */
    method HandleSave(outcome: SaveOutcome) returns (posted: Log)
      requires Valid()
      modifies this
      ensures posted == log && log == old(log)
      ensures posted.date == dateParam && forall f :: f in posted.fields
      ensures !saving
      ensures saved == (old(saved) || outcome == SaveOk)
      ensures Valid()
    {
      saving := true;
      posted := log;
      if outcome == SaveOk {
        saved := true;
      }
      saving := false;
    }
  }

  /** Opening the page: the form starts empty for the URL's date and keeps
      that state unless the day's record arrives. */
  method OpenPage(date: Day, outcome: FetchOutcome) returns (form: LogForm)
    ensures fresh(form) && form.Valid() && !form.saving && !form.saved
    ensures outcome.Received? && |outcome.logs| > 0 ==> form.log == Overlay(date, outcome.logs[0])
    ensures !(outcome.Received? && |outcome.logs| > 0) ==> form.log == Log(date, DefaultFields())
  {
    form := new LogForm(date);
    form.ApplyFetch(outcome);
  }
}
