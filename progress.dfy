/** The progress page: the day streak, the completed-workouts total, the
    monthly calendar markers and the trend-chart series, all derived from the
    logs of the last three months. */
module Progress {
  import opened Wrappers
  import opened DailyLog

  datatype Order = Ascending | Descending

  /** `a` may stand before `b` in the given date order. */
  predicate InOrder(o: Order, a: Day, b: Day)
  {
    if o == Ascending then a <= b else a >= b
  }

  predicate Sorted(s: seq<Log>, o: Order)
  {
    forall i, j :: 0 <= i < j < |s| ==> InOrder(o, s[i].date, s[j].date)
  }

  /** Inserts `x` in front of the first element it may precede; so an earlier
      element stays ahead of later ones of the same date (the sort is stable). */
  function Insert(x: Log, s: seq<Log>, o: Order): seq<Log>
  {
    if s == [] || InOrder(o, x.date, s[0].date) then [x] + s
    else [s[0]] + Insert(x, s[1..], o)
  }

  /** Insertion adds exactly `x`. */
  lemma {:induction false} InsertContents(x: Log, s: seq<Log>, o: Order)
    ensures |Insert(x, s, o)| == |s| + 1
    ensures multiset(Insert(x, s, o)) == multiset(s) + multiset{x}
    ensures forall y :: y in Insert(x, s, o) ==> y == x || y in s
  {
    if !(s == [] || InOrder(o, x.date, s[0].date)) {
      var tail := s[1..];
      InsertContents(x, tail, o);
      var t := Insert(x, tail, o);
      assert Insert(x, s, o) == [s[0]] + t;
      assert s == [s[0]] + tail;
    }
  }

  /** A list's tail keeps its order and its distinct dates. */
  lemma TailKeeps(s: seq<Log>, o: Order)
    requires |s| > 0
    ensures Sorted(s, o) ==> Sorted(s[1..], o)
    ensures DistinctDates(s) ==> DistinctDates(s[1..])
  {
    var tail := s[1..];
    assert forall i :: 0 <= i < |tail| ==> tail[i] == s[i + 1];
  }

  /** Insertion keeps a sorted list sorted. */
  lemma {:induction false} InsertSorted(x: Log, s: seq<Log>, o: Order)
    requires Sorted(s, o)
    ensures Sorted(Insert(x, s, o), o)
  {
    if !(s == [] || InOrder(o, x.date, s[0].date)) {
      var tail := s[1..];
      TailKeeps(s, o);
      InsertSorted(x, tail, o);
      InsertContents(x, tail, o);
      var t := Insert(x, tail, o);
      var r := [s[0]] + t;
      assert Insert(x, s, o) == r;
      forall j | 0 < j < |r| ensures InOrder(o, s[0].date, r[j].date) {
        assert r[j] == t[j - 1] && r[j] in t;
        if r[j] != x {
          var k :| 0 <= k < |tail| && tail[k] == r[j];
          assert s[k + 1] == r[j];
        }
      }
      forall i, j | 0 <= i < j < |r| ensures InOrder(o, r[i].date, r[j].date) {
        if i > 0 {
          assert r[i] == t[i - 1] && r[j] == t[j - 1];
        }
      }
    }
  }

  /** `[...logs].sort((a, b) => a.date - b.date)` (or `b.date - a.date`): a stable sort by date. */
  function SortByDate(logs: seq<Log>, o: Order): (r: seq<Log>)
    ensures |r| == |logs|
    ensures Sorted(r, o)
    ensures multiset(r) == multiset(logs)
  {
    if logs == [] then []
    else
      var t := SortByDate(logs[1..], o);
      InsertContents(logs[0], t, o);
      InsertSorted(logs[0], t, o);
      assert logs == [logs[0]] + logs[1..];
      Insert(logs[0], t, o)
  }

  /** Every member of a permutation is a member of the original. */
  lemma PermutationMembers(a: seq<Log>, b: seq<Log>)
    requires multiset(a) == multiset(b)
    ensures forall x :: x in a <==> x in b
  {
    forall x ensures x in a <==> x in b {
      if x in a { assert x in multiset(a); assert x in multiset(b); }
      if x in b { assert x in multiset(b); assert x in multiset(a); }
    }
  }

  /** Sorting keeps dates pairwise distinct. */
  lemma {:induction false} SortKeepsDistinct(logs: seq<Log>, o: Order)
    requires DistinctDates(logs)
    ensures DistinctDates(SortByDate(logs, o))
  {
    if logs != [] {
      var tail := logs[1..];
      TailKeeps(logs, o);
      SortKeepsDistinct(tail, o);
      var st := SortByDate(tail, o);
      PermutationMembers(st, tail);
      assert forall y :: y in st ==> y.date != logs[0].date by {
        forall y | y in st ensures y.date != logs[0].date {
          assert y in tail;
          var k :| 0 <= k < |tail| && tail[k] == y;
          assert logs[k + 1] == y;
        }
      }
      InsertKeepsDistinct(logs[0], st, o);
    }
  }

  lemma {:induction false} InsertKeepsDistinct(x: Log, s: seq<Log>, o: Order)
    requires DistinctDates(s)
    requires forall y :: y in s ==> y.date != x.date
    ensures DistinctDates(Insert(x, s, o))
  {
    if !(s == [] || InOrder(o, x.date, s[0].date)) {
      var tail := s[1..];
      TailKeeps(s, o);
      InsertKeepsDistinct(x, tail, o);
      InsertContents(x, tail, o);
      var t := Insert(x, tail, o);
      var r := [s[0]] + t;
      assert Insert(x, s, o) == r;
      forall j | 1 <= j < |r| ensures r[j].date != s[0].date {
        assert r[j] in t;
        if r[j] != x {
          assert r[j] in tail;
          var k :| 0 <= k < |tail| && tail[k] == r[j];
          assert s[k + 1] == r[j];
        }
      }
    }
  }

  /** Two date-sorted lists with the same logs and distinct dates are equal:
      for distinct dates the sort does not depend on the input order. */
  lemma {:induction false} SortedUnique(a: seq<Log>, b: seq<Log>, o: Order)
    requires Sorted(a, o) && Sorted(b, o)
    requires DistinctDates(a) && DistinctDates(b)
    requires multiset(a) == multiset(b)
    ensures a == b
    decreases |a|
  {
    assert |a| == |multiset(a)| == |b|;
    if a != [] {
      SortedHeads(a, b, o);
      TailKeeps(a, o);
      TailKeeps(b, o);
      SortedUnique(a[1..], b[1..], o);
      assert a == [a[0]] + a[1..] && b == [b[0]] + b[1..];
    }
  }

  /** Two non-empty date-sorted permutations with distinct dates share their
      head, and so their tails are permutations of each other. */
  lemma SortedHeads(a: seq<Log>, b: seq<Log>, o: Order)
    requires |a| > 0 && |a| == |b|
    requires Sorted(a, o) && Sorted(b, o)
    requires DistinctDates(a) && DistinctDates(b)
    requires multiset(a) == multiset(b)
    ensures a[0] == b[0]
    ensures multiset(a[1..]) == multiset(b[1..])
  {
    SameHead(a, b, o);
    TailMultiset(a);
    TailMultiset(b);
  }

  /** The head of such a permutation is fixed by the order. */
  lemma SameHead(a: seq<Log>, b: seq<Log>, o: Order)
    requires |a| > 0 && |a| == |b|
    requires Sorted(a, o) && Sorted(b, o)
    requires DistinctDates(a) && DistinctDates(b)
    requires multiset(a) == multiset(b)
    ensures a[0] == b[0]
  {
    PermutationMembers(a, b);
    assert a[0] in b && b[0] in a;
    var k :| 0 <= k < |b| && b[k] == a[0];
    var m :| 0 <= m < |a| && a[m] == b[0];
    assert InOrder(o, a[0].date, a[m].date) || m == 0;
    assert InOrder(o, b[0].date, b[k].date) || k == 0;
  }

  /** Dropping the head removes exactly one occurrence of it. */
  lemma TailMultiset(s: seq<Log>)
    requires |s| > 0
    ensures multiset(s[1..]) == multiset(s) - multiset{s[0]}
  {
    assert s == [s[0]] + s[1..];
  }

  /** The first element of the descending sort is a log of the latest date. */
  lemma LatestFirst(logs: seq<Log>, k: nat)
    requires k < |logs|
    ensures |SortByDate(logs, Descending)| == |logs|
    ensures logs[k].date <= SortByDate(logs, Descending)[0].date
  {
    var s := SortByDate(logs, Descending);
    PermutationMembers(s, logs);
    assert logs[k] in s;
    var m :| 0 <= m < |s| && s[m] == logs[k];
    assert m == 0 || InOrder(Descending, s[0].date, s[m].date);
  }

  // ---------------------------------------------------------------- streak

  /** Whether the walk of `calculateStreak` goes on past position `i` of the
      descending list `s`: the log is dated `today - i` and complete, or it is
      the first log, not dated today, dated yesterday and complete. */
  predicate Qualifies(s: seq<Log>, today: Day, i: nat)
    requires i < |s|
  {
    || (s[i].date == today - i && IsLogComplete(s[i].fields))
    || (i == 0 && s[0].date != today && s[0].date == today - 1 && IsLogComplete(s[0].fields))
  }

  /** The length of the run of qualifying positions that starts at `i`. */
  function RunFrom(s: seq<Log>, today: Day, i: nat): nat
    decreases |s| - i
  {
    if i < |s| && Qualifies(s, today, i) then 1 + RunFrom(s, today, i + 1) else 0
  }

  /** The streak the page shows, for the logs in any order. */
  function Streak(logs: seq<Log>, today: Day): nat
  {
    RunFrom(SortByDate(logs, Descending), today, 0)
  }

  /** The run from `i` is the longest stretch of qualifying positions from `i`. */
  lemma {:induction false} RunFromSpec(s: seq<Log>, today: Day, i: nat)
    requires i <= |s|
    ensures i + RunFrom(s, today, i) <= |s|
    ensures forall j :: i <= j < i + RunFrom(s, today, i) ==> Qualifies(s, today, j)
    ensures i + RunFrom(s, today, i) < |s| ==> !Qualifies(s, today, i + RunFrom(s, today, i))
    decreases |s| - i
  {
    if i < |s| && Qualifies(s, today, i) {
      RunFromSpec(s, today, i + 1);
    }
  }

  /** The longest qualifying prefix is unique: any `k` with all positions
      below it qualifying and position `k` not qualifying is the run length. */
  lemma {:induction false} RunFromIsLongestPrefix(s: seq<Log>, today: Day, i: nat, k: nat)
    requires i <= k <= |s|
    requires forall j :: i <= j < k ==> Qualifies(s, today, j)
    requires k < |s| ==> !Qualifies(s, today, k)
    ensures RunFrom(s, today, i) == k - i
    decreases k - i
  {
    if i < k {
      RunFromIsLongestPrefix(s, today, i + 1, k);
    }
  }

  /** `calculateStreak(logs)`, with the reference day passed in. */
  method CalculateStreak(logs: seq<Log>, today: Day) returns (streak: nat)
    ensures streak == Streak(logs, today)
    ensures streak <= |logs|
    ensures var s := SortByDate(logs, Descending);
      && (forall j :: 0 <= j < streak ==> Qualifies(s, today, j))
      && (streak < |logs| ==> !Qualifies(s, today, streak))
  {
    var sortedLogs := SortByDate(logs, Descending);
    streak := 0;
    for i := 0 to |sortedLogs|
      invariant streak == i
      invariant forall j :: 0 <= j < i ==> Qualifies(sortedLogs, today, j)
    {
      var logDate := sortedLogs[i].date;
      var expectedDate := today - i;
      if logDate == expectedDate && IsLogComplete(sortedLogs[i].fields) {
        streak := streak + 1;
      } else if i == 0 && logDate != today {
        var yesterday := today - 1;
        if logDate == yesterday && IsLogComplete(sortedLogs[i].fields) {
          streak := streak + 1;
        } else {
          break;
        }
      } else {
        break;
      }
    }
    RunFromIsLongestPrefix(sortedLogs, today, 0, streak);
  }

  /** The streak is between zero and the number of logs. */
  lemma StreakBounded(logs: seq<Log>, today: Day)
    ensures Streak(logs, today) <= |logs|
  {
    RunFromSpec(SortByDate(logs, Descending), today, 0);
  }

  /** With one log per day, the streak does not depend on the order of the logs. */
  lemma StreakOrderIndependent(a: seq<Log>, b: seq<Log>, today: Day)
    requires DistinctDates(a) && DistinctDates(b)
    requires multiset(a) == multiset(b)
    ensures Streak(a, today) == Streak(b, today)
  {
    SortKeepsDistinct(a, Descending);
    SortKeepsDistinct(b, Descending);
    SortedUnique(SortByDate(a, Descending), SortByDate(b, Descending), Descending);
  }

  /** When the latest log is dated today, the streak is the longest prefix of
      the descending list whose i-th log is dated `today - i` and is complete. */
  lemma StreakFromToday(logs: seq<Log>, today: Day)
    requires |logs| > 0
    requires SortByDate(logs, Descending)[0].date == today
    ensures var s, k := SortByDate(logs, Descending), Streak(logs, today);
      && k <= |s|
      && (forall j :: 0 <= j < k ==> s[j].date == today - j && IsLogComplete(s[j].fields))
      && (k < |s| ==> !(s[k].date == today - k && IsLogComplete(s[k].fields)))
  {
    var s := SortByDate(logs, Descending);
    RunFromSpec(s, today, 0);
    forall j | 0 <= j < Streak(logs, today)
      ensures s[j].date == today - j && IsLogComplete(s[j].fields)
    {
      assert Qualifies(s, today, j);
    }
  }

  /** With one log per day and no log dated today at the head, the streak is
      one exactly when the latest log is dated yesterday and complete, zero
      otherwise: it never exceeds one, however many days before yesterday
      were completed. */
  lemma StreakWithoutTodayAtMostOne(logs: seq<Log>, today: Day)
    requires DistinctDates(logs)
    requires |logs| > 0
    requires SortByDate(logs, Descending)[0].date != today
    ensures Streak(logs, today) <= 1
    ensures var latest := SortByDate(logs, Descending)[0];
      Streak(logs, today) == 1 <==> latest.date == today - 1 && IsLogComplete(latest.fields)
  {
    var s := SortByDate(logs, Descending);
    SortKeepsDistinct(logs, Descending);
    if 1 < |s| {
      assert s[1].date != s[0].date;
      assert InOrder(Descending, s[0].date, s[1].date);
    }
    RunWithoutTodayAtMostOne(s, today);
  }

  /** The same on a list whose first two dates strictly decrease. */
  lemma RunWithoutTodayAtMostOne(s: seq<Log>, today: Day)
    requires |s| > 0 && s[0].date != today
    requires 1 < |s| ==> s[1].date < s[0].date
    ensures RunFrom(s, today, 0) <= 1
    ensures RunFrom(s, today, 0) == 1 <==> s[0].date == today - 1 && IsLogComplete(s[0].fields)
  {
    assert Qualifies(s, today, 0) <==> s[0].date == today - 1 && IsLogComplete(s[0].fields);
    if Qualifies(s, today, 0) {
      if 1 < |s| {
        assert !Qualifies(s, today, 1);
      }
      assert RunFrom(s, today, 1) == 0;
    }
  }

  /** With one log per day, an incomplete log dated today forces the streak to zero. */
  lemma IncompleteTodayForcesZero(logs: seq<Log>, today: Day, k: nat)
    requires DistinctDates(logs)
    requires k < |logs| && logs[k].date == today && !IsLogComplete(logs[k].fields)
    ensures Streak(logs, today) == 0
  {
    var s := SortByDate(logs, Descending);
    SortKeepsDistinct(logs, Descending);
    LatestFirst(logs, k);
    PermutationMembers(s, logs);
    assert logs[k] in s;
    var m :| 0 <= m < |s| && s[m] == logs[k];
    if s[0].date == today {
      assert m == 0;
    }
    assert !Qualifies(s, today, 0);
  }

  // --------------------------------------------- the streak as intended

  /** The intended streak: counted back from today when the latest log is
      dated today, and from yesterday otherwise. */
  function IntendedStreak(logs: seq<Log>, today: Day): nat
  {
    var s := SortByDate(logs, Descending);
    var anchor := if |s| > 0 && s[0].date == today then today else today - 1;
    RunBack(s, anchor, 0)
  }

  /** The run of complete logs dated `anchor - i`, `anchor - i - 1`, ... from position `i`. */
  function RunBack(s: seq<Log>, anchor: Day, i: nat): nat
    decreases |s| - i
  {
    if i < |s| && s[i].date == anchor - i && IsLogComplete(s[i].fields) then 1 + RunBack(s, anchor, i + 1) else 0
  }

  lemma {:induction false} RunBackCovers(s: seq<Log>, anchor: Day, i: nat, k: nat)
    requires i <= k <= |s|
    requires forall j :: i <= j < k ==> s[j].date == anchor - j && IsLogComplete(s[j].fields)
    ensures RunBack(s, anchor, i) >= k - i
    decreases k - i
  {
    if i < k {
      RunBackCovers(s, anchor, i + 1, k);
    }
  }

  /** Some log of the list is dated `day` and complete. */
  predicate CompleteOn(logs: seq<Log>, day: Day)
  {
    exists i :: 0 <= i < |logs| && logs[i].date == day && IsLogComplete(logs[i].fields)
  }

  /** With one log per day, none dated today or later, and a complete log on
      each of the `k` days before today, the descending sort starts with those
      `k` logs, latest first. */
  lemma SortedPrefixFromYesterday(logs: seq<Log>, today: Day, k: nat)
    requires DistinctDates(logs)
    requires forall i :: 0 <= i < |logs| ==> logs[i].date < today
    requires forall d :: today - k <= d < today ==> CompleteOn(logs, d)
    ensures k <= |SortByDate(logs, Descending)|
    ensures forall j :: 0 <= j < k ==>
      SortByDate(logs, Descending)[j].date == today - 1 - j && IsLogComplete(SortByDate(logs, Descending)[j].fields)
  {
    var s := SortByDate(logs, Descending);
    SortKeepsDistinct(logs, Descending);
    PermutationMembers(s, logs);
    forall i | 0 <= i < |s| ensures s[i].date < today {
      assert s[i] in logs;
    }
    forall i, j | 0 <= i < j < |s| ensures s[i].date > s[j].date {
      assert InOrder(Descending, s[i].date, s[j].date);
    }
    forall d | today - k <= d < today ensures CompleteOn(s, d) {
      assert CompleteOn(logs, d);
      var i :| 0 <= i < |logs| && logs[i].date == d && IsLogComplete(logs[i].fields);
      assert logs[i] in s;
      var p :| 0 <= p < |s| && s[p] == logs[i];
    }
    PrefixAligned(s, today, k);
  }

  /** The intended streak: with one log per day, no log dated today or later,
      and a complete log on each of the `k` days before today, the streak is
      at least `k`. */
  lemma IntendedStreakCountsBackFromYesterday(logs: seq<Log>, today: Day, k: nat)
    requires DistinctDates(logs)
    requires forall i :: 0 <= i < |logs| ==> logs[i].date < today
    requires forall d :: today - k <= d < today ==> CompleteOn(logs, d)
    ensures IntendedStreak(logs, today) >= k
  {
    if k > 0 {
      var s := SortByDate(logs, Descending);
      SortedPrefixFromYesterday(logs, today, k);
      assert s[0].date == today - 1;
      assert IntendedStreak(logs, today) == RunBack(s, today - 1, 0);
      RunBackCovers(s, today - 1, 0, k);
    }
  }

  /** The page's streak on the same input: one as soon as yesterday was
      completed, however many earlier days were, while the intended streak
      counts them all. */
  lemma StreakUndercountsFromYesterday(logs: seq<Log>, today: Day, k: nat)
    requires DistinctDates(logs)
    requires forall i :: 0 <= i < |logs| ==> logs[i].date < today
    requires forall d :: today - k <= d < today ==> CompleteOn(logs, d)
    requires k >= 1
    ensures Streak(logs, today) == 1
    ensures IntendedStreak(logs, today) >= k
  {
    SortedPrefixFromYesterday(logs, today, k);
    StreakWithoutTodayAtMostOne(logs, today);
    IntendedStreakCountsBackFromYesterday(logs, today, k);
  }

  /** A complete record: the four completion columns set. */
  const CompleteFields: Fields := map[
    RestingO2Sat := Num(Some(95)), SeatedMarching := Flag(true),
    BicepCurlsDone := Flag(true), RowingDuration := Num(Some(10))]

  /** A complete log on each of the `n` days before `today`, latest first. */
  function CompletedDaysBefore(today: Day, n: nat): (r: seq<Log>)
    ensures |r| == n
    ensures forall i :: 0 <= i < n ==> r[i] == Log(today - 1 - i, CompleteFields)
    decreases n
  {
    if n == 0 then [] else [Log(today - 1, CompleteFields)] + CompletedDaysBefore(today - 1, n - 1)
  }

  /** Complete workouts on each of the `n` days before today, none yet today:
      the page shows a streak of 1 where the intended streak is `n`. */
  lemma CompletedDaysBeforeTodayShowOne(today: Day, n: nat)
    requires n >= 1
    ensures Streak(CompletedDaysBefore(today, n), today) == 1
    ensures IntendedStreak(CompletedDaysBefore(today, n), today) == n
  {
    var logs := CompletedDaysBefore(today, n);
    assert IsLogComplete(CompleteFields);
    forall d | today - n <= d < today ensures CompleteOn(logs, d) {
      assert logs[today - 1 - d].date == d;
    }
    StreakUndercountsFromYesterday(logs, today, n);
    SortedPrefixFromYesterday(logs, today, n);
    var s := SortByDate(logs, Descending);
    assert s[0].date == today - 1;
    RunBackAtMost(s, today - 1, 0);
  }

  /** The smallest case of the above: five completed days show a streak of 1. */
  lemma FiveDaysBeforeTodayShowOne(today: Day)
    ensures Streak(CompletedDaysBefore(today, 5), today) == 1
    ensures IntendedStreak(CompletedDaysBefore(today, 5), today) == 5
  {
    CompletedDaysBeforeTodayShowOne(today, 5);
  }

  lemma {:induction false} RunBackAtMost(s: seq<Log>, anchor: Day, i: nat)
    requires i <= |s|
    ensures RunBack(s, anchor, i) <= |s| - i
    decreases |s| - i
  {
    if i < |s| {
      RunBackAtMost(s, anchor, i + 1);
    }
  }

  /** In a strictly descending list of days before today that holds a complete
      log on each of the `k` days before today, those logs take the first `k`
      positions, latest first. */
  lemma {:induction false} PrefixAligned(s: seq<Log>, today: Day, k: nat)
    requires forall i :: 0 <= i < |s| ==> s[i].date < today
    requires forall a, b :: 0 <= a < b < |s| ==> s[a].date > s[b].date
    requires forall d :: today - k <= d < today ==> CompleteOn(s, d)
    ensures k <= |s|
    ensures forall j :: 0 <= j < k ==> s[j].date == today - 1 - j && IsLogComplete(s[j].fields)
  {
    if k > 0 {
      PrefixAligned(s, today, k - 1);
      assert CompleteOn(s, today - k);
      var p :| 0 <= p < |s| && s[p].date == today - k && IsLogComplete(s[p].fields);
      DescendingGap(s, today, p);
      assert p == k - 1;
    }
  }

  /** In a strictly descending list of days before today, position `p` holds a
      day no later than `today - 1 - p`. */
  lemma {:induction false} DescendingGap(s: seq<Log>, today: Day, p: nat)
    requires p < |s|
    requires forall i :: 0 <= i < |s| ==> s[i].date < today
    requires forall a, b :: 0 <= a < b < |s| ==> s[a].date > s[b].date
    ensures s[p].date <= today - 1 - p
  {
    if p > 0 {
      DescendingGap(s, today, p - 1);
    }
  }

  // ------------------------------------------------------------- the charts

  /** `log.restingO2Sat || log.recoveryO2`: the log has an O2 reading to plot. */
  predicate HasO2Reading(fs: Fields)
  {
    Truthy(Read(fs, RestingO2Sat)) || Truthy(Read(fs, RecoveryO2))
  }

  /** `logs.filter(log => log.restingO2Sat || log.recoveryO2)`: every log
      with a reading, as often as it occurs, and no other. */
  function FilterO2(logs: seq<Log>): (r: seq<Log>)
    ensures |r| <= |logs|
    ensures forall l :: l in r <==> l in logs && HasO2Reading(l.fields)
    ensures forall l :: multiset(r)[l] == if HasO2Reading(l.fields) then multiset(logs)[l] else 0
  {
    if logs == [] then []
    else
      assert logs == [logs[0]] + logs[1..];
      if HasO2Reading(logs[0].fields) then [logs[0]] + FilterO2(logs[1..])
      else FilterO2(logs[1..])
  }

  /** The filter keeps the order of the logs: filtering a concatenation
      concatenates the filtered parts. */
  lemma {:induction false} FilterO2Append(a: seq<Log>, b: seq<Log>)
    ensures FilterO2(a + b) == FilterO2(a) + FilterO2(b)
  {
    if a == [] {
      assert a + b == b;
    } else {
      var ab := a + b;
      assert ab[0] == a[0] && ab[1..] == a[1..] + b;
      FilterO2Append(a[1..], b);
      if HasO2Reading(a[0].fields) {
        calc {
          FilterO2(ab);
          [a[0]] + FilterO2(a[1..] + b);
          [a[0]] + (FilterO2(a[1..]) + FilterO2(b));
          ([a[0]] + FilterO2(a[1..])) + FilterO2(b);
        }
      }
    }
  }

  /** `.slice(-30)`: the last `n` elements, or all of them when there are fewer. */
  function LastN(s: seq<Log>, n: nat): (r: seq<Log>)
    ensures |r| == if |s| < n then |s| else n
    ensures forall i :: 0 <= i < |r| ==> r[i] == s[|s| - |r| + i]
  {
    if |s| <= n then s else s[|s| - n..]
  }

  /** The most points a chart shows. */
  const ChartWindow: nat := 30

  /** The logs behind the charts: those with an O2 reading, oldest first, the latest 30. */
  function ChartLogs(logs: seq<Log>): seq<Log>
  {
    LastN(SortByDate(FilterO2(logs), Ascending), ChartWindow)
  }

  /** One point of the trend charts; the date label is the log's day. */
  datatype ChartPoint = ChartPoint(
    date: Day,
    restingO2: Option<int>, recoveryO2: Option<int>,
    restingHr: Option<int>, recoveryHr: Option<int>,
    rowing: Option<int>, symptoms: Option<int>)

  /** The number a numeric column holds, null otherwise. */
  function NumOf(v: Value): Option<int>
  {
    if v.Num? then v.n else None
  }

  function ToPoint(l: Log): (p: ChartPoint)
    ensures p.date == l.date
    ensures WellTyped(l.fields) ==>
      && Num(p.restingO2) == Read(l.fields, RestingO2Sat) && Num(p.recoveryO2) == Read(l.fields, RecoveryO2)
      && Num(p.restingHr) == Read(l.fields, RestingHr) && Num(p.recoveryHr) == Read(l.fields, RecoveryHr)
      && Num(p.rowing) == Read(l.fields, RowingDuration) && Num(p.symptoms) == Read(l.fields, SymptomsScore)
  {
    ChartPoint(l.date,
      NumOf(Read(l.fields, RestingO2Sat)), NumOf(Read(l.fields, RecoveryO2)),
      NumOf(Read(l.fields, RestingHr)), NumOf(Read(l.fields, RecoveryHr)),
      NumOf(Read(l.fields, RowingDuration)), NumOf(Read(l.fields, SymptomsScore)))
  }

  function ToPoints(s: seq<Log>): (r: seq<ChartPoint>)
    ensures |r| == |s|
    ensures forall i :: 0 <= i < |s| ==> r[i] == ToPoint(s[i])
  {
    if s == [] then [] else [ToPoint(s[0])] + ToPoints(s[1..])
  }

  /** A suffix of a sorted list is sorted and drawn from it. */
  lemma SuffixOfSorted(s: seq<Log>, start: nat)
    requires start <= |s| && Sorted(s, Ascending)
    ensures var c := s[start..];
      && (forall i, j :: 0 <= i < j < |c| ==> c[i].date <= c[j].date)
      && (forall i :: 0 <= i < |c| ==> c[i] in s)
  {
    var c := s[start..];
    forall i, j | 0 <= i < j < |c| ensures c[i].date <= c[j].date {
      assert InOrder(Ascending, s[start + i].date, s[start + j].date);
    }
  }

  /** The latest `n` of a sorted list are sorted and drawn from it. */
  lemma LastNOfSorted(s: seq<Log>, n: nat)
    requires Sorted(s, Ascending)
    ensures var c := LastN(s, n);
      && (forall i, j :: 0 <= i < j < |c| ==> c[i].date <= c[j].date)
      && (forall i :: 0 <= i < |c| ==> c[i] in s)
  {
    var start := |s| - |LastN(s, n)|;
    assert LastN(s, n) == s[start..];
    SuffixOfSorted(s, start);
  }

  /** The window is a run of the ascending sort of the logs with an O2 reading:
      oldest first, every log it holds is such a log, no such log is held more
      often than it occurs, and with at most 30 of them it holds them all. */
  lemma ChartLogsSpec(logs: seq<Log>)
    ensures var c := ChartLogs(logs);
      && |c| <= ChartWindow
      && (forall i, j :: 0 <= i < j < |c| ==> c[i].date <= c[j].date)
      && (forall i :: 0 <= i < |c| ==> c[i] in logs && HasO2Reading(c[i].fields))
    ensures multiset(ChartLogs(logs)) <= multiset(FilterO2(logs))
    ensures |FilterO2(logs)| <= ChartWindow ==> multiset(ChartLogs(logs)) == multiset(FilterO2(logs))
  {
    ChartLogsOrdered(logs);
    ChartLogsSubMultiset(logs);
  }

  /** The first half of ChartLogsSpec: length, order and provenance. */
  lemma ChartLogsOrdered(logs: seq<Log>)
    ensures var c := ChartLogs(logs);
      && |c| <= ChartWindow
      && (forall i, j :: 0 <= i < j < |c| ==> c[i].date <= c[j].date)
      && (forall i :: 0 <= i < |c| ==> c[i] in logs && HasO2Reading(c[i].fields))
  {
    var f := FilterO2(logs);
    var s := SortByDate(f, Ascending);
    LastNOfSorted(s, ChartWindow);
    var c := LastN(s, ChartWindow);
    PermutationMembers(s, f);
    forall i | 0 <= i < |c| ensures c[i] in logs && HasO2Reading(c[i].fields) {
      assert c[i] in s;
      assert c[i] in f;
    }
  }

  /** The window is a suffix of the sorted filtered logs, so their multisets nest. */
  lemma ChartLogsSubMultiset(logs: seq<Log>)
    ensures multiset(ChartLogs(logs)) <= multiset(FilterO2(logs))
    ensures |FilterO2(logs)| <= ChartWindow ==> multiset(ChartLogs(logs)) == multiset(FilterO2(logs))
  {
    var s := SortByDate(FilterO2(logs), Ascending);
    var c := LastN(s, ChartWindow);
    var start := |s| - |c|;
    assert c == s[start..];
    assert s == s[..start] + s[start..];
    assert multiset(s) == multiset(s[..start]) + multiset(s[start..]);
  }

  /** `chartData`: at most 30 points, oldest first, each from a log with an O2 reading. */
  function ChartData(logs: seq<Log>): (r: seq<ChartPoint>)
    ensures |r| <= ChartWindow
    ensures forall i, j :: 0 <= i < j < |r| ==> r[i].date <= r[j].date
    ensures forall i :: 0 <= i < |r| ==>
      exists l :: l in logs && HasO2Reading(l.fields) && r[i] == ToPoint(l)
  {
    var c := ChartLogs(logs);
    ChartLogsOrdered(logs);
    var r := ToPoints(c);
    assert forall i :: 0 <= i < |r| ==> r[i] == ToPoint(c[i]) && c[i] in logs && HasO2Reading(c[i].fields);
    r
  }

  /** In a sorted list, an element is among the latest `n` or dated no later
      than the oldest of them. */
  lemma LastNKeepsLatest(s: seq<Log>, n: nat, m: nat)
    requires Sorted(s, Ascending) && 0 < n && m < |s|
    ensures var c := LastN(s, n); 0 < |c| && (s[m] in c || s[m].date <= c[0].date)
  {
    var c := LastN(s, n);
    var start := |s| - |c|;
    assert c[0] == s[start];
    if m >= start {
      assert c[m - start] == s[m];
    } else {
      assert InOrder(Ascending, s[m].date, s[start].date);
    }
  }

  /** The window keeps the latest logs: it holds 30 points, or every log with an
      O2 reading when there are fewer (ChartLogsSpec), and every such log it
      drops is dated no later than the oldest point it keeps. */
  lemma ChartKeepsLatest(logs: seq<Log>, k: nat)
    requires k < |logs| && HasO2Reading(logs[k].fields)
    ensures var c := ChartLogs(logs);
      && |c| == (if |FilterO2(logs)| < ChartWindow then |FilterO2(logs)| else ChartWindow)
      && 0 < |c|
      && (logs[k] in c || logs[k].date <= c[0].date)
  {
    var f := FilterO2(logs);
    var s := SortByDate(f, Ascending);
    assert logs[k] in f;
    PermutationMembers(s, f);
    assert logs[k] in s;
    var m :| 0 <= m < |s| && s[m] == logs[k];
    LastNKeepsLatest(s, ChartWindow, m);
  }

  /** No O2 readings means no chart, and the page shows its empty-state message. */
  lemma ChartEmptyIffNoReadings(logs: seq<Log>)
    ensures |ChartData(logs)| == 0 <==> forall i :: 0 <= i < |logs| ==> !HasO2Reading(logs[i].fields)
  {
    if exists i :: 0 <= i < |logs| && HasO2Reading(logs[i].fields) {
      var i :| 0 <= i < |logs| && HasO2Reading(logs[i].fields);
      ChartKeepsLatest(logs, i);
    }
  }
}
