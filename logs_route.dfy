/** `GET /api/logs` and `POST /api/logs`: the date-keyed record store behind an
    authentication gate. The database table is a map from day to columns; its
    query and its atomic upsert-by-date are the functions FindMany and Upsert. */
module LogsRoute {
  import opened Wrappers
  import opened DailyLog
  import opened Auth

  /** The `where.date` object: optional inclusive lower (`gte`) and upper (`lte`) bounds. */
  datatype DateFilter = DateFilter(gte: Option<Day>, lte: Option<Day>)

  /** An HTTP reply: the JSON body, or 401 `{ error: 'Unauthorized' }`. */
  datatype Reply<T> = Ok(body: T) | Unauthorized

  /** The contract of the query: `startDate <= day` when a start is given and
      `day <= endDate` when an end is given. */
  predicate Within(startDate: Option<Day>, endDate: Option<Day>, day: Day)
  {
    (startDate.None? || startDate.value <= day) && (endDate.None? || day <= endDate.value)
  }

  /** Whether a row's date passes a `where` object (no `date` key: every row does). */
  predicate Matches(where: Option<DateFilter>, day: Day)
  {
    match where
    case None => true
    case Some(f) => (f.gte.None? || f.gte.value <= day) && (f.lte.None? || day <= f.lte.value)
  }

  /** Every finite set of days that holds some day `x` has a latest day. */
  lemma {:induction false} MaxExists(days: set<Day>, x: Day)
    requires x in days
    ensures exists m :: m in days && forall k :: k in days ==> k <= m
    decreases days
  {
    var rest := days - {x};
    if exists y :: y in rest {
      var y :| y in rest;
      MaxExists(rest, y);
      var m :| m in rest && forall k :: k in rest ==> k <= m;
      var top := if x > m then x else m;
      forall k | k in days ensures k <= top {
        if k != x { assert k in rest; }
      }
      assert top in days;
    } else {
      assert forall k :: k in days ==> k == x || k in rest;
    }
  }

  /** The latest day of a non-empty set. */
  function Latest(days: set<Day>): (m: Day)
    requires exists x :: x in days
    ensures m in days && forall k :: k in days ==> k <= m
  {
    var x :| x in days;
    MaxExists(days, x);
    var m :| m in days && forall k :: k in days ==> k <= m;
    m
  }

  /** The days of a set, latest first. */
  function KeysDescending(keys: set<Day>): seq<Day>
    decreases keys
  {
    if exists x :: x in keys then
      var m := Latest(keys);
      [m] + KeysDescending(keys - {m})
    else []
  }

  /** The listing is strictly descending and holds exactly the days of the set. */
  lemma KeysDescendingSpec(keys: set<Day>)
    ensures var r := KeysDescending(keys);
      && (forall i, j :: 0 <= i < j < |r| ==> r[i] > r[j])
      && (forall i :: 0 <= i < |r| ==> r[i] in keys)
      && (forall k :: k in keys ==> exists i :: 0 <= i < |r| && r[i] == k)
  {
    KeysDescendingOrdered(keys);
    KeysDescendingComplete(keys);
  }

  /** The listing is strictly descending and lists only days of the set. */
  lemma {:induction false} KeysDescendingOrdered(keys: set<Day>)
    ensures forall i :: 0 <= i < |KeysDescending(keys)| ==> KeysDescending(keys)[i] in keys
    ensures forall i, j :: 0 <= i < j < |KeysDescending(keys)| ==> KeysDescending(keys)[i] > KeysDescending(keys)[j]
    decreases keys
  {
    if exists x :: x in keys {
      var m := Latest(keys);
      var rest := keys - {m};
      var tail := KeysDescending(rest);
      KeysDescendingOrdered(rest);
      var r := [m] + tail;
      assert KeysDescending(keys) == r;
      forall i | 0 <= i < |tail| ensures tail[i] in keys && tail[i] < m {
        assert tail[i] in rest;
      }
      forall i, j | 0 <= i < j < |r| ensures r[i] > r[j] {
        assert r[j] == tail[j - 1];
        if i > 0 { assert r[i] == tail[i - 1]; }
      }
    }
  }

  /** Every day of the set is listed. */
  lemma {:induction false} KeysDescendingComplete(keys: set<Day>)
    ensures var r := KeysDescending(keys);
      forall k :: k in keys ==> exists i :: 0 <= i < |r| && r[i] == k
    decreases keys
  {
    if exists x :: x in keys {
      var m := Latest(keys);
      var rest := keys - {m};
      var tail := KeysDescending(rest);
      KeysDescendingComplete(rest);
      var r := [m] + tail;
      assert KeysDescending(keys) == r;
      forall k | k in keys ensures exists i :: 0 <= i < |r| && r[i] == k {
        if k == m {
          assert r[0] == k;
        } else {
          assert k in rest;
          var i :| 0 <= i < |tail| && tail[i] == k;
          assert r[i + 1] == k;
        }
      }
    } else {
      assert forall k :: k !in keys;
    }
  }

  /** The stored rows of the given days, in the given order. */
  function RowsAt(rows: map<Day, Fields>, days: seq<Day>): (r: seq<Log>)
    requires forall i :: 0 <= i < |days| ==> days[i] in rows
    ensures |r| == |days|
    ensures forall i :: 0 <= i < |r| ==> r[i] == Log(days[i], rows[days[i]])
  {
    if days == [] then [] else [Log(days[0], rows[days[0]])] + RowsAt(rows, days[1..])
  }

  /** `prisma.dailyLog.findMany({ where, orderBy: { date: 'desc' } })`: every
      stored row that passes the filter, latest first, each exactly once. */
  function FindMany(rows: map<Day, Fields>, where: Option<DateFilter>): (r: seq<Log>)
    ensures forall i, j :: 0 <= i < j < |r| ==> r[i].date > r[j].date
    ensures forall i :: 0 <= i < |r| ==>
      r[i].date in rows && r[i].fields == rows[r[i].date] && Matches(where, r[i].date)
    ensures forall d :: d in rows && Matches(where, d) ==> exists i :: 0 <= i < |r| && r[i].date == d
  {
    var keys := set d | d in rows && Matches(where, d);
    var days := KeysDescending(keys);
    KeysDescendingSpec(keys);
    var r := RowsAt(rows, days);
    ListingCovers(days, keys, r);
    assert forall d :: d in rows && Matches(where, d) ==> d in keys;
    r
  }

  /** Logs dated position by position like a listing of a set of days cover
      every day of the set. */
  lemma ListingCovers(days: seq<Day>, keys: set<Day>, r: seq<Log>)
    requires forall k :: k in keys ==> exists i :: 0 <= i < |days| && days[i] == k
    requires |r| == |days| && forall i :: 0 <= i < |r| ==> r[i].date == days[i]
    ensures forall d :: d in keys ==> exists i :: 0 <= i < |r| && r[i].date == d
  {
    forall d | d in keys ensures exists i :: 0 <= i < |r| && r[i].date == d {
      var i :| 0 <= i < |days| && days[i] == d;
      assert r[i].date == d;
    }
  }

  lemma LatestFirst(rows: map<Day, Fields>, d: Day)
    requires d in rows
    ensures |FindMany(rows, None)| > 0
    ensures forall d :: d in rows ==> d <= FindMany(rows, None)[0].date
  {
    var r := FindMany(rows, None);
    assert Matches(None, d);
    forall e | e in rows ensures e <= r[0].date {
      assert Matches(None, e);
      var i :| 0 <= i < |r| && r[i].date == e;
      assert i == 0 || r[0].date > r[i].date;
    }
  }

  /** `prisma.dailyLog.upsert({ where: { date }, update: rest, create: { date, ...rest } })`:
      the posted columns overwrite, the others are kept, a missing day is created. */
  function Upsert(rows: map<Day, Fields>, date: Day, patch: Fields): map<Day, Fields>
  {
    rows[date := (if date in rows then rows[date] else map[]) + patch]
  }

  /** A day with no record gets one new record holding exactly the posted columns. */
  lemma UpsertCreates(rows: map<Day, Fields>, date: Day, patch: Fields)
    requires date !in rows
    ensures Upsert(rows, date, patch)[date] == patch
    ensures |Upsert(rows, date, patch)| == |rows| + 1
  {
    assert Upsert(rows, date, patch).Keys == rows.Keys + {date};
  }

  /** An existing record has the posted columns overwritten and keeps every other column. */
  lemma UpsertMerges(rows: map<Day, Fields>, date: Day, patch: Fields)
    requires date in rows
    ensures |Upsert(rows, date, patch)| == |rows|
    ensures Upsert(rows, date, patch)[date].Keys == rows[date].Keys + patch.Keys
    ensures forall f :: f in patch ==> Upsert(rows, date, patch)[date][f] == patch[f]
    ensures forall f :: f in rows[date] && f !in patch ==> Upsert(rows, date, patch)[date][f] == rows[date][f]
  {
    assert Upsert(rows, date, patch).Keys == rows.Keys;
  }

  /** No other day's record is created, removed or changed. */
  lemma UpsertOtherDaysUnchanged(rows: map<Day, Fields>, date: Day, patch: Fields)
    ensures forall d :: d != date ==> (d in Upsert(rows, date, patch) <==> d in rows)
    ensures forall d :: d != date && d in rows ==> Upsert(rows, date, patch)[d] == rows[d]
  {
  }

  /** Posting the same payload twice leaves the store as posting it once. */
  lemma UpsertIdempotent(rows: map<Day, Fields>, date: Day, patch: Fields)
    ensures Upsert(Upsert(rows, date, patch), date, patch) == Upsert(rows, date, patch)
  {
    var once := Upsert(rows, date, patch);
    var old_ := if date in rows then rows[date] else map[];
    assert (old_ + patch) + patch == old_ + patch;
  }

  /** One POST request: the `date` of the body and the rest of its columns. */
  datatype Post = Post(date: Day, patch: Fields)

  function ApplyPosts(rows: map<Day, Fields>, posts: seq<Post>): map<Day, Fields>
    decreases |posts|
  {
    if posts == [] then rows
    else ApplyPosts(Upsert(rows, posts[0].date, posts[0].patch), posts[1..])
  }

  /** After any sequence of posts the store holds one record for each day that
      had one or was posted to, and for no other day. */
  lemma {:induction false} ApplyPostsKeys(rows: map<Day, Fields>, posts: seq<Post>)
    ensures ApplyPosts(rows, posts).Keys == rows.Keys + set i | 0 <= i < |posts| :: posts[i].date
    decreases |posts|
  {
    if posts != [] {
      var next := Upsert(rows, posts[0].date, posts[0].patch);
      ApplyPostsKeys(next, posts[1..]);
      var rest := set i | 0 <= i < |posts[1..]| :: posts[1..][i].date;
      var all := set i | 0 <= i < |posts| :: posts[i].date;
      assert all == {posts[0].date} + rest by {
        forall d | d in all ensures d in {posts[0].date} + rest {
          var i :| 0 <= i < |posts| && posts[i].date == d;
          if i > 0 { assert posts[1..][i - 1].date == d; }
        }
        forall d | d in rest ensures d in all {
          var i :| 0 <= i < |posts[1..]| && posts[1..][i].date == d;
          assert posts[i + 1].date == d;
        }
      }
    }
  }

  /** A day no post targets keeps its record, or its absence. */
  lemma {:induction false} ApplyPostsUntouched(rows: map<Day, Fields>, posts: seq<Post>, d: Day)
    requires forall i :: 0 <= i < |posts| ==> posts[i].date != d
    ensures d in ApplyPosts(rows, posts) <==> d in rows
    ensures d in rows ==> ApplyPosts(rows, posts)[d] == rows[d]
    decreases |posts|
  {
    if posts != [] {
      ApplyPostsUntouched(Upsert(rows, posts[0].date, posts[0].patch), posts[1..], d);
    }
  }

  /** The table of daily logs. */
  class LogStore {
    var rows: map<Day, Fields>

    constructor ()
      ensures rows == map[]
    {
      rows := map[];
    }

    /** `GET /api/logs?startDate&endDate`; a parameter that is missing or empty is `None`. */
    method Get(jar: CookieJar, startDate: Option<Day>, endDate: Option<Day>) returns (reply: Reply<seq<Log>>)
      ensures !Authenticated(jar.cookies) <==> reply.Unauthorized?
      ensures reply.Ok? ==>
        var logs := reply.body;
        && (forall i, j :: 0 <= i < j < |logs| ==> logs[i].date > logs[j].date)
        && (forall i :: 0 <= i < |logs| ==>
              logs[i].date in rows && logs[i].fields == rows[logs[i].date] && Within(startDate, endDate, logs[i].date))
        && (forall d :: d in rows && Within(startDate, endDate, d) ==> exists i :: 0 <= i < |logs| && logs[i].date == d)
    {
      if !jar.IsAuthenticated() {
        return Unauthorized;
      }
      var where: Option<DateFilter> := None;
      if startDate.Some? || endDate.Some? {
        var filter := DateFilter(None, None);
        if startDate.Some? { filter := filter.(gte := startDate); }
        if endDate.Some? { filter := filter.(lte := endDate); }
        where := Some(filter);
      }
      assert forall d :: Matches(where, d) <==> Within(startDate, endDate, d);
      reply := Ok(FindMany(rows, where));
    }

    /** `POST /api/logs` with body `{ date, ...rest }`. */
    method Post(jar: CookieJar, date: Day, rest: Fields) returns (reply: Reply<Log>)
      modifies this
      ensures !Authenticated(jar.cookies) ==> reply.Unauthorized? && rows == old(rows)
      ensures Authenticated(jar.cookies) ==>
        rows == Upsert(old(rows), date, rest) && reply == Ok(Log(date, rows[date]))
    {
      if !jar.IsAuthenticated() {
        return Unauthorized;
      }
      rows := Upsert(rows, date, rest);
      reply := Ok(Log(date, rows[date]));
    }
  }

  /** `GET` without bounds returns every stored record. */
  lemma UnboundedQueryReturnsAll(rows: map<Day, Fields>, logs: seq<Log>)
    requires forall i :: 0 <= i < |logs| ==> logs[i].date in rows
    requires forall i, j :: 0 <= i < j < |logs| ==> logs[i].date > logs[j].date
    requires forall d :: d in rows && Within(None, None, d) ==> exists i :: 0 <= i < |logs| && logs[i].date == d
    ensures |logs| == |rows|
    ensures DatesOf(logs) == rows.Keys
  {
    assert DatesOf(logs) == rows.Keys by {
      forall d | d in rows ensures d in DatesOf(logs) {
        assert Within(None, None, d);
      }
    }
    assert DistinctDates(logs);
    DistinctDatesCard(logs);
  }
}
