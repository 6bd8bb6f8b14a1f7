# Pulmonary rehab tracker — a Dafny model of its logic

The tracker keeps one daily exercise log per calendar day. Entry is gated by a single shared password and a session cookie. This project models:

- **Daily log record** (`DailyLog`): the nullable number, boolean and text columns, and the four-field "complete" predicate that the dashboard and the progress page use.
- **Logs API** (`LogsRoute`): a class over a date-keyed map. `GET` builds an optional inclusive date range and lists the matching records latest first. `POST` upserts by date. Both are gated on the cookie.
- **Progress page** (`Progress`): the copy-sort-and-loop streak computation, the completed-workouts total, the calendar markers, and the trend-chart pipeline (filter, ascending sort, keep the last 30).
- **Dashboard** (`Dashboard`): today's card (the lookup, status text, checkmark and button label) and the week strip (cell markers, "N of 7 days completed").
- **Log page editor** (`LogEditor`): the empty default record, the clamping − / + steppers, single-column edits, the overlay applied when the stored record loads, and the whole-record save.
- **Pre-fill vitals button** (`QuickLog`): copies the four resting vitals of the latest record into today's record.
- **Two-tap discard button** (`Discard`): a state machine that emits a `DELETE` request.
- **Session gate** (`Auth`, `AuthRoute`): strict password equality, and a cookie map that sign-in sets and sign-out clears.

Modelling conventions:
- Dates are whole day numbers (`Day = int`). A record's columns are a `map<Field, Value>`, and a column missing from the map reads as its empty value (`DailyLog.Read`).
- JavaScript truthiness is `DailyLog.Truthy`: `null`, `0`, `false` and `""` are falsy.
- An empty or missing query parameter and an `undefined` password or secret are `None` of `Wrappers.Option`.
- The outcome of every `fetch` (ok, not ok, thrown) is a parameter of the handler that awaits it.
- Requests a handler issues are returned as values.

## Model

| member | source | states |
|---|---|---|
| DailyLog.IsLogCompleteIff | src/app/progress/page.tsx:42-49 | for well-typed records, complete exactly when resting O2 is non-null and non-zero, seated marching and biceps curls are true, and rowing duration is non-null and non-zero |
| DailyLog.DroppingAnyCompletionFieldBreaksCompletion | src/app/progress/page.tsx:42-49 | emptying or removing any one of the four columns makes the record incomplete |
| DailyLog.CompletionDependsOnlyOnFourFields | src/app/dashboard/page.tsx:25-32 | records agreeing on the four columns agree on completion; the dashboard uses this same predicate |
| DailyLog.CompletedLogs | src/app/progress/page.tsx:131 | the filter keeps exactly the complete logs, and no more of them than there are logs |
| DailyLog.CompletedCountAppend | src/app/progress/page.tsx:131 | the completed count is additive over concatenation |
| DailyLog.CompletedCountExtremes | src/app/dashboard/page.tsx:46 | the count is at most the number of logs, equals it exactly when all are complete, and is zero exactly when none is |
| DailyLog.DefaultValue | src/app/log/page.tsx:52-94 | the empty value of each column has the column's type |
| DailyLog.FindByDate | src/app/dashboard/page.tsx:45 | returns a log of the list dated that day, or nothing exactly when no log is dated that day |
| DailyLog.FindByDateIsFirst | src/app/progress/page.tsx:202 | the log found comes before every other log of that day |
| DailyLog.StatusWithDistinctDates | src/app/progress/page.tsx:201-203 | with one log per day, a calendar day is complete or in progress according to that day's log |
| DailyLog.DistinctDatesCard | src/app/dashboard/page.tsx:13-20 | distinct-dated logs have as many dates as logs |
| Progress.InsertContents | src/app/progress/page.tsx:52-54 | insertion adds exactly one element |
| Progress.InsertSorted | src/app/progress/page.tsx:52-54 | insertion keeps a date-sorted list sorted |
| Progress.SortByDate | src/app/progress/page.tsx:52-54 | the sort returns a date-ordered permutation of its input |
| Progress.SortKeepsDistinct | src/app/progress/page.tsx:52-54 | sorting keeps dates pairwise distinct |
| Progress.SortedHeads | src/app/progress/page.tsx:52-54 | two sorted permutations with distinct dates share their head, and their tails are permutations |
| Progress.SortedUnique | src/app/progress/page.tsx:52-54 | two sorted permutations with distinct dates are equal |
| Progress.LatestFirst | src/app/progress/page.tsx:52-54 | the head of the descending sort is a latest-dated log |
| Progress.RunFromSpec | src/app/progress/page.tsx:60-80 | the run length counts qualifying positions and stops at the first one that does not qualify |
| Progress.RunFromIsLongestPrefix | src/app/progress/page.tsx:60-80 | any qualifying prefix followed by a failure has the run's length |
| Progress.CalculateStreak | src/app/progress/page.tsx:51-83 | the loop with its early breaks returns the length of the qualifying prefix of the descending sort, at most the number of logs |
| Progress.StreakBounded | src/app/progress/page.tsx:56-82 | the streak lies between 0 and the number of logs |
| Progress.StreakOrderIndependent | src/app/progress/page.tsx:52-54 | with distinct dates the streak does not depend on the order of the logs |
| Progress.RunWithoutTodayAtMostOne | src/app/progress/page.tsx:64-79 | if the head is not dated today and the next date is earlier, the walk stops after at most the head, and takes the head exactly when it is yesterday's and complete |
| Progress.StreakFromToday | src/app/progress/page.tsx:60-68 | when the latest log is dated today, the streak is the longest prefix whose i-th log is dated today − i and is complete |
| Progress.StreakWithoutTodayAtMostOne | src/app/progress/page.tsx:64-79 | with distinct dates and a latest log not dated today, the streak is 1 exactly when that log is dated yesterday and complete, else 0 |
| Progress.IncompleteTodayForcesZero | src/app/progress/page.tsx:67-79 | an incomplete log dated today (distinct dates) forces the streak to 0 |
| Progress.SortedPrefixFromYesterday | src/app/progress/page.tsx:52-54 | when the k days before today each have a complete log (distinct dates, none today or later), the descending sort starts with them |
| Progress.IntendedStreakCountsBackFromYesterday | src/app/progress/page.tsx:69-74 | the streak counted back from yesterday covers every completed day before today |
| Progress.StreakUndercountsFromYesterday | src/app/progress/page.tsx:64-79 | on such input the page's streak is exactly 1 while the intended streak is at least k |
| Progress.CompletedDaysBeforeTodayShowOne | src/app/progress/page.tsx:64-79 | complete logs on each of the n ≥ 1 days before today show a streak of 1 where the intended streak is n |
| Progress.FiveDaysBeforeTodayShowOne | src/app/progress/page.tsx:64-79 | five completed days before today show a streak of 1 where the intended streak is 5 |
| Progress.FilterO2 | src/app/progress/page.tsx:117 | keeps exactly the logs with a truthy resting or recovery O2, each as often as it occurs in the input |
| Progress.FilterO2Append | src/app/progress/page.tsx:117 | the filter keeps input order: filtering a concatenation concatenates the filtered parts |
| Progress.LastN | src/app/progress/page.tsx:119 | `slice(-30)` gives the last 30 elements, or all of them when there are fewer |
| Progress.ToPoint | src/app/progress/page.tsx:120-128 | a point carries the log's day and its six plotted columns |
| Progress.ToPoints | src/app/progress/page.tsx:120-128 | one point per window log, in order |
| Progress.ChartLogsSpec | src/app/progress/page.tsx:116-119 | the window has at most 30 logs, oldest first, each a log with an O2 reading; it holds no log more often than the filter does, and with at most 30 O2 logs it holds exactly all of them |
| Progress.ChartLogsOrdered | src/app/progress/page.tsx:116-119 | the window has at most 30 logs, oldest first, each a log with an O2 reading |
| Progress.ChartLogsSubMultiset | src/app/progress/page.tsx:116-119 | the window is a sub-multiset of the O2 logs, and equals them as a multiset when there are at most 30 |
| Progress.ChartData | src/app/progress/page.tsx:116-128 | at most 30 points, in ascending date order, each from a log with an O2 reading |
| Progress.ChartKeepsLatest | src/app/progress/page.tsx:116-119 | the window holds min(30, number of O2 logs) logs (the number FilterO2's multiset contract pins down), and any O2 log it drops is dated no later than its oldest log |
| Progress.ChartEmptyIffNoReadings | src/app/progress/page.tsx:229 | the chart is empty exactly when no log has an O2 reading |
| Dashboard.StatusText | src/app/dashboard/page.tsx:71-73 | 'In progress' exactly when some log is dated today, 'Not started yet' otherwise |
| Dashboard.ButtonLabel | src/app/dashboard/page.tsx:84 | "Continue Today's Log" exactly when some log is dated today, "Start Today's Log" otherwise |
| Dashboard.ShowsCheckmark | src/app/dashboard/page.tsx:75-77 | the checkmark shows exactly when the first log dated today exists and is complete |
| Dashboard.FindByDateMeansLogged | src/app/dashboard/page.tsx:45 | the lookup finds a log exactly when some log is dated today |
| Dashboard.CheckmarkWithDistinctDates | src/app/dashboard/page.tsx:75-77 | with one log per day, the checkmark shows exactly when today's log is complete |
| Dashboard.CellMarkerCases | src/app/dashboard/page.tsx:97-98 | each week cell shows exactly one of ✅, 🔄 and ○; ○ exactly when no log has that day; with one log per day, ✅ or 🔄 by that log's completion |
| Dashboard.WeekCompletedAtMostSeven | src/app/dashboard/page.tsx:46 | with distinct dates inside one Sunday-to-Saturday week, completed days ≤ logs ≤ 7 |
| LogsRoute.Latest | src/app/api/logs/route.ts:21-24 | the greatest of a non-empty set of stored days |
| LogsRoute.KeysDescendingOrdered | src/app/api/logs/route.ts:21-24 | the listed days are strictly descending and are days of the set |
| LogsRoute.KeysDescendingComplete | src/app/api/logs/route.ts:21-24 | every day of the set is listed |
| LogsRoute.KeysDescendingSpec | src/app/api/logs/route.ts:21-24 | the days are listed strictly descending, each stored day exactly once |
| LogsRoute.RowsAt | src/app/api/logs/route.ts:21-24 | each listed day is paired with its stored columns |
| LogsRoute.FindMany | src/app/api/logs/route.ts:21-24 | every stored row that passes the filter, strictly latest first, each with its stored columns |
| LogsRoute.LatestFirst | src/app/api/logs/route.ts:21-24 | unfiltered, the first row is the latest stored day |
| LogsRoute.UpsertCreates | src/app/api/logs/route.ts:37-41 | a day with no record gets one record of exactly the posted columns, and the store grows by one |
| LogsRoute.UpsertMerges | src/app/api/logs/route.ts:37-39 | an existing record has the posted columns overwritten and keeps every other column; the store keeps its size |
| LogsRoute.UpsertOtherDaysUnchanged | src/app/api/logs/route.ts:37-41 | no other day's record is created, removed or changed |
| LogsRoute.UpsertIdempotent | src/app/api/logs/route.ts:37-41 | posting the same payload twice equals posting it once |
| LogsRoute.ApplyPostsKeys | src/app/api/logs/route.ts:37-41 | after any sequence of posts, exactly the previously stored and the posted days have a record, one record each |
| LogsRoute.ApplyPostsUntouched | src/app/api/logs/route.ts:37-41 | a day no post targets keeps its record, or its absence |
| LogsRoute.LogStore.Get | src/app/api/logs/route.ts:5-27 | 401 exactly when unauthenticated; otherwise the rows within the inclusive range, strictly latest first, each exactly once |
| LogsRoute.LogStore.Post | src/app/api/logs/route.ts:29-44 | unauthenticated: 401 and the store unchanged; otherwise the store is upserted and the merged record is returned |
| LogsRoute.UnboundedQueryReturnsAll | src/app/api/logs/route.ts:14-19 | with neither bound given, the reply lists every stored record |
| LogEditor.DefaultFields | src/app/log/page.tsx:52-94 | every column is present and empty (null, false, ''), so the default is not complete |
| LogEditor.Decrement | src/app/log/page.tsx:117 | the result is ≥ min, equals value − 1 when that is ≥ min, and is min from null |
| LogEditor.Increment | src/app/log/page.tsx:132 | the result is ≤ max, equals value + 1 when that is ≤ max, and a value at or above max becomes max |
| LogEditor.StepsUndoEachOther | src/app/log/page.tsx:117-132 | inside the range, + then − and − then + return the value |
| LogEditor.StepsStayInRange | src/app/log/page.tsx:117-132 | from a value in range or from null, both buttons stay within [min, max] |
| LogEditor.StepperRange | src/app/log/page.tsx:349-586 | every numeric column's stepper has min below max |
| LogEditor.Overlay | src/app/log/page.tsx:286-291 | defaults, then the stored columns, then the URL date: stored columns win and the others are empty |
| LogEditor.OverlayReadsLikeStored | src/app/log/page.tsx:286-291 | for a well-typed stored record, the form reads and completes exactly like it |
| LogEditor.SaveReplacesRecord | src/app/log/page.tsx:306-310 | posting the whole form makes the stored record of that day equal to the form's columns |
| LogEditor.FetchFindsTheDaysRecord | src/app/log/page.tsx:282-291 | the one-day query the page sends returns that day's stored record, or no record when none is stored |
| LogEditor.LogForm.constructor | src/app/log/page.tsx:275-278 | the form starts as the default record for the URL date, not saving, not saved |
| LogEditor.LogForm.UpdateLog | src/app/log/page.tsx:322-324 | sets one column and leaves every other column unchanged |
| LogEditor.LogForm.StepDown | src/app/log/page.tsx:117 | the − button writes the clamped decrement into its column |
| LogEditor.LogForm.StepUp | src/app/log/page.tsx:132 | the + button writes the clamped increment into its column |
| LogEditor.LogForm.ApplyFetch | src/app/log/page.tsx:280-297 | only an ok reply with a record replaces the form by the overlay of its first record; otherwise the form is untouched |
| LogEditor.LogForm.HandleSave | src/app/log/page.tsx:303-320 | posts the whole form; saved turns on only after an ok reply; saving ends off on every path |
| LogEditor.OpenPage | src/app/log/page.tsx:276-297 | an empty, non-ok or thrown fetch leaves the form as the default record for the URL date |
| QuickLog.QuickFillPayload | src/app/dashboard/QuickLogButton.tsx:37-43 | the body holds exactly the four vitals, each copied from the previous record |
| QuickLog.QuickLogButton.Label | src/app/dashboard/QuickLogButton.tsx:64-67 | 'Loading...' while loading, else 'Pre-fill vitals from last time' |
| QuickLog.QuickLogButton.HandleQuickLog | src/app/dashboard/QuickLogButton.tsx:12-58 | an empty list gives 'No previous workout to copy from' and no POST; a failed fetch or save gives 'Something went wrong'; otherwise it posts today's vitals and navigates to today's log; loading ends false on every path |
| QuickLog.QuickFillKeepsTheRest | src/app/dashboard/QuickLogButton.tsx:37-43 | after the upsert, today's record has the previous vitals and keeps every other column; other days are untouched |
| QuickLog.QuickFillCopiesLatest | src/app/dashboard/QuickLogButton.tsx:18-30 | the record copied from is the latest stored one |
| Discard.DiscardButton.Label | src/app/dashboard/DiscardButton.tsx:40 | 'Discarding...' while loading, else 'Tap again to confirm' while confirming, else 'Discard workout' |
| Discard.DiscardButton.Disabled | src/app/dashboard/DiscardButton.tsx:37 | disabled exactly while loading, which is exactly while the label reads 'Discarding...' |
| Discard.DiscardButton.Press | src/app/dashboard/DiscardButton.tsx:11-21 | the first tap only sets confirming; a confirming tap sends one DELETE for the button's date and starts loading |
| Discard.DiscardButton.Settle | src/app/dashboard/DiscardButton.tsx:22-31 | refresh exactly on an ok reply; loading and confirming end false on every path |
| Discard.TwoTaps | src/app/dashboard/DiscardButton.tsx:11-40 | two taps send exactly one DELETE, on the second, and leave the button idle |
| Auth.VerifyPasswordExact | src/lib/auth.ts:28-30 | a password matches exactly when it equals the secret |
| Auth.VerifyPasswordRefusesPartialSecret | src/lib/auth.ts:28-30 | no proper prefix or suffix of the secret matches, the empty string included |
| Auth.VerifyPasswordWithoutSecret | src/lib/auth.ts:28-30 | with no secret configured, only a missing password matches |
| Auth.Authenticated | src/lib/auth.ts:6-10 | signed in exactly when the pulmonary_rehab_auth cookie is present and holds 'authenticated', that is, when setting the cookie again would change nothing |
| Auth.CookieJar.IsAuthenticated | src/lib/auth.ts:6-10 | the query on the request's cookie store: true exactly when that cookie holds 'authenticated' |
| Auth.SetAuthCookieEffect | src/lib/auth.ts:12-21 | after setting, the browser is authenticated and no other cookie changed |
| Auth.ClearAuthCookieEffect | src/lib/auth.ts:23-26 | after clearing, it is not authenticated, no other cookie changed, and clearing twice equals clearing once |
| Auth.CookieJar.SetAuthCookie | src/lib/auth.ts:12-21 | the jar gains the auth cookie with value 'authenticated' |
| Auth.CookieJar.ClearAuthCookie | src/lib/auth.ts:23-26 | the jar loses the auth cookie |
| AuthRoute.Login | src/app/api/auth/route.ts:4-13 | the right password gives success and sets the cookie; any other gives 401, failure and an unchanged jar |
| AuthRoute.Logout | src/app/api/auth/route.ts:15-18 | always succeeds and leaves the browser signed out, other cookies kept |
| AuthRoute.LoginThenLogout | src/app/api/auth/route.ts:4-18 | sign-in followed by sign-out ends signed out, whatever came before |

## Left out

- Deleting a log: the logs route defines only `GET` and `POST`, so the discard button's `DELETE` is modelled only as the request it emits.
- The `limit` query parameter: the route ignores it, and so does the model.
- Calendar arithmetic: `date-fns` month and week grids, `startOfWeek`, `isToday`, time zones and `setHours`. Days are integers, and the week start is a parameter.
- Parsing: `new Date(...)` string parsing, `parseInt` on typed input, JSON encoding and decoding, and Prisma's invalid-date errors.
- The `id` column the database adds. The Prisma schema is not part of this model; a column a record lacks reads as its empty value.
- The `setTimeout` that clears the "Saved!" flag after two seconds. React state batching and asynchronous interleaving between the fetch and user edits are also left out.
- Router navigation and refresh: modelled as returned values.
- Console logging: dropped.
- Cookie attributes (`httpOnly`, `secure`, `sameSite`, `maxAge`, `path`): transport concerns.
- `AuthRoute.Login`: models only a string or missing `password`. Other JSON values and the `error: 'Invalid password'` body field are not modelled.
- Concurrency and the atomicity of the upsert: left to the database.
- `src/lib/db.ts` (the database client), `src/app/layout.tsx` (page shell) and `src/app/page.tsx` (login form): not part of this model.
- Rendering, CSS and recharts drawing. Formatting a chart point's date as 'MMM d' is also left out; a point keeps its day number.
- `Progress.ChartKeepsLatest`: states which logs a window of 30 keeps through dates and multiplicities. It leaves the stable order among logs of one date unstated.

## Findings

| source | as written | input that shows it | evidently intended | confidence | as-written member | corrected member |
|---|---|---|---|---|---|---|
| src/app/progress/page.tsx:64-79 | every position i is compared with today − i, even after the first log was accepted as yesterday's | complete logs on each of the five days before today, none today: the page shows a streak of 1 | when the streak starts yesterday, position i should be compared with yesterday − i, giving 5 | not executed | Progress.StreakUndercountsFromYesterday, Progress.CompletedDaysBeforeTodayShowOne | Progress.IntendedStreak, Progress.IntendedStreakCountsBackFromYesterday |
