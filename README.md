# Core newspaper redirector, modelled in Dafny

The system sends readers to the current issue of a newspaper. A per-paper entry script
(such as `public/ring/index.php`) calls the public controller's `redirect` with the paper's
slug. There are three kinds of paper:

- **Date papers** substitute today's `{Y}`, `{m}` and `{d}` into a URL pattern.
- **Monthly papers** substitute `{month_year}`, for example `november-2025`.
- **Sequence papers** publish numbered issues.
  - Their issue id is advanced once per civil day in Asia/Riyadh by a cron job.
  - Before a per-paper cutover hour, readers are still sent to the previous issue.
  - The job checks each new issue URL with a HEAD request and rolls the id back if the
    URL is not reachable. The day marker stays on today.

Around this sit:

- an admin dashboard that corrects the id by hand, clamped at zero;
- a health report that lists the sequence papers whose advance is overdue;
- a small kernel with first-match routing, single-use CSRF tokens and a flash queue;
- an admin login with a per-key sliding-window rate limit;
- a `.env` loader;
- an idempotent seeder of the four known papers.

## How the model is laid out

There is one module per source file.

- **Values:** `Newspapers.Newspaper` is a datatype.
- **The table:** `Newspapers.Store` is a class whose `rows` map holds each row under its
  primary key.
- **Objects whose fields the source updates:** the kernel's session, the login cache and
  the three environment maps are classes whose methods say exactly what they change.
- **Loops:** every loop of the source is a method with a `while` loop. Each such method is
  proved against a specification function, for example:
  - the cron pass against `CronIncrement.CronPass`;
  - the seeder against `NewspaperSeeder.Seeded`;
  - the env load against `Env.Apply`;
  - the pending filter against `HealthService.PendingSlugs`;
  - the route scan against `AppKernel.FirstMatchFrom`.
- **The specification functions** carry the lemmas that state what the source promises.

Helper modules:

- `Wrappers` holds `Option` and `Result`.
- `Errors` holds one constructor per exception the core raises.
- `Text` holds decimal text, PHP `trim`, `strtr` with several keys, `explode` and `implode`
  on one character, and ASCII case.
- `Calendar` holds civil days, the instant as a day plus a second of the day, `%a` day
  distances, and month names.

## Model

| member | source | states |
|---|---|---|
| SequenceService.IncrementForDay | app/Services/SequenceService.php:23-80 | non-sequence paper: returned unchanged, table untouched; storage error: `StorageFailure`, rolled back, nothing written; missing row: `RowMissing`, nothing written; otherwise exactly the locked row is replaced by `Advanced` of it, which is returned |
| SequenceService.Advanced | app/Services/SequenceService.php:40-75 | the locked row after `incrementForKsaDay`: without a marker, marker set to today and stamped; a marker whose `%a` distance to today is 0, unchanged; otherwise id (null as 0) plus the distance, marker today, stamped |
| SequenceService.AdvanceInitialises | app/Services/SequenceService.php:42-53 | without a marker the marker becomes today and the id is unchanged |
| SequenceService.AdvanceByDistance | app/Services/SequenceService.php:55-71 | with a marker the id (null read as 0) grows by exactly the absolute day distance; a marker on today changes nothing |
| SequenceService.AdvanceFromFutureMarker | app/Services/SequenceService.php:55-61 | a marker k days after today also adds k and moves the marker back to today |
| SequenceService.AdvanceFromNullId | app/Services/SequenceService.php:61 | a null id with a marker n days away becomes n |
| SequenceService.AdvanceSetsMarker | app/Services/SequenceService.php:42-71 | after any advance the marker reads today |
| SequenceService.AdvanceFrame | app/Services/SequenceService.php:42-71 | only the id, the marker and `updated_at` can change |
| SequenceService.AdvanceIdempotent | app/Services/SequenceService.php:55-59 | a second advance on the same day is a no-op: at most one advance per civil day |
| SequenceService.AdvanceExamples | tests/Unit/SequenceServiceTest.php:37-58 | id 100 with marker 2025-01-01 becomes 101 with marker 2025-01-02 on the next day, and stays 100 on the same day |
| SequenceService.ApplyCutover | app/Services/SequenceService.php:82-99 | succeeds exactly for sequence papers with an id; `NotSequence` and `MissingLatestId` otherwise |
| SequenceService.CutoverBounds | app/Services/SequenceService.php:89-98 | the shown id is the latest or the one before; it is never negative; it is the previous one exactly before the cutover hour |
| SequenceService.CutoverMonotone | app/Services/SequenceService.php:89-98 | a later hour never shows an older issue |
| SequenceService.CutoverExample | tests/Unit/SequenceServiceTest.php:60-71 | id 100, cutover 8: 99 at 06:00 and 100 at 10:00 |
| SequenceService.CutoverHidesTodaysAdvance | app/Services/SequenceService.php:55-99 | after a one-day advance, readers before the cutover hour still get yesterday's issue |
| RedirectBuilder.BuildUrl | app/Services/RedirectBuilder.php:20-29 | the `match` of `buildFor`: date and monthly papers build from the required pattern, sequence papers from the base, the required id and the pattern, any other type fails with `UnsupportedType` |
| RedirectBuilder.BuildFor | app/Services/RedirectBuilder.php:18-34 | the result is the type's URL or its failure; only on success is the URL written to the row and the record, with no other change |
| RedirectBuilder.BuildUrlFailures | app/Services/RedirectBuilder.php:18-34 | the four failures, each with the exact condition: unsupported type, missing pattern, missing id, missing base URL |
| RedirectBuilder.RequirePattern | app/Services/RedirectBuilder.php:69-77 | a null or empty pattern fails, naming the slug; otherwise the pattern |
| RedirectBuilder.RequireSequenceId | app/Services/RedirectBuilder.php:79-91 | an explicit id wins over the stored id; with neither it fails |
| RedirectBuilder.BuildSequenceUrl | app/Services/RedirectBuilder.php:55-67 | it fails exactly when there is no `{id}` pattern and no non-empty base URL |
| RedirectBuilder.DateValues | app/Services/RedirectBuilder.php:38-42 | three texts: the civil year in four digits, the month and the day in two digits |
| RedirectBuilder.BuildDateUrl | app/Services/RedirectBuilder.php:36-45 | `strtr` of the pattern with `{Y}`, `{m}`, `{d}` mapped to the date texts |
| RedirectBuilder.DateUrlShape | app/Services/RedirectBuilder.php:36-45 | in a pattern `a{Y}s1{m}s2{d}b` each placeholder becomes its part of the date and the plain text is kept |
| RedirectBuilder.DateUrlDeterminesDay | app/Services/RedirectBuilder.php:36-45 | for four-digit years, equal date URLs mean the same day |
| RedirectBuilder.DateValuesExample | app/Services/RedirectBuilder.php:38-42 | day 2025-01-15 gives `2025`, `01`, `15` |
| RedirectBuilder.DateUrlExample | tests/Unit/RedirectBuilderTest.php:50-58 | the okaz pattern on 2025-01-15 gives `.../digitals/2025/01/15/index.html` |
| RedirectBuilder.ReplaceChar | app/Services/RedirectBuilder.php:50 | `str_replace` of one character: same length, each occurrence replaced, other characters kept |
| RedirectBuilder.MonthYear | app/Services/RedirectBuilder.php:49-50 | the lower-cased English month name, `-`, the year, spaces turned into dashes |
| RedirectBuilder.BuildMonthlyUrl | app/Services/RedirectBuilder.php:47-53 | `strtr` of the pattern with `{month_year}` mapped to the month-year text |
| RedirectBuilder.MonthYearShape | app/Services/RedirectBuilder.php:47-53 | the value is the lower-case month name, `-`, the year |
| RedirectBuilder.MonthlyUrlShape | app/Services/RedirectBuilder.php:47-53 | only `{month_year}` changes in a pattern of plain text around it |
| RedirectBuilder.MonthYearExample | tests/Unit/RedirectBuilderTest.php:60-68 | day 2025-11-01 gives `november-2025` |
| RedirectBuilder.MonthlyUrlExample | tests/Unit/RedirectBuilderTest.php:60-68 | the ring pattern on 2025-11-01 gives `.../magazines/november-2025/view` |
| RedirectBuilder.SequencePatternShape | app/Services/RedirectBuilder.php:57-59 | a pattern `a{id}b` gets the decimal id and the base URL is ignored |
| RedirectBuilder.SequenceBaseShape | app/Services/RedirectBuilder.php:61-66 | otherwise the URL is the base without trailing slashes, `/`, the id, `/index.html` |
| RedirectBuilder.SequenceBaseExample | tests/Unit/RedirectBuilderTest.php:70-80 | base `https://example.com/pdf` with id 11 gives `.../pdf/11/index.html` |
| RedirectBuilder.SequencePatternExample | tests/Unit/RedirectBuilderTest.php:82-89 | pattern `issue{id}/` with id 200 gives `.../issue200/` |
| RedirectBuilder.SequenceUrlDeterminesId | app/Services/RedirectBuilder.php:55-67 | different issues give different sequence URLs |
| RedirectBuilder.TestDates | tests/Unit/RedirectBuilderTest.php:50-68 | the civil days of the test dates 2025-01-15 and 2025-11-01 |
| Newspapers.WithLatestId | app/Models/Newspaper.php:120-138 | sets the id and `updated_at`; every other field is unchanged |
| Newspapers.WithRedirectUrl | app/Models/Newspaper.php:140-151 | sets `last_redirect_url` and `updated_at`; every other field is unchanged |
| Newspapers.WithIncrement | app/Models/Newspaper.php:163-176 | sets the id, the day marker and `updated_at`; every other field is unchanged |
| Newspapers.Patched | app/Models/Newspaper.php:124-130 | `UPDATE ... WHERE id`: same keys, only that row replaced |
| Newspapers.Store.SetLocalLatestId | app/Models/Newspaper.php:120-138 | on commit the row and the record get the new id; a storage failure rolls back, changes nothing and is re-raised |
| Newspapers.Store.UpdateLastRedirectUrl | app/Models/Newspaper.php:140-151 | writes the URL and the stamp to the row and the record |
| Newspapers.Store.MarkIncremented | app/Models/Newspaper.php:163-176 | writes the id, the marker and the stamp |
| Newspapers.Store.RollbackIncrement | app/Models/Newspaper.php:178-189 | writes the previous id and the stamp; the marker is untouched |
| Newspapers.FindBySlug | app/Models/Newspaper.php:191-201 | finds something exactly when a row has that slug, and that row is returned |
| Newspapers.FindById | app/Models/Newspaper.php:203-213 | finds something exactly when the key is present, and returns the row under it |
| Newspapers.All | app/Models/Newspaper.php:218-223 | every row exactly once, strictly sorted by slug |
| Newspapers.AllIsSnapshot | app/Models/Newspaper.php:218-223 | each listed record is the row under its own id, with no id twice |
| Newspapers.LeastSlugKey | app/Models/Newspaper.php:220 | the key of the row that sorts first by slug |
| Newspapers.SlugBeforeTransitive | app/Models/Newspaper.php:220 | the slug order is transitive |
| Newspapers.SlugBeforeTotal | app/Models/Newspaper.php:220 | the slug order is total |
| Newspapers.Inserted | app/Models/Newspaper.php:225-243 | `create`'s row: the given columns, an absent cutover hour as 8, both stamps equal |
| Newspapers.InsertKeepsWellFormed | app/Models/Newspaper.php:225-243 | inserting a free slug under a fresh key keeps keys equal to ids and slugs unique |
| Newspapers.Store.Create | app/Models/Newspaper.php:225-243 | a taken slug is refused with no change; otherwise the row is inserted under the next key |
| Newspapers.AsStatusRow | app/Models/Newspaper.php:245-262 | `days_since_increment` is null exactly when there is no marker; otherwise it is the exact `%a` whole-day count: days since a past marker, and for a marker ahead the days to it, one fewer once the current day has begun; the public columns are copied |
| CronIncrement.StatusCode | scripts/cron_increment.php:81-82 | `preg_match` of `#HTTP/\d\.\d\s+(\d{3})#` anywhere in a header line: the three digits of the leftmost match, or none |
| CronIncrement.SpaceRun | scripts/cron_increment.php:81 | `\s+` consumes exactly the leading whitespace run |
| CronIncrement.StatusCodeLeftmost | scripts/cron_increment.php:81 | `preg_match` returns the code of the leftmost position where `HTTP/d.d\s+ddd` matches |
| CronIncrement.StatusLineExample | scripts/cron_increment.php:81-83 | `HTTP/1.1 200 OK` gives 200 |
| CronIncrement.NoStatusExample | scripts/cron_increment.php:81 | `Location: x` gives no code |
| CronIncrement.FirstStatusIsFirst | scripts/cron_increment.php:80-86 | the code comes from the first header line that carries one, and from no earlier line |
| CronIncrement.RedirectFirstDecides | scripts/cron_increment.php:80-86 | a first status line below 400 decides success, whatever follows |
| CronIncrement.HeadOk | scripts/cron_increment.php:71-86 | true exactly when there is a header list and its first status line carries a code below 400 |
| CronIncrement.HeadRequest | scripts/cron_increment.php:62-87 | the loop's answer: no headers is false; otherwise the first status line decides (< 400); no status line is false |
| CronIncrement.CronStep | scripts/cron_increment.php:36-59 | one iteration: skip a non-sequence paper; advance; stop if the id did not move; build the URL of the new id, aborting on failure; on a passing HEAD check record the URL, otherwise write back the previous id |
| CronIncrement.CronPass | scripts/cron_increment.php:34-60 | the steps over the snapshot in order, the first abort ending the run |
| CronIncrement.AdvancedId | app/Services/SequenceService.php:55-61 | the id the advance gives: the id (null as 0) plus the `%a` distance from the marker, or the id itself without a marker |
| CronIncrement.AdvancedIdOfAdvance | scripts/cron_increment.php:41-46 | `AdvancedId` is the `afterId` the job reads back, and when it equals `beforeId` the stored id is untouched |
| CronIncrement.CronStepFrame | scripts/cron_increment.php:35-59 | a step rewrites at most the visited row and never a key, id, slug or type; non-sequence papers are skipped |
| CronIncrement.CronStepSettles | scripts/cron_increment.php:40-59 | a completed step leaves the marker on today and changes only id, marker, URL and stamp; an unmoved id keeps id and URL; a moved id whose URL passes the check is kept with that URL recorded; one whose URL fails is replaced by the previous id (null as 0) with the URL untouched |
| CronIncrement.CronStepNoAdvance | scripts/cron_increment.php:40-46 | when the advance leaves the id where it was, the step writes the advance and nothing else, and the id is as before |
| CronIncrement.CronStepOutcomes | scripts/cron_increment.php:40-59 | a marker d > 0 days away: the step completes with the marker on today; a passing check keeps id + d with its URL recorded; a failing check restores the previous id and leaves the URL |
| CronIncrement.CronStepAbortKeepsAdvance | scripts/cron_increment.php:41-48 | a builder failure ends the run with the advance already stored |
| CronIncrement.CronPassAbortSticks | scripts/cron_increment.php:34-60 | after an abort no further paper is visited |
| CronIncrement.PassInvariantStep | scripts/cron_increment.php:35-59 | one iteration keeps the pass invariant |
| CronIncrement.CronPassInvariant | scripts/cron_increment.php:34-60 | the invariant holds after every prefix of the snapshot |
| CronIncrement.CronRunGuarantees | scripts/cron_increment.php:34-60 | a whole run keeps identities and leaves non-sequence papers alone; a completed run leaves every sequence paper settled as `CronStepSettles` states: a moved id is kept with its URL recorded exactly when the check passed, and is otherwise restored |
| CronIncrement.CronRerunNoop | scripts/cron_increment.php:40-46 | when every sequence paper is marked today, a run changes nothing |
| CronIncrement.CronTwiceSameDay | scripts/cron_increment.php:34-60 | a second run on the same day changes nothing, whatever the network answers |
| CronIncrement.VisitPaper | scripts/cron_increment.php:35-59 | the loop body does exactly `CronStep` to the table |
| CronIncrement.VisitAll | scripts/cron_increment.php:35-60 | the loop does exactly `CronPass` to the table |
| CronIncrement.RunCron | scripts/cron_increment.php:34-60 | the job does `CronPass` over the slug-ordered snapshot |
| PublicController.HandleRedirect | app/Controllers/PublicController.php:36-54 | the answer is `RedirectResponse`; only a redirect writes, and it writes its own URL to the row with that slug |
| PublicController.UnknownSlugNotFound | app/Controllers/PublicController.php:38-43 | an unknown slug is a 404 |
| PublicController.KnownSlugFound | app/Controllers/PublicController.php:38-43 | a known slug is never a 404 |
| PublicController.SequenceRedirect | app/Controllers/PublicController.php:47-52 | a sequence paper with a base URL is sent to the cutover-adjusted issue |
| PublicController.DateRedirect | app/Controllers/PublicController.php:47-52 | a date paper is sent to its pattern filled with today's date |
| PublicController.SequenceRedirectExample | tests/Feature/PublicRedirectTest.php:93-100 | arabnews with id 5 and cutover 23 is sent to `/4/index.html` |
| DashboardController.ResolveSequencePaper | app/Controllers/Admin/DashboardController.php:68-78 | finds something exactly when a sequence paper has the slug |
| DashboardController.AdjustedId | app/Controllers/Admin/DashboardController.php:61-63 | null read as 0, plus delta, clamped at 0 |
| DashboardController.ClampedValue | app/Controllers/Admin/DashboardController.php:43-49 | `max(0, value)` |
| DashboardController.ResolvedIsRow | app/Controllers/Admin/DashboardController.php:68-78 | the resolved paper is the row under its own key |
| DashboardController.AdjustEffect | app/Controllers/Admin/DashboardController.php:54-66 | only the matching sequence row changes, to the clamped sum; everything else is untouched |
| DashboardController.SetEffect | app/Controllers/Admin/DashboardController.php:41-52 | only the matching sequence row changes, to the clamped value |
| DashboardController.IncrementThenDecrement | app/Controllers/Admin/DashboardController.php:31-39 | decrement undoes increment; at 0 decrement stays 0 |
| DashboardController.SetIdempotent | app/Controllers/Admin/DashboardController.php:41-52 | setting a value twice is setting it once |
| DashboardController.Dashboard.Adjust | app/Controllers/Admin/DashboardController.php:54-66 | refused: error flash and no write; committed: adjusted table and success flash; storage failure: re-raised with no change |
| DashboardController.Dashboard.Increment | app/Controllers/Admin/DashboardController.php:31-34 | refused: error flash and no write; committed: the id +1 (clamped) and the "adjusted" flash; storage failure: re-raised with no change and no flash |
| DashboardController.Dashboard.Decrement | app/Controllers/Admin/DashboardController.php:36-39 | refused: error flash and no write; committed: the id -1, never below 0, and the "adjusted" flash; storage failure: re-raised with no change and no flash |
| DashboardController.Dashboard.Set | app/Controllers/Admin/DashboardController.php:41-52 | as adjust, writing the clamped posted value |
| DashboardController.UpdateIdExamples | tests/Feature/UpdateIdTest.php:76-92 | arabnews at 10 goes to 11 on increment, and to 42 on set 42 |
| HealthService.Status | app/Services/HealthService.php:24-45 | the count is the number of rows; pending holds exactly the overdue sequence slugs, strictly slug-sorted; one status row per paper, in order |
| HealthService.CollectPending | app/Services/HealthService.php:30-37 | the loop collects `PendingSlugs` |
| HealthService.StatusRows | app/Services/HealthService.php:43 | one status row per paper, in order |
| HealthService.PendingSlugs | app/Services/HealthService.php:29-37 | the slugs, in list order, of the sequence papers with a marker more than one `%a` day away from now |
| HealthService.PendingSlugsMembers | app/Services/HealthService.php:30-37 | a slug is listed exactly when some pending paper carries it |
| HealthService.PendingSlugsSorted | app/Services/HealthService.php:30-37 | the list keeps the slug order of `all()` |
| HealthService.PendingByDay | app/Services/HealthService.php:33-35 | with a marker not after today, a paper is pending exactly when it is two days or more behind |
| HealthService.NoPendingSlugs | app/Services/HealthService.php:30-37 | the list is empty exactly when no paper is pending |
| HealthService.CompletedRunClearsPending | app/Services/HealthService.php:30-37 | after a completed cron run, nothing is pending that day or the next |
| AppKernel.CompilePattern | app/Kernel.php:213-217 | one segment per `/`-piece, each compiled on its own; literal pieces kept as text |
| AppKernel.CompileSegmentParam | app/Kernel.php:213-217 | a piece becomes a placeholder exactly when it is `{name}` with a non-empty name free of `}` and `/` |
| AppKernel.MatchSegments | app/Kernel.php:215-216 | the anchored match of the compiled regex: as many pieces as segments, literals equal, each placeholder one non-empty piece, captures in order |
| AppKernel.RequestPath | app/Kernel.php:75 | `parse_url(...) ?: '/'`: no path, `""` and `"0"` read as `/` |
| AppKernel.RouteMatch | app/Kernel.php:77-80 | a route answers only its own method, and then by matching its segments against the `/`-pieces of the path |
| AppKernel.MatchIsFill | app/Kernel.php:81-88 | a match succeeds only on the path the pattern describes with the captured, non-empty values |
| AppKernel.FillIsMatch | app/Kernel.php:81-88 | every such path with non-empty values matches and captures them in order |
| AppKernel.RouteMatchesFilledPattern | app/Kernel.php:77-88 | a route answers exactly on its pattern filled with the captured values |
| AppKernel.FilledPatternMatches | app/Kernel.php:77-88 | a pattern filled with slash-free non-empty values is answered with those values |
| AppKernel.IncrementPatternSegments | routes/web.php:15 | the dashboard increment pattern compiles to four literals and one placeholder |
| AppKernel.IncrementRouteMatch | routes/web.php:15 | the increment route captures the slug and does not match an empty one |
| AppKernel.FirstMatchFrom | app/Kernel.php:76-90 | a found route matches and lies in range |
| AppKernel.FirstMatchIsFirst | app/Kernel.php:76-90 | the answer is the first matching route: no earlier route matches |
| AppKernel.NoMatchMeansNotFound | app/Kernel.php:76-94 | no answer exactly when no route matches |
| AppKernel.Classes | app/Kernel.php:205-206 | each name is mapped through the middleware map |
| AppKernel.Reversed | app/Kernel.php:203 | `array_reverse`: element i is element n-1-i |
| AppKernel.BuildPipeline | app/Kernel.php:203-210 | the chain runs the middleware in listed order, the first outermost |
| AppKernel.Kernel.Register | app/Kernel.php:62-71 | appends one route with the upper-cased method and the compiled pattern |
| AppKernel.Kernel.Handle | app/Kernel.php:73-95 | the first matching route is dispatched with its values and middleware; otherwise 404 |
| AppKernel.Purged | app/Kernel.php:219-230 | the token map without the tokens whose time is not an integer or lies more than the ttl before now |
| AppKernel.Generated | app/Kernel.php:151-157 | the token stored at `now`, then the map purged |
| AppKernel.Validated | app/Kernel.php:159-168 | purge; the answer is whether the token is still there, and the token is removed |
| AppKernel.PurgeKeepsFresh | app/Kernel.php:219-230 | the purge keeps exactly the tokens with an integer time no more than ttl old |
| AppKernel.PurgeIdempotent | app/Kernel.php:219-230 | purging again at the same time changes nothing; a later purge keeps no more |
| AppKernel.Kernel.PurgeOldTokens | app/Kernel.php:219-230 | the loop leaves `Purged` of the tokens |
| AppKernel.Kernel.GenerateCsrfToken | app/Kernel.php:151-157 | stores the token with the current time, then purges |
| AppKernel.GeneratedTokenLifetime | app/Kernel.php:151-168 | a fresh token is accepted until ttl seconds have passed and refused after |
| AppKernel.Kernel.ValidateCsrfToken | app/Kernel.php:159-168 | purge, then accept and remove a token that is still present |
| AppKernel.TokenSingleUse | app/Kernel.php:159-168 | a token is never accepted twice |
| AppKernel.Kernel.AddFlash | app/Kernel.php:170-173 | appends one message |
| AppKernel.Kernel.ConsumeFlash | app/Kernel.php:178-183 | returns the queue oldest first and leaves it empty |
| AuthController.AttemptKey | app/Controllers/Admin/AuthController.php:110-114 | the text the key hashes: the username, a vertical bar, the client address |
| AuthController.RateLimited | app/Controllers/Admin/AuthController.php:72-84 | an entry for the key whose window has not passed and whose count has reached the limit |
| AuthController.Checked | app/Controllers/Admin/AuthController.php:76-80 | the entries after the check: an expired entry for the key is dropped, all else kept |
| AuthController.Decoded | app/Controllers/Admin/AuthController.php:119-137 | a missing, blank, unreadable or invalid cache reads as no entries |
| AuthController.Recorded | app/Controllers/Admin/AuthController.php:87-100 | a missing or expired entry restarts at 1, a live one counts up; the expiry is now + window; other keys are untouched |
| AuthController.RecordAfterCheck | app/Controllers/Admin/AuthController.php:68-100 | dropping an expired entry first does not change what a failure records |
| AuthController.ExpiredNeverLimits | app/Controllers/Admin/AuthController.php:76-81 | an expired entry never limits, and the check drops it |
| AuthController.FailuresAccumulate | app/Controllers/Admin/AuthController.php:87-100 | n failures within the window leave a count of n, expiring a window after the last |
| AuthController.Lockout | app/Controllers/Admin/AuthController.php:68-100 | after such failures the key is limited exactly while there are at least `limit` of them and the window since the last has not passed |
| AuthController.ClearedNeverLimits | app/Controllers/Admin/AuthController.php:102-108 | after a clear the key is not limited |
| AuthController.Auth.IsRateLimited | app/Controllers/Admin/AuthController.php:68-85 | the answer is `RateLimited`; an expired entry is removed and written back |
| AuthController.Auth.RecordAttempt | app/Controllers/Admin/AuthController.php:87-100 | the cache becomes `Recorded` |
| AuthController.Auth.ClearAttempts | app/Controllers/Admin/AuthController.php:102-108 | the key's entry is removed |
| AuthController.Auth.Login | app/Controllers/Admin/AuthController.php:31-58 | limited: "too many" flash and nothing else; good credentials: signed in, key cleared, `/admin`; bad: one failure recorded and "invalid" flash |
| AuthController.RateLimitTest | tests/Feature/AdminLoginTest.php:80-92 | with limit 1 the first wrong password is counted and the second is refused |
| Env.Sanitize | app/Helpers/Env.php:39-51 | `trim`, then `Unquoted` |
| Env.Unquoted | app/Helpers/Env.php:42-50 | empty stays empty; a value starting and ending with the same quote loses the first and last character; any other value is kept |
| Env.ParseLine | app/Helpers/Env.php:26-32 | a blank or `#` line is skipped; otherwise the name and value around the first `=`, trimmed, the value sanitized; no `=` or an empty name fails |
| Env.Apply | app/Helpers/Env.php:25-36 | the assignments in order, a later one overwriting an earlier one, stopping at the first failing line with its error |
| Env.SanitizeQuoted | app/Helpers/Env.php:39-51 | a quoted value loses exactly its quotes |
| Env.SanitizePlain | app/Helpers/Env.php:39-51 | an unquoted value with nothing to trim is unchanged |
| Env.SanitizeTrim | app/Helpers/Env.php:31-32 | trimming before `sanitize` changes nothing |
| Env.AssignLine | app/Helpers/Env.php:31-35 | `NAME=value` assigns the sanitized value to NAME, split at the first `=` |
| Env.QuotedAssign | app/Helpers/Env.php:31-51 | `NAME="x"` assigns exactly x |
| Env.Parsed | app/Helpers/Env.php:25-31 | one parsed step per line, in order |
| Env.LastLineWins | app/Helpers/Env.php:33-35 | a load that ends leaves each assigned name at its last value and every other variable as it was |
| Env.AbortSticks | app/Helpers/Env.php:25-36 | after a failing line no later line is applied |
| Env.Environment.Load | app/Helpers/Env.php:14-37 | missing file: no change; unreadable: error before any line; otherwise the three maps become `Apply` of the lines and a stopping error is raised |
| Env.Environment.LoadLines | app/Helpers/Env.php:25-36 | the lines parsed, then applied to all three maps |
| Env.Environment.ApplyLines | app/Helpers/Env.php:25-36 | the loop applies the steps in order up to the first failure |
| NewspaperSeeder.SeedRecords | database/seeders/NewspaperSeeder.php:12-35 | four records: two sequence papers, one date paper, one monthly paper |
| NewspaperSeeder.Seeded | database/seeders/NewspaperSeeder.php:37-43 | the records in order, each inserted under the next key unless a row already carries its slug |
| NewspaperSeeder.SeedingKeepsRows | database/seeders/NewspaperSeeder.php:37-43 | existing rows are never modified and the table stays valid |
| NewspaperSeeder.SeedingCoversSlugs | database/seeders/NewspaperSeeder.php:37-43 | afterwards every record's slug is present |
| NewspaperSeeder.SeedingAddsRecords | database/seeders/NewspaperSeeder.php:37-43 | every added row is a record inserted under a fresh key |
| NewspaperSeeder.SeedingPresentIsNoop | database/seeders/NewspaperSeeder.php:37-43 | when all slugs are present, seeding changes nothing |
| NewspaperSeeder.SeedingIdempotent | database/seeders/NewspaperSeeder.php:37-43 | running twice is running once |
| NewspaperSeeder.SeedDistinctIntoEmpty | database/seeders/NewspaperSeeder.php:37-43 | distinct records seeded into an empty table get keys 1, 2, ... in order |
| NewspaperSeeder.SeedEmptyTable | database/seeders/NewspaperSeeder.php:12-43 | on an empty table the four papers get keys 1 to 4 |
| NewspaperSeeder.Run | database/seeders/NewspaperSeeder.php:37-43 | the table ends as `Seeded` of the four records |
| NewspaperSeeder.SeedAll | database/seeders/NewspaperSeeder.php:37-43 | the loop leaves the table as `Seeded` of the records |

## Left out

- The database is modelled as an in-memory map.
  - SQL text, PDO and `FOR UPDATE` locking are left out.
  - A transaction is one method that applies all its writes or none.
  - Several cron processes running at once are not modelled.
- Storage errors are modelled only where the source wraps a transaction around its writes.
  In `setLocalLatestId` and `incrementForKsaDay`, `storageOk` decides whether the transaction
  commits; a failure rolls back and is re-raised. Other writes always succeed in the model.
- CronIncrement.RunCron: the job's writes are taken to commit. A storage error is uncaught in
  the script and would end the run; the model does not cover that.
- The network part of `headRequest` is not modelled. The function `probe` gives, for a URL,
  the header lines the stream would report, or nothing.
- Log writes are not modelled: the sequence service log and the cron `error_log`.
- JSON is left out: the attempts cache is its decoded map, and the health report is a
  datatype. The report's `DATE_ATOM` timestamp text is not modelled.
- These primitives are inputs:
  - the random CSRF token;
  - the `sha256` of the attempt key (the key is the hashed text);
  - `password_verify` and `hash_equals`, as the boolean `credentialsOk`.
- `session_regenerate_id` is left out.
- `time()` and the clock are parameters. `updated_at` and `created_at` are a `stamp`
  parameter, not wall-clock text.
- `DateTimeImmutable` is reduced to a civil day number and a second of the day in
  Asia/Riyadh, which has no daylight saving time.
- Route patterns are matched segment by segment. The regular expression built by
  `compilePattern` also lets unescaped metacharacters and a trailing newline through; that
  is not modelled.
- AppKernel.CompilePattern: only a whole piece `{name}` is a placeholder. The source also
  captures a `{name}` inside a piece (`/issue-{id}` matching `/issue-7`); the model reads such
  a piece as literal text. No registered route has one.
- Slugs are compared by code point, as in the SQLite test database. The MySQL schema's
  `utf8mb4_unicode_ci` collation is not modelled. Under it, `WHERE slug = :slug`, the `UNIQUE`
  slug check and `ORDER BY slug` ignore case: `findBySlug('ArabNews')` finds `arabnews`, where
  `Newspapers.FindBySlug` finds nothing and the public redirect answers 404.
- The posted `value` of `set` arrives as an integer. The `(int)` cast of the request text
  happens before the model.
- The file-to-lines step of `Env::load` is not modelled. The file arrives as its lines, with
  empty lines already dropped. `putenv`'s effect is the process map.
- Plumbing is not modelled: views, `render`, `make`, HTTP headers and `exit`, `showLogin`,
  `logout`, `index`, the config getters, `Newspaper::refresh`, and the middleware classes'
  own behaviour (only their order is).
- `SequenceService.IncrementForDay` builds the returned record from the locked row, as
  intended. The source calls the private `Newspaper` constructor there; that visibility
  error is not modelled.
- SequenceService.CutoverMonotone: stated for a stored id that is not negative, because
  `max(0, id-1)` can exceed a negative id.
- PublicController.SequenceRedirectExample: stated for a time before 23:00, the cutover hour
  of the fixture. The feature test itself reads the real clock.
- CronIncrement.CronStepAbortKeepsAdvance: follows the code, not the description. A URL
  builder exception after a committed advance is not caught in the loop, so the run stops
  there.
- Newspapers.Store.RollbackIncrement: a null previous id is written as 0, as the cron's
  `(int)` cast does. The marker is not restored.
- Env.Environment.Load: a line without `=` stops the load with `MissingValue`. Under strict
  types, `sanitize` refuses the missing value. A line with an empty name stops it with
  `EmptyName`, because `putenv` refuses it. Lines before either are already applied.
