# CineFlix back end: seat holds, bookings, showtimes, reports and admin guards

This project models the core of the CineFlix cinema back end (an Express server over
PostgreSQL with socket.io) and proves properties of that model in Dafny.

It covers these parts:

- **The seat controller.** A module-level registry of temporary seat holds, keyed by
  showtime and seat. A sweep evicts holds older than five minutes. The handlers list a
  showtime's seats with a "temporarily reserved" flag, place or release a hold, book
  held seats in one transaction, and cancel a booking. The parse of the aggregated
  seat-number text of a user's bookings is modelled too.
- **The showtime controller.** Adding a showtime inserts its numbered seats after an
  overlap check. Moving a showtime re-checks overlap against every other showtime.
  Deleting is refused while any booking refers to the showtime. The joined
  showtime/seat rows are folded into one record per showtime.
- **The reports controller** (TypeScript source and its compiled twin). The summary
  counts reports by type, by admin action and by user action, and ranks the five most
  active admins. The report-type filter is split on commas. The audit-log handler
  validates its request before writing.
- **The admin middleware** (TypeScript source and its compiled twin). `adminOnly`
  checks the role. `hasPermission(role, action)` checks the comma-separated access
  levels of the user's permissions.

How the model is organised:

- The database is the value `Store.Tables`: maps from primary key to row, plus the next
  value of each id sequence.
- A transaction is all-or-nothing. Whether one of its writes fails is a `fault`
  parameter.
- Time is an integer number of milliseconds, passed in as `now`.
- A socket.io emit is an `Event` appended to `SeatsController.events`.
- The setInterval timer is not modelled. Each run of its callback is a call of
  `SeatsController.Sweep(now)`.
- The report service is not modelled. Its answers are parameters: `fetched` for
  `getReports`, and a `SinkResult` for `createReport`.

Files:

- `js_values.dfy`: `Option`, `Response`, and JavaScript truthiness of ids and strings.
- `strings.dfy`: `split`, `join`, `trim` and `parseInt` on `seq<char>`, with their
  round trips.
- `sorting.dfy`: a stable insertion sort by an integer key (`Array.prototype.sort`),
  `slice`, and small generic sequence lemmas.
- `store.dfy`: the tables and the seat queries.
- `admin_only.dfy`: the admin middleware.
- `reports.dfy`: the reports controller.
- `showtimes.dfy`: the showtime controller.
- `seats.dfy`: the seat controller, as the class `SeatsController` with fields `holds`,
  `db` and `events`.

Each hold check is modelled exactly as written:

- A hold counts as valid whenever its entry exists. Its timestamp is only looked at by
  the sweep (`Seats.HoldAgeIgnored`).
- Reserving a seat you already hold answers 409, the same as a seat someone else holds
  (`Seats.ReserveOwnHoldConflicts`).

## Model

| member | source | states |
|---|---|---|
| AdminOnly.AdminGate | src/middleware/adminOnly.ts:4-10 | passes to the next handler exactly when a user is signed in with role "admin"; otherwise 403 (the compiled dist/middleware/adminOnly.js:4-10 is the same) |
| AdminOnly.TrimAll | src/middleware/adminOnly.ts:17 | the mapped list has one trimmed entry per piece, in order |
| AdminOnly.Tokens | src/middleware/adminOnly.ts:17 | definition: the access level split on commas, each piece trimmed; its meaning is stated by TokensOfJoin and ReadWriteDeleteTokens |
| AdminOnly.HasAccess | src/middleware/adminOnly.ts:14-21 | definition: `some` over the permissions, scanning from the front; its meaning is stated by HasAccessIff |
| AdminOnly.PermissionGate | src/middleware/adminOnly.ts:12-31 | passes exactly when some permission of the user (none when the list is missing) grants the action for the role; otherwise 403 (the compiled dist/middleware/adminOnly.js:12-30 is the same) |
| AdminOnly.HasAccessIff | src/middleware/adminOnly.ts:14-21 | `some` succeeds iff there is an index whose permission has the role and lists the action among its trimmed comma-separated tokens (the compiled dist/middleware/adminOnly.js:14-21 is the same) |
| AdminOnly.NoPermissionsDenied | src/middleware/adminOnly.ts:14 | a user with no permissions list, or no user, gets 403 (the compiled dist/middleware/adminOnly.js:14 is the same) |
| AdminOnly.AccessIgnoresOrder | src/middleware/adminOnly.ts:15-21 | two permission lists with the same members grant the same access |
| AdminOnly.AddingNeverRevokes | src/middleware/adminOnly.ts:15-21 | adding a permission at either end never removes access |
| AdminOnly.OtherRolesNeverGrant | src/middleware/adminOnly.ts:16-20 | permissions for other roles never grant access (the compiled dist/middleware/adminOnly.js:16-20 is the same) |
| AdminOnly.TokensOfJoin | src/middleware/adminOnly.ts:17 | the tokens of a comma-joined list are its pieces, each trimmed |
| AdminOnly.PaddedTokenGrants | src/middleware/adminOnly.ts:17-18 | an action written with whitespace around it in any position of the list is granted |
| AdminOnly.ReadWriteDeleteTokens | src/middleware/adminOnly.ts:17 | "read, write, delete" yields exactly the tokens read, write, delete |
| AdminOnly.ExactTokenMatch | src/middleware/adminOnly.ts:18 | `includes` matches whole tokens: "read, write, delete" grants write but neither wr nor writ (the compiled dist/middleware/adminOnly.js:18 is the same) |
| Strings.Split | src/middleware/adminOnly.ts:17 | `split` on one separator character: at least one piece, and no piece holds the separator |
| Strings.Trim | src/middleware/adminOnly.ts:17 | `trim`: the result has no leading or trailing whitespace and is no longer than the input |
| Strings.ParseInt | dist/controllers/seatsController.js:331 | definition: `parseInt` in base 10, skipping leading whitespace, an optional sign, then the longest run of digits; None (NaN) without digits; its meaning is stated by ParseIntDecimal |
| Strings.SplitJoin | src/middleware/adminOnly.ts:17 | `split(',')` of a comma-join of comma-free pieces gives back the pieces |
| Strings.JoinSplit | src/controllers/reportsController.ts:13 | joining the pieces of `split(',')` with commas gives back the string |
| Strings.TrimPadded | src/middleware/adminOnly.ts:17 | `trim` removes exactly the surrounding whitespace of a trimmed word |
| Strings.TrimIdempotent | src/middleware/adminOnly.ts:17 | trimming twice is trimming once |
| Strings.ParseIntDecimal | dist/controllers/seatsController.js:331 | `parseInt` of an integer's decimal text is that integer |
| Reports.Tally | src/controllers/reportsController.ts:66-86 | definition: a counter that started empty and counted the keys in order; its meaning is stated by TallyCounts, TallyTotal and TallyWellFormed |
| Reports.Bump | src/controllers/reportsController.ts:67 | counting key k (from 0 when absent) raises its count by one and the total by one; a new key goes last, an old key keeps its place |
| Reports.BumpOther | src/controllers/reportsController.ts:67 | counting one key leaves every other key's count unchanged |
| Reports.BumpWellFormed | src/controllers/reportsController.ts:67 | counting keeps keys distinct and every count positive |
| Reports.WellFormedEntries | src/controllers/reportsController.ts:62-78 | in a well-formed counter no key appears twice and every count is at least 1 |
| Reports.EntryCount | src/controllers/reportsController.ts:88 | in a well-formed counter each entry `Object.entries` lists carries the value its key looks up |
| Reports.TallyCounts | src/controllers/reportsController.ts:66-78 | after counting a list of keys, each key's count is how many times it occurs in the list |
| Reports.TallyTotal | src/controllers/reportsController.ts:66-78 | the counts add up to the number of keys counted |
| Reports.TallyWellFormed | src/controllers/reportsController.ts:66-78 | the counter's keys are exactly the keys seen, each once |
| Reports.AdminActionKeysFrom | src/controllers/reportsController.ts:70-72 | an action is counted among admin actions iff some report has a truthy admin id and that truthy action (the compiled dist/controllers/reportsController.js:91-93 is the same) |
| Reports.UserActionKeysFrom | src/controllers/reportsController.ts:75-77 | an action is counted among user actions iff some report has a truthy user id and that truthy action (the compiled dist/controllers/reportsController.js:94-96 is the same) |
| Reports.CountReports | src/controllers/reportsController.ts:62-78 | the first loop yields the tallies of the report types, of the admin actions and of the user actions (the compiled dist/controllers/reportsController.js:86-97 is the same) |
| Reports.CountActivity | src/controllers/reportsController.ts:81-86 | the second loop yields the tally of admin names over reports with a truthy admin id and admin name (the compiled dist/controllers/reportsController.js:98-103 is the same) |
| Reports.TopAdmins | src/controllers/reportsController.ts:88-91 | definition: the entries stably sorted by descending count, first five kept; its meaning is stated by TopAdminsRanked, TopAdminsOmitLess and TopAdminsCount |
| Sorting.SortByStable | src/controllers/reportsController.ts:89 | the sort is stable: the entries with any one count come out in the order the counter lists them |
| Sorting.InsertStable | src/controllers/reportsController.ts:89 | inserting places the new entry after every entry with the same count |
| Reports.TopAdminsRanked | src/controllers/reportsController.ts:88-91 | the ranking holds exactly min(5, number of admins) entries, all from the counter, by non-increasing count (the compiled dist/controllers/reportsController.js:104-107 is the same) |
| Reports.TopAdminsCount | src/controllers/reportsController.ts:81-91 | every ranked admin is a counted name and carries the number of reports counted under that name |
| Reports.TopAdminsOmitLess | src/controllers/reportsController.ts:88-91 | every admin left out of the ranking has no more reports than any admin in it |
| Reports.SummaryOf | src/controllers/reportsController.ts:93-103 | definition: the summary body of a list of reports; its meaning is stated by SummaryMeaning |
| Reports.Summarize | src/controllers/reportsController.ts:62-98 | the loops and the ranking compute the summary body for the fetched reports |
| Reports.SummaryMeaning | src/controllers/reportsController.ts:93-98 | totalReports is the number of reports and the by-type counts add up to it; each count is the number of qualifying reports; the counters are well formed; at most five top admins, each with the number of reports under its name (the compiled dist/controllers/reportsController.js:108-113 is the same) |
| Reports.GetReportSummary | src/controllers/reportsController.ts:49-109 | 400, without asking the service, iff a date is missing or empty; otherwise asks for exactly that period, answers 500 if the service throws, else 200 with the summary and the period (the compiled dist/controllers/reportsController.js:75-124 is the same) |
| Reports.ReportTypes | src/controllers/reportsController.ts:12-14 | a string filter becomes its non-empty list of comma-free pieces; an array passes through; absent stays absent (the compiled dist/controllers/reportsController.js:41-43 is the same) |
| Reports.ReportTypesRoundTrip | src/controllers/reportsController.ts:12-13 | the pieces join back to the filter string, and a comma-joined list of types splits back to that list |
| Reports.CreateAuditLog | src/controllers/reportsController.ts:111-146 | 403 iff no truthy admin id; 400 iff admin but type or data missing; the sink is called iff both checks pass, with the admin id, the user id (null when falsy), type and data; then 500 iff the sink fails, else 201 with the report id the sink gave, which is absent when the sink stored nothing (the compiled dist/controllers/reportsController.js:126-152 behaves the same; only its sink can succeed without an id) |
| Reports.AdminCheckFirst | src/controllers/reportsController.ts:115-118 | without an admin id the answer is 403 whatever the body says, and nothing is written (the compiled dist/controllers/reportsController.js:129-132 is the same) |
| Showtimes.EndTime | dist/controllers/showtimesController.js:153-155 | definition: the start plus the film's duration in minutes, in milliseconds |
| Showtimes.Conflicts | dist/controllers/showtimesController.js:159-161 | definition: the three-clause WHERE test as written; its meaning is stated by ConflictMeansSharedInstant and BackToBackAccepted |
| Showtimes.AddConflict | dist/controllers/showtimesController.js:156-163 | definition: some showtime whose film row exists meets the slot |
| Showtimes.UpdateConflict | dist/controllers/showtimesController.js:218-225 | definition: some showtime other than the one being moved meets the slot; UpdateIgnoresItself states the exclusion |
| Showtimes.ConflictMeansSharedInstant | dist/controllers/showtimesController.js:156-162 | for non-empty slots the conflict query matches exactly the showtimes that share an instant with the new slot |
| Showtimes.BackToBackAccepted | dist/controllers/showtimesController.js:159-161 | a slot that ends when another starts, or starts when it ends, is no conflict |
| Showtimes.NewSeatNumbers | dist/controllers/showtimesController.js:171-173 | the new seats are numbered exactly 1 to n, each number once |
| Showtimes.InsertSeats | dist/controllers/showtimesController.js:171-173 | the seat loop adds exactly those seats |
| Showtimes.AddShowtime | dist/controllers/showtimesController.js:140-194 | 400 for a missing or zero field, 404 for an unknown film, 409 for a conflicting slot, 500 with the tables unchanged if a write fails, else 201 with the new id and the tables with the showtime and its seats added |
| Showtimes.AddedShowtimeSeats | dist/controllers/showtimesController.js:167-174 | a successful add keeps the tables valid and consistent, and the new showtime owns exactly its inserted seats |
| Showtimes.UpdateShowtime | dist/controllers/showtimesController.js:196-249 | 400 iff a field is missing; 404 iff showtime or film unknown; 409 iff another showtime conflicts; 200 iff none of those and no fault, in which case only that showtime's film and times change; every other answer leaves the tables alone |
| Showtimes.UpdateIgnoresItself | dist/controllers/showtimesController.js:218-224 | the showtime being moved never conflicts with its own old slot |
| Showtimes.UpdateKeepsTables | dist/controllers/showtimesController.js:229-232 | a move keeps the tables valid and consistent |
| Showtimes.DeleteShowtime | dist/controllers/showtimesController.js:251-286 | 404 iff unknown; 400 iff some booking refers to it; 200 iff neither and no fault, in which case the showtime and exactly its seats go and nothing else changes |
| Showtimes.CancelledBookingBlocksDelete | dist/controllers/showtimesController.js:260-264 | a cancelled booking still blocks deletion |
| Showtimes.DeleteKeepsTables | dist/controllers/showtimesController.js:265-269 | a delete keeps the tables valid and consistent |
| Showtimes.FirstAppearance | dist/controllers/showtimesController.js:108-131 | the showtime ids in order of first appearance: distinct, and covering every row |
| Showtimes.FirstAppearanceFromRows | dist/controllers/showtimesController.js:111-122 | every listed id comes from some row |
| Showtimes.FirstAppearancePrefix | dist/controllers/showtimesController.js:108-131 | the ids of a prefix of the rows come first, in the same order |
| Showtimes.GroupRows | dist/controllers/showtimesController.js:108-131 | one record per distinct showtime, in first-appearance order, each holding its first row's columns and the seats of its rows with a truthy seat id, in row order |
| Showtimes.GroupedStep | dist/controllers/showtimesController.js:110-129 | one turn of the loop keeps the map and the records in step with the rows seen so far |
| Showtimes.RowStep | dist/controllers/showtimesController.js:110-129 | one more row opens its showtime's record if new, and appends its seat to that record only |
| Showtimes.SeatsForUnlisted | dist/controllers/showtimesController.js:123-129 | a showtime no row names has no seats |
| Store.SelectSeats | dist/controllers/seatsController.js:170 | a seat query returns every matching row exactly once |
| Store.SelectSeatIds | dist/controllers/seatsController.js:252-253 | the seat-id query returns the id of every matching seat exactly once |
| Store.SeatsOfShowtime | dist/controllers/seatsController.js:69-74 | the seats of the showtime, each once, ordered by seat number |
| Seats.ExpiryEvents | dist/controllers/seatsController.js:52-55 | one `seat_reservation_expired` emit per evicted key, in visiting order, to the showtime's room, with that hold's socket id |
| Seats.PartlySweptStep | dist/controllers/seatsController.js:49-51 | visiting one key deletes it exactly when its hold is older than the timeout |
| Seats.Unexpired | dist/controllers/seatsController.js:47-57 | definition: the holds the sweep keeps; its meaning is stated by SweepMeaning and LaterSweepKeepsLess |
| Seats.SweepHolds | dist/controllers/seatsController.js:45-59 | the sweep keeps exactly the unexpired holds and visits every expired key exactly once |
| Seats.SweepMeaning | dist/controllers/seatsController.js:50 | after a sweep no hold is older than five minutes; every younger hold is kept unchanged; sweeping again at the same instant changes nothing |
| Seats.LaterSweepKeepsLess | dist/controllers/seatsController.js:50 | a later sweep keeps no hold an earlier one evicts |
| Seats.SeatsController.Sweep | dist/controllers/seatsController.js:45-59 | the registry becomes its unexpired part; one expiry event per evicted hold is appended; the tables are untouched |
| Seats.Reserve | dist/controllers/seatsController.js:90-137 | 400 iff seat id or socket id missing; reserving: 409 with the holder iff an entry exists, else a new hold at `now` and one emit; releasing: 403 unless the caller holds it, else the hold is deleted and one emit; no other key changes |
| Seats.SeatsController.ReserveSeat | dist/controllers/seatsController.js:90-137 | applies `Reserve` to the registry and appends its emits; the tables are untouched |
| Seats.ReserveOwnHoldConflicts | dist/controllers/seatsController.js:101-108 | reserving a seat you already hold is 409 and leaves your hold with its old timestamp |
| Seats.ReserveThenRelease | dist/controllers/seatsController.js:109-130 | releasing a hold you just placed restores the registry; anyone else gets 403 |
| Seats.FreshHoldSurvivesSweep | dist/controllers/seatsController.js:50 | a new hold survives every sweep up to five minutes after it |
| Seats.Annotate | dist/controllers/seatsController.js:75-81 | every row kept as it is, flagged exactly when the registry has an entry for it |
| Seats.AnnotateCounts | dist/controllers/seatsController.js:75-81 | the annotated list holds each row as often as the row list, each with its right flag |
| Seats.SeatsController.GetSeatsByShowtime | dist/controllers/seatsController.js:60-88 | 404 for an unknown showtime; else 200 with each seat of the showtime exactly once, by seat number, flagged iff held |
| Seats.InvalidHolds | dist/controllers/seatsController.js:153-156 | the filter never lists more seats than were requested |
| Seats.InvalidHoldsMembers | dist/controllers/seatsController.js:153-156 | a seat is listed iff it was requested and the caller's socket has no entry for it; the list is empty iff the caller holds every requested seat |
| Seats.InvalidHoldsAppend | dist/controllers/seatsController.js:153-156 | the filter keeps request order |
| Seats.FirstProblem | dist/controllers/seatsController.js:169-179 | the first requested seat that is missing, of another showtime or not available, if any |
| Seats.Rejection | dist/controllers/seatsController.js:143-179 | the checks in source order: 400 for a missing or empty list, then 401 without a user, then 409 listing exactly the seats the caller does not hold, then 404 for an unknown showtime, then for the first unbookable seat 404 when it is missing or of another showtime and 409 when it is taken; no rejection iff every check passes |
| Seats.HoldAgeIgnored | dist/controllers/seatsController.js:153-156 | the booking checks never look at a hold's age: registries with the same holders reject alike |
| Seats.UnheldSeatListed | dist/controllers/seatsController.js:153-163 | a requested seat the caller does not hold gives 409 listing that seat |
| Seats.BookedTables | dist/controllers/seatsController.js:183-191 | definition: the tables after a committed booking; its meaning is stated by BookedTablesMeaning |
| Seats.BookedTablesMeaning | dist/controllers/seatsController.js:183-191 | a committed booking adds one confirmed booking under the next id, books exactly the listed seats under it, leaves other seats alone, and keeps the tables valid and consistent |
| Seats.SeatsController.BookSeats | dist/controllers/seatsController.js:139-223 | a rejected request changes nothing; a committed one answers 201 with the new booking id, books the seats, deletes their holds and emits `seats_booked`; a failed transaction answers 500, rolls the tables back, emits nothing, and leaves deleted only the holds removed before the failure |
| Seats.SeatsController.WriteBooking | dist/controllers/seatsController.js:180-217 | the transaction and its rollback, as in `BookSeats` |
| Seats.MarkBookedStep | dist/controllers/seatsController.js:186 | each update books one more seat under the booking |
| Seats.ReleaseHoldsStep | dist/controllers/seatsController.js:187-189 | each turn deletes one more seat's hold |
| Seats.CancelledTables | dist/controllers/seatsController.js:252-256 | definition: the tables after a committed cancellation; its meaning is stated by CancelledTablesMeaning |
| Seats.CancelledTablesMeaning | dist/controllers/seatsController.js:250-256 | after a cancellation no seat carries the booking, the booking is cancelled, cancelling again changes nothing, and valid consistent tables stay so |
| Seats.BookThenCancel | dist/controllers/seatsController.js:180-256 | cancelling a booking just made gives every seat back as it was; only the cancelled booking row remains |
| Seats.SeatsController.CancelBooking | dist/controllers/seatsController.js:225-287 | 401 without a user; 404 unless the booking is the user's; 400 once its showtime has started (no check when the showtime row is gone); 500 and no change on a fault; else 200, every seat of the booking released once, the booking cancelled and `booking_cancelled` emitted; holds untouched |
| Seats.SeatNumbers | dist/controllers/seatsController.js:331 | definition: no numbers for NULL or empty text, else `parseInt` of each comma-separated piece; its meaning is stated by SeatNumbersRoundTrip |
| Seats.ParseAll | dist/controllers/seatsController.js:331 | `parseInt` applied to each piece, in order |
| Seats.Decimals | dist/controllers/seatsController.js:307 | the decimal text of each seat number |
| Seats.NoCommaInDecimal | dist/controllers/seatsController.js:307 | a number's decimal text is non-empty and holds no comma |
| Seats.SeatNumbersRoundTrip | dist/controllers/seatsController.js:307-331 | seat numbers joined with commas are read back exactly; a booking with no seats (NULL) reads back as no numbers |

## Left out

- Database reads that fail, for example a SELECT that throws. Only writes inside a transaction take a fault parameter. The model's only 500s come from those writes and from the report service.
- The database handle in `dist/config/db.js` takes a fresh pool client for every statement, including BEGIN, COMMIT and ROLLBACK. The real transactions are therefore not atomic. The model treats each transaction as all-or-nothing, as the handlers intend.
- A rolled-back insert in PostgreSQL still uses up an id from its SERIAL sequence. The model rolls the next id back with the tables.
- Concurrency: requests interleaving at their `await`s, for example two bookings of one seat between the checks and the update. Each handler runs atomically here.
- Seats.SeatsController.Sweep: states which keys are visited (each expired key once), not in what order. The order comes from `Object.keys` and is left out.
- Reports.Bump: keys are kept in insertion order. `Object.entries` lists integer-like keys first, in numeric order; that is left out, and with it the tie order that ranking gives admins with such names. For other names the tie order is insertion order, because the sort is stable (Sorting.SortByStable).
- JavaScript objects as dictionaries: keys that collide with `Object.prototype` names are left out, as are non-canonical id strings (such as "07" versus "7") naming the same row.
- Ids are integers. The string-to-number coercions of request parameters are left out.
- Strings.ParseInt: reads base 10 only. JavaScript `parseInt` without a radix reads a `0x` or `0X` prefix as hexadecimal; seat numbers written by `seatnumber::text` never carry one.
- Strings.ParseInt: results are unbounded integers. JavaScript numbers are doubles, exact only up to 2^53, so longer digit runs lose precision there.
- Reports.SinkResult: the source service of the TypeScript tree always answers an id, the compiled one can succeed without one; the model allows both, so it does not say which service is deployed.
- The `createReport` audit calls that follow each committed write: the service never throws to its caller and the response does not depend on it.
- The socket transport. Emits are recorded as events, not delivered.
- Date parsing and `toISOString`. Times are milliseconds and the booking date is an opaque value. A `startTime` is "present" when it is given; an empty string is not distinguished.
- The SQL that produces the joined showtime/seat rows and the `STRING_AGG` text. `GroupRows` takes the rows, and `SeatNumbersRoundTrip` takes the aggregated text in its documented form.
- The other `getReports` filters, and query values that are objects.
- The empty inner dictionaries `reserveSeat` leaves in the registry: nothing can observe them.
- The catch blocks of `reserveSeat` and `createAuditLog`: nothing inside their `try` can throw in the model.
- `src/controllers/seatsController.ts`, the routes, the other controllers, the logging middleware, the TMDB service and authentication are not part of this model.
