# Today's meetings from a Thunderbird calendar, in Dafny

A model of `get_meetings` in `waybar/meetings.py`, the status-bar script that
reads Thunderbird's local calendar store and reports the start of the next
meeting today and the number of meetings today. The model covers everything the
function decides once the store has been opened:

- the set of cancelled instances, built from the `cal_exceptions` rows whose
  `is_negative` flag is 1 (`Exceptions`);
- the `WHERE` clause of the event query, which fetches a row when its end is
  NULL or after the start of today (`Prefilter`);
- the resolution of each fetched row (`Resolver`). A single event is kept when
  its start lies in today's window, both bounds included. A recurring event is
  expanded over the window, and each instance is dropped when a cancellation
  names its calendar and instant. A row whose start cannot be decoded, or whose
  rule cannot be evaluated, contributes nothing, and the other rows are still
  resolved;
- the sort, the count and the next start (`Ordering`), and the early error
  returns (`Meetings`).

Instants are integer microseconds since the epoch, the unit the script
hard-codes for the store at lines 68-70. A conversion to another time zone
keeps the instant, and the model has no zones. The model orders meetings and
compares them with now by instant; the script compares local wall-clock times
(see "## Left out"). The clock reading and today's window are
parameters. The recurrence expansion (`rrulestr(...).between(..., inc=True)`)
is a function parameter of type `Calendar.Expander`. `None` from it means the
rule could not be parsed or evaluated. The predicate `Calendar.StaysInWindow`
states the one thing the script relies on: every returned instance lies in the
window it was asked about. Only the lemmas that need this fact require it.

The script reads one store. It tests a single event by its start alone.
A meeting carries no end. The count is the day's total, past meetings
included.

Modules: `Wrappers` (Option), `Calendar` (rows, keys, window, summary),
`Exceptions`, `Prefilter`, `Resolver`, `Ordering`, `Meetings` (the whole
function), `Scenarios` (worked days) and `Findings`.

## Model

| member | source | states |
|---|---|---|
| Exceptions.BuildExceptions | waybar/meetings.py:72-78 | a key is in the exception set exactly when some row flagged `is_negative = 1` carries that calendar and instant |
| Exceptions.NonCancellationIgnored | waybar/meetings.py:73-78 | inserting a row whose flag is not 1 anywhere among the rows leaves the exception set unchanged |
| Exceptions.CancelledInstant | waybar/meetings.py:73-78 | a (calendar, instant) pair is cancelled exactly when a row with flag 1 has that calendar and that non-null instant |
| Prefilter.Candidates | waybar/meetings.py:87-89 | the query returns each row as often as the table holds it when its end is NULL or strictly after the start of today, and never otherwise |
| Prefilter.CandidateMembership | waybar/meetings.py:87-89 | a row is fetched if and only if it is in the table and passes the clause |
| Prefilter.CandidatesAppend | waybar/meetings.py:81-91 | the filter distributes over concatenation, so fetched rows keep store order |
| Prefilter.CandidatesCorrected | waybar/meetings.py:87-89 | the corrected query returns each row as often as the table holds it when it is recurring, its end is NULL, or its end is after the start of today, and never otherwise |
| Prefilter.CandidatesCorrectedAppend | waybar/meetings.py:81-91 | the corrected filter also distributes over concatenation and keeps store order |
| Resolver.Uncancelled | waybar/meetings.py:109-111 | each expanded instance is kept as many times as returned unless its (calendar, instant) key is cancelled, in which case it is dropped entirely |
| Resolver.Resolve | waybar/meetings.py:95-119 | a row yields meetings only if its start decoded; a single event yields at most its own start, and only inside the window; a series yields only uncancelled instances of a successful expansion |
| Resolver.SingleEventInWindow | waybar/meetings.py:116-119 | a single event yields its start if and only if day start <= start <= day end, and nothing otherwise |
| Resolver.SeriesInstanceKept | waybar/meetings.py:103-112 | an expanded instance is a meeting if and only if no cancellation of the row's calendar names it, with the expansion's multiplicity |
| Resolver.CancelledInstanceSuppressed | waybar/meetings.py:109-112 | an instant cancelled for a series' calendar never appears among that series' meetings |
| Resolver.DefectiveRowContributesNothing | waybar/meetings.py:96-115 | an undecodable start or a rule the expansion rejects makes the row contribute no meeting |
| Resolver.ResolveInWindow | waybar/meetings.py:103-119 | every meeting of a row lies inside today's window, inclusive, given the expansion's window promise |
| Resolver.Collect | waybar/meetings.py:94-119 | every collected meeting comes from the resolution of some fetched row |
| Resolver.CollectAppend | waybar/meetings.py:94-95 | resolving a concatenation of rows concatenates their meetings, so each row is resolved independently |
| Resolver.CollectContainsEachRow | waybar/meetings.py:94-119 | every meeting any row yields is among the collected meetings |
| Resolver.DefectiveRowSkipped | waybar/meetings.py:96-115 | a defective row neither aborts the batch nor changes the others' meetings: the result equals that of the rows without it |
| Resolver.CollectPermutation | waybar/meetings.py:94-119 | rows read in another order yield the same meetings with the same multiplicities |
| Resolver.CollectInWindow | waybar/meetings.py:108-119 | every collected meeting lies inside today's window |
| Resolver.CollectSuppression | waybar/meetings.py:108-112 | every collected meeting comes from a row that, if recurring, has no cancellation of that instant |
| Ordering.Insert | waybar/meetings.py:124 | inserting into an ascending list gives an ascending list with exactly one more copy of the element |
| Ordering.Sort | waybar/meetings.py:124 | the sorted meetings are ascending and a permutation of the input |
| Ordering.SortedPermutationUnique | waybar/meetings.py:124 | two ascending lists with the same elements are equal, so the sorted order is determined by the meetings alone |
| Ordering.FirstAtOrAfter | waybar/meetings.py:129-132 | the scan returns nothing exactly when every element is before now; otherwise an element at or after now preceded only by elements before now |
| Ordering.EarliestAtOrAfter | waybar/meetings.py:124-132 | on an ascending list, the element the scan finds is the earliest one at or after now |
| Ordering.NextMeeting | waybar/meetings.py:124-132 | the next start is a meeting at or after now and no later than any other such meeting, and is absent exactly when all meetings are before now |
| Meetings.StoreError | waybar/meetings.py:43-57 | a missing profile gives "Profile not found", a missing or vanished database gives "DB not found", and a snapshot gives no message |
| Meetings.Summarize | waybar/meetings.py:121-134 | no error; the total is the number of today's meetings, past ones included; the next start is the earliest meeting not before now, absent exactly when all are past |
| Meetings.GetMeetings | waybar/meetings.py:38-134 | an unreadable store yields ("--", 0, message); a snapshot yields the summary of the fetched rows with no message |
| Meetings.EmptyDayIsNotAnError | waybar/meetings.py:121-122 | a day without meetings yields ("--", 0, None), which differs from an unreadable store's result only in the message |
| Meetings.SummaryDependsOnMeetingsOnly | waybar/meetings.py:124-134 | the summary depends only on the multiset of meetings found, not on the order they were found in |
| Meetings.SummaryIgnoresRowOrder | waybar/meetings.py:73-134 | two snapshots with the same exception rows and the same event rows, each table in any order, give the same summary |
| Meetings.NextIsToday | waybar/meetings.py:108-132 | the next start lies inside today's window |
| Meetings.GetMeetingsCorrected | waybar/meetings.py:80-89 | as GetMeetings, with the query fetching every recurring row whatever its end |
| Scenarios.SingleAfternoonMeeting | waybar/meetings.py:116-134 | one event at 14:00 seen at 10:00 gives next 14:00 and total 1 |
| Scenarios.PastMeetingCounted | waybar/meetings.py:124-132 | events at 14:00 and 08:00 seen at 10:00 give next 14:00 and total 2 |
| Scenarios.CancelledStandup | waybar/meetings.py:73-112 | a cancellation of today's stand-up instance removes it; a row with a flag other than 1 removes nothing |
| Findings.PastSeriesDroppedAsWritten | waybar/meetings.py:87-89 | a daily series that began yesterday has an instance today, yet the query as written drops it and the day reports no meeting |
| Findings.PastSeriesKeptCorrected | waybar/meetings.py:80-112 | with the corrected query the same series is today's next meeting |
| Findings.CorrectedFilterLosesNothing | waybar/meetings.py:80-119 | with the corrected query, on events of positive duration, the fetched rows yield exactly the meetings of the whole table |
| Findings.CorrectedSummaryMissesNothing | waybar/meetings.py:80-134 | on events of positive duration, the corrected summary equals the summary of the whole table; every recurring row is fetched |

## Left out

- Profile discovery (`find_thunderbird_profile`, `profiles.ini`) and the file-existence checks: only their outcomes are modelled, as `Meetings.Store` cases with the script's messages.
- The SQLite connection, the copy into a temporary directory and the execution of the queries. Query results are input sequences, and the `WHERE` clauses are filter predicates.
- The `LEFT JOIN` with `cal_properties`: event rows arrive already joined, one row per matching `RRULE` property, or one row with no rule.
- Database errors and exceptions the script does not catch, such as `sqlite3` errors or an overflow while expanding. They end the script, and the model has no such path.
- The clock (`datetime.now`) and the local zone (`tzlocal`). `now` and the day window are parameters.
- The float arithmetic of `timestamp() * 1_000_000` and `start_ts / 1_000_000`. Instants are exact integer microseconds.
- Decoding a start with `gettz` and `fromtimestamp`. Its outcome is the row's `start`, with None for a NULL or undecodable value.
- The recurrence semantics of `rrulestr` and `between`. They are the `Expander` parameter, constrained only by `StaysInWindow`. `Scenarios.DailyOracle` is a stand-in that handles a daily rule only.
- `strftime("%H:%M")` and the JSON output. The next start is an instant, and None stands for the "--" placeholder.
- Ordering.NextMeeting: compares meetings with now by instant. The script converts every meeting and now to the one local tzinfo object, and Python then compares wall-clock times and ignores `fold`. The two orders differ only inside the hour a daylight-saving fall-back repeats. There, a meeting at 01:30 before the change, seen at 01:15 after it, is next for the script and past for the model.
- Meetings.Summarize: its next start has the same instant-for-wall-clock difference as `Ordering.NextMeeting`, for the same repeated hour. The total is unaffected.
- Ordering.Sort: orders by instant, and the script's sort orders by wall-clock time. The two differ only for meetings inside a repeated daylight-saving hour.
- Findings.CorrectedSummaryMissesNothing: holds only for events whose end, when known, is after their start. A zero-length event at exactly 00:00 lies in the window, yet both the written clause and the corrected one drop it, because its end is not after the start of the day.

## Findings

| source | as written | input that shows it | evidently intended | confidence | as-written member | corrected member |
|---|---|---|---|---|---|---|
| waybar/meetings.py:87-89 | the query fetches a row only when `event_end` is NULL or after the start of today, recurring rows included; a series' `event_end` is the end of its first instance | a `FREQ=DAILY` series first held yesterday 09:00-09:30: its expansion has an instance today at 09:00, but the row is never fetched and the day reports ("--", 0) | every recurring row is fetched, as the comment "all events that could possibly occur today" says | medium, not executed | Findings.PastSeriesDroppedAsWritten | Findings.CorrectedFilterLosesNothing |

`Meetings.GetMeetings` keeps the query as written. `Meetings.GetMeetingsCorrected` uses `Prefilter.CandidatesCorrected` in its place and shares the rest of the pipeline with it. `Findings.CorrectedFilterLosesNothing` and `Findings.CorrectedSummaryMissesNothing` prove that, with the corrected clause, the query drops no meeting of an event of positive duration.
