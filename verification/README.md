# Mobed Diary: a Dafny model

Mobed Diary keeps a Parsi priest's work: the three Parsi calendars, the observances after a death, machis in
exclusive slots that repeat by Roj and Mah, and WhatsApp reminders to families who agreed to them. This project
models the parts of it where correctness is not visible from one function, and proves what they promise.

- **Calendar** (`Gregorian`, `Engine`, `EngineSearch`, `RojMahCount`). A date is its day ordinal. Every conversion
  is shown to be its first day of the year plus a place in the year; round trips, order and the two searches follow.
- **Memorial schedule** (`MemorialSeries`, `MemorialObservances`, `MemorialSchedule`, `MemorialClaims`,
  `MemorialBuild`, `MemorialPromises`, `MemorialReading`, `StandIn`, `MemorialPlanning`). Every repeating observance is
  a strictly increasing series on one endless count of Roj and Mah; the hand-picked scan widths are proved to suffice,
  the loop that builds the schedule is proved to compute a specification by candidates, and the promises are proved of
  that: `MemorialReading` says in the calendar's own terms what each observance is.
- **Repeats over exclusive slots** (`Slots`, `Recurrence`, `RecurrenceRuns`, `Diary`, `Overlaps`, `EventSeries`,
  `EventRuns`, `Events`, `Dependents`). Runs of steps on values carry the invariants; `Diary.Tables` and
  `Events.EventDiary` change the tables in place and are proved to do what those steps say. `Rule.origin` and
  `Rule.attempts` are history, and a deleted event stays as a mark, kept only so that whole runs can be spoken of.
- **Reminders** (`Outbox`, `ReminderSender`, `Planner`, `Consent`). The outbox is a protocol of interleaved senders,
  crashes and an untrusted wire; `ReminderSender.Desk` makes each change as one step of it. What is taken on trust is
  `Outbox.Truthful`: an answer that will be tried again means the message was refused for good, and 200 that it was
  accepted. Nothing else that the wire says, or does not say, is believed.
- **Sessions** (`Sessions`), **phone numbers** (`Phone`, with `Text`), **saved names** (`SavedNames`) and **the per-mobed split**
  (`SplitMigration`).

`dafny verify dfyconfig.toml` checks everything.

## What turned out otherwise than documented

- `nearest_occurrence` scans far enough for every day but one: a sixth Gatha asked for in the two Fasli cycles after
  the last leap cycle before a non-leap century (before 2100, from 21 March 2096 to 20 March 2098) is not found
  (src/agyary/calendar/engine.py:61-64). `EngineSearch.NearestOccurrence` states exactly when, and
  `EngineSearch.LeapGapDates` and `EngineSearch.LeapGapBefore2100` put dates to it.
- `get_navroze` does not answer for every year Python can write. It raises after 7476 in Shenshai and after 7352 in
  Kadmi, and in years 1 and 2, where its first candidate lies before Python's first date
  (`EngineSearch.FirstCandidateInRange`); between them its answer is the earliest of the year
  (src/agyary/calendar/engine.py:343-355). On dates without a beginning, as here, `EngineSearch.GetNavroze` finds the
  scan's own lower bounds too, -3060 and -3184: years with a Navroze on 1 January and another on 31 December, of which
  it meets the second. Python cannot reach those.
- A repeat with a count of one is stored with no end date and runs on without limit
  (src/agyary/services/mobed_dashboard.py:643-667): `RecurrenceRuns.CountOfOneRunsOn` is the run, and
  `RecurrenceRuns.CountKeptFromTwo` says that a count is kept in every run if and only if it is at least two. The API
  refuses a smaller one (src/agyary/api/routes/mobed.py:1216-1227).
- Completing a machi board takes no lock on the rules (src/agyary/services/mobed_dashboard.py:887-926), as completing
  an events calendar does (:843), so a top-up may act on a marker it read before other steps. Slots stay apart all the
  same (`RecurrenceRuns.SlotsStayApart`). The series stay in order if and only if the marker it read is still the
  one stored, or it has nothing to do (`Overlaps.StaleTopUpExactly`; over whole runs `Overlaps.SeriesKeptExactly`).
  What it books, while the rule is there at all, does not depend on what was deleted or stopped meanwhile: an occurrence
  is booked if and only if it comes after the marker that was read, within 36 of it, the one before it is short of the
  date asked, and its geh is free (`Overlaps.BringsBackExactly`). `Overlaps.DeletedComesBack` is a run, from an empty store, in which a deleted machi
  comes back.
- A STOP does not always reach a row already planned: the last check looks at the record, the message goes to the
  row's number (src/agyary/services/reminder_sender.py:349-361 and 416-426). When it comes, it stops the row if and
  only if the record has the row's number then (`Consent.StopReachesRowExactly`), and for as long as the record keeps
  that number (`Consent.StopWins`). So there are two ways past it. The record is given another number before the STOP
  (`Consent.RenumberedRowStillGoes`); or after it, and the mobed then lifts the STOP for the new number, which leaves
  the old one's standing (`Consent.LiftedForAnotherStillGoes`).
- Two stand-ins of a long-ago death are both accepted only within the search limit of 100000 periods
  (src/agyary/calendar/memorial.py:438-445); `StandIn.EarlierAccepted` says exactly when.

## Model

| member | source | states |
|---|---|---|
| `Engine.GregorianRoundTrip` | src/agyary/calendar/engine.py:242-286 | In every calendar, reading a date as a Parsi day and writing it back gives the same date |
| `Engine.ParsiRoundTrip` | src/agyary/calendar/engine.py:242-286 | In every calendar, every day that exists (sixth Gatha only in a Fasli leap cycle) has a date, and it reads back as that day |
| `Engine.HasDate` | src/agyary/calendar/engine.py:101-112 | A day has a date exactly when it exists in its year; otherwise the conversion refuses it |
| `Engine.WritesOut` | src/agyary/calendar/engine.py:253-286 | The three formulas are one: the first day of the year plus the place in the year |
| `Engine.NextDayIsNext` | src/agyary/calendar/engine.py:115-159 | Tomorrow is the next Roj, the next Mah, the next Gatha day or the new year, in every calendar |
| `Engine.OrderPreserved` | src/agyary/calendar/engine.py:242-250 | Dates come in the same order as the days they read as |
| `Engine.KadmiIsThirtyDaysAhead` | src/agyary/calendar/engine.py:183-204 | A day comes in Kadmi exactly 30 days before it comes in Shenshai, both ways of converting |
| `Engine.FasliCycleLength` | src/agyary/calendar/engine.py:210-226 | 21 March to 21 March is exactly 360 days and that cycle's own Gatha days, leap or not |
| `Engine.FasliCycleContains` | src/agyary/calendar/engine.py:210-213 | The cycle worked out from month and day is the one the date lies in |
| `Engine.VerifiedAnchor` | src/agyary/calendar/engine.py:80-85 | The date checked against a printed calendar reads as it does there, in Shenshai and in Kadmi, year included |
| `Engine.FasliEra` | src/agyary/calendar/engine.py:21-24 | A Fasli year is the Gregorian year of the 21 March it begins on, less 630 |
| `Gregorian.DateRoundTrip` | src/agyary/calendar/engine.py:210-235 | The ordinal of a date's year, month and day is the date (the Gregorian layer Fasli stands on) |
| `Gregorian.YmdRoundTrip` | src/agyary/calendar/engine.py:210-235 | Year, month and day survive being made an ordinal |
| `Gregorian.ClosedForm` | src/agyary/calendar/engine.py:210-235 | Adding up the years one by one gives the closed leap-year count |
| `EngineSearch.NearestOccurrence` | src/agyary/calendar/engine.py:289-340 | The answer is the least matching date on or after the reference over all years, not only the scanned ones; and it raises exactly on an ill-formed request or a sixth Gatha asked for in the two cycles after the last leap cycle before a non-leap century |
| `EngineSearch.WellFormedExactly` | src/agyary/calendar/engine.py:297-316 | A request names a day exactly if that day has a date in some year |
| `EngineSearch.ScanReaches` | src/agyary/calendar/engine.py:318-340 | The fixed scan of years meets an occurrence exactly when the request is findable |
| `EngineSearch.SixYearsWithoutLeap` | src/agyary/calendar/engine.py:61-64 | Six cycles in a row have no leap cycle exactly around a century that is not a leap year, and only from two starting cycles |
| `EngineSearch.LeapGapDates` | src/agyary/calendar/engine.py:61-64 | Around any century that is not a leap year, the dates from which the sixth Gatha is not found are exactly those from 21 March four years before it to 20 March two years before it |
| `EngineSearch.LeapGapBefore2100` | src/agyary/calendar/engine.py:61-64 | So 21 March 2096 and 20 March 2098 are the first and last such dates before 2100, neither neighbouring day being one |
| `EngineSearch.GetNavroze` | src/agyary/calendar/engine.py:343-355 | A Navroze is found exactly for the Gregorian years derived for each calendar; it lies in that year and is its earliest; in the very first covered year, which has one on 1 January and one on 31 December, it is the one on 31 December |
| `EngineSearch.SevenOffsetsCover` | src/agyary/calendar/engine.py:348-355 | The Gregorian years the seven offsets reach, exactly |
| `EngineSearch.FirstCoveredHasTwo` | src/agyary/calendar/engine.py:348-355 | In the first covered year exactly two offsets fall, on 1 January and on 31 December, and the scan starts at the second |
| `EngineSearch.FirstCandidateInRange` | src/agyary/calendar/engine.py:348-352 | Dates that begin with year 1 hold the first candidate tried exactly from year 3 on |
| `MemorialSeries.CountFromIndex` | src/agyary/calendar/memorial.py:134-163 | Counting day by day by Roj and Mah is adding to one endless index, Gatha days skipped; a Gatha death counts from just before the next year |
| `MemorialSeries.DeathBetween` | src/agyary/calendar/memorial.py:134-146 | A death lies at its index or in the few Gatha days just after it |
| `MemorialSeries.AfterDeath` | src/agyary/calendar/memorial.py:280-283 | Counted days after the death are exactly the later dates, and come no sooner than their count in real days |
| `MemorialSeries.GoneCovers` | src/agyary/calendar/memorial.py:487-487 | The extra years scanned for a late start always cover every occurrence that has passed before it |
| `MemorialSeries.FirstKeptIsFirst` | src/agyary/calendar/memorial.py:213-236 | From the first kept member on, and only from there, members are after the death and not before the start date |
| `MemorialObservances.ParabObservances` | src/agyary/calendar/memorial.py:188-210 | The year-by-year loop lists exactly the Parabs after the death, in order, as many as fit the years scanned |
| `MemorialObservances.FravardinRojObservances` | src/agyary/calendar/memorial.py:213-236 | Scanning months // 12 + 3 + gone years always finds the full number of next Roj Fravardins |
| `MemorialObservances.BirthdayObservances` | src/agyary/calendar/memorial.py:239-264 | Scanning years + 2 + gone years always finds the full number of next birthdays |
| `MemorialObservances.NextMembersAreNext` | src/agyary/calendar/memorial.py:213-264 | The members listed are of the number asked, strictly in order, all kept, and no kept occurrence before the last is passed over |
| `MemorialBuild.ParabsFound` | src/agyary/calendar/memorial.py:488-501 | Both Parab widths (count // per_year + 2 + gone, years + gone) suffice: filtered, sorted and cut they are the next Parabs, as many as asked |
| `MemorialBuild.FirstValid` | src/agyary/calendar/memorial.py:438-445 | The loop stops at the first k not before the start date, or refuses one more than 100000 on |
| `MemorialSchedule.SeriesDatesIncrease` | src/agyary/calendar/memorial.py:438-445 | Monthly and yearly dates strictly increase in k, which is why that search ends |
| `MemorialSchedule.CanonSameDate` | src/agyary/calendar/memorial.py:408-413 | The 12th monthly is the first yearly: both names of a day resolve to one date |
| `MemorialSchedule.ResolveDate` | src/agyary/calendar/memorial.py:415-436 | Resolving a key, the Deci recursion included, gives its series' date under the code and label it was claimed with |
| `MemorialBuild.ClaimSeries` | src/agyary/calendar/memorial.py:472-477 | The claiming loops add exactly the series members not claimed before, first claim first |
| `MemorialBuild.KeepBest` | src/agyary/calendar/memorial.py:509-513 | The cut to one observance a date, by rank and then by arrival, and the final sort |
| `MemorialBuild.BestIs` | src/agyary/calendar/memorial.py:509-512 | The cut keeps exactly the candidates that nothing of their date beats and nothing equal precedes, one for every date there was |
| `MemorialBuild.SortByDateIs` | src/agyary/calendar/memorial.py:513-513 | Sorting keeps every observance and puts the dates in strictly increasing order |
| `MemorialBuild.BuildSchedule` | src/agyary/calendar/memorial.py:308-513 | The whole of the building loop computes the schedule that the lemmas below are about, refusals included |
| `MemorialPromises.ScheduleKeepsTheBest` | src/agyary/calendar/memorial.py:509-513 | Dates strictly increase, codes are pairwise distinct, every candidate's date is there, and each date keeps the unbeaten candidate |
| `MemorialPromises.CandidatesApart` | src/agyary/calendar/memorial.py:450-508 | Two candidates of one code, or of one date and rank, are one candidate: the cut never has a tie to break |
| `MemorialPromises.NothingBeforeStart` | src/agyary/calendar/memorial.py:483-508 | With a start date, nothing earlier is a candidate |
| `MemorialPromises.PlainSeriesWhole` | src/agyary/calendar/memorial.py:470-477 | The monthly and yearly series are whole and no longer: the next n not before the start date are candidates, and a candidate under a code of the series is one of those n |
| `MemorialPromises.PlainSeriesOnly` | src/agyary/calendar/memorial.py:470-477 | Whatever number is asked for, none included, no further member of the series is a candidate under its code |
| `MemorialReading.CandidateReads` | src/agyary/calendar/memorial.py:401-513 | Every candidate is on the day its code says, in the calendar's own Roj, Mah and year: one, two, six and twelve months on (Masiso, Bamsi, Chamsi, Varsi), the day before each for a Deci, so many days, months or years after the death, Roj 1 or the same Gatha after a Gatha death, the Parab named as its Mah, Roj Fravardin, the birthday; it reads as its date does, under its own title, counted day and rank |
| `MemorialReading.ScheduleReads` | src/agyary/calendar/memorial.py:308-513 | So does every observance of a schedule |
| `MemorialReading.PickedDayIsThere` | src/agyary/calendar/memorial.py:450-485 | The days of the opening and the named days: exactly those picked are candidates, each once, on its own day; with a start date exactly those not before it |
| `MemorialReading.PlainMemberIsThere` | src/agyary/calendar/memorial.py:470-477 | Each monthly and yearly day, so many from the first not before the start date, has a candidate on the day that many months or years after the death |
| `MemorialReading.ParabsAreTheNext` | src/agyary/calendar/memorial.py:488-502 | The Parabs are the next ones, as many as promised either way of asking, and no Parab ahead, every Mah's or Fravardin's and Tir's, is passed over |
| `MemorialReading.RojFravardinsAreTheNext` | src/agyary/calendar/memorial.py:503-505 | The same for Roj Fravardin, so many months of it |
| `MemorialReading.BirthdaysAreTheNext` | src/agyary/calendar/memorial.py:506-509 | The same for the birthday, so many years of it |
| `MemorialReading.RefusedExactly` | src/agyary/calendar/memorial.py:360-381 | A schedule is refused exactly for a choice that makes no sense, a death on a day that does not exist, or a start date that a series does not reach in a hundred thousand periods |
| `StandIn.StandInDoesNotMatter` | src/agyary/calendar/memorial.py:401-513 | For a long-ago death, moving the stand-in year back any number of years changes no date and no label of the schedule |
| `StandIn.EarlierAccepted` | src/agyary/calendar/memorial.py:438-445 | An earlier stand-in is refused exactly when its first members would lie beyond the search limit |
| `MemorialPlanning.ResolveDeath` | src/agyary/services/memorials.py:136-175 | The loop over candidate years computes the day the two lemmas below are about |
| `MemorialPlanning.DeathDayIsLatest` | src/agyary/services/memorials.py:154-175 | A death given by Roj and Mah is the greatest such day not after the limit, over all years, and is found exactly when the day came round within the years scanned |
| `MemorialPlanning.OrdinaryDayCameRound` | src/agyary/services/memorials.py:154-175 | Every day but the sixth Gatha has always come round, a year's margin included |
| `MemorialPlanning.StandInsApart` | src/agyary/services/memorials.py:272-279 | The stand-ins worked out on two days are the same day of the calendar, whole years apart |
| `MemorialPlanning.PlanDoesNotDrift` | src/agyary/services/memorials.py:243-310 | Planning the same long-ago death on a later day, from one start date more than a week after the later stand-in, shows the same days under the same titles |
| `MemorialPlanning.DeathDayExactly` | src/agyary/services/memorials.py:136-175 | Each way of giving a death, its day or its refusal; and a stand-in lies at least 361 days back |
| `MemorialPlanning.PlanSays` | src/agyary/services/memorials.py:243-310 | Every observance of a plan was asked for; none is before the start date, or today for a death of long ago, of which nothing is numbered in years or months |
| `MemorialPlanning.NoMoreThanAsked` | src/agyary/services/memorials.py:284-294 | The monthly and the yearly observances of a plan span no more than the number of each that was asked for |
| `MemorialPlanning.PlanRefusedExactly` | src/agyary/services/memorials.py:243-310 | A plan is refused exactly for a length out of its bounds, Parabs or a birthday without a length or with one too many, days picked for a death of long ago, a death without a day, a refused schedule, and an empty or too long one |
| `Slots.SlotKeysInjective` | src/agyary/messaging/availability.py:33-38 | One calendar never stores two days under one Roj, Mah and year |
| `Slots.IndexIsTheDay` | src/agyary/models/machi.py:119-129 | The unique index by Roj, Mah and year refuses exactly what a check by real day would |
| `Slots.FreeIsAccepted` | src/agyary/messaging/booking_service.py:430-481 | Seen from one moment the availability check and the index agree: booking succeeds exactly on a free geh |
| `Slots.ClaimKeepsSlots` | src/agyary/messaging/booking_service.py:336-384 | However stale the availability it was decided on, an insert leaves no two active machis of one mobed on a day and geh |
| `Slots.RebookKeepsSlots` | src/agyary/messaging/booking_service.py:553-602 | A move keeps slots apart and re-keys the machi; a refused move leaves everything untouched |
| `Slots.ReleaseKeepsSlots` | src/agyary/models/machi.py:119-129 | Cancelling, declining or rescheduling frees the slot and disturbs no other |
| `Slots.FreeExactly` | src/agyary/messaging/availability.py:21-72 | A geh is free exactly if no active machi of that mobed at that temple has it that day, and on the day itself until 7:00, 13:00, 15:30 or 19:00, the Ushahin until midnight |
| `Slots.BookedIs` | src/agyary/messaging/booking_service.py:336-384 | A booking is made exactly if the geh is free: one confirmed machi as asked for, under its day's own Roj and Mah, and nothing else changes |
| `Slots.MovedIs` | src/agyary/messaging/booking_service.py:553-602 | A move is made exactly if it is none or the geh is free there: the same machi on the new day, read anew, and nothing else changes |
| `Slots.ReleasedIsFree` | src/agyary/messaging/availability.py:53-63 | Cancelling, declining or rescheduling frees the slot that was held, and changes nothing but that status |
| `Slots.NextDaysExactly` | src/agyary/messaging/availability.py:82-100 | The days offered, in terms of what is held: later, within ninety days, not held, in order, three or all there are |
| `Recurrence.StepIsNextSlot` | src/agyary/services/mobed_dashboard.py:626-637 | The next period keeps the Roj and is the next occurrence |
| `Recurrence.NextOccurrence` | src/agyary/services/mobed_dashboard.py:714-721 | Stepping the Mah and year and converting gives the next occurrence's date |
| `Recurrence.OccurrenceReads` | src/agyary/services/mobed_dashboard.py:626-637 | The k-th repeat of a day reads as the same Roj k Mahs on, or the same Roj and Mah k years on |
| `Recurrence.AttemptsAre` | src/agyary/services/mobed_dashboard.py:703-746 | The dates one top-up attempts are the next occurrences, one after another |
| `Recurrence.AllAttempted` | src/agyary/services/mobed_dashboard.py:703-746 | A top-up stops on the first occurrence that reaches the date asked, or after 36 |
| `Recurrence.StepToLastOccurrence` | src/agyary/services/mobed_dashboard.py:643-656 | Stepping the Mah and year count - 1 times and converting each gives the day of the count-th occurrence on the endless index, and nothing for a count of one |
| `Recurrence.CountRuleFields` | src/agyary/services/mobed_dashboard.py:659-667 | A repeat stores as its end the day of its count-th occurrence, and no end without a count, or with a count of zero or one |
| `RecurrenceRuns.SlotsStayApart` | src/agyary/messaging/booking_service.py:412-481 | In every run of booking, moving, releasing, repeating, topping up and deleting, with races on availability and overlapping top-ups included: no two active machis share a slot, and every row is stored under its own day's key |
| `RecurrenceRuns.AttemptsWithinCount` | src/agyary/services/mobed_dashboard.py:643-667 | Despite book-then-test, a top-up never attempts past the last occurrence of a counted repeat |
| `RecurrenceRuns.SeriesStayInOrder` | src/agyary/services/mobed_dashboard.py:674-750 | In every run without moves, whose late top-ups find the marker they read and the rule running (or have nothing to do): each rule's one source exists and belongs to it, each rule link names an existing rule, and the dates tried are a prefix of the occurrences |
| `RecurrenceRuns.TriedOnceInOrder` | src/agyary/services/mobed_dashboard.py:674-750 | Each occurrence is tried once, none skipped, and a repeat of n (2 or more) never past its n-th |
| `RecurrenceRuns.TopUpReaches` | src/agyary/services/mobed_dashboard.py:887-935 | A due top-up reaches the date asked, or the end of the repeat, or goes exactly 36 further |
| `RecurrenceRuns.DueExactly` | src/agyary/services/mobed_dashboard.py:900-926 | A rule is due exactly if it runs, its last day tried is before the date asked, and its count is not done |
| `RecurrenceRuns.TopUpGoesTo` | src/agyary/services/mobed_dashboard.py:703-746 | A top-up tries the next occurrences in turn and stops on the first that reaches the date asked, or is the last of its count, or the thirty-sixth |
| `RecurrenceRuns.StartTries` | src/agyary/services/mobed_dashboard.py:938-987 | A repeat begins with its next three occurrences tried, or as many as a shorter count has |
| `RecurrenceRuns.CountKeptFromTwo` | src/agyary/services/mobed_dashboard.py:643-667 | A repeat stored with count n has tried at most n occurrences in every such run that follows if and only if n is at least 2 |
| `RecurrenceRuns.CountOfOneRunsOn` | src/agyary/services/mobed_dashboard.py:643-667 | Counted once (or less), there are runs of top-ups alone that try more occurrences than any bound |
| `RecurrenceRuns.RunFollows` | src/agyary/services/mobed_dashboard.py:887-935 | Whatever a rule books later lies past everything it has tried, and a stopped rule books nothing |
| `RecurrenceRuns.DeletedNeverReturns` | src/agyary/services/mobed_dashboard.py:1436-1503 | A deleted occurrence is never made again, nor anything of its repeat on its day or before |
| `RecurrenceRuns.StoppedStaysStopped` | src/agyary/services/mobed_dashboard.py:1436-1503 | After "this and every later one" nothing of the repeat on that day or later ever appears again |
| `Overlaps.StaleTopUpExactly` | src/agyary/services/mobed_dashboard.py:887-935 | A top-up that acts late, on any marker and source it read, leaves every series in order if and only if that marker is the one stored, or it has nothing to do |
| `Overlaps.SeriesKeptExactly` | src/agyary/services/mobed_dashboard.py:887-935 | Over whole runs: the series are in order in every state if and only if each late top-up found the marker it had read |
| `Overlaps.BringsBackExactly` | src/agyary/services/mobed_dashboard.py:703-746 | What a late top-up books: a machi of the rule appears on an occurrence if and only if it comes after the marker that was read, within 36 of it, the one before it is short of the date asked, and its geh is free now; deleted or stopped meanwhile makes no difference |
| `Overlaps.OverlapExactly` | src/agyary/services/mobed_dashboard.py:887-935 | For a top-up that read its rule at any earlier step of a run: the promises survive it exactly when the marker has not moved since, or it has nothing to do; and what it books, exactly |
| `Overlaps.DeletedComesBack` | src/agyary/services/mobed_dashboard.py:887-935 | The run: from an empty store a machi is booked, repeated, topped up and the new one deleted; a top-up that read the rule before the last two steps books it again; for every temple, calendar, pattern, mobed, geh and day off the Gathas |
| `Overlaps.NewLikeSource` | src/agyary/services/mobed_dashboard.py:723-731 | Whatever a rule books has its source's temple, family, geh and mobed, and is confirmed |
| `Overlaps.TopUpBooksExactly` | src/agyary/services/mobed_dashboard.py:703-746 | A top-up books exactly those of the occurrences it tries whose geh is free |
| `Diary.Tables.CreateMachiRequest` | src/agyary/messaging/booking_service.py:336-384 | Inserts the row or, refused by the index, nothing |
| `Diary.Tables.BookMachiSlot` | src/agyary/messaging/booking_service.py:430-481 | Reads what is free, then claims it: the state after is the specified one, and a refusal carries the right alternatives, a success none |
| `Diary.Tables.RebookMachiSlot` | src/agyary/messaging/booking_service.py:553-602 | Moves the machi on its own mobed's board, or leaves it untouched and offers the right alternatives |
| `Diary.Tables.NextDaysWithGeh` | src/agyary/messaging/availability.py:82-100 | The first three days after the one asked on which this mobed has the geh free, of the days looked through, none passed over, each under its own Roj, Mah and year |
| `Diary.Tables.ComputeMachiAlternatives` | src/agyary/messaging/booking_service.py:419-427 | The gehs still to be had that day, and those next days |
| `Diary.Tables.BookOccurrences` | src/agyary/services/mobed_dashboard.py:708-746 | The generating loop attempts exactly the next occurrences, books each that is free, and counts what it made |
| `Diary.Tables.GenerateRecurrenceInstances` | src/agyary/services/mobed_dashboard.py:674-750 | One top-up: nothing past the end or the date asked, else the attempts and the marker on the last of them; the dates skipped are those tried whose geh was taken, in order |
| `Diary.Tables.SelectDue` | src/agyary/services/mobed_dashboard.py:900-926 | A read picks exactly the active rules of that temple, and of that mobed if asked, that have not reached the date or their end |
| `Diary.SelectedExactly` | src/agyary/services/mobed_dashboard.py:900-926 | A read of a board tops up exactly the running rules of that temple, and of that mobed if asked, not yet tried to the date and with their count not done |
| `Diary.Tables.EnsureRecurrencesGenerated` | src/agyary/services/mobed_dashboard.py:887-935 | Completing a board tops up every rule that is due, to the date, to its end or 36 further, and changes no other rule and no machi there was |
| `Diary.Tables.CreateRecurringMachis` | src/agyary/services/mobed_dashboard.py:938-989 | Links the first machi to a new rule, books its first periods and reports exactly those of the dates tried whose slot was taken (or whose time had passed), in order |
| `Diary.SkippedExactly` | src/agyary/services/mobed_dashboard.py:724-741 | Of the dates a top-up tries, exactly those are skipped whose slot was taken before it began: its own bookings take none of each other's |
| `Diary.Tables.EarliestSurvivor` | src/agyary/services/mobed_dashboard.py:1483-1485 | The survivor a rule is re-pointed to is the earliest by date |
| `Dependents.ClearDependents` | src/agyary/services/mobed_dashboard.py:1225-1245 | Payments and notices of these machis or bookings go, or nothing does when one of those payments is settled |
| `Diary.Tables.TakeOut` | src/agyary/services/mobed_dashboard.py:1475-1502 | Re-points, stops or removes the rule, then removes the machis: the specified deletion |
| `Diary.Tables.DeleteMachi` | src/agyary/services/mobed_dashboard.py:1436-1503 | Deletes one or all later. Not found when it is another temple's or not the caller's to touch; refused whole when a machi that would go has a settled payment; else exactly the machi asked for goes, or it and those of its repeat not before its day, with their payments and notices, and every other machi, rule, payment and notice is as it was; the rule stays while a machi of it does, stopped if the later ones went, on its own source or else the earliest left |
| `Diary.DeleteIs` | src/agyary/services/mobed_dashboard.py:1436-1503 | The specified deletion is that one: what goes, what stays, and what becomes of the rule |
| `EventSeries.ShiftRoundTrips` | src/agyary/services/mobed_dashboard.py:753-761 | A repeat put back a day later at its clock time reads as the day it was worked out on |
| `EventSeries.RepeatIsOccurrence` | src/agyary/messaging/booking_service.py:484-499 | An event generated for an occurrence is stored under exactly that occurrence's Roj, Mah and year |
| `EventSeries.StoredBySunrise` | src/agyary/messaging/booking_service.py:484-499 | An event is stored as given, under the Parsi day of its date, or before 7 in the morning of the day before |
| `EventSeries.RepeatReads` | src/agyary/services/mobed_dashboard.py:764-819 | An event of a series is its first event again at the same time of day, as many Mahs or years on as there are events before it |
| `EventSeries.EachOccurrenceOnce` | src/agyary/services/mobed_dashboard.py:764-819 | Deleted events among them, of two events of a series the one made later falls later: no occurrence is made twice |
| `EventSeries.NeverPastItsCount` | src/agyary/services/mobed_dashboard.py:643-667 | Deletions or not, a counted repeat of two or more never has more events than its count |
| `EventSeries.NothingDangles` | src/agyary/services/mobed_dashboard.py:1248-1303 | The rule of a living event, if it has one, is still there, and a rule that is still there has a living source of its own series |
| `EventRuns.DeleteKeepsDiary` | src/agyary/services/mobed_dashboard.py:1248-1303 | Deleting one event, or it and every later one, keeps all of this: every rule its source, every link its rule, every series its occurrences |
| `EventRuns.OnwardAlong` | src/agyary/services/mobed_dashboard.py:764-819 | A chain of states, each moving onward from the one before, moves onward from the first to the last: this is what carries the next two over whole runs |
| `EventRuns.DeletedNeverRegenerated` | src/agyary/services/mobed_dashboard.py:1248-1303 | In every later state a deleted event is still deleted, and no living event of its series, then or ever after, is at its time |
| `EventRuns.StoppedForGood` | src/agyary/services/mobed_dashboard.py:1248-1303 | After deleting an event and every later one, no later state has a living event of that repeat at or after its time |
| `Events.EventDiary.CreateBookingRequest` | src/agyary/messaging/booking_service.py:515-550 | A one-off event is stored, with its details, under its sunrise-anchored Parsi day and disturbs no series |
| `Events.EventDiary.MakeEvents` | src/agyary/services/mobed_dashboard.py:788-815 | The generating loop makes one event for every date attempted, none skipped |
| `Events.EventDiary.GenerateBookingInstances` | src/agyary/services/mobed_dashboard.py:764-819 | One top-up keeps every series exactly its source and its occurrences so far; a source without a mobed switches the rule off |
| `Events.EventDiary.CreateRecurringBookings` | src/agyary/services/mobed_dashboard.py:854-876 | Starts a series with its first three further periods, or as many as a shorter count has |
| `Events.EventDiary.SelectDueBookings` | src/agyary/services/mobed_dashboard.py:828-844 | A read picks exactly the active repeats of that mobed that have not reached the date or their end |
| `Events.EventDiary.EnsureBookingRecurrencesGenerated` | src/agyary/services/mobed_dashboard.py:822-851 | Completing a calendar tops up every repeat that is due, to the date, to its end or 36 further, and changes no other rule and no event there was |
| `Events.EventDiary.EarliestSurvivor` | src/agyary/services/mobed_dashboard.py:1288-1289 | The survivor a rule is re-pointed to is the earliest by time |
| `Events.EventDiary.DeleteBooking` | src/agyary/services/mobed_dashboard.py:1248-1303 | Deletes one or all later, event by event as for machis: exactly those that go are marked gone, with their payments and notices, all else is as it was, and the rule stays while an event of it does, stopped if the later ones went, on its own source or else the earliest left; not found, or refused whole, without a trace |
| `Events.DeleteIs` | src/agyary/services/mobed_dashboard.py:1248-1303 | The specified deletion of events is that one |
| `Events.DueForExactly` | src/agyary/services/mobed_dashboard.py:828-844 | A read of a calendar tops up exactly the mobed's own running repeats not yet made to the date and with their count not done |
| `Events.EventDiary.TakeOut` | src/agyary/services/mobed_dashboard.py:1286-1302 | Re-points, stops or removes the rule, then removes the events: the specified deletion |
| `Outbox.StepKeepsPending` | src/agyary/services/reminder_sender.py:509-567 | What every step keeps: a pending row was never accepted, has nothing in flight, and is in nobody's hands |
| `Outbox.StepKeepsHolders` | src/agyary/services/reminder_sender.py:471-516 | Two senders never hold one row, and a sender's row has no live message but its own |
| `Outbox.StepKeepsOneLive` | src/agyary/services/reminder_sender.py:364-394 | At most one message about a row is not refused |
| `Outbox.StepKeepsSaying` | src/agyary/services/reminder_sender.py:593-622 | A row that says sent, delivered or read was accepted, receipts in any order included |
| `Outbox.StepKeepsRows` | src/agyary/models/notification.py:77-82 | One row for an observance, ever, even after observances are deleted |
| `Outbox.HeardEndsAs` | src/agyary/services/reminder_sender.py:509-567 | How a row ends, by the reply alone: 200 is sent, with an id exactly if one came; account trouble is pending as before; any other 4xx but 429, and silence, is failed; anything else uses up a try, pending before the third and failed at it |
| `Outbox.OutcomeIs` | src/agyary/services/reminder_sender.py:364-394 | The five outcomes of a post, each by the reply alone |
| `Outbox.ReceiptsMoveForward` | src/agyary/services/reminder_sender.py:590-628 | A receipt reaches exactly the row whose message it is about, and never moves it back from read to delivered or from delivered to sent |
| `Outbox.InsertedIs` | src/agyary/services/reminder_sender.py:268-291 | An observance without a row gets one, pending or refused, with nothing tried; with one it gets none; no other row changes |
| `Outbox.StepsOnRows` | src/agyary/services/reminder_sender.py:456-567 | What each other step does to the rows, and that it does nothing else to them |
| `Outbox.StepsOnTheRest` | src/agyary/services/reminder_sender.py:456-567 | What each step does to the messages, the senders and the observances, and that it does nothing else to them |
| `Outbox.RunKeepsSound` | src/agyary/services/reminder_sender.py:441-567 | All of these hold in every run of any number of senders with crashes, lost answers and slow senders closed as stuck |
| `Outbox.AtMostOncePerObservance` | src/agyary/services/reminder_sender.py:1-20 | In every run WhatsApp accepts at most one message about an observance, and none about one still pending |
| `ReminderSender.Desk.PostRow` | src/agyary/services/reminder_sender.py:509-567 | Marking, posting and writing down the outcome, each branch of it, as steps of the protocol; the row ends as the reply alone says |
| `ReminderSender.Desk.CloseAllStuck` | src/agyary/services/reminder_sender.py:456-471 | Every row left sending for more than five minutes untouched is failed, never re-sent, and nothing else changes |
| `ReminderSender.Desk.HandOver` | src/agyary/services/reminder_sender.py:509-541 | Marks a pending row as sending and hands over at most one message about it |
| `ReminderSender.Desk.FirstDue` | src/agyary/services/reminder_sender.py:477-488 | The next row is the lowest-numbered one that is due |
| `ReminderSender.Desk.TryRow` | src/agyary/services/reminder_sender.py:509-574 | Each try either stops the pass or strictly reduces the rows that are due |
| `ReminderSender.Desk.SendPending` | src/agyary/services/reminder_sender.py:441-574 | A pass ends; paused it posts nothing; it posts each due row at most once, in order of id, only if in time and if consent, read at the row's own turn, still allows it; every other row is left or rightly failed; it ends only on an empty queue, a pause, an account problem, a retry or the breaker, and the last two kinds of trouble pause it |
| `ReminderSender.PostedEndsAs` | src/agyary/services/reminder_sender.py:509-567 | Every row a pass posted ends as its reply alone says |
| `ReminderSender.WholeQueue` | src/agyary/services/reminder_sender.py:471-520 | A pass to the end of the queue: each row that waited was posted exactly if it was of that day, before the cutoff and still with consent, and failed otherwise; every other row is as it was |
| `ReminderSender.StreakIs` | src/agyary/services/reminder_sender.py:534-574 | The breaker counts exactly the failures since the last accepted message that are refusals not about one bad number, or last tries used up |
| `ReminderSender.GoesOnExactly` | src/agyary/services/reminder_sender.py:523-574 | A pass goes on after a try exactly if the account is well, nothing is to be tried again and the count is short of the breaker |
| `ReminderSender.NeverPastTheBreaker` | src/agyary/services/reminder_sender.py:569-574 | The failures in a row counted within a pass never exceed the breaker's limit |
| `ReminderSender.PostedWithConsent` | src/agyary/services/reminder_sender.py:509-520 | Whatever a pass posted, in any run of the consent tables its record was on file, switched on and not stopped at its turn; and if the record still had the row's number, that number's last STOP had been lifted |
| `ReminderSender.TakeTurns` | src/agyary/services/guardrails.py:63-96 | Over any number of passes, pauses and resumes, once paused the outbox posts nothing until an admin resumes |
| `ReminderSender.ShutUntilResumed` | src/agyary/services/guardrails.py:63-96 | From steps that each leave a paused desk as it was, nothing changes up to the next resume |
| `Planner.MonthBoundsAreTheMonth` | src/agyary/services/guardrails.py:138-142 | The month's bounds contain exactly the calendar month, December included |
| `Planner.BlockerIsFull` | src/agyary/services/guardrails.py:155-170 | On a tally that is a recount, a cap blocks exactly when some figure is at its cap |
| `Planner.TallyOneMore` | src/agyary/services/guardrails.py:172-178 | Adding one reminder to the tally is recounting with one row more; a failed one changes nothing |
| `Planner.PlanBook.TakeUsage` | src/agyary/services/guardrails.py:181-219 | The tally taken at the start is a recount of the rows |
| `Planner.PlanBook.PlanTomorrow` | src/agyary/services/reminder_sender.py:162-297 | The pass with its running tally does exactly what counting afresh for each reminder would, tells each mobed whose reminder will not go once, tells the admins exactly if a cap stopped one, and a dry run writes nothing and counts what a live run open to everyone would plan |
| `Planner.PlanBook.RecordNotSent` | src/agyary/services/reminder_sender.py:311-343 | A reminder that will not go gets its failed row and its mobed is told |
| `Planner.CapsHold` | src/agyary/services/guardrails.py:155-170 | No daily, monthly, mobed, new-account or temple figure ends above its cap unless it was already, and then it has not risen |
| `Planner.OnePerNumber` | src/agyary/services/reminder_sender.py:238-247 | A number gets at most one reminder that day |
| `Planner.EveryoneOnce` | src/agyary/services/reminder_sender.py:249-297 | Every allowed candidate ends with exactly one row, old rows stay, and nobody else gets one |
| `Planner.SecondPassIsQuiet` | src/agyary/services/reminder_sender.py:300-308 | Planning again at once, whatever the caps and the time, changes nothing |
| `Planner.RowExactly` | src/agyary/services/guardrails.py:155-170 | A candidate's row is for its number, mobed and temple, and refused exactly for its wording, a reminder to its number that day, or one of the five caps reached, a new account's own among them |
| `Planner.CountsExactly` | src/agyary/services/guardrails.py:181-219 | What counts toward a figure: not failed, of that day or month, and for a mobed, temple or number its own |
| `Planner.CountIsHowMany` | src/agyary/services/guardrails.py:181-219 | A figure is the number of rows that count toward it |
| `Planner.EachInTurn` | src/agyary/services/reminder_sender.py:213-297 | Each row was decided on the rows there were before it, for a candidate of its own, in the order the candidates came |
| `Planner.EachCapHolds` | src/agyary/services/guardrails.py:155-170 | Each cap by name binds its own figure, and a new account is held to its own cap too |
| `Planner.BlockerNames` | src/agyary/services/guardrails.py:155-170 | The limit named is the first in the way: day, month, new account, mobed, temple |
| `Planner.AlertsExactly` | src/agyary/services/reminder_sender.py:258-266 | The admins hear exactly if a cap, and nothing before it, stopped some candidate as the rows stood at its turn |
| `Planner.ToldExactly` | src/agyary/services/reminder_sender.py:311-343 | Told are exactly the mobeds of refused rows, and the rest are pending |
| `Consent.StopsAreHonoured` | src/agyary/services/reminders.py:175-261 | In every run of STOP, switching, adding, renumbering, removing, bringing back and erasing: every record of a number that ever replied STOP is stopped, unless its own mobed lifted it after the last STOP; a record that is switched on was switched on by its own mobed while it had the number it has now, with no STOP of that number since, and keeps when and to which words; and a mobed has one record a number |
| `Consent.MarkedWithConsent` | src/agyary/services/reminder_sender.py:416-426 | A row marked as sending belongs to a record on file, switched on and not stopped, by an agreement given while the record had the number it has now; and if that is the row's number, its last STOP was lifted |
| `Consent.RowsKeepTheNumber` | src/agyary/services/behdin_directory.py:159-201 | A row keeps its record's number as long as the record is neither renumbered nor erased |
| `Consent.StopWins` | src/agyary/services/reminder_sender.py:509-520 | A STOP between planning and sending wins, over every run that does not renumber the record; `Consent.StopReachesRowExactly` says exactly when one does |
| `Consent.StopReachesRowExactly` | src/agyary/services/reminder_sender.py:416-426 | In every state of every run, for every row that would go: after a STOP of the row's number the row is still queued and nothing has lifted that STOP, and it is withdrawn if and only if its record had that very number when the STOP came |
| `Consent.RenumberedRowStillGoes` | src/agyary/services/behdin_directory.py:188-198 | One way past it: renumbered after planning, a row still goes to the old number after that number replied STOP |
| `Consent.LiftedForAnotherStillGoes` | src/agyary/services/reminders.py:175-217 | And another: the number replies STOP, its record is renumbered with the STOP on it, the mobed lifts that for the new number, and the row still goes to the old one |
| `Consent.SecondStopTellsNobody` | src/agyary/services/reminders.py:220-261 | A second STOP finds every record stopped and tells no mobed |
| `Consent.AfterStop` | src/agyary/services/reminders.py:220-261 | After a STOP every record of the number is off and stopped, since then or earlier, the number is remembered, and no other record is touched |
| `Consent.SwitchedExactly` | src/agyary/services/reminders.py:175-217 | Which switch is refused, and for what; and what each one that is not leaves |
| `Consent.RenumberedIsOff` | src/agyary/services/behdin_directory.py:182-201 | A new number has agreed to nothing: the record has it with reminders off and no evidence, stopped if either number was; refused exactly if the mobed has that number already |
| `Consent.ResolvedIs` | src/agyary/services/behdin_directory.py:114-125 | A record comes back as it was, its STOP with it; a new one starts off, and stopped if its number is |
| `Consent.RemovedIs` | src/agyary/services/behdin_directory.py:204-236 | Off the list a record keeps its number and its STOP with reminders off; otherwise it is gone |
| `Consent.ErasedIs` | src/agyary/services/erasure.py:71-113 | An erased number is on no record and no row, nor is a row left of a record that had it; the STOP is remembered, other records untouched |
| `Consent.PlannedExactly` | src/agyary/services/reminder_sender.py:192-210 | A row is planned exactly for a record in somebody's book, on the list, switched on and not stopped, and for its number |
| `Consent.MarkedExactly` | src/agyary/services/reminder_sender.py:416-426 | The last check passes a row exactly if its record is still its mobed's, on the list, switched on and not stopped; a row it does not pass leaves the queue |
| `Consent.Book.RecordStop` | src/agyary/services/reminders.py:220-261 | The loop stops every record of the number and tells exactly the mobeds who had reminders on |
| `Consent.Book.SetReminders` | src/agyary/services/reminders.py:175-217 | Each refusal, an older wording included, and each change: a STOP lifted only on confirmation, the time and the words of the agreement kept while it stands |
| `Consent.Book.ResolveOwn` | src/agyary/services/behdin_directory.py:114-125 | This mobed's record of the number, back in their book, or a new one that starts stopped if the number is |
| `Consent.Book.Update` | src/agyary/services/behdin_directory.py:159-201 | Renumbering as specified, refused on a clash in the same book; `Consent.RenumberedIsOff` says what that leaves |
| `Consent.Book.Remove` | src/agyary/services/behdin_directory.py:204-236 | Removing switches reminders off, or erases a record nothing refers to |
| `Sessions.EveryRunOnlyForward` | src/agyary/services/mobed_auth.py:143-149 | In every run generations never go back, no issued token is ahead of its session or outlasts it, and a revoked session stays exactly as it ended |
| `Sessions.RepeatedWithinGrace` | src/agyary/services/mobed_auth.py:225-226 | A token repeated within the grace changes nothing and yields the current generation |
| `Sessions.OlderTokenEndsIt` | src/agyary/services/mobed_auth.py:227-230 | An older token ends its session, and no token of it is live in any run after |
| `Sessions.OldTokensWorkOnce` | src/agyary/services/mobed_auth.py:237-255 | Once one token from before sessions is adopted, no earlier-issued one of that user is ever accepted |
| `Sessions.HonestClientNeverEnded` | src/agyary/services/mobed_auth.py:208-234 | A client using its newest token and retrying a lost answer within 30 seconds of the rotation is never ended by a refresh of its own, whatever others do elsewhere in between |
| `Sessions.SpendingMovesOn` | src/agyary/services/mobed_auth.py:214-234 | The newest token of a standing session moves it on exactly one generation and one token of that generation is given out, for the sliding window but never past the session's end; no other session changes |
| `Sessions.SpentTokenEndsIt` | src/agyary/services/mobed_auth.py:214-234 | A session token buys something once: presented again in any later state 30 seconds or more after its session was last used, it ends the session, and no token of it is ever granted again |
| `Sessions.EndedIsRefused` | src/agyary/services/mobed_auth.py:194-207 | A session that was revoked or has come to its end, or is another user's, gets nothing and changes nothing |
| `Sessions.SigningIn` | src/agyary/services/mobed_auth.py:143-149 | Signing in opens a session of its own with its first token and touches no other |
| `Sessions.SignedOutForGood` | src/agyary/services/mobed_auth.py:258-276 | Signing out with any token of a session ends it for good, and no other |
| `Sessions.EverywhereElseForGood` | src/agyary/services/mobed_auth.py:279-295 | Signing out everywhere ends the user's other sessions for good, and leaves the kept one and everyone else's |
| `Sessions.AdoptedExactly` | src/agyary/services/mobed_auth.py:237-255 | A token from before sessions is moved into a session of its own exactly while it is good, and otherwise changes nothing |
| `Sessions.OldTokensRefused` | src/agyary/services/mobed_auth.py:267-276 | Signing out with such a token, or everywhere, refuses every one of that user's issued before then, for good |
| `Sessions.Accounts.RotateToken` | src/agyary/services/mobed_auth.py:214-234 | Each branch of spending a token, the grace before the mismatch |
| `Sessions.Accounts.Adopt` | src/agyary/services/mobed_auth.py:237-255 | Adopting a token from before sessions |
| `Sessions.Accounts.EndAllSessions` | src/agyary/services/mobed_auth.py:279-295 | Ends exactly the user's standing sessions but one, counts them, and refuses older tokens |
| `Phone.CodesArePrefixFree` | src/agyary/services/phone.py:27-32 | No known country code begins another |
| `Phone.CodeIsRead` | src/agyary/services/phone.py:45-51 | The code read from some digits is read from any digits it begins |
| `Phone.NormalizeIsIdempotent` | src/agyary/services/phone.py:35-52 | Normalising twice is normalising once |
| `Phone.CleanExactly` | src/agyary/services/phone.py:44-44 | Cleaned, a number is exactly its characters but white space, dashes, brackets and dots, in order |
| `Phone.TrunkTakenOut` | src/agyary/services/phone.py:45-51 | Of a number with its "+" exactly the zeros after a known country code are taken out |
| `Phone.OnlyCleaned` | src/agyary/services/phone.py:45-52 | Without a "+", or without a known code, a number is only cleaned |
| `Phone.NormaliseIsFixed` | alembic/versions/f7a8b9c0d1e2_customer_phone_normalised.py:59-68 | What the migration writes is a fixed point of both normalisers |
| `Phone.BareNumberIs` | alembic/versions/f7a8b9c0d1e2_customer_phone_normalised.py:59-68 | A bare number loses its leading zeros unless it is ten long; ten digits beginning with 6 to 9 are Indian, any other gains its "+" |
| `Phone.OneNumber` | alembic/versions/f7a8b9c0d1e2_customer_phone_normalised.py:9-25 | An Indian mobile with its +91, without the "+", with a trunk 0, and bare comes to one number |
| `Phone.NeverMeets` | alembic/versions/f7a8b9c0d1e2_customer_phone_normalised.py:96-101 | A number already rewritten never equals one still in its old shape |
| `Phone.Clashing` | alembic/versions/f7a8b9c0d1e2_customer_phone_normalised.py:84-94 | The rows reported as clashing are exactly those whose number another would share |
| `Phone.Upgrade` | alembic/versions/f7a8b9c0d1e2_customer_phone_normalised.py:71-101 | Rewrites exactly when every number will be valid and distinct, otherwise changes nothing and names the rows; numbers are unique after every single update |
| `SavedNames.NoPairIsLost` | src/agyary/messaging/booking_service.py:224-241 | From a valid section, offering only complete pairs loses not one row |
| `SavedNames.DepartedStayWhole` | src/agyary/messaging/booking_service.py:212-221 | Offering only the departed breaks up no pair |
| `SavedNames.CompletePairs` | src/agyary/messaging/booking_service.py:224-241 | Complete pairs of one status, in the order they first appear |
| `SavedNames.WholePairsExactly` | src/agyary/messaging/booking_service.py:224-241 | Whatever the rows, of each group exactly its two rows are offered if it is a pair, and nothing of it otherwise |
| `SavedNames.OrderIsByFirstRow` | src/agyary/messaging/booking_service.py:232-241 | Groups come in the order of their first rows |
| `SavedNames.DepartedExactly` | src/agyary/messaging/booking_service.py:219-221 | Exactly the departed are offered, in order |
| `SavedNames.ValidateSectionNames` | src/agyary/services/behdin_directory.py:271-302 | Accepts exactly the valid sections |
| `SavedNames.NextGroup` | src/agyary/services/behdin_directory.py:353-353 | The next group number is past every one in use |
| `SavedNames.OneMorePair` | src/agyary/services/behdin_directory.py:356-367 | Two rows under a fresh number make one more pair, keep a valid section valid and touch no other pair |
| `SavedNames.NewPairs` | src/agyary/services/behdin_directory.py:336-367 | Adds each whole pair not known, once, and nothing else |
| `SavedNames.NewSingles` | src/agyary/services/behdin_directory.py:369-378 | Adds each single not known, once, and nothing else |
| `SavedNames.Pool.ReplaceSection` | src/agyary/services/behdin_directory.py:305-319 | Replaces one section whole, or refuses it and changes nothing |
| `SavedNames.Pool.MergeSavedNames` | src/agyary/services/behdin_directory.py:326-390 | A valid pool is never refused and stays valid, every old row stays in place as a prefix, exactly what was new is added, as typed but trimmed, and merging what is known adds nothing, whatever case-folding does to a name |
| `SavedNames.Pool.DeletePairRow` | src/agyary/services/behdin_directory.py:393-415 | A paired row takes its partner with it, so the section stays valid |
| `SavedNames.WithoutExactly` | src/agyary/services/behdin_directory.py:404-412 | Taking out a group leaves exactly the other rows, in order |
| `SavedNames.TrimExactly` | src/agyary/services/behdin_directory.py:358-360 | A name is stored without the white space around it, and nothing else is taken from it |
| `SplitMigration.PapersFollow` | alembic/versions/e2f3a4b5c6d7_behdins_per_mobed.py:143-162 | Moved before the events by what the events still say, payments and notices agree with them afterwards |
| `SplitMigration.AllServed` | alembic/versions/e2f3a4b5c6d7_behdins_per_mobed.py:106-163 | With everyone served each event is re-scoped and no mobed has a number twice |
| `SplitMigration.FirstIsEarliest` | alembic/versions/e2f3a4b5c6d7_behdins_per_mobed.py:71-90 | The first mobed listed for a record is the one who touched it first, the lower number if two did at once |
| `SplitMigration.ByCustomer` | alembic/versions/e2f3a4b5c6d7_behdins_per_mobed.py:92-94 | Gathering the rows: each record once, with exactly its own mobeds in the order of the rows |
| `SplitMigration.Database.SplitRecord` | alembic/versions/e2f3a4b5c6d7_behdins_per_mobed.py:106-163 | Serves the users of one record, the earliest first, and touches no other record |
| `SplitMigration.Database.Upgrade` | alembic/versions/e2f3a4b5c6d7_behdins_per_mobed.py:71-166 | Every event is kept and points at its creator's own record of the same family; payments and notices still agree; (owner, number) is unique; the mobed who touched a record earliest keeps the row, everyone else who did gets a copy, nobody else does; each record has that mobed's consent, and since when, and an untouched one stays as it was |

## Left out

- Dates: unbounded here; Python refuses years before 1 and after 9999, so overflow errors at the ends are not modelled.
- StandIn.StandInDoesNotMatter: needs a start date more than a week after the stand-in death, which the planner's margin of more than a year always gives, and both stand-ins accepted.
- MemorialPlanning.PlanDoesNotDrift: for a sixth Gatha the stand-in day may not be found at all; then there is no plan to compare.
- RecurrenceRuns.SeriesStayInOrder: a member moved to another day leaves its series' dates, so these runs move no member to another day; slots stay apart in runs that do. A late top-up acts in one go: the bookings of two of them do not alternate.
- Events.EventDiary.GenerateBookingInstances: moving an event is not modelled; it takes the event off its series' occurrences, as moving a machi does. Top-ups here do not overlap, which is what the row lock is for.
- Events.EventDiary.CreateBookingRequest: clock times are whole minutes.
- Events.EventDiary.DeleteBooking: whether the caller may touch the event is a parameter.
- Diary.Tables.BookMachiSlot: the status goes straight to confirmed.
- Diary.Tables.DeleteMachi: whether the caller may modify the machi is a parameter.
- A rule whose source is missing is only modelled as switched off; foreign keys prevent it, as `RecurrenceRuns.SeriesStayInOrder` shows for every run.
- A fire temple's calendar never changes in the program, so it is a constant of the tables.
- Editing a machi as a whole, bulk booking, and `account.delete_account`, whose order of statements conflicts with the rule's own source check.
- Outbox.AtMostOncePerObservance: a stuck row may be closed at any moment rather than after five minutes, which allows more runs than the program has.
- ReminderSender.Desk.SendPending: one pass without other senders in between; interleaving is what `Outbox` is about. Modes other than live, missing credentials, the notices to mobeds and the report's counters are not modelled.
- Planner.PlanBook.PlanTomorrow: the candidate query is a list of candidates with distinct observances; message wording is one yes-or-no per candidate; how often admins are told of one limit, and in which words, is not modelled.
- Consent.StopsAreHonoured: a STOP comes from a real number, never from the one an erased record is given.
- Consent.Book.Remove: whether anything refers to the record is a parameter.
- Reading a STOP (`is_stop`), its acknowledgement, forwarding replies, memorial shares and closing notices.
- Sessions.HonestClientNeverEnded: the client stops once it is told that it is signed out; access tokens and signatures are not modelled, so a presented token is one that was issued.
- Phone.Upgrade: digits are 0 to 9; a number with digits of another script passes the program's first check and is refused by the constraint at the end, which undoes the whole migration.
- SavedNames.Pool.MergeSavedNames: case-folding is any function of the name; the display order is the position in the list.
- SplitMigration.Database.Upgrade: copies of saved names and fire temples travel with the record; the rows of the grouped query are a parameter, fixed by what `SplitMigration.Lists` requires of them; the downgrade is not modelled.
- `named_days_passed`, `passed_before_start`, `next_days_with_any_geh` and the list of reminders a mobed sees: short uses of the schedule and of availability.
- HTTP routes, SQL, PDF slips, the front end, sign-in codes and rate limits.
