# A verified model of the building gateway

The gateway polls a fleet of BACnet thermostats, keeps what they should do in a
database, pushes that onto them again and again until they agree, and opens
doors for people who have just proved who they are. Devices are unreliable: a
write may be applied, applied without the acknowledgement arriving, or lost, and
a read may fail or come back in part. This project models those parts of the
gateway in Dafny and proves what they keep, over every input, run or schedule.

`dafny verify dfyconfig.toml` checks everything.

| files | what they model |
|---|---|
| `RequestGate`, `PollCycle`, `GatedCycle` | the per-device locks and the fleet-wide semaphore as a machine of interleaved steps; how long one pass over the fleet takes; that every timed pass is a run of that machine |
| `TextOrder`, `DayEntries`, `Transitions` | times of day as text, and the validator of daily transitions as a canonical form |
| `Dates`, `BacnetObjects`, `DayStates` | the calendar, what a thermostat makes of its schedule and calendar objects (ANSI/ASHRAE 135, sections 12.9, 12.24 and 21), and what a list of changes by the minute asks for at an instant |
| `WeekSchedule`, `Holidays`, `TableQueries`, `Exceptions` | the weekly pattern between database and device, holiday rules, and one-offs and holidays composed into one exception list |
| `EntryCompare`, `WireForm`, `Setpoints`, `Reconciler`, `Convergence`, `Reports`, `Fulfilment` | the order-insensitive comparison and the text it compares, setpoint resolution and limits, one reconcile cycle with lossy writes, what any run of cycles achieves, what a cycle reports, and what an error-free cycle means for every later moment |
| `DeviceCache`, `AuditTrail` | the cached device state against its whole poll history, and what can be rebuilt from the audit rows |
| `Passkeys`, `LoginThrottle`, `Sessions` | step-up verification, the login throttle and sessions as timed machines |
| `Commands` | override and bypass as sequences of lossy writes |
| `Reals`, `Correlate`, `Alignment` | the correlation coefficient, and the pairing of two suites' samples |

State that the program changes in place is a class whose methods are proved
against a function of the old state; the theorems are about those functions.
Every lemma switches automatic induction off, so each proof is the one written.

## What the proofs found

* What the API accepted for a day is what the thermostat does: at every instant it
  is in the state of the caller's last change (`WeekSchedule.AcceptedIsObeyed`).
* An intended week settles if and only if every stored transition is in the
  validator's form and no day is empty (`Convergence.ReachedWeekAgreesExactly`).
  Weeks the API accepted do (`Convergence.AcceptedIntentSettles`); any other is
  sent again by every cycle that reads it, for ever
  (`Convergence.UnsettledWeekForEver`, with `WeekSchedule.EmptyDayDoesNotSettle`).
* "Already correct" is misleading exactly when a device day does not, at one of
  its own entries, do what it reads as to the minute
  (`WeekSchedule.AlreadyCorrectExactly`); in order of time, when an entry within a
  minute changes the value in effect (`WeekSchedule.AlreadyCorrectInOrder`,
  `WeekSchedule.SecondsAreLost`).
* The exception list is written in every cycle that gets past the calendar
  (`Convergence.ExceptionsSentRegardless`), although README.md:579 of the
  repository calls the reconciler idempotent. Nothing else is rewritten once it agrees.
* An `end_date` of "" ends a one-off before every date for the database query,
  and means no end for the encoder. The query then drops a one-off that is still
  to come (`Exceptions.DropsLiveRow`, exactly when; `Exceptions.BlankEndIsDropped`).
* One event carries the state of the first holiday for all of them, on the days
  the device finds an entry matching. Where its own one-offs are shown as stored
  (`Exceptions.ShownExactly`) and a week it was found to have correct does what it
  reads as, a device does after an error-free cycle what is stored at exactly
  those instants at which a one-off speaks or that state, where an entry matches
  and the week's where none does, is what the stored holidays ask for
  (`Fulfilment.OkCycleObeys`; without a week, `Fulfilment.OkCycleExceptions`). On
  dates on which gateway and device read the rules alike it always is, if the week
  was accepted by the API and every rule that can match has the first one's state
  (`Fulfilment.AcceptedIntentIsObeyed`).
* It fails with two states, as on New Year and Christmas Eve
  (`Exceptions.TwoHolidayStates`, `Exceptions.HolidayStates`), and on a date that is
  read differently (`Holidays.FallsAsMatched`, exactly which). "Last Monday" is
  week 5 here and days 29 to 31 on the device (`Holidays.FloatingAgrees`): of the
  federal set the gateway offers only Memorial Day is ever affected
  (`Holidays.FederalReadAlike`), and on 25 May 2026 the device shows an ordinary
  day (`Fulfilment.MemorialDayMissed`). That set keeps the day after Thanksgiving
  as the fourth Friday, which comes six days before Thanksgiving in years in
  which November begins on a Friday (`Holidays.DayAfterThanksgiving`). A range that wraps the year end matches no
  date on the device (`Holidays.DatedRangeAgrees`, `Holidays.NewYearRange`).
* The year octet of 2155 is the wildcard: a fixed holiday or one-day one-off of
  that year falls in every year on the device, and a range of it on no date (`Holidays.YearOctet`, `Exceptions.SpanDaysExactly`).
* `_same` finds an entry by its text and removes one by Python equality. It
  compares multisets of texts if and only if no two desired entries are equal
  and read differently, as 1 and 1.0 are (`EntryCompare.SameIsExactOnCoherent`).
  For calendar entries the text and the equality say the same
  (`WireForm.TextIsEquality`).
* The audit rows rebuild the status history if and only if no change of status
  fell on a refresh or next to a reading without a status (`AuditTrail.ReplayExactly`).
* The throttle's budget is max - 1 + k failures in a window when k logins for a
  key can be under way at once (`LoginThrottle.WindowHolds`), and a run reaches it
  (`LoginThrottle.WindowAttained`); it is max for one at a time. Its keys tell
  socket addresses apart, but not forwarded header texts with a bar in them
  (`LoginThrottle.KeysTellApart`, exactly which).
* Enabling the override gate exposes whatever command was left behind it. The
  two handlers never leave one, but the general point-write endpoint can
  (`Commands.OverrideSafeExactly`, `Commands.StaleCommandShows`).

## Model

| member | source | states |
|---|---|---|
| RequestGate.Safety | bms/bacnet.py:126-132 | in every reachable state, for any tasks and request lists, at most one request per device address and at most max(1, concurrency) in flight |
| RequestGate.SomeoneCanMove | bms/bacnet.py:114-132 | while some task is unfinished, some task can move: no deadlock with the device lock taken before the semaphore |
| RequestGate.EveryRequestFinishes | bms/bacnet.py:126-132 | every run under every scheduler has at most six moves per request, can be extended until it has exactly that many, and then and only then all tasks are finished |
| RequestGate.EachAddressServed | bms/bacnet.py:126-132 | along every run the devices a task's ended requests went to, followed by those still to come, are the list it was given, in order; when it is finished its requests went to exactly that list |
| RequestGate.LockTurnComes | bms/bacnet.py:129-131 | no overtaking: however long the others go on, the tasks queued on a device lock in front of a task make at most five moves each before it can take the lock, which is exactly when they have made them |
| RequestGate.SlotTurnComes | bms/bacnet.py:118-132 | while a task waits for the semaphore, slots go only to those in front of it, each once; it can take one exactly when they have theirs and one is free, and if none is a request in flight can end |
| RequestGate.HolderIsHead | bms/bacnet.py:129-131 | whoever is past its device lock is the head of that lock's queue |
| RequestGate.BacnetClient.constructor | bms/bacnet.py:91-120 | a fresh client is the initial state of the machine, its invariant established |
| RequestGate.BacnetClient.Move | bms/bacnet.py:126-132 | the client's fields after any step of a request are the machine's next state, the invariant kept; so what is proved of runs holds of it |
| RequestGate.BacnetClient.QueueForDevice | bms/bacnet.py:129-130 | the lock is created on first use and the task queues last on it |
| RequestGate.BacnetClient.GiveSlotBack | bms/bacnet.py:131-132 | the slot goes back however the request ended, and nothing else changes |
| PollCycle.CycleFitsItsBatches | bms/poller.py:194-206 | a pass over n devices with c slots, no request longer than B, never runs past ceil(n/c) B |
| PollCycle.CycleFitsItsWork | bms/poller.py:194-206 | nor past (sum of the holding times)/c + (1 - 1/c) times the longest |
| PollCycle.SerialCycleIsTheSum | bms/poller.py:202-205 | with one slot a complete pass takes exactly the sum |
| PollCycle.EachDeviceOnce | bms/poller.py:202-206 | no device is visited twice, and a complete pass visits each exactly once |
| PollCycle.NeverStuck | bms/poller.py:194-206 | an incomplete pass can always go on, and never idles longer than until the next request ends |
| PollCycle.ReachesCompletion | bms/poller.py:194-206 | from every legal prefix of a pass there is a legal continuation in which every device has been visited |
| PollCycle.MovesCounted | bms/poller.py:202-206 | besides waiting a pass makes at most two moves a device, and has made them all exactly when it is complete |
| PollCycle.BatchesIsCeiling | bms/poller.py:194-206 | the number of batches is the quotient rounded up |
| GatedCycle.CycleRunsTheGate | bms/bacnet.py:126-132 | every legal timed pass is matched move for move by a run of the lock-and-semaphore machine, so its safety applies |
| GatedCycle.WaitIsUrgent | bms/bacnet.py:118-132 | time passes only when no waiting task could be given a slot |
| GatedCycle.EveryoneAsks | bms/poller.py:206 | gathering queues every device's task for the semaphore in inventory order |
| Transitions.ValidateExact | bms/schedules.py:57-87 | a list is accepted exactly when it has 1 to 8 entries, each well formed, with distinct times; the result is strictly increasing and means what the input means |
| Transitions.CanonicalForm | bms/schedules.py:57-87 | two accepted inputs give equal results exactly when they denote the same map from minutes to states |
| Transitions.Idempotent | bms/schedules.py:57-87 | validating a validated day changes nothing |
| Transitions.OrderIndependent | bms/schedules.py:57-87 | the order of the input does not matter, for acceptance or for the result |
| Transitions.CanonicalIsFixed | bms/schedules.py:57-87 | a canonical day is accepted and comes back as it is |
| Transitions.HhMmOrder | bms/schedules.py:84-87 | string order on HH:MM is time order |
| Transitions.ParseHhMm | bms/schedules.py:46-54 | what is written as HH:MM parses back to the same hour and minute, and is refused exactly when they are none of the day |
| Transitions.ParseHhMmSs | bms/schedules.py:46-54 | the same for HH:MM:SS |
| Transitions.ParseHour | bms/schedules.py:46-54 | an hour alone is that hour sharp |
| Transitions.SortWritten | bms/schedules.py:84-87 | sorting the written forms as strings is sorting the entries as numbers |
| Transitions.ValidateTransitions | bms/schedules.py:57-87 | the loop over the caller's list, with its set of seen times and its sort, computes the specification |
| Transitions.RefusedExactly | bms/schedules.py:57-87 | why a list is refused: it is empty, the first transition at fault fails the first of its checks (field missing, time, duplicate, state), or all are fine and there are more than eight |
| Transitions.StoredAsSaid | bms/schedules.py:57-87 | the stored texts, read back, are the changes the caller sent |
| DayEntries.MeaningDetermines | bms/schedules.py:57-87 | a strictly increasing list is determined by the map it denotes |
| TextOrder.ParseIntSigned | bms/schedules.py:48 | `int` of a signed number is that number |
| TextOrder.ParseIntPadded | bms/schedules.py:48 | and blanks around a number do not matter |
| DayStates.WholeMinutesState | bms/schedules.py:135-146 | on whole minutes the device is at every instant in the state of the last change, read by the minute |
| DayStates.EndOfMinute | bms/schedules.py:135-146 | with seconds, it is so at least by the end of every minute |
| DayStates.AsReadExactly | bms/schedules.py:135-146 | with the entries in order of time it is so at every instant exactly when every entry within a minute repeats the value in effect |
| DayStates.AsReadInAnyOrder | bms/schedules.py:135-146 | in any order of the entries, exactly when it is so at each entry and at the minute it is read as |
| Dates.OrdinalOrder | bms/holidays.py:72-105 | ordinals are in date order |
| Dates.NextDayIsNext | bms/holidays.py:87-92 | adding a day to a valid date gives the next valid date |
| Dates.CalendarKnown | bms/holidays.py:93-103 | the weekday arithmetic gives the first Mondays of the twelve months of 2026 |
| Dates.LeapDays | bms/holidays.py:72-105 | 29 February exists in 2024 and 2000, and in 2026, 1900 and 2100 does not |
| Dates.DaysFromCover | bms/holidays.py:84-92 | counting days on from a start covers exactly the valid dates up to the end |
| Dates.ParseIsoExact | bms/schedules.py:149-176 | a text parses to a date exactly when it is that date's own ISO form |
| Dates.IsoOrder | bms/store.py:775-777 | string order on yyyy-mm-dd is date order |
| WeekSchedule.ResolveWeek | bms/schedules.py:90-96 | all seven days, the device's own day over its group's, a day neither has closed |
| WeekSchedule.BacnetToWeek | bms/schedules.py:135-146 | the decoding loop numbers days from 1 and formats each entry as HH:MM |
| WeekSchedule.RoundTrip | bms/schedules.py:99-146 | decoding an encoded week returns it if and only if every transition is in the validator's form |
| WeekSchedule.DeviceRoundTrip | bms/schedules.py:99-146 | the other way round: encoding a decoded device week returns it if and only if it is on whole minutes |
| WeekSchedule.EncodedIsObeyed | bms/schedules.py:99-109 | a device holding an encoded day of whole minutes is at every instant in the state of the last stored change |
| WeekSchedule.AcceptedIsObeyed | bms/schedules.py:57-109 | every accepted list can be written, and the device then is at every instant in the state of the caller's last change |
| WeekSchedule.NormaliseKeepsState | bms/schedules.py:111-132 | giving an empty day its default's meaning changes its state at no instant |
| WeekSchedule.AlreadyCorrectMeansSame | bms/reconciler.py:336-352 | when the comparison says "already correct", a device on whole minutes is at every instant of every day in the state the intended day's last change asks for, under the default read, or under any default if it could not be read |
| WeekSchedule.AlreadyCorrectExactly | bms/reconciler.py:336-352 | for any device day, with seconds and in any order, that holds exactly when the device does what it reads as at each of its entries |
| WeekSchedule.AlreadyCorrectInOrder | bms/reconciler.py:336-352 | for a day in order of time, exactly when every entry within a minute repeats the value already in effect |
| WeekSchedule.SecondsAreLost | bms/schedules.py:135-146 | an input showing that whole minutes on the device are needed for that |
| WeekSchedule.WrittenIsCorrect | bms/reconciler.py:336-357 | after an applied write the comparison is satisfied if and only if every transition is in the validator's form and, when the default is readable, no day is empty |
| WeekSchedule.ValidatedWeekConverges | bms/reconciler.py:328-357 | a week the validator accepted can be written, survives the round trip and is not rewritten |
| WeekSchedule.AcceptedWeekSettles | bms/schedules.py:90-96 | group and override days the validator accepted resolve to a week that settles, the closed days included |
| WeekSchedule.CorrectSettles | bms/reconciler.py:336-352 | only a week that settles can compare as correct under a default that was read, whatever the device holds |
| WeekSchedule.EmptyDayDoesNotSettle | bms/schedules.py:111-132 | an empty Sunday is written and then never found correct |
| Holidays.MatchingIs | bms/holidays.py:93-103 | the weekday filter over a month equals the closed form: one date a week from the first such weekday |
| Holidays.FloatingGivesOneDate | bms/holidays.py:93-105 | for every year and month a floating rule gives exactly one date, on its weekday, in days 7n-6 to 7n for n in 1..4 and in the last seven days for 5 |
| Holidays.FixedAgrees | bms/holidays.py:32-82 | for every year, exactly when a fixed rule lists the dates its calendar entry matches: when its date exists, a rule tied to 2155 being taken for every year |
| Holidays.DatedRangeAgrees | bms/holidays.py:32-92 | a dated range lists exactly the dates its entry matches in every year but its own, and in its own if and only if its ends exist, it does not wrap and the year is not 2155 |
| Holidays.RangeOccurs | bms/holidays.py:84-92 | a range lists exactly the valid dates from its start to its end |
| Holidays.NewYearRange | bms/holidays.py:84-92 | 20 December to 5 January: listed by the gateway, matched by no date on the device |
| Holidays.YearOctet | bms/holidays.py:28-29 | a rule for 2155 matches in 2026 on the device |
| Holidays.FloatingAgrees | bms/holidays.py:52-105 | a floating rule agrees with the device for a year if and only if its week is 1 to 4 or its day is 29 or later |
| Holidays.LastMondayOfMay | bms/holidays.py:93-103 | Memorial Day agrees in 2027 and is missed by the device in 2026 |
| Holidays.FallsAsMatched | bms/holidays.py:32-105 | gateway and device read a stored rule alike on a date if and only if `RuleAgrees`: not on a "last" weekday before the 29th, not within a range that wraps, and not where a year 2155 or an impossible date is involved, each exactly as stated there |
| Holidays.FixedFalls | bms/holidays.py:68-82 | a fixed rule falls on its month and day in its year, and in every year if it has none or 0 |
| Holidays.NoSuchMonth | bms/holidays.py:93-103 | a floating rule raises for a month or a year there is not |
| Holidays.EntriesExactly | bms/holidays.py:32-69 | the calendar can be written exactly if every rule has the columns its type needs, weeks 1 to 5 and weekdays 1 to 7; one rule that has not keeps them all off it |
| Holidays.FederalReadAlike | bms/holidays.py:121-139 | the federal set is read alike on every date but a last Monday of May before the 29th |
| Holidays.FederalDates | bms/holidays.py:121-139 | holiday by holiday, the dates of the federal set in 2026 |
| Holidays.DayAfterThanksgiving | bms/holidays.py:133-136 | the rule for the day after Thanksgiving gives that day exactly in the years in which November does not begin on a Friday, and comes six days before Thanksgiving in the others |
| Holidays.MemorialDay2026 | bms/holidays.py:127-128 | Memorial Day 2026 falls on the 25th and its entry does not match that day |
| Holidays.CanMatchExactly | bms/holidays.py:32-65 | a test on the rule alone that decides whether its entry, a range having its year, matches any date there is |
| TableQueries.OrderKeep | bms/store.py:769-783 | filtering commutes with ordering by a text column |
| TableQueries.OrderIsInOrder | bms/store.py:778 | the ordered rows are in order of the column |
| TableQueries.OneLeads | bms/store.py:778 | of the rows that qualify one leads, with the least key and the first in the table among equals |
| TableQueries.FirstIsLeader | bms/store.py:761-783 | the first row with a value among those selected and ordered is the leader of those selected that have one |
| Exceptions.QueryFiltered | bms/store.py:761-783 | asking for current rows is asking for all of the device's and dropping the expired ones, order included |
| Exceptions.ExceptionsForExactly | bms/store.py:768-778 | the query gives every enabled one-off whose scope is global, the device's zone or the device, as often as it is stored, no other, in order of the start dates |
| Exceptions.OneOffAskedExactly | bms/store.py:768-778 | what the store asks for, said on the rows and not on the query: the state of the enabled row in scope that says something, starts first, and is stored first among those of one day |
| Exceptions.QueryAsks | bms/store.py:768-778 | the first row the query gives that says something says what the store asks for |
| Exceptions.CurrentExact | bms/store.py:775-777 | with no blank end date a row is kept exactly when the one-off has not ended before today; a blank one is never kept |
| Exceptions.DropsLiveRow | bms/store.py:775-777 | exactly when the query drops a one-off the device would still show: its end date is blank and its day not past, or it is a past day of 2155, which comes round again |
| Exceptions.BlankEndIsDropped | bms/store.py:775-777 | a one-off with a blank end date that is still to come and not asked for |
| Exceptions.FilterInvisible | bms/reconciler.py:421-429 | leaving out the expired one-offs changes nothing from today on, unless one of those live rows is dropped |
| Exceptions.SpanDaysExactly | bms/schedules.py:149-176 | the device takes a one-off for exactly the dates it is stored for if and only if neither end is in 2155 |
| Exceptions.RowIsObeyed | bms/schedules.py:149-176 | the device shows an accepted one-off as its stored dates and changes say, at every instant |
| Exceptions.OneOffsDecide | bms/schedules.py:34-38 | among one-offs the first that prescribes anything decides |
| Exceptions.ComposedMeans | bms/reconciler.py:415-429 | the composed list means: one-off over holiday over nothing |
| Exceptions.PrioritiesAre | bms/reconciler.py:415-429 | one-offs go out with priority 1 and dates of their own, the holiday event with priority 2 and the calendar's |
| Exceptions.ExceptionsMeanIntent | bms/reconciler.py:407-435 | on every date from today on, at every instant and for any calendar on the device, the written list prescribes what the device's stored one-offs and each holiday's own state ask for, if and only if a one-off speaks or the state the holiday event shows is the one asked for |
| Exceptions.ScheduleMeansIntent | bms/reconciler.py:407-435 | the same for the value of the whole schedule object, whatever week the device holds |
| Exceptions.ShownExactly | bms/store.py:775-777 | asked for today, a one-off is shown on a later date exactly as stored if and only if the date is not its one day with a blank end date, nor one that the year octet of 2155 distorts |
| Exceptions.AlikeServes | bms/reconciler.py:418-420 | on a date on which the rules are read alike that comes to the first holiday's state being the right one |
| Exceptions.HolidayStates | bms/reconciler.py:418-420 | on all dates there are the device shows each holiday's own state, every range having its year, if and only if every rule that can ever match has the first one's state |
| Exceptions.UniformServes | bms/reconciler.py:418-420 | with such rules the first holiday's state is right on every date on which gateway and device read the rules alike |
| Exceptions.RulesAgreeOn | bms/holidays.py:32-105 | they do so on a date on which each rule meets its own condition |
| Exceptions.TwoHolidayStates | bms/reconciler.py:418-420 | two holidays with two states, and a Christmas Eve in the wrong one |
| EntryCompare.Same | bms/reconciler.py:477-487 | the loop that finds by text and removes by equality computes the specification |
| EntryCompare.SameExact | bms/reconciler.py:477-487 | on coherent desired lists the answer is equality of the multisets of texts |
| EntryCompare.SameIsExactOnCoherent | bms/reconciler.py:477-496 | the answer is equality of the multisets, for whatever the device returned, if and only if no two desired entries are equal with different texts |
| EntryCompare.PlainIsCoherent | bms/reconciler.py:490-496 | entries without floats and booleans always qualify |
| EntryCompare.SameIsEquivalence | bms/reconciler.py:477-496 | on such entries the comparison is an equivalence relation |
| EntryCompare.FloatMisleads | bms/reconciler.py:477-496 | 1 and 1.0 in the other order are reported as different |
| EntryCompare.TruthIsANumber | bms/reconciler.py:477-496 | True is equal to 1 and reads otherwise, so booleans would mislead too |
| WireForm.TextTellsApart | bms/reconciler.py:490-496 | no two calendar entries have the same normalised text |
| WireForm.TextIsEquality | bms/reconciler.py:477-496 | for calendar entries, equal texts and Python equality are the same, so finding by one and removing by the other is sound |
| EntryCompare.ListReadsLikeTuple | bms/reconciler.py:490-496 | a list reads like the tuple of its elements, whatever they are |
| Setpoints.SetpointsFor | bms/store.py:598-607 | the loops fill a dictionary with each key once, device over zone over global |
| Setpoints.ResolvedIsMostSpecific | bms/store.py:598-607 | for every key the dictionary holds the most specific scope's value |
| Setpoints.ClampIsNearest | bms/reconciler.py:456-457 | for each of the six limited setpoints, and any other point, the value sent is the allowed one nearest to the wanted one |
| Reconciler.DeviceReconciliation.ReconcileWeekly | bms/reconciler.py:313-360 | the weekly step: device, writes sent and result lists |
| Reconciler.DeviceReconciliation.ReconcileHolidays | bms/reconciler.py:362-405 | the calendar step, which goes on to the exceptions only after success |
| Reconciler.DeviceReconciliation.ReconcileExceptions | bms/reconciler.py:407-435 | the exception step, a row that does not convert being one error |
| Reconciler.DeviceReconciliation.ReconcileSetpoints | bms/reconciler.py:437-474 | the setpoint loop over the resolved dictionary |
| Reconciler.DeviceReconciliation.ReconcileDevice | bms/reconciler.py:243-250 | the steps in order |
| Reconciler.ConvertAll | bms/reconciler.py:425-429 | the loop collects what converts and records an error for what does not |
| Convergence.CycleDrift | bms/reconciler.py:313-474 | an item disagrees after a cycle exactly when it did before and the cycle did not reach it: nothing that agreed is broken, every applied write settles its item (the week, if it is one that settles) |
| Convergence.CycleSendsDrift | bms/reconciler.py:313-474 | with complete reads a cycle sends exactly the weekly, calendar and setpoint items that disagree, so none once all agree |
| Convergence.ExceptionsSentRegardless | bms/reconciler.py:391-435 | exactly when the exception list is written: whenever the calendar is valid, read, and agrees or was acknowledged |
| Convergence.RunConverges | bms/reconciler.py:111-125 | after any run of cycles with any outcomes, exactly the items that disagreed and that no cycle reached still do (the week, if it is one that settles) |
| Convergence.AcceptedIntentSettles | bms/schedules.py:57-96 | an intent whose days the API accepted has a week that settles and can be written |
| Convergence.UnsettledWeekForEver | bms/reconciler.py:336-357 | any other week disagrees after every run, and is sent by every cycle that reads week and default, whatever the device held |
| Convergence.ReachedWeekAgreesExactly | bms/reconciler.py:336-357 | once a write has reached the device, its week agrees if and only if it settles |
| Convergence.CorrectUnderAnyDefault | bms/schedules.py:111-132 | a week without empty days that is correct as read is correct under every default |
| Reports.ReportExactly | bms/reconciler.py:44-58 | with complete reads an item is reported changed exactly if it disagreed and its write was acknowledged, already correct exactly if it agreed, and an error exactly if it cannot be written or its write was not acknowledged |
| Reports.ExceptionsReported | bms/reconciler.py:407-435 | the exception list, written unread, is never reported changed: acknowledged it counts as correct, and it is an error if not, or if a one-off does not convert |
| Reports.SentExactly | bms/reconciler.py:313-474 | which writes a cycle sends under any reads, partial ones too: an unread week, calendar or points none, a point that did not answer always |
| Reports.SentInOrder | bms/reconciler.py:243-250 | the week goes out before the calendar, that before the exceptions, and those before the setpoints |
| Fulfilment.OkMeansAgreement | bms/reconciler.py:56-58 | a result without errors means every stored item is tracked and agrees (the week, if it settles), and the exception list is today's |
| Fulfilment.WorkingNetworkSucceeds | bms/reconciler.py:243-250 | conversely a cycle whose reads are answered and whose writes are acknowledged reports no errors, whatever the device held, when everything stored can be written |
| Fulfilment.AgreeingDeviceObeys | bms/reconciler.py:243-250 | on every date from today on, at every instant, an agreeing device whose week is obeyed does what the stored week, one-offs and each holiday's own state ask for, if and only if a one-off speaks or the first holiday's state, where some entry matches, is what the holidays ask for; nothing is asked of the rules |
| Fulfilment.AgreeingExceptionsObey | bms/reconciler.py:407-435 | the same for its exceptions alone, of a device with a group or without |
| Fulfilment.OkCycleObeys | bms/reconciler.py:243-250 | the same for a device with a group after any cycle without errors, with the comparison's own text, provided that seconds in the week it had change nothing if that week is kept |
| Fulfilment.OkCycleExceptions | bms/reconciler.py:362-435 | and for the exceptions of any device, one without a group keeping its week as it was |
| Fulfilment.AlikeHolidaysServe | bms/reconciler.py:418-420 | on a date on which every rule is read alike the condition is that the first holiday's state is the right one |
| Fulfilment.AcceptedIntentIsObeyed | bms/reconciler.py:243-250 | with an intent the API accepted, whose holidays that can match have one state, on a date on which every rule is read alike such a device simply does what is stored |
| Fulfilment.MemorialDayMissed | bms/holidays.py:127-128 | with Memorial Day the only holiday, an error-free cycle leaves every such device showing the week throughout 25 May 2026, where the holiday's state is asked for |
| DeviceCache.DeviceState.RecordSuccess | bms/cache.py:108-123 | the state after a success is the next state of the history |
| DeviceCache.DeviceState.RecordFailure | bms/cache.py:125-130 | likewise after a failure |
| DeviceCache.DeviceState.ApplyLocalWrite | bms/cache.py:132-139 | only that one value changes |
| DeviceCache.OnlineExactly | bms/cache.py:43-52 | online exactly when the device answered once and fewer than `offline_after` polls have failed since it last did |
| DeviceCache.UnstableExactly | bms/cache.py:54-57 | unstable exactly when some, but fewer, have failed since then, or since the beginning if it never answered |
| DeviceCache.TotalsCount | bms/cache.py:108-130 | the totals count the answers and the failures of the history |
| DeviceCache.CachedExactly | bms/cache.py:108-139 | the cache holds a value for a key exactly if the last reading or write of that key said it; a reading without the key leaves nothing |
| DeviceCache.RateIsShare | bms/cache.py:59-63 | the failure rate is the share of attempts that failed, between 0 and 1, and None for no attempt |
| DeviceCache.AverageBetween | bms/cache.py:118-123 | the smoothed round trip lies between any bounds of the samples, and exists once there is one |
| DeviceCache.SettlesGeometrically | bms/cache.py:102-123 | after n equal samples the error is 0.8 to the n of what it was |
| DeviceCache.FifteenPollsSettle | bms/cache.py:102-106 | after any history fifteen polls of equal length leave less than a twenty-fifth of the error, on its own side |
| DeviceCache.WarnsOncePerOutage | bms/poller.py:362-374 | between two went-offline warnings the device answered |
| DeviceCache.LeavesOnline | bms/poller.py:370 | the device leaves online exactly at the `offline_after`-th failure since it last answered |
| DeviceCache.LeavingIsWarned | bms/poller.py:362-381 | that is warned about unless an internal error was what tipped it |
| DeviceCache.WarningMeansLeft | bms/poller.py:370-374 | a warning means a device left online, or never answered |
| AuditTrail.Poller.PollDevice | bms/poller.py:332-381 | one poll updates state, audit rows and warnings as the history says |
| AuditTrail.ChangeRowExactly | bms/poller.py:208-279 | a from/to row is written exactly when two consecutive successful readings carried valid, different statuses and the second was a poll |
| AuditTrail.RowExactly | bms/poller.py:232-279 | which row a poll writes, each if and only if: temporary for a change of status to 3, scheduled for one to another, observed for a 3 with nothing cached, changed for a 3 as before with an offset moved by more than 0.05 |
| AuditTrail.CacheHoldsLast | bms/poller.py:347-352 | the status in the cache is that of the last successful reading |
| AuditTrail.ReplayExactly | bms/poller.py:208-279 | folding the rows over the first status rebuilds the status throughout a run if and only if no change was straddled |
| AuditTrail.GapFreeReplays | bms/poller.py:208-279 | in a gap-free run of polls it always does |
| AuditTrail.GapLosesChange | bms/poller.py:250-264 | three readings with a gap, whose change is lost |
| Passkeys.PasskeyStore.ConsumeChallenge | bms/passkeys.py:147-163 | the challenge is destroyed whether or not it was good, and good exactly when issued to this user for this purpose and not expired |
| Passkeys.PasskeyStore.GetAuthenticationOptions | bms/passkeys.py:232-256 | issuing replaces the user's outstanding challenge for the purpose |
| Passkeys.PasskeyStore.RegisterDevice | bms/passkeys.py:199-228 | registration consumes its challenge first |
| Passkeys.PasskeyStore.VerifyAssertion | bms/passkeys.py:258-303 | the order of checks: challenge, credential of this user, library, counter |
| Passkeys.PasskeyStore.Delete | bms/passkeys.py:124-132 | only one's own credential is removed |
| Passkeys.PasskeyStore.RequireRecentVerification | bms/api.py:500-520 | the gate of the door, and that it changes nothing |
| Passkeys.OneOutstanding | bms/passkeys.py:244-255 | in every run at most one challenge per user and purpose is outstanding |
| Passkeys.TableIsHistory | bms/passkeys.py:147-255 | a challenge in the table was issued as its row says and not presented since |
| Passkeys.TableExactly | bms/passkeys.py:147-255 | the table holds exactly the challenges given to someone for a purpose, not presented since, and not replaced by another for them and it, each for 180 seconds |
| Passkeys.OwnedExactly | bms/passkeys.py:214-221 | a credential is a user's exactly if they registered it, nobody did since, and they did not remove it |
| Passkeys.RegisterExactly | bms/passkeys.py:199-228 | a registration is accepted exactly with an outstanding registration challenge of that user, at most 180 s old, and the library's consent |
| Passkeys.VerifyExactly | bms/passkeys.py:258-303 | a verification is accepted exactly with an outstanding challenge of that user, at most 180 s old, a credential they hold, the library's consent, and a counter above the last one accepted unless that was zero |
| Passkeys.HoldersExactly | bms/passkeys.py:124-236 | options to verify are given, and credentials removed, exactly for who holds them |
| Passkeys.UnlockExactly | bms/api.py:500-520 | with passkeys configured an unlock is granted exactly when the user holds one and verified at most 90 s before, since the last restart; without, always |
| Passkeys.UnlockNeedsFreshVerification | bms/api.py:1014-1023 | behind every unlock stands a verification by that user at most 90 s before, its challenge issued to them for authentication at most 180 s before its check, and accepted nowhere else in the run |
| Passkeys.PresentedOnce | bms/passkeys.py:154-157 | a challenge presented once, by anyone and however, is never accepted afterwards |
| Passkeys.UnlocksExtendNothing | bms/passkeys.py:71-74 | a run without its unlocks ends in the same state |
| Passkeys.CopyShows | bms/passkeys.py:288-295 | after an accepted counter other than zero, no assertion with the same or a lower one is accepted |
| LoginThrottle.Throttle.Prune | bms/auth.py:191-194 | keeps exactly the attempts in the window |
| LoginThrottle.Throttle.CheckBlocked | bms/auth.py:196-198 | prunes, and compares with the limit |
| LoginThrottle.Throttle.RecordFailure | bms/auth.py:200-208 | one failure is recorded once |
| LoginThrottle.Throttle.Clear | bms/auth.py:210-211 | a success forgets the key |
| LoginThrottle.KeysTellApart | bms/auth.py:197 | keys are equal exactly for the same client and the same username up to case, or when one username takes in a bar and the front of the other's client |
| LoginThrottle.DirectClientsApart | bms/api.py:305-309 | clients that are socket addresses are never confused |
| LoginThrottle.HeaderClientsClash | bms/api.py:305-309 | two forwarded header texts that are |
| LoginThrottle.PrunedIsHistory | bms/auth.py:191-211 | from now on the pruned list says as much as all failures since the last success |
| LoginThrottle.BlockedExactly | bms/auth.py:196-198 | a login is refused exactly when the window before it holds the maximum of failures since the last success |
| LoginThrottle.WindowHolds | bms/api.py:341-361 | with at most k logins on a key under way at once no window holds more than max - 1 + k failures |
| LoginThrottle.WindowAttained | bms/api.py:341-361 | for every limit and every k a run with at most k logins under way has exactly that many |
| LoginThrottle.SequentialWindow | bms/api.py:341-361 | one at a time, no window holds more than the maximum |
| LoginThrottle.OtherKeysIrrelevant | bms/auth.py:179-211 | what a key is told depends on its own events alone |
| Sessions.AuthStore.UpdatePassword | bms/auth.py:250-272 | an administrative reset ends all the account's sessions |
| Sessions.AuthStore.ReplaceOwnPassword | bms/auth.py:274-300 | so does changing one's own, when the old one is right and the new one differs |
| Sessions.AuthStore.DeactivateUser | bms/auth.py:318-326 | the account becomes inactive and its sessions end |
| Sessions.AuthStore.NewSession | bms/auth.py:395-404 | a session for thirty days |
| Sessions.AuthStore.ResolveSession | bms/auth.py:406-418 | whom a token stands for; an expired session of an active account is deleted, and no other row |
| Sessions.AuthStore.RevokeSession | bms/auth.py:420-422 | logging out removes the session |
| Sessions.AuthStore.RevokeAllSessions | bms/auth.py:424-429 | all sessions of the named account, case aside, and no other |
| Sessions.AuthStore.PurgeExpiredSessions | bms/auth.py:431-434 | removes exactly the expired ones and counts them |
| Sessions.ResolvesExactly | bms/auth.py:406-418 | all in terms of the operations of the run: a token resolves to an account exactly when its session was opened for it, after the account was created, at most thirty days ago, with no logout, password change or deactivation since, and the account was never deactivated |
| Sessions.ActiveExactly | bms/auth.py:318-326 | an account is active exactly when it was created, under a free id and name, and no later operation deactivated it by its name |
| Sessions.PasswordChangeCutsAll | bms/auth.py:250-300 | a token that resolves was issued after the account's last password change |
| Sessions.DeactivationIsPermanent | bms/auth.py:318-326 | nothing resolves to a deactivated account ever again |
| Sessions.PurgeChangesNothing | bms/auth.py:431-434 | a run without its purges resolves every token alike |
| Commands.Thermostat.Override | bms/api.py:709-717 | the writes in order, stopping at the first not acknowledged |
| Commands.Thermostat.Bypass | bms/api.py:740-751 | likewise |
| Commands.OverrideSafe | bms/api.py:704-717 | whatever becomes of the writes, gate off implies no command left, only the old or the requested override is obeyed at any moment, success means the requested one, with the gate to match, and the bypass is left alone |
| Commands.OverrideSafeExactly | bms/api.py:704-717 | from any state that safety holds if and only if the call is a release, the gate is on, or the command left behind is none or the requested one |
| Commands.StaleCommandShows | bms/api.py:704-717 | a command left behind a closed gate, obeyed on the way to another one, and for good if the second write is lost |
| Commands.RunsAreSafe | bms/api.py:690-757 | in every sequential run of overrides, bypasses and expiries every call is safe at every moment |
| Commands.BypassSafe | bms/api.py:734-751 | every write that enables a bypass, of one already running too, is sent only with the requested duration in the point it is taken from; success means on for that time, or off, with the minutes point to match; the override is left alone |
| Commands.OnlyBypassSwitchesOn | bms/api.py:740-751 | nothing but a bypass call for some minutes switches one on |
| Correlate.CauchySchwarz | tools/correlate.py:61-63 | the squared sum of products is at most the product of the sums of squares, with equality exactly for proportional series |
| Correlate.InSums | tools/correlate.py:46-63 | the coefficient in terms of three sums, the division by n - 1 cancelling |
| Correlate.PearsonExactly | tools/correlate.py:46-63 | the coefficient exists exactly for three or more pairs of series of which neither is flat; its square times both sums of squared deviations is the squared sum of their products, and it is negative exactly when that sum is |
| Correlate.DeviationsExactly | tools/correlate.py:61-62 | a deviation is the sample less a mean whose n-fold is the sum of the samples |
| Correlate.SquaredAtMostOne | tools/correlate.py:46-63 | the square of the coefficient is between 0 and 1 |
| Correlate.PearsonSymmetric | tools/correlate.py:46-63 | it is symmetric |
| Correlate.UnitsDoNotMatter | tools/correlate.py:46-63 | shifting or positively scaling either series changes nothing, undefined cases included |
| Correlate.OneExactlyOnALine | tools/correlate.py:46-63 | its square is one exactly when the samples lie on a line, and then it is negative exactly when the line falls |
| Alignment.Aligned | tools/correlate.py:75-96 | the loop collects the specified pairs, as two lists of equal length |
| Alignment.NearestIsFirst | tools/correlate.py:88 | the sample chosen is the first of the nearest |
| Alignment.PairOfExactly | tools/correlate.py:75-96 | a sample gives a pair exactly if it has a value and the first of B's samples nearest to its time plus the lag has one, no farther off than a minute or three quarters of B's mean interval |
| Alignment.PairsAre | tools/correlate.py:86-95 | the pairs are those of the samples that give one, in A's order and each once |
| Alignment.RegularNeverDropped | tools/correlate.py:83-90 | while B is sampled regularly and the moment falls within it, the nearest sample is within half an interval and no pair is lost to the tolerance |
| Alignment.AdjustmentWindows | tools/correlate.py:99-107 | the loop computes the specified windows |
| Alignment.WindowsExactly | tools/correlate.py:99-107 | a window is reported exactly for the moments the status became Temporary from another one read just before |
| Alignment.WindowsInOrder | tools/correlate.py:99-107 | each once, in order of time |

## Left out

* The BACnet library, sockets, `asyncio` internals and timeouts: a request is a step that ends acknowledged, applied but unacknowledged, or lost. Locks and semaphores are first come, first served, as `asyncio` has them; cancellation of a waiting task is not modelled.
* SOAP, weather, WebAuthn, scrypt and hashing: foreign code, whose verdicts are inputs. Challenges and tokens are assumed new, and clocks never go back.
* The user interface, FastAPI routing and cookies, migrations, deployment and command-line tools.
* Clock synchronisation, the sharing of outdoor air, history sampling and pruning, and the overrun counter of the poll loop: shallow claims around I/O.
* SQL text: tables are maps and sequences with the meaning of each query. Rows with equal `start_date` come in insertion order here; SQLite leaves that open.
* Floating point: durations, setpoints and samples are reals, and a setpoint written is the setpoint read back.
* Forms of times and dates beyond plain digits that Python also accepts (underscores and other digits in `int`, further ISO forms in `fromisoformat`).
* What a device makes of an undated holiday range, whose wildcard years have no order in the standard: `Matches` takes it to match nothing, `Holidays.CanMatch` allows that it may, and results that would depend on it ask for ranges with their years.
* Exceptions other than the ones the handlers name while a setpoint is written; they end the cycle for that device.
* `clear_verification` and `_issue_challenge`, which nothing calls.
* Interleaved override requests on one device: the sequence of writes is not atomic. Direct writes of single points are not part of the runs of commands.
* Passwords themselves: a login whose check passed before a password change and whose session was created after it keeps working, which `Sessions.PasswordChangeCutsAll` allows, being about when sessions are created.
* `_unwrap` and non-numeric point values; the detail fields of audit rows.
* The octets of a week-and-day in the comparison's text are taken as three numbers; the library's own text for them is not part of this model.
* `Exceptions.ExceptionsMeanIntent`, `Fulfilment.AgreeingDeviceObeys`, `Fulfilment.OkCycleObeys`: of dates on which one of the device's own one-offs is dropped or distorted only what `Exceptions.ShownExactly` says. Of several holidays on one date the first is the one asked for; the repository does not say which should win.
