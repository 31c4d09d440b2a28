# Smart thermostat scheduler and vision readers, modelled in Dafny

This project models the core of a smart-thermostat controller.

The main part is `ThermostatScheduler` (scheduler.py). It keeps recurring
thermostat schedules in SQLite. There it:

- validates new and updated schedules;
- computes each schedule's next execution from its HH:MM time and its
  day-of-week rule;
- arms a one-shot timer for every enabled schedule;
- executes a schedule by calling the mode callback and then the temperature
  callback;
- retries a failed execution with exponential backoff;
- records every attempt in an execution history;
- recovers missed schedules and purges old history from a monitor loop.

The second part is temperature reading from a camera image of the
thermostat's display:

- `local_vision_ai.py` turns OCR text into a reading and a confidence.
- `vision_temperature_service.py` and `vision_temperature_service_fixed.py`
  run update cycles and write the shared temperature file.
- `vision_state.py` stores and loads the vision state file.
- `debug/read_vision_temperature.py` reads the temperature file back and
  re-bands its confidence by age.

Time is whole seconds on one local clock (instant 0 is 1970-01-01 00:00,
a Thursday). The caller passes in the current instant `now`. The same holds
for every other thing the source fetches from outside:

- the ids `uuid4` would generate;
- the callbacks' answers;
- the OCR text of each image;
- the vision tool's reply;
- whether capture succeeded;
- the contents of a JSON file.

The database tables are maps and sequences in the fields of a Dafny class:

- `schedules`: id to row;
- `execution_history`: a sequence of rows, plus the next AUTOINCREMENT id;
- the timer registry `active_timers`: id to the instant the timer fires.

Each method that changes state is proved against a specification function.
The source's promises are then proved about those functions as lemmas.

Files:

- `wrappers.dfy`: Option and Result.
- `text.dfy`: the Python string operations used. These are `strip`,
  `lower`, `split`, `replace`, `int()` and `str()` on integers, with ASCII
  case folding and Python's whitespace set.
- `queries.dfy`: SQL-like filtering and stable sorting.
- `recurrence.dfy`: times of day, days of the week and the next-execution
  computation.
- `schedule_rows.dfy`: table rows and per-row rules.
- `scheduler.dfy`: the scheduler class.
- `vision_records.dfy`: confidence levels and the temperature-file record.
- `vision_state.dfy`, `vision_service.dfy`, `vision_service_fixed.dfy`,
  `read_vision_temperature.dfy`, `local_vision_ai.dfy`: one file per vision
  source file.

Where the code and its documented intent differ, the model follows the code:

- Deleting an unknown id is not an error.
- Day names are not validated. Unknown names are dropped.
- Only the exact text "daily" skips the day filter. "Daily" names no day, so
  its schedule moves seven days past the first candidate.
- A day rule naming no known day also moves the schedule seven days past the
  first candidate.
- The retry delays are `60 * 2 ** retry_count` with the count already
  incremented. That is 120 s after the first failure and 240 s after the
  second.
- After the third consecutive failure nothing is re-armed and the due
  instant is not advanced. An update of the time or the days gives the row
  a new due instant, but its retry count stays at 3 or more, so its next
  failure again arms no retry. A restart re-arms the row only when its due
  instant is still ahead. The missed-schedule scan can still pick it up,
  as the `SelectMissed` line under "Left out" explains.

## Model

| member | source | states |
|---|---|---|
| Recurrence.ParseTime | scheduler.py:323-329 | a string accepted as `%H:%M` yields an hour below 24 and a minute below 60 |
| Recurrence.ParseFormatTime | scheduler.py:323-329 | every time of day, written as zero-padded HH:MM, is accepted and read back unchanged |
| Recurrence.ValidTimeFormat | scheduler.py:323-329 | a time is accepted exactly when it splits at ':' into two fields, an hour field read as 0..23 and a minute field read as 0..59 |
| Recurrence.SplitIntAgreesWithStrptime | scheduler.py:334 | on every validated time, `map(int, time_str.split(':'))` gives exactly the two fields strptime accepted |
| Recurrence.DayNumber | scheduler.py:363-366 | a name maps to the weekday whose `day_map` key it is, and to nothing when it is no key |
| Recurrence.TokenDays | scheduler.py:367-372 | the loop over comma-separated tokens yields at most one day per token |
| Recurrence.TokenDaysMembership | scheduler.py:367-372 | a weekday is listed exactly when some trimmed token names it |
| Recurrence.TokenDaysInWeek | scheduler.py:367-372 | every listed day is a weekday index 0..6 |
| Recurrence.ParseDaysOfWeek | scheduler.py:355-372 | every day the rule yields is a weekday index 0..6 |
| Recurrence.ParseDaysOfWeekMeaning | scheduler.py:355-372 | "weekdays" is exactly 0..4, "weekends" exactly 5..6, any other text lists the days its tokens name, case-insensitively |
| Recurrence.ParseJoinedDayNames | scheduler.py:355-372 | day names joined by commas parse back to the same day sequence |
| Recurrence.CapitalisedDailyNamesNoDay | scheduler.py:344-345 | "Daily" is not "daily", so it goes through the name parse and names no day |
| Recurrence.CalculateNextExecution | scheduler.py:331-353 | the loop computes exactly the next-execution instant of the time and the day rule at `now` |
| Recurrence.AdvanceToTargetDay | scheduler.py:347-351 | the seven-step loop advances the candidate by the number of days it takes to meet a listed weekday, at most seven |
| Recurrence.DaysToTargetMeaning | scheduler.py:347-351 | every day skipped is unlisted, and the search stops early only on a listed weekday |
| Recurrence.DaysToTargetFinds | scheduler.py:347-351 | a non-empty day list is always met within seven steps |
| Recurrence.FirstCandidateEarliest | scheduler.py:336-341 | today's slot, or tomorrow's once it is not after `now`, is the earliest instant after `now` at that time of day |
| Recurrence.NextExecution | scheduler.py:331-353 | the next execution lies after `now` and at most eight days later |
| Recurrence.NextExecutionAfterNow | scheduler.py:331-353 | the next execution is strictly after `now` and falls exactly at the schedule's time of day |
| Recurrence.NextExecutionDailyEarliest | scheduler.py:336-344 | for "daily" it is the earliest such instant after `now` |
| Recurrence.NextExecutionOnTargetDay | scheduler.py:344-351 | for a rule naming a day it falls on a named weekday, and every earlier instant after `now` at that time falls on an unnamed one |
| Recurrence.NextExecutionNoTargetDays | scheduler.py:344-351 | a rule naming no known day moves the first candidate by exactly seven days |
| Recurrence.ScenarioDailyAfterTimePassed | scheduler.py:331-353 | 06:00 daily created on Monday 2024-01-01 at 06:05 next runs on 2024-01-02 at 06:00 |
| Recurrence.ScenarioWeekdaysFromFriday | scheduler.py:331-353 | 06:00 on weekdays created on Friday 2024-01-05 at 07:00 next runs on Monday 2024-01-08 at 06:00 |
| ScheduleRows.Validate | scheduler.py:187-195 | no error exactly when the time, the temperature (50..90) and the lower-cased mode are valid, and the first failing check names the error |
| ScheduleRows.ModeCaseInsensitive | scheduler.py:194 | a mode is valid exactly when its lower-case form is, and that form is one of off, heat, cool |
| ScheduleRows.ValidationExamples | scheduler.py:191-195 | "HEAT" is accepted and stored as "heat", "auto" is refused, 50 and 90 are accepted, 49 and 95 are refused |
| ScheduleRows.NewRow | scheduler.py:197-206 | the inserted row is well formed, keeps the time and days, stores the lower-cased mode, is due after `now`, and starts with no execution, no retries and no error |
| ScheduleRows.ValidateUpdate | scheduler.py:230-247 | an update is refused exactly when one supplied field is invalid; the first invalid field, checked in the order time, temperature, mode, names the error |
| ScheduleRows.UpdatedRow | scheduler.py:256-270 | supplied fields replace stored ones and the mode is lower-cased; the due instant is recomputed exactly when the time or the days are supplied |
| ScheduleRows.UpdateRecomputesFromStoredFields | scheduler.py:259-265 | a new time is combined with the stored days, new days with the stored time, and other updates keep the due instant |
| ScheduleRows.Attempt | scheduler.py:442-476 | the mode is set first; the temperature is set only after the mode succeeded; success exactly when both succeed, with each failure's message |
| ScheduleRows.FailureMessagesDiffer | scheduler.py:452-465 | the two failure messages never coincide, so the message says which call failed |
| ScheduleRows.RecordAttempt | scheduler.py:466-519 | an attempt stamps `last_executed` and `last_error`; success resets the retry count and moves the due instant to the next occurrence; failure adds one to the count and keeps the due instant |
| ScheduleRows.RearmAt | scheduler.py:489-521 | a re-armed instant is always after `now`; nothing is re-armed exactly when a failure brings the count to 3; a retry comes `60 * 2 ** retry_count` seconds later, with the incremented count |
| ScheduleRows.SuccessResetsAndRearms | scheduler.py:466-521 | after a success the count is 0, the error cleared, and the timer is armed at the new due instant, at the schedule's time of day |
| ScheduleRows.RetryBackoff | scheduler.py:475-495 | from a clean row, three failures arm retries 120 s and 240 s after the first two and nothing after the third, with counts 1, 2, 3 and the due instant unchanged |
| ScheduleRows.IsMissed | scheduler.py:147-153 | a missed row is enabled and has a due instant before `now` |
| ScheduleRows.FailedAttemptNotMissed | scheduler.py:147-153 | a failed attempt made once the row was due keeps it out of every later missed-schedule scan |
| ScheduleRows.ExhaustedScheduleIsDormant | scheduler.py:147-153 | after the third failure no timer is armed and no later scan selects the schedule |
| ScheduleRows.SucceededAttemptMissedOnlyWhenDueAgain | scheduler.py:147-153 | after a success the row is selected as missed exactly when its new due instant has passed |
| ScheduleRows.ListingComparesText | scheduler.py:297-300 | "10:00" is listed before "6:00" because times are ordered as text |
| ScheduleRows.LoadedRow | scheduler.py:534-543 | loading gives an enabled row without a due instant a freshly computed one, and leaves every other row as stored |
| ScheduleRows.LimitKeepsFirst | scheduler.py:318 | on a sorted sequence LIMIT keeps a sub-bag, and every row it drops sorts after every row it keeps |
| ScheduleRows.Limit | scheduler.py:318 | LIMIT keeps the first `limit` rows, and all rows for a negative or larger limit |
| ScheduleRows.CleanupIdempotent | scheduler.py:161-170 | a second purge with the same cutoff removes nothing more |
| ScheduleRows.CleanupKeepsHistoryInvariant | scheduler.py:161-170 | purging old entries keeps the AUTOINCREMENT ids increasing and below the next id |
| Scheduler.Arm | scheduler.py:374-403 | a timer is added at the instant exactly when that instant is after `now`; every other timer is kept, and a non-positive delay changes nothing |
| Scheduler.EntryFor | scheduler.py:442-510 | the history entry of one execution carries the next id, the schedule id, `now`, the stored temperature and mode, success exactly when both calls succeeded, and an error message exactly on failure, naming the mode when the mode call failed |
| Scheduler.RearmFor | scheduler.py:489-521 | a re-armed timer belongs to an enabled stored schedule and fires after `now`; after a success it fires at the schedule's next occurrence |
| Scheduler.LoadedStore | scheduler.py:525-545 | after loading, every enabled row has a due instant and the ids are unchanged |
| Scheduler.LoadedTimers | scheduler.py:534-545 | every loaded enabled row due after `now` is armed at its due instant, and every other entry is kept |
| Scheduler.ExecutedAllDistinct | scheduler.py:157-159 | executing distinct enabled schedules records exactly one attempt in each and leaves every other row as it was |
| Scheduler.ThermostatScheduler.constructor | scheduler.py:92-108 | the scheduler starts over the persisted tables with no timer armed |
| Scheduler.ThermostatScheduler.ScheduleTimer | scheduler.py:374-403 | a timer is registered at the execution instant only when its delay is positive |
| Scheduler.ThermostatScheduler.CancelTimer | scheduler.py:405-411 | the schedule's timer is removed if there is one, and nothing else changes |
| Scheduler.ThermostatScheduler.Stop | scheduler.py:118-127 | the scheduler stops running and every timer is dropped |
| Scheduler.ThermostatScheduler.Start | scheduler.py:110-116 | starting loads every enabled schedule and arms its timer, keeping the history |
| Scheduler.ThermostatScheduler.CreateSchedule | scheduler.py:172-213 | invalid input raises the first failing check and changes nothing; otherwise the row is inserted under the new id and its timer is armed when it is enabled; the days default to "daily" and the row to enabled |
| Scheduler.ThermostatScheduler.UpdateSchedule | scheduler.py:215-280 | an unknown id or an invalid field raises and changes nothing; an update without fields does nothing; otherwise the row is rewritten, its timer cancelled, and re-armed when the row is enabled |
| Scheduler.ThermostatScheduler.DeleteSchedule | scheduler.py:282-291 | the row and its timer are removed, and an unknown id is no error |
| Scheduler.ThermostatScheduler.GetSchedules | scheduler.py:293-308 | every stored row appears exactly once, ordered by time and then days as text |
| Scheduler.ThermostatScheduler.GetScheduleHistory | scheduler.py:310-321 | only this schedule's entries, each at most as often as stored, newest first, `limit` of them (10 by default, all for a negative limit), and no entry left out is newer than one returned |
| Scheduler.ThermostatScheduler.ScheduleRetry | scheduler.py:489-495 | below three attempts a retry timer is armed after the backoff delay, otherwise nothing changes |
| Scheduler.ThermostatScheduler.LogExecution | scheduler.py:506-510 | the entry is appended with the next AUTOINCREMENT id and the id order is kept |
| Scheduler.ThermostatScheduler.ScheduleNext | scheduler.py:513-521 | after a success the timer is armed at the next occurrence |
| Scheduler.ThermostatScheduler.ExecuteSchedule | scheduler.py:413-523 | an unknown or disabled schedule is skipped untouched; otherwise the thermostat calls are made in order, the row records the attempt, one history entry is appended, and the timer is re-armed at the next occurrence or retry instant, or not at all |
| Scheduler.ThermostatScheduler.SelectMissed | scheduler.py:147-155 | exactly the enabled rows due before `now` and not executed since, each once, in due order |
| Scheduler.ThermostatScheduler.CheckMissedSchedules | scheduler.py:140-159 | every missed schedule is executed exactly once, in due order, and the others are untouched; the history gains exactly the entries of those executions, in order, under consecutive ids; the timers of the executed schedules are re-armed as their executions decide, and every other timer is kept |
| Scheduler.ThermostatScheduler.ExecuteEach | scheduler.py:157-159 | the loop leaves the store given by running each id in turn, appends exactly one entry per id in order under consecutive ids, and re-arms exactly the timers those executions decide |
| Scheduler.ThermostatScheduler.ExecuteNext | scheduler.py:157-159 | one more execution extends the store, the history, the next id and the timers by exactly that execution's effect |
| Scheduler.ThermostatScheduler.CleanupOldHistory | scheduler.py:161-170 | exactly the entries from the last thirty days remain |
| Scheduler.ThermostatScheduler.LoadSchedule | scheduler.py:534-545 | one enabled row is completed with a due instant if it lacks one, and its timer is armed |
| Scheduler.ThermostatScheduler.LoadAllSchedules | scheduler.py:525-548 | the store becomes the loaded store and the registry the loaded timers |
| LocalVisionAi.MatchAt | local_vision_ai.py:184 | a match of `\b\d{1,2}\b` starts at a word boundary with a digit, takes two digits before one, and ends at a word boundary |
| LocalVisionAi.MatchesFrom | local_vision_ai.py:184 | the matches `re.findall` reports lie in the text, are real matches, and strictly increase |
| LocalVisionAi.Numbers | local_vision_ai.py:184 | the numbers are the values of those matches, in order |
| LocalVisionAi.MatchesComplete | local_vision_ai.py:184 | no match of the pattern is skipped by the left-to-right scan |
| LocalVisionAi.LongDigitRunsIgnored | local_vision_ai.py:184 | no digit of a run of three or more digits starts a match |
| LocalVisionAi.FirstInRange | local_vision_ai.py:190-196 | it returns the first number in 50..90, and none only when no number is in range |
| LocalVisionAi.Clean | local_vision_ai.py:181 | the cleaned reply is lower case and no longer than the reply; a reply without whitespace is only lowered |
| LocalVisionAi.AssessConfidence | local_vision_ai.py:206-236 | HIGH exactly when the lowered reply matches one of the four HIGH patterns; MEDIUM exactly when none matches and the number occurs in a reply of at most three words; LOW otherwise |
| LocalVisionAi.HighPatternStartsWith | local_vision_ai.py:220-229 | each HIGH pattern anchors the number at the start of the reply |
| LocalVisionAi.DegreeSignIsHigh | local_vision_ai.py:220-229 | a reply starting "<t>°" is HIGH, whatever follows |
| LocalVisionAi.DegreesWordIsHigh | local_vision_ai.py:220-229 | a reply starting "<t> degrees" is HIGH, whatever follows |
| LocalVisionAi.ShortReplyIsMedium | local_vision_ai.py:231-233 | the two-word reply "at <t>" is MEDIUM |
| LocalVisionAi.ParseTemperatureResponse | local_vision_ai.py:170-204 | a reading is in 50..90; without one the confidence is LOW |
| LocalVisionAi.ParseFindsFirstStandaloneNumber | local_vision_ai.py:170-204 | the reading is the first standalone number of the cleaned reply in range, none exactly when there is none, assessed on the cleaned reply |
| LocalVisionAi.BareNumberIsHigh | local_vision_ai.py:170-236 | a reply of just the number reads as that number with HIGH confidence |
| LocalVisionAi.FahrenheitIsHigh | local_vision_ai.py:170-236 | a reply "<t>°F" reads as t with HIGH confidence |
| LocalVisionAi.ThreeDigitReplyGivesNothing | local_vision_ai.py:184-187 | "720" gives no reading, because its digits form one run |
| LocalVisionAi.Candidate | local_vision_ai.py:88-95 | an image contributes only when its text was recognised and holds a reading in range |
| LocalVisionAi.Readings | local_vision_ai.py:77-95 | one reading slot per image, in order, each the image's own contribution |
| LocalVisionAi.FirstFoundIsFirst | local_vision_ai.py:92-95 | there is a first reading exactly when some image gives one, and it is the reading of the first image that does |
| LocalVisionAi.FirstHighIsFirst | local_vision_ai.py:92-99 | there is a first HIGH reading exactly when some image gives one, and it is the reading of the first image that does |
| LocalVisionAi.PickIsFirst | local_vision_ai.py:92-113 | the choice is the first HIGH reading; with none, the first reading; with none either, the failure record |
| LocalVisionAi.Selected | local_vision_ai.py:73-121 | a returned reading is in range; without one the result is LOW, or ERROR with the message when preprocessing raised |
| LocalVisionAi.SelectedIsFirstHigh | local_vision_ai.py:92-99 | with an image read as HIGH, the result is the reading of the first such image |
| LocalVisionAi.SelectedIsFirstReading | local_vision_ai.py:92-105 | with no HIGH image, the result is the reading of the first image read at all |
| LocalVisionAi.SelectedIsNothing | local_vision_ai.py:106-113 | with no image read, the result is the LOW record "No temperature detected in any processed image" |
| LocalVisionAi.SelectionPrefersHigh | local_vision_ai.py:92-107 | a reading in any image gives a reading, and a HIGH one in any image gives a HIGH result |
| LocalVisionAi.ExtractTemperature | local_vision_ai.py:56-121 | the loop keeps the first reading, stops at the first HIGH one, and returns the selection |
| VisionState.CalculateConfidence | vision_state.py:44-61 | NO_DATA exactly without a timestamp; otherwise HIGH below 30 s, MEDIUM below 60 s, LOW below 300 s, else STALE |
| VisionState.ConfidenceMonotone | vision_state.py:44-61 | an older timestamp never gets a fresher confidence |
| VisionState.SaveState | vision_state.py:12-24 | the saved record keeps the temperature, has a timestamp exactly when one was given, and carries its confidence at `now` |
| VisionState.LoadState | vision_state.py:26-42 | a missing or unreadable file gives nothing; a stored timestamp has its confidence recomputed at `now`; without one the record is returned as stored |
| VisionState.GetCurrentVisionData | vision_state.py:63-74 | the loaded state, or the NO_DATA defaults when there is none |
| VisionState.LoadIgnoresStoredConfidence | vision_state.py:26-42 | loading does not depend on the confidence stored next to a timestamp |
| VisionState.LoadAfterSave | vision_state.py:12-42 | reading a saved state back later equals saving it at that later time |
| VisionState.GarbledTimestampGivesDefaults | vision_state.py:36-42 | an unparsable timestamp makes the state unavailable, so the defaults are returned |
| VisionState.ConfidenceTransitions | debug/test_confidence_transitions.py:15-21 | readings 0, 25, 45, 90 and 400 seconds old load as HIGH, HIGH, MEDIUM, LOW and STALE |
| FixedVisionService.CalculateConfidence | vision_temperature_service_fixed.py:97-106 | below 60 s HIGH, below 300 s MEDIUM, below 600 s LOW, else STALE |
| FixedVisionService.ConfidenceMonotone | vision_temperature_service_fixed.py:97-106 | confidence never increases with age |
| FixedVisionService.Cycle | vision_temperature_service_fixed.py:145-178 | a captured reading is recorded as HIGH now; otherwise the reading is kept and only the confidence is re-banded, by the reading's age once there is one, STALE when there never was one |
| FixedVisionService.CaptureFailureLikeMissingReading | vision_temperature_service_fixed.py:145-178 | a failed capture leaves the same state as a capture without a reading |
| FixedVisionService.ConfidenceDecays | vision_temperature_service_fixed.py:145-178 | over cycles without a reading the confidence only decays |
| FixedVisionService.ReadingAges | vision_temperature_service_fixed.py:145-178 | from any state holding a reading, whatever its confidence, a cycle without a new reading keeps it and re-bands it by its age |
| FixedVisionService.VisionStateData | vision_temperature_service_fixed.py:129-134 | the vision state carries the last temperature, or 76 when it is unset or zero, stamped with the UTC clock |
| FixedVisionService.VisionTemperatureService.constructor | vision_temperature_service_fixed.py:39-43 | running, with no reading and LOW confidence |
| FixedVisionService.VisionTemperatureService.HandleShutdown | vision_temperature_service_fixed.py:49-52 | the service stops running |
| FixedVisionService.VisionTemperatureService.WriteOutputFiles | vision_temperature_service_fixed.py:108-143 | both files receive the current state |
| FixedVisionService.VisionTemperatureService.RunUpdateCycle | vision_temperature_service_fixed.py:145-178 | the state becomes the cycle's state and both files are written in every branch |
| VisionService.ParseReply | vision_temperature_service.py:113-124 | an accepted reply reads as a temperature in 50..90 |
| VisionService.ClaudeTemperature | vision_temperature_service.py:99-133 | a reading comes only from a run that completed with status 0 |
| VisionService.ParseReplyBare | vision_temperature_service.py:113-124 | a reply of the bare number reads as it exactly when it is in range |
| VisionService.ParseReplyFahrenheit | vision_temperature_service.py:113-124 | a reply "<t>°F" reads as t exactly when t is in range |
| VisionService.ParseReplyDegree | vision_temperature_service.py:113-124 | a reply "<t>°" reads as t exactly when t is in range |
| VisionService.CalculateConfidence | vision_temperature_service.py:135-142 | below 60 s HIGH, below 300 s MEDIUM, else LOW |
| VisionService.ConfidenceMonotone | vision_temperature_service.py:135-142 | confidence never increases with age |
| VisionService.Cycle | vision_temperature_service.py:170-199 | a captured reading is recorded as HIGH now; otherwise the reading is kept, its confidence is re-banded by its age once there has been a reading, and without any reading ever the state is unchanged |
| VisionService.CaptureFailureLikeMissingReading | vision_temperature_service.py:170-199 | a failed capture leaves the same state as a capture without a reading; only the file write differs |
| VisionService.Writes | vision_temperature_service.py:170-199 | a cycle that writes no file leaves the state unchanged, whatever the reply and the time |
| VisionService.CycleKeepsLevels | vision_temperature_service.py:170-199 | the confidence stays HIGH, MEDIUM or LOW |
| VisionRecords.OutputData | vision_temperature_service.py:144-168 | the temperature file carries the last reading, its confidence, its timestamp and age, and no error; the fixed service writes the same record (vision_temperature_service_fixed.py, lines 110-126) |
| VisionService.VisionTemperatureService.constructor | vision_temperature_service.py:36-40 | running, with no reading, LOW confidence and no file written |
| VisionService.VisionTemperatureService.HandleShutdown | vision_temperature_service.py:46-49 | the service stops running |
| VisionService.VisionTemperatureService.WriteTemperatureFile | vision_temperature_service.py:144-168 | the file receives the current state |
| VisionService.VisionTemperatureService.RunUpdateCycle | vision_temperature_service.py:170-199 | the state becomes the cycle's state; the file is written after every capture, and after a failed one only once there has been a reading |
| ReadVisionTemperature.CurrentReading | debug/read_vision_temperature.py:14-72 | error records for a missing, undecodable or unreadable file, and for a timestamp that does not parse; otherwise the stored record, its temperature, timestamp and error kept, with its age recomputed and, unless the service stopped, its confidence re-banded |
| ReadVisionTemperature.GetVisionTemperature | debug/read_vision_temperature.py:14-72 | the field-by-field update gives exactly the current reading |
| ReadVisionTemperature.TemperatureOnly | debug/read_vision_temperature.py:74-80 | a temperature is only ever the stored one |
| ReadVisionTemperature.IsTemperatureFresh | debug/read_vision_temperature.py:82-94 | only a stored record can be fresh; the age limit is 300 s by default |
| ReadVisionTemperature.FreshnessDecays | debug/read_vision_temperature.py:82-94 | a reading fresh now was fresh at every earlier time after it was taken |
| ReadVisionTemperature.FreshIsHighOrMedium | debug/read_vision_temperature.py:82-94 | a fresh reading is HIGH, MEDIUM or SERVICE_STOPPED, except LOW at exactly 300 s |
| ReadVisionTemperature.Indicator | debug/read_vision_temperature.py:108-116 | "?" exactly for a confidence other than HIGH, MEDIUM and LOW |
| ReadVisionTemperature.FormatTemperatureDisplay | debug/read_vision_temperature.py:96-118 | "No temperature data" without a temperature, else the temperature, "°F " and the indicator |
| ReadVisionTemperature.DisplayDeterminesReading | debug/read_vision_temperature.py:96-118 | two displays that are equal have the same temperature and the same indicator |
| ReadVisionTemperature.ReadsFixedServiceOutput | debug/read_vision_temperature.py:14-72 | reading what the fixed service wrote gives its temperature, re-banded by its age now |
| ReadVisionTemperature.ReadsServiceOutput | debug/read_vision_temperature.py:14-72 | reading what the original service wrote gives its temperature, re-banded by its age now |

## Left out

- SQLite itself is not modelled. The tables are Dafny maps and sequences, and each operation's writes are applied as one step. The connection lock, `init_database` and the indexes are not modelled.
- Threads are not modelled. This covers the monitor thread with its sixty-second loop, the `threading.Timer` objects firing, and the timers lock. Concurrent interleavings are therefore not covered. A timer firing is a call of `ExecuteSchedule`.
- Scheduler.ThermostatScheduler.ExecuteSchedule: a fired timer's entry stays in `active_timers`, as in the source. A re-armed timer overwrites the entry without cancelling the previous `threading.Timer`. The model keeps one instant per id, so that earlier, still-pending timer is not represented.
- Time zones and daylight-saving changes (`pytz`, US/Pacific) are not modelled. Every day is 86400 seconds long.
- A single `now` serves a whole call, where the source reads the clock several times.
- Scheduler.ThermostatScheduler.SelectMissed: SQLite's `CURRENT_TIMESTAMP` for `last_executed` is UTC text while `next_execution` is local ISO text. The model compares both as local instants. The query compares them as text: on a shared date the space in "2026-10-14 13:00:01" sorts before the 'T' in "2026-10-14T06:00:00-07:00". So a row whose attempt failed on the date it was due is selected again by every sixty-second scan until the UTC date of its last attempt moves on. The model does not capture that repetition.
- Scheduler.ThermostatScheduler.CleanupOldHistory: the purge compares the UTC `CURRENT_TIMESTAMP` text of `executed_at` (scheduler.py:68) with the local isoformat text of the cutoff (scheduler.py:165-169). The model compares instants on one clock. So it does not capture that, with the cutoff at "2026-09-14T10:00:00-07:00", an entry stamped "2026-09-14 20:00:00" is deleted although it is younger than the cutoff. Nor does it capture that, with the cutoff at 20:00 local on that day, an older entry stamped "2026-09-15 01:00:00" is kept.
- Scheduler.ThermostatScheduler.Start: Start and LoadAllSchedules arm each loaded timer over any existing entry without cancelling it (scheduler.py:388, reached from line 545). The earlier `threading.Timer` would still fire; the model keeps one instant per id.
- VisionState.SaveState: a timestamp is modelled as an instant. The source also accepts a string timestamp and passes it through unchanged (vision_state.py:16, 49-50).
- Text.PyInt: only ASCII digits are accepted. Python's `int()` also accepts other Unicode decimal digits.
- `uuid.uuid4()` is a parameter, `freshId`. An id that is already stored is reported as a duplicate-key error.
- Scheduler.ThermostatScheduler.UpdateSchedule: keyword arguments other than time, temperature, mode, enabled and days_of_week are not representable. The source ignores them.
- Logging is not modelled, including the extra 6:00 AM logging.
- The callbacks are not modelled, and neither is any exception they raise other than a false return. Their answers are inputs.
- `str.lower`, regex `\w` and regex `\d` are modelled on ASCII only.
- Camera capture, the static-image fallback, the OCR engines, image preprocessing, `load_model`, `cleanup`, and the vision command-line process are not modelled. Their results are inputs.
- FixedVisionService.VisionTemperatureService.RunUpdateCycle: the simulated random reading of the fixed service's `get_claude_temperature` is an input.
- `run()` is not modelled in either service. That includes the main loops, the signal handlers, the `SERVICE_STOPPED` record written on exit and its `service_status` key. `ServiceStopped` remains a level that readers handle.
- Failures to write output files are not modelled; the source catches and logs them.
- Ages are whole seconds, where the source uses floats.
- FixedVisionService.VisionStateData: the fixed service stamps the vision state file with the UTC clock, while readers compare against the local clock. The model keeps both clocks as separate inputs.
- JSON objects are modelled with every key present, so the readers' "UNKNOWN" default for a missing confidence is not reached.
- The isoformat error message inserts the raw text, without Python's `repr` escaping.
- LocalVisionAi.ExtractTemperature: the unused `best_confidence` variable is omitted. The outer exception is modelled only for preprocessing, the one step outside the per-image `try`.
- ReadVisionTemperature.FreshIsHighOrMedium: a fresh reading can be LOW at exactly 300 s, because freshness admits that age while the MEDIUM band ends below it.
- The command-line entry points and test printouts of the debug scripts are not modelled.
