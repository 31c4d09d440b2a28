/**
 * The rows of the scheduler's `schedules` and `execution_history` tables and
 * the rules `ThermostatScheduler` applies to one row at a time: input
 * validation, the effect of an update, the outcome of one execution attempt
 * with its retry backoff, and the missed-schedule test.
 */
module ScheduleRows {
  import opened Wrappers
  import opened Text
  import opened Queries
  import opened Recurrence

  const MinTemperature: int := 50
  const MaxTemperature: int := 90
  const ValidModes: seq<string> := ["off", "heat", "cool"]

  /** A failed attempt arms a retry only while its incremented count is below this. */
  const MaxRetries: nat := 3
  const RetryBaseDelay: nat := 60

  /** `_cleanup_old_history` keeps the last thirty days. */
  const HistoryRetention: int := 30 * SecondsPerDay

  /** The ways the scheduler's public operations raise. */
  datatype SchedulerError =
    | InvalidTime                 // "Invalid time format. Use HH:MM"
    | InvalidTemperature          // "Temperature must be between 50 and 90"
    | InvalidMode                 // "Mode must be one of: off, heat, cool"
    | NotFound(id: string)        // "Schedule <id> not found"
    | DuplicateId(id: string)     // the INSERT violates the primary key
    | MissingNextExecution        // fromisoformat(None) after an update

  predicate ValidTemperature(t: int) {
    MinTemperature <= t <= MaxTemperature
  }

  /** `mode.lower() in VALID_MODES` */
  predicate ValidMode(mode: string) {
    Lower(mode) in ValidModes
  }

  /** One row of the `schedules` table. */
  datatype Schedule = Schedule(
    id: string,
    time: string,
    temperature: int,
    mode: string,
    enabled: bool,
    daysOfWeek: string,
    createdAt: int,
    updatedAt: int,
    lastExecuted: Option<int>,
    nextExecution: Option<int>,
    retryCount: nat,
    lastError: Option<string>)

  /** What every writer of the table guarantees about a row. */
  predicate WellFormed(row: Schedule) {
    ValidTimeFormat(row.time) && ValidTemperature(row.temperature) && row.mode in ValidModes
  }

  /** Every row is stored under its own id and is well formed. */
  ghost predicate StoreInvariant(rows: map<string, Schedule>) {
    forall id :: id in rows ==> rows[id].id == id && WellFormed(rows[id])
  }

  // ---------------------------------------------------------------------------
  // Validation (create_schedule, update_schedule)
  // ---------------------------------------------------------------------------

  /** The checks of `create_schedule`, in the order the source makes them. */
  function Validate(time: string, temperature: int, mode: string): (e: Option<SchedulerError>)
    ensures e.None? <==> ValidTimeFormat(time) && ValidTemperature(temperature) && ValidMode(mode)
    ensures !ValidTimeFormat(time) ==> e == Some(InvalidTime)
    ensures ValidTimeFormat(time) && !ValidTemperature(temperature) ==> e == Some(InvalidTemperature)
    ensures ValidTimeFormat(time) && ValidTemperature(temperature) && !ValidMode(mode) ==> e == Some(InvalidMode)
  {
    if !ValidTimeFormat(time) then Some(InvalidTime)
    else if !ValidTemperature(temperature) then Some(InvalidTemperature)
    else if !ValidMode(mode) then Some(InvalidMode)
    else None
  }

  lemma LowerIdempotent(s: string)
    ensures Lower(Lower(s)) == Lower(s)
  {
  }

  /** Modes are matched without regard to case, and the stored form is one of the three. */
  lemma ModeCaseInsensitive(mode: string)
    ensures ValidMode(mode) <==> ValidMode(Lower(mode))
    ensures ValidMode(mode) ==> Lower(mode) in ValidModes
  {
    LowerIdempotent(mode);
  }

  /** "HEAT" is accepted and stored as "heat"; 95 degrees is refused. */
  lemma ValidationExamples()
    ensures ValidMode("HEAT") && Lower("HEAT") == "heat"
    ensures !ValidMode("auto")
    ensures !ValidTemperature(95) && ValidTemperature(50) && ValidTemperature(90) && !ValidTemperature(49)
  {
    assert Lower("HEAT") == "heat";
    assert Lower("auto") == "auto";
  }

  /** The row `create_schedule` inserts. */
  function NewRow(id: string, time: string, temperature: int, mode: string,
                  daysOfWeek: string, enabled: bool, now: int): (row: Schedule)
    requires Validate(time, temperature, mode).None?
    ensures WellFormed(row) && row.id == id
    ensures row.mode == Lower(mode) && row.time == time && row.daysOfWeek == daysOfWeek
    ensures row.nextExecution.Some? && row.nextExecution.value > now
    ensures row.lastExecuted.None? && row.retryCount == 0 && row.lastError.None?
  {
    NextExecutionAfterNow(time, daysOfWeek, now);
    Schedule(id, time, temperature, Lower(mode), enabled, daysOfWeek, now, now,
             None, Some(NextExecution(time, daysOfWeek, now)), 0, None)
  }

  /** The keyword arguments of `update_schedule` this model recognises; absent ones are None. */
  datatype ScheduleUpdate = ScheduleUpdate(
    time: Option<string>,
    temperature: Option<int>,
    mode: Option<string>,
    enabled: Option<bool>,
    daysOfWeek: Option<string>)

  predicate HasFields(u: ScheduleUpdate) {
    u.time.Some? || u.temperature.Some? || u.mode.Some? || u.enabled.Some? || u.daysOfWeek.Some?
  }

  /** The checks of `update_schedule` on the supplied fields, in the source's order. */
  function ValidateUpdate(u: ScheduleUpdate): (e: Option<SchedulerError>)
    ensures e.None? <==>
      && (u.time.Some? ==> ValidTimeFormat(u.time.value))
      && (u.temperature.Some? ==> ValidTemperature(u.temperature.value))
      && (u.mode.Some? ==> ValidMode(u.mode.value))
    ensures u.time.Some? && !ValidTimeFormat(u.time.value) ==> e == Some(InvalidTime)
    ensures e == Some(InvalidTemperature) <==>
      && (u.time.Some? ==> ValidTimeFormat(u.time.value))
      && u.temperature.Some? && !ValidTemperature(u.temperature.value)
    ensures e == Some(InvalidMode) <==>
      && (u.time.Some? ==> ValidTimeFormat(u.time.value))
      && (u.temperature.Some? ==> ValidTemperature(u.temperature.value))
      && u.mode.Some? && !ValidMode(u.mode.value)
    ensures e.Some? ==> e.value in {InvalidTime, InvalidTemperature, InvalidMode}
  {
    if u.time.Some? && !ValidTimeFormat(u.time.value) then Some(InvalidTime)
    else if u.temperature.Some? && !ValidTemperature(u.temperature.value) then Some(InvalidTemperature)
    else if u.mode.Some? && !ValidMode(u.mode.value) then Some(InvalidMode)
    else None
  }

  function Or<T>(o: Option<T>, default: T): T {
    if o.Some? then o.value else default
  }

  /** The row after the UPDATE of `update_schedule` at `now`. */
  function UpdatedRow(row: Schedule, u: ScheduleUpdate, now: int): (r: Schedule)
    requires WellFormed(row) && ValidateUpdate(u).None?
    ensures WellFormed(r)
    ensures r.id == row.id && r.createdAt == row.createdAt && r.lastExecuted == row.lastExecuted
    ensures r.retryCount == row.retryCount && r.lastError == row.lastError
    ensures r.time == Or(u.time, row.time) && r.temperature == Or(u.temperature, row.temperature)
    ensures r.mode == (if u.mode.Some? then Lower(u.mode.value) else row.mode)
    ensures r.enabled == Or(u.enabled, row.enabled) && r.daysOfWeek == Or(u.daysOfWeek, row.daysOfWeek)
    ensures r.updatedAt == now
    ensures u.time.Some? || u.daysOfWeek.Some? ==> r.nextExecution == Some(NextExecution(r.time, r.daysOfWeek, now))
    ensures u.time.None? && u.daysOfWeek.None? ==> r.nextExecution == row.nextExecution
  {
    ModeCaseInsensitive(Or(u.mode, "off"));
    var time := Or(u.time, row.time);
    var days := Or(u.daysOfWeek, row.daysOfWeek);
    Schedule(
      row.id, time, Or(u.temperature, row.temperature),
      if u.mode.Some? then Lower(u.mode.value) else row.mode,
      Or(u.enabled, row.enabled), days, row.createdAt, now, row.lastExecuted,
      if u.time.Some? || u.daysOfWeek.Some? then Some(NextExecution(time, days, now)) else row.nextExecution,
      row.retryCount, row.lastError)
  }

  /**
   * An update of only the enabled flag or the temperature keeps the due
   * instant; a new time recomputes it with the stored days, and new days with
   * the stored time.
   */
  lemma UpdateRecomputesFromStoredFields(row: Schedule, u: ScheduleUpdate, now: int)
    requires WellFormed(row) && ValidateUpdate(u).None?
    ensures u.time.Some? && u.daysOfWeek.None? ==>
      UpdatedRow(row, u, now).nextExecution == Some(NextExecution(u.time.value, row.daysOfWeek, now))
    ensures u.time.None? && u.daysOfWeek.Some? ==>
      UpdatedRow(row, u, now).nextExecution == Some(NextExecution(row.time, u.daysOfWeek.value, now))
    ensures u.time.None? && u.daysOfWeek.None? ==>
      UpdatedRow(row, u, now).nextExecution == row.nextExecution
  {
  }

  // ---------------------------------------------------------------------------
  // One execution attempt (_execute_schedule)
  // ---------------------------------------------------------------------------

  /** A call the scheduler makes into the thermostat. */
  datatype Call = SetMode(mode: string) | SetTemperature(temperature: int)

  /** The calls made during one attempt and the message of the error it raised, if any. */
  datatype AttemptOutcome = AttemptOutcome(calls: seq<Call>, error: Option<string>)

  /**
   * The try block of `_execute_schedule`: the mode is set first, and the
   * temperature only when setting the mode succeeded.
   */
  function Attempt(row: Schedule, modeOk: bool, tempOk: bool): (a: AttemptOutcome)
    ensures |a.calls| >= 1 && a.calls[0] == SetMode(row.mode)
    ensures SetTemperature(row.temperature) in a.calls <==> modeOk
    ensures a.calls == [SetMode(row.mode)] || a.calls == [SetMode(row.mode), SetTemperature(row.temperature)]
    ensures a.error.None? <==> modeOk && tempOk
    ensures !modeOk ==> a.error == Some("Failed to set mode to " + row.mode)
    ensures modeOk && !tempOk ==> a.error == Some("Failed to set temperature to " + IntToString(row.temperature))
  {
    if !modeOk then
      AttemptOutcome([SetMode(row.mode)], Some("Failed to set mode to " + row.mode))
    else if !tempOk then
      AttemptOutcome([SetMode(row.mode), SetTemperature(row.temperature)],
                     Some("Failed to set temperature to " + IntToString(row.temperature)))
    else
      AttemptOutcome([SetMode(row.mode), SetTemperature(row.temperature)], None)
  }

  /** The two failure messages tell which call failed. */
  lemma FailureMessagesDiffer(mode: string, temperature: int)
    ensures "Failed to set mode to " + mode != "Failed to set temperature to " + IntToString(temperature)
  {
    var a := "Failed to set mode to " + mode;
    var b := "Failed to set temperature to " + IntToString(temperature);
    assert a[14] == 'm' && b[14] == 't';
  }

  function Pow2(n: nat): (p: nat)
    ensures p >= 1
  {
    if n == 0 then 1 else 2 * Pow2(n - 1)
  }

  /** `60 * (2 ** retry_count)` */
  function RetryDelay(retryCount: nat): nat {
    RetryBaseDelay * Pow2(retryCount)
  }

  /** The row after an attempt at `now` that raised `error` (None on success). */
  function RecordAttempt(row: Schedule, error: Option<string>, now: int): (r: Schedule)
    requires WellFormed(row)
    ensures WellFormed(r)
    ensures r.id == row.id && r.time == row.time && r.temperature == row.temperature && r.mode == row.mode
    ensures r.enabled == row.enabled && r.daysOfWeek == row.daysOfWeek
    ensures r.createdAt == row.createdAt && r.updatedAt == row.updatedAt
    ensures r.lastExecuted == Some(now) && r.lastError == error
    ensures error.None? ==> r.retryCount == 0 && r.nextExecution == Some(NextExecution(row.time, row.daysOfWeek, now))
    ensures error.Some? ==> r.retryCount == row.retryCount + 1 && r.nextExecution == row.nextExecution
  {
    if error.None? then
      row.(lastExecuted := Some(now), retryCount := 0, lastError := None,
           nextExecution := Some(NextExecution(row.time, row.daysOfWeek, now)))
    else
      row.(lastExecuted := Some(now), retryCount := row.retryCount + 1, lastError := error)
  }

  /**
   * The instant `_execute_schedule` hands to `_schedule_timer` after an
   * attempt: the next occurrence on success, a backoff retry after a failure
   * while the incremented count is below three, and nothing otherwise.
   */
  function RearmAt(row: Schedule, error: Option<string>, now: int): (r: Option<int>)
    requires WellFormed(row)
    ensures r.Some? ==> r.value > now
    ensures r.None? <==> error.Some? && row.retryCount + 1 >= MaxRetries
    ensures error.Some? && r.Some? ==> r.value - now == RetryBaseDelay * Pow2(row.retryCount + 1)
  {
    if error.None? then Some(NextExecution(row.time, row.daysOfWeek, now))
    else if row.retryCount + 1 < MaxRetries then Some(now + RetryDelay(row.retryCount + 1))
    else None
  }

  /**
   * A success clears the retry state, and its timer is armed at the
   * recomputed next occurrence, at the schedule's time of day.
   */
  lemma SuccessResetsAndRearms(row: Schedule, now: int)
    requires WellFormed(row)
    ensures RecordAttempt(row, None, now).retryCount == 0 && RecordAttempt(row, None, now).lastError.None?
    ensures RearmAt(row, None, now) == RecordAttempt(row, None, now).nextExecution
    ensures RearmAt(row, None, now).value > now
    ensures SecondOfDay(RearmAt(row, None, now).value) == Seconds(ParseTime(row.time).value)
  {
    NextExecutionAfterNow(row.time, row.daysOfWeek, now);
  }

  /**
   * Starting from a clean row, three failures in a row arm retries 120 s and
   * 240 s after the first two, and nothing after the third; the due instant
   * is never advanced.
   */
  lemma RetryBackoff(row: Schedule, e1: string, e2: string, e3: string, t1: int, t2: int, t3: int)
    requires WellFormed(row) && row.retryCount == 0
    ensures RearmAt(row, Some(e1), t1) == Some(t1 + 120)
    ensures var r1 := RecordAttempt(row, Some(e1), t1);
      RearmAt(r1, Some(e2), t2) == Some(t2 + 240)
    ensures var r2 := RecordAttempt(RecordAttempt(row, Some(e1), t1), Some(e2), t2);
      && RearmAt(r2, Some(e3), t3) == None
      && RecordAttempt(r2, Some(e3), t3).retryCount == 3
      && RecordAttempt(r2, Some(e3), t3).nextExecution == row.nextExecution
  {
    assert Pow2(1) == 2;
    assert Pow2(2) == 4;
  }

  // ---------------------------------------------------------------------------
  // Missed schedules (_check_missed_schedules)
  // ---------------------------------------------------------------------------

  /**
   * The WHERE clause of the missed-schedule query: enabled, due before `now`,
   * and not executed since it became due (SQL NULL compares false).
   */
  predicate IsMissed(row: Schedule, now: int)
    ensures IsMissed(row, now) ==> row.enabled && row.nextExecution.Some? && row.nextExecution.value < now
  {
    && row.enabled
    && row.nextExecution.Some?
    && row.nextExecution.value < now
    && (row.lastExecuted.None? || row.lastExecuted.value < row.nextExecution.value)
  }

  /**
   * A failed attempt made once the row was due leaves it out of every later
   * missed-schedule scan when both instants are compared as instants: only
   * the retry timer can bring it back. The query itself compares the two
   * columns as text, UTC "YYYY-MM-DD HH:MM:SS" against local ISO
   * "YYYY-MM-DDTHH:MM:SS-07:00"; on a shared date prefix ' ' sorts before
   * 'T', so there the failed row is selected again by every scan until the
   * UTC date of its last attempt passes the date of its due instant.
   */
  lemma FailedAttemptNotMissed(row: Schedule, error: string, now: int, later: int)
    requires WellFormed(row)
    requires row.nextExecution.None? || row.nextExecution.value <= now
    ensures !IsMissed(RecordAttempt(row, Some(error), now), later)
  {
  }

  /**
   * After the third failure in a row no retry timer is armed, and, with the
   * columns compared as instants, no later scan selects the schedule. An
   * update of its time or days gives it a new due instant but keeps its
   * retry count at 3 or more, so its next failure again arms nothing.
   */
  lemma ExhaustedScheduleIsDormant(row: Schedule, error: string, now: int, later: int)
    requires WellFormed(row) && row.retryCount >= 2
    requires row.nextExecution.None? || row.nextExecution.value <= now
    ensures RearmAt(row, Some(error), now).None?
    ensures !IsMissed(RecordAttempt(row, Some(error), now), later)
  {
  }

  /** After a success the row is missed exactly once the new due instant has passed. */
  lemma SucceededAttemptMissedOnlyWhenDueAgain(row: Schedule, now: int, later: int)
    requires WellFormed(row)
    ensures IsMissed(RecordAttempt(row, None, now), later) <==>
      row.enabled && NextExecution(row.time, row.daysOfWeek, now) < later
  {
    NextExecutionAfterNow(row.time, row.daysOfWeek, now);
  }

  /** The ORDER BY key of the missed-schedule query. */
  function Due(row: Schedule): int {
    if row.nextExecution.Some? then row.nextExecution.value else 0
  }

  predicate DueLe(a: Schedule, b: Schedule) {
    Due(a) <= Due(b)
  }

  lemma DueLeTotalPreorder()
    ensures TotalPreorder(DueLe)
  {
  }

  /** `ORDER BY time, days_of_week` under SQLite's BINARY collation. */
  predicate ListingLe(a: Schedule, b: Schedule) {
    LexLe(a.time, b.time) && (a.time == b.time ==> LexLe(a.daysOfWeek, b.daysOfWeek))
  }

  lemma ListingLeTotalPreorder()
    ensures TotalPreorder(ListingLe)
  {
    forall a: Schedule, b: Schedule ensures ListingLe(a, b) || ListingLe(b, a) {
      LexLeTotal(a.time, b.time);
      LexLeTotal(a.daysOfWeek, b.daysOfWeek);
      if LexLe(a.time, b.time) && LexLe(b.time, a.time) {
        LexLeAntisymmetric(a.time, b.time);
      }
    }
    forall a: Schedule, b: Schedule, c: Schedule | ListingLe(a, b) && ListingLe(b, c)
      ensures ListingLe(a, c)
    {
      LexLeTransitive(a.time, b.time, c.time);
      if a.time == c.time {
        LexLeAntisymmetric(a.time, b.time);
        LexLeTransitive(a.daysOfWeek, b.daysOfWeek, c.daysOfWeek);
      }
    }
  }

  /** "10:00" is listed before "6:00": times are compared as text. */
  lemma ListingComparesText(a: Schedule, b: Schedule)
    requires a.time == "10:00" && b.time == "6:00"
    ensures ListingLe(a, b) && !ListingLe(b, a)
  {
    assert a.time[0] < b.time[0];
  }

  /** A row as `_load_all_schedules` leaves it: an enabled row without a due instant gets one. */
  function LoadedRow(row: Schedule, now: int): (r: Schedule)
    requires WellFormed(row)
    ensures WellFormed(r) && r.id == row.id && r.enabled == row.enabled
    ensures r.enabled ==> r.nextExecution.Some?
    ensures !row.enabled || row.nextExecution.Some? ==> r == row
    ensures row.enabled && row.nextExecution.None? ==>
      r == row.(nextExecution := Some(NextExecution(row.time, row.daysOfWeek, now)))
  {
    if row.enabled && row.nextExecution.None? then
      row.(nextExecution := Some(NextExecution(row.time, row.daysOfWeek, now)))
    else row
  }

  // ---------------------------------------------------------------------------
  // Execution history
  // ---------------------------------------------------------------------------

  /** One row of `execution_history`. */
  datatype HistoryEntry = HistoryEntry(
    entryId: nat,
    scheduleId: string,
    executedAt: int,
    success: bool,
    errorMessage: Option<string>,
    temperature: int,
    mode: string)

  function EntryId(e: HistoryEntry): int {
    e.entryId
  }

  /** AUTOINCREMENT ids grow along the table and stay below the next id to hand out. */
  ghost predicate HistoryInvariant(history: seq<HistoryEntry>, nextId: nat) {
    StrictlyIncreasing(history, EntryId) && forall i :: 0 <= i < |history| ==> history[i].entryId < nextId
  }

  /** `ORDER BY executed_at DESC` */
  predicate NewerFirst(a: HistoryEntry, b: HistoryEntry) {
    a.executedAt >= b.executedAt
  }

  lemma NewerFirstTotalPreorder()
    ensures TotalPreorder(NewerFirst)
  {
  }

  /** SQLite's LIMIT: a negative limit returns every row. */
  function Limit<T>(s: seq<T>, limit: int): (r: seq<T>)
    ensures 0 <= limit <= |s| ==> r == s[..limit]
    ensures limit < 0 || limit > |s| ==> r == s
  {
    if limit < 0 || limit >= |s| then s else s[..limit]
  }

  lemma LimitSorted<T>(s: seq<T>, limit: int, le: (T, T) -> bool)
    requires SortedBy(s, le)
    ensures SortedBy(Limit(s, limit), le)
    ensures forall x :: x in Limit(s, limit) ==> x in s
  {
  }

  /**
   * A page cut from a sorted sequence holds some of its elements and no
   * element left out precedes one that was kept.
   */
  lemma {:induction false} LimitKeepsFirst<T>(s: seq<T>, limit: int, le: (T, T) -> bool)
    requires SortedBy(s, le)
    ensures multiset(Limit(s, limit)) <= multiset(s)
    ensures forall x, y :: x in Limit(s, limit) && y in s && y !in Limit(s, limit) ==> le(x, y)
  {
    if 0 <= limit < |s| {
      var p := s[..limit];
      assert s == p + s[limit..];
      forall x, y | x in p && y in s && y !in p ensures le(x, y) {
        var i :| 0 <= i < |p| && p[i] == x;
        var j :| 0 <= j < |s| && s[j] == y;
        assert i < limit <= j;
      }
    }
  }

  /** The WHERE clause of `_cleanup_old_history`, negated: rows no older than thirty days. */
  function RetentionCutoff(now: int): int {
    now - HistoryRetention
  }

  /** A second purge with the same cutoff removes nothing more. */
  lemma CleanupIdempotent(history: seq<HistoryEntry>, cutoff: int)
    ensures var p := (e: HistoryEntry) => e.executedAt >= cutoff;
      Filter(Filter(history, p), p) == Filter(history, p)
  {
    FilterIdempotent(history, (e: HistoryEntry) => e.executedAt >= cutoff);
  }

  /** History cleanup drops old entries and keeps the id order. */
  lemma CleanupKeepsHistoryInvariant(history: seq<HistoryEntry>, nextId: nat, cutoff: int)
    requires HistoryInvariant(history, nextId)
    ensures HistoryInvariant(Filter(history, (e: HistoryEntry) => e.executedAt >= cutoff), nextId)
  {
    var p := (e: HistoryEntry) => e.executedAt >= cutoff;
    FilterIncreasing(history, p, EntryId);
    var r := Filter(history, p);
    forall i | 0 <= i < |r| ensures r[i].entryId < nextId {
      assert r[i] in history;
    }
  }
}
