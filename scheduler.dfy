/**
 * `ThermostatScheduler`: the schedule store, its execution history and the
 * registry of armed timers, with the operations that change them.
 *
 * The database tables become the fields `schedules` (rows by id) and
 * `history` (rows in insertion order); `activeTimers` maps a schedule id to
 * the instant its timer is due.  The clock reading, the fresh schedule id and
 * the booleans returned by the thermostat callbacks are parameters.
 */
module Scheduler {
  import opened Wrappers
  import opened Text
  import opened Queries
  import opened Recurrence
  import opened ScheduleRows

  /** Every armed timer belongs to a stored, enabled schedule. */
  ghost predicate TimersInvariant(timers: map<string, int>, rows: map<string, Schedule>) {
    forall id :: id in timers ==> id in rows && rows[id].enabled
  }

  /** `_schedule_timer` on the registry: an entry is stored only for a positive delay. */
  function Arm(timers: map<string, int>, id: string, at: int, now: int): (r: map<string, int>)
    ensures r.Keys == if at > now then timers.Keys + {id} else timers.Keys
    ensures at > now ==> r[id] == at
    ensures forall k :: k in timers && (k != id || at <= now) ==> r[k] == timers[k]
  {
    if at - now > 0 then timers[id := at] else timers
  }

  /** The rows after `_load_all_schedules`: each enabled row has a due instant. */
  function LoadedStore(rows: map<string, Schedule>, now: int): (r: map<string, Schedule>)
    requires StoreInvariant(rows)
    ensures StoreInvariant(r) && r.Keys == rows.Keys
    ensures forall id :: id in r ==> r[id].enabled ==> r[id].nextExecution.Some?
    ensures forall id :: id in rows && (!rows[id].enabled || rows[id].nextExecution.Some?) ==> r[id] == rows[id]
  {
    map id | id in rows :: LoadedRow(rows[id], now)
  }

  /** The loaded row `id` is armed: enabled and due after `now`. */
  predicate ArmedOnLoad(rows: map<string, Schedule>, id: string, now: int) {
    id in rows && rows[id].enabled && rows[id].nextExecution.Some? && rows[id].nextExecution.value > now
  }

  /**
   * The registry after `_load_all_schedules` over the `loaded` rows: every
   * enabled row due after `now` is armed at its due instant; other entries stay.
   */
  function LoadedTimers(timers: map<string, int>, loaded: map<string, Schedule>, now: int): (r: map<string, int>)
    ensures forall id :: id in r <==> id in timers || ArmedOnLoad(loaded, id, now)
    ensures forall id :: ArmedOnLoad(loaded, id, now) ==> r[id] == loaded[id].nextExecution.value
    ensures forall id :: id in timers && !ArmedOnLoad(loaded, id, now) ==> r[id] == timers[id]
  {
    map id | id in timers.Keys + (set k | k in loaded && ArmedOnLoad(loaded, k, now)) ::
      if ArmedOnLoad(loaded, id, now) then Due(loaded[id]) else timers[id]
  }

  lemma StorePut(rows: map<string, Schedule>, row: Schedule)
    requires StoreInvariant(rows) && WellFormed(row)
    ensures StoreInvariant(rows[row.id := row])
  {
  }

  /** Arming the timer of an enabled row keeps every timer on an enabled row. */
  lemma TimersInvariantArm(timers: map<string, int>, rows: map<string, Schedule>, id: string, at: int, now: int)
    requires TimersInvariant(timers, rows) && id in rows && rows[id].enabled
    ensures TimersInvariant(Arm(timers, id, at, now), rows)
  {
  }

  /** Re-writing a row keeps every timer but its own on an enabled row. */
  lemma TimersInvariantPut(timers: map<string, int>, rows: map<string, Schedule>, row: Schedule)
    requires TimersInvariant(timers, rows)
    ensures TimersInvariant(timers - {row.id}, rows[row.id := row])
  {
  }

  /** Re-arming or re-writing an enabled row keeps every timer on an enabled row. */
  lemma TimersInvariantKept(timers: map<string, int>, timers': map<string, int>,
                            rows: map<string, Schedule>, rows': map<string, Schedule>, id: string)
    requires TimersInvariant(timers, rows)
    requires id in rows && rows[id].enabled && id in rows' && rows'[id].enabled
    requires forall k :: k in rows && k != id ==> k in rows' && rows'[k].enabled == rows[k].enabled
    requires forall k :: k in timers' ==> k in timers || k == id
    ensures TimersInvariant(timers', rows')
  {
  }

  lemma HistoryAppend(history: seq<HistoryEntry>, nextId: nat, e: HistoryEntry)
    requires HistoryInvariant(history, nextId) && e.entryId == nextId
    ensures HistoryInvariant(history + [e], nextId + 1)
  {
    var h := history + [e];
    forall i, j | 0 <= i < j < |h| ensures EntryId(h[i]) < EntryId(h[j]) {
      if j == |history| {
        assert h[i] == history[i];
      } else {
        assert h[i] == history[i] && h[j] == history[j];
      }
    }
  }

  /**
   * `rows` is `rows0` after the ids in `executed` were each run once, with the
   * thermostat answering `outcome(id)`; every other row is unchanged.
   */
  ghost predicate RanMissed(rows0: map<string, Schedule>, rows: map<string, Schedule>, executed: seq<string>,
                            now: int, outcome: string -> (bool, bool)) {
    && rows.Keys == rows0.Keys
    && forall id :: id in rows0 ==>
         if id in executed then
           WellFormed(rows0[id]) && rows[id] == RecordAttempt(rows0[id], Attempt(rows0[id], outcome(id).0, outcome(id).1).error, now)
         else rows[id] == rows0[id]
  }

  /** Recording one more attempt, on a row not run yet, extends `RanMissed` by its id. */
  lemma RanMissedStep(rows0: map<string, Schedule>, rows: map<string, Schedule>, rows': map<string, Schedule>,
                      executed: seq<string>, id: string, now: int, outcome: string -> (bool, bool))
    requires RanMissed(rows0, rows, executed, now, outcome)
    requires id in rows0 && id !in executed && WellFormed(rows0[id]) && id in rows && rows[id] == rows0[id]
    requires rows' == rows[id := RecordAttempt(rows[id], Attempt(rows[id], outcome(id).0, outcome(id).1).error, now)]
    ensures RanMissed(rows0, rows', executed + [id], now, outcome)
  {
  }

  /** The store after `_execute_schedule(id)`, the thermostat answering `outcome(id)`. */
  function ExecutedStore(rows: map<string, Schedule>, id: string, now: int, outcome: string -> (bool, bool)): (r: map<string, Schedule>)
    requires StoreInvariant(rows)
    ensures StoreInvariant(r) && r.Keys == rows.Keys
    ensures forall k :: k in rows && k != id ==> r[k] == rows[k]
  {
    if id in rows && rows[id].enabled then
      rows[id := RecordAttempt(rows[id], Attempt(rows[id], outcome(id).0, outcome(id).1).error, now)]
    else rows
  }

  /** The store after `_execute_schedule` on each of `ids` in turn. */
  function ExecutedAll(rows: map<string, Schedule>, ids: seq<string>, now: int, outcome: string -> (bool, bool)): (r: map<string, Schedule>)
    requires StoreInvariant(rows)
    ensures StoreInvariant(r) && r.Keys == rows.Keys
  {
    if ids == [] then rows
    else ExecutedStore(ExecutedAll(rows, ids[..|ids| - 1], now, outcome), ids[|ids| - 1], now, outcome)
  }

  /** A row whose id is not among `ids` is left as it was. */
  lemma {:induction false} ExecutedAllUntouched(rows: map<string, Schedule>, ids: seq<string>, id: string,
                                                now: int, outcome: string -> (bool, bool))
    requires StoreInvariant(rows) && id in rows && id !in ids
    ensures ExecutedAll(rows, ids, now, outcome)[id] == rows[id]
    decreases |ids|
  {
    if ids != [] {
      ExecutedAllUntouched(rows, ids[..|ids| - 1], id, now, outcome);
    }
  }

  /**
   * Along distinct enabled ids, the next one is still enabled and executing
   * it extends the run by one id.
   */
  lemma ExecutedAllNext(rows: map<string, Schedule>, ids: seq<string>, k: nat, now: int, outcome: string -> (bool, bool))
    requires StoreInvariant(rows) && Distinct(ids) && k < |ids|
    requires forall id :: id in ids ==> id in rows && rows[id].enabled
    ensures var before := ExecutedAll(rows, ids[..k], now, outcome);
      ids[k] in before && before[ids[k]] == rows[ids[k]] && before[ids[k]].enabled
  {
    assert ids[k] !in ids[..k] by {
      forall i | 0 <= i < k ensures ids[..k][i] != ids[k] {
        assert ids[..k][i] == ids[i];
      }
    }
    assert ids[k] in ids;
    ExecutedAllUntouched(rows, ids[..k], ids[k], now, outcome);
  }

  /** Running one more id executes it on the store left by the ones before. */
  lemma ExecutedAllSnoc(rows: map<string, Schedule>, ids: seq<string>, k: nat, now: int, outcome: string -> (bool, bool))
    requires StoreInvariant(rows) && k < |ids|
    ensures ExecutedAll(rows, ids[..k + 1], now, outcome) == ExecutedStore(ExecutedAll(rows, ids[..k], now, outcome), ids[k], now, outcome)
  {
    var p := ids[..k + 1];
    assert p[..|p| - 1] == ids[..k];
  }

  /**
   * Executing distinct enabled rows records exactly one attempt in each of
   * them and leaves every other row as it was.
   */
  lemma {:induction false} ExecutedAllDistinct(rows: map<string, Schedule>, ids: seq<string>,
                                               now: int, outcome: string -> (bool, bool))
    requires StoreInvariant(rows) && Distinct(ids)
    requires forall id :: id in ids ==> id in rows && rows[id].enabled
    ensures RanMissed(rows, ExecutedAll(rows, ids, now, outcome), ids, now, outcome)
    decreases |ids|
  {
    if ids != [] {
      var init := ids[..|ids| - 1];
      var last := ids[|ids| - 1];
      assert ids == init + [last];
      assert Distinct(init) by {
        forall i, j | 0 <= i < j < |init| ensures init[i] != init[j] {
          assert init[i] == ids[i] && init[j] == ids[j];
        }
      }
      ExecutedAllDistinct(rows, init, now, outcome);
      assert last !in init by {
        forall i | 0 <= i < |init| ensures init[i] != last {
          assert init[i] == ids[i];
        }
      }
      ExecutedAllUntouched(rows, init, last, now, outcome);
      var before := ExecutedAll(rows, init, now, outcome);
      RanMissedStep(rows, before, ExecutedStore(before, last, now, outcome), init, last, now, outcome);
    }
  }

  /**
   * The entry `_execute_schedule(id)` logs as `entryId`, on the stored row
   * `id`, the thermostat answering `outcome(id)`.
   */
  function EntryFor(rows: map<string, Schedule>, id: string, entryId: nat, now: int,
                    outcome: string -> (bool, bool)): (e: HistoryEntry)
    requires id in rows
    ensures e.entryId == entryId && e.scheduleId == id && e.executedAt == now
    ensures e.success <==> outcome(id).0 && outcome(id).1
    ensures e.success <==> e.errorMessage.None?
    ensures !outcome(id).0 ==> e.errorMessage == Some("Failed to set mode to " + rows[id].mode)
    ensures e.temperature == rows[id].temperature && e.mode == rows[id].mode
  {
    var row := rows[id];
    var error := Attempt(row, outcome(id).0, outcome(id).1).error;
    HistoryEntry(entryId, id, now, error.None?, error, row.temperature, row.mode)
  }

  /** The entries logged by `_execute_schedule` on each of `ids` in turn, numbered from `nextId`. */
  function EntriesFor(rows: map<string, Schedule>, ids: seq<string>, nextId: nat, now: int,
                      outcome: string -> (bool, bool)): (r: seq<HistoryEntry>)
    requires forall id :: id in ids ==> id in rows
    ensures |r| == |ids|
    ensures forall i :: 0 <= i < |ids| ==> r[i] == EntryFor(rows, ids[i], nextId + i, now, outcome)
  {
    seq(|ids|, i requires 0 <= i < |ids| => EntryFor(rows, ids[i], nextId + i, now, outcome))
  }

  /** The entry logged on a row equal to the stored one is the one `EntryFor` names. */
  lemma EntryForRow(rows0: map<string, Schedule>, rows: map<string, Schedule>, id: string, entryId: nat,
                    now: int, outcome: string -> (bool, bool))
    requires id in rows0 && id in rows && rows[id] == rows0[id]
    ensures var row := rows[id];
            var error := Attempt(row, outcome(id).0, outcome(id).1).error;
            EntryFor(rows0, id, entryId, now, outcome) == HistoryEntry(entryId, id, now, error.None?, error, row.temperature, row.mode)
  {
  }

  /** Logging the entry of `ids[k]` extends the entries of `ids[..k]` to those of `ids[..k + 1]`. */
  lemma EntriesForStep(rows: map<string, Schedule>, ids: seq<string>, k: nat, nextId: nat, now: int,
                       outcome: string -> (bool, bool), history0: seq<HistoryEntry>, history1: seq<HistoryEntry>)
    requires k < |ids| && forall id :: id in ids ==> id in rows
    requires history1 == history0 + EntriesFor(rows, ids[..k], nextId, now, outcome)
    ensures history0 + EntriesFor(rows, ids[..k + 1], nextId, now, outcome)
              == history1 + [EntryFor(rows, ids[k], nextId + k, now, outcome)]
  {
    EntriesForSnoc(rows, ids, k, nextId, now, outcome);
  }

  lemma EntriesForSnoc(rows: map<string, Schedule>, ids: seq<string>, k: nat, nextId: nat, now: int,
                       outcome: string -> (bool, bool))
    requires k < |ids| && forall id :: id in ids ==> id in rows
    ensures EntriesFor(rows, ids[..k + 1], nextId, now, outcome)
              == EntriesFor(rows, ids[..k], nextId, now, outcome) + [EntryFor(rows, ids[k], nextId + k, now, outcome)]
  {
    var p := ids[..k + 1];
    assert forall id :: id in ids[..k] ==> id in ids;
    assert forall i :: 0 <= i < k ==> p[i] == ids[..k][i];
  }

  /**
   * The instant `_execute_schedule(id)` would re-arm the timer at on the
   * stored row `id`, the thermostat answering `outcome(id)`: none when the
   * row is absent or disabled.
   */
  function RearmFor(rows: map<string, Schedule>, id: string, now: int, outcome: string -> (bool, bool)): (r: Option<int>)
    requires StoreInvariant(rows)
    ensures r.Some? ==> id in rows && rows[id].enabled && r.value > now
    ensures id in rows && rows[id].enabled && outcome(id).0 && outcome(id).1 ==>
              r == Some(NextExecution(rows[id].time, rows[id].daysOfWeek, now))
  {
    if id in rows && rows[id].enabled then
      var row := rows[id];
      var error := Attempt(row, outcome(id).0, outcome(id).1).error;
      RearmAt(row, error, now)
    else None
  }

  /**
   * `timers` is `timers0` after `_execute_schedule` ran once on each id of
   * `executed`, on the rows of `rows0`: those re-armed have their new instant,
   * every other entry is as it was.
   */
  ghost predicate RearmedFor(timers0: map<string, int>, timers: map<string, int>, rows0: map<string, Schedule>,
                             executed: seq<string>, now: int, outcome: string -> (bool, bool))
    requires StoreInvariant(rows0)
  {
    forall id ::
      && (id in timers <==> id in timers0 || (id in executed && RearmFor(rows0, id, now, outcome).Some?))
      && (id in timers ==>
            timers[id] == if id in executed && RearmFor(rows0, id, now, outcome).Some?
                          then RearmFor(rows0, id, now, outcome).value else timers0[id])
  }

  /** Executing one more id, not run yet, extends `RearmedFor` by that id. */
  lemma RearmedStep(timers0: map<string, int>, timers: map<string, int>, rows0: map<string, Schedule>,
                    ids: seq<string>, k: nat, now: int, outcome: string -> (bool, bool))
    requires StoreInvariant(rows0) && k < |ids| && Distinct(ids)
    requires RearmedFor(timers0, timers, rows0, ids[..k], now, outcome)
    ensures var rearm := RearmFor(rows0, ids[k], now, outcome);
      RearmedFor(timers0, if rearm.Some? then timers[ids[k] := rearm.value] else timers, rows0, ids[..k + 1], now, outcome)
  {
    var id := ids[k];
    assert ids[..k + 1] == ids[..k] + [id];
    assert id !in ids[..k] by {
      forall i | 0 <= i < k ensures ids[..k][i] != id {
        assert ids[..k][i] == ids[i];
      }
    }
  }

  /**
   * `rows` is `rows0` once every enabled row not in `pending` has been
   * loaded; the rows in `pending` are enabled and still as stored.
   */
  ghost predicate LoadedSoFar(rows0: map<string, Schedule>, rows: map<string, Schedule>, pending: set<string>, now: int) {
    && StoreInvariant(rows0)
    && rows.Keys == rows0.Keys
    && forall id :: id in rows0 ==>
         if id in pending then rows[id] == rows0[id] && rows0[id].enabled
         else rows[id] == LoadedRow(rows0[id], now)
  }

  /** `timers` is `timers0` with the timers of the loaded rows outside `pending` armed. */
  ghost predicate ArmedSoFar(timers0: map<string, int>, timers: map<string, int>, rows: map<string, Schedule>,
                             pending: set<string>, now: int) {
    forall id ::
      && (id in timers <==> id in timers0 || (ArmedOnLoad(rows, id, now) && id !in pending))
      && (id in timers ==> timers[id] == if id !in pending && ArmedOnLoad(rows, id, now) then Due(rows[id]) else timers0[id])
  }

  lemma LoadedStep(rows0: map<string, Schedule>, rows: map<string, Schedule>, pending: set<string>, id: string, now: int)
    requires LoadedSoFar(rows0, rows, pending, now) && id in pending && id in rows0
    ensures rows[id] == rows0[id] && WellFormed(rows[id])
    ensures LoadedSoFar(rows0, rows[id := LoadedRow(rows[id], now)], pending - {id}, now)
  {
  }

  lemma ArmedStep(timers0: map<string, int>, timers: map<string, int>, rows: map<string, Schedule>,
                  pending: set<string>, id: string, row: Schedule, now: int)
    requires ArmedSoFar(timers0, timers, rows, pending, now) && id in pending
    requires row.enabled && row.nextExecution.Some?
    ensures ArmedSoFar(timers0, Arm(timers, id, Due(row), now), rows[id := row], pending - {id}, now)
  {
    var rows' := rows[id := row];
    var timers' := Arm(timers, id, Due(row), now);
    forall k
      ensures && (k in timers' <==> k in timers0 || (ArmedOnLoad(rows', k, now) && k !in pending - {id}))
              && (k in timers' ==> timers'[k] == if k !in pending - {id} && ArmedOnLoad(rows', k, now) then Due(rows'[k]) else timers0[k])
    {
      if k != id {
        assert ArmedOnLoad(rows', k, now) == ArmedOnLoad(rows, k, now);
      }
    }
  }

  lemma LoadedDone(rows0: map<string, Schedule>, rows: map<string, Schedule>,
                   timers0: map<string, int>, timers: map<string, int>, now: int)
    requires LoadedSoFar(rows0, rows, {}, now) && ArmedSoFar(timers0, timers, rows, {}, now)
    ensures rows == LoadedStore(rows0, now)
    ensures timers == LoadedTimers(timers0, rows, now)
  {
  }

  /** The rows of `execution_history` whose `schedule_id` is `id`, oldest first. */
  function ScheduleEntries(history: seq<HistoryEntry>, id: string): (r: seq<HistoryEntry>)
    ensures |r| <= |history|
    ensures forall e :: e in r <==> e in history && e.scheduleId == id
  {
    Filter(history, (e: HistoryEntry) => e.scheduleId == id)
  }

  lemma SortedMembers(s: seq<HistoryEntry>, t: seq<HistoryEntry>)
    requires multiset(t) == multiset(s)
    ensures forall e :: e in t ==> e in s
  {
    forall e | e in t ensures e in s {
      assert e in multiset(t);
    }
  }

  class ThermostatScheduler {
    var schedules: map<string, Schedule>
    var history: seq<HistoryEntry>
    var nextHistoryId: nat
    var activeTimers: map<string, int>
    var running: bool

    ghost predicate Valid()
      reads this
    {
      && StoreInvariant(schedules)
      && TimersInvariant(activeTimers, schedules)
      && HistoryInvariant(history, nextHistoryId)
    }

    /** A scheduler over the persisted tables, with no timer armed. */
    constructor (rows: map<string, Schedule>, past: seq<HistoryEntry>, nextId: nat)
      requires StoreInvariant(rows) && HistoryInvariant(past, nextId)
      ensures Valid()
      ensures schedules == rows && history == past && nextHistoryId == nextId
      ensures activeTimers == map[] && running
    {
      schedules := rows;
      history := past;
      nextHistoryId := nextId;
      activeTimers := map[];
      running := true;
    }

    // -------------------------------------------------------------------------
    // Timer registry
    // -------------------------------------------------------------------------

    /** `_schedule_timer`: registers the timer only when its delay is positive. */
    method ScheduleTimer(id: string, at: int, now: int)
      modifies this`activeTimers
      ensures activeTimers == Arm(old(activeTimers), id, at, now)
    {
      var delay := at - now;
      if delay > 0 {
        activeTimers := activeTimers[id := at];
      }
    }

    /** `_cancel_timer`: removes the entry, if there is one. */
    method CancelTimer(id: string)
      modifies this`activeTimers
      ensures activeTimers == old(activeTimers) - {id}
      ensures id !in old(activeTimers) ==> activeTimers == old(activeTimers)
    {
      if id in activeTimers {
        activeTimers := activeTimers - {id};
      }
    }

    /** `stop`: every timer is cancelled and the registry emptied. */
    method Stop()
      modifies this`running, this`activeTimers
      requires Valid()
      ensures Valid()
      ensures !running && activeTimers == map[]
    {
      running := false;
      activeTimers := map[];
    }

    /** `start`: the monitor thread is not modelled; the timers are loaded at `now`. */
    method Start(now: int)
      modifies this
      requires Valid()
      ensures Valid() && running
      ensures history == old(history) && nextHistoryId == old(nextHistoryId)
      ensures schedules == LoadedStore(old(schedules), now)
      ensures activeTimers == LoadedTimers(old(activeTimers), LoadedStore(old(schedules), now), now)
    {
      running := true;
      LoadAllSchedules(now);
    }

    // -------------------------------------------------------------------------
    // Create, update, delete, list
    // -------------------------------------------------------------------------

    /** `create_schedule`, with the new id supplied by the caller. */
    method CreateSchedule(freshId: string, time: string, temperature: int, mode: string,
                          daysOfWeek: string := "daily", enabled: bool := true, now: int)
      returns (r: Result<string, SchedulerError>)
      modifies this`schedules, this`activeTimers
      requires Valid()
      ensures Valid()
      ensures Validate(time, temperature, mode).Some? ==> r == Err(Validate(time, temperature, mode).value)
      ensures Validate(time, temperature, mode).None? && freshId in old(schedules) ==> r == Err(DuplicateId(freshId))
      ensures r.Err? ==> schedules == old(schedules) && activeTimers == old(activeTimers)
      ensures r.Ok? ==>
        && Validate(time, temperature, mode).None?
        && r.value == freshId && freshId !in old(schedules)
        && schedules == old(schedules)[freshId := NewRow(freshId, time, temperature, mode, daysOfWeek, enabled, now)]
        && activeTimers == (if enabled then old(activeTimers)[freshId := schedules[freshId].nextExecution.value]
                            else old(activeTimers))
    {
      var invalid := Validate(time, temperature, mode);
      if invalid.Some? {
        return Err(invalid.value);
      }
      if freshId in schedules {
        return Err(DuplicateId(freshId));
      }
      var next := CalculateNextExecution(time, daysOfWeek, now);
      NextExecutionAfterNow(time, daysOfWeek, now);
      schedules := schedules[freshId := NewRow(freshId, time, temperature, mode, daysOfWeek, enabled, now)];
      if enabled {
        ScheduleTimer(freshId, next, now);
      }
      r := Ok(freshId);
    }

    /**
     * `update_schedule(schedule_id, **kwargs)`.  A rejected field raises before
     * anything is written; an update with no field does nothing; otherwise the
     * row is rewritten, its timer cancelled, and re-armed when the row is
     * enabled.
     */
    method UpdateSchedule(id: string, u: ScheduleUpdate, now: int) returns (r: Option<SchedulerError>)
      modifies this`schedules, this`activeTimers
      requires Valid()
      ensures Valid()
      ensures id !in old(schedules) ==> r == Some(NotFound(id))
      ensures id in old(schedules) && ValidateUpdate(u).Some? ==> r == ValidateUpdate(u)
      ensures (id !in old(schedules) || ValidateUpdate(u).Some? || !HasFields(u)) ==>
        schedules == old(schedules) && activeTimers == old(activeTimers)
      ensures id in old(schedules) && !HasFields(u) ==> r.None?
      ensures id in old(schedules) && ValidateUpdate(u).None? && HasFields(u) ==>
        var row := UpdatedRow(old(schedules)[id], u, now);
        && schedules == old(schedules)[id := row]
        && (!row.enabled ==> r.None? && activeTimers == old(activeTimers) - {id})
        && (row.enabled && row.nextExecution.None? ==>
              r == Some(MissingNextExecution) && activeTimers == old(activeTimers) - {id})
        && (row.enabled && row.nextExecution.Some? ==>
              r.None? && activeTimers == Arm(old(activeTimers) - {id}, id, row.nextExecution.value, now))
    {
      if id !in schedules {
        return Some(NotFound(id));
      }
      var invalid := ValidateUpdate(u);
      if invalid.Some? {
        return invalid;
      }
      r := None;
      if HasFields(u) {
        var row := UpdatedRow(schedules[id], u, now);
        StorePut(schedules, row);
        TimersInvariantPut(activeTimers, schedules, row);
        schedules := schedules[id := row];
        CancelTimer(id);
        if row.enabled {
          if row.nextExecution.None? {
            return Some(MissingNextExecution);
          }
          ghost var timers1 := activeTimers;
          ScheduleTimer(id, row.nextExecution.value, now);
          TimersInvariantArm(timers1, schedules, id, row.nextExecution.value, now);
        }
      }
    }

    /** `delete_schedule`: cancels the timer and removes the row; an unknown id is no error. */
    method DeleteSchedule(id: string)
      modifies this`schedules, this`activeTimers
      requires Valid()
      ensures Valid()
      ensures schedules == old(schedules) - {id} && activeTimers == old(activeTimers) - {id}
    {
      CancelTimer(id);
      schedules := schedules - {id};
    }

    /** `get_schedules`: every row once, ordered by time and then days, both as text. */
    method GetSchedules() returns (rows: seq<Schedule>)
      requires Valid()
      ensures SortedBy(rows, ListingLe)
      ensures Distinct(rows)
      ensures forall row :: row in rows <==> row in schedules.Values
    {
      ListingLeTotalPreorder();
      rows := SortSet(schedules.Values, ListingLe);
    }

    /**
     * `get_schedule_history`: the newest entries of one schedule, newest
     * first, at most `limit` of them (ten by default).
     */
    function GetScheduleHistory(id: string, limit: int := 10): (r: seq<HistoryEntry>)
      reads this
      ensures forall e :: e in r ==> e in history && e.scheduleId == id
      ensures SortedBy(r, NewerFirst)
      ensures multiset(r) <= multiset(ScheduleEntries(history, id))
      ensures limit < 0 ==> multiset(r) == multiset(ScheduleEntries(history, id))
      ensures |r| == (if 0 <= limit <= |ScheduleEntries(history, id)| then limit else |ScheduleEntries(history, id)|)
      ensures forall e, f :: e in r && f in ScheduleEntries(history, id) && f !in r ==> f.executedAt <= e.executedAt
    {
      var entries := ScheduleEntries(history, id);
      var sorted := SortBy(entries, NewerFirst);
      NewerFirstTotalPreorder();
      SortBySorted(entries, NewerFirst);
      SortedMembers(entries, sorted);
      var page := Limit(sorted, limit);
      LimitSorted(sorted, limit, NewerFirst);
      LimitKeepsFirst(sorted, limit, NewerFirst);
      SortedMembers(sorted, entries);
      page
    }

    // -------------------------------------------------------------------------
    // Execution
    // -------------------------------------------------------------------------

    /** The retry branch of `_execute_schedule`: below three attempts a timer is armed after the backoff delay. */
    method ScheduleRetry(id: string, retryCount: nat, now: int)
      modifies this`activeTimers
      ensures activeTimers == if retryCount < MaxRetries then old(activeTimers)[id := now + RetryDelay(retryCount)]
                              else old(activeTimers)
    {
      if retryCount < MaxRetries {
        var retryDelay := RetryDelay(retryCount);
        ScheduleTimer(id, now + retryDelay, now);
      }
    }

    /** The `execution_history` insert: the entry gets the next AUTOINCREMENT id. */
    method LogExecution(entry: HistoryEntry)
      modifies this`history, this`nextHistoryId
      requires HistoryInvariant(history, nextHistoryId) && entry.entryId == nextHistoryId
      ensures HistoryInvariant(history, nextHistoryId)
      ensures history == old(history) + [entry] && nextHistoryId == old(nextHistoryId) + 1
    {
      HistoryAppend(history, nextHistoryId, entry);
      history := history + [entry];
      nextHistoryId := nextHistoryId + 1;
    }

    /** The success branch of `_execute_schedule`: the timer is armed at the next occurrence. */
    method ScheduleNext(id: string, time: string, daysOfWeek: string, now: int) returns (next: int)
      modifies this`activeTimers
      requires ValidTimeFormat(time)
      ensures next == NextExecution(time, daysOfWeek, now)
      ensures activeTimers == old(activeTimers)[id := next]
    {
      next := CalculateNextExecution(time, daysOfWeek, now);
      NextExecutionAfterNow(time, daysOfWeek, now);
      ScheduleTimer(id, next, now);
    }

    /**
     * `_execute_schedule(id)` fired at `now`, the thermostat answering
     * `modeOk` and `tempOk`.  Returns the calls made into the thermostat.
     */
    method ExecuteSchedule(id: string, now: int, modeOk: bool, tempOk: bool) returns (calls: seq<Call>)
      modifies this`schedules, this`history, this`nextHistoryId, this`activeTimers
      requires Valid()
      ensures Valid()
      ensures id !in old(schedules) || !old(schedules)[id].enabled ==>
        && calls == []
        && schedules == old(schedules) && history == old(history)
        && nextHistoryId == old(nextHistoryId) && activeTimers == old(activeTimers)
      ensures id in old(schedules) && old(schedules)[id].enabled ==>
        var row := old(schedules)[id];
        var outcome := Attempt(row, modeOk, tempOk);
        && calls == outcome.calls
        && schedules == old(schedules)[id := RecordAttempt(row, outcome.error, now)]
        && history == old(history) + [HistoryEntry(old(nextHistoryId), id, now, outcome.error.None?,
                                                   outcome.error, row.temperature, row.mode)]
        && nextHistoryId == old(nextHistoryId) + 1
        && var rearm := RearmAt(row, outcome.error, now);
           activeTimers == if rearm.Some? then old(activeTimers)[id := rearm.value] else old(activeTimers)
    {
      if id !in schedules || !schedules[id].enabled {
        return [];
      }
      var row := schedules[id];
      var outcome := Attempt(row, modeOk, tempOk);
      calls := outcome.calls;
      ghost var timers0 := activeTimers;
      ghost var rearm := RearmAt(row, outcome.error, now);
      var retryCount := row.retryCount;
      if outcome.error.Some? {
        retryCount := retryCount + 1;
        ScheduleRetry(id, retryCount, now);
        assert activeTimers == if rearm.Some? then timers0[id := rearm.value] else timers0;
      } else {
        retryCount := 0;
      }
      var updated := row.(lastExecuted := Some(now), retryCount := retryCount, lastError := outcome.error);
      LogExecution(HistoryEntry(nextHistoryId, id, now, outcome.error.None?, outcome.error, row.temperature, row.mode));
      if outcome.error.None? {
        var next := ScheduleNext(id, row.time, row.daysOfWeek, now);
        updated := updated.(nextExecution := Some(next));
        assert activeTimers == timers0[id := rearm.value];
      }
      assert updated == RecordAttempt(row, outcome.error, now);
      StorePut(schedules, updated);
      schedules := schedules[id := updated];
      TimersInvariantKept(old(activeTimers), activeTimers, old(schedules), schedules, id);
    }

    /** The rows the missed-schedule query selects, ordered by due instant. */
    method SelectMissed(now: int) returns (missed: seq<Schedule>)
      requires Valid()
      ensures SortedBy(missed, DueLe)
      ensures Distinct(missed)
      ensures forall row :: row in missed <==> row in schedules.Values && IsMissed(row, now)
    {
      DueLeTotalPreorder();
      missed := SortSet((set row | row in schedules.Values && IsMissed(row, now)), DueLe);
    }

    /**
     * `_check_missed_schedules` at `now`: each selected schedule is executed
     * once, in due order; `outcome` gives the thermostat's answers for it.
     * Returns the ids executed.
     */
    method CheckMissedSchedules(now: int, outcome: string -> (bool, bool)) returns (executed: seq<string>)
      modifies this`schedules, this`history, this`nextHistoryId, this`activeTimers
      requires Valid()
      ensures Valid()
      ensures Distinct(executed)
      ensures forall id :: id in executed <==> id in old(schedules) && IsMissed(old(schedules)[id], now)
      ensures forall i, j :: 0 <= i < j < |executed| ==> Due(old(schedules)[executed[i]]) <= Due(old(schedules)[executed[j]])
      ensures RanMissed(old(schedules), schedules, executed, now, outcome)
      ensures history == old(history) + EntriesFor(old(schedules), executed, old(nextHistoryId), now, outcome)
      ensures nextHistoryId == old(nextHistoryId) + |executed|
      ensures RearmedFor(old(activeTimers), activeTimers, old(schedules), executed, now, outcome)
    {
      var missed := SelectMissed(now);
      executed := seq(|missed|, i requires 0 <= i < |missed| => missed[i].id);
      MissedIds(schedules, missed, executed, now);
      ExecutedAllDistinct(schedules, executed, now, outcome);
      ExecuteEach(executed, now, outcome);
    }

    /**
     * The loop of `_check_missed_schedules`: `_execute_schedule` on each of
     * `ids` in turn, the thermostat answering `outcome(id)`.
     */
    method ExecuteEach(ids: seq<string>, now: int, outcome: string -> (bool, bool))
      modifies this`schedules, this`history, this`nextHistoryId, this`activeTimers
      requires Valid() && Distinct(ids)
      requires forall id :: id in ids ==> id in schedules && schedules[id].enabled
      ensures Valid()
      ensures schedules == ExecutedAll(old(schedules), ids, now, outcome)
      ensures history == old(history) + EntriesFor(old(schedules), ids, old(nextHistoryId), now, outcome)
      ensures nextHistoryId == old(nextHistoryId) + |ids|
      ensures RearmedFor(old(activeTimers), activeTimers, old(schedules), ids, now, outcome)
    {
      ghost var rows0 := schedules;
      ghost var history0 := history;
      ghost var nextId0 := nextHistoryId;
      ghost var timers0 := activeTimers;
      for k := 0 to |ids|
        invariant Valid()
        invariant schedules == ExecutedAll(rows0, ids[..k], now, outcome)
        invariant history == history0 + EntriesFor(rows0, ids[..k], nextId0, now, outcome)
        invariant nextHistoryId == nextId0 + k
        invariant RearmedFor(timers0, activeTimers, rows0, ids[..k], now, outcome)
      {
        ExecuteNext(ids, k, now, outcome, rows0, history0, nextId0, timers0);
      }
      assert ids[..|ids|] == ids;
    }

    /** One pass of the loop of `_check_missed_schedules`: `_execute_schedule(ids[k])`. */
    method ExecuteNext(ids: seq<string>, k: nat, now: int, outcome: string -> (bool, bool),
                       ghost rows0: map<string, Schedule>, ghost history0: seq<HistoryEntry>,
                       ghost nextId0: nat, ghost timers0: map<string, int>)
      modifies this`schedules, this`history, this`nextHistoryId, this`activeTimers
      requires Valid() && StoreInvariant(rows0) && Distinct(ids) && k < |ids|
      requires forall id :: id in ids ==> id in rows0 && rows0[id].enabled
      requires schedules == ExecutedAll(rows0, ids[..k], now, outcome)
      requires history == history0 + EntriesFor(rows0, ids[..k], nextId0, now, outcome)
      requires nextHistoryId == nextId0 + k
      requires RearmedFor(timers0, activeTimers, rows0, ids[..k], now, outcome)
      ensures Valid()
      ensures schedules == ExecutedAll(rows0, ids[..k + 1], now, outcome)
      ensures history == history0 + EntriesFor(rows0, ids[..k + 1], nextId0, now, outcome)
      ensures nextHistoryId == nextId0 + k + 1
      ensures RearmedFor(timers0, activeTimers, rows0, ids[..k + 1], now, outcome)
    {
      var id := ids[k];
      ghost var rows1 := schedules;
      ghost var timers1 := activeTimers;
      ghost var history1 := history;
      ExecutedAllNext(rows0, ids, k, now, outcome);
      ExecutedAllSnoc(rows0, ids, k, now, outcome);
      RearmedStep(timers0, timers1, rows0, ids, k, now, outcome);
      ghost var rearm := RearmFor(rows0, id, now, outcome);
      assert rows1[id] == rows0[id];
      var answers := outcome(id);
      var _ := ExecuteSchedule(id, now, answers.0, answers.1);
      assert schedules == ExecutedStore(rows1, id, now, outcome);
      EntryForRow(rows0, rows1, id, nextId0 + k, now, outcome);
      ghost var e := EntryFor(rows0, id, nextId0 + k, now, outcome);
      assert history[|history1|] == e;
      assert history == history1 + [e];
      EntriesForStep(rows0, ids, k, nextId0, now, outcome, history0, history1);
      assert activeTimers == if rearm.Some? then timers1[id := rearm.value] else timers1;
    }

    lemma MissedIds(rows: map<string, Schedule>, missed: seq<Schedule>, ids: seq<string>, now: int)
      requires StoreInvariant(rows)
      requires SortedBy(missed, DueLe) && Distinct(missed)
      requires forall row :: row in missed <==> row in rows.Values && IsMissed(row, now)
      requires |ids| == |missed| && forall i :: 0 <= i < |missed| ==> ids[i] == missed[i].id
      ensures Distinct(ids)
      ensures forall id :: id in ids <==> id in rows && IsMissed(rows[id], now)
      ensures forall i, j :: 0 <= i < j < |ids| ==> Due(rows[ids[i]]) <= Due(rows[ids[j]])
    {
      forall i | 0 <= i < |missed| ensures missed[i].id in rows && rows[missed[i].id] == missed[i] {
        assert missed[i] in rows.Values;
        var key :| key in rows && rows[key] == missed[i];
      }
      forall id | id in rows && IsMissed(rows[id], now) ensures id in ids {
        assert rows[id] in rows.Values;
        var i :| 0 <= i < |missed| && missed[i] == rows[id];
        assert ids[i] == id;
      }
    }

    /** `_cleanup_old_history` at `now`: entries older than thirty days are deleted. */
    method CleanupOldHistory(now: int)
      modifies this`history
      requires Valid()
      ensures Valid()
      ensures history == Filter(old(history), (e: HistoryEntry) => e.executedAt >= RetentionCutoff(now))
      ensures forall e :: e in history <==> e in old(history) && e.executedAt >= now - HistoryRetention
    {
      CleanupKeepsHistoryInvariant(history, nextHistoryId, RetentionCutoff(now));
      history := Filter(history, (e: HistoryEntry) => e.executedAt >= RetentionCutoff(now));
    }

    /**
     * One pass of the loop of `_load_all_schedules`: the enabled row `id`
     * gets a due instant when it has none, and its timer is armed at it.
     */
    method LoadSchedule(id: string, now: int)
      modifies this`schedules, this`activeTimers
      requires Valid() && id in schedules && schedules[id].enabled
      ensures Valid()
      ensures schedules == old(schedules)[id := LoadedRow(old(schedules)[id], now)]
      ensures activeTimers == Arm(old(activeTimers), id, Due(LoadedRow(old(schedules)[id], now)), now)
    {
      var row := schedules[id];
      var next: int;
      if row.nextExecution.Some? {
        next := row.nextExecution.value;
      } else {
        next := CalculateNextExecution(row.time, row.daysOfWeek, now);
        StorePut(schedules, row.(nextExecution := Some(next)));
        schedules := schedules[id := row.(nextExecution := Some(next))];
      }
      ScheduleTimer(id, next, now);
      TimersInvariantKept(old(activeTimers), activeTimers, old(schedules), schedules, id);
    }

    /**
     * `_load_all_schedules` at `now`: every enabled row without a due instant
     * gets one, and every enabled row's timer is armed at its due instant.
     */
    method LoadAllSchedules(now: int)
      modifies this`schedules, this`activeTimers
      requires Valid()
      ensures Valid()
      ensures schedules == LoadedStore(old(schedules), now)
      ensures activeTimers == LoadedTimers(old(activeTimers), schedules, now)
    {
      ghost var rows0 := schedules;
      ghost var timers0 := activeTimers;
      var pending := set id | id in schedules && schedules[id].enabled;
      while pending != {}
        invariant Valid()
        invariant pending <= schedules.Keys
        invariant LoadedSoFar(rows0, schedules, pending, now)
        invariant ArmedSoFar(timers0, activeTimers, schedules, pending, now)
        decreases |pending|
      {
        var id :| id in pending;
        ghost var rows1 := schedules;
        ghost var timers1 := activeTimers;
        LoadedStep(rows0, rows1, pending, id, now);
        LoadSchedule(id, now);
        ArmedStep(timers0, timers1, rows1, pending, id, LoadedRow(rows1[id], now), now);
        pending := pending - {id};
      }
      LoadedDone(rows0, schedules, timers0, activeTimers, now);
    }
  }
}
