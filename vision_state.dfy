/**
 * The shared vision state file (vision_state.py): the latest reading, its
 * timestamp and a confidence that readers recompute from the timestamp's age.
 * File access is modelled by the file's contents, `now` is the local clock.
 */
module VisionState {
  import opened Wrappers
  import opened VisionRecords

  /** The JSON object kept in the vision state file. */
  datatype StateRecord = StateRecord(temperature: Option<int>, timestamp: Option<Stamp>, confidence: Level)

  /** What opening and decoding the state file gives. */
  datatype StateFile =
    | Missing                      // the file does not exist
    | Unreadable                   // opening or JSON decoding raised
    | Stored(record: StateRecord)

  /** The record `get_current_vision_data` returns when there is no state. */
  const NoState := StateRecord(None, None, NoData)

  /**
   * `calculate_confidence` for an absent (falsy) timestamp or one already read
   * as an instant: the age bands are < 30 s, < 60 s and < 300 s.
   */
  function CalculateConfidence(timestamp: Option<int>, now: int): (r: Level)
    ensures r == NoData <==> timestamp.None?
    ensures r in {High, Medium, Low, Stale, NoData}
  {
    if timestamp.None? then NoData
    else
      var age := now - timestamp.value;
      if age < 30 then High
      else if age < 60 then Medium
      else if age < 300 then Low
      else Stale
  }

  /** An older reading never has a fresher confidence. */
  lemma ConfidenceMonotone(older: int, newer: int, now: int)
    requires older <= newer
    ensures Rank(CalculateConfidence(Some(older), now)) <= Rank(CalculateConfidence(Some(newer), now))
  {}

  /** The record `save_state` writes and returns for a timestamp given as a datetime or None. */
  function SaveState(temperature: Option<int>, timestamp: Option<int>, now: int): (r: StateRecord)
    ensures r.temperature == temperature
    ensures timestamp.Some? <==> Present(r.timestamp)
    ensures r.confidence == CalculateConfidence(timestamp, now)
  {
    StateRecord(temperature, if timestamp.Some? then Some(At(timestamp.value)) else None,
                CalculateConfidence(timestamp, now))
  }

  /**
   * `load_state`: None when the file is missing or unreadable; otherwise the
   * stored record, with its confidence recomputed when it has a timestamp,
   * and None when that timestamp does not parse.
   */
  function LoadState(file: StateFile, now: int): (r: Option<StateRecord>)
    ensures file.Missing? || file.Unreadable? ==> r.None?
    ensures file.Stored? && !Present(file.record.timestamp) ==> r == Some(file.record)
    ensures file.Stored? && Present(file.record.timestamp) && file.record.timestamp.value.At? ==>
              r == Some(file.record.(confidence := CalculateConfidence(Some(file.record.timestamp.value.instant), now)))
  {
    match file
    case Missing => None
    case Unreadable => None
    case Stored(state) =>
      if Present(state.timestamp) then
        match state.timestamp.value
        case At(t) => Some(state.(confidence := CalculateConfidence(Some(t), now)))
        case Garbled(_) => None
      else Some(state)
  }

  /** `get_current_vision_data`: the loaded state, or NO_DATA defaults when there is none. */
  function GetCurrentVisionData(file: StateFile, now: int): (r: StateRecord)
    ensures LoadState(file, now).None? ==> r == NoState
    ensures LoadState(file, now).Some? ==> r == LoadState(file, now).value
  {
    var state := LoadState(file, now);
    if state.None? then NoState else state.value
  }

  /** Loading ignores whatever confidence was stored next to a timestamp. */
  lemma LoadIgnoresStoredConfidence(state: StateRecord, stored: Level, now: int)
    requires state.timestamp.Some? && state.timestamp.value.At?
    ensures LoadState(Stored(state.(confidence := stored)), now) == LoadState(Stored(state), now)
  {}

  /** Reading back a saved state later is the same as saving it at the later time. */
  lemma LoadAfterSave(temperature: Option<int>, timestamp: int, savedAt: int, now: int)
    ensures LoadState(Stored(SaveState(temperature, Some(timestamp), savedAt)), now)
            == Some(SaveState(temperature, Some(timestamp), now))
  {}

  /** An unparsable stored timestamp makes the state unavailable, so the defaults are returned. */
  lemma GarbledTimestampGivesDefaults(state: StateRecord, now: int)
    requires state.timestamp.Some? && state.timestamp.value.Garbled? && state.timestamp.value.text != ""
    ensures GetCurrentVisionData(Stored(state), now) == NoState
  {}

  /** The confidence transitions checked for readings 0, 25, 45, 90 and 400 seconds old. */
  lemma ConfidenceTransitions(now: int)
    ensures GetCurrentVisionData(Stored(SaveState(Some(76), Some(now), now)), now).confidence == High
    ensures GetCurrentVisionData(Stored(SaveState(Some(76), Some(now - 25), now)), now).confidence == High
    ensures GetCurrentVisionData(Stored(SaveState(Some(76), Some(now - 45), now)), now).confidence == Medium
    ensures GetCurrentVisionData(Stored(SaveState(Some(76), Some(now - 90), now)), now).confidence == Low
    ensures GetCurrentVisionData(Stored(SaveState(Some(76), Some(now - 400), now)), now).confidence == Stale
  {}
}
