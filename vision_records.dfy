/**
 * The values the vision code passes around in its JSON files: the confidence
 * labels, the ISO timestamps as they are stored, and the record the vision
 * services write to the shared temperature file.
 */
module VisionRecords {
  import opened Wrappers

  /**
   * The confidence labels written and read by the vision code: "HIGH",
   * "MEDIUM", "LOW", "STALE", "NO_DATA", "ERROR" and "SERVICE_STOPPED".
   */
  datatype Level = High | Medium | Low | Stale | NoData | Error | ServiceStopped

  /** How fresh an age-based level is: HIGH above MEDIUM above LOW above the rest. */
  function Rank(l: Level): nat {
    match l
    case High => 3
    case Medium => 2
    case Low => 1
    case _ => 0
  }

  /**
   * A timestamp as stored in a JSON file: one `datetime.fromisoformat` reads
   * (an instant in whole seconds on the local clock) or a text it rejects.
   */
  datatype Stamp = At(instant: int) | Garbled(text: string)

  /**
   * Python truthiness of a stored timestamp: null and the empty string are
   * false, every other value is true.
   */
  predicate Present(timestamp: Option<Stamp>) {
    timestamp.Some? && timestamp.value != Garbled("")
  }

  /** The message `datetime.fromisoformat` raises for a text it rejects. */
  function IsoFormatError(text: string): string {
    "Invalid isoformat string: '" + text + "'"
  }

  /**
   * The JSON object in the shared temperature file: the keys `temperature`,
   * `timestamp`, `confidence`, `age_seconds` and, on the reader's error
   * records, `error`.
   */
  datatype TemperatureData = TemperatureData(
    temperature: Option<int>,
    timestamp: Option<Stamp>,
    confidence: Level,
    ageSeconds: Option<int>,
    error: Option<string>)

  /** The three fields a vision service's update cycle changes. */
  datatype ServiceState = ServiceState(lastTemperature: Option<int>, lastUpdate: Option<int>, confidence: Level)

  /** The state of a freshly constructed service. */
  const Initial := ServiceState(None, None, Low)

  /**
   * The record both vision services write to the shared temperature file:
   * the last reading, its confidence, and, once there has been a reading, its
   * timestamp and its age at `now`.
   */
  function OutputData(s: ServiceState, now: int): (r: TemperatureData)
    ensures r.temperature == s.lastTemperature && r.confidence == s.confidence && r.error.None?
    ensures s.lastUpdate.Some? ==>
              r.timestamp == Some(At(s.lastUpdate.value)) && r.ageSeconds == Some(now - s.lastUpdate.value)
    ensures s.lastUpdate.None? ==> r.timestamp.None? && r.ageSeconds.None?
  {
    TemperatureData(
      s.lastTemperature,
      if s.lastUpdate.Some? then Some(At(s.lastUpdate.value)) else None,
      s.confidence,
      if s.lastUpdate.Some? then Some(now - s.lastUpdate.value) else None,
      None)
  }
}
