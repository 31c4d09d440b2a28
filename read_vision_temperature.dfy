/**
 * The reader of the shared temperature file (debug/read_vision_temperature.py):
 * it loads the record a vision service wrote, refreshes its age and
 * confidence against the current time, and formats it for display.
 * Opening and decoding the file is modelled by the file's contents; `now`
 * is the local clock.
 */
module ReadVisionTemperature {
  import opened Wrappers
  import opened Text
  import opened VisionRecords
  import FixedVisionService
  import VisionService

  /** What opening and decoding the temperature file gives. */
  datatype TemperatureFile =
    | Missing                    // the file does not exist
    | InvalidJson                // `json.load` raised a decode error
    | Unreadable(message: string) // opening or reading raised another error
    | Stored(data: TemperatureData)

  const MissingMessage := "Temperature file not found. Is the service running?"
  const InvalidJsonMessage := "Invalid JSON in temperature file"

  /** The age `is_temperature_fresh` accepts when no other is given. */
  const DefaultMaxAge := 300

  /** An ERROR record carrying a message. */
  function ErrorRecord(message: string): TemperatureData {
    TemperatureData(None, None, Error, None, Some(message))
  }

  /**
   * What `get_vision_temperature` returns: error records for a missing, an
   * undecodable or an unreadable file, and otherwise the stored record with,
   * when it has a timestamp, its age recomputed and (unless the service
   * reported itself stopped) its confidence re-banded; a timestamp that does
   * not parse raises, and becomes an error record.  The reader writes the
   * bands out in its own code, with the thresholds of the original service's
   * `calculate_confidence` (60 s and 300 s), so that function stands for them.
   */
  function CurrentReading(file: TemperatureFile, now: int): (r: TemperatureData)
    ensures file.Missing? ==> r == TemperatureData(None, None, NoData, None, Some(MissingMessage))
    ensures file.InvalidJson? ==> r == ErrorRecord(InvalidJsonMessage)
    ensures file.Unreadable? ==> r == ErrorRecord("Error reading temperature: " + file.message)
    ensures file.Stored? && !Present(file.data.timestamp) ==> r == file.data
    ensures file.Stored? && Present(file.data.timestamp) && file.data.timestamp.value.Garbled? ==>
              r == ErrorRecord("Error reading temperature: " + IsoFormatError(file.data.timestamp.value.text))
    ensures file.Stored? && file.data.timestamp.Some? && file.data.timestamp.value.At? ==>
              var age := now - file.data.timestamp.value.instant;
              && r.temperature == file.data.temperature
              && r.timestamp == file.data.timestamp
              && r.error == file.data.error
              && r.ageSeconds == Some(age)
              && r.confidence == (if file.data.confidence == ServiceStopped then ServiceStopped else VisionService.CalculateConfidence(age))
  {
    match file
    case Missing => TemperatureData(None, None, NoData, None, Some(MissingMessage))
    case InvalidJson => ErrorRecord(InvalidJsonMessage)
    case Unreadable(message) => ErrorRecord("Error reading temperature: " + message)
    case Stored(data) =>
      if Present(data.timestamp) then
        match data.timestamp.value
        case At(t) =>
          var age := now - t;
          var aged := data.(ageSeconds := Some(age));
          if aged.confidence != ServiceStopped then aged.(confidence := VisionService.CalculateConfidence(age)) else aged
        case Garbled(text) => ErrorRecord("Error reading temperature: " + IsoFormatError(text))
      else data
  }

  /** `get_vision_temperature`, which updates the loaded record field by field. */
  method GetVisionTemperature(file: TemperatureFile, now: int) returns (data: TemperatureData)
    ensures data == CurrentReading(file, now)
  {
    match file {
      case Missing =>
        return TemperatureData(None, None, NoData, None, Some(MissingMessage));
      case InvalidJson =>
        return ErrorRecord(InvalidJsonMessage);
      case Unreadable(message) =>
        return ErrorRecord("Error reading temperature: " + message);
      case Stored(stored) =>
        data := stored;
    }
    if Present(data.timestamp) {
      if data.timestamp.value.Garbled? {
        return ErrorRecord("Error reading temperature: " + IsoFormatError(data.timestamp.value.text));
      }
      var ageSeconds := now - data.timestamp.value.instant;
      data := data.(ageSeconds := Some(ageSeconds));
      if data.confidence != ServiceStopped {
        if ageSeconds < 60 {
          data := data.(confidence := High);
        } else if ageSeconds < 300 {
          data := data.(confidence := Medium);
        } else {
          data := data.(confidence := Low);
        }
      }
    }
  }

  /** `get_temperature_only` */
  function TemperatureOnly(file: TemperatureFile, now: int): (r: Option<int>)
    ensures r.Some? ==> file.Stored? && r == file.data.temperature
  {
    CurrentReading(file, now).temperature
  }

  /**
   * `is_temperature_fresh`: the record has an age and it is at most
   * `maxAgeSeconds`; only a stored record can be fresh.
   */
  predicate IsTemperatureFresh(file: TemperatureFile, now: int, maxAgeSeconds: int := DefaultMaxAge)
    ensures IsTemperatureFresh(file, now, maxAgeSeconds) ==> file.Stored?
  {
    var age := CurrentReading(file, now).ageSeconds;
    age.Some? && age.value <= maxAgeSeconds
  }

  /** A reading fresh now was fresh at every earlier moment after it was taken. */
  lemma FreshnessDecays(file: TemperatureFile, earlier: int, later: int, maxAgeSeconds: int)
    requires file.Stored? && file.data.timestamp.Some? && file.data.timestamp.value.At?
    requires earlier <= later
    requires IsTemperatureFresh(file, later, maxAgeSeconds)
    ensures IsTemperatureFresh(file, earlier, maxAgeSeconds)
  {}

  /**
   * A timestamped reading fresh by the default age is HIGH or MEDIUM unless
   * the service stopped, except at exactly 300 s: freshness admits that age,
   * the MEDIUM band does not.
   */
  lemma FreshIsHighOrMedium(file: TemperatureFile, now: int)
    requires file.Stored? && file.data.timestamp.Some? && file.data.timestamp.value.At?
    requires IsTemperatureFresh(file, now)
    ensures CurrentReading(file, now).confidence in {High, Medium, ServiceStopped}
            || (CurrentReading(file, now).confidence == Low && CurrentReading(file, now).ageSeconds == Some(DefaultMaxAge))
  {}

  /** The confidence indicator: a solid, a half and an empty circle, and "?" for anything else. */
  function Indicator(confidence: Level): (c: char)
    ensures c == '?' <==> confidence !in {High, Medium, Low}
  {
    match confidence
    case High => '●'
    case Medium => '◐'
    case Low => '○'
    case _ => '?'
  }

  /** `format_temperature_display` */
  function FormatTemperatureDisplay(file: TemperatureFile, now: int): (r: string)
    ensures CurrentReading(file, now).temperature.None? ==> r == "No temperature data"
    ensures CurrentReading(file, now).temperature.Some? ==>
              r == IntToString(CurrentReading(file, now).temperature.value) + "°F "
                   + [Indicator(CurrentReading(file, now).confidence)]
  {
    var data := CurrentReading(file, now);
    if data.temperature.None? then "No temperature data"
    else IntToString(data.temperature.value) + "°F " + [Indicator(data.confidence)]
  }

  /** The display determines the temperature and the indicator. */
  lemma DisplayDeterminesReading(f: TemperatureFile, g: TemperatureFile, now: int)
    requires CurrentReading(f, now).temperature.Some? && CurrentReading(g, now).temperature.Some?
    requires FormatTemperatureDisplay(f, now) == FormatTemperatureDisplay(g, now)
    ensures CurrentReading(f, now).temperature == CurrentReading(g, now).temperature
    ensures Indicator(CurrentReading(f, now).confidence) == Indicator(CurrentReading(g, now).confidence)
  {
    var a := IntToString(CurrentReading(f, now).temperature.value);
    var b := IntToString(CurrentReading(g, now).temperature.value);
    var d := FormatTemperatureDisplay(f, now);
    assert |a| == |b|;
    assert a == d[..|a|] == b;
    IntToStringInjective(CurrentReading(f, now).temperature.value, CurrentReading(g, now).temperature.value);
    assert d[|d| - 1] == Indicator(CurrentReading(f, now).confidence);
  }

  /** Reading what the fixed service wrote after a cycle re-bands that cycle's reading by its age now. */
  lemma ReadsFixedServiceOutput(s: ServiceState, captured: bool, reading: Option<int>,
                                cycleAt: int, now: int)
    requires FixedVisionService.Cycle(s, captured, reading, cycleAt).lastUpdate.Some?
    ensures var c := FixedVisionService.Cycle(s, captured, reading, cycleAt);
            var r := CurrentReading(Stored(OutputData(c, cycleAt)), now);
            && r.temperature == c.lastTemperature
            && r.ageSeconds == Some(now - c.lastUpdate.value)
            && r.confidence == VisionService.CalculateConfidence(now - c.lastUpdate.value)
  {}

  /** The same for the original service: its records are re-banded by age too. */
  lemma ReadsServiceOutput(s: ServiceState, captured: bool, reply: VisionService.CliReply,
                           cycleAt: int, now: int)
    requires VisionService.Cycle(s, captured, reply, cycleAt).lastUpdate.Some?
    ensures var c := VisionService.Cycle(s, captured, reply, cycleAt);
            var r := CurrentReading(Stored(OutputData(c, cycleAt)), now);
            && r.temperature == c.lastTemperature
            && r.ageSeconds == Some(now - c.lastUpdate.value)
            && r.confidence == VisionService.CalculateConfidence(now - c.lastUpdate.value)
  {}
}
