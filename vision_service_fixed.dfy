/**
 * The fixed vision temperature service (vision_temperature_service_fixed.py):
 * one update cycle captures an image, obtains a reading, updates the
 * service's last reading and confidence, and always writes both output files.
 * Image capture and the reading are inputs of a cycle; `now` is the local
 * clock and `utcNow` the UTC clock at the moment of the cycle.
 */
module FixedVisionService {
  import opened Wrappers
  import opened VisionRecords
  import VisionState

  /** `calculate_confidence`: < 60 s HIGH, < 300 s MEDIUM, < 600 s LOW, else STALE. */
  function CalculateConfidence(ageSeconds: int): (r: Level)
    ensures r in {High, Medium, Low, Stale}
  {
    if ageSeconds < 60 then High
    else if ageSeconds < 300 then Medium
    else if ageSeconds < 600 then Low
    else Stale
  }

  /** Confidence never increases as a reading ages. */
  lemma ConfidenceMonotone(younger: int, older: int)
    requires younger <= older
    ensures Rank(CalculateConfidence(older)) <= Rank(CalculateConfidence(younger))
  {}

  /** The confidence a cycle without a new reading leaves: re-banded by age, or STALE with no reading ever. */
  function Rebanded(s: ServiceState, now: int): Level {
    if s.lastUpdate.Some? then CalculateConfidence(now - s.lastUpdate.value) else Stale
  }

  /**
   * The state after one `run_update_cycle`: a captured image with a reading
   * records it as HIGH; otherwise, in both the capture-ok and capture-failed
   * branches, only the confidence is re-banded.
   */
  function Cycle(s: ServiceState, captured: bool, reading: Option<int>, now: int): (r: ServiceState)
    ensures captured && reading.Some? ==> r == ServiceState(reading, Some(now), High)
    ensures !(captured && reading.Some?) ==>
              r.lastTemperature == s.lastTemperature && r.lastUpdate == s.lastUpdate
    ensures !(captured && reading.Some?) && s.lastUpdate.None? ==> r.confidence == Stale
    ensures !(captured && reading.Some?) && s.lastUpdate.Some? ==>
              r.confidence == CalculateConfidence(now - s.lastUpdate.value)
    ensures r.confidence in {High, Medium, Low, Stale}
  {
    if captured then
      if reading.Some? then ServiceState(reading, Some(now), High)
      else s.(confidence := Rebanded(s, now))
    else
      s.(confidence := Rebanded(s, now))
  }

  /** A failed capture leaves the same state as a capture that gave no reading. */
  lemma CaptureFailureLikeMissingReading(s: ServiceState, reading: Option<int>, now: int)
    ensures Cycle(s, false, reading, now) == Cycle(s, true, None, now)
  {}

  /** Over consecutive cycles without a reading the confidence only decays. */
  lemma ConfidenceDecays(s: ServiceState, first: int, second: int)
    requires s.lastUpdate.Some? && first <= second
    ensures Rank(Cycle(Cycle(s, false, None, first), false, None, second).confidence)
            <= Rank(Cycle(s, false, None, first).confidence)
  {
    ConfidenceMonotone(first - s.lastUpdate.value, second - s.lastUpdate.value);
  }

  /**
   * A reading taken at `taken` is re-banded by its age in every later cycle
   * without one, whatever confidence the earlier cycles left.
   */
  lemma ReadingAges(s: ServiceState, t: int, taken: int, captured: bool, reading: Option<int>, now: int)
    requires s.lastTemperature == Some(t) && s.lastUpdate == Some(taken)
    requires !(captured && reading.Some?)
    ensures Cycle(s, captured, reading, now) == ServiceState(Some(t), Some(taken), CalculateConfidence(now - taken))
  {}

  /**
   * The record written to the vision state file: the last temperature unless
   * it is unset or zero (Python falsy), in which case 76, stamped with the
   * UTC clock.
   */
  function VisionStateData(s: ServiceState, utcNow: int): (r: VisionState.StateRecord)
    ensures r.timestamp == Some(At(utcNow)) && r.confidence == s.confidence
    ensures s.lastTemperature.None? ==> r.temperature == Some(76)
    ensures s.lastTemperature == Some(0) ==> r.temperature == Some(76)
    ensures s.lastTemperature.Some? && s.lastTemperature.value != 0 ==> r.temperature == s.lastTemperature
  {
    var t := if s.lastTemperature.Some? && s.lastTemperature.value != 0 then s.lastTemperature.value else 76;
    VisionState.StateRecord(Some(t), Some(At(utcNow)), s.confidence)
  }

  class VisionTemperatureService {
    var running: bool
    var lastTemperature: Option<int>
    var lastUpdate: Option<int>
    var confidence: Level
    /** The contents of the shared temperature file, None before the first write. */
    var outputFile: Option<TemperatureData>
    /** The contents of the vision state file, None before the first write. */
    var visionStateFile: Option<VisionState.StateRecord>

    function State(): ServiceState
      reads this
    {
      ServiceState(lastTemperature, lastUpdate, confidence)
    }

    constructor()
      ensures running && State() == Initial
      ensures outputFile.None? && visionStateFile.None?
    {
      running := true;
      lastTemperature := None;
      lastUpdate := None;
      confidence := Low;
      outputFile := None;
      visionStateFile := None;
    }

    /** `handle_shutdown`: the main loop stops after the current cycle. */
    method HandleShutdown()
      modifies this`running
      ensures !running
    {
      running := false;
    }

    /** `write_output_files`: both files get the current state. */
    method WriteOutputFiles(now: int, utcNow: int)
      modifies this`outputFile, this`visionStateFile
      ensures outputFile == Some(OutputData(State(), now))
      ensures visionStateFile == Some(VisionStateData(State(), utcNow))
    {
      outputFile := Some(OutputData(State(), now));
      visionStateFile := Some(VisionStateData(State(), utcNow));
    }

    /** `run_update_cycle`, given whether capture succeeded and what the reading gave. */
    method RunUpdateCycle(captured: bool, reading: Option<int>, now: int, utcNow: int)
      modifies this`lastTemperature, this`lastUpdate, this`confidence, this`outputFile, this`visionStateFile
      ensures State() == Cycle(old(State()), captured, reading, now)
      ensures outputFile == Some(OutputData(State(), now))
      ensures visionStateFile == Some(VisionStateData(State(), utcNow))
    {
      if captured {
        if reading.Some? {
          lastTemperature := reading;
          lastUpdate := Some(now);
          confidence := High;
        } else {
          if lastUpdate.Some? {
            confidence := CalculateConfidence(now - lastUpdate.value);
          } else {
            confidence := Stale;
          }
        }
        WriteOutputFiles(now, utcNow);
      } else {
        if lastUpdate.Some? {
          confidence := CalculateConfidence(now - lastUpdate.value);
        } else {
          confidence := Stale;
        }
        WriteOutputFiles(now, utcNow);
      }
    }
  }
}
