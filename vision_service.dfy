/**
 * The original vision temperature service (vision_temperature_service.py):
 * each cycle captures an image, asks the vision command line tool for the
 * number on the display, and updates the last reading and its confidence.
 * Unlike the fixed service it writes the temperature file on a failed
 * capture only when there has been a reading. Capture success and the
 * tool's reply are inputs of a cycle; `now` is the local clock.
 */
module VisionService {
  import opened Wrappers
  import opened Text
  import opened VisionRecords

  /** What running the command line tool gave. */
  datatype CliReply =
    | Completed(returnCode: int, stdout: string)
    | TimedOut
    | Raised(message: string)

  /**
   * The reply parse: strip the output, remove "°F" and then "°", strip again
   * and read an integer; only 50..90 is accepted.
   */
  function ParseReply(stdout: string): (r: Option<int>)
    ensures r.Some? ==> 50 <= r.value <= 90
  {
    var response := Strip(stdout);
    var v := PyInt(Strip(ReplaceAll(ReplaceAll(response, "°F", ""), "°", "")));
    if v.Some? && 50 <= v.value <= 90 then v else None
  }

  /** `get_claude_temperature`: a reading only from a run that exited with status 0. */
  function ClaudeTemperature(reply: CliReply): (r: Option<int>)
    ensures r.Some? ==> reply.Completed? && reply.returnCode == 0 && 50 <= r.value <= 90
  {
    if reply.Completed? && reply.returnCode == 0 then ParseReply(reply.stdout) else None
  }

  /** The facts about `str(t)` the reply lemmas need. */
  lemma NumeralFacts(t: int)
    ensures '°' !in IntToString(t)
    ensures NoSpace(IntToString(t)) && Strip(IntToString(t)) == IntToString(t)
    ensures PyInt(IntToString(t)) == Some(t)
  {
    IntToStringChars(t);
    IntToStringNoSpace(t);
    StripOfNoSpace(IntToString(t));
    PyIntOfIntToString(t);
  }

  /** Appending a degree sign keeps a numeral free of whitespace. */
  lemma NoSpaceSuffix(s: string, suffix: string)
    requires NoSpace(s) && NoSpace(suffix)
    ensures Strip(s + suffix) == s + suffix
  {
    assert NoSpace(s + suffix) by {
      forall k | 0 <= k < |s + suffix| ensures !IsSpace((s + suffix)[k]) {
        if k < |s| { assert (s + suffix)[k] == s[k]; } else { assert (s + suffix)[k] == suffix[k - |s|]; }
      }
    }
    StripOfNoSpace(s + suffix);
  }

  /** A reply of the bare number reads as that number exactly when it is in range. */
  lemma ParseReplyBare(t: int)
    ensures ParseReply(IntToString(t)) == (if 50 <= t <= 90 then Some(t) else None)
  {
    var s := IntToString(t);
    NumeralFacts(t);
    ReplaceAllAbsent(s, "°F", "");
    ReplaceAllAbsent(s, "°", "");
  }

  /** A reply "<t>°F" reads as `t` exactly when it is in range. */
  lemma ParseReplyFahrenheit(t: int)
    ensures ParseReply(IntToString(t) + "°F") == (if 50 <= t <= 90 then Some(t) else None)
  {
    var s := IntToString(t);
    NumeralFacts(t);
    NoSpaceSuffix(s, "°F");
    ReplaceAllSuffix(s, "°F", "");
    assert s + "" == s;
    ReplaceAllAbsent(s, "°", "");
  }

  /** A reply "<t>°" reads as `t` exactly when it is in range. */
  lemma ParseReplyDegree(t: int)
    ensures ParseReply(IntToString(t) + "°") == (if 50 <= t <= 90 then Some(t) else None)
  {
    var s := IntToString(t);
    NumeralFacts(t);
    NoSpaceSuffix(s, "°");
    ReplaceAllPrefixFree(s, "°", "°F", "");
    assert ReplaceAll("°", "°F", "") == "°";
    ReplaceAllSuffix(s, "°", "");
    assert s + "" == s;
  }

  /** `calculate_confidence`: < 60 s HIGH, < 300 s MEDIUM, otherwise LOW. */
  function CalculateConfidence(ageSeconds: int): (r: Level)
    ensures r in {High, Medium, Low}
  {
    if ageSeconds < 60 then High
    else if ageSeconds < 300 then Medium
    else Low
  }

  /** Confidence never increases as a reading ages. */
  lemma ConfidenceMonotone(younger: int, older: int)
    requires younger <= older
    ensures Rank(CalculateConfidence(older)) <= Rank(CalculateConfidence(younger))
  {}

  /** The confidence a cycle without a reading leaves: re-banded once there has been a reading, kept before. */
  function Rebanded(s: ServiceState, now: int): Level {
    if s.lastUpdate.Some? then CalculateConfidence(now - s.lastUpdate.value) else s.confidence
  }

  /** The state after one `run_update_cycle`. */
  function Cycle(s: ServiceState, captured: bool, reply: CliReply, now: int): (r: ServiceState)
    ensures captured && ClaudeTemperature(reply).Some? ==>
              r == ServiceState(ClaudeTemperature(reply), Some(now), High)
    ensures !(captured && ClaudeTemperature(reply).Some?) ==>
              r.lastTemperature == s.lastTemperature && r.lastUpdate == s.lastUpdate
    ensures !(captured && ClaudeTemperature(reply).Some?) && s.lastUpdate.None? ==> r == s
    ensures !(captured && ClaudeTemperature(reply).Some?) && s.lastUpdate.Some? ==>
              r.confidence == CalculateConfidence(now - s.lastUpdate.value)
  {
    if captured then
      var temp := ClaudeTemperature(reply);
      if temp.Some? then ServiceState(temp, Some(now), High)
      else s.(confidence := Rebanded(s, now))
    else
      s.(confidence := Rebanded(s, now))
  }

  /** Whether a cycle writes the temperature file: after every capture, and after a failed one only once there has been a reading. */
  predicate Writes(s: ServiceState, captured: bool)
    ensures !Writes(s, captured) ==> forall reply, now :: Cycle(s, captured, reply, now) == s
  {
    captured || s.lastUpdate.Some?
  }

  /** A failed capture leaves the same state as a capture without a reading; only the file write differs. */
  lemma CaptureFailureLikeMissingReading(s: ServiceState, reply: CliReply, now: int)
    ensures Cycle(s, false, reply, now) == Cycle(s, true, TimedOut, now)
    ensures Writes(s, true) && (Writes(s, false) <==> s.lastUpdate.Some?)
  {}

  /** Starting from the constructed state, the confidence is always HIGH, MEDIUM or LOW. */
  lemma CycleKeepsLevels(s: ServiceState, captured: bool, reply: CliReply, now: int)
    requires s.confidence in {High, Medium, Low}
    ensures Cycle(s, captured, reply, now).confidence in {High, Medium, Low}
  {}

  class VisionTemperatureService {
    var running: bool
    var lastTemperature: Option<int>
    var lastUpdate: Option<int>
    var confidence: Level
    /** The contents of the shared temperature file, None before the first write. */
    var outputFile: Option<TemperatureData>

    function State(): ServiceState
      reads this
    {
      ServiceState(lastTemperature, lastUpdate, confidence)
    }

    constructor()
      ensures running && State() == Initial && outputFile.None?
    {
      running := true;
      lastTemperature := None;
      lastUpdate := None;
      confidence := Low;
      outputFile := None;
    }

    /** `handle_shutdown`: the main loop stops after the current cycle. */
    method HandleShutdown()
      modifies this`running
      ensures !running
    {
      running := false;
    }

    /** `write_temperature_file` */
    method WriteTemperatureFile(now: int)
      modifies this`outputFile
      ensures outputFile == Some(OutputData(State(), now))
    {
      outputFile := Some(OutputData(State(), now));
    }

    /** `run_update_cycle`, given whether capture succeeded and what the tool replied. */
    method RunUpdateCycle(captured: bool, reply: CliReply, now: int)
      modifies this`lastTemperature, this`lastUpdate, this`confidence, this`outputFile
      ensures State() == Cycle(old(State()), captured, reply, now)
      ensures Writes(old(State()), captured) ==> outputFile == Some(OutputData(State(), now))
      ensures !Writes(old(State()), captured) ==> outputFile == old(outputFile)
    {
      if captured {
        var temp := ClaudeTemperature(reply);
        if temp.Some? {
          lastTemperature := temp;
          lastUpdate := Some(now);
          confidence := High;
        } else {
          if lastUpdate.Some? {
            confidence := CalculateConfidence(now - lastUpdate.value);
          }
        }
        WriteTemperatureFile(now);
      } else {
        if lastUpdate.Some? {
          confidence := CalculateConfidence(now - lastUpdate.value);
          WriteTemperatureFile(now);
        }
      }
    }
  }
}
