/**
 * Temperature extraction from OCR text (local_vision_ai.py): the first
 * standalone one- or two-digit number in 50..90 is the reading, its
 * confidence depends on how plainly the text shows it, and of several
 * preprocessed images the first HIGH reading wins over the first reading.
 * The OCR engines and the image preprocessing are inputs: each image is
 * given by the text the engine returned for it, or by its failure.
 */
module LocalVisionAi {
  import opened Wrappers
  import opened Text
  import opened VisionRecords

  /** Regex `\w` on ASCII: letters, digits and the underscore. */
  predicate IsWordChar(c: char) {
    'a' <= c <= 'z' || 'A' <= c <= 'Z' || IsDigit(c) || c == '_'
  }

  /**
   * The length of the match of `\b\d{1,2}\b` that starts at `i`, or 0 when
   * none does: `i` ends a word boundary, then two digits are tried before one,
   * and the match must end at a word boundary.
   */
  function MatchAt(s: string, i: nat): (n: nat)
    requires i <= |s|
    ensures n <= 2 && i + n <= |s|
    ensures n > 0 ==> IsDigit(s[i]) && (i == 0 || !IsWordChar(s[i - 1]))
    ensures n > 0 ==> i + n == |s| || !IsWordChar(s[i + n])
    ensures n == 2 ==> IsDigit(s[i + 1])
  {
    if i == |s| || !IsDigit(s[i]) || (i > 0 && IsWordChar(s[i - 1])) then 0
    else if i + 1 == |s| || !IsWordChar(s[i + 1]) then 1
    else if IsDigit(s[i + 1]) && (i + 2 == |s| || !IsWordChar(s[i + 2])) then 2
    else 0
  }

  /** `int()` of the match at `i`. */
  function ValueAt(s: string, i: nat): nat
    requires i <= |s|
  {
    DecimalValue(s[i..i + MatchAt(s, i)])
  }

  /**
   * Where the matches of `\b\d{1,2}\b` start, scanning from `i` left to
   * right and resuming after each match, as `re.findall` does.
   */
  function MatchesFrom(s: string, i: nat): (r: seq<nat>)
    requires i <= |s|
    ensures forall k :: 0 <= k < |r| ==> i <= r[k] < |s| && MatchAt(s, r[k]) > 0
    ensures forall k, m :: 0 <= k < m < |r| ==> r[k] < r[m]
    decreases |s| - i
  {
    if i == |s| then []
    else
      var n := MatchAt(s, i);
      if n == 0 then MatchesFrom(s, i + 1)
      else [i] + MatchesFrom(s, i + n)
  }

  /** The values `[int(x) for x in re.findall(r'\b\d{1,2}\b', s)]`, in order. */
  function Numbers(s: string): (r: seq<nat>)
    ensures |r| == |MatchesFrom(s, 0)|
    ensures forall k :: 0 <= k < |r| ==> r[k] == ValueAt(s, MatchesFrom(s, 0)[k])
  {
    var positions := MatchesFrom(s, 0);
    seq(|positions|, k requires 0 <= k < |positions| => ValueAt(s, positions[k]))
  }

  /** Every match is found: resuming after a match skips no other match. */
  lemma {:induction false} MatchesComplete(s: string, i: nat, j: nat)
    requires i <= j < |s| && MatchAt(s, j) > 0
    ensures j in MatchesFrom(s, i)
    decreases |s| - i, 1
  {
    if i == j {
      FoundWhereItStarts(s, i);
    } else {
      MatchEndsBeforeNext(s, i, j);
      if MatchAt(s, i) == 0 {
        CompleteAfterNonMatch(s, i, j);
      } else {
        CompleteAfterMatch(s, i, j);
      }
    }
  }

  lemma {:induction false} CompleteAfterNonMatch(s: string, i: nat, j: nat)
    requires i < j < |s| && MatchAt(s, j) > 0 && MatchAt(s, i) == 0
    ensures j in MatchesFrom(s, i)
    decreases |s| - i, 0
  {
    MatchesComplete(s, i + 1, j);
    FoundAfterNonMatch(s, i, j);
  }

  lemma {:induction false} CompleteAfterMatch(s: string, i: nat, j: nat)
    requires i < j < |s| && MatchAt(s, j) > 0 && MatchAt(s, i) > 0 && i + MatchAt(s, i) <= j
    ensures j in MatchesFrom(s, i)
    decreases |s| - i, 0
  {
    MatchesComplete(s, i + MatchAt(s, i), j);
    FoundAfterMatch(s, i, j);
  }

  lemma FoundWhereItStarts(s: string, i: nat)
    requires i < |s| && MatchAt(s, i) > 0
    ensures i in MatchesFrom(s, i)
  {
    assert MatchesFrom(s, i)[0] == i;
  }

  lemma FoundAfterNonMatch(s: string, i: nat, j: nat)
    requires i < j < |s| && MatchAt(s, i) == 0 && j in MatchesFrom(s, i + 1)
    ensures j in MatchesFrom(s, i)
  {
    assert MatchesFrom(s, i) == MatchesFrom(s, i + 1);
  }

  lemma FoundAfterMatch(s: string, i: nat, j: nat)
    requires i < j < |s| && MatchAt(s, i) > 0 && i + MatchAt(s, i) <= j
    requires j in MatchesFrom(s, i + MatchAt(s, i))
    ensures j in MatchesFrom(s, i)
  {
    var rest := MatchesFrom(s, i + MatchAt(s, i));
    assert j in [i] + rest;
    assert MatchesFrom(s, i) == [i] + rest;
  }

  /** A match ends before the next match starts: a digit run is never entered in the middle. */
  lemma MatchEndsBeforeNext(s: string, i: nat, j: nat)
    requires i < j < |s| && MatchAt(s, j) > 0
    ensures MatchAt(s, i) == 0 || i + MatchAt(s, i) <= j
  {}

  /** No digit of a run of three or more digits starts a match. */
  lemma LongDigitRunsIgnored(s: string, i: nat)
    requires i + 3 <= |s| && IsDigit(s[i]) && IsDigit(s[i + 1]) && IsDigit(s[i + 2])
    ensures MatchAt(s, i) == 0 && MatchAt(s, i + 1) == 0 && MatchAt(s, i + 2) == 0
  {}

  /** The index of the first number in 50..90, the valid thermostat range. */
  function FirstInRange(numbers: seq<nat>): (r: Option<nat>)
    ensures r.Some? ==> r.value < |numbers| && 50 <= numbers[r.value] <= 90
    ensures r.Some? ==> forall m :: 0 <= m < r.value ==> !(50 <= numbers[m] <= 90)
    ensures r.None? ==> forall m :: 0 <= m < |numbers| ==> !(50 <= numbers[m] <= 90)
  {
    if numbers == [] then None
    else if 50 <= numbers[0] <= 90 then Some(0)
    else
      var rest := FirstInRange(numbers[1..]);
      if rest.None? then None else Some(rest.value + 1)
  }

  /**
   * `response.strip().lower()`: no longer than the reply, in lower case, and
   * only lowered when the reply has no whitespace at either end.
   */
  function Clean(response: string): (r: string)
    ensures |r| <= |response| && IsLowerCase(r)
    ensures NoSpace(response) ==> r == Lower(response)
  {
    StripOfNoSpaceIfNoSpace(response);
    LowerIsLowerCase(Strip(response));
    Lower(Strip(response))
  }

  lemma StripOfNoSpaceIfNoSpace(s: string)
    ensures NoSpace(s) ==> Strip(s) == s
  {
    if NoSpace(s) {
      StripOfNoSpace(s);
    }
  }

  /** What `_parse_temperature_response` returns. */
  datatype Parsed = Parsed(temperature: Option<int>, confidence: Level)

  /** One of the patterns `_assess_confidence` reads as HIGH, matched by `re.match` at the start. */
  predicate HighPattern(lowered: string, number: string) {
    || lowered == number || lowered == number + "\n"     // `^T$`; `$` also matches before a final newline
    || StartsWith(lowered, number + "°")
    || StartsWith(lowered, number + "°f")
    || StartsWith(lowered, number + " degrees")
  }

  lemma StartsWithLonger(s: string, p: string, q: string)
    requires StartsWith(s, p + q)
    ensures StartsWith(s, p)
  {
    assert s[..|p|] == (p + q)[..|p|];
  }

  /** Every HIGH pattern starts with the number. */
  lemma HighPatternStartsWith(lowered: string, number: string)
    requires HighPattern(lowered, number)
    ensures StartsWith(lowered, number)
  {
    if lowered == number {
    } else if lowered == number + "\n" {
      StartsWithLonger(lowered, number, "\n");
    } else if StartsWith(lowered, number + "°") {
      StartsWithLonger(lowered, number, "°");
    } else if StartsWith(lowered, number + "°f") {
      StartsWithLonger(lowered, number, "°f");
    } else {
      StartsWithLonger(lowered, number, " degrees");
    }
  }

  /**
   * `_assess_confidence`: HIGH exactly when the lowered reply matches one of
   * the HIGH patterns; MEDIUM exactly when it does not but the number's text
   * occurs in the reply and the reply has at most three words; LOW otherwise.
   */
  function AssessConfidence(response: string, temperature: int): (r: Level)
    ensures r in {High, Medium, Low}
    ensures r == High <==> HighPattern(Lower(response), IntToString(temperature))
    ensures r == Medium <==>
              && !HighPattern(Lower(response), IntToString(temperature))
              && Contains(response, IntToString(temperature)) && |Words(response)| <= 3
    ensures r == High ==> StartsWith(Lower(response), IntToString(temperature))
  {
    var lowered := Lower(response);
    var number := IntToString(temperature);
    if HighPattern(lowered, number) then
      HighPatternStartsWith(lowered, number);
      High
    else if Contains(response, number) && |Words(response)| <= 3 then Medium
    else Low
  }

  /** `lower()` of a concatenation is the concatenation of the lowered parts. */
  lemma LowerConcat(a: string, b: string)
    ensures Lower(a + b) == Lower(a) + Lower(b)
  {
    assert forall i :: 0 <= i < |a + b| ==> Lower(a + b)[i] == (Lower(a) + Lower(b))[i];
  }

  /** A reply "<t>°..." is HIGH, whatever follows the degree sign. */
  lemma DegreeSignIsHigh(t: int, rest: string)
    requires 50 <= t <= 90
    ensures AssessConfidence(IntToString(t) + "°" + rest, t) == High
  {
    var s := IntToString(t);
    TwoDigits(t);
    LowerConcat(s + "°", rest);
    assert Lower(s + "°") == s + "°";
    assert (s + "°" + rest)[..|s + "°"|] == s + "°";
  }

  /** A reply "<t> degrees..." is HIGH, whatever follows. */
  lemma DegreesWordIsHigh(t: int, rest: string)
    requires 50 <= t <= 90
    ensures AssessConfidence(IntToString(t) + " degrees" + rest, t) == High
  {
    var s := IntToString(t);
    TwoDigits(t);
    LowerConcat(s + " degrees", rest);
    assert Lower(s + " degrees") == s + " degrees";
    assert (s + " degrees" + rest)[..|s + " degrees"|] == s + " degrees";
  }

  /** A short reply holding the number after a word, "at <t>", is MEDIUM. */
  lemma ShortReplyIsMedium(t: int)
    requires 50 <= t <= 90
    ensures AssessConfidence("at " + IntToString(t), t) == Medium
  {
    var s := IntToString(t);
    TwoDigits(t);
    var reply := "at " + s;
    assert reply == ['a', 't', ' ', s[0], s[1]];
    assert Lower(reply)[0] == 'a';
    assert !HighPattern(Lower(reply), s);
    ContainsAt(reply, s, 3);
    IntToStringNoSpace(t);
    TwoWords(s);
  }

  /** "at " before a two-character word splits into those two words. */
  lemma TwoWords(s: string)
    requires |s| == 2 && NoSpace(s)
    ensures Words("at " + s) == ["at", s]
  {
    var reply := "at " + s;
    var d := [s[1]];
    assert NonSpacePrefix(d) == 1 && d[1..] == [] && d[..1] == d;
    assert Words(d) == [d];
    assert s[1..] == d && s[..1] == [s[0]];
    assert NonSpacePrefix(s) == 2 && s[..2] == s && s[2..] == [];
    assert Words(s) == [s];
    assert reply[2..] == [' '] + s && reply[3..] == s;
    assert Words(reply[2..]) == [s];
    assert reply[1..] == ['t', ' '] + s && reply[1..][1..] == reply[2..];
    assert NonSpacePrefix(reply[1..]) == 1;
    assert NonSpacePrefix(reply) == 2 && reply[..2] == "at";
  }

  /** `_parse_temperature_response` */
  function ParseTemperatureResponse(response: string): (r: Parsed)
    ensures r.temperature.Some? ==> 50 <= r.temperature.value <= 90
    ensures r.temperature.None? ==> r.confidence == Low
    ensures r.confidence in {High, Medium, Low}
  {
    var cleaned := Clean(response);
    var numbers := Numbers(cleaned);
    var first := FirstInRange(numbers);
    if first.None? then Parsed(None, Low)
    else
      var t := numbers[first.value];
      Parsed(Some(t), AssessConfidence(cleaned, t))
  }

  /** The first number in range comes from a match with no earlier match in range. */
  lemma FirstInRangeIsFirstMatch(c: string, m: nat)
    requires FirstInRange(Numbers(c)) == Some(m)
    ensures m < |MatchesFrom(c, 0)|
    ensures var p := MatchesFrom(c, 0)[m];
            && 0 <= p < |c| && MatchAt(c, p) > 0 && ValueAt(c, p) == Numbers(c)[m]
            && forall e :: 0 <= e < p && MatchAt(c, e) > 0 ==> !(50 <= ValueAt(c, e) <= 90)
  {
    var p := MatchesFrom(c, 0)[m];
    forall e | 0 <= e < p && MatchAt(c, e) > 0 ensures !(50 <= ValueAt(c, e) <= 90) {
      EarlierMatchOutOfRange(c, m, e);
    }
  }

  /** A match before the first in-range one is out of range. */
  lemma EarlierMatchOutOfRange(c: string, m: nat, e: nat)
    requires FirstInRange(Numbers(c)) == Some(m)
    requires 0 <= e < MatchesFrom(c, 0)[m] && MatchAt(c, e) > 0
    ensures !(50 <= ValueAt(c, e) <= 90)
  {
    var positions := MatchesFrom(c, 0);
    MatchesComplete(c, 0, e);
    var k := EarlierIndex(positions, m, e);
    assert Numbers(c)[k] == ValueAt(c, e);
  }

  /** In an increasing sequence, a value below the `m`-th element sits at an index below `m`. */
  lemma EarlierIndex(positions: seq<nat>, m: nat, e: nat) returns (k: nat)
    requires m < |positions| && e in positions && e < positions[m]
    requires forall a, b :: 0 <= a < b < |positions| ==> positions[a] < positions[b]
    ensures k < m && positions[k] == e
  {
    k :| 0 <= k < |positions| && positions[k] == e;
  }

  /** With no number in range found, no match at all is in range. */
  lemma NoneInRangeNoMatch(c: string)
    requires FirstInRange(Numbers(c)).None?
    ensures forall j :: 0 <= j < |c| && MatchAt(c, j) > 0 ==> !(50 <= ValueAt(c, j) <= 90)
  {
    var numbers := Numbers(c);
    var positions := MatchesFrom(c, 0);
    forall j | 0 <= j < |c| && MatchAt(c, j) > 0 ensures !(50 <= ValueAt(c, j) <= 90) {
      MatchesComplete(c, 0, j);
      var k :| 0 <= k < |positions| && positions[k] == j;
      assert numbers[k] == ValueAt(c, j);
    }
  }

  /**
   * The reading is the first standalone number of the cleaned reply that is
   * in range, there is none exactly when no standalone number is in range,
   * and its confidence is assessed on the cleaned reply.
   */
  lemma ParseFindsFirstStandaloneNumber(response: string)
    ensures var c := Clean(response);
            var r := ParseTemperatureResponse(response);
            && (r.temperature.Some? ==>
                  && (exists j :: 0 <= j < |c| && MatchAt(c, j) > 0 && ValueAt(c, j) == r.temperature.value
                       && forall e :: 0 <= e < j && MatchAt(c, e) > 0 ==> !(50 <= ValueAt(c, e) <= 90))
                  && r.confidence == AssessConfidence(c, r.temperature.value))
            && (r.temperature.None? <==>
                  forall j :: 0 <= j < |c| && MatchAt(c, j) > 0 ==> !(50 <= ValueAt(c, j) <= 90))
  {
    var c := Clean(response);
    var first := FirstInRange(Numbers(c));
    if first.Some? {
      FirstInRangeIsFirstMatch(c, first.value);
      var p := MatchesFrom(c, 0)[first.value];
      assert MatchAt(c, p) > 0 && 50 <= ValueAt(c, p) <= 90;
    } else {
      NoneInRangeNoMatch(c);
    }
  }

  /** A number in 50..90 prints as two digits. */
  lemma TwoDigits(t: int)
    requires 50 <= t <= 90
    ensures IntToString(t) == [DigitChar(t / 10), DigitChar(t % 10)]
    ensures DecimalValue(IntToString(t)) == t
  {
    DecimalValueOfNatToString(t);
  }

  /** A reply of just the number reads as that number with HIGH confidence. */
  lemma BareNumberIsHigh(t: int)
    requires 50 <= t <= 90
    ensures ParseTemperatureResponse(IntToString(t)) == Parsed(Some(t), High)
  {
    var s := IntToString(t);
    TwoDigits(t);
    IntToStringNoSpace(t);
    StripOfNoSpace(s);
    assert Clean(s) == s;
    assert MatchAt(s, 0) == 2;
    assert s[0..2] == s;
    assert MatchesFrom(s, 2) == [];
    assert MatchesFrom(s, 0) == [0];
    assert Numbers(s) == [t];
  }

  /** A reply "<t>°F" reads as `t` with HIGH confidence. */
  lemma FahrenheitIsHigh(t: int)
    requires 50 <= t <= 90
    ensures ParseTemperatureResponse(IntToString(t) + "°F") == Parsed(Some(t), High)
  {
    var s := IntToString(t);
    TwoDigits(t);
    var reply := s + "°F";
    assert reply == [s[0], s[1], '°', 'F'];
    assert NoSpace(reply);
    StripOfNoSpace(reply);
    var c := [s[0], s[1], '°', 'f'];
    assert Clean(reply) == c;
    assert MatchAt(c, 0) == 2;
    assert c[0..2] == s;
    assert MatchAt(c, 2) == 0 && MatchAt(c, 3) == 0;
    assert MatchesFrom(c, 4) == [];
    assert MatchesFrom(c, 3) == [];
    assert MatchesFrom(c, 2) == [];
    assert MatchesFrom(c, 0) == [0];
    assert Numbers(c) == [t];
    assert StartsWith(c, s + "°");
  }

  /** The digits of "720" are one run, so the reply gives no reading. */
  lemma ThreeDigitReplyGivesNothing()
    ensures ParseTemperatureResponse("720") == Parsed(None, Low)
  {
    var s := "720";
    StripOfNoSpace(s);
    assert Clean(s) == s;
    LongDigitRunsIgnored(s, 0);
    assert MatchesFrom(s, 3) == [];
    assert MatchesFrom(s, 2) == [];
    assert MatchesFrom(s, 1) == [];
    assert MatchesFrom(s, 0) == [];
    assert Numbers(s) == [];
  }

  /** One preprocessed image: the text OCR read from it, or the exception OCR raised. */
  datatype OcrAttempt = Recognised(name: string, text: string) | OcrFailed(name: string)

  /** What `extract_temperature` returns. */
  datatype Extraction = Extraction(temperature: Option<int>, confidence: Level, rawResponse: string)

  const NothingDetected := Extraction(None, Low, "No temperature detected in any processed image")

  /** The result one image contributes, if its text holds a reading. */
  function Candidate(attempt: OcrAttempt): (r: Option<Extraction>)
    ensures r.Some? ==> attempt.Recognised? && r.value.temperature.Some?
    ensures r.Some? ==> 50 <= r.value.temperature.value <= 90
  {
    match attempt
    case OcrFailed(_) => None
    case Recognised(name, text) =>
      var parsed := ParseTemperatureResponse(text);
      if parsed.temperature.None? then None
      else Some(Extraction(parsed.temperature, parsed.confidence, name + ": " + text))
  }

  /** The readings the images give, in order. */
  function Readings(attempts: seq<OcrAttempt>): (r: seq<Option<Extraction>>)
    ensures |r| == |attempts|
    ensures forall i :: 0 <= i < |attempts| ==> r[i] == Candidate(attempts[i])
  {
    seq(|attempts|, i requires 0 <= i < |attempts| => Candidate(attempts[i]))
  }

  /** A reading with HIGH confidence. */
  predicate IsHigh(reading: Option<Extraction>) {
    reading.Some? && reading.value.confidence == High
  }

  /** The first reading among `readings`. */
  function FirstFound(readings: seq<Option<Extraction>>): (r: Option<Extraction>)
    ensures r.Some? ==> r in readings
  {
    if readings == [] then None
    else
      var before := FirstFound(readings[..|readings| - 1]);
      if before.Some? then before else readings[|readings| - 1]
  }

  /**
   * There is a first reading exactly when some image gives one, and it is the
   * reading of the first such image.
   */
  lemma {:induction false} FirstFoundIsFirst(readings: seq<Option<Extraction>>)
    ensures FirstFound(readings).None? <==> forall i :: 0 <= i < |readings| ==> readings[i].None?
    ensures FirstFound(readings).Some? ==>
              exists i :: 0 <= i < |readings| && FirstFound(readings) == readings[i]
                && forall j :: 0 <= j < i ==> readings[j].None?
    decreases |readings|
  {
    if readings != [] {
      var init := readings[..|readings| - 1];
      FirstFoundIsFirst(init);
      if FirstFound(init).Some? {
        var i :| 0 <= i < |init| && FirstFound(init) == init[i] && forall j :: 0 <= j < i ==> init[j].None?;
        assert readings[i] == init[i];
      } else {
        assert forall j :: 0 <= j < |init| ==> readings[j] == init[j];
      }
    }
  }

  /** The first HIGH reading among `readings`. */
  function FirstHigh(readings: seq<Option<Extraction>>): (r: Option<Extraction>)
    ensures r.Some? ==> r.value.confidence == High && r in readings
  {
    if readings == [] then None
    else
      var before := FirstHigh(readings[..|readings| - 1]);
      if before.Some? then before
      else if IsHigh(readings[|readings| - 1]) then readings[|readings| - 1]
      else None
  }

  /**
   * There is a first HIGH reading exactly when some image gives one, and it
   * is the reading of the first such image.
   */
  lemma {:induction false} FirstHighIsFirst(readings: seq<Option<Extraction>>)
    ensures FirstHigh(readings).None? <==> forall i :: 0 <= i < |readings| ==> !IsHigh(readings[i])
    ensures FirstHigh(readings).Some? ==>
              exists i :: 0 <= i < |readings| && IsHigh(readings[i]) && FirstHigh(readings) == readings[i]
                && forall j :: 0 <= j < i ==> !IsHigh(readings[j])
    decreases |readings|
  {
    if readings != [] {
      var init := readings[..|readings| - 1];
      FirstHighIsFirst(init);
      if FirstHigh(init).Some? {
        var i :| 0 <= i < |init| && IsHigh(init[i]) && FirstHigh(init) == init[i]
                 && forall j :: 0 <= j < i ==> !IsHigh(init[j]);
        assert readings[i] == init[i];
      } else {
        assert forall j :: 0 <= j < |init| ==> readings[j] == init[j];
      }
    }
  }

  /** The choice among readings: the first HIGH one, else the first one, else the failure record. */
  function Pick(readings: seq<Option<Extraction>>): (r: Extraction)
    ensures r == NothingDetected || Some(r) in readings
  {
    var high := FirstHigh(readings);
    if high.Some? then
      assert high in readings;
      high.value
    else
      var found := FirstFound(readings);
      if found.Some? then
        assert found in readings;
        found.value
      else NothingDetected
  }

  /**
   * The choice among readings is the first HIGH reading; with none, the first
   * reading; with none either, the failure record.
   */
  lemma PickIsFirst(readings: seq<Option<Extraction>>)
    ensures (exists i :: 0 <= i < |readings| && IsHigh(readings[i])) ==>
              exists i :: 0 <= i < |readings| && IsHigh(readings[i]) && Some(Pick(readings)) == readings[i]
                && forall j :: 0 <= j < i ==> !IsHigh(readings[j])
    ensures (forall i :: 0 <= i < |readings| ==> !IsHigh(readings[i]))
            && (exists i :: 0 <= i < |readings| && readings[i].Some?) ==>
              exists i :: 0 <= i < |readings| && Some(Pick(readings)) == readings[i]
                && forall j :: 0 <= j < i ==> readings[j].None?
    ensures (forall i :: 0 <= i < |readings| ==> readings[i].None?) ==> Pick(readings) == NothingDetected
  {
    FirstHighIsFirst(readings);
    FirstFoundIsFirst(readings);
  }

  /**
   * The selection `extract_temperature` makes: the choice among the images'
   * readings; a failing preprocessing step gives an ERROR record with its message.
   */
  function Selected(images: Result<seq<OcrAttempt>, string>): (r: Extraction)
    ensures images.Err? ==> r == Extraction(None, Error, images.error)
    ensures r.temperature.Some? ==> 50 <= r.temperature.value <= 90
    ensures r.temperature.None? ==> r.confidence in {Low, Error}
  {
    match images
    case Err(message) => Extraction(None, Error, message)
    case Ok(attempts) =>
      var readings := Readings(attempts);
      var r := Pick(readings);
      assert r.temperature.Some? ==> Some(r) in readings by {
        PickIsFirst(readings);
      }
      r
  }

  /** With an image read with HIGH confidence, the selection is the reading of the first such image. */
  lemma SelectedIsFirstHigh(attempts: seq<OcrAttempt>)
    ensures (exists i :: 0 <= i < |attempts| && IsHigh(Candidate(attempts[i]))) ==>
              exists i :: 0 <= i < |attempts| && IsHigh(Candidate(attempts[i]))
                && Some(Selected(Ok(attempts))) == Candidate(attempts[i])
                && forall j :: 0 <= j < i ==> !IsHigh(Candidate(attempts[j]))
  {
    PickIsFirst(Readings(attempts));
  }

  /** With no HIGH image, the selection is the reading of the first image read at all. */
  lemma SelectedIsFirstReading(attempts: seq<OcrAttempt>)
    ensures (forall i :: 0 <= i < |attempts| ==> !IsHigh(Candidate(attempts[i])))
            && (exists i :: 0 <= i < |attempts| && Candidate(attempts[i]).Some?) ==>
              exists i :: 0 <= i < |attempts| && Some(Selected(Ok(attempts))) == Candidate(attempts[i])
                && forall j :: 0 <= j < i ==> Candidate(attempts[j]).None?
  {
    PickIsFirst(Readings(attempts));
  }

  /** With no image read at all, the selection is the failure record. */
  lemma SelectedIsNothing(attempts: seq<OcrAttempt>)
    ensures (forall i :: 0 <= i < |attempts| ==> Candidate(attempts[i]).None?) ==>
              Selected(Ok(attempts)) == NothingDetected
  {
    PickIsFirst(Readings(attempts));
  }

  /** If any image reads with HIGH confidence the result is HIGH; if any image reads at all, there is a reading. */
  lemma SelectionPrefersHigh(attempts: seq<OcrAttempt>, i: nat)
    requires i < |attempts| && Candidate(attempts[i]).Some?
    ensures Selected(Ok(attempts)).temperature.Some?
    ensures Candidate(attempts[i]).value.confidence == High ==> Selected(Ok(attempts)).confidence == High
  {
    var readings := Readings(attempts);
    FirstFoundIsFirst(readings);
    FirstHighIsFirst(readings);
    assert readings[i] == Candidate(attempts[i]);
  }

  /** `extract_temperature`: try each image in turn, keep the first reading, and stop at the first HIGH one. */
  method ExtractTemperature(images: Result<seq<OcrAttempt>, string>) returns (r: Extraction)
    ensures r == Selected(images)
  {
    if images.Err? {
      return Extraction(None, Error, images.error);
    }
    var attempts := images.value;
    ghost var readings := Readings(attempts);
    var best: Option<Extraction> := None;
    var k := 0;
    while k < |attempts|
      invariant 0 <= k <= |attempts|
      invariant FirstHigh(readings[..k]).None?
      invariant best == FirstFound(readings[..k])
    {
      ReadingsSnoc(readings, k);
      var result := Candidate(attempts[k]);
      assert result == readings[k];
      if result.Some? && (best.None? || result.value.confidence == High) {
        best := result;
        if result.value.confidence == High {
          HighPrefix(readings, k + 1);
          return best.value;
        }
      }
      assert !IsHigh(readings[k]);
      k := k + 1;
    }
    assert readings[..k] == readings;
    if best.Some? {
      return best.value;
    }
    return NothingDetected;
  }

  /** The searches over one more reading look at the earlier ones first. */
  lemma ReadingsSnoc(readings: seq<Option<Extraction>>, k: nat)
    requires k < |readings|
    ensures FirstFound(readings[..k + 1]) ==
              if FirstFound(readings[..k]).Some? then FirstFound(readings[..k]) else readings[k]
    ensures FirstHigh(readings[..k + 1]) ==
              if FirstHigh(readings[..k]).Some? then FirstHigh(readings[..k])
              else if IsHigh(readings[k]) then readings[k] else None
  {
    assert readings[..k + 1][..k] == readings[..k];
  }

  /** A HIGH reading found within a prefix is the first HIGH reading of the whole sequence. */
  lemma {:induction false} HighPrefix(readings: seq<Option<Extraction>>, k: nat)
    requires k <= |readings| && FirstHigh(readings[..k]).Some?
    ensures FirstHigh(readings) == FirstHigh(readings[..k])
    decreases |readings| - k
  {
    if k < |readings| {
      assert readings[..k + 1][..k] == readings[..k];
      HighPrefix(readings, k + 1);
    } else {
      assert readings[..k] == readings;
    }
  }
}
