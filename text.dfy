/**
 * The Python string operations the thermostat code relies on, stated over
 * `string` (a sequence of Unicode scalar values).  Letters are folded to lower
 * case in the ASCII range only; whitespace is Python's `str.isspace()` set.
 */
module Text {
  import opened Wrappers

  /** Python's `str.isspace()` for one character. */
  predicate IsSpace(c: char) {
    || c == ' '
    || '\t' <= c <= '\r'
    || '\U{1c}' <= c <= '\U{1f}'
    || c == '\U{85}' || c == '\U{a0}' || c == '\U{1680}'
    || '\U{2000}' <= c <= '\U{200a}'
    || c == '\U{2028}' || c == '\U{2029}' || c == '\U{202f}' || c == '\U{205f}' || c == '\U{3000}'
  }

  predicate NoSpace(s: string) {
    forall i :: 0 <= i < |s| ==> !IsSpace(s[i])
  }

  /** The number of whitespace characters `s.lstrip()` removes. */
  function LeadingSpaces(s: string): (n: nat)
    ensures n <= |s|
    ensures n < |s| ==> !IsSpace(s[n])
    decreases |s|
  {
    if s != [] && IsSpace(s[0]) then 1 + LeadingSpaces(s[1..]) else 0
  }

  /** The number of whitespace characters `s.rstrip()` removes. */
  function TrailingSpaces(s: string): (n: nat)
    ensures n <= |s|
    ensures n < |s| ==> !IsSpace(s[|s| - 1 - n])
    decreases |s|
  {
    if s != [] && IsSpace(s[|s| - 1]) then 1 + TrailingSpaces(s[..|s| - 1]) else 0
  }

  /** Only whitespace is trimmed from either end. */
  lemma {:induction false} TrimmedAreSpace(s: string)
    ensures forall i :: 0 <= i < LeadingSpaces(s) ==> IsSpace(s[i])
    ensures forall i :: |s| - TrailingSpaces(s) <= i < |s| ==> IsSpace(s[i])
    decreases |s|
  {
    if s != [] && IsSpace(s[0]) {
      TrimmedAreSpace(s[1..]);
      assert forall i :: 1 <= i < |s| ==> s[i] == s[1..][i - 1];
    }
    if s != [] && IsSpace(s[|s| - 1]) {
      TrimmedAreSpace(s[..|s| - 1]);
    }
  }

  /** `s.strip()` */
  function Strip(s: string): (r: string)
    ensures |r| <= |s|
  {
    var t := s[LeadingSpaces(s)..];
    t[..|t| - TrailingSpaces(t)]
  }

  lemma StripOfNoSpace(s: string)
    requires NoSpace(s)
    ensures Strip(s) == s
  {
    assert LeadingSpaces(s) == 0;
    assert s[0..] == s;
    assert TrailingSpaces(s) == 0;
  }

  function LowerChar(c: char): char {
    if 'A' <= c <= 'Z' then (c as int - 'A' as int + 'a' as int) as char else c
  }

  /** `s.lower()`, ASCII letters only. */
  function Lower(s: string): (r: string)
    ensures |r| == |s|
    ensures forall i :: 0 <= i < |s| ==> r[i] == LowerChar(s[i])
  {
    seq(|s|, i requires 0 <= i < |s| => LowerChar(s[i]))
  }

  predicate IsLowerCase(s: string) {
    forall i :: 0 <= i < |s| ==> LowerChar(s[i]) == s[i]
  }

  /** `lower()` gives lower-case text. */
  lemma LowerIsLowerCase(s: string)
    ensures IsLowerCase(Lower(s))
  {
    forall i | 0 <= i < |s| ensures LowerChar(LowerChar(s[i])) == LowerChar(s[i]) {
      var c := s[i];
      if 'A' <= c <= 'Z' {
        assert 'a' <= LowerChar(c) <= 'z';
      }
    }
  }

  /** Only the letters `a` to `z`. */
  predicate LowerLetters(s: string) {
    forall i :: 0 <= i < |s| ==> 'a' <= s[i] <= 'z'
  }

  /** A word of lower-case letters holds no comma and no whitespace, and `lower()` keeps it. */
  lemma LowerLettersFacts(s: string)
    requires LowerLetters(s)
    ensures ',' !in s && IsLowerCase(s) && NoSpace(s)
  {
    assert forall i :: 0 <= i < |s| ==> s[i] != ',' && LowerChar(s[i]) == s[i] && !IsSpace(s[i]);
  }

  lemma LowerOfLowerCase(s: string)
    requires IsLowerCase(s)
    ensures Lower(s) == s
  {
  }

  /** `s.split(sep)` for a one-character separator: always at least one field. */
  function Split(s: string, sep: char): (r: seq<string>)
    ensures |r| >= 1
    decreases |s|
  {
    if s == [] then [[]]
    else
      var rest := Split(s[1..], sep);
      if s[0] == sep then [[]] + rest else [[s[0]] + rest[0]] + rest[1..]
  }

  /** `sep.join(xs)` */
  function Join(xs: seq<string>, sep: char): string
    decreases |xs|
  {
    if xs == [] then []
    else if |xs| == 1 then xs[0]
    else xs[0] + [sep] + Join(xs[1..], sep)
  }

  /** A field without the separator is split off whole. */
  lemma {:induction false} SplitField(x: string, sep: char, rest: Option<string>)
    requires sep !in x
    ensures rest.None? ==> Split(x, sep) == [x]
    ensures rest.Some? ==> Split(x + [sep] + rest.value, sep) == [x] + Split(rest.value, sep)
    decreases |x|
  {
    if x == [] {
      if rest.Some? {
        assert ([] + [sep] + rest.value)[1..] == rest.value;
      }
    } else {
      SplitField(x[1..], sep, rest);
      assert x == [x[0]] + x[1..];
      if rest.Some? {
        assert (x + [sep] + rest.value)[0] == x[0];
        assert (x + [sep] + rest.value)[1..] == x[1..] + [sep] + rest.value;
      }
    }
  }

  /** Splitting a join gives back the fields when none contains the separator. */
  lemma {:induction false} SplitJoin(xs: seq<string>, sep: char)
    requires |xs| >= 1
    requires forall i :: 0 <= i < |xs| ==> sep !in xs[i]
    ensures Split(Join(xs, sep), sep) == xs
    decreases |xs|
  {
    if |xs| == 1 {
      SplitField(xs[0], sep, None);
    } else {
      SplitJoin(xs[1..], sep);
      SplitField(xs[0], sep, Some(Join(xs[1..], sep)));
    }
  }

  /** The length of the leading run of non-whitespace characters. */
  function NonSpacePrefix(s: string): (n: nat)
    ensures n <= |s|
    ensures s != [] && !IsSpace(s[0]) ==> n >= 1
    decreases |s|
  {
    if s == [] || IsSpace(s[0]) then 0 else 1 + NonSpacePrefix(s[1..])
  }

  /** `s.split()`: the maximal runs of non-whitespace characters. */
  function Words(s: string): seq<string>
    decreases |s|
  {
    if s == [] then []
    else if IsSpace(s[0]) then Words(s[1..])
    else
      var n := NonSpacePrefix(s);
      [s[..n]] + Words(s[n..])
  }

  predicate StartsWith(s: string, prefix: string) {
    |prefix| <= |s| && s[..|prefix|] == prefix
  }

  /** Python's `sub in s` */
  predicate Contains(s: string, sub: string)
    decreases |s|
  {
    StartsWith(s, sub) || (s != [] && Contains(s[1..], sub))
  }

  lemma {:induction false} ContainsAt(s: string, sub: string, i: nat)
    requires i + |sub| <= |s| && s[i..i + |sub|] == sub
    ensures Contains(s, sub)
    decreases i
  {
    if i > 0 {
      assert s[1..][i - 1..i - 1 + |sub|] == s[i..i + |sub|];
      ContainsAt(s[1..], sub, i - 1);
    }
  }

  /** `s.replace(pattern, replacement)`: every non-overlapping occurrence, left to right. */
  function ReplaceAll(s: string, pattern: string, replacement: string): string
    requires pattern != []
    decreases |s|
  {
    if s == [] then []
    else if StartsWith(s, pattern) then replacement + ReplaceAll(s[|pattern|..], pattern, replacement)
    else [s[0]] + ReplaceAll(s[1..], pattern, replacement)
  }

  /** Replacing leaves a text alone when the pattern's first character does not occur in it. */
  lemma {:induction false} ReplaceAllAbsent(s: string, pattern: string, replacement: string)
    requires pattern != [] && pattern[0] !in s
    ensures ReplaceAll(s, pattern, replacement) == s
    decreases |s|
  {
    if s != [] {
      assert s[0] != pattern[0];
      assert pattern[0] !in s[1..];
      ReplaceAllAbsent(s[1..], pattern, replacement);
    }
  }

  /** Replacing in `s + t`, with no pattern character in `s`, leaves `s` as it is. */
  lemma {:induction false} ReplaceAllPrefixFree(s: string, t: string, pattern: string, replacement: string)
    requires pattern != [] && pattern[0] !in s
    ensures ReplaceAll(s + t, pattern, replacement) == s + ReplaceAll(t, pattern, replacement)
    decreases |s|
  {
    if s == [] {
      assert s + t == t;
    } else {
      var u := s + t;
      assert u[0] != pattern[0];
      assert u[1..] == s[1..] + t;
      assert pattern[0] !in s[1..];
      ReplaceAllPrefixFree(s[1..], t, pattern, replacement);
    }
  }

  /** In `s + pattern`, with no pattern character in `s`, only the final occurrence is replaced. */
  lemma {:induction false} ReplaceAllSuffix(s: string, pattern: string, replacement: string)
    requires pattern != [] && pattern[0] !in s
    ensures ReplaceAll(s + pattern, pattern, replacement) == s + replacement
    decreases |s|
  {
    var t := s + pattern;
    if s == [] {
      assert t[..|pattern|] == pattern;
      assert t[|pattern|..] == [];
    } else {
      assert t[0] != pattern[0];
      assert t[1..] == s[1..] + pattern;
      assert pattern[0] !in s[1..];
      ReplaceAllSuffix(s[1..], pattern, replacement);
    }
  }

  predicate IsDigit(c: char) {
    '0' <= c <= '9'
  }

  predicate AllDigits(s: string) {
    forall i :: 0 <= i < |s| ==> IsDigit(s[i])
  }

  function DigitValue(c: char): nat
    requires IsDigit(c)
  {
    c as int - '0' as int
  }

  function DigitChar(d: nat): (c: char)
    requires d < 10
    ensures IsDigit(c) && DigitValue(c) == d
  {
    ('0' as int + d) as char
  }

  /** The value of a string of decimal digits (leading zeros allowed). */
  function DecimalValue(s: string): nat
    requires AllDigits(s)
    decreases |s|
  {
    if s == [] then 0 else DecimalValue(s[..|s| - 1]) * 10 + DigitValue(s[|s| - 1])
  }

  /** `str(n)` for a natural number. */
  function NatToString(n: nat): (r: string)
    ensures |r| >= 1 && AllDigits(r)
    ensures n >= 10 ==> |r| >= 2
    decreases n
  {
    if n < 10 then [DigitChar(n)] else NatToString(n / 10) + [DigitChar(n % 10)]
  }

  /** `str(i)` for an integer. */
  function IntToString(i: int): string {
    if i < 0 then "-" + NatToString(-i) else NatToString(i)
  }

  lemma {:induction false} DecimalValueOfNatToString(n: nat)
    ensures DecimalValue(NatToString(n)) == n
    decreases n
  {
    var s := NatToString(n);
    if n < 10 {
      assert s[..|s| - 1] == [];
    } else {
      assert s[..|s| - 1] == NatToString(n / 10);
      DecimalValueOfNatToString(n / 10);
    }
  }

  /** Different numbers print differently. */
  lemma NatToStringInjective(m: nat, n: nat)
    requires NatToString(m) == NatToString(n)
    ensures m == n
  {
    DecimalValueOfNatToString(m);
    DecimalValueOfNatToString(n);
  }

  lemma IntToStringNoSpace(i: int)
    ensures NoSpace(IntToString(i))
  {
    var s := IntToString(i);
    forall k | 0 <= k < |s| ensures !IsSpace(s[k]) {
      if i < 0 && k > 0 {
        assert s[k] == NatToString(-i)[k - 1];
      }
    }
  }

  /** `str(i)` holds only digits and a leading minus sign. */
  lemma IntToStringChars(i: int)
    ensures forall k :: 0 <= k < |IntToString(i)| ==> IntToString(i)[k] == '-' || IsDigit(IntToString(i)[k])
  {
    var s := IntToString(i);
    forall k | 0 <= k < |s| ensures s[k] == '-' || IsDigit(s[k]) {
      if i < 0 && k > 0 {
        assert s[k] == NatToString(-i)[k - 1];
      }
    }
  }

  /** Different integers print differently. */
  lemma IntToStringInjective(i: int, j: int)
    requires IntToString(i) == IntToString(j)
    ensures i == j
  {
    PyIntOfIntToString(i);
    PyIntOfIntToString(j);
  }

  /**
   * The digit part of Python's `int()` literal: digits, where single
   * underscores may separate two digits.
   */
  predicate IsDigitGroups(b: string)
    decreases |b|
  {
    && |b| >= 1
    && IsDigit(b[0])
    && (|b| == 1 || IsDigitGroups(b[1..]) || (b[1] == '_' && IsDigitGroups(b[2..])))
  }

  function RemoveUnderscores(b: string): (r: string)
    ensures (forall i :: 0 <= i < |b| ==> IsDigit(b[i]) || b[i] == '_') ==> AllDigits(r)
    ensures AllDigits(b) ==> r == b
    decreases |b|
  {
    if b == [] then []
    else if b[0] == '_' then RemoveUnderscores(b[1..])
    else [b[0]] + RemoveUnderscores(b[1..])
  }

  lemma {:induction false} DigitGroupsChars(b: string)
    requires IsDigitGroups(b)
    ensures forall i :: 0 <= i < |b| ==> IsDigit(b[i]) || b[i] == '_'
    decreases |b|
  {
    if |b| > 1 {
      if IsDigitGroups(b[1..]) {
        DigitGroupsChars(b[1..]);
        assert forall i :: 1 <= i < |b| ==> b[i] == b[1..][i - 1];
      } else {
        DigitGroupsChars(b[2..]);
        assert forall i :: 2 <= i < |b| ==> b[i] == b[2..][i - 2];
      }
    }
  }

  lemma {:induction false} AllDigitsAreDigitGroups(b: string)
    requires |b| >= 1 && AllDigits(b)
    ensures IsDigitGroups(b)
    decreases |b|
  {
    if |b| > 1 {
      AllDigitsAreDigitGroups(b[1..]);
    }
  }

  function DigitGroupsValue(b: string): Option<nat> {
    if IsDigitGroups(b) then
      DigitGroupsChars(b);
      Some(DecimalValue(RemoveUnderscores(b)))
    else None
  }

  /**
   * Python's `int(s)` in base 10: surrounding whitespace, an optional sign,
   * then digits with single underscores allowed between digits.
   */
  function PyInt(s: string): Option<int> {
    var t := Strip(s);
    if t != [] && (t[0] == '+' || t[0] == '-') then
      var v := DigitGroupsValue(t[1..]);
      if v.None? then None
      else
        var n: int := v.value;
        Some(if t[0] == '-' then -n else n)
    else
      var v := DigitGroupsValue(t);
      if v.None? then None else Some(v.value)
  }

  /** `int(str(i)) == i` */
  lemma PyIntOfIntToString(i: int)
    ensures PyInt(IntToString(i)) == Some(i)
  {
    var s := IntToString(i);
    IntToStringNoSpace(i);
    StripOfNoSpace(s);
    var n: nat := if i < 0 then -i else i;
    var digits := NatToString(n);
    AllDigitsAreDigitGroups(digits);
    DecimalValueOfNatToString(n);
    if i < 0 {
      assert s[1..] == digits;
    } else {
      assert s == digits;
    }
  }

  /** `int()` of a plain run of digits is its decimal value. */
  lemma PyIntOfDigits(s: string)
    requires |s| >= 1 && AllDigits(s)
    ensures PyInt(s) == Some(DecimalValue(s) as int)
  {
    assert IsDigit(s[0]);
    DigitsNoSpace(s);
    StripOfNoSpace(s);
    AllDigitsAreDigitGroups(s);
    assert RemoveUnderscores(s) == s;
    assert DigitGroupsValue(s) == Some(DecimalValue(s));
  }

  lemma DigitsNoSpace(s: string)
    requires AllDigits(s)
    ensures NoSpace(s)
  {
    forall k | 0 <= k < |s| ensures !IsSpace(s[k]) {
      assert IsDigit(s[k]);
    }
  }

  /** Text comparison of SQLite's BINARY collation: code point by code point. */
  predicate LexLe(a: string, b: string)
    decreases |a|
  {
    a == [] || (b != [] && (a[0] < b[0] || (a[0] == b[0] && LexLe(a[1..], b[1..]))))
  }

  lemma {:induction false} LexLeTotal(a: string, b: string)
    ensures LexLe(a, b) || LexLe(b, a)
    decreases |a|
  {
    if a != [] && b != [] && a[0] == b[0] {
      LexLeTotal(a[1..], b[1..]);
    }
  }

  lemma {:induction false} LexLeTransitive(a: string, b: string, c: string)
    requires LexLe(a, b) && LexLe(b, c)
    ensures LexLe(a, c)
    decreases |a|
  {
    if a != [] && a[0] == b[0] && b[0] == c[0] {
      LexLeTransitive(a[1..], b[1..], c[1..]);
    }
  }

  lemma {:induction false} LexLeAntisymmetric(a: string, b: string)
    requires LexLe(a, b) && LexLe(b, a)
    ensures a == b
    decreases |a|
  {
    if a != [] {
      LexLeAntisymmetric(a[1..], b[1..]);
      assert a == [a[0]] + a[1..];
      assert b == [b[0]] + b[1..];
    }
  }
}
