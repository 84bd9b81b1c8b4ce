/**
 * String helpers of common/utils.h and common/utils.cpp: whitespace trimming,
 * quote escaping and the ISO 8601 UTC-offset suffix of log timestamps.
 * The C++ helpers edit a std::string in place and return it; here they take
 * the string by value and return the edited string.
 */
module TextUtils {
  import opened Wrappers
  import opened Decimal

  // ---------------------------------------------------------------------------
  // Trimming (ltrim / rtrim / trim)
  // ---------------------------------------------------------------------------

  /** std::isspace in the "C" locale. */
  predicate IsSpace(c: char) {
    c == ' ' || c == '\t' || c == '\n' || c == '\U{0B}' || c == '\U{0C}' || c == '\r'
  }

  /** Every character of s is whitespace. */
  predicate AllSpace(s: string) {
    forall i :: 0 <= i < |s| ==> IsSpace(s[i])
  }

  /** Removes the maximal leading run of whitespace. */
  function StripLeading(s: string): (r: string)
    ensures |r| <= |s| && r == s[|s| - |r|..]
  {
    if s != [] && IsSpace(s[0]) then StripLeading(s[1..]) else s
  }
  /** Removes the maximal trailing run of whitespace. */
  function StripTrailing(s: string): (r: string)
    ensures |r| <= |s| && r == s[..|r|]
  {
    if s != [] && IsSpace(s[|s| - 1]) then StripTrailing(s[..|s| - 1]) else s
  }
  /** StripLeading erases exactly the leading whitespace and nothing more. */
  lemma {:induction false} StripLeadingExact(s: string)
    ensures var r := StripLeading(s);
      AllSpace(s[..|s| - |r|]) && (r != [] ==> !IsSpace(r[0]))
  {
    if s != [] && IsSpace(s[0]) {
      var t := s[1..];
      StripLeadingExact(t);
      var r := StripLeading(t);
      assert s[..|s| - |r|] == [s[0]] + t[..|t| - |r|];
    }
  }
  /** StripTrailing erases exactly the trailing whitespace and nothing more. */
  lemma {:induction false} StripTrailingExact(s: string)
    ensures var r := StripTrailing(s);
      AllSpace(s[|r|..]) && (r != [] ==> !IsSpace(r[|r| - 1]))
  {
    if s != [] && IsSpace(s[|s| - 1]) {
      var t := s[..|s| - 1];
      StripTrailingExact(t);
      var r := StripTrailing(t);
      assert s[|r|..] == t[|r|..] + [s[|s| - 1]];
    }
  }
  /** ltrim: erase from the beginning up to the first non-space character. */
  method LTrim(s: string) returns (r: string)
    ensures r == StripLeading(s)
  {
    var i := 0;
    while i < |s| && IsSpace(s[i])
      invariant 0 <= i <= |s|
      invariant StripLeading(s[i..]) == StripLeading(s)
    {
      assert s[i..][1..] == s[i + 1..];
      i := i + 1;
    }
    r := s[i..];
  }

  /** rtrim: erase from just after the last non-space character to the end. */
  method RTrim(s: string) returns (r: string)
    ensures r == StripTrailing(s)
  {
    var n := |s|;
    assert s[..n] == s;
    while n > 0 && IsSpace(s[n - 1])
      invariant 0 <= n <= |s|
      invariant StripTrailing(s[..n]) == StripTrailing(s)
    {
      assert s[..n][..n - 1] == s[..n - 1];
      n := n - 1;
    }
    r := s[..n];
  }

  /** trim(s) is ltrim(rtrim(s)). */
  method Trim(s: string) returns (r: string)
    ensures r == StripLeading(StripTrailing(s))
  {
    r := RTrim(s);
    r := LTrim(r);
  }

  /**
   * The trimmed string is the contiguous piece s[a..b] of the input with
   * only whitespace cut off either side, and it neither starts nor ends with
   * whitespace.
   */
  lemma TrimIsCore(s: string) returns (a: nat, b: nat)
    ensures a <= b <= |s| && StripLeading(StripTrailing(s)) == s[a..b]
    ensures AllSpace(s[..a]) && AllSpace(s[b..])
    ensures a < b ==> !IsSpace(s[a]) && !IsSpace(s[b - 1])
  {
    var t := StripTrailing(s);
    var r := StripLeading(t);
    StripTrailingExact(s);
    StripLeadingExact(t);
    a, b := |t| - |r|, |t|;
    CoreSlice(s, t, r, a, b);
  }

  /** The slice bookkeeping of TrimIsCore: s[..b] with its first a characters cut. */
  lemma CoreSlice(s: string, t: string, r: string, a: nat, b: nat)
    requires b <= |s| && t == s[..b] && a <= b && r == t[a..]
    requires AllSpace(t[..a]) && (r != [] ==> !IsSpace(r[0]) && !IsSpace(t[b - 1]))
    ensures r == s[a..b] && AllSpace(s[..a])
    ensures a < b ==> !IsSpace(s[a]) && !IsSpace(s[b - 1])
  {
    assert s[..b][a..] == s[a..b];
    assert t[..a] == s[..a];
    if a < b {
      assert r[0] == s[a] && t[b - 1] == s[b - 1];
    }
  }

  /** A string made only of whitespace trims to the empty string. */
  lemma {:induction false} TrimAllSpace(s: string)
    requires AllSpace(s)
    ensures StripTrailing(s) == [] && StripLeading(StripTrailing(s)) == []
  {
    if s != [] {
      TrimAllSpace(s[..|s| - 1]);
    }
  }

  lemma {:induction false} StripLeadingOfClean(s: string)
    requires s == [] || !IsSpace(s[0])
    ensures StripLeading(s) == s
  {
  }

  lemma {:induction false} StripTrailingOfClean(s: string)
    requires s == [] || !IsSpace(s[|s| - 1])
    ensures StripTrailing(s) == s
  {
  }

  /** Trimming twice is the same as trimming once. */
  lemma TrimIdempotent(s: string)
    ensures var r := StripLeading(StripTrailing(s));
      StripLeading(StripTrailing(r)) == r
  {
    var r := StripLeading(StripTrailing(s));
    var a, b := TrimIsCore(s);
    StripTrailingOfClean(r);
    StripLeadingOfClean(r);
  }

  // ---------------------------------------------------------------------------
  // escape_quotes
  // ---------------------------------------------------------------------------

  /** Every '"' replaced by the two characters '\' '"'. */
  function Escaped(s: string): string {
    if s == [] then []
    else (if s[0] == '"' then ['\\', '"'] else [s[0]]) + Escaped(s[1..])
  }

  /** Reading back: the pair '\' '"' stands for '"', any other character for itself. */
  function Unescaped(s: string): string {
    if s == [] then []
    else if |s| >= 2 && s[0] == '\\' && s[1] == '"' then ['"'] + Unescaped(s[2..])
    else [s[0]] + Unescaped(s[1..])
  }

  function CountOf(s: string, c: char): nat {
    if s == [] then 0 else (if s[0] == c then 1 else 0) + CountOf(s[1..], c)
  }

  lemma {:induction false} EscapedShape(s: string)
    ensures |Escaped(s)| == |s| + CountOf(s, '"')
    ensures Escaped(s) != [] ==> Escaped(s)[0] != '"'
    ensures forall i :: 0 <= i < |Escaped(s)| && Escaped(s)[i] == '"' ==> 0 < i && Escaped(s)[i - 1] == '\\'
  {
    if s != [] {
      EscapedShape(s[1..]);
      var head := if s[0] == '"' then ['\\', '"'] else [s[0]];
      assert Escaped(s) == head + Escaped(s[1..]);
      forall i | 0 <= i < |Escaped(s)| && Escaped(s)[i] == '"'
        ensures 0 < i && Escaped(s)[i - 1] == '\\'
      {
        if i >= |head| {
          var j := i - |head|;
          assert Escaped(s[1..])[j] == '"';
        }
      }
    }
  }

  /** escape_quotes loses nothing: unescaping gives the original string back. */
  lemma {:induction false} UnescapeEscaped(s: string)
    ensures Unescaped(Escaped(s)) == s
  {
    if s != [] {
      EscapedShape(s[1..]);
      UnescapeEscaped(s[1..]);
      var rest := Escaped(s[1..]);
      if s[0] == '"' {
        assert Escaped(s) == ['\\', '"'] + rest;
        assert Escaped(s)[2..] == rest;
      } else {
        assert Escaped(s) == [s[0]] + rest;
        assert Escaped(s)[1..] == rest;
      }
    }
  }

  /** escape_quotes: boost::replace_all(str, "\"", "\\\""). */
  method EscapeQuotes(s: string) returns (r: string)
    ensures r == Escaped(s)
    ensures |r| == |s| + CountOf(s, '"') && Unescaped(r) == s
  {
    r := [];
    var i := 0;
    while i < |s|
      invariant 0 <= i <= |s|
      invariant r + Escaped(s[i..]) == Escaped(s)
    {
      assert s[i..][1..] == s[i + 1..];
      if s[i] == '"' {
        r := r + ['\\', '"'];
      } else {
        r := r + [s[i]];
      }
      i := i + 1;
    }
    assert s[i..] == [];
    EscapedShape(s);
    UnescapeEscaped(s);
  }

  // ---------------------------------------------------------------------------
  // timezone_from_minutes_to_iso8601
  // ---------------------------------------------------------------------------

  const INT_MIN: int := -0x8000_0000
  const INT_MAX: int := 0x7FFF_FFFF

  /** A C `int`. */
  type Int32 = x: int | INT_MIN <= x <= INT_MAX

  /** C's `/` on int: the quotient truncated toward zero. */
  function CDiv(a: int, b: int): int
    requires b > 0
  {
    if a >= 0 then a / b else -((-a) / b)
  }

  /** C's `%` on int: the remainder has the sign of the dividend. */
  function CMod(a: int, b: int): int
    requires b > 0
  {
    a - b * CDiv(a, b)
  }

  function Abs(x: int): nat {
    if x < 0 then -x else x
  }

  /**
   * timezone_from_minutes_to_iso8601 as written: "" for bias 0, otherwise a
   * sign, %02d of |bias/60| and, when bias%60 is not zero, %02d of |bias%60|.
   * The sign is '+' only when the truncated hour count is positive.
   */
  function TimezoneToIso8601(bias: Int32): (r: string)
    ensures r == "" <==> bias == 0
    ensures r != "" ==> r[0] == (if CDiv(bias, 60) > 0 then '+' else '-')
  {
    if bias == 0 then ""
    else
      var hours := CDiv(bias, 60);
      var minutes := CMod(bias, 60);
      var sign := if hours > 0 then "+" else "-";
      if minutes != 0 then sign + TwoDigits(Abs(hours)) + TwoDigits(Abs(minutes))
      else sign + TwoDigits(Abs(hours))
  }

  /** The offset suffix computed from the sign of the bias itself. */
  function TimezoneToIso8601Corrected(bias: Int32): string {
    if bias == 0 then ""
    else
      var hours := CDiv(bias, 60);
      var minutes := CMod(bias, 60);
      var sign := if bias > 0 then "+" else "-";
      if minutes != 0 then sign + TwoDigits(Abs(hours)) + TwoDigits(Abs(minutes))
      else sign + TwoDigits(Abs(hours))
  }

  /**
   * Reads an offset in the basic format of ISO 8601 ("+hh", "-hh", "+hhmm",
   * "-hhmm") back into minutes east of UTC; "" is UTC.
   */
  function ParseIso8601Offset(s: string): Option<int> {
    if s == [] then Some(0)
    else if (s[0] == '+' || s[0] == '-') && (|s| == 3 || |s| == 5) && AllDigits(s[1..]) then
      var h := ValueOf(s[1..3]);
      var m := if |s| == 5 then ValueOf(s[3..5]) else 0;
      if m < 60 then Some(if s[0] == '+' then h * 60 + m else -(h * 60 + m)) else None
    else None
  }

  lemma CDivModBounds(bias: int)
    requires bias != 0
    ensures Abs(bias) == 60 * Abs(CDiv(bias, 60)) + Abs(CMod(bias, 60))
    ensures Abs(CMod(bias, 60)) < 60
    ensures bias > 0 ==> CDiv(bias, 60) >= 0 && CMod(bias, 60) >= 0
    ensures bias < 0 ==> CDiv(bias, 60) <= 0 && CMod(bias, 60) <= 0
  {
  }

  lemma ValueOfTwo(s: string)
    requires |s| == 2 && AllDigits(s)
    ensures ValueOf(s) == 10 * DigitValue(s[0]) + DigitValue(s[1])
  {
    assert s[..1] == [s[0]];
    assert ValueOf(s[..1]) == DigitValue(s[0]) by {
      assert s[..1][..0] == [];
    }
  }

  lemma ValueOfConcat2(a: string, b: string)
    requires |a| == 2 && |b| == 2 && AllDigits(a) && AllDigits(b)
    ensures var s := a + b; AllDigits(s) && s[..2] == a && s[2..4] == b
  {
  }

  /**
   * For every offset whose hour count fits two digits, parsing the corrected
   * suffix gives the bias back.
   */
  lemma TimezoneCorrectedRoundTrip(bias: Int32)
    requires Abs(bias) < 6000
    ensures ParseIso8601Offset(TimezoneToIso8601Corrected(bias)) == Some(bias)
  {
    if bias != 0 {
      CDivModBounds(bias);
      var hours := CDiv(bias, 60);
      var minutes := CMod(bias, 60);
      var hh := TwoDigits(Abs(hours));
      var mm := TwoDigits(Abs(minutes));
      var sign := if bias > 0 then "+" else "-";
      var s := TimezoneToIso8601Corrected(bias);
      if minutes != 0 {
        assert s == sign + hh + mm;
        assert s[1..] == hh + mm;
        assert s[1..3] == hh && s[3..5] == mm;
      } else {
        assert s == sign + hh;
        assert s[1..] == hh && s[1..3] == hh;
      }
    }
  }

  /** Where the two agree: zero, negative biases and biases of at least an hour. */
  lemma TimezoneAgreesOutsideFirstHour(bias: Int32)
    requires bias <= 0 || bias >= 60
    ensures TimezoneToIso8601(bias) == TimezoneToIso8601Corrected(bias)
  {
  }

  /** The sign is '+' exactly for offsets of at least one hour east of UTC. */
  lemma TimezoneSign(bias: Int32)
    requires bias != 0
    ensures |TimezoneToIso8601(bias)| >= 3
    ensures TimezoneToIso8601(bias)[0] == '+' <==> bias >= 60
    ensures TimezoneToIso8601(bias)[0] == '-' <==> bias < 60
  {
  }

  /**
   * The suffix as written reads back as the bias for every offset with a
   * two-digit hour count, except positive offsets under one hour.
   */
  lemma TimezoneRoundTrip(bias: Int32)
    requires Abs(bias) < 6000 && !(0 < bias < 60)
    ensures ParseIso8601Offset(TimezoneToIso8601(bias)) == Some(bias)
    ensures bias == 0 <==> TimezoneToIso8601(bias) == ""
  {
    TimezoneAgreesOutsideFirstHour(bias);
    TimezoneCorrectedRoundTrip(bias);
  }

  lemma TwoDigitsThirty()
    ensures TwoDigits(30) == "30"
  {
    assert Digits(3) == "3";
    assert Digits(30) == Digits(3) + [DigitChar(0)];
  }

  lemma ParseMinusThirty()
    ensures ParseIso8601Offset("-0030") == Some(-30)
  {
    var s := "-0030";
    assert s[1..3] == "00" && s[3..5] == "30";
    ValueOfTwo("00");
    ValueOfTwo("30");
  }

  /**
   * As written, a positive offset under one hour is printed with '-': thirty
   * minutes east of UTC comes out as "-0030", which reads back as thirty
   * minutes west.
   */
  lemma TimezoneSignForSubHourOffset()
    ensures TimezoneToIso8601(30) == "-0030"
    ensures ParseIso8601Offset(TimezoneToIso8601(30)) == Some(-30)
  {
    assert CDiv(30, 60) == 0 && CMod(30, 60) == 30;
    assert TwoDigits(0) == "00";
    TwoDigitsThirty();
    ParseMinusThirty();
  }
}
