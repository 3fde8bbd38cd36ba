/**
 * The lap-time token parser of app20.py: `M:SS.fff` and plain `SS.fff`
 * tokens become seconds, and every failure becomes an absent value.
 *
 * Python's `int` and `float` are modelled on a plain decimal grammar:
 *   integer := [sign] digit+
 *   decimal := [sign] (digit+ ["." digit*] | "." digit+)
 */
module TimeParser {
  import opened Wrappers
  import opened Text

  predicate IsDigit(c: char) { '0' <= c <= '9' }

  predicate AllDigits(s: string) { forall i :: 0 <= i < |s| ==> IsDigit(s[i]) }

  function DigitValue(c: char): nat
    requires IsDigit(c)
  {
    c as int - '0' as int
  }

  /** The natural number a string of decimal digits denotes (0 for the empty string). */
  function DigitsValue(s: string): nat
    requires AllDigits(s)
    decreases |s|
  {
    if s == [] then 0 else 10 * DigitsValue(s[..|s| - 1]) + DigitValue(s[|s| - 1])
  }

  function Pow10(n: nat): (r: nat)
    ensures r >= 1
  {
    if n == 0 then 1 else 10 * Pow10(n - 1)
  }

  /** An optional leading sign, split off: (negative?, the unsigned rest). */
  function SplitSign(s: string): (bool, string)
  {
    if |s| > 0 && (s[0] == '+' || s[0] == '-') then (s[0] == '-', s[1..]) else (false, s)
  }

  /** Python's `int(s)`, absent where `int` raises. */
  function ParseInt(s: string): (r: Option<int>)
    ensures r.Some? ==> |s| > 0 && ':' !in s && '.' !in s
  {
    var (negative, body) := SplitSign(s);
    if |body| > 0 && AllDigits(body) then
      assert forall i :: 0 < i < |s| ==> s[i] == body[i - (|s| - |body|)];
      Some(if negative then -(DigitsValue(body) as int) else DigitsValue(body))
    else None
  }

  /** The value of the digits after a decimal point: `0.fraction`. */
  function FractionValue(fraction: string): real
    requires AllDigits(fraction)
  {
    DigitsValue(fraction) as real / Pow10(|fraction|) as real
  }

  /** The value of whole digits, a decimal point and fraction digits. */
  function DecimalValue(whole: string, fraction: string): real
    requires AllDigits(whole) && AllDigits(fraction)
  {
    DigitsValue(whole) as real + FractionValue(fraction)
  }

  /** An unsigned decimal: digits, optionally a point and more digits, and at least one digit overall. */
  function ParseUnsignedDecimal(s: string): (r: Option<real>)
    ensures r.Some? ==> ':' !in s
  {
    var k := IndexOf(s, '.');
    if k == |s| then
      if |s| > 0 && AllDigits(s) then Some(DigitsValue(s) as real) else None
    else
      var whole, fraction := s[..k], s[k + 1..];
      if AllDigits(whole) && AllDigits(fraction) && |whole| + |fraction| > 0 then
        assert ':' !in s by {
          forall i | 0 <= i < |s| ensures s[i] != ':' {
            if i < k { assert s[i] == whole[i]; } else if i > k { assert s[i] == fraction[i - k - 1]; }
          }
        }
        Some(DecimalValue(whole, fraction))
      else None
  }

  /** Python's `float(s)`, absent where `float` raises. */
  function ParseFloat(s: string): (r: Option<real>)
    ensures r.Some? ==> ':' !in s
  {
    var (negative, body) := SplitSign(s);
    match ParseUnsignedDecimal(body)
    case None => None
    case Some(v) =>
      assert forall i :: 0 < i < |s| ==> s[i] == body[i - (|s| - |body|)];
      Some(if negative then -v else v)
  }

  /**
   * `parse_lap_time`: a missing cell is absent; a token with exactly one
   * colon is `60 * int(minutes) + float(seconds)`; any other token goes
   * straight to `float`; every failure is absent rather than an exception.
   */
  function ParseLapTime(t: Option<string>): (r: Option<real>)
    ensures t.None? ==> r.None?
    ensures r.Some? ==> Occurrences(t.value, ':') <= 1
  {
    match t
    case None => None
    case Some(s) =>
      var parts := Split(s, ':');
      if |parts| == 2 then
        SplitCount(s, ':');
        match (ParseInt(parts[0]), ParseFloat(parts[1]))
        case (Some(minutes), Some(seconds)) => Some(60.0 * minutes as real + seconds)
        case _ => None
      else
        var r := ParseFloat(s);
        if r.Some? then OccurrencesAbsent(s, ':'); r else r
  }

  // ----- Properties -----

  /** A token with exactly one colon is minutes and seconds, and parses iff both halves do. */
  lemma ParseLapTimeOneColon(minutes: string, seconds: string)
    requires ':' !in minutes && ':' !in seconds
    ensures ParseLapTime(Some(minutes + ":" + seconds)).Some? <==> ParseInt(minutes).Some? && ParseFloat(seconds).Some?
    ensures ParseLapTime(Some(minutes + ":" + seconds)).Some? ==>
      ParseLapTime(Some(minutes + ":" + seconds)).value == 60.0 * ParseInt(minutes).value as real + ParseFloat(seconds).value
  {
    SplitJoin([minutes, seconds], ':');
    assert Join([minutes, seconds], ':') == minutes + ":" + seconds;
  }

  /** A colon-free token parses exactly as Python's `float` would. */
  lemma ParseLapTimeNoColon(s: string)
    requires ':' !in s
    ensures ParseLapTime(Some(s)) == ParseFloat(s)
  {
    OccurrencesAbsent(s, ':');
  }

  // ----- Round trip with the timing page's own `M:SS.fff` format -----

  /** Decimal digits of a natural number, most significant first, no leading zeros. */
  function NatToDigits(n: nat): (s: string)
    ensures |s| > 0 && AllDigits(s) && DigitsValue(s) == n
    ensures '.' !in s && ':' !in s && s[0] != '+' && s[0] != '-'
    decreases n
  {
    var d := ['0' + (n % 10) as char];
    if n < 10 then
      assert DigitsValue(d) == DigitsValue(d[..0]) * 10 + n;
      d
    else
      var s := NatToDigits(n / 10) + d;
      assert s[..|s| - 1] == NatToDigits(n / 10);
      s
  }

  /** A lap time as the timing page prints it: minutes, colon, whole seconds, point, fraction digits. */
  function FormatLapTime(minutes: nat, seconds: nat, fraction: string): string
  {
    NatToDigits(minutes) + ":" + NatToDigits(seconds) + "." + fraction
  }

  /** `int` reads back a printed natural number. */
  lemma ParseIntDigits(n: nat)
    ensures ParseInt(NatToDigits(n)) == Some(n)
  {
    var d := NatToDigits(n);
    assert SplitSign(d) == (false, d);
  }

  /** An integer as Python prints it: a minus sign for a negative number, then its digits. */
  function IntToDigits(n: int): string
  {
    if n < 0 then "-" + NatToDigits(-n) else NatToDigits(n)
  }

  /** `int` reads back every printed integer, negative ones included. */
  lemma ParseIntSigned(n: int)
    ensures ParseInt(IntToDigits(n)) == Some(n)
  {
    if n < 0 {
      var d := NatToDigits(-n);
      assert SplitSign("-" + d) == (true, d);
    } else {
      ParseIntDigits(n);
    }
  }

  /** An unsigned decimal reads back whole digits, a point and fraction digits. */
  lemma ParseUnsignedDecimalPoint(whole: string, fraction: string)
    requires |whole| > 0 && AllDigits(whole) && AllDigits(fraction)
    ensures ParseUnsignedDecimal(whole + "." + fraction) == Some(DecimalValue(whole, fraction))
  {
    var s := whole + "." + fraction;
    assert '.' !in whole by {
      forall i | 0 <= i < |whole| ensures whole[i] != '.' { assert IsDigit(whole[i]); }
    }
    IndexOfAfter(whole, fraction, '.');
    assert s[..|whole|] == whole;
    assert s[|whole| + 1..] == fraction;
  }

  /** `float` reads back whole seconds, a point and fraction digits. */
  lemma ParseFloatDecimal(whole: nat, fraction: string)
    requires AllDigits(fraction)
    ensures ParseFloat(NatToDigits(whole) + "." + fraction)
         == Some(whole as real + FractionValue(fraction))
  {
    var w := NatToDigits(whole);
    var s := w + "." + fraction;
    ParseUnsignedDecimalPoint(w, fraction);
    assert s[0] == w[0];
    assert SplitSign(s) == (false, s);
  }

  /** `float` reads back a negative decimal: the sign applies to whole seconds and fraction together. */
  lemma ParseFloatNegative(whole: nat, fraction: string)
    requires AllDigits(fraction)
    ensures ParseFloat("-" + NatToDigits(whole) + "." + fraction)
         == Some(-(whole as real + FractionValue(fraction)))
  {
    var body := NatToDigits(whole) + "." + fraction;
    ParseUnsignedDecimalPoint(NatToDigits(whole), fraction);
    assert "-" + NatToDigits(whole) + "." + fraction == "-" + body;
    assert SplitSign("-" + body) == (true, body);
  }

  /** A token made of minutes and seconds that parse on their own parses as `60 * minutes + seconds`. */
  lemma ParseLapTimeParts(t: string, minutes: string, seconds: string, m: int, sec: real)
    requires t == minutes + ":" + seconds
    requires ':' !in minutes && ':' !in seconds
    requires ParseInt(minutes) == Some(m) && ParseFloat(seconds) == Some(sec)
    ensures ParseLapTime(Some(t)) == Some(60.0 * m as real + sec)
  {
    ParseLapTimeOneColon(minutes, seconds);
  }

  /** The printed form splits at its colon into printed minutes and printed seconds. */
  lemma FormatLapTimeParts(minutes: nat, seconds: nat, fraction: string)
    requires AllDigits(fraction)
    ensures FormatLapTime(minutes, seconds, fraction) == NatToDigits(minutes) + ":" + (NatToDigits(seconds) + "." + fraction)
    ensures ':' !in NatToDigits(seconds) + "." + fraction
  {
    assert ':' !in fraction by {
      forall i | 0 <= i < |fraction| ensures fraction[i] != ':' { assert IsDigit(fraction[i]); }
    }
  }

  /** Parsing a printed lap time gives back 60 * minutes + seconds, fraction included. */
  lemma ParseFormattedLapTime(minutes: nat, seconds: nat, fraction: string)
    requires AllDigits(fraction)
    ensures ParseLapTime(Some(FormatLapTime(minutes, seconds, fraction)))
         == Some(60.0 * minutes as real + (seconds as real + FractionValue(fraction)))
  {
    FormatLapTimeParts(minutes, seconds, fraction);
    ParseFloatDecimal(seconds, fraction);
    ParseIntDigits(minutes);
    ParseLapTimeParts(FormatLapTime(minutes, seconds, fraction), NatToDigits(minutes),
                      NatToDigits(seconds) + "." + fraction, minutes, seconds as real + FractionValue(fraction));
  }

  /** `1:23.456` is the printed form of 1 minute, 23 seconds and fraction `456`. */
  lemma FormatLapTimeExample()
    ensures FormatLapTime(1, 23, "456") == "1:23.456"
  {
    assert NatToDigits(1) == "1";
    assert NatToDigits(2) == "2";
    assert NatToDigits(23) == "23";
  }

  /** The fraction digits `456` are 0.456. */
  lemma FractionValueExample()
    ensures FractionValue("456") == 0.456
  {
    assert DigitsValue("4") == 4;
    assert DigitsValue("45") == 45;
    assert DigitsValue("456") == 456;
    assert Pow10(3) == 1000;
  }

  /** `1:23.456` is 83.456 seconds. */
  lemma ParseLapTimeMinutesExample()
    ensures ParseLapTime(Some("1:23.456")) == Some(83.456)
  {
    ParseFormattedLapTime(1, 23, "456");
    FractionValueExample();
    assert ParseLapTime(Some(FormatLapTime(1, 23, "456"))) == Some(83.456);
    FormatLapTimeExample();
  }

  /** `float("45.2")` is 45.2. */
  lemma ParseFloatExample()
    ensures ParseFloat("45.2") == Some(45.2)
  {
    ParseUnsignedDecimalPoint("45", "2");
    assert "45" + "." + "2" == "45.2";
    assert SplitSign("45.2") == (false, "45.2");
    assert DigitsValue("4") == 4;
    assert DigitsValue("45") == 45;
    assert DigitsValue("2") == 2;
  }

  /** `45.2` is 45.2 seconds. */
  lemma ParseLapTimeSecondsExample()
    ensures ParseLapTime(Some("45.2")) == Some(45.2)
  {
    ParseFloatExample();
    ParseLapTimeNoColon("45.2");
  }

  /** A negative minute count is kept: `-1:30` is -60 + 30 = -30 seconds. */
  lemma ParseLapTimeNegativeExample()
    ensures ParseLapTime(Some("-1:30")) == Some(-30.0)
  {
    ParseIntSigned(-1);
    assert IntToDigits(-1) == "-1";
    ParseIntDigits(30);
    assert NatToDigits(3) == "3";
    assert NatToDigits(30) == "30";
    assert SplitSign("30") == (false, "30");
    assert IndexOf("30", '.') == 2;
    assert DigitsValue("3") == 3;
    assert DigitsValue("30") == 30;
    assert ParseFloat("30") == Some(30.0);
    ParseLapTimeParts("-1:30", "-1", "30", -1, 30.0);
  }

  /** An empty cell, a word and a token with two colons are all absent. */
  lemma ParseLapTimeAbsentExamples()
    ensures ParseLapTime(Some("")) == None
    ensures ParseLapTime(Some("abc")) == None
    ensures ParseLapTime(Some("1:2:3")) == None
  {
    ParseLapTimeNoColon("");
    ParseLapTimeNoColon("abc");
    assert SplitSign("abc") == (false, "abc");
    assert IndexOf("abc", '.') == 3;
    assert !IsDigit('a');
    assert Occurrences("1:2:3", ':') == 2;
  }
}
