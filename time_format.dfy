/**
 * `seconds_to_time`: an integer number of seconds as a zero-padded "MM:SS"
 * clock string, with Python's `divmod` (floor division) and the `02d`
 * format, together with the decimal numerals it is built from and a parser
 * that reads such a string back.
 */
module TimeFormat {
  import opened Wrappers

  predicate IsDigit(c: char) { '0' <= c <= '9' }

  predicate AllDigits(s: string) { forall i :: 0 <= i < |s| ==> IsDigit(s[i]) }

  function DigitChar(d: nat): (c: char)
    requires d < 10
    ensures IsDigit(c)
  {
    ('0' as int + d) as char
  }

  function DigitValue(c: char): (d: nat)
    requires IsDigit(c)
    ensures d < 10 && DigitChar(d) == c
  {
    c as int - '0' as int
  }

  /** `str(n)` for a non-negative integer: its decimal digits without leading zeros. */
  function Decimal(n: nat): (s: string)
    ensures 1 <= |s| && AllDigits(s)
    ensures n < 10 <==> |s| == 1
    ensures |s| == 2 <==> 10 <= n < 100
    ensures n > 0 ==> s[0] != '0'
    decreases n
  {
    if n < 10 then [DigitChar(n)] else Decimal(n / 10) + [DigitChar(n % 10)]
  }

  /** The value of a string of decimal digits, last digit least significant. */
  function ValueOf(s: string): nat
    requires AllDigits(s)
    decreases |s|
  {
    if s == [] then 0 else ValueOf(s[..|s| - 1]) * 10 + DigitValue(s[|s| - 1])
  }

  lemma {:induction false} ValueOfDecimal(n: nat)
    ensures ValueOf(Decimal(n)) == n
    decreases n
  {
    if n >= 10 {
      var d := Decimal(n / 10);
      assert (d + [DigitChar(n % 10)])[..|d|] == d;
      ValueOfDecimal(n / 10);
    }
  }

  /** A leading zero does not change the value of a numeral. */
  lemma {:induction false} LeadingZero(s: string)
    requires AllDigits(s)
    ensures AllDigits("0" + s) && ValueOf("0" + s) == ValueOf(s)
    decreases |s|
  {
    if s != [] {
      var init := s[..|s| - 1];
      assert ("0" + s)[..|s|] == "0" + init;
      LeadingZero(init);
    }
  }

  /** Python's `int()` of a text: an optional sign followed by at least one ASCII digit. */
  function ParseInt(s: string): (r: Option<int>)
    ensures |s| >= 1 && AllDigits(s) ==> r == Some(ValueOf(s))
    ensures |s| >= 2 && s[0] == '-' && AllDigits(s[1..]) ==> r == Some(-(ValueOf(s[1..]) as int))
    ensures |s| >= 2 && s[0] == '+' && AllDigits(s[1..]) ==> r == Some(ValueOf(s[1..]))
    ensures r.Some? <==> (|s| >= 1 && AllDigits(s))
                         || (|s| >= 2 && (s[0] == '-' || s[0] == '+') && AllDigits(s[1..]))
  {
    if |s| >= 2 && s[0] == '-' && AllDigits(s[1..]) then Some(-(ValueOf(s[1..]) as int))
    else if |s| >= 2 && s[0] == '+' && AllDigits(s[1..]) then Some(ValueOf(s[1..]))
    else if |s| >= 1 && AllDigits(s) then Some(ValueOf(s))
    else None
  }

  /**
   * `f"{m:02d}"`: a non-negative value is zero-padded to two digits; a
   * negative one is a minus sign followed by its digits, which already fills
   * the width of two.
   */
  function Pad2(m: int): (s: string)
    ensures |s| >= 2
    ensures m >= 0 ==> AllDigits(s) && ValueOf(s) == m
    ensures 0 <= m < 100 ==> |s| == 2
    ensures m < 0 ==> s[0] == '-' && AllDigits(s[1..])
    ensures m >= 100 ==> s[0] != '0'
    ensures m < 0 ==> s[1] != '0'
    ensures ParseInt(s) == Some(m)
  {
    if m >= 0 then
      var d := Decimal(m);
      ValueOfDecimal(m);
      if |d| < 2 then LeadingZero(d); "0" + d else d
    else
      var d := Decimal(-m);
      ValueOfDecimal(-m);
      assert ("-" + d)[1..] == d;
      "-" + d
  }

  /**
   * `seconds_to_time(seconds)`: minutes and seconds from `divmod(seconds, 60)`,
   * each formatted with `02d` and joined by a colon. The seconds field is
   * always two digits from 00 to 59; the minutes field is all digits, at least
   * two of them, exactly when `seconds` is not negative.
   */
  function SecondsToTime(seconds: int): (r: string)
    ensures |r| >= 5 && r[|r| - 3] == ':'
    ensures 0 <= seconds < 6000 <==> |r| == 5 && AllDigits(r[..2])
    ensures AllDigits(r[|r| - 2..]) && ValueOf(r[|r| - 2..]) == seconds % 60 < 60
    ensures seconds >= 0 <==> AllDigits(r[..|r| - 3])
    ensures ParseInt(r[..|r| - 3]) == Some(seconds / 60)
    ensures seconds >= 6000 ==> r[0] != '0'
    ensures seconds < 0 ==> r[1] != '0'
  {
    var m := seconds / 60;
    var s := seconds % 60;
    var mm := Pad2(m);
    var ss := Pad2(s);
    var r := mm + ":" + ss;
    assert r[..|r| - 3] == mm && r[|r| - 2..] == ss;
    assert m < 0 ==> !IsDigit(r[0]);
    r
  }

  /** Reads a clock string "M:SS" back into a number of seconds (the inverse of SecondsToTime). */
  function ParseTime(t: string): (r: Option<int>)
  {
    if |t| < 4 || t[|t| - 3] != ':' then None
    else
      var mm := t[..|t| - 3];
      var ss := t[|t| - 2..];
      if !AllDigits(ss) || ValueOf(ss) >= 60 then None
      else
        match ParseInt(mm)
        case None => None
        case Some(m) => Some(m * 60 + ValueOf(ss))
  }

  /** ParseTime of a minutes field, a colon and a two-digit seconds field. */
  lemma ParseTimeFields(mm: string, ss: string, m: int, sec: nat)
    requires ParseInt(mm) == Some(m)
    requires |ss| == 2 && AllDigits(ss) && ValueOf(ss) == sec < 60
    ensures ParseTime(mm + ":" + ss) == Some(m * 60 + sec)
  {
    var t := mm + ":" + ss;
    assert t[..|t| - 3] == mm;
    assert t[|t| - 2..] == ss;
  }

  /** Parsing the formatted clock gives back the number of seconds, for every integer. */
  lemma TimeRoundTrip(seconds: int)
    ensures ParseTime(SecondsToTime(seconds)) == Some(seconds)
  {
    var m, sec := seconds / 60, seconds % 60;
    assert SecondsToTime(seconds) == Pad2(m) + ":" + Pad2(sec);
    ParseTimeFields(Pad2(m), Pad2(sec), m, sec);
  }

  /** Worked examples of `seconds_to_time`. */
  lemma TimeExamples()
    ensures SecondsToTime(65) == "01:05"
    ensures SecondsToTime(59) == "00:59"
    ensures SecondsToTime(0) == "00:00"
  {
    assert Decimal(1) == "1" && Decimal(5) == "5";
    assert Decimal(59) == "59";
  }
}
