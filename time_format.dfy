/**
 * The '%02d' and '%02d:%02d' renderings the watch scrolls, and the parser
 * that inverts them.
 */
module TimeFormat {
  import opened Wrappers

  predicate IsDigit(c: char)
  {
    '0' <= c <= '9'
  }

  predicate AllDigits(s: string)
  {
    forall i :: 0 <= i < |s| ==> IsDigit(s[i])
  }

  function DigitChar(d: nat): (c: char)
    requires d < 10
    ensures IsDigit(c) && DigitValue(c) == d
  {
    ('0' as int + d) as char
  }

  function DigitValue(c: char): (d: nat)
    requires IsDigit(c)
    ensures d < 10
  {
    (c as int - '0' as int)
  }

  /** The decimal numeral of n, without leading zeros. */
  function Decimal(n: nat): (s: string)
    ensures 1 <= |s| && AllDigits(s)
    ensures n < 10 <==> |s| == 1
  {
    if n < 10 then [DigitChar(n)] else Decimal(n / 10) + [DigitChar(n % 10)]
  }

  /** The value of a string of decimal digits, most significant first. */
  function ParseDecimal(s: string): nat
    requires AllDigits(s)
  {
    if s == [] then 0 else 10 * ParseDecimal(s[..|s| - 1]) + DigitValue(s[|s| - 1])
  }

  lemma {:induction false} ParseDecimalOfDecimal(n: nat)
    ensures ParseDecimal(Decimal(n)) == n
  {
    var s := Decimal(n);
    if n >= 10 {
      ParseDecimalOfDecimal(n / 10);
      assert s[..|s| - 1] == Decimal(n / 10);
    }
  }

  /** '%02d': the numeral padded on the left with a zero to at least two characters. */
  function ZeroPad2(n: nat): (s: string)
    ensures 2 <= |s|
    ensures n < 100 ==> s == [DigitChar(n / 10), DigitChar(n % 10)]
  {
    var d := Decimal(n);
    if |d| < 2 then
      "0" + d
    else
      assert n < 100 ==> d[..1] == Decimal(n / 10);
      d
  }

  /** The padded numeral is all digits and reads back as n. */
  lemma ParseZeroPad2(n: nat)
    ensures AllDigits(ZeroPad2(n)) && ParseDecimal(ZeroPad2(n)) == n
  {
    var d := Decimal(n);
    ParseDecimalOfDecimal(n);
    if |d| < 2 {
      assert ("0" + d)[..1] == "0";
    }
  }

  /** '%02d:%02d' of the hour and the minute within the hour. */
  function FormatTime(minutes: nat): (s: string)
    ensures 5 <= |s|
  {
    Fields(minutes / 60, minutes % 60)
  }

  /** A minute of the day renders as five characters that parse back to it. */
  lemma ParseOfFormatTime(minutes: nat)
    requires minutes < 1440
    ensures |FormatTime(minutes)| == 5 && FormatTime(minutes)[2] == ':'
    ensures ParseTime(FormatTime(minutes)) == Some(minutes)
  {
    ParseTimeOfFields(minutes / 60, minutes % 60);
  }

  function Fields(hours: nat, minutes: nat): string
  {
    ZeroPad2(hours) + ":" + ZeroPad2(minutes)
  }

  lemma ParseTimeOfFields(hours: nat, minutes: nat)
    requires hours < 24 && minutes < 60
    ensures |Fields(hours, minutes)| == 5 && Fields(hours, minutes)[2] == ':'
    ensures ParseTime(Fields(hours, minutes)) == Some(60 * hours + minutes)
  {
    var s := Fields(hours, minutes);
    assert s == [DigitChar(hours / 10), DigitChar(hours % 10), ':', DigitChar(minutes / 10), DigitChar(minutes % 10)];
  }

  /** Reads back an HH:MM string with HH below 24 and MM below 60 as minutes of the day. */
  function ParseTime(s: string): Option<nat>
  {
    if |s| == 5 && s[2] == ':' && IsDigit(s[0]) && IsDigit(s[1]) && IsDigit(s[3]) && IsDigit(s[4]) then
      var h := 10 * DigitValue(s[0]) + DigitValue(s[1]);
      var m := 10 * DigitValue(s[3]) + DigitValue(s[4]);
      if h < 24 && m < 60 then Some(60 * h + m) else None
    else
      None
  }

  /** '%02d' of a two-digit value gives back its two digits. */
  lemma ZeroPad2OfDigits(tens: char, units: char)
    requires IsDigit(tens) && IsDigit(units)
    ensures ZeroPad2(10 * DigitValue(tens) + DigitValue(units)) == [tens, units]
  {
    var n := 10 * DigitValue(tens) + DigitValue(units);
    assert n / 10 == DigitValue(tens) && n % 10 == DigitValue(units);
    DigitCharOfValue(tens);
    DigitCharOfValue(units);
  }

  lemma DigitCharOfValue(c: char)
    requires IsDigit(c)
    ensures DigitChar(DigitValue(c)) == c
  {
  }

  lemma HourMinuteFields(hours: nat, minutes: nat)
    requires minutes < 60
    ensures (hours * 60 + minutes) / 60 == hours && (hours * 60 + minutes) % 60 == minutes
  {
  }

  /** Parsing then formatting gives the string back, so the two are inverse on HH:MM strings. */
  lemma FormatOfParseTime(s: string)
    requires ParseTime(s).Some?
    ensures ParseTime(s).value < 1440 && FormatTime(ParseTime(s).value) == s
  {
    var h := 10 * DigitValue(s[0]) + DigitValue(s[1]);
    var m := 10 * DigitValue(s[3]) + DigitValue(s[4]);
    assert ParseTime(s) == Some(60 * h + m);
    HourMinuteFields(h, m);
    assert FormatTime(60 * h + m) == Fields(h, m);
    assert Fields(h, m) == s by {
      ZeroPad2OfDigits(s[0], s[1]);
      ZeroPad2OfDigits(s[3], s[4]);
      SplitAtColon(s);
    }
  }

  lemma SplitAtColon(s: string)
    requires |s| == 5 && s[2] == ':'
    ensures s == [s[0], s[1]] + ":" + [s[3], s[4]]
  {
  }

  /** The hour field and the minute field are the ones the minute of the day splits into. */
  lemma FormatTimeFields(minutes: nat)
    requires minutes < 1440
    ensures FormatTime(minutes)[..2] == ZeroPad2(minutes / 60)
    ensures FormatTime(minutes)[3..] == ZeroPad2(minutes % 60)
    ensures ParseDecimal(FormatTime(minutes)[..2]) * 60 + ParseDecimal(FormatTime(minutes)[3..]) == minutes
  {
    ParseTimeOfFields(minutes / 60, minutes % 60);
    ParseZeroPad2(minutes / 60);
    ParseZeroPad2(minutes % 60);
  }
}
