/**
 * The `%H:%M` rendering of a wall-clock time (zero-padded 24-hour hour,
 * a colon, zero-padded minute), used for the lineup deadline and on each
 * game card, with the reading back of such a string as its inverse.
 */
module ClockText {
  import opened Wrappers

  const MinutesPerDay := 1440

  function Digit(d: int): char
    requires 0 <= d <= 9
  {
    ('0' as int + d) as char
  }

  function DigitValue(c: char): Option<int> {
    if '0' <= c <= '9' then Some(c as int - '0' as int) else None
  }

  function TwoDigits(n: int): string
    requires 0 <= n < 100
  {
    [Digit(n / 10), Digit(n % 10)]
  }

  /**
   * The `%H:%M` rendering of a wall clock given in minutes since the epoch
   * of that clock; only the minute of the day shows.
   */
  function Format(wall: int): (s: string)
    ensures |s| == 5 && s[2] == ':'
  {
    var m := wall % MinutesPerDay;
    TwoDigits(m / 60) + ":" + TwoDigits(m % 60)
  }

  /** Reads "HH:MM" (hour 00-23, minute 00-59) as a minute of the day. */
  function Parse(s: string): Option<int> {
    if |s| != 5 || s[2] != ':' then None
    else match (DigitValue(s[0]), DigitValue(s[1]), DigitValue(s[3]), DigitValue(s[4]))
      case (Some(h1), Some(h0), Some(m1), Some(m0)) =>
        var h := 10 * h1 + h0;
        var m := 10 * m1 + m0;
        if h < 24 && m < 60 then Some(60 * h + m) else None
      case _ => None
  }

  lemma DigitRoundTrip(d: int)
    requires 0 <= d <= 9
    ensures DigitValue(Digit(d)) == Some(d)
  {
  }

  /** The formatted clock reads back as the minute of the day it shows. */
  lemma ParseFormat(wall: int)
    ensures Parse(Format(wall)) == Some(wall % MinutesPerDay)
  {
    var m := wall % MinutesPerDay;
    var h, mm := m / 60, m % 60;
    DigitRoundTrip(h / 10);
    DigitRoundTrip(h % 10);
    DigitRoundTrip(mm / 10);
    DigitRoundTrip(mm % 10);
    var s := Format(wall);
    assert s[0] == Digit(h / 10) && s[1] == Digit(h % 10);
    assert s[3] == Digit(mm / 10) && s[4] == Digit(mm % 10);
  }

  /** Every well-formed "HH:MM" is the rendering of the minute it reads as. */
  lemma FormatParse(s: string)
    requires Parse(s).Some?
    ensures Format(Parse(s).value) == s
  {
    var h1, h0 := DigitValue(s[0]).value, DigitValue(s[1]).value;
    var m1, m0 := DigitValue(s[3]).value, DigitValue(s[4]).value;
    var m := Parse(s).value;
    assert m == 60 * (10 * h1 + h0) + (10 * m1 + m0);
    assert m % MinutesPerDay == m;
    assert m / 60 == 10 * h1 + h0;
    assert m % 60 == 10 * m1 + m0;
    var f := Format(m);
    assert f[0] == Digit(h1) && f[1] == Digit(h0) && f[3] == Digit(m1) && f[4] == Digit(m0);
    assert f == s;
  }

  /** Two wall clocks render alike exactly when they show the same minute of the day. */
  lemma FormatSameMinute(a: int, b: int)
    ensures Format(a) == Format(b) <==> a % MinutesPerDay == b % MinutesPerDay
  {
    ParseFormat(a);
    ParseFormat(b);
  }
}
