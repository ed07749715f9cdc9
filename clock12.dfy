/**
 * The two 12-hour clock formatters of app.js (`formatHour12` and `formatTime12Hour`),
 * over JavaScript's decimal rendering of a non-negative integer, together with the
 * parsers that read their strings back, so that each format is shown to lose nothing.
 */
module Clock12 {
  import opened Wrappers

  predicate IsDigit(c: char) {
    '0' <= c <= '9'
  }

  predicate AllDigits(s: string) {
    forall i :: 0 <= i < |s| ==> IsDigit(s[i])
  }

  /** The character of a decimal digit. */
  function DigitChar(d: nat): (c: char)
    requires d < 10
    ensures IsDigit(c) && c as int - '0' as int == d
  {
    ('0' as int + d) as char
  }

  /** JavaScript's `String(n)` for a non-negative integer: its decimal digits, no leading zero. */
  function Digits(n: nat): (r: string)
    ensures |r| >= 1 && AllDigits(r)
    ensures (r[0] == '0') == (n == 0)
    decreases n
  {
    if n < 10 then [DigitChar(n)] else Digits(n / 10) + [DigitChar(n % 10)]
  }

  /** The number a string of decimal digits denotes. */
  function ValueOf(s: string): nat
    requires AllDigits(s)
    decreases |s|
  {
    if s == [] then 0 else ValueOf(s[..|s| - 1]) * 10 + (s[|s| - 1] as int - '0' as int)
  }

  /** Reads a non-empty run of decimal digits; anything else is `None`. */
  function ParseNat(s: string): Option<nat> {
    if |s| > 0 && AllDigits(s) then Some(ValueOf(s)) else None
  }

  lemma {:induction false} DigitsRoundTrip(n: nat)
    ensures ParseNat(Digits(n)) == Some(n)
    decreases n
  {
    var r := Digits(n);
    if n >= 10 {
      DigitsRoundTrip(n / 10);
      assert r[..|r| - 1] == Digits(n / 10);
      assert ValueOf(r) == ValueOf(Digits(n / 10)) * 10 + n % 10;
    }
  }

  lemma {:induction false} DigitsLength(n: nat)
    ensures n < 10 ==> |Digits(n)| == 1
    ensures 10 <= n < 100 ==> |Digits(n)| == 2
  {
    if n >= 10 {
      assert n / 10 < 10 ==> |Digits(n / 10)| == 1;
    }
  }

  /** `hour % 12`, with 0 shown as 12 (app.js:254-255 and 263-264). */
  function DisplayHour(hour: nat): (d: nat)
    ensures 1 <= d <= 12
    ensures d % 12 == hour % 12
  {
    if hour % 12 == 0 then 12 else hour % 12
  }

  /** `hour >= 12 ? 'PM' : 'AM'`. */
  function Meridiem(hour: nat): (r: string)
    ensures |r| == 2 && r[1] == 'M'
    ensures r[0] == 'A' <==> hour < 12
    ensures r[0] == 'P' <==> hour >= 12
  {
    if hour >= 12 then "PM" else "AM"
  }

  /** `minutes < 10 ? '0' + minutes : minutes` (app.js:256). */
  function MinuteField(minutes: nat): (r: string)
    ensures minutes < 100 ==> |r| == 2 && ParseNat(r) == Some(minutes)
  {
    DigitsLength(minutes);
    DigitsRoundTrip(minutes);
    if minutes < 10 then
      var r := "0" + Digits(minutes);
      assert r[..|r| - 1] == "0" && ValueOf("0") == 0;
      assert ValueOf(r) == ValueOf(r[..|r| - 1]) * 10 + (r[|r| - 1] as int - '0' as int);
      r
    else
      Digits(minutes)
  }

  /** `formatHour12(hour)`: "12 AM", "1 AM", ..., "12 PM", ..., "11 PM". */
  function FormatHour12(hour: nat): (r: string)
    ensures |r| >= 4
    ensures r[|r| - 3..] == (if hour < 12 then " AM" else " PM")
    ensures ParseNat(r[..|r| - 3]) == Some(DisplayHour(hour))
    ensures hour == 0 ==> r == "12 AM"
    ensures hour == 12 ==> r == "12 PM"
    ensures r[0] != '0'
  {
    DigitsRoundTrip(DisplayHour(hour));
    var r := Digits(DisplayHour(hour)) + " " + Meridiem(hour);
    assert r[..|r| - 3] == Digits(DisplayHour(hour));
    assert r[|r| - 3..] == " " + Meridiem(hour);
    r
  }

  /** `formatTime12Hour` on the hours and minutes of a date: "3:07 PM". */
  function FormatTime12Hour(hours: nat, minutes: nat): (r: string)
    ensures minutes < 100 ==> |r| >= 7
    ensures minutes < 100 ==> r[|r| - 6] == ':' && r[|r| - 3..] == (if hours < 12 then " AM" else " PM")
    ensures minutes < 100 ==> ParseNat(r[..|r| - 6]) == Some(DisplayHour(hours))
    ensures |r| > 0 && r[0] != '0'
  {
    DigitsRoundTrip(DisplayHour(hours));
    var h := Digits(DisplayHour(hours));
    var r := h + ":" + MinuteField(minutes) + " " + Meridiem(hours);
    assert minutes < 100 ==> r[..|r| - 6] == h;
    assert r[|r| - 3..] == " " + Meridiem(hours);
    r
  }

  /** The 24-hour clock hour of a 12-hour display hour (1..12) and its half of the day. */
  function To24(display: nat, pm: bool): nat {
    (if display == 12 then 0 else display) + (if pm then 12 else 0)
  }

  /** Reads a `FormatHour12` string back as a 0..23 hour. */
  function ParseHour12(s: string): Option<nat> {
    if |s| >= 4 && (s[|s| - 3..] == " AM" || s[|s| - 3..] == " PM") then
      match ParseNat(s[..|s| - 3])
      case Some(d) => if 1 <= d <= 12 then Some(To24(d, s[|s| - 3..] == " PM")) else None
      case None => None
    else None
  }

  /** Reads a `FormatTime12Hour` string back as a 0..23 hour and a minute. */
  function ParseTime12(s: string): Option<(nat, nat)> {
    if |s| >= 7 && s[|s| - 6] == ':' && (s[|s| - 3..] == " AM" || s[|s| - 3..] == " PM") then
      match (ParseNat(s[..|s| - 6]), ParseNat(s[|s| - 5..|s| - 3]))
      case (Some(d), Some(m)) =>
        if 1 <= d <= 12 then Some((To24(d, s[|s| - 3..] == " PM"), m)) else None
      case _ => None
    else None
  }

  /** Every hour of the day has its own tag, and the tag names it. */
  lemma FormatHour12RoundTrip(hour: nat)
    requires hour < 24
    ensures ParseHour12(FormatHour12(hour)) == Some(hour)
  {
  }

  lemma FormatHour12Injective(h1: nat, h2: nat)
    requires h1 < 24 && h2 < 24 && FormatHour12(h1) == FormatHour12(h2)
    ensures h1 == h2
  {
    FormatHour12RoundTrip(h1);
    FormatHour12RoundTrip(h2);
  }

  /** Hours and minutes of the day come back out of their 12-hour rendering. */
  lemma FormatTime12RoundTrip(hours: nat, minutes: nat)
    requires hours < 24 && minutes < 60
    ensures ParseTime12(FormatTime12Hour(hours, minutes)) == Some((hours, minutes))
  {
    var h := Digits(DisplayHour(hours));
    var mm := MinuteField(minutes);
    var s := FormatTime12Hour(hours, minutes);
    DigitsRoundTrip(DisplayHour(hours));
    assert s[..|s| - 6] == h;
    assert s[|s| - 5..|s| - 3] == mm;
  }

  /**
   * `formatTime12Hour` writes the same hour and AM/PM as `formatHour12`, with ":mm"
   * put between them.
   */
  lemma Time12ExtendsHour12(hours: nat, minutes: nat)
    ensures var tag := FormatHour12(hours);
      FormatTime12Hour(hours, minutes) == tag[..|tag| - 3] + ":" + MinuteField(minutes) + tag[|tag| - 3..]
  {
    var tag := FormatHour12(hours);
    assert tag[..|tag| - 3] == Digits(DisplayHour(hours));
    assert tag[|tag| - 3..] == " " + Meridiem(hours);
  }
}
