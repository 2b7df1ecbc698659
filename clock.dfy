/**
  * Local wall-clock arithmetic as the attendance handlers use it through
  * dayjs: the weekday name of an instant (`format("dddd")`), the instant at a
  * given hour and minute of the same day (`set("hour", h).set("minute", m)`
  * with seconds and milliseconds zeroed), and the `"HH:MM"` parsing
  * `text.split(":").map(Number)`.
  */
module Clock {
  import opened Base

  const MsPerMinute: int := 60000
  const MsPerHour: int := 3600000
  const MsPerDay: int := 86400000

  /** The English names dayjs prints for `dddd`, Sunday first. */
  const DayNames: seq<string> :=
    ["Sunday", "Monday", "Tuesday", "Wednesday", "Thursday", "Friday", "Saturday"]

  /** Day of the week, 0 = Sunday; day 0 of the epoch was a Thursday. */
  function Weekday(t: Instant): (w: nat)
    ensures w < 7
  {
    (t / MsPerDay + 4) % 7
  }

  /** `dayjs(t).format("dddd")`. */
  function DayName(t: Instant): (d: string)
    ensures d in DayNames
    ensures '_' !in d
  {
    DayNames[Weekday(t)]
  }

  /** Midnight of the calendar day that contains `t`. */
  function StartOfDay(t: Instant): (d: Instant)
    ensures d <= t < d + MsPerDay
    ensures d % MsPerDay == 0
    ensures d / MsPerDay == t / MsPerDay
  {
    (t / MsPerDay) * MsPerDay
  }

  /**
    * The instant `dayjs(t).set("hour", h).set("minute", m).set("second", 0)
    * .set("millisecond", 0)`: JavaScript dates carry out-of-range hours and
    * minutes into the neighbouring days, so the result is plain arithmetic.
    */
  function AtClock(t: Instant, h: int, m: int): (r: Instant)
    ensures r % MsPerMinute == 0
    ensures 0 <= h < 24 && 0 <= m < 60 ==>
              r / MsPerDay == t / MsPerDay && r % MsPerDay == h * MsPerHour + m * MsPerMinute
  {
    var q := t / MsPerDay;
    var r := q * MsPerDay + h * MsPerHour + m * MsPerMinute;
    WholeMinutes(1440 * q + 60 * h + m);
    assert 0 <= h < 24 && 0 <= m < 60 ==>
             (r / MsPerDay == q && r % MsPerDay == h * MsPerHour + m * MsPerMinute) by {
      if 0 <= h < 24 && 0 <= m < 60 {
        WithinDay(q, h * MsPerHour + m * MsPerMinute);
      }
    }
    r
  }

  lemma WholeMinutes(k: int)
    ensures (MsPerMinute * k) % MsPerMinute == 0
  {
  }

  lemma WithinDay(q: int, s: int)
    requires 0 <= s < MsPerDay
    ensures (q * MsPerDay + s) / MsPerDay == q && (q * MsPerDay + s) % MsPerDay == s
  {
  }

  /**
    * JavaScript `Number(s)` on the strings a schedule holds: the empty string
    * is 0, a string of decimal digits is its value, anything else is NaN
    * (None).
    */
  function ParseNumber(s: string): Option<nat>
  {
    if s == "" then Some(0) else if AllDigits(s) then Some(NumeralValue(s)) else None
  }

  /**
    * `const [h, m] = text.split(":").map(Number)`: the first two fields as
    * hours and minutes; a missing minutes field is `undefined`, hence NaN.
    */
  function ParseClock(text: string): Option<(nat, nat)>
  {
    var fields := Split(text, ':');
    var h := ParseNumber(fields[0]);
    var m := if |fields| >= 2 then ParseNumber(fields[1]) else None;
    if h.Some? && m.Some? then Some((h.value, m.value)) else None
  }

  function TwoDigits(n: nat): (s: string)
    requires n < 100
    ensures |s| == 2 && AllDigits(s) && ':' !in s
  {
    [DigitChar(n / 10), DigitChar(n % 10)]
  }

  /** The `"HH:MM"` text a schedule entry is meant to hold. */
  function ClockText(h: nat, m: nat): string
    requires h < 100 && m < 100
  {
    TwoDigits(h) + ":" + TwoDigits(m)
  }

  /** A well-formed `"HH:MM"` parses back to its hours and minutes. */
  lemma {:induction false} ParseClockText(h: nat, m: nat)
    requires h < 100 && m < 100
    ensures ParseClock(ClockText(h, m)) == Some((h, m))
  {
    var a, b := TwoDigits(h), TwoDigits(m);
    assert ClockText(h, m) == a + [':'] + b;
    SplitAfterField(a, ':', b);
    SplitNoSeparator(b, ':');
    assert Split(ClockText(h, m), ':') == [a, b];
    TwoDigitValue(h);
    TwoDigitValue(m);
  }

  lemma TwoDigitValue(n: nat)
    requires n < 100
    ensures ParseNumber(TwoDigits(n)) == Some(n)
  {
    var s := TwoDigits(n);
    assert s[..1][..0] == [];
    assert NumeralValue(s[..1]) == n / 10;
    assert s[..|s| - 1] == s[..1];
  }
}
