/** Instants and the `%Y%m%dT%H%MZ` timestamps the log files are named by.

    An instant is a whole number of microseconds since 1970-01-01T00:00, the
    naive UTC datetimes of the source. A timestamp string is what
    `strftime('%Y%m%dT%H%MZ')` writes and `strptime(dt, '%Y%m%dT%H%MZ')` reads
    back; Civil is the calendar reading of an instant down to the minute. */
module Timestamp {
  import opened Wrappers
  import opened Text

  const MicrosPerSecond: int := 1_000_000
  const MicrosPerMinute: int := 60 * MicrosPerSecond
  const MicrosPerHour: int := 60 * MicrosPerMinute
  const MicrosPerDay: int := 24 * MicrosPerHour

  /** `datetime.min` and `datetime.max`, 0001-01-01T00:00 and
      9999-12-31T23:59:59.999999: 719162 days before the epoch and one
      microsecond short of 2932897 days after it. */
  const MinInstant: int := -719162 * MicrosPerDay
  const MaxInstant: int := 2932897 * MicrosPerDay - 1

  /** The instants a `datetime` can hold; arithmetic that leaves them raises
      OverflowError. */
  predicate InDatetimeRange(t: int) {
    MinInstant <= t <= MaxInstant
  }

  datatype Civil = Civil(year: int, month: int, day: int, hour: int, minute: int)

  predicate IsLeap(y: int) {
    y % 4 == 0 && (y % 100 != 0 || y % 400 == 0)
  }

  function DaysInMonth(y: int, m: int): int
    requires 1 <= m <= 12
  {
    if m == 2 then (if IsLeap(y) then 29 else 28)
    else if m == 4 || m == 6 || m == 9 || m == 11 then 30
    else 31
  }

  /** The dates `datetime` accepts (years 1 to 9999), at a whole minute. */
  predicate ValidCivil(c: Civil) {
    && 1 <= c.year <= 9999
    && 1 <= c.month <= 12
    && 1 <= c.day <= DaysInMonth(c.year, c.month)
    && 0 <= c.hour < 24
    && 0 <= c.minute < 60
  }

  /** The proleptic Gregorian date and the time of day of an instant
      (days-to-civil conversion of H. Hinnant's date algorithms). */
  function CivilFromInstant(t: int): (c: Civil)
    ensures 0 <= c.hour < 24 && 0 <= c.minute < 60
  {
    var days := t / MicrosPerDay;
    var inDay := t % MicrosPerDay;
    var z := days + 719468;
    var era := z / 146097;
    var doe := z - era * 146097;
    var yoe := (doe - doe / 1460 + doe / 36524 - doe / 146096) / 365;
    var doy := doe - (365 * yoe + yoe / 4 - yoe / 100);
    var mp := (5 * doy + 2) / 153;
    var d := doy - (153 * mp + 2) / 5 + 1;
    var m := if mp < 10 then mp + 3 else mp - 9;
    var y := yoe + era * 400 + (if m <= 2 then 1 else 0);
    Civil(y, m, d, inDay / MicrosPerHour, inDay % MicrosPerHour / MicrosPerMinute)
  }

  /** The first instant of the range reads as the first minute of year 1. */
  lemma DatetimeMin()
    ensures CivilFromInstant(MinInstant) == Civil(1, 1, 1, 0, 0)
  {
    assert MicrosPerDay == 86_400_000_000;
    assert MinInstant / MicrosPerDay == -719162 && MinInstant % MicrosPerDay == 0;
    // -719162 + 719468 = 306 days into era 0, which the March-based count makes January 1 of year 1
    assert 306 / 146097 == 0;
    assert (306 - 306 / 1460 + 306 / 36524 - 306 / 146096) / 365 == 0;
    assert (5 * 306 + 2) / 153 == 10 && (153 * 10 + 2) / 5 == 306;
  }

  /** The last instant of the range reads as the last minute of year 9999. */
  lemma DatetimeMax()
    ensures CivilFromInstant(MaxInstant) == Civil(9999, 12, 31, 23, 59)
  {
    assert MicrosPerDay == 86_400_000_000;
    assert MaxInstant / MicrosPerDay == 2932896 && MaxInstant % MicrosPerDay == MicrosPerDay - 1;
    // 2932896 + 719468 days fall in era 24, at day 146036 of its 146097
    assert 3652364 / 146097 == 24 && 3652364 - 24 * 146097 == 146036;
    assert (146036 - 146036 / 1460 + 146036 / 36524 - 146036 / 146096) / 365 == 399;
    assert (5 * 305 + 2) / 153 == 9 && (153 * 9 + 2) / 5 == 275;
    assert (MicrosPerDay - 1) / MicrosPerHour == 23;
    assert (MicrosPerDay - 1) % MicrosPerHour / MicrosPerMinute == 59;
  }

  function DigitChar(d: int): (c: char)
    requires 0 <= d < 10
    ensures IsDigit(c) && DigitValue(c) == d
  {
    ('0' as int + d) as char
  }

  /** The last `width` decimal digits of `n`, zero-padded (`%02d`, `%04d`).
      Only non-negative numbers are ever written. */
  function Pad(n: int, width: nat): (s: string)
    ensures |s| == width
    ensures AllDigits(s)
    decreases width
  {
    if width == 0 then "" else Pad(n / 10, width - 1) + [DigitChar(n % 10)]
  }

  lemma {:induction false} DigitsValueSnoc(ds: string, c: char)
    requires AllDigits(ds) && IsDigit(c)
    ensures AllDigits(ds + [c])
    ensures DigitsValue(ds + [c]) == DigitsValue(ds) * 10 + DigitValue(c)
  {
    assert (ds + [c])[..|ds|] == ds;
  }

  /** Reading back a padded number gives the number, when it fits the width. */
  lemma {:induction false} PadValue(n: int, width: nat)
    requires 0 <= n < Pow10(width)
    decreases width
    ensures DigitsValue(Pad(n, width)) == n
  {
    if width > 0 {
      assert n / 10 < Pow10(width - 1);
      PadValue(n / 10, width - 1);
      DigitsValueSnoc(Pad(n / 10, width - 1), DigitChar(n % 10));
    }
  }

  /** Padding the value of a digit string gives back the digit string. */
  lemma {:induction false} ValuePad(ds: string)
    requires AllDigits(ds)
    ensures Pad(DigitsValue(ds), |ds|) == ds
  {
    if ds != [] {
      var p, c := ds[..|ds| - 1], ds[|ds| - 1];
      ValuePad(p);
      var v := DigitsValue(ds);
      assert v == DigitsValue(p) * 10 + DigitValue(c);
      assert v / 10 == DigitsValue(p) && v % 10 == DigitValue(c);
      assert ds == p + [c];
    }
  }

  /** `strftime('%Y%m%dT%H%MZ')`. */
  function Format(c: Civil): (s: string)
    ensures |s| == 14 && s[8] == 'T' && s[13] == 'Z'
    ensures s[6..8] == Pad(c.day, 2)
  {
    var s := Pad(c.year, 4) + Pad(c.month, 2) + Pad(c.day, 2) + "T" + Pad(c.hour, 2) + Pad(c.minute, 2) + "Z";
    assert s[6..8] == Pad(c.day, 2);
    s
  }

  /** `datetime.strptime(s, '%Y%m%dT%H%MZ')`, with every field written at full
      width: four digits of year, two each of month, day, hour and minute, the
      letters T and Z, and a date and time that exist. */
  function Parse(s: string): (r: Option<Civil>)
    ensures r.Some? ==> ValidCivil(r.value)
  {
    if && |s| == 14 && s[8] == 'T' && s[13] == 'Z'
       && AllDigits(s[0..4]) && AllDigits(s[4..6]) && AllDigits(s[6..8])
       && AllDigits(s[9..11]) && AllDigits(s[11..13])
    then
      var c := Civil(DigitsValue(s[0..4]), DigitsValue(s[4..6]), DigitsValue(s[6..8]),
                     DigitsValue(s[9..11]), DigitsValue(s[11..13]));
      if ValidCivil(c) then Some(c) else None
    else None
  }

  /** A timestamp written for a valid date reads back as that date. */
  lemma ParseFormat(c: Civil)
    requires ValidCivil(c)
    ensures Parse(Format(c)) == Some(c)
  {
    var s := Format(c);
    assert s[0..4] == Pad(c.year, 4);
    assert s[4..6] == Pad(c.month, 2);
    assert s[9..11] == Pad(c.hour, 2);
    assert s[11..13] == Pad(c.minute, 2);
    PadValue(c.year, 4);
    PadValue(c.month, 2);
    PadValue(c.day, 2);
    PadValue(c.hour, 2);
    PadValue(c.minute, 2);
  }

  /** A string that parses is exactly the timestamp of what it parses to. */
  lemma FormatParse(s: string)
    requires Parse(s).Some?
    ensures Format(Parse(s).value) == s
  {
    var c := Parse(s).value;
    ValuePad(s[0..4]);
    ValuePad(s[4..6]);
    ValuePad(s[6..8]);
    ValuePad(s[9..11]);
    ValuePad(s[11..13]);
    StampPieces(s);
  }

  /** A fourteen-character string with T and Z in place is its five digit
      fields put back together. */
  lemma StampPieces(s: string)
    requires |s| == 14 && s[8] == 'T' && s[13] == 'Z'
    ensures s == s[0..4] + s[4..6] + s[6..8] + "T" + s[9..11] + s[11..13] + "Z"
  {
    var f := s[0..4] + s[4..6] + s[6..8] + "T" + s[9..11] + s[11..13] + "Z";
    forall i | 0 <= i < 14
      ensures f[i] == s[i]
    {
      if i < 4 {
        assert f[i] == s[0..4][i];
      } else if i < 6 {
        assert f[i] == s[4..6][i - 4];
      } else if i < 8 {
        assert f[i] == s[6..8][i - 6];
      } else if i == 8 {
      } else if i < 11 {
        assert f[i] == s[9..11][i - 9];
      } else if i < 13 {
        assert f[i] == s[11..13][i - 11];
      }
    }
  }
}
