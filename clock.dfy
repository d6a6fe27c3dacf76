/** Wall-clock instants at second resolution, the `%Y-%m-%d %H:%M:%S` text
    form the log writer produces with `strftime` and the reader takes back
    with `strptime`, and the ordering Python's `datetime` comparison uses. */
module Clock {
  import opened Wrappers
  import opened Strings

  datatype DateTime = DateTime(year: int, month: int, day: int, hour: int, minute: int, second: int)

  predicate IsLeapYear(y: int)
  {
    y % 4 == 0 && (y % 100 != 0 || y % 400 == 0)
  }

  function DaysInMonth(y: int, m: int): int
    requires 1 <= m <= 12
  {
    if m == 2 then (if IsLeapYear(y) then 29 else 28)
    else if m == 4 || m == 6 || m == 9 || m == 11 then 30
    else 31
  }

  /** The instants a Python `datetime` can hold, microseconds aside. */
  predicate Valid(t: DateTime)
  {
    && 1 <= t.year <= 9999
    && 1 <= t.month <= 12
    && 1 <= t.day <= DaysInMonth(t.year, t.month)
    && 0 <= t.hour < 24
    && 0 <= t.minute < 60
    && 0 <= t.second < 60
  }

  /** What `datetime.now()` can return, truncated to whole seconds. */
  type Instant = t: DateTime | Valid(t) witness DateTime(1970, 1, 1, 0, 0, 0)

  function Pad2(n: int): (r: string)
    requires 0 <= n < 100
    ensures |r| == 2 && IsDigit(r[0]) && IsDigit(r[1])
  {
    [DigitChar(n / 10), DigitChar(n % 10)]
  }

  function Pad4(n: int): (r: string)
    requires 0 <= n < 10000
    ensures |r| == 4 && forall k :: 0 <= k < 4 ==> IsDigit(r[k])
  {
    Pad2(n / 100) + Pad2(n % 100)
  }

  /** `t.strftime("%Y-%m-%d %H:%M:%S")`. */
  function Format(t: DateTime): (r: string)
    requires Valid(t)
    ensures |r| == 19
  {
    Pad4(t.year) + "-" + Pad2(t.month) + "-" + Pad2(t.day) + " "
      + Pad2(t.hour) + ":" + Pad2(t.minute) + ":" + Pad2(t.second)
  }

  function Value2(s: string, at: nat): int
    requires at + 2 <= |s| && IsDigit(s[at]) && IsDigit(s[at + 1])
  {
    DigitValue(s[at]) * 10 + DigitValue(s[at + 1])
  }

  /** Positions 0-3, 5-6, 8-9, 11-12, 14-15 and 17-18 of a formatted instant
      hold digits; the others hold the separators. */
  predicate DigitPosition(k: int)
  {
    0 <= k < 19 && k != 4 && k != 7 && k != 10 && k != 13 && k != 16
  }

  predicate HasTimestampShape(s: string)
  {
    && |s| == 19
    && s[4] == '-' && s[7] == '-' && s[10] == ' ' && s[13] == ':' && s[16] == ':'
    && forall k :: 0 <= k < 19 && DigitPosition(k) ==> IsDigit(s[k])
  }

  /** `datetime.strptime(s, "%Y-%m-%d %H:%M:%S")` for the zero-padded form:
      `None` where Python raises `ValueError`. */
  function ParseTimestamp(s: string): Option<Instant>
  {
    if !HasTimestampShape(s) then None
    else
      assert DigitPosition(0) && DigitPosition(1) && DigitPosition(2) && DigitPosition(3);
      assert DigitPosition(5) && DigitPosition(6) && DigitPosition(8) && DigitPosition(9);
      assert DigitPosition(11) && DigitPosition(12) && DigitPosition(14) && DigitPosition(15);
      assert DigitPosition(17) && DigitPosition(18);
      var t := DateTime(Value2(s, 0) * 100 + Value2(s, 2), Value2(s, 5), Value2(s, 8),
                        Value2(s, 11), Value2(s, 14), Value2(s, 17));
      if Valid(t) then Some(t) else None
  }

  lemma Pad2Value(n: int, s: string, at: nat)
    requires 0 <= n < 100 && at + 2 <= |s| && s[at..at + 2] == Pad2(n)
    ensures IsDigit(s[at]) && IsDigit(s[at + 1]) && Value2(s, at) == n
  {
    assert s[at] == Pad2(n)[0] && s[at + 1] == Pad2(n)[1];
  }

  /** Reading back what the writer formats gives the same instant. */
  lemma FormatThenParse(t: DateTime)
    requires Valid(t)
    ensures ParseTimestamp(Format(t)) == Some(t)
  {
    var s := Format(t);
    assert s[0..2] == Pad2(t.year / 100);
    assert s[2..4] == Pad2(t.year % 100);
    assert s[5..7] == Pad2(t.month);
    assert s[8..10] == Pad2(t.day);
    assert s[11..13] == Pad2(t.hour);
    assert s[14..16] == Pad2(t.minute);
    assert s[17..19] == Pad2(t.second);
    Pad2Value(t.year / 100, s, 0);
    Pad2Value(t.year % 100, s, 2);
    Pad2Value(t.month, s, 5);
    Pad2Value(t.day, s, 8);
    Pad2Value(t.hour, s, 11);
    Pad2Value(t.minute, s, 14);
    Pad2Value(t.second, s, 17);
    assert HasTimestampShape(s);
  }

  lemma DigitsBack(s: string, at: nat)
    requires at + 2 <= |s| && IsDigit(s[at]) && IsDigit(s[at + 1])
    ensures 0 <= Value2(s, at) < 100 && Pad2(Value2(s, at)) == s[at..at + 2]
  {
    var v := Value2(s, at);
    assert v / 10 == DigitValue(s[at]) && v % 10 == DigitValue(s[at + 1]);
  }

  /** Every text the reader accepts is exactly the writer's form of what it
      read: the accepted timestamps are the formatted valid instants. */
  lemma ParseThenFormat(s: string)
    requires ParseTimestamp(s).Some?
    ensures Format(ParseTimestamp(s).value) == s
  {
    var t := ParseTimestamp(s).value;
    assert DigitPosition(0) && DigitPosition(1) && DigitPosition(2) && DigitPosition(3);
    assert DigitPosition(5) && DigitPosition(6) && DigitPosition(8) && DigitPosition(9);
    assert DigitPosition(11) && DigitPosition(12) && DigitPosition(14) && DigitPosition(15);
    assert DigitPosition(17) && DigitPosition(18);
    DigitsBack(s, 0);
    DigitsBack(s, 2);
    DigitsBack(s, 5);
    DigitsBack(s, 8);
    DigitsBack(s, 11);
    DigitsBack(s, 14);
    DigitsBack(s, 17);
    var hi, lo := Value2(s, 0), Value2(s, 2);
    assert t.year / 100 == hi && t.year % 100 == lo;
    assert s == s[0..2] + s[2..4] + [s[4]] + s[5..7] + [s[7]] + s[8..10] + [s[10]]
              + s[11..13] + [s[13]] + s[14..16] + [s[16]] + s[17..19];
  }

  /** `a <= b` on Python `datetime` values: field by field, most significant first. */
  predicate NotAfter(a: DateTime, b: DateTime)
  {
    if a.year != b.year then a.year < b.year
    else if a.month != b.month then a.month < b.month
    else if a.day != b.day then a.day < b.day
    else if a.hour != b.hour then a.hour < b.hour
    else if a.minute != b.minute then a.minute < b.minute
    else a.second <= b.second
  }
}
