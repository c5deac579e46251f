/** The date normalisation of the feed pipeline: `datetime(*date[:6])`, which
    rejects out-of-range fields, and `.isoformat()`, which renders the result
    as `YYYY-MM-DDTHH:MM:SS` (no fraction, no offset, for a naive datetime
    built without microseconds). */
module DateTime {
  import opened Text

  /** The first six fields of a `time.struct_time`, the part `date[:6]` keeps. */
  datatype TimeTuple = TimeTuple(year: int, month: int, day: int, hour: int, minute: int, second: int)

  const MinYear := 1
  const MaxYear := 9999

  predicate IsLeapYear(year: int) {
    year % 4 == 0 && (year % 100 != 0 || year % 400 == 0)
  }

  function DaysInMonth(year: int, month: int): (n: int)
    requires 1 <= month <= 12
    ensures 28 <= n <= 31
    ensures n == 29 <==> month == 2 && IsLeapYear(year)
    ensures n == 28 <==> month == 2 && !IsLeapYear(year)
    ensures n == 30 <==> month == 4 || month == 6 || month == 9 || month == 11
  {
    if month == 2 then (if IsLeapYear(year) then 29 else 28)
    else if month == 4 || month == 6 || month == 9 || month == 11 then 30
    else 31
  }

  /** The range checks of Python's `datetime(year, month, day, hour, minute,
      second)` constructor; outside them it raises `ValueError`. */
  predicate IsValid(t: TimeTuple) {
    && MinYear <= t.year <= MaxYear
    && 1 <= t.month <= 12
    && 1 <= t.day <= DaysInMonth(t.year, t.month)
    && 0 <= t.hour <= 23
    && 0 <= t.minute <= 59
    && 0 <= t.second <= 59
  }

  /** The constructor accepts 29 February only in a leap year (2024, 2000,
      not 2023 or 1900), and no second 60. */
  lemma IsValidExamples()
    ensures IsValid(TimeTuple(2024, 2, 29, 0, 0, 0)) && IsValid(TimeTuple(2000, 2, 29, 0, 0, 0))
    ensures !IsValid(TimeTuple(2023, 2, 29, 0, 0, 0)) && !IsValid(TimeTuple(1900, 2, 29, 0, 0, 0))
    ensures !IsValid(TimeTuple(2024, 1, 1, 0, 0, 60)) && !IsValid(TimeTuple(0, 1, 1, 0, 0, 0))
  {
  }

  function Pow10(w: nat): (p: nat)
    ensures p >= 1
  {
    if w == 0 then 1 else 10 * Pow10(w - 1)
  }

  function DigitChar(d: int): (c: char)
    requires 0 <= d < 10
    ensures '0' <= c <= '9'
  {
    (48 + d) as char
  }

  /** `'%0{w}d' % n` for an `n` that fits in `w` digits. */
  function ZeroPad(n: nat, w: nat): (r: string)
    requires n < Pow10(w)
    ensures |r| == w
    ensures forall k :: 0 <= k < w ==> '0' <= r[k] <= '9'
  {
    if w == 0 then "" else ZeroPad(n / 10, w - 1) + [DigitChar(n % 10)]
  }

  /** Zero-padded numerals of one width compare as strings the way the
      numbers compare, so equal numerals mean equal numbers. */
  lemma {:induction false} ZeroPadOrder(n: nat, m: nat, w: nat)
    requires n < Pow10(w) && m < Pow10(w)
    ensures LexLeq(ZeroPad(n, w), ZeroPad(m, w)) <==> n <= m
    ensures ZeroPad(n, w) == ZeroPad(m, w) <==> n == m
  {
    if w == 0 {
      assert n == 0 && m == 0;
    } else {
      var a, b := ZeroPad(n / 10, w - 1), ZeroPad(m / 10, w - 1);
      var x, y := DigitChar(n % 10), DigitChar(m % 10);
      ZeroPadOrder(n / 10, m / 10, w - 1);
      LexLeqConcat(a, [x], b, [y]);
      assert LexLeq([x], [y]) <==> x <= y by {
        assert [x][1..] == [] && [y][1..] == [];
      }
      if ZeroPad(n, w) == ZeroPad(m, w) {
        assert a == ZeroPad(n, w)[..w - 1] == b;
        assert x == ZeroPad(n, w)[w - 1] == y;
      }
    }
  }

  /** `datetime(*t).isoformat()` for a valid `t`. */
  function IsoFormat(t: TimeTuple): (r: string)
    requires IsValid(t)
    ensures |r| == 19
    ensures r[4] == '-' && r[7] == '-' && r[10] == 'T' && r[13] == ':' && r[16] == ':'
    ensures forall k :: 0 <= k < 19 && k !in {4, 7, 10, 13, 16} ==> '0' <= r[k] <= '9'
  {
    ZeroPad(t.year, 4) + "-" + ZeroPad(t.month, 2) + "-" + ZeroPad(t.day, 2)
      + "T" + ZeroPad(t.hour, 2) + ":" + ZeroPad(t.minute, 2) + ":" + ZeroPad(t.second, 2)
  }

  /** Chronological order of two timestamps: field by field, most significant first. */
  predicate AtOrBefore(t1: TimeTuple, t2: TimeTuple) {
    || t1.year < t2.year
    || (t1.year == t2.year && (t1.month < t2.month
    || (t1.month == t2.month && (t1.day < t2.day
    || (t1.day == t2.day && (t1.hour < t2.hour
    || (t1.hour == t2.hour && (t1.minute < t2.minute
    || (t1.minute == t2.minute && t1.second <= t2.second)))))))))
  }

  /** Appending a common separator and one more field of a common width. */
  lemma ExtendOrder(a: string, b: string, sep: string, x: string, y: string)
    requires |a| == |b| && |x| == |y|
    ensures LexLeq(a + sep + x, b + sep + y) <==> LexLess(a, b) || (a == b && LexLeq(x, y))
    ensures a + sep + x == b + sep + y <==> a == b && x == y
  {
    LexLeqConcat(a + sep, x, b + sep, y);
    LexLeqConcat(a, sep, b, sep);
    LexLeqReflexive(sep);
    if a + sep == b + sep {
      assert a == (a + sep)[..|a|] == b;
    }
    if a + sep + x == b + sep + y {
      assert a + sep == (a + sep + x)[..|a + sep|] == b + sep;
      assert x == (a + sep + x)[|a + sep|..] == y;
    }
  }

  /** `YYYY-MM`, `YYYY-MM-DD`, `YYYY-MM-DDTHH` and `YYYY-MM-DDTHH:MM`: the
      leading parts of `IsoFormat(t)`. */
  function MonthPart(t: TimeTuple): string
    requires IsValid(t)
  {
    ZeroPad(t.year, 4) + "-" + ZeroPad(t.month, 2)
  }

  function DayPart(t: TimeTuple): string
    requires IsValid(t)
  {
    MonthPart(t) + "-" + ZeroPad(t.day, 2)
  }

  function HourPart(t: TimeTuple): string
    requires IsValid(t)
  {
    DayPart(t) + "T" + ZeroPad(t.hour, 2)
  }

  function MinutePart(t: TimeTuple): string
    requires IsValid(t)
  {
    HourPart(t) + ":" + ZeroPad(t.minute, 2)
  }

  lemma MonthPartOrder(t1: TimeTuple, t2: TimeTuple)
    requires IsValid(t1) && IsValid(t2)
    ensures LexLeq(MonthPart(t1), MonthPart(t2)) <==>
      t1.year < t2.year || (t1.year == t2.year && t1.month <= t2.month)
    ensures MonthPart(t1) == MonthPart(t2) <==> t1.year == t2.year && t1.month == t2.month
  {
    ZeroPadOrder(t1.year, t2.year, 4);
    ZeroPadOrder(t1.month, t2.month, 2);
    ExtendOrder(ZeroPad(t1.year, 4), ZeroPad(t2.year, 4), "-", ZeroPad(t1.month, 2), ZeroPad(t2.month, 2));
  }

  lemma DayPartOrder(t1: TimeTuple, t2: TimeTuple)
    requires IsValid(t1) && IsValid(t2)
    ensures LexLeq(DayPart(t1), DayPart(t2)) <==>
      t1.year < t2.year || (t1.year == t2.year && (t1.month < t2.month
      || (t1.month == t2.month && t1.day <= t2.day)))
    ensures DayPart(t1) == DayPart(t2) <==>
      t1.year == t2.year && t1.month == t2.month && t1.day == t2.day
  {
    MonthPartOrder(t1, t2);
    ZeroPadOrder(t1.day, t2.day, 2);
    ExtendOrder(MonthPart(t1), MonthPart(t2), "-", ZeroPad(t1.day, 2), ZeroPad(t2.day, 2));
  }

  lemma HourPartOrder(t1: TimeTuple, t2: TimeTuple)
    requires IsValid(t1) && IsValid(t2)
    ensures LexLeq(HourPart(t1), HourPart(t2)) <==>
      t1.year < t2.year || (t1.year == t2.year && (t1.month < t2.month
      || (t1.month == t2.month && (t1.day < t2.day
      || (t1.day == t2.day && t1.hour <= t2.hour)))))
    ensures HourPart(t1) == HourPart(t2) <==>
      t1.year == t2.year && t1.month == t2.month && t1.day == t2.day && t1.hour == t2.hour
  {
    DayPartOrder(t1, t2);
    ZeroPadOrder(t1.hour, t2.hour, 2);
    ExtendOrder(DayPart(t1), DayPart(t2), "T", ZeroPad(t1.hour, 2), ZeroPad(t2.hour, 2));
  }

  lemma MinutePartOrder(t1: TimeTuple, t2: TimeTuple)
    requires IsValid(t1) && IsValid(t2)
    ensures LexLeq(MinutePart(t1), MinutePart(t2)) <==>
      t1.year < t2.year || (t1.year == t2.year && (t1.month < t2.month
      || (t1.month == t2.month && (t1.day < t2.day
      || (t1.day == t2.day && (t1.hour < t2.hour
      || (t1.hour == t2.hour && t1.minute <= t2.minute)))))))
    ensures MinutePart(t1) == MinutePart(t2) <==>
      t1.year == t2.year && t1.month == t2.month && t1.day == t2.day
      && t1.hour == t2.hour && t1.minute == t2.minute
  {
    HourPartOrder(t1, t2);
    ZeroPadOrder(t1.minute, t2.minute, 2);
    ExtendOrder(HourPart(t1), HourPart(t2), ":", ZeroPad(t1.minute, 2), ZeroPad(t2.minute, 2));
  }

  /** The ISO-8601 strings the pipeline stores compare, as Python strings, in
      the chronological order of the timestamps they render; so the final sort
      on these strings orders dated entries by time. */
  lemma IsoFormatOrder(t1: TimeTuple, t2: TimeTuple)
    requires IsValid(t1) && IsValid(t2)
    ensures LexLeq(IsoFormat(t1), IsoFormat(t2)) <==> AtOrBefore(t1, t2)
    ensures IsoFormat(t1) == IsoFormat(t2) <==> t1 == t2
  {
    MinutePartOrder(t1, t2);
    ZeroPadOrder(t1.second, t2.second, 2);
    ExtendOrder(MinutePart(t1), MinutePart(t2), ":", ZeroPad(t1.second, 2), ZeroPad(t2.second, 2));
    assert IsoFormat(t1) == MinutePart(t1) + ":" + ZeroPad(t1.second, 2);
    assert IsoFormat(t2) == MinutePart(t2) + ":" + ZeroPad(t2.second, 2);
  }
}
