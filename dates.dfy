/**
 * Calendar dates as `is_weekend` and `make_ics` read them (app.py): the text
 * is split on `-` into three decimal fields, and `datetime(y, m, d)` accepts
 * only a valid proleptic-Gregorian date with a year in 1..9999.
 */
module Dates {
  import opened Wrappers
  import opened Text

  datatype Date = Date(year: nat, month: nat, day: nat)

  predicate IsLeap(y: nat)
  {
    y % 4 == 0 && (y % 100 != 0 || y % 400 == 0)
  }

  function DaysInMonth(y: nat, m: nat): nat
    requires 1 <= m <= 12
  {
    if m == 2 then (if IsLeap(y) then 29 else 28)
    else if m == 4 || m == 6 || m == 9 || m == 11 then 30
    else 31
  }

  function DaysInYear(y: nat): nat
  {
    if IsLeap(y) then 366 else 365
  }

  /** What `datetime(y, m, d)` accepts. */
  predicate ValidDate(d: Date)
  {
    1 <= d.year <= 9999 && 1 <= d.month <= 12 && 1 <= d.day <= DaysInMonth(d.year, d.month)
  }

  /** `y, m, d = map(int, text.split("-"))`: three decimal fields, not yet range-checked. */
  function DateFields(text: string): Option<Date>
  {
    var parts := Split(text, '-');
    if |parts| != 3 then None
    else match (ParseNat(parts[0]), ParseNat(parts[1]), ParseNat(parts[2]))
      case (Some(y), Some(m), Some(d)) => Some(Date(y, m, d))
      case _ => None
  }

  /** The date `datetime(y, m, d)` builds from the text, or `None` where Python raises. */
  function ParseDate(text: string): Option<Date>
  {
    match DateFields(text)
    case Some(d) => if ValidDate(d) then Some(d) else None
    case None => None
  }

  /** Days in the years before `y` (Python's `_days_before_year`). */
  function DaysBeforeYear(y: nat): nat
    requires y >= 1
  {
    var p := y - 1;
    p * 365 + p / 4 - p / 100 + p / 400
  }

  /** Days in the months of year `y` before month `m` (Python's `_days_before_month`). */
  function DaysBeforeMonth(y: nat, m: nat): nat
    requires 1 <= m <= 12
  {
    [0, 31, 59, 90, 120, 151, 181, 212, 243, 273, 304, 334][m - 1]
      + (if m > 2 && IsLeap(y) then 1 else 0)
  }

  /** Proleptic-Gregorian day number, 0001-01-01 being day 1 (Python `toordinal`). */
  function Ordinal(d: Date): nat
    requires ValidDate(d)
  {
    DaysBeforeYear(d.year) + DaysBeforeMonth(d.year, d.month) + d.day
  }

  /** ISO weekday, Monday = 1 … Sunday = 7 (Python `isoweekday`). */
  function IsoWeekday(d: Date): (w: nat)
    requires ValidDate(d)
    ensures 1 <= w <= 7
  {
    (Ordinal(d) + 6) % 7 + 1
  }

  /** `is_weekend`: Saturday or Sunday, or `None` for text `datetime` rejects. */
  function IsWeekend(text: string): Option<bool>
  {
    match ParseDate(text)
    case Some(d) => Some(IsoWeekday(d) == 6 || IsoWeekday(d) == 7)
    case None => None
  }

  /** The calendar day after `d`. */
  function NextDay(d: Date): Date
    requires ValidDate(d)
  {
    if d.day < DaysInMonth(d.year, d.month) then Date(d.year, d.month, d.day + 1)
    else if d.month < 12 then Date(d.year, d.month + 1, 1)
    else Date(d.year + 1, 1, 1)
  }

  lemma DaysBeforeYearStep(y: nat)
    requires y >= 1
    ensures DaysBeforeYear(y + 1) == DaysBeforeYear(y) + DaysInYear(y)
  {
    var p := y - 1;
    var leapDays := (if y % 4 == 0 then 1 else 0) - (if y % 100 == 0 then 1 else 0) + (if y % 400 == 0 then 1 else 0);
    QuarterStep(y);
    CenturyStep(y);
    QuadricentennialStep(y);
    assert DaysBeforeYear(y + 1) == y * 365 + y / 4 - y / 100 + y / 400;
    assert DaysBeforeYear(y + 1) == DaysBeforeYear(y) + 365 + leapDays;
    LeapRule(y);
  }

  /** The Gregorian rule as a count: +1 for a multiple of 4, -1 for 100, +1 for 400. */
  lemma LeapRule(y: nat)
    ensures (if IsLeap(y) then 1 else 0)
         == (if y % 4 == 0 then 1 else 0) - (if y % 100 == 0 then 1 else 0) + (if y % 400 == 0 then 1 else 0)
  {
    if y % 100 == 0 {
      CenturyIsQuarter(y);
    }
    if y % 400 == 0 {
      QuadricentennialIsCentury(y);
    }
  }

  lemma CenturyIsQuarter(y: nat)
    requires y % 100 == 0
    ensures y % 4 == 0
  {
    var c := y / 100;
    assert y == 4 * (25 * c);
    assert y / 4 == 25 * c;
  }

  lemma QuadricentennialIsCentury(y: nat)
    requires y % 400 == 0
    ensures y % 100 == 0 && y % 4 == 0
  {
    var c := y / 400;
    assert y == 100 * (4 * c);
    assert y / 100 == 4 * c;
    CenturyIsQuarter(y);
  }

  /** The counts of multiples of 4, 100 and 400 up to `y` grow by one exactly at a multiple. */
  lemma QuarterStep(y: nat)
    requires y >= 1
    ensures y / 4 == (y - 1) / 4 + (if y % 4 == 0 then 1 else 0)
  {
    var q := (y - 1) / 4;
    assert y - 1 == 4 * q + (y - 1) % 4;
  }

  lemma CenturyStep(y: nat)
    requires y >= 1
    ensures y / 100 == (y - 1) / 100 + (if y % 100 == 0 then 1 else 0)
  {
    var q := (y - 1) / 100;
    assert y - 1 == 100 * q + (y - 1) % 100;
  }

  lemma QuadricentennialStep(y: nat)
    requires y >= 1
    ensures y / 400 == (y - 1) / 400 + (if y % 400 == 0 then 1 else 0)
  {
    var q := (y - 1) / 400;
    assert y - 1 == 400 * q + (y - 1) % 400;
  }

  /** The month table agrees with the month lengths. */
  lemma DaysBeforeMonthStep(y: nat, m: nat)
    requires 1 <= m <= 12
    ensures m < 12 ==> DaysBeforeMonth(y, m + 1) == DaysBeforeMonth(y, m) + DaysInMonth(y, m)
    ensures m == 12 ==> DaysBeforeMonth(y, m) + DaysInMonth(y, m) == DaysInYear(y)
  {
  }

  /** Consecutive days have consecutive ordinals, across months and years; only 9999-12-31 has no next day. */
  lemma OrdinalNextDay(d: Date)
    requires ValidDate(d) && d != Date(9999, 12, 31)
    ensures ValidDate(NextDay(d))
    ensures Ordinal(NextDay(d)) == Ordinal(d) + 1
  {
    DaysBeforeMonthStep(d.year, d.month);
    if d.day == DaysInMonth(d.year, d.month) && d.month == 12 {
      DaysBeforeYearStep(d.year);
    }
  }

  lemma ModSevenStep(x: nat)
    ensures (x + 1) % 7 == if x % 7 == 6 then 0 else x % 7 + 1
  {
    var q := x / 7;
    assert x == 7 * q + x % 7;
    if x % 7 == 6 {
      assert x + 1 == 7 * (q + 1);
    } else {
      assert x + 1 == 7 * q + (x % 7 + 1);
    }
  }

  /** The ISO weekday advances by one each day, Sunday wrapping to Monday. */
  lemma WeekdayNextDay(d: Date)
    requires ValidDate(d) && d != Date(9999, 12, 31)
    ensures ValidDate(NextDay(d))
    ensures IsoWeekday(NextDay(d)) == IsoWeekday(d) % 7 + 1
  {
    OrdinalNextDay(d);
    var o := Ordinal(d);
    assert IsoWeekday(NextDay(d)) == (o + 7) % 7 + 1;
    ModSevenStep(o + 6);
  }

  lemma OrdinalOfExampleDate()
    ensures Ordinal(Date(2024, 6, 1)) == 739038
  {
    assert DaysBeforeYear(2024) == 738885;
    assert DaysBeforeMonth(2024, 6) == 152 by { assert IsLeap(2024); }
  }

  /** Anchor: 0001-01-01, day 1 of the proleptic calendar, was a Monday. */
  lemma FirstDayIsMonday()
    ensures IsoWeekday(Date(1, 1, 1)) == 1
  {
  }

  /** 2024-06-01 was a Saturday. */
  lemma ExampleDateIsSaturday()
    ensures IsoWeekday(Date(2024, 6, 1)) == 6
  {
    OrdinalOfExampleDate();
  }

  /**
   * `YYYY-MM-DD` text of a date: the year in plain decimal (four digits for
   * the years 1000..9999), month and day zero-padded to two digits.
   */
  function IsoText(d: Date): string
  {
    NatToString(d.year) + "-" + Pad2(d.month) + "-" + Pad2(d.day)
  }

  /** The three `-`-separated fields of `IsoText(d)` read back as `d`'s fields. */
  lemma {:induction false} DateFieldsIsoText(d: Date)
    ensures DateFields(IsoText(d)) == Some(d)
  {
    var y, m, dd := NatToString(d.year), Pad2(d.month), Pad2(d.day);
    assert IsoText(d) == y + ['-'] + (m + ['-'] + dd);
    SplitAtFirst(y, '-', m + ['-'] + dd);
    SplitAtFirst(m, '-', dd);
    SplitNoSep(dd, '-');
    ParseNatToString(d.year);
    ParsePad2(d.month);
    ParsePad2(d.day);
  }

  /** `datetime` accepts the text of a date exactly when the date exists. */
  lemma ParseDateIsoText(d: Date)
    ensures ParseDate(IsoText(d)) == if ValidDate(d) then Some(d) else None
  {
    DateFieldsIsoText(d);
  }

  /** `is_weekend` on the text of a valid date is ISO weekday 6 or 7; on any other date it fails. */
  lemma IsWeekendIsoText(d: Date)
    ensures ValidDate(d) ==> IsWeekend(IsoText(d)) == Some(IsoWeekday(d) >= 6)
    ensures !ValidDate(d) ==> IsWeekend(IsoText(d)) == None
  {
    ParseDateIsoText(d);
  }

  /** `Y-M-D` text of a date with no zero padding, which `int` reads just as well. */
  function UnpaddedText(d: Date): string
  {
    NatToString(d.year) + "-" + NatToString(d.month) + "-" + NatToString(d.day)
  }

  /** The unpadded text of a date splits and reads back as that date. */
  lemma {:induction false} DateFieldsUnpaddedText(d: Date)
    ensures DateFields(UnpaddedText(d)) == Some(d)
  {
    var y, m, dd := NatToString(d.year), NatToString(d.month), NatToString(d.day);
    assert UnpaddedText(d) == y + ['-'] + (m + ['-'] + dd);
    SplitAtFirst(y, '-', m + ['-'] + dd);
    SplitAtFirst(m, '-', dd);
    SplitNoSep(dd, '-');
    ParseNatToString(d.year);
    ParseNatToString(d.month);
    ParseNatToString(d.day);
  }

  /**
   * Padded and unpadded texts name the same day to `datetime` and
   * `is_weekend`, yet for a month before October they are different texts.
   */
  lemma TwoTextsOneDay(d: Date)
    ensures ParseDate(UnpaddedText(d)) == ParseDate(IsoText(d))
    ensures IsWeekend(UnpaddedText(d)) == IsWeekend(IsoText(d))
    ensures d.month < 10 ==> |UnpaddedText(d)| < |IsoText(d)|
  {
    DateFieldsUnpaddedText(d);
    DateFieldsIsoText(d);
    if d.month < 10 {
      assert |NatToString(d.month)| == 1 && |Pad2(d.month)| == 2;
      assert |NatToString(d.day)| <= |Pad2(d.day)|;
    }
  }

  /** 2024-06-01 falls on a weekend; 2023-02-29 does not exist. */
  lemma IsWeekendExamples()
    ensures IsWeekend(IsoText(Date(2024, 6, 1))) == Some(true)
    ensures IsWeekend(IsoText(Date(2023, 2, 29))) == None
  {
    IsWeekendIsoText(Date(2024, 6, 1));
    ExampleDateIsSaturday();
    IsWeekendIsoText(Date(2023, 2, 29));
    assert !IsLeap(2023);
  }

  /** `d1` falls on an earlier day than `d2`. */
  predicate Precedes(d1: Date, d2: Date)
  {
    d1.year < d2.year
    || (d1.year == d2.year && (d1.month < d2.month || (d1.month == d2.month && d1.day < d2.day)))
  }

  lemma FourDigitYear(y: nat)
    requires 1000 <= y <= 9999
    ensures |NatToString(y)| == 4
  {
    assert y / 100 / 10 == y / 1000 && y / 10 / 10 == y / 100;
    assert 1 <= y / 1000 < 10 && y / 100 >= 10 && y / 10 >= 10;
    assert |NatToString(y / 1000)| == 1;
    assert |NatToString(y / 100)| == |NatToString(y / 1000)| + 1;
    assert |NatToString(y / 10)| == |NatToString(y / 100)| + 1;
    assert |NatToString(y)| == |NatToString(y / 10)| + 1;
  }

  lemma Pad2Value(n: nat)
    ensures DigitsValue(Pad2(n)) == n
  {
    ParsePad2(n);
  }

  /**
   * `ORDER BY date` on ISO text is chronological: for years 1000..9999 the
   * text of one valid date sorts before another's exactly when it is earlier.
   */
  lemma IsoTextOrder(d1: Date, d2: Date)
    requires ValidDate(d1) && ValidDate(d2) && d1.year >= 1000 && d2.year >= 1000
    ensures StrLt(IsoText(d1), IsoText(d2)) <==> Precedes(d1, d2)
  {
    var y1, m1, dd1 := NatToString(d1.year), Pad2(d1.month), Pad2(d1.day);
    var y2, m2, dd2 := NatToString(d2.year), Pad2(d2.month), Pad2(d2.day);
    FourDigitYear(d1.year);
    FourDigitYear(d2.year);
    DigitsValueOfNatToString(d1.year);
    DigitsValueOfNatToString(d2.year);
    Pad2Value(d1.month);
    Pad2Value(d2.month);
    Pad2Value(d1.day);
    Pad2Value(d2.day);
    DigitsOrder(y1, y2);
    DigitsOrder(m1, m2);
    DigitsOrder(dd1, dd2);
    assert IsoText(d1) == y1 + ("-" + (m1 + ("-" + dd1)));
    assert IsoText(d2) == y2 + ("-" + (m2 + ("-" + dd2)));
    StrLtConcat(y1, "-" + (m1 + ("-" + dd1)), y2, "-" + (m2 + ("-" + dd2)));
    StrLtConcat("-", m1 + ("-" + dd1), "-", m2 + ("-" + dd2));
    StrLtConcat(m1, "-" + dd1, m2, "-" + dd2);
    StrLtConcat("-", dd1, "-", dd2);
  }
}
