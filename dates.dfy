/** Proleptic-Gregorian calendar dates, as Python's datetime.date has them:
    years 1 to 9999, day ordinals counted from 0001-01-01 = 1. */
module Dates {
  import opened Text

  datatype Date = Date(year: int, month: int, day: int)

  const MinYear := 1
  const MaxYear := 9999

  predicate IsLeap(y: int)
  {
    y % 4 == 0 && (y % 100 != 0 || y % 400 == 0)
  }

  function DaysInYear(y: int): int
  {
    if IsLeap(y) then 366 else 365
  }

  function DaysInMonth(y: int, m: int): (n: int)
    requires 1 <= m <= 12
    ensures 28 <= n <= 31
  {
    if m == 2 then (if IsLeap(y) then 29 else 28)
    else if m == 4 || m == 6 || m == 9 || m == 11 then 30
    else 31
  }

  predicate ValidDate(d: Date)
  {
    MinYear <= d.year <= MaxYear && 1 <= d.month <= 12 && 1 <= d.day <= DaysInMonth(d.year, d.month)
  }

  /** A date Python can represent. */
  type CivilDate = d: Date | ValidDate(d) witness Date(2000, 1, 1)

  /** Days in the years before year y (datetime._days_before_year). */
  function DaysBeforeYear(y: int): int
  {
    var k := y - 1;
    k * 365 + k / 4 - k / 100 + k / 400
  }

  /** Days in the months of year y before month m (datetime._days_before_month). */
  function DaysBeforeMonth(y: int, m: int): (n: int)
    requires 1 <= m <= 13
  {
    [0, 31, 59, 90, 120, 151, 181, 212, 243, 273, 304, 334, 365][m - 1]
      + (if m > 2 && IsLeap(y) then 1 else 0)
  }

  /** date.toordinal() */
  function Ordinal(d: Date): int
    requires ValidDate(d)
  {
    DaysBeforeYear(d.year) + DaysBeforeMonth(d.year, d.month) + d.day
  }

  /** The ordinal of 9999-12-31, the last date Python can represent. */
  const MaxOrdinal := 3652059

  lemma YearStep(y: int)
    ensures DaysBeforeYear(y + 1) == DaysBeforeYear(y) + DaysInYear(y)
  {
    var k := y - 1;
    assert (k + 1) / 4 == k / 4 + (if (k + 1) % 4 == 0 then 1 else 0);
    assert (k + 1) / 100 == k / 100 + (if (k + 1) % 100 == 0 then 1 else 0);
    assert (k + 1) / 400 == k / 400 + (if (k + 1) % 400 == 0 then 1 else 0);
  }

  lemma {:induction false} YearsIncrease(a: int, b: int)
    requires a <= b
    ensures DaysBeforeYear(a) + 365 * (b - a) <= DaysBeforeYear(b)
    decreases b - a
  {
    if a < b {
      YearStep(a);
      YearsIncrease(a + 1, b);
    }
  }

  lemma MonthStep(y: int, m: int)
    requires 1 <= m <= 12
    ensures DaysBeforeMonth(y, m + 1) == DaysBeforeMonth(y, m) + DaysInMonth(y, m)
  {
  }

  lemma OrdinalBounds(d: Date)
    requires ValidDate(d)
    ensures DaysBeforeYear(d.year) < Ordinal(d) <= DaysBeforeYear(d.year + 1)
    ensures DaysBeforeYear(d.year) + DaysBeforeMonth(d.year, d.month) < Ordinal(d)
    ensures Ordinal(d) <= DaysBeforeYear(d.year) + DaysBeforeMonth(d.year, d.month + 1)
    ensures 1 <= Ordinal(d) <= MaxOrdinal
  {
    YearStep(d.year);
    MonthStep(d.year, d.month);
    YearsIncrease(1, d.year);
    YearsIncrease(d.year + 1, MaxYear + 1);
  }

  /** The year holding day n: DaysBeforeYear(y) < n <= DaysBeforeYear(y + 1). */
  function FindYear(n: int, y: int): (r: int)
    requires MinYear <= y <= MaxYear
    requires DaysBeforeYear(y) < n <= DaysBeforeYear(MaxYear + 1)
    ensures y <= r <= MaxYear
    ensures DaysBeforeYear(r) < n <= DaysBeforeYear(r + 1)
    decreases MaxYear - y
  {
    if n <= DaysBeforeYear(y + 1) then y
    else FindYear(n, y + 1)
  }

  /** The month of year y holding day-of-year t. */
  function FindMonth(y: int, t: int, m: int): (r: int)
    requires 1 <= m <= 12
    requires DaysBeforeMonth(y, m) < t <= DaysInYear(y)
    ensures m <= r <= 12
    ensures DaysBeforeMonth(y, r) < t <= DaysBeforeMonth(y, r + 1)
    decreases 12 - m
  {
    if t <= DaysBeforeMonth(y, m + 1) then m
    else FindMonth(y, t, m + 1)
  }

  /** date.fromordinal(n), defined on the ordinals of representable dates. */
  function FromOrdinal(n: int): (d: CivilDate)
    requires 1 <= n <= MaxOrdinal
    ensures ValidDate(d) && Ordinal(d) == n
  {
    var y := FindYear(n, MinYear);
    YearStep(y);
    var t := n - DaysBeforeYear(y);
    var m := FindMonth(y, t, 1);
    MonthStep(y, m);
    Date(y, m, t - DaysBeforeMonth(y, m))
  }

  /** Distinct valid dates have distinct ordinals. */
  lemma OrdinalInjective(a: Date, b: Date)
    requires ValidDate(a) && ValidDate(b) && Ordinal(a) == Ordinal(b)
    ensures a == b
  {
    OrdinalBounds(a);
    OrdinalBounds(b);
    if a.year < b.year {
      YearsIncrease(a.year + 1, b.year);
    } else if b.year < a.year {
      YearsIncrease(b.year + 1, a.year);
    }
    assert a.year == b.year;
    if a.month < b.month {
      MonthsIncrease(a.year, a.month + 1, b.month);
    } else if b.month < a.month {
      MonthsIncrease(a.year, b.month + 1, a.month);
    }
  }

  lemma MonthsIncrease(y: int, a: int, b: int)
    requires 1 <= a <= b <= 13
    ensures DaysBeforeMonth(y, a) <= DaysBeforeMonth(y, b)
  {
  }

  /** Python's comparison of two dates: (year, month, day) lexicographically. */
  predicate AtMost(a: Date, b: Date)
  {
    a.year < b.year
    || (a.year == b.year && (a.month < b.month || (a.month == b.month && a.day <= b.day)))
  }

  /** Comparing dates agrees with comparing their ordinals. */
  lemma AtMostIsOrdinalOrder(a: Date, b: Date)
    requires ValidDate(a) && ValidDate(b)
    ensures AtMost(a, b) <==> Ordinal(a) <= Ordinal(b)
  {
    OrdinalBounds(a);
    OrdinalBounds(b);
    if a.year < b.year {
      YearsIncrease(a.year + 1, b.year);
    } else if b.year < a.year {
      YearsIncrease(b.year + 1, a.year);
    } else if a.month < b.month {
      MonthsIncrease(a.year, a.month + 1, b.month);
    } else if b.month < a.month {
      MonthsIncrease(a.year, b.month + 1, a.month);
    }
  }

  /** n rendered with at least `width` digits, zero-padded on the left. */
  function ZeroPad(n: nat, width: nat): (s: string)
    ensures AllDigits(s) && |s| >= width && DigitsValue(s) == n
    decreases width
  {
    var t := NatText(n);
    if |t| >= width then t
    else
      var s := "0" + ZeroPad(n, width - 1);
      LeadingZero(ZeroPad(n, width - 1));
      s
  }

  lemma {:induction false} LeadingZero(s: string)
    requires AllDigits(s)
    ensures AllDigits("0" + s) && DigitsValue("0" + s) == DigitsValue(s)
    decreases |s|
  {
    if s != [] {
      var t := "0" + s;
      assert t[..|t| - 1] == "0" + s[..|s| - 1];
      LeadingZero(s[..|s| - 1]);
    }
  }

  function Pow10(w: nat): (p: nat)
    ensures p >= 1
  {
    if w == 0 then 1 else 10 * Pow10(w - 1)
  }

  lemma {:induction false} NatTextWidth(n: nat, w: nat)
    requires 1 <= w && n < Pow10(w)
    ensures |NatText(n)| <= w
    decreases w
  {
    if n >= 10 {
      assert NatText(n) == NatText(n / 10) + [DigitChar(n % 10)];
      NatTextWidth(n / 10, w - 1);
    }
  }

  lemma {:induction false} ZeroPadWidth(n: nat, w: nat)
    requires 1 <= w && n < Pow10(w)
    ensures |ZeroPad(n, w)| == w
    decreases w
  {
    NatTextWidth(n, w);
    if |NatText(n)| < w {
      if n < Pow10(w - 1) && w > 1 {
        ZeroPadWidth(n, w - 1);
      } else {
        assert |NatText(n)| >= w - 1 by {
          if w > 1 { NatTextAtLeast(n, w - 1); }
        }
      }
    }
  }

  lemma {:induction false} NatTextAtLeast(n: nat, w: nat)
    requires 1 <= w && Pow10(w - 1) <= n
    ensures |NatText(n)| >= w
    decreases w
  {
    if w > 1 {
      assert NatText(n) == NatText(n / 10) + [DigitChar(n % 10)];
      NatTextAtLeast(n / 10, w - 1);
    }
  }

  /** date.isoformat() and strftime("%Y-%m-%d"): YYYY-MM-DD. */
  function IsoText(d: CivilDate): (s: string)
    ensures |s| == 10
  {
    ZeroPadWidth(d.year as nat, 4);
    ZeroPadWidth(d.month as nat, 2);
    ZeroPadWidth(d.day as nat, 2);
    ZeroPad(d.year as nat, 4) + "-" + ZeroPad(d.month as nat, 2) + "-" + ZeroPad(d.day as nat, 2)
  }
}
