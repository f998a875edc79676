/** The proleptic Gregorian calendar as ECMA-262 section 21.4.1 defines it: days are counted
    from 1970-01-01, and every number of days is one civil date. */
module CivilDate {
  datatype Date = Date(year: int, month: int, day: int)

  predicate Leap(y: int) {
    y % 4 == 0 && (y % 100 != 0 || y % 400 == 0)
  }

  function DaysInYear(y: int): int {
    if Leap(y) then 366 else 365
  }

  /** Days from 1970-01-01 to the first day of year y, counted year by year. */
  function DayFromYear(y: int): int
    decreases if y < 1970 then 1970 - y else y - 1970
  {
    if y == 1970 then 0
    else if y > 1970 then DayFromYear(y - 1) + DaysInYear(y - 1)
    else DayFromYear(y + 1) - DaysInYear(y)
  }

  lemma {:induction false} YearLength(y: int)
    ensures DayFromYear(y + 1) == DayFromYear(y) + DaysInYear(y)
  {
  }

  /** The closed form of section 21.4.1.3. */
  function EcmaDayFromYear(y: int): int {
    365 * (y - 1970) + (y - 1969) / 4 - (y - 1901) / 100 + (y - 1601) / 400
  }

  lemma {:induction false} CountsAsEcma(y: int)
    ensures DayFromYear(y) == EcmaDayFromYear(y)
    decreases if y < 1970 then 1970 - y else y - 1970
  {
    if y > 1970 {
      CountsAsEcma(y - 1);
      EcmaYearLength(y - 1);
    } else if y < 1970 {
      CountsAsEcma(y + 1);
      EcmaYearLength(y);
    }
  }

  lemma {:induction false} EcmaYearLength(y: int)
    ensures EcmaDayFromYear(y + 1) == EcmaDayFromYear(y) + DaysInYear(y)
  {
    FourthYear(y);
    HundredthYear(y);
    FourHundredthYear(y);
  }

  lemma {:induction false} FourthYear(y: int)
    ensures (y - 1968) / 4 == (y - 1969) / 4 + if y % 4 == 0 then 1 else 0
  {
    assert (y - 1968) / 4 == y / 4 - 492;
    assert (y - 1969) / 4 == (y - 1) / 4 - 492;
  }

  lemma {:induction false} HundredthYear(y: int)
    ensures (y - 1900) / 100 == (y - 1901) / 100 + if y % 100 == 0 then 1 else 0
    ensures y % 100 == 0 ==> y % 4 == 0
  {
    assert (y - 1900) / 100 == y / 100 - 19;
    assert (y - 1901) / 100 == (y - 1) / 100 - 19;
    if y % 100 == 0 { assert y == 4 * (25 * (y / 100)); }
  }

  lemma {:induction false} FourHundredthYear(y: int)
    ensures (y - 1600) / 400 == (y - 1601) / 400 + if y % 400 == 0 then 1 else 0
    ensures y % 400 == 0 ==> y % 100 == 0
  {
    assert (y - 1600) / 400 == y / 400 - 4;
    assert (y - 1601) / 400 == (y - 1) / 400 - 4;
    if y % 400 == 0 { assert y == 100 * (4 * (y / 400)); }
  }

  lemma {:induction false} YearsAscend(y: int, z: int)
    requires y < z
    ensures DayFromYear(y) < DayFromYear(z)
    decreases z - y
  {
    YearLength(z - 1);
    if y < z - 1 {
      YearsAscend(y, z - 1);
    }
  }

  /** The year whose days include n. */
  function YearFromDay(n: int): (y: int)
    ensures DayFromYear(y) <= n < DayFromYear(y + 1)
  {
    Search(n, 1970 + n / 366)
  }

  function Search(n: int, guess: int): (y: int)
    ensures DayFromYear(y) <= n < DayFromYear(y + 1)
    decreases if n < DayFromYear(guess) then DayFromYear(guess) - n
              else if n >= DayFromYear(guess + 1) then n - DayFromYear(guess + 1) + 1 else 0
  {
    YearsAscend(guess - 1, guess);
    YearsAscend(guess, guess + 1);
    if n < DayFromYear(guess) then Search(n, guess - 1)
    else if n >= DayFromYear(guess + 1) then Search(n, guess + 1)
    else guess
  }

  function DaysInMonth(leap: bool, m: int): (n: int)
    ensures 28 <= n <= 31
  {
    if m == 2 then if leap then 29 else 28
    else if m == 4 || m == 6 || m == 9 || m == 11 then 30
    else 31
  }

  /** Days of the year before month m; m = 13 stands for the year's end. */
  function MonthStart(leap: bool, m: int): (n: int)
    requires 1 <= m <= 13
    ensures n >= 0
  {
    if m == 1 then 0 else MonthStart(leap, m - 1) + DaysInMonth(leap, m - 1)
  }

  lemma {:induction false} YearIsTwelveMonths(leap: bool)
    ensures MonthStart(leap, 13) == if leap then 366 else 365
  {
    assert MonthStart(leap, 1) == 0 && MonthStart(leap, 2) == 31;
    assert MonthStart(leap, 3) == if leap then 60 else 59;
    assert MonthStart(leap, 5) == MonthStart(leap, 4) + 30 == MonthStart(leap, 3) + 61;
    assert MonthStart(leap, 7) == MonthStart(leap, 6) + 30 == MonthStart(leap, 5) + 61;
    assert MonthStart(leap, 9) == MonthStart(leap, 8) + 31 == MonthStart(leap, 7) + 62;
    assert MonthStart(leap, 11) == MonthStart(leap, 10) + 31 == MonthStart(leap, 9) + 61;
    assert MonthStart(leap, 13) == MonthStart(leap, 12) + 31 == MonthStart(leap, 11) + 61;
  }

  /** The months start where section 21.4.1.4 has them. */
  lemma {:induction false} MonthsStartAsEcma(leap: bool)
    ensures var l := if leap then 1 else 0;
            && MonthStart(leap, 1) == 0 && MonthStart(leap, 2) == 31 && MonthStart(leap, 3) == 59 + l
            && MonthStart(leap, 4) == 90 + l && MonthStart(leap, 5) == 120 + l && MonthStart(leap, 6) == 151 + l
            && MonthStart(leap, 7) == 181 + l && MonthStart(leap, 8) == 212 + l && MonthStart(leap, 9) == 243 + l
            && MonthStart(leap, 10) == 273 + l && MonthStart(leap, 11) == 304 + l && MonthStart(leap, 12) == 334 + l
            && MonthStart(leap, 13) == 365 + l
  {
  }

  lemma {:induction false} MonthsAscend(leap: bool, m: int, k: int)
    requires 1 <= m < k <= 13
    ensures MonthStart(leap, m + 1) <= MonthStart(leap, k) && MonthStart(leap, m) < MonthStart(leap, k)
    decreases k
  {
    if m + 1 < k { MonthsAscend(leap, m, k - 1); }
  }

  /** The month, from m on, that includes day d of the year. */
  function MonthFrom(leap: bool, d: int, m: int): (r: int)
    requires 1 <= m <= 12 && MonthStart(leap, m) <= d < MonthStart(leap, 13)
    ensures 1 <= r <= 12 && MonthStart(leap, r) <= d < MonthStart(leap, r + 1)
    decreases 13 - m
  {
    if d < MonthStart(leap, m + 1) then m else MonthFrom(leap, d, m + 1)
  }

  predicate Valid(d: Date) {
    1 <= d.month <= 12 && 1 <= d.day <= DaysInMonth(Leap(d.year), d.month)
  }

  function DayNumber(d: Date): int
    requires 1 <= d.month <= 12
  {
    DayFromYear(d.year) + MonthStart(Leap(d.year), d.month) + d.day - 1
  }

  /** The civil date of a day. */
  function DateOf(n: int): (d: Date)
    ensures 1 <= d.month <= 12
  {
    var y := YearFromDay(n);
    YearLength(y);
    YearIsTwelveMonths(Leap(y));
    var rest := n - DayFromYear(y);
    var m := MonthFrom(Leap(y), rest, 1);
    Date(y, m, rest - MonthStart(Leap(y), m) + 1)
  }

  /** 0 is Sunday. */
  function WeekDay(n: int): (w: int)
    ensures 0 <= w <= 6
  {
    (n + 4) % 7
  }

  /** Weekdays follow each other, and 1 January 1970 was a Thursday. */
  lemma {:induction false} WeekDaysFollow(n: int)
    ensures WeekDay(0) == 4 && WeekDay(n + 1) == if WeekDay(n) == 6 then 0 else WeekDay(n) + 1
  {
  }

  /** Every day number is one valid date, */
  lemma {:induction false} DayRoundTrip(n: int)
    ensures Valid(DateOf(n)) && DayNumber(DateOf(n)) == n
  {
  }

  /** and every valid date is one day number. */
  lemma {:induction false} DateRoundTrip(d: Date)
    requires Valid(d)
    ensures DateOf(DayNumber(d)) == d
  {
    hide YearFromDay, DayFromYear, MonthStart, MonthFrom;
    var n, y, leap := DayNumber(d), d.year, Leap(d.year);
    InItsYear(d);
    YearIsUnique(n, y, YearFromDay(n));
    YearLength(y);
    YearIsTwelveMonths(leap);
    WithinMonth(leap, d.month, d.day);
    MonthIsUnique(leap, n - DayFromYear(y), d.month, MonthFrom(leap, n - DayFromYear(y), 1));
  }

  lemma {:induction false} WithinMonth(leap: bool, m: int, day: int)
    requires 1 <= m <= 12 && 1 <= day <= DaysInMonth(leap, m)
    ensures MonthStart(leap, 1) == 0
    ensures MonthStart(leap, m) <= MonthStart(leap, m) + day - 1 < MonthStart(leap, m + 1)
  {
  }

  lemma {:induction false} InItsYear(d: Date)
    requires Valid(d)
    ensures DayFromYear(d.year) <= DayNumber(d) < DayFromYear(d.year + 1)
  {
    YearLength(d.year);
    YearIsTwelveMonths(Leap(d.year));
    MonthsAscend(Leap(d.year), d.month, 13);
  }

  lemma {:induction false} YearIsUnique(n: int, y: int, z: int)
    requires DayFromYear(y) <= n < DayFromYear(y + 1) && DayFromYear(z) <= n < DayFromYear(z + 1)
    ensures y == z
  {
    if y < z { Reaches(y + 1, z); }
    if z < y { Reaches(z + 1, y); }
  }

  lemma {:induction false} MonthIsUnique(leap: bool, d: int, m: int, k: int)
    requires 1 <= m <= 12 && MonthStart(leap, m) <= d < MonthStart(leap, m + 1)
    requires 1 <= k <= 12 && MonthStart(leap, k) <= d < MonthStart(leap, k + 1)
    ensures m == k
  {
    if m < k { MonthsAscend(leap, m, k); }
    if k < m { MonthsAscend(leap, k, m); }
  }

  lemma {:induction false} Reaches(y: int, z: int)
    requires y <= z
    ensures DayFromYear(y) <= DayFromYear(z)
  {
    if y < z { YearsAscend(y, z); }
  }
}
