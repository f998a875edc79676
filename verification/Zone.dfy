/** Wall clocks.  A time zone is an arbitrary function from UTC instants to offsets, both in
    milliseconds. */
module Zone {
  import opened CivilDate

  type Offset = int -> int

  const SECOND_MS := 1000
  const MINUTE_MS := 60_000
  const DAY_MS := 86_400_000

  /** The parts Intl prints: no part below the second, and the year without its era. */
  datatype Parts = Parts(date: Date, hour: int, minute: int, second: int)

  /** Years of our era are printed as they are; year 0 is 1 BC, and so on back. */
  function IntlYear(y: int): int {
    if y >= 1 then y else 1 - y
  }

  /** Date.UTC takes the years 0 to 99 for 1900 to 1999. */
  function UtcYear(y: int): int {
    if 0 <= y <= 99 then 1900 + y else y
  }

  function UtcDay(d: Date): int
    requires 1 <= d.month <= 12
  {
    DayNumber(d.(year := UtcYear(d.year)))
  }

  function PartsInTz(t: int, tz: Offset): (p: Parts)
    ensures 1 <= p.date.month <= 12
  {
    var secs := (t + tz(t)) / SECOND_MS;
    var d := DateOf(secs / 86400);
    Parts(d.(year := IntlYear(d.year)), secs / 3600 % 24, secs / 60 % 60, secs % 60)
  }

  function DateUtc(p: Parts): int
    requires 1 <= p.date.month <= 12
  {
    UtcDay(p.date) * DAY_MS + ((p.hour * 60 + p.minute) * 60 + p.second) * SECOND_MS
  }

  /** Offset of tz at t as the service measures it. */
  function TzOffsetMs(t: int, tz: Offset): int {
    DateUtc(PartsInTz(t, tz)) - t
  }

  /** The UTC instant for a wall-clock date and time in tz. */
  function ZonedWallTimeToUtc(d: Date, hh: int, mm: int, tz: Offset): int
    requires 1 <= d.month <= 12
  {
    var guess := DateUtc(Parts(d, hh, mm, 0));
    guess - TzOffsetMs(guess, tz)
  }

  // ---------- Properties ----------

  /** 1 January of the year 100: from here on the two year notations are the plain year. */
  ghost predicate Modern(ms: int) {
    ms >= DayFromYear(100) * DAY_MS
  }

  lemma {:induction false} ModernYear(n: int)
    requires n >= DayFromYear(100)
    ensures DateOf(n).year >= 100
  {
    DayRoundTrip(n);
    if DateOf(n).year < 100 {
      Reaches(DateOf(n).year + 1, 100);
    }
  }

  /** The probe is the zone's own offset, cut down to whole seconds of local time. */
  lemma {:induction false} ProbeReadsTheZone(t: int, tz: Offset)
    requires Modern(t + tz(t))
    ensures t + TzOffsetMs(t, tz) == (t + tz(t)) / SECOND_MS * SECOND_MS
    ensures PartsInTz(t, tz).date == DateOf((t + tz(t)) / DAY_MS) && PartsInTz(t, tz).date.year >= 100
  {
    hide DateOf, DayNumber;
    var local := t + tz(t);
    var secs := local / SECOND_MS;
    assert secs / 86400 == local / DAY_MS;
    ModernYear(secs / 86400);
    DayRoundTrip(secs / 86400);
    Clock(secs);
  }

  lemma {:induction false} Clock(secs: int)
    ensures secs == ((secs / 86400 * 24 + secs / 3600 % 24) * 60 + secs / 60 % 60) * 60 + secs % 60
  {
    assert secs / 3600 == secs / 60 / 60 && secs / 86400 == secs / 3600 / 24;
  }

  lemma {:induction false} UtcOfModern(d: Date, hh: int, mm: int, ss: int)
    requires 1 <= d.month <= 12 && d.year >= 100
    ensures DateUtc(Parts(d, hh, mm, ss)) == DayNumber(d) * DAY_MS + (hh * 3600 + mm * 60 + ss) * SECOND_MS
  {
    hide DayNumber;
    assert d.(year := d.year) == d;
  }

  /** A wall-clock time survives the trip to UTC and back exactly when the zone's offset at the
      answer is not less, nor a minute more, than the offset at the first guess. */
  lemma {:induction false} WallClockRoundTripExactly(d: Date, hh: int, mm: int, tz: Offset)
    requires Valid(d) && d.year >= 100 && 0 <= hh < 24 && 0 <= mm < 60
    requires var g := DateUtc(Parts(d, hh, mm, 0));
             var r := ZonedWallTimeToUtc(d, hh, mm, tz);
             Modern(g + tz(g)) && Modern(r + tz(r))
    ensures var g := DateUtc(Parts(d, hh, mm, 0));
            var r := ZonedWallTimeToUtc(d, hh, mm, tz);
            var p := PartsInTz(r, tz);
            (p.date == d && p.hour == hh && p.minute == mm)
            <==> 0 <= TzOffsetMs(r, tz) - TzOffsetMs(g, tz) < MINUTE_MS
  {
    hide DateOf, DayNumber, TzOffsetMs, DateUtc;
    var g := DateUtc(Parts(d, hh, mm, 0));
    var r := ZonedWallTimeToUtc(d, hh, mm, tz);
    var p := PartsInTz(r, tz);
    var secs := (r + tz(r)) / SECOND_MS;
    ProbeReadsTheZone(r, tz);
    UtcOfModern(d, hh, mm, 0);
    DayRoundTrip(secs / 86400);
    Clock(secs);
    assert p.date == DateOf(secs / 86400) by { ModernDate(r, tz); }
    assert g + (TzOffsetMs(r, tz) - TzOffsetMs(g, tz)) == secs * SECOND_MS;
    SameMinuteExactly(DayNumber(d), hh, mm, DayNumber(p.date), p.hour, p.minute, p.second);
    if DayNumber(d) == DayNumber(p.date) {
      DateRoundTrip(d);
      DateRoundTrip(p.date);
    }
  }

  lemma {:induction false} ModernDate(t: int, tz: Offset)
    requires Modern(t + tz(t))
    ensures PartsInTz(t, tz).date == DateOf((t + tz(t)) / SECOND_MS / 86400)
  {
    hide DateOf;
    assert (t + tz(t)) / SECOND_MS / 86400 == (t + tz(t)) / DAY_MS;
    ProbeReadsTheZone(t, tz);
  }

  lemma {:induction false} SameMinuteExactly(day: int, hh: int, mm: int, day': int, hh': int, mm': int, ss': int)
    requires 0 <= hh < 24 && 0 <= mm < 60 && 0 <= hh' < 24 && 0 <= mm' < 60 && 0 <= ss' < 60
    ensures (day == day' && hh == hh' && mm == mm')
       <==> 0 <= (((day' * 24 + hh') * 60 + mm') * 60 + ss') * SECOND_MS
                 - (day * DAY_MS + (hh * 3600 + mm * 60) * SECOND_MS) < MINUTE_MS
  {
  }

  // ---------- Where a wall-clock time is placed ----------

  /** What the clocks of the zone show at t. */
  function Shown(tz: Offset, t: int): int {
    t + tz(t)
  }

  /** Offsets are whole seconds, of less than a day. */
  ghost predicate Civil(tz: Offset) {
    forall t :: tz(t) % SECOND_MS == 0 && -DAY_MS < tz(t) < DAY_MS
  }

  /** A wall-clock time as if it were UTC. */
  function Wall(day: int, hh: int, mm: int): int {
    day * DAY_MS + (hh * 60 + mm) * MINUTE_MS
  }

  lemma {:induction false} WholeSecond(ms: int)
    requires ms % SECOND_MS == 0
    ensures ms / SECOND_MS * SECOND_MS == ms
  {
  }

  lemma {:induction false} ProbeOfWholeSeconds(t: int, tz: Offset)
    requires Modern(t + tz(t)) && (t + tz(t)) % SECOND_MS == 0
    ensures TzOffsetMs(t, tz) == tz(t)
  {
    hide *;
    ProbeReadsTheZone(t, tz);
    WholeSecond(t + tz(t));
  }

  lemma {:induction false} WallIsWhole(day: int, hh: int, mm: int, c: int)
    requires c % SECOND_MS == 0
    ensures (Wall(day, hh, mm) + c) % SECOND_MS == 0
  {
    var m := (day * 1440 + hh * 60 + mm) * 60;
    assert Wall(day, hh, mm) == m * SECOND_MS;
    assert c == c / SECOND_MS * SECOND_MS;
    Multiple(m + c / SECOND_MS);
  }

  lemma {:induction false} Multiple(k: int)
    ensures k * SECOND_MS % SECOND_MS == 0
  {
  }

  lemma {:induction false} WallIsModern(day: int, hh: int, mm: int, c: int)
    requires day > DayFromYear(100) && 0 <= hh && 0 <= mm && -DAY_MS < c
    ensures Modern(Wall(day, hh, mm) + c)
  {
    hide DayFromYear;
  }

  /** A wall-clock time is placed by the offset that holds at the guess. */
  lemma {:induction false} PlacedByTheGuess(d: Date, hh: int, mm: int, tz: Offset)
    requires Valid(d) && DayNumber(d) > DayFromYear(100) && 0 <= hh && 0 <= mm && Civil(tz)
    ensures var w := Wall(DayNumber(d), hh, mm); ZonedWallTimeToUtc(d, hh, mm, tz) == w - tz(w)
  {
    var w := Wall(DayNumber(d), hh, mm);
    assert d.year >= 100 by { YearOfModern(d); }
    assert DateUtc(Parts(d, hh, mm, 0)) == w by { hide DayNumber; UtcOfModern(d, hh, mm, 0); }
    WallIsWhole(DayNumber(d), hh, mm, tz(w));
    WallIsModern(DayNumber(d), hh, mm, tz(w));
    hide DateUtc, TzOffsetMs, DayNumber, DayFromYear, Wall, Civil, Modern, Valid;
    ProbeOfWholeSeconds(w, tz);
  }

  lemma {:induction false} YearOfModern(d: Date)
    requires Valid(d) && DayNumber(d) >= DayFromYear(100)
    ensures d.year >= 100
  {
    hide DayNumber, DayFromYear;
    InItsYear(d);
    if d.year < 100 { Reaches(d.year + 1, 100); }
  }

  /** What the clocks show is what is printed. */
  lemma {:induction false} PrintsTheClock(t: int, tz: Offset, day: int, hh: int, mm: int)
    requires Shown(tz, t) == Wall(day, hh, mm) && 0 <= hh < 24 && 0 <= mm < 60
    ensures PartsInTz(t, tz).hour == hh && PartsInTz(t, tz).minute == mm
  {
    hide DateOf;
    var secs := (t + tz(t)) / SECOND_MS;
    assert t + tz(t) == (day * 86400 + hh * 3600 + mm * 60) * SECOND_MS;
    Exact(day * 86400 + hh * 3600 + mm * 60);
    ClockDigits(day, hh, mm);
  }

  lemma {:induction false} Exact(k: int)
    ensures k * SECOND_MS / SECOND_MS == k
  {
  }

  lemma {:induction false} ClockDigits(day: int, hh: int, mm: int)
    requires 0 <= hh < 24 && 0 <= mm < 60
    ensures var secs := day * 86400 + hh * 3600 + mm * 60; secs / 3600 % 24 == hh && secs / 60 % 60 == mm
  {
    var h := day * 24 + hh;
    var m := h * 60 + mm;
    assert (m * 60) / 60 == m && (m * 60) / 3600 == m / 60;
    assert m / 60 == h && m % 60 == mm && h % 24 == hh;
  }

  // ---------- A skipped hour, and an hour that is not ----------

  /** Clocks go from 01:00 to 02:00 on the given day, as in London. */
  function SpringEast(day: int): Offset {
    t => if t < Wall(day, 1, 0) then 0 else 60 * MINUTE_MS
  }

  /** Clocks go from 02:00 to 03:00 on the given day, five hours behind, as in New York. */
  function SpringWest(day: int): Offset {
    t => if t < Wall(day, 7, 0) then -300 * MINUTE_MS else -240 * MINUTE_MS
  }

  /** A class at 01:30 in the hour that a spring change skips is placed at 00:30. */
  lemma {:induction false} SkippedTimeMovesBack(d: Date)
    requires Valid(d) && DayNumber(d) > DayFromYear(100)
    ensures var tz := SpringEast(DayNumber(d));
            var p := PartsInTz(ZonedWallTimeToUtc(d, 1, 30, tz), tz);
            p.hour == 0 && p.minute == 30
  {
    hide DayNumber, DayFromYear, DateOf, PartsInTz, ZonedWallTimeToUtc;
    var day, tz := DayNumber(d), SpringEast(DayNumber(d));
    PlacedByTheGuess(d, 1, 30, tz);
    PrintsTheClock(Wall(day, 0, 30), tz, day, 0, 30);
  }

  /** A class at 04:00 on a day whose clocks changed at 02:00 is placed at 05:00, although the
      clocks show 04:00 once that day, at 08:00 UTC. */
  lemma {:induction false} PlainTimeMovesAhead(d: Date)
    requires Valid(d) && DayNumber(d) > DayFromYear(100)
    ensures var day, tz := DayNumber(d), SpringWest(DayNumber(d));
            var p := PartsInTz(ZonedWallTimeToUtc(d, 4, 0, tz), tz);
            && (forall u :: Shown(tz, u) == Wall(day, 4, 0) <==> u == Wall(day, 8, 0))
            && ZonedWallTimeToUtc(d, 4, 0, tz) == Wall(day, 9, 0)
            && p.hour == 5 && p.minute == 0
  {
    hide DayNumber, DayFromYear, DateOf, PartsInTz, ZonedWallTimeToUtc;
    var day, tz := DayNumber(d), SpringWest(DayNumber(d));
    PlacedByTheGuess(d, 4, 0, tz);
    PrintsTheClock(Wall(day, 9, 0), tz, day, 5, 0);
  }
}
