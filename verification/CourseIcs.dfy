/** The calendar file of a course, and what a calendar that follows RFC 5545 makes of it. */
module CourseIcs {
  import opened Wrappers
  import opened Text
  import opened CivilDate
  import opened Zone
  import opened Schedule
  import opened JoinWindow
  import opened LocalTime

  /** The values of the event's properties that say when it happens. */
  datatype Event = Event(tzid: Offset, dtstart: string, dtend: string, byday: string, until: string)

  const DURATION_MIN := 60

  // ---------- Writing ----------

  /** YYYYMMDDTHHMM. */
  function StampText(d: Date, hh: int, mm: int): string {
    YearOf(d.year) + PadInt(d.month) + PadInt(d.day) + "T" + PadInt(hh) + PadInt(mm)
  }

  function MinuteStamp(ms: int): string {
    StampText(DateOf(ms / DAY_MS), ms / MINUTE_MS / 60 % 24, ms / MINUTE_MS % 60)
  }

  function UtcStamp(ms: int): string {
    MinuteStamp(ms) + PadInt(ms / SECOND_MS % 60) + "Z"
  }

  /** String.prototype.slice. */
  function Slice(s: string, i: nat, j: nat): string
    requires i <= j
  {
    s[if i < |s| then i else |s|..if j < |s| then j else |s|]
  }

  /** Number of a piece of a date key: nothing is 0, and NaN is None. */
  function ReadNumber(s: string): Option<int> {
    if s == "" then Some(0)
    else if s[0] == '-' then match ParseDec(s[1..]) case Some(n) => Some(-(n as int)) case None => None
    else ParseDec(s)
  }

  /** Date.UTC, which carries months into years. */
  function UtcMinute(y: int, month: int, day: int, hh: int, mm: int): int {
    Wall(DayNumber(Date(UtcYear(y) + (month - 1) / 12, (month - 1) % 12 + 1, day)), hh, mm)
  }

  /** Wall-clock stamp for a local date and time; the date is read back from its key by fixed
      positions. */
  function LocalStamp(key: string, hh: nat, mm: nat, addMin: nat): string {
    match (ReadNumber(Slice(key, 0, 4)), ReadNumber(Slice(key, 5, 7)), ReadNumber(Slice(key, 8, 10)))
    case (Some(y), Some(mo), Some(d)) => MinuteStamp(UtcMinute(y, mo, d, hh, mm) + addMin * MINUTE_MS) + "00"
    case _ => "NaNNaNNaNTNaNNaN00"
  }

  const ICS_DAYS := ["SU", "MO", "TU", "WE", "TH", "FR", "SA"]

  /** join prints nothing for a number that names no weekday. */
  function DayCode(d: int): string {
    if 0 <= d <= 6 then ICS_DAYS[d] else ""
  }

  function JoinCodes(days: seq<int>): string {
    if days == [] then ""
    else if |days| == 1 then DayCode(days[0])
    else DayCode(days[0]) + "," + JoinCodes(days[1..])
  }

  function BuildCourseIcs(s: CourseSchedule): Option<Event> {
    var occ := Meetings(s);
    if occ == [] then None else
    var time := ParseHhmm(s.meetingTime.value).value;
    var key := occ[0].dateKey;
    Some(Event(
      s.timezone.value,
      LocalStamp(key, time.hh, time.mm, 0),
      LocalStamp(key, time.hh, time.mm, DURATION_MIN),
      JoinCodes(Days(s.meetingDays)),
      UtcStamp(occ[|occ| - 1].scheduledAt)))
  }

  // ---------- Reading, after RFC 5545 ----------

  /** DATE-TIME of section 3.3.5, as milliseconds of the clock it belongs to. */
  function ReadStamp(s: string): Option<int> {
    if |s| != 15 || s[8] != 'T' then None else
    match (ParseDec(s[0..4]), ParseDec(s[4..6]), ParseDec(s[6..8]),
           ParseDec(s[9..11]), ParseDec(s[11..13]), ParseDec(s[13..15]))
    case (Some(y), Some(mo), Some(d), Some(hh), Some(mm), Some(ss)) =>
      if Valid(Date(y, mo, d)) && hh < 24 && mm < 60 && ss <= 60
      then Some(DayNumber(Date(y, mo, d)) * DAY_MS + (hh * 3600 + mm * 60 + ss) * SECOND_MS)
      else None
    case _ => None
  }

  function ReadUtc(s: string): Option<int> {
    if |s| == 16 && s[15] == 'Z' then ReadStamp(s[..15]) else None
  }

  function ReadCode(s: string): Option<int> {
    if s == "SU" then Some(0) else if s == "MO" then Some(1) else if s == "TU" then Some(2)
    else if s == "WE" then Some(3) else if s == "TH" then Some(4) else if s == "FR" then Some(5)
    else if s == "SA" then Some(6) else None
  }

  /** The BYDAY list of section 3.3.10. */
  function ReadByDay(s: string): Option<set<int>> {
    if |s| < 2 then None else
    match ReadCode(s[..2])
    case None => None
    case Some(d) =>
      if |s| == 2 then Some({d})
      else if s[2] != ',' then None
      else match ReadByDay(s[3..])
        case None => None
        case Some(rest) => Some({d} + rest)
  }

  /** FREQ=WEEKLY: the first start on the wall clock, the weekdays, and the last instant. */
  datatype Rule = Rule(start: int, byday: set<int>, until: int)

  function ReadRule(e: Event): Option<Rule> {
    match (ReadStamp(e.dtstart), ReadByDay(e.byday), ReadUtc(e.until))
    case (Some(start), Some(byday), Some(until)) => Some(Rule(start, byday, until))
    case _ => None
  }

  function InstanceWall(r: Rule, day: int): int {
    day * DAY_MS + r.start % DAY_MS
  }

  /** Section 3.3.10: every named weekday from DTSTART on, at DTSTART's time of day, until UNTIL
      inclusive; DTSTART is itself an instance. */
  ghost predicate IsInstance(r: Rule, read: Reader, day: int) {
    var first := r.start / DAY_MS;
    && day >= first
    && (day == first || WeekDay(day) in r.byday)
    && read(InstanceWall(r, day)) <= r.until
  }

  // ---------- The stamps are read back ----------

  ghost predicate FourDigitYear(ms: int) {
    DayFromYear(1000) * DAY_MS <= ms < DayFromYear(10000) * DAY_MS
  }

  lemma {:induction false} FourDigits(ms: int)
    requires FourDigitYear(ms)
    ensures 1000 <= DateOf(ms / DAY_MS).year <= 9999 && Valid(DateOf(ms / DAY_MS))
    ensures DayNumber(DateOf(ms / DAY_MS)) == ms / DAY_MS
  {
    hide YearFromDay;
    var n := ms / DAY_MS;
    DayRoundTrip(n);
    InItsYear(DateOf(n));
    var y := DateOf(n).year;
    if y < 1000 { Reaches(y + 1, 1000); }
    if y > 9999 { Reaches(10000, y); }
  }

  lemma {:induction false} StampParts(y: string, mo: string, d: string, hh: string, mm: string, ss: string)
    requires |y| == 4 && |mo| == |d| == |hh| == |mm| == |ss| == 2
    ensures var s := y + mo + d + "T" + hh + mm + ss;
            && |s| == 15 && s[8] == 'T' && s[0..4] == y && s[4..6] == mo && s[6..8] == d
            && s[9..11] == hh && s[11..13] == mm && s[13..15] == ss
  {
  }

  lemma {:induction false} StampReads(d: Date, hh: nat, mm: nat, ss: nat, s: string)
    requires Valid(d) && hh < 24 && mm < 60 && ss < 60
    requires |s| == 15 && s[8] == 'T'
    requires ParseDec(s[0..4]) == Some(d.year) && ParseDec(s[4..6]) == Some(d.month) && ParseDec(s[6..8]) == Some(d.day)
    requires ParseDec(s[9..11]) == Some(hh) && ParseDec(s[11..13]) == Some(mm) && ParseDec(s[13..15]) == Some(ss)
    ensures ReadStamp(s) == Some(DayNumber(d) * DAY_MS + (hh * 3600 + mm * 60 + ss) * SECOND_MS)
  {
    hide ParseDec, DayNumber;
    assert Date(d.year, d.month, d.day) == d;
  }

  lemma {:induction false} MinuteDigits(ms: int)
    ensures var mins := ms / MINUTE_MS;
            ms / DAY_MS * DAY_MS + (mins / 60 % 24 * 3600 + mins % 60 * 60) * SECOND_MS == mins * MINUTE_MS
  {
    var mins := ms / MINUTE_MS;
    assert ms / DAY_MS == mins / 60 / 24;
  }

  lemma {:induction false} TextReads(d: Date, hh: nat, mm: nat, ss: nat)
    requires Valid(d) && 1000 <= d.year <= 9999 && hh < 24 && mm < 60 && ss < 60
    ensures |StampText(d, hh, mm)| == 13
    ensures ReadStamp(StampText(d, hh, mm) + Pad(ss))
         == Some(DayNumber(d) * DAY_MS + (hh * 3600 + mm * 60 + ss) * SECOND_MS)
  {
    assert StampText(d, hh, mm) + Pad(ss) == Dec(d.year) + Pad(d.month) + Pad(d.day) + "T" + Pad(hh) + Pad(mm) + Pad(ss);
    hide DayNumber, ParseDec, Dec, Pad, ReadStamp, Number, StampText;
    DecOfFour(d.year);
    DecRoundTrip(d.year);
    PadRoundTrip(d.month);
    PadRoundTrip(d.day);
    PadRoundTrip(hh);
    PadRoundTrip(mm);
    PadRoundTrip(ss);
    StampParts(Dec(d.year), Pad(d.month), Pad(d.day), Pad(hh), Pad(mm), Pad(ss));
    StampReads(d, hh, mm, ss, StampText(d, hh, mm) + Pad(ss));
  }

  lemma {:induction false} StampRoundTrip(ms: int, ss: nat)
    requires FourDigitYear(ms) && ss < 60
    ensures |MinuteStamp(ms)| == 13
    ensures ReadStamp(MinuteStamp(ms) + Pad(ss)) == Some(ms / MINUTE_MS * MINUTE_MS + ss * SECOND_MS)
  {
    hide DateOf, DayNumber, Pad, FourDigitYear, ReadStamp, Valid, StampText;
    var d, hh, mm := DateOf(ms / DAY_MS), ms / MINUTE_MS / 60 % 24, ms / MINUTE_MS % 60;
    FourDigits(ms);
    TextReads(d, hh, mm, ss);
    MinuteDigits(ms);
    Scale(hh, mm, ss);
  }

  lemma {:induction false} Scale(hh: int, mm: int, ss: int)
    ensures (hh * 3600 + mm * 60 + ss) * SECOND_MS == (hh * 3600 + mm * 60) * SECOND_MS + ss * SECOND_MS
  {
  }

  // ---------- The weekday list is read back ----------

  ghost function DaySet(days: seq<int>): set<int> {
    set d | d in days
  }

  lemma {:induction false} CodeReadsBack(d: int)
    requires 0 <= d <= 6
    ensures |DayCode(d)| == 2 && ReadCode(DayCode(d)) == Some(d)
  {
  }

  lemma {:induction false} CommaIsNoCode(s: string)
    requires |s| == 2 && s[0] == ','
    ensures ReadCode(s) == None
  {
  }

  /** A BYDAY list that names the meeting days is written exactly when every one is a weekday. */
  lemma {:induction false} ByDayReadableExactly(days: seq<int>)
    requires days != []
    ensures ReadByDay(JoinCodes(days))
         == if forall d :: d in days ==> 0 <= d <= 6 then Some(DaySet(days)) else None
  {
    hide ReadCode;
    var s, code, rest := JoinCodes(days), DayCode(days[0]), days[1..];
    assert days == [days[0]] + rest;
    assert forall d :: d in days <==> d == days[0] || d in rest;
    assert DaySet(days) == {days[0]} + DaySet(rest);
    if rest != [] {
      ByDayReadableExactly(rest);
    }
    if 0 <= days[0] <= 6 {
      CodeReadsBack(days[0]);
      assert s[..2] == code && s != "";
      if rest == [] {
        assert s == code && DaySet(days) == {days[0]};
      } else {
        assert s[2] == ',' && s[3..] == JoinCodes(rest);
      }
    } else if |s| >= 2 {
      CommaIsNoCode(s[..2]);
    }
  }

  /** A Monday and a day 7 give a list that no calendar reads. */
  lemma {:induction false} StrayDayBreaksTheRule()
    ensures JoinCodes([1, 7]) == "MO," && ReadByDay(JoinCodes([1, 7])) == None
  {
    assert 7 in [1, 7];
    ByDayReadableExactly([1, 7]);
    assert [1, 7][1..] == [7];
  }

  // ---------- The calendar shows the same meetings ----------

  lemma {:induction false} ReadsDigits(s: string, n: nat)
    requires s != "" && AllDigits(s) && Number(s) == n
    ensures ReadNumber(s) == Some(n)
  {
    assert IsDigit(s[0]);
  }

  lemma {:induction false} PiecesOfKey(y: string, m: string, d: string)
    requires |y| == 4 && |m| == |d| == 2
    ensures var key := y + "-" + m + "-" + d;
            |key| == 10 && Slice(key, 0, 4) == y && Slice(key, 5, 7) == m && Slice(key, 8, 10) == d
  {
    PartsOfKey(y, m, d);
  }

  lemma {:induction false} KeySlices(d: Date)
    requires Valid(d) && 1000 <= d.year <= 9999
    ensures var key := DateKey(d);
            && ReadNumber(Slice(key, 0, 4)) == Some(d.year) && ReadNumber(Slice(key, 5, 7)) == Some(d.month)
            && ReadNumber(Slice(key, 8, 10)) == Some(d.day)
  {
    hide ReadNumber, Dec, Pad, Slice, Number;
    DecOfFour(d.year);
    DecRoundTrip(d.year);
    PadRoundTrip(d.month);
    PadRoundTrip(d.day);
    PiecesOfKey(Dec(d.year), Pad(d.month), Pad(d.day));
    ReadsDigits(Dec(d.year), d.year);
    ReadsDigits(Pad(d.month), d.month);
    ReadsDigits(Pad(d.day), d.day);
  }

  lemma {:induction false} PlainUtc(d: Date, hh: nat, mm: nat)
    requires Valid(d) && d.year >= 100
    ensures UtcMinute(d.year, d.month, d.day, hh, mm) == Wall(DayNumber(d), hh, mm)
  {
    hide DayNumber;
    assert (d.month - 1) / 12 == 0 && (d.month - 1) % 12 == d.month - 1;
    assert d == Date(d.year, d.month, d.day);
  }

  lemma {:induction false} LocalStampReads(d: Date, hh: nat, mm: nat, addMin: nat)
    requires Valid(d) && 1000 <= d.year <= 9999 && hh < 24 && mm < 60
    requires FourDigitYear(Wall(DayNumber(d), hh, mm) + addMin * MINUTE_MS)
    ensures ReadStamp(LocalStamp(DateKey(d), hh, mm, addMin)) == Some(Wall(DayNumber(d), hh, mm) + addMin * MINUTE_MS)
  {
    hide DateKey, DayNumber, ReadNumber, Slice, MinuteStamp, ReadStamp, UtcMinute, FourDigitYear, Wall;
    var w := Wall(DayNumber(d), hh, mm) + addMin * MINUTE_MS;
    KeySlices(d);
    PlainUtc(d, hh, mm);
    assert LocalStamp(DateKey(d), hh, mm, addMin) == MinuteStamp(w) + "00";
    StampRoundTrip(w, 0);
    WholeMinute(DayNumber(d), hh, mm, addMin);
    assert Pad(0) == "00" by { assert Dec(0) == "0"; }
  }

  lemma {:induction false} WholeMinute(day: int, hh: int, mm: int, addMin: int)
    ensures var w := Wall(day, hh, mm) + addMin * MINUTE_MS; w / MINUTE_MS * MINUTE_MS == w
  {
    assert Wall(day, hh, mm) + addMin * MINUTE_MS == (day * 1440 + hh * 60 + mm + addMin) * MINUTE_MS;
    WholeOf(day * 1440 + hh * 60 + mm + addMin);
  }

  lemma {:induction false} WholeOf(k: int)
    ensures k * MINUTE_MS / MINUTE_MS == k
  {
  }

  // ---------- The rule is read back ----------

  /** Every meeting day uses the general time. */
  ghost predicate NoOverrides(p: Plan) {
    forall w :: w in p.days ==> TimeOn(p, w) == p.general
  }

  /** A complete schedule that meets at least once, in years of four digits. */
  ghost predicate Schedulable(s: CourseSchedule, p: Plan) {
    && PlanOf(s) == Some(p)
    && var picks := Picks(p, p.dayCount);
       && picks != []
       && FourDigitYear(WallMs(p, picks[0]))
       && FourDigitYear(Meeting(p, picks[|picks| - 1]).scheduledAt)
  }

  /** From the first meeting on, the run is in years of more than two digits. */
  lemma {:induction false} RunIsModern(p: Plan, i: int)
    requires i in Picks(p, p.dayCount) && FourDigitYear(WallMs(p, Picks(p, p.dayCount)[0]))
    requires p.general.hh < 24 && p.general.mm < 60 && NoOverrides(p)
    ensures p.base + i > DayFromYear(100) && i >= 0 && Meets(p, i)
  {
    var picks := Picks(p, p.dayCount);
    PicksAreTheMeetingDays(p, p.dayCount);
    assert picks[0] in picks && Meets(p, picks[0]);
    assert i >= picks[0];
    hide Picks, DayFromYear;
    assert DayFromYear(100) < DayFromYear(1000) by { YearsAscend(100, 1000); }
    DayOfWall(p.base + picks[0], p.general.hh, p.general.mm);
  }

  lemma {:induction false} DayOfWall(day: int, hh: nat, mm: nat)
    requires hh < 24 && mm < 60
    ensures Wall(day, hh, mm) / DAY_MS == day && Wall(day, hh, mm) % DAY_MS == (hh * 60 + mm) * MINUTE_MS
  {
    assert 0 <= (hh * 60 + mm) * MINUTE_MS < DAY_MS;
  }

  lemma {:induction false} WholeSeconds(p: Plan, i: int)
    requires p.base + i >= DayFromYear(100)
    ensures Meeting(p, i).scheduledAt % SECOND_MS == 0
  {
    hide Meeting, PartsInTz, DateOf, UtcDay, DayFromYear;
    MeetingAt(p, i);
    var w, t := WallMs(p, i), TimeOn(p, WeekDay(p.base + i));
    var parts := PartsInTz(w, p.tz);
    WallIsWhole(p.base + i, t.hh, t.mm, 0);
    var q := UtcDay(parts.date) * 86400 + (parts.hour * 60 + parts.minute) * 60 + parts.second;
    assert DateUtc(parts) == q * SECOND_MS;
    Twice(w, q);
  }

  lemma {:induction false} Twice(w: int, q: int)
    requires w % SECOND_MS == 0
    ensures (w - (q * SECOND_MS - w)) % SECOND_MS == 0
  {
    WholeSecond(w);
    assert w - (q * SECOND_MS - w) == (2 * (w / SECOND_MS) - q) * SECOND_MS;
    Multiple(2 * (w / SECOND_MS) - q);
  }

  lemma {:induction false} StartReads(p: Plan, i: int, addMin: nat)
    requires Meets(p, i) && NoOverrides(p) && p.general.hh < 24 && p.general.mm < 60
    requires FourDigitYear(WallMs(p, i)) && FourDigitYear(WallMs(p, i) + addMin * MINUTE_MS)
    ensures ReadStamp(LocalStamp(Meeting(p, i).dateKey, p.general.hh, p.general.mm, addMin))
         == Some(WallMs(p, i) + addMin * MINUTE_MS)
  {
    hide DateOf, DateKey, ZonedWallTimeToUtc, LocalStamp, ReadStamp, DayNumber;
    FourDigits(WallMs(p, i));
    DayOfWall(p.base + i, p.general.hh, p.general.mm);
    LocalStampReads(DateOf(p.base + i), p.general.hh, p.general.mm, addMin);
  }

  lemma {:induction false} UntilReads(p: Plan, i: int)
    requires p.base + i >= DayFromYear(100) && FourDigitYear(Meeting(p, i).scheduledAt)
    ensures ReadUtc(UtcStamp(Meeting(p, i).scheduledAt)) == Some(Meeting(p, i).scheduledAt)
  {
    WholeSeconds(p, i);
    hide Meeting;
    UtcReads(Meeting(p, i).scheduledAt);
  }

  lemma {:induction false} UtcReads(at: int)
    requires FourDigitYear(at) && at % SECOND_MS == 0
    ensures ReadUtc(UtcStamp(at)) == Some(at)
  {
    hide MinuteStamp, ReadStamp, Pad, FourDigitYear;
    var ss := at / SECOND_MS % 60;
    StampRoundTrip(at, ss);
    PadRoundTrip(ss);
    assert UtcStamp(at)[..15] == MinuteStamp(at) + Pad(ss);
    MinutesAndSeconds(at);
  }

  lemma {:induction false} MinutesAndSeconds(at: int)
    requires at % SECOND_MS == 0
    ensures at == at / MINUTE_MS * MINUTE_MS + at / SECOND_MS % 60 * SECOND_MS
  {
    WholeSecond(at);
    assert at / MINUTE_MS == at / SECOND_MS / 60;
  }

  ghost function RuleFor(p: Plan): Rule
    requires Picks(p, p.dayCount) != []
  {
    var picks := Picks(p, p.dayCount);
    Rule(WallMs(p, picks[0]), DaySet(p.days), Meeting(p, picks[|picks| - 1]).scheduledAt)
  }

  lemma {:induction false} RuleOf(s: CourseSchedule, p: Plan)
    requires Schedulable(s, p) && NoOverrides(p)
    ensures BuildCourseIcs(s).Some?
    ensures ReadRule(BuildCourseIcs(s).value)
         == if forall d :: d in p.days ==> 0 <= d <= 6 then Some(RuleFor(p)) else None
  {
    hide BuildCourseIcs, DateOf, DateKey, ZonedWallTimeToUtc, UtcStamp, LocalStamp, JoinCodes, ReadStamp, ReadByDay, ReadUtc;
    hide PlanOf, Meeting, WallMs, DayFromYear, Picks, DaySet, FourDigitYear, NoOverrides, Meets;
    var picks := Picks(p, p.dayCount);
    EventOf(s, p);
    assert picks[0] in picks && picks[|picks| - 1] in picks;
    RunIsModern(p, picks[0]);
    RunIsModern(p, picks[|picks| - 1]);
    StartReads(p, picks[0], 0);
    UntilReads(p, picks[|picks| - 1]);
    ByDayReadableExactly(p.days);
  }

  lemma {:induction false} EventOf(s: CourseSchedule, p: Plan)
    requires PlanOf(s) == Some(p) && Picks(p, p.dayCount) != []
    ensures var picks := Picks(p, p.dayCount);
            && BuildCourseIcs(s).Some? && p.days != [] && p.general.hh < 24 && p.general.mm < 60
            && var e := BuildCourseIcs(s).value;
               && e.tzid == p.tz
               && e.dtstart == LocalStamp(Meeting(p, picks[0]).dateKey, p.general.hh, p.general.mm, 0)
               && e.dtend == LocalStamp(Meeting(p, picks[0]).dateKey, p.general.hh, p.general.mm, DURATION_MIN)
               && e.byday == JoinCodes(p.days)
               && e.until == UtcStamp(Meeting(p, picks[|picks| - 1]).scheduledAt)
  {
    hide LocalStamp, UtcStamp, JoinCodes, Meeting, Picks, ParseHhmm, PartsInTz, UtcDay, TimesByDay, Days;
  }

  /** A file is written exactly for a course that has a meeting. */
  lemma {:induction false} WrittenExactly(s: CourseSchedule)
    ensures BuildCourseIcs(s).Some? <==> Meetings(s) != []
  {
    hide Meetings, LocalStamp, UtcStamp, JoinCodes;
  }

  /** The first meeting is written as lasting an hour from its own wall-clock time. */
  lemma {:induction false} LastsAnHour(s: CourseSchedule, p: Plan, e: Event)
    requires Schedulable(s, p) && NoOverrides(p) && BuildCourseIcs(s) == Some(e)
    requires FourDigitYear(WallMs(p, Picks(p, p.dayCount)[0]) + 3_600_000)
    ensures ReadStamp(e.dtstart) == Some(WallMs(p, Picks(p, p.dayCount)[0]))
    ensures ReadStamp(e.dtend) == Some(WallMs(p, Picks(p, p.dayCount)[0]) + 3_600_000)
  {
    hide BuildCourseIcs, DateOf, DateKey, LocalStamp, ReadStamp, PlanOf, Meeting, WallMs, Picks, FourDigitYear, NoOverrides, Meets;
    var first := Picks(p, p.dayCount)[0];
    EventOf(s, p);
    assert first in Picks(p, p.dayCount);
    RunIsModern(p, first);
    StartReads(p, first, 0);
    StartReads(p, first, 60);
  }

  // ---------- The calendar shows the same meetings ----------

  /** The list has a meeting on this day, at this instant. */
  ghost predicate Listed(occ: seq<Occurrence>, day: int, at: int) {
    exists k :: 0 <= k < |occ| && occ[k] == Occurrence(DateKey(DateOf(day)), at)
  }

  /** The recurrence and the list have the same dates at the same instants, none extra and none
      missing. */
  ghost predicate ShowsExactly(r: Rule, read: Reader, occ: seq<Occurrence>) {
    forall day: int, at: int ::
      Listed(occ, day, at) <==> IsInstance(r, read, day) && at == read(InstanceWall(r, day))
  }

  /** What a calendar takes the general time of a day for. */
  ghost function ReadOn(p: Plan, read: Reader, day: int): int {
    read(Wall(day, p.general.hh, p.general.mm))
  }

  ghost predicate ReadsAscend(p: Plan, read: Reader) {
    forall m, n :: m < n ==> ReadOn(p, read, m) < ReadOn(p, read, n)
  }

  ghost predicate ReadsAlike(p: Plan, read: Reader) {
    forall i :: i in Picks(p, p.dayCount) ==> ReadOn(p, read, p.base + i) == Meeting(p, i).scheduledAt
  }

  lemma {:induction false} LaterWall(day: int, day': int, hh: int, mm: int)
    requires day < day'
    ensures Wall(day, hh, mm) + DAY_MS <= Wall(day', hh, mm)
  {
  }

  lemma {:induction false} FollowersAscend(p: Plan, read: Reader)
    requires Follows(read, p.tz) && Narrow(p.tz)
    ensures ReadsAscend(p, read)
  {
    forall m, n | m < n ensures ReadOn(p, read, m) < ReadOn(p, read, n) {
      var w, w' := Wall(m, p.general.hh, p.general.mm), Wall(n, p.general.hh, p.general.mm);
      LaterWall(m, n, p.general.hh, p.general.mm);
      hide Wall, Narrow, Reads;
      ReadingsAscend(p.tz, w, read(w), w', read(w'));
    }
  }

  /** Every meeting's wall-clock time has the offset that holds at the guess. */
  ghost predicate GuessesHold(p: Plan) {
    forall i :: i in Picks(p, p.dayCount) ==> GuessHolds(p.tz, WallMs(p, i))
  }

  lemma {:induction false} AlikeExactly(p: Plan, read: Reader)
    requires Follows(read, p.tz) && Civil(p.tz) && NoOverrides(p) && p.general.hh < 24 && p.general.mm < 60
    requires Picks(p, p.dayCount) != [] && FourDigitYear(WallMs(p, Picks(p, p.dayCount)[0]))
    ensures ReadsAlike(p, read) <==> GuessesHold(p)
  {
    hide Picks, Meeting, GuessHolds, Reads, DayFromYear, Civil, FourDigitYear;
    forall i | i in Picks(p, p.dayCount)
      ensures ReadOn(p, read, p.base + i) == Meeting(p, i).scheduledAt <==> GuessHolds(p.tz, WallMs(p, i))
    {
      RunIsModern(p, i);
      MeetingPlaced(p, i);
      assert WallMs(p, i) == Wall(p.base + i, p.general.hh, p.general.mm);
      PlacedAsReadExactly(p.tz, WallMs(p, i), read(WallMs(p, i)));
    }
  }

  lemma {:induction false} ListedExactly(p: Plan, i: int, at: int)
    ensures Listed(Held(p, p.dayCount), p.base + i, at)
       <==> i in Picks(p, p.dayCount) && at == Meeting(p, i).scheduledAt
  {
    hide DateOf, DateKey, ZonedWallTimeToUtc, Meets, Picks;
    var picks, occ := Picks(p, p.dayCount), Held(p, p.dayCount);
    if Listed(occ, p.base + i, at) {
      var k :| 0 <= k < |occ| && occ[k] == Occurrence(DateKey(DateOf(p.base + i)), at);
      KeyNamesTheDay(p.base + picks[k], p.base + i);
    }
    if i in picks && at == Meeting(p, i).scheduledAt {
      var k :| 0 <= k < |picks| && picks[k] == i;
      assert occ[k] == Meeting(p, i);
    }
  }

  lemma {:induction false} WallOf(p: Plan, first: int, day: int)
    requires Meets(p, first) && NoOverrides(p) && p.general.hh < 24 && p.general.mm < 60
    requires Picks(p, p.dayCount) != [] && Picks(p, p.dayCount)[0] == first
    ensures RuleFor(p).start / DAY_MS == p.base + first
    ensures InstanceWall(RuleFor(p), day) == Wall(day, p.general.hh, p.general.mm)
  {
    hide Meeting, Picks;
    assert RuleFor(p).start == Wall(p.base + first, p.general.hh, p.general.mm);
    DayOfWall(p.base + first, p.general.hh, p.general.mm);
  }

  lemma {:induction false} DayIsShown(p: Plan, read: Reader, i: int)
    requires NoOverrides(p) && p.general.hh < 24 && p.general.mm < 60
    requires Picks(p, p.dayCount) != [] && ReadsAlike(p, read) && ReadsAscend(p, read)
    ensures IsInstance(RuleFor(p), read, p.base + i) <==> i in Picks(p, p.dayCount)
  {
    hide Picks, Meeting, WallMs, InstanceWall, Wall, WeekDay, Meets, NoOverrides;
    var picks, day, r := Picks(p, p.dayCount), p.base + i, RuleFor(p);
    PicksAreTheMeetingDays(p, p.dayCount);
    var first, last := picks[0], picks[|picks| - 1];
    FirstAndLast(picks);
    WallOf(p, first, day);
    assert read(InstanceWall(r, day)) == ReadOn(p, read, day);
    assert r.until == ReadOn(p, read, p.base + last);
    hide ReadOn;
    assert ReadOn(p, read, day) <= r.until <==> i <= last;
    assert WeekDay(day) in r.byday <==> Meets(p, i) by { OnItsWeekDay(p, i); }
    hide RuleFor;
    OnADay(p, read, r, i, first, last);
  }

  lemma {:induction false} OnADay(p: Plan, read: Reader, r: Rule, i: int, first: int, last: int)
    requires r.start / DAY_MS == p.base + first && Meets(p, first)
    requires WeekDay(p.base + i) in r.byday <==> Meets(p, i)
    requires read(InstanceWall(r, p.base + i)) <= r.until <==> i <= last
    ensures IsInstance(r, read, p.base + i) <==> first <= i <= last && Meets(p, i)
  {
    hide InstanceWall, Meets, WeekDay;
  }

  lemma {:induction false} OnItsWeekDay(p: Plan, i: int)
    ensures WeekDay(p.base + i) in DaySet(p.days) <==> Meets(p, i)
  {
  }

  lemma {:induction false} FirstAndLast(s: seq<int>)
    requires s != [] && forall j, k :: 0 <= j < k < |s| ==> s[j] < s[k]
    ensures s[0] in s && s[|s| - 1] in s && forall i :: i in s ==> s[0] <= i <= s[|s| - 1]
  {
  }

  lemma {:induction false} InstancesRead(p: Plan, read: Reader, day: int)
    requires NoOverrides(p) && p.general.hh < 24 && p.general.mm < 60 && Picks(p, p.dayCount) != []
    ensures read(InstanceWall(RuleFor(p), day)) == ReadOn(p, read, day)
  {
    hide Picks, InstanceWall, Meets, RuleFor, NoOverrides;
    PicksAreTheMeetingDays(p, p.dayCount);
    assert Picks(p, p.dayCount)[0] in Picks(p, p.dayCount);
    WallOf(p, Picks(p, p.dayCount)[0], day);
  }

  lemma {:induction false} AlikeIsExact(p: Plan, read: Reader)
    requires NoOverrides(p) && p.general.hh < 24 && p.general.mm < 60
    requires Picks(p, p.dayCount) != [] && ReadsAscend(p, read)
    ensures ReadsAlike(p, read) <==> ShowsExactly(RuleFor(p), read, Held(p, p.dayCount))
  {
    hide RuleFor, Held, Picks, Meeting, IsInstance, Listed, InstanceWall, ReadsAscend, NoOverrides, ReadOn;
    var r, occ, picks := RuleFor(p), Held(p, p.dayCount), Picks(p, p.dayCount);
    if ReadsAlike(p, read) {
      hide ReadsAlike;
      forall day: int, at: int
        ensures Listed(occ, day, at) <==> IsInstance(r, read, day) && at == read(InstanceWall(r, day))
      {
        DayAgrees(p, read, day - p.base, at);
        assert p.base + (day - p.base) == day;
      }
    }
    if ShowsExactly(r, read, occ) {
      forall i | i in picks ensures ReadOn(p, read, p.base + i) == Meeting(p, i).scheduledAt {
        ListedExactly(p, i, Meeting(p, i).scheduledAt);
        assert Listed(occ, p.base + i, Meeting(p, i).scheduledAt);
        InstancesRead(p, read, p.base + i);
      }
    }
  }

  lemma {:induction false} DayAgrees(p: Plan, read: Reader, i: int, at: int)
    requires NoOverrides(p) && p.general.hh < 24 && p.general.mm < 60
    requires Picks(p, p.dayCount) != [] && ReadsAscend(p, read) && ReadsAlike(p, read)
    ensures Listed(Held(p, p.dayCount), p.base + i, at)
       <==> IsInstance(RuleFor(p), read, p.base + i) && at == read(InstanceWall(RuleFor(p), p.base + i))
  {
    hide RuleFor, Held, Picks, Meeting, IsInstance, Listed, InstanceWall, ReadsAscend, NoOverrides, ReadOn;
    ListedExactly(p, i, at);
    DayIsShown(p, read, i);
    InstancesRead(p, read, p.base + i);
  }

  /** Without per-day overrides, what a calendar makes of the file, by the zone, the start, the
      weekdays and the end written in it, is the list of meetings, date by date and instant by
      instant, exactly when the service's guess holds at each of them. */
  lemma {:induction false} CalendarShowsTheSameMeetings(s: CourseSchedule, p: Plan, e: Event, read: Reader)
    requires Schedulable(s, p) && NoOverrides(p) && forall d :: d in p.days ==> 0 <= d <= 6
    requires Civil(p.tz) && Narrow(p.tz) && BuildCourseIcs(s) == Some(e) && Follows(read, e.tzid)
    ensures ReadRule(e).Some? && (ShowsExactly(ReadRule(e).value, read, Meetings(s)) <==> GuessesHold(p))
  {
    RuleOf(s, p);
    EventOf(s, p);
    hide BuildCourseIcs, ReadRule, RuleFor, ShowsExactly, Held, Picks, FourDigitYear, Meeting, Follows, Civil, Narrow, NoOverrides, WallMs;
    FollowersAscend(p, read);
    AlikeIsExact(p, read);
    AlikeExactly(p, read);
  }

  // ---------- Zones ----------

  /** A change of clocks: when, and the offsets before and after. */
  datatype Change = Change(at: int, before: int, after: int)

  /** Within a day of each meeting's wall-clock time there is at most the change named for it. */
  ghost predicate ChangesAre(p: Plan, changes: int -> Change) {
    forall i :: i in Picks(p, p.dayCount) ==> OneChange(p.tz, WallMs(p, i), changes(i).at, changes(i).before, changes(i).after)
  }

  ghost predicate NoneMisplaced(p: Plan, changes: int -> Change) {
    forall i :: i in Picks(p, p.dayCount) ==> !Misplaced(WallMs(p, i), changes(i).at, changes(i).before, changes(i).after)
  }

  /** In a zone whose changes of clocks are days apart, the file and the list agree exactly when no
      meeting's time lies in the stretch that the change next to it misplaces. */
  lemma {:induction false} AgreesAroundChangesExactly(s: CourseSchedule, p: Plan, e: Event, read: Reader, changes: int -> Change)
    requires Schedulable(s, p) && NoOverrides(p) && forall d :: d in p.days ==> 0 <= d <= 6
    requires Civil(p.tz) && Narrow(p.tz) && ChangesAre(p, changes)
    requires BuildCourseIcs(s) == Some(e) && Follows(read, e.tzid)
    ensures ReadRule(e).Some? && (ShowsExactly(ReadRule(e).value, read, Meetings(s)) <==> NoneMisplaced(p, changes))
  {
    hide BuildCourseIcs, ReadRule, ShowsExactly, Meetings, Schedulable, NoOverrides, Civil, Narrow, Follows, Picks, WallMs, Misplaced, OneChange, GuessHolds;
    CalendarShowsTheSameMeetings(s, p, e, read);
    forall i | i in Picks(p, p.dayCount)
      ensures GuessHolds(p.tz, WallMs(p, i)) <==> !Misplaced(WallMs(p, i), changes(i).at, changes(i).before, changes(i).after)
    {
      OneChangeExactly(p.tz, WallMs(p, i), changes(i).at, changes(i).before, changes(i).after);
    }
  }

  /** In a zone that never changes its clocks every guess holds. */
  lemma {:induction false} FixedZoneGuessesHold(p: Plan, c: int)
    requires Civil(p.tz) && forall t :: p.tz(t) == c
    ensures GuessesHold(p) && Narrow(p.tz)
  {
    hide Picks, WallMs, Misplaced;
    assert p.tz(0) == c;
    forall i | i in Picks(p, p.dayCount) ensures GuessHolds(p.tz, WallMs(p, i)) {
      OneChangeExactly(p.tz, WallMs(p, i), 0, c, c);
      NeverMisplaced(WallMs(p, i), 0, c);
    }
  }

  lemma {:induction false} NeverMisplaced(w: int, g: int, c: int)
    ensures !Misplaced(w, g, c, c)
  {
  }

  // ---------- A course on the day of a change ----------

  const CHANGE_DAY := 19792

  /** One week of Sundays at the given time, in a zone like New York's, from 10 March 2024 on. */
  function Sample(time: string): CourseSchedule {
    CourseSchedule(Some(1_710_072_000_000), Some(1), Some([Some(0)]), Some(time), [], Some(SpringWest(CHANGE_DAY)))
  }

  function SamplePlan(t: Time): Plan {
    Plan(CHANGE_DAY, 7, [0], t, map[], SpringWest(CHANGE_DAY))
  }

  lemma {:induction false} SampleDays()
    ensures DayNumber(Date(2024, 3, 10)) == CHANGE_DAY && DateOf(CHANGE_DAY) == Date(2024, 3, 10)
    ensures DayFromYear(100) < CHANGE_DAY && DayFromYear(1000) <= CHANGE_DAY - 1 && CHANGE_DAY + 2 <= DayFromYear(10000)
  {
    hide DayFromYear, DateOf;
    CountsAsEcma(2024);
    CountsAsEcma(100);
    CountsAsEcma(1000);
    CountsAsEcma(10000);
    assert MonthStart(true, 2) == 31 && MonthStart(true, 3) == 60;
    DateRoundTrip(Date(2024, 3, 10));
  }

  lemma {:induction false} SampleStart()
    ensures UtcDay(PartsInTz(1_710_072_000_000, SpringWest(CHANGE_DAY)).date) == CHANGE_DAY
  {
    SampleDays();
    hide DateOf, DayNumber, DayFromYear, UtcDay;
    SampleClock();
    assert UtcDay(Date(2024, 3, 10)) == CHANGE_DAY by { UtcOfSample(); }
  }

  lemma {:induction false} SampleClock()
    ensures PartsInTz(1_710_072_000_000, SpringWest(CHANGE_DAY)).date == DateOf(CHANGE_DAY)
  {
    hide DateOf;
    var t, tz := 1_710_072_000_000, SpringWest(CHANGE_DAY);
    assert (t + tz(t)) / SECOND_MS / 86400 == CHANGE_DAY;
    assert DateOf(CHANGE_DAY).year == 2024 by { SampleDays(); }
  }

  lemma {:induction false} UtcOfSample()
    ensures UtcDay(Date(2024, 3, 10)) == CHANGE_DAY
  {
    SampleDays();
    hide DayNumber;
  }

  lemma {:induction false} JustSunday()
    ensures Days(Some([Some(0)])) == [0]
  {
    assert [Some(0)][1..] == [];
  }

  lemma {:induction false} SamplePlanned(t: Time)
    requires t.hh < 24 && t.mm < 60
    ensures var time := Pad(t.hh) + ":" + Pad(t.mm); PlanOf(Sample(time)) == Some(SamplePlan(t))
  {
    hide PartsInTz, UtcDay, ParseHhmm, Days, Pad, SpringWest;
    var time := Pad(t.hh) + ":" + Pad(t.mm);
    SampleStart();
    ParsesExactly(time, t);
    JustSunday();
    assert TimesByDay([]) == map[];
    assert time != "";
  }

  lemma {:induction false} SamplePicks(t: Time)
    ensures Picks(SamplePlan(t), 7) == [0]
  {
    var p := SamplePlan(t);
    assert Meets(p, 0) && !Meets(p, 1) && !Meets(p, 2) && !Meets(p, 3) && !Meets(p, 4) && !Meets(p, 5) && !Meets(p, 6);
    hide Meets;
    assert Picks(p, 1) == [0] by { assert Picks(p, 0) == []; }
    assert Picks(p, 3) == Picks(p, 2) == Picks(p, 1);
    assert Picks(p, 5) == Picks(p, 4) == Picks(p, 3);
    assert Picks(p, 7) == Picks(p, 6) == Picks(p, 5);
  }

  lemma {:induction false} SampleIsSchedulable(t: Time)
    requires t.hh < 24 && t.mm < 60
    ensures var s, p := Sample(Pad(t.hh) + ":" + Pad(t.mm)), SamplePlan(t);
            && Schedulable(s, p) && NoOverrides(p) && Civil(p.tz) && Narrow(p.tz)
            && p.days == [0] && Picks(p, p.dayCount) == [0] && WallMs(p, 0) == Wall(CHANGE_DAY, t.hh, t.mm)
  {
    hide PlanOf, Picks, Meeting, Pad, FourDigitYear, DayFromYear, Wall;
    var p := SamplePlan(t);
    SamplePlanned(t);
    SamplePicks(t);
    assert WallMs(p, 0) == Wall(CHANGE_DAY, t.hh, t.mm);
    SampleYears(t);
  }

  lemma {:induction false} SampleYears(t: Time)
    requires t.hh < 24 && t.mm < 60
    ensures FourDigitYear(WallMs(SamplePlan(t), 0)) && FourDigitYear(Meeting(SamplePlan(t), 0).scheduledAt)
  {
    hide DayFromYear, Meeting, Wall, FourDigitYear, DateOf, DayNumber;
    SampleDays();
    var p, w := SamplePlan(t), Wall(CHANGE_DAY, t.hh, t.mm);
    MeetingPlaced(p, 0);
    assert WallMs(p, 0) == w;
    hide WallMs, SamplePlan;
    WallInDay(CHANGE_DAY, t.hh, t.mm);
    assert -DAY_MS < p.tz(w) < DAY_MS;
    InYears(w, CHANGE_DAY);
    InYears(w - p.tz(w), CHANGE_DAY);
  }

  lemma {:induction false} WallInDay(day: int, hh: nat, mm: nat)
    requires hh < 24 && mm < 60
    ensures day * DAY_MS <= Wall(day, hh, mm) < (day + 1) * DAY_MS
  {
  }

  lemma {:induction false} InYears(ms: int, day: int)
    requires DayFromYear(1000) <= day - 1 && day + 2 <= DayFromYear(10000)
    requires (day - 1) * DAY_MS <= ms < (day + 2) * DAY_MS
    ensures FourDigitYear(ms)
  {
    hide DayFromYear;
  }

  /** On the day of a change in spring, five hours west of Greenwich, the file and the list agree
      exactly for classes before 03:00 and from 07:00 on; a class at 04:00, say, is in the list an
      hour later than any calendar shows it. */
  lemma {:induction false} SampleAgreesExactly(t: Time, e: Event, read: Reader)
    requires t.hh < 24 && t.mm < 60
    requires BuildCourseIcs(Sample(Pad(t.hh) + ":" + Pad(t.mm))) == Some(e) && Follows(read, e.tzid)
    ensures ReadRule(e).Some?
    ensures ShowsExactly(ReadRule(e).value, read, Meetings(Sample(Pad(t.hh) + ":" + Pad(t.mm)))) <==> t.hh < 3 || t.hh >= 7
  {
    hide *;
    var s, p := Sample(Pad(t.hh) + ":" + Pad(t.mm)), SamplePlan(t);
    SampleIsSchedulable(t);
    SampleMisplaced(t);
    assert p.tz == SpringWest(CHANGE_DAY) by { SampleZone(t); }
    CalendarShowsTheSameMeetings(s, p, e, read);
    OneGuess(p);
  }

  lemma {:induction false} SampleZone(t: Time)
    ensures SamplePlan(t).tz == SpringWest(CHANGE_DAY)
  {
  }

  lemma {:induction false} OneGuess(p: Plan)
    requires Picks(p, p.dayCount) == [0]
    ensures GuessesHold(p) <==> GuessHolds(p.tz, WallMs(p, 0))
  {
    assert 0 in Picks(p, p.dayCount);
  }

  lemma {:induction false} SampleMisplaced(t: Time)
    requires t.hh < 24 && t.mm < 60
    ensures GuessHolds(SpringWest(CHANGE_DAY), Wall(CHANGE_DAY, t.hh, t.mm)) <==> t.hh < 3 || t.hh >= 7
  {
    hide GuessHolds;
    var tz, w, g := SpringWest(CHANGE_DAY), Wall(CHANGE_DAY, t.hh, t.mm), Wall(CHANGE_DAY, 7, 0);
    OneChangeExactly(tz, w, g, -300 * MINUTE_MS, -240 * MINUTE_MS);
    assert Misplaced(w, g, -300 * MINUTE_MS, -240 * MINUTE_MS) <==> 180 <= t.hh * 60 + t.mm < 420;
  }
}
