/** Which meeting is on today and which comes next. */
module JoinWindow {
  import opened Wrappers
  import opened Text
  import opened CivilDate
  import opened Zone
  import opened Schedule

  function FindKey(occ: seq<Occurrence>, key: string): Option<Occurrence> {
    if occ == [] then None
    else if occ[0].dateKey == key then Some(occ[0])
    else FindKey(occ[1..], key)
  }

  function FindAfter(occ: seq<Occurrence>, now: int): Option<Occurrence> {
    if occ == [] then None
    else if occ[0].scheduledAt > now then Some(occ[0])
    else FindAfter(occ[1..], now)
  }

  function Window(s: CourseSchedule, now: int): JoinWindow {
    var occ := Meetings(s);
    if occ == [] then JoinWindow(None, None, false) else
    var current := FindKey(occ, DateKey(PartsInTz(now, s.timezone.value).date));
    JoinWindow(current, FindAfter(occ, now), current.Some?)
  }

  method ResolveJoinWindow(s: CourseSchedule, now: int) returns (w: JoinWindow)
    ensures w == Window(s, now)
  {
    var occurrences := ListOccurrences(s);
    if |occurrences| == 0 {
      return JoinWindow(None, None, false);
    }
    var today := PartsInTz(now, s.timezone.value);
    var todayKey := DateKey(today.date);
    var current := FindKey(occurrences, todayKey);
    var next := FindAfter(occurrences, now);
    w := JoinWindow(current, next, current.Some?);
  }

  // ---------- Date keys ----------

  lemma {:induction false} PartsOfKey(y: string, m: string, d: string)
    requires |m| == |d| == 2
    ensures var k := y + "-" + m + "-" + d;
            |k| == |y| + 6 && k[..|y|] == y && k[|y| + 1..|y| + 3] == m && k[|y| + 4..|y| + 6] == d
  {
    var k := y + "-" + m + "-" + d;
    assert k == y + ("-" + (m + ("-" + d)));
  }

  lemma {:induction false} SameParts(y: string, m: string, d: string, y': string, m': string, d': string)
    requires |m| == |d| == |m'| == |d'| == 2
    requires y + "-" + m + "-" + d == y' + "-" + m' + "-" + d'
    ensures y == y' && m == m' && d == d'
  {
    PartsOfKey(y, m, d);
    PartsOfKey(y', m', d');
  }

  lemma {:induction false} YearInjective(y: int, z: int)
    requires YearOf(y) == YearOf(z)
    ensures y == z
  {
    YearShowsSign(y);
    YearShowsSign(z);
    if y < 0 {
      assert YearOf(y)[1..] == Dec(-y) && YearOf(z)[1..] == Dec(-z);
      DecInjective(-y, -z);
    } else {
      DecInjective(y, z);
    }
  }

  lemma {:induction false} YearShowsSign(y: int)
    ensures YearOf(y) != "" && (YearOf(y)[0] == '-' <==> y < 0)
  {
    if y >= 0 { DecRoundTrip(y); }
  }

  lemma {:induction false} DateKeyInjective(d: Date, e: Date)
    requires Valid(d) && Valid(e) && DateKey(d) == DateKey(e)
    ensures d == e
  {
    hide YearOf, Pad, Number;
    PadRoundTrip(d.month);
    PadRoundTrip(d.day);
    PadRoundTrip(e.month);
    PadRoundTrip(e.day);
    SameParts(YearOf(d.year), Pad(d.month), Pad(d.day), YearOf(e.year), Pad(e.month), Pad(e.day));
    YearInjective(d.year, e.year);
  }

  /** A day shares its key with no other day. */
  lemma {:induction false} KeyNamesTheDay(m: int, n: int)
    requires DateKey(DateOf(m)) == DateKey(DateOf(n))
    ensures m == n
  {
    hide DateOf, DateKey, DayNumber;
    DayRoundTrip(m);
    DayRoundTrip(n);
    DateKeyInjective(DateOf(m), DateOf(n));
  }

  // ---------- Today's meeting ----------

  lemma {:induction false} FindKeyFinds(occ: seq<Occurrence>, key: string)
    ensures FindKey(occ, key).Some? <==> exists k :: 0 <= k < |occ| && occ[k].dateKey == key
    ensures FindKey(occ, key).Some? ==> FindKey(occ, key).value in occ && FindKey(occ, key).value.dateKey == key
  {
    if occ != [] {
      FindKeyFinds(occ[1..], key);
      assert forall k :: 1 <= k < |occ| ==> occ[k] == occ[1..][k - 1];
    }
  }

  lemma {:induction false} TodayInRun(p: Plan, today: int)
    ensures FindKey(Held(p, p.dayCount), DateKey(DateOf(today)))
         == var i := today - p.base; if 0 <= i < p.dayCount && Meets(p, i) then Some(Meeting(p, i)) else None
  {
    hide DateOf, DateKey, ZonedWallTimeToUtc, Meets, DayFromYear;
    var i, picks, occ := today - p.base, Picks(p, p.dayCount), Held(p, p.dayCount);
    var key := DateKey(DateOf(today));
    var found := FindKey(occ, key);
    PicksAreTheMeetingDays(p, p.dayCount);
    FindKeyFinds(occ, key);
    if found.Some? {
      var k :| 0 <= k < |occ| && occ[k] == found.value;
      assert picks[k] in picks;
      KeyNamesTheDay(p.base + picks[k], today);
    }
    if 0 <= i < p.dayCount && Meets(p, i) {
      var k :| 0 <= k < |picks| && picks[k] == i;
      assert occ[k].dateKey == key;
    }
  }

  /** The room can be joined exactly when today's local date lies in the run and its weekday is
      a meeting day; the meeting found is that very day's. */
  lemma {:induction false} OpenExactlyOnMeetingDays(s: CourseSchedule, now: int)
    requires PlanOf(s).Some? && Modern(now + s.timezone.value(now))
    ensures var p, w := PlanOf(s).value, Window(s, now);
            var i := (now + p.tz(now)) / DAY_MS - p.base;
            && w.joinableNow == w.current.Some?
            && (w.current.Some? <==> 0 <= i < p.dayCount && Meets(p, i))
            && (w.current.Some? ==> w.current == Some(Meeting(p, i)))
  {
    hide DateOf, DateKey, Meeting, PartsInTz, Meets, DayFromYear;
    var p := PlanOf(s).value;
    ProbeReadsTheZone(now, p.tz);
    TodayInRun(p, (now + p.tz(now)) / DAY_MS);
  }

  // ---------- The next meeting ----------

  ghost predicate Ascending(occ: seq<Occurrence>) {
    forall j, k :: 0 <= j < k < |occ| ==> occ[j].scheduledAt < occ[k].scheduledAt
  }

  /** next is the least instant strictly after now, and there is none only when none is left. */
  lemma {:induction false} NextIsTheLeast(occ: seq<Occurrence>, now: int)
    requires Ascending(occ)
    ensures FindAfter(occ, now).None? <==> forall k :: 0 <= k < |occ| ==> occ[k].scheduledAt <= now
    ensures FindAfter(occ, now).Some? ==>
              && FindAfter(occ, now).value in occ && FindAfter(occ, now).value.scheduledAt > now
              && forall k :: 0 <= k < |occ| && occ[k].scheduledAt > now
                   ==> FindAfter(occ, now).value.scheduledAt <= occ[k].scheduledAt
  {
    if occ != [] && occ[0].scheduledAt <= now {
      var rest := occ[1..];
      assert forall k :: 1 <= k < |occ| ==> occ[k] == rest[k - 1];
      assert Ascending(rest);
      NextIsTheLeast(rest, now);
    }
  }

  /** So of an ascending list the window gives the least meeting strictly after now. */
  lemma {:induction false} NextOfTheWindow(s: CourseSchedule, now: int)
    requires Ascending(Meetings(s))
    ensures var occ, next := Meetings(s), Window(s, now).next;
            if next.None? then forall k :: 0 <= k < |occ| ==> occ[k].scheduledAt <= now
            else
              && next.value in occ && next.value.scheduledAt > now
              && forall k :: 0 <= k < |occ| && occ[k].scheduledAt > now ==> next.value.scheduledAt <= occ[k].scheduledAt
  {
    hide Meetings, FindKey, PartsInTz, DateKey;
    NextIsTheLeast(Meetings(s), now);
  }

  /** The wall-clock time of day i's meeting, as if it were UTC. */
  function WallMs(p: Plan, i: int): int {
    var t := TimeOn(p, WeekDay(p.base + i));
    Wall(p.base + i, t.hh, t.mm)
  }

  lemma {:induction false} MeetingAt(p: Plan, i: int)
    requires p.base + i >= DayFromYear(100)
    ensures Meeting(p, i).scheduledAt == WallMs(p, i) - TzOffsetMs(WallMs(p, i), p.tz)
  {
    hide DateOf, DayNumber, TzOffsetMs, DateUtc, DateKey;
    var t := TimeOn(p, WeekDay(p.base + i));
    ModernYear(p.base + i);
    DayRoundTrip(p.base + i);
    UtcOfModern(DateOf(p.base + i), t.hh, t.mm, 0);
  }

  lemma {:induction false} MeetingPlaced(p: Plan, i: int)
    requires p.base + i > DayFromYear(100) && Civil(p.tz)
    ensures Meeting(p, i).scheduledAt == WallMs(p, i) - p.tz(WallMs(p, i))
  {
    hide DateOf, DayNumber, ZonedWallTimeToUtc, DateKey, DayFromYear, Wall, Civil;
    DayRoundTrip(p.base + i);
    var t := TimeOn(p, WeekDay(p.base + i));
    PlacedByTheGuess(DateOf(p.base + i), t.hh, t.mm, p.tz);
  }

  /** From day i's meeting to day k's the zone's offset grows by less than the wall clock does. */
  ghost predicate ClockOutrunsZone(p: Plan, i: int, k: int) {
    TzOffsetMs(WallMs(p, k), p.tz) - TzOffsetMs(WallMs(p, i), p.tz) < WallMs(p, k) - WallMs(p, i)
  }

  /** That holds from each of the days to the next. */
  ghost predicate ClockAlwaysOutruns(p: Plan, s: seq<int>) {
    forall k :: 0 <= k < |s| - 1 ==> ClockOutrunsZone(p, s[k], s[k + 1])
  }

  lemma {:induction false} PairAscends(p: Plan, i: nat, k: nat)
    requires p.base >= DayFromYear(100)
    ensures Meeting(p, i).scheduledAt < Meeting(p, k).scheduledAt <==> ClockOutrunsZone(p, i, k)
  {
    MeetingAt(p, i);
    MeetingAt(p, k);
    hide Meeting, TzOffsetMs, WallMs;
  }

  /** Meetings come in strictly ascending order exactly when the wall clock always outruns the
      zone. */
  lemma {:induction false} AscendExactly(p: Plan)
    requires p.base >= DayFromYear(100)
    ensures Ascending(Held(p, p.dayCount)) <==> ClockAlwaysOutruns(p, Picks(p, p.dayCount))
  {
    hide Meeting, Meets, ClockOutrunsZone, Ascending, DayFromYear;
    var s, occ := Picks(p, p.dayCount), Held(p, p.dayCount);
    PicksAreTheMeetingDays(p, p.dayCount);
    forall k | 0 <= k < |s| - 1
      ensures ClockOutrunsZone(p, s[k], s[k + 1]) <==> occ[k].scheduledAt < occ[k + 1].scheduledAt
    {
      assert s[k] in s && s[k + 1] in s;
      PairAscends(p, s[k], s[k + 1]);
    }
    AscendingByPairs(occ);
  }

  lemma {:induction false} AscendingByPairs(occ: seq<Occurrence>)
    ensures Ascending(occ) <==> forall k :: 0 <= k < |occ| - 1 ==> occ[k].scheduledAt < occ[k + 1].scheduledAt
  {
    if forall k :: 0 <= k < |occ| - 1 ==> occ[k].scheduledAt < occ[k + 1].scheduledAt {
      forall j, k | 0 <= j < k < |occ| ensures occ[j].scheduledAt < occ[k].scheduledAt {
        Chain(occ, j, k);
      }
    }
  }

  lemma {:induction false} Chain(occ: seq<Occurrence>, j: nat, k: nat)
    requires forall k :: 0 <= k < |occ| - 1 ==> occ[k].scheduledAt < occ[k + 1].scheduledAt
    requires j < k < |occ|
    ensures occ[j].scheduledAt < occ[k].scheduledAt
  {
    if j < k - 1 { Chain(occ, j, k - 1); }
  }

  /** Sundays at 23:50 and Mondays at 00:10, where clocks go from 00:00 to 01:00 on the first
      Monday. */
  function AroundMidnight(base: int): Plan {
    Plan(base, 7, [0, 1], Time(9, 0), map[0 := Time(23, 50), 1 := Time(0, 10)],
         t => if t < Wall(base + 1, 0, 0) then 0 else 60 * MINUTE_MS)
  }

  /** The list is then out of order: the Monday class comes second but is forty minutes earlier,
      and between the two instants the wrong one is taken for the next. */
  lemma {:induction false} OutOfOrder(base: int)
    requires base > DayFromYear(100) && WeekDay(base) == 0
    ensures var p := AroundMidnight(base);
            var occ := Held(p, p.dayCount);
            && |occ| == 2 && occ[1].scheduledAt == occ[0].scheduledAt - 40 * MINUTE_MS
            && FindAfter(occ, occ[1].scheduledAt - 1) == Some(occ[0])
  {
    var p := AroundMidnight(base);
    assert p.dayCount == 7;
    TwoHeld(p);
    MidnightInstants(base);
    hide *;
    EarlierIsMissed(Meeting(p, 0), Meeting(p, 1));
  }

  lemma {:induction false} EarlierIsMissed(a: Occurrence, b: Occurrence)
    requires b.scheduledAt < a.scheduledAt
    ensures |[a, b]| == 2 && [a, b][0] == a && [a, b][1] == b
    ensures FindAfter([a, b], b.scheduledAt - 1) == Some(a)
  {
  }

  lemma {:induction false} TwoHeld(p: Plan)
    requires WeekDay(p.base) == 0 && p.days == [0, 1]
    ensures Held(p, 7) == [Meeting(p, 0), Meeting(p, 1)]
  {
    FirstTwoDays(p);
    hide Meeting, Picks;
  }

  lemma {:induction false} MidnightInstants(base: int)
    requires base > DayFromYear(100) && WeekDay(base) == 0
    ensures var p := AroundMidnight(base);
            Meeting(p, 1).scheduledAt == Meeting(p, 0).scheduledAt - 40 * MINUTE_MS
  {
    hide Meeting, DayFromYear;
    var p := AroundMidnight(base);
    MeetingPlaced(p, 0);
    MeetingPlaced(p, 1);
    NextWeekDay(base, 0, 1);
    assert WallMs(p, 0) == Wall(base, 23, 50) && WallMs(p, 1) == Wall(base + 1, 0, 10);
  }

  lemma {:induction false} NextWeekDay(n: int, w: int, i: int)
    requires WeekDay(n) == w && 0 <= i && w + i < 7
    ensures WeekDay(n + i) == w + i
  {
    Cyclic((n + 4) / 7, w, i);
  }

  lemma {:induction false} FirstTwoDays(p: Plan)
    requires WeekDay(p.base) == 0 && p.days == [0, 1]
    ensures Picks(p, 7) == [0, 1]
  {
    forall i | 0 <= i < 7 ensures Meets(p, i) <==> i <= 1 {
      hide WeekDay;
      NextWeekDay(p.base, 0, i);
    }
    hide Meets;
    assert Picks(p, 1) == [0] by { assert Picks(p, 0) == []; }
    assert Picks(p, 3) == Picks(p, 2) == [0, 1];
    assert Picks(p, 5) == Picks(p, 4) == [0, 1];
    assert Picks(p, 7) == Picks(p, 6) == [0, 1];
  }

  // ---------- How many ----------

  /** How many of the days s fall on weekday w. */
  function Tally(p: Plan, s: seq<int>, w: int): nat {
    if s == [] then 0
    else Tally(p, s[..|s| - 1], w) + if WeekDay(p.base + s[|s| - 1]) == w then 1 else 0
  }

  lemma {:induction false} TallyNext(p: Plan, n: nat, w: int)
    ensures Tally(p, Picks(p, n + 1), w)
         == Tally(p, Picks(p, n), w) + if w in p.days then On(p.base + n, w) else 0
  {
    if Meets(p, n) {
      assert Picks(p, n + 1)[..|Picks(p, n)|] == Picks(p, n);
    }
  }

  lemma {:induction false} WeekAdds(p: Plan, n: nat, w: int)
    requires 0 <= w <= 6
    ensures Tally(p, Picks(p, n + 7), w) == Tally(p, Picks(p, n), w) + if w in p.days then 1 else 0
  {
    hide Tally, Picks, On;
    TallyNext(p, n, w);
    TallyNext(p, n + 1, w);
    TallyNext(p, n + 2, w);
    TallyNext(p, n + 3, w);
    TallyNext(p, n + 4, w);
    TallyNext(p, n + 5, w);
    TallyNext(p, n + 6, w);
    OnceAWeek(p.base + n, w);
  }

  lemma {:induction false} WeeksTally(p: Plan, weeks: nat, w: int)
    requires 0 <= w <= 6
    ensures Tally(p, Picks(p, 7 * weeks), w) == if w in p.days then weeks else 0
  {
    if weeks > 0 {
      WeeksTally(p, weeks - 1, w);
      WeekAdds(p, 7 * (weeks - 1), w);
      assert 7 * (weeks - 1) + 7 == 7 * weeks;
      hide Tally, Picks;
    }
  }

  function On(n: int, w: int): nat {
    if WeekDay(n) == w then 1 else 0
  }

  lemma {:induction false} OnceAWeek(n: int, w: int)
    requires 0 <= w <= 6
    ensures On(n, w) + On(n + 1, w) + On(n + 2, w) + On(n + 3, w) + On(n + 4, w) + On(n + 5, w) + On(n + 6, w) == 1
  {
    var q, r := (n + 4) / 7, WeekDay(n);
    assert n + 4 == 7 * q + r;
    Cyclic(q, r, 1);
    Cyclic(q, r, 2);
    Cyclic(q, r, 3);
    Cyclic(q, r, 4);
    Cyclic(q, r, 5);
    Cyclic(q, r, 6);
  }

  lemma {:induction false} Cyclic(q: int, r: int, k: int)
    requires 0 <= r < 7 && 0 <= k < 7
    ensures (7 * q + r + k) % 7 == if r + k < 7 then r + k else r + k - 7
  {
  }

  /** A program of w weeks meets w times on each selected weekday and never on another, */
  lemma {:induction false} EachWeekdayMeetsEveryWeek(p: Plan, weeks: nat)
    requires p.dayCount == 7 * weeks
    ensures forall w :: 0 <= w <= 6 ==>
              Tally(p, Picks(p, p.dayCount), w) == if w in p.days then weeks else 0
  {
    forall w | 0 <= w <= 6 ensures Tally(p, Picks(p, p.dayCount), w) == if w in p.days then weeks else 0 {
      WeeksTally(p, weeks, w);
    }
  }

  /** and never twice on one date. */
  lemma {:induction false} DatesAreDistinct(p: Plan)
    ensures var occ := Held(p, p.dayCount);
            forall j, k :: 0 <= j < k < |occ| ==> occ[j].dateKey != occ[k].dateKey
  {
    hide DateOf, DateKey, ZonedWallTimeToUtc, WeekDay, Meets;
    var s, occ := Picks(p, p.dayCount), Held(p, p.dayCount);
    PicksAreTheMeetingDays(p, p.dayCount);
    forall j, k | 0 <= j < k < |occ| ensures occ[j].dateKey != occ[k].dateKey {
      assert s[j] in s && s[k] in s;
      if occ[j].dateKey == occ[k].dateKey {
        KeyNamesTheDay(p.base + s[j], p.base + s[k]);
      }
    }
  }
}
