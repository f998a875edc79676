/** Class meetings, worked out from a course's weekly cadence. */
module Schedule {
  import opened Wrappers
  import opened Text
  import opened CivilDate
  import opened Zone

  datatype Time = Time(hh: nat, mm: nat)

  /** One member of the per-day JSON object: its key as a number, if it is a whole one, and its
      value, if it is a string. */
  datatype Override = Override(day: Option<int>, time: Option<string>)

  /** The schedule columns of a course.  A meeting day that is not a number is None; one that is
      not whole behaves like any number outside 0..6. */
  datatype CourseSchedule = CourseSchedule(
    startDate: Option<int>,
    durationWeeks: Option<int>,
    meetingDays: Option<seq<Option<int>>>,
    meetingTime: Option<string>,
    overrides: seq<Override>,
    timezone: Option<Offset>)

  datatype Occurrence = Occurrence(dateKey: string, scheduledAt: int)

  datatype JoinWindow = JoinWindow(current: Option<Occurrence>, next: Option<Occurrence>, joinableNow: bool)

  // ---------- Reading the columns ----------

  /** HH:mm on a 24-hour clock, both with two digits. */
  function ParseHhmm(s: string): (r: Option<Time>)
    ensures r.Some? ==> r.value.hh < 24 && r.value.mm < 60
  {
    if |s| == 5 && s[2] == ':' && IsDigit(s[0]) && IsDigit(s[1]) && IsDigit(s[3]) && IsDigit(s[4])
       && (s[0] == '0' || s[0] == '1' || (s[0] == '2' && s[1] <= '3')) && s[3] <= '5'
    then Some(Time(Value(s[0]) * 10 + Value(s[1]), Value(s[3]) * 10 + Value(s[4])))
    else None
  }

  lemma {:induction false} PadIsTwoDigits(n: nat)
    requires n < 100
    ensures Pad(n) == [Digit(n / 10), Digit(n % 10)]
  {
    assert n >= 10 ==> Dec(n / 10) == [Digit(n / 10)];
  }

  /** Exactly the times of a 24-hour clock are parsed, each from its two pairs of digits. */
  lemma {:induction false} ParsesExactly(s: string, t: Time)
    ensures ParseHhmm(s) == Some(t) <==> t.hh < 24 && t.mm < 60 && s == Pad(t.hh) + ":" + Pad(t.mm)
  {
    if ParseHhmm(s) == Some(t) || (t.hh < 24 && t.mm < 60 && s == Pad(t.hh) + ":" + Pad(t.mm)) {
      PadIsTwoDigits(t.hh);
      PadIsTwoDigits(t.mm);
      hide Pad, Dec;
      assert s == [s[0], s[1], ':', s[3], s[4]];
    }
  }

  function Days(raw: Option<seq<Option<int>>>): seq<int> {
    match raw
    case None => []
    case Some(list) => Numbers(list)
  }

  function Numbers(list: seq<Option<int>>): seq<int> {
    if list == [] then []
    else (if list[0].Some? then [list[0].value] else []) + Numbers(list[1..])
  }

  /** What one override sets, if it is well formed. */
  function Setting(o: Override): Option<(int, Time)> {
    if o.day.Some? && 0 <= o.day.value <= 6 && o.time.Some? && ParseHhmm(o.time.value).Some?
    then Some((o.day.value, ParseHhmm(o.time.value).value)) else None
  }

  /** The last well-formed override of a day stands; the others leave no trace. */
  ghost predicate Overrides(raw: seq<Override>, m: map<int, Time>) {
    && (forall d :: d in m ==> exists i :: Stands(raw, i, d, m[d]))
    && (forall i :: 0 <= i < |raw| && Setting(raw[i]).Some? ==> Setting(raw[i]).value.0 in m)
  }

  ghost predicate IsLast(raw: seq<Override>, i: int, d: int) {
    && 0 <= i < |raw|
    && forall j :: i < j < |raw| && Setting(raw[j]).Some? ==> Setting(raw[j]).value.0 != d
  }

  function TimesByDay(raw: seq<Override>): map<int, Time> {
    if raw == [] then map[]
    else
      var m := TimesByDay(raw[..|raw| - 1]);
      match Setting(raw[|raw| - 1])
      case Some((d, t)) => m[d := t]
      case None => m
  }

  /** Override i is the last of day d, and sets it to t. */
  ghost predicate Stands(raw: seq<Override>, i: int, d: int, t: Time) {
    IsLast(raw, i, d) && Setting(raw[i]) == Some((d, t))
  }

  lemma {:induction false} StandsLonger(raw: seq<Override>, i: int, d: int, t: Time)
    requires raw != [] && Stands(raw[..|raw| - 1], i, d, t)
    requires Setting(raw[|raw| - 1]).Some? ==> Setting(raw[|raw| - 1]).value.0 != d
    ensures Stands(raw, i, d, t)
  {
    hide Setting;
    var n := |raw| - 1;
    forall j | i < j < |raw| && Setting(raw[j]).Some? ensures Setting(raw[j]).value.0 != d {
      if j < n { assert raw[..n][j] == raw[j]; }
    }
  }

  lemma {:induction false} LastOverrideStands(raw: seq<Override>)
    ensures Overrides(raw, TimesByDay(raw))
  {
    hide Setting, IsLast;
    if raw != [] {
      var n := |raw| - 1;
      var init, m := raw[..n], TimesByDay(raw[..n]);
      LastOverrideStands(init);
      forall d | d in TimesByDay(raw) ensures exists i :: Stands(raw, i, d, TimesByDay(raw)[d]) {
        if Setting(raw[n]).Some? && Setting(raw[n]).value.0 == d {
          NewestStands(raw, d);
        } else {
          var i :| Stands(init, i, d, m[d]);
          StandsLonger(raw, i, d, m[d]);
        }
      }
      forall i | 0 <= i < |raw| && Setting(raw[i]).Some? ensures Setting(raw[i]).value.0 in TimesByDay(raw) {
        if i < n { assert init[i] == raw[i]; }
      }
    }
  }

  lemma {:induction false} NewestStands(raw: seq<Override>, d: int)
    requires raw != [] && Setting(raw[|raw| - 1]).Some? && Setting(raw[|raw| - 1]).value.0 == d
    ensures Stands(raw, |raw| - 1, d, Setting(raw[|raw| - 1]).value.1)
  {
  }

  method ParseTimesByDay(raw: seq<Override>) returns (out: map<int, Time>)
    ensures Overrides(raw, out) && out == TimesByDay(raw)
  {
    out := map[];
    for i := 0 to |raw|
      invariant out == TimesByDay(raw[..i])
    {
      assert raw[..i + 1][..i] == raw[..i];
      if raw[i].day.None? || raw[i].day.value < 0 || raw[i].day.value > 6 { continue; }
      if raw[i].time.None? { continue; }
      var t := ParseHhmm(raw[i].time.value);
      if t.Some? {
        out := out[raw[i].day.value := t.value];
      }
    }
    assert raw[..|raw|] == raw;
    LastOverrideStands(raw);
  }

  // ---------- The run of a program ----------

  /** A complete schedule, resolved: the first local day, the number of days, and when to meet. */
  datatype Plan = Plan(base: int, dayCount: int, days: seq<int>, general: Time, perDay: map<int, Time>, tz: Offset)

  function PlanOf(s: CourseSchedule): Option<Plan> {
    var days := Days(s.meetingDays);
    if s.startDate.None? || s.durationWeeks.None? || s.durationWeeks.value == 0
       || s.meetingTime.None? || s.meetingTime.value == "" || s.timezone.None? || days == [] then None
    else
      match ParseHhmm(s.meetingTime.value)
      case None => None
      case Some(general) =>
        var start := PartsInTz(s.startDate.value, s.timezone.value);
        Some(Plan(UtcDay(start.date), s.durationWeeks.value * 7, days, general,
                  TimesByDay(s.overrides), s.timezone.value))
  }

  predicate Meets(p: Plan, i: int) {
    WeekDay(p.base + i) in p.days
  }

  function TimeOn(p: Plan, w: int): Time {
    if w in p.perDay then p.perDay[w] else p.general
  }

  function YearOf(y: int): string {
    if y < 0 then "-" + Dec(-y) else Dec(y)
  }

  function DateKey(d: Date): string {
    YearOf(d.year) + "-" + PadInt(d.month) + "-" + PadInt(d.day)
  }

  function PadInt(n: int): string {
    if n < 0 then "" else Pad(n)
  }

  /** The meeting on day i of the run. */
  function Meeting(p: Plan, i: int): Occurrence {
    var d := DateOf(p.base + i);
    var t := TimeOn(p, WeekDay(p.base + i));
    Occurrence(DateKey(d), ZonedWallTimeToUtc(d, t.hh, t.mm, p.tz))
  }

  /** The meeting days among the first n days of the run, in order. */
  function Picks(p: Plan, n: int): seq<int>
    decreases n
  {
    if n <= 0 then []
    else if Meets(p, n - 1) then Picks(p, n - 1) + [n - 1]
    else Picks(p, n - 1)
  }

  lemma {:induction false} PicksAreTheMeetingDays(p: Plan, n: int)
    ensures forall i :: i in Picks(p, n) <==> 0 <= i < n && Meets(p, i)
    ensures forall j, k :: 0 <= j < k < |Picks(p, n)| ==> Picks(p, n)[j] < Picks(p, n)[k]
    decreases n
  {
    if n > 0 {
      PicksAreTheMeetingDays(p, n - 1);
      var s := Picks(p, n - 1);
      assert forall k :: 0 <= k < |s| ==> s[k] in s;
    }
  }

  function Meetings(s: CourseSchedule): seq<Occurrence> {
    match PlanOf(s)
    case None => []
    case Some(p) => Held(p, p.dayCount)
  }

  function Held(p: Plan, n: int): (occ: seq<Occurrence>)
    ensures |occ| == |Picks(p, n)|
    ensures forall k :: 0 <= k < |occ| ==> occ[k] == Meeting(p, Picks(p, n)[k])
  {
    seq(|Picks(p, n)|, k requires 0 <= k < |Picks(p, n)| => Meeting(p, Picks(p, n)[k]))
  }

  // ---------- The meetings, by the columns alone ----------

  /** The override sets this weekday to this time. */
  ghost predicate Sets(o: Override, w: int, t: Time) {
    o.day == Some(w) && 0 <= w <= 6 && t.hh < 24 && t.mm < 60 && o.time == Some(Pad(t.hh) + ":" + Pad(t.mm))
  }

  /** No override from position i on sets the weekday. */
  ghost predicate NoneFrom(raw: seq<Override>, i: int, w: int) {
    forall j, t :: 0 <= j < |raw| && i <= j ==> !Sets(raw[j], w, t)
  }

  ghost predicate LastToSet(raw: seq<Override>, i: int, w: int, t: Time) {
    0 <= i < |raw| && Sets(raw[i], w, t) && NoneFrom(raw, i + 1, w)
  }

  /** On this weekday the course meets at this time: the last override's, or else the general one. */
  ghost predicate MeetsAt(s: CourseSchedule, w: int, t: Time) {
    || (exists i :: LastToSet(s.overrides, i, w, t))
    || (NoneFrom(s.overrides, 0, w) && t.hh < 24 && t.mm < 60 && s.meetingTime == Some(Pad(t.hh) + ":" + Pad(t.mm)))
  }

  /** All that is needed is there. */
  ghost predicate Complete(s: CourseSchedule) {
    && s.startDate.Some? && s.durationWeeks.Some? && s.durationWeeks.value != 0 && s.timezone.Some?
    && s.meetingDays.Some? && (exists d :: Some(d) in s.meetingDays.value)
    && exists t: Time :: IsTime(s.meetingTime, t)
  }

  ghost predicate IsTime(text: Option<string>, t: Time) {
    t.hh < 24 && t.mm < 60 && text == Some(Pad(t.hh) + ":" + Pad(t.mm))
  }

  /** The local day on which the program starts. */
  function FirstDay(s: CourseSchedule): int
    requires s.startDate.Some? && s.timezone.Some?
  {
    UtcDay(PartsInTz(s.startDate.value, s.timezone.value).date)
  }

  /** This meeting is held on day i of the run, at the time of its weekday. */
  ghost predicate HeldOn(s: CourseSchedule, i: int, o: Occurrence)
    requires Complete(s)
  {
    var day := FirstDay(s) + i;
    && 0 <= i < 7 * s.durationWeeks.value && Some(WeekDay(day)) in s.meetingDays.value
    && o.dateKey == DateKey(DateOf(day))
    && exists t: Time :: MeetsAt(s, WeekDay(day), t) && o.scheduledAt == ZonedWallTimeToUtc(DateOf(day), t.hh, t.mm, s.timezone.value)
  }

  lemma {:induction false} SettingExactly(o: Override, w: int, t: Time)
    ensures Setting(o) == Some((w, t)) <==> Sets(o, w, t)
  {
    hide ParseHhmm, Pad;
    if o.time.Some? { ParsesExactly(o.time.value, t); }
  }

  lemma {:induction false} NoneSet(raw: seq<Override>, w: int)
    ensures NoneFrom(raw, 0, w) <==> w !in TimesByDay(raw)
  {
    hide Setting, Sets;
    LastOverrideStands(raw);
    var m := TimesByDay(raw);
    if w in m {
      var i :| Stands(raw, i, w, m[w]);
      SettingExactly(raw[i], w, m[w]);
    }
    forall j, t | 0 <= j < |raw| && Sets(raw[j], w, t) ensures w in m {
      SettingExactly(raw[j], w, t);
    }
  }

  lemma {:induction false} LastSets(raw: seq<Override>, i: int, w: int, t: Time)
    ensures LastToSet(raw, i, w, t) <==> Stands(raw, i, w, t)
  {
    hide Setting, Sets;
    if 0 <= i < |raw| {
      SettingExactly(raw[i], w, t);
      if IsLast(raw, i, w) {
        forall j, u | i < j < |raw| ensures !Sets(raw[j], w, u) { SettingExactly(raw[j], w, u); }
      }
      if NoneFrom(raw, i + 1, w) {
        forall j | i < j < |raw| && Setting(raw[j]).Some? ensures Setting(raw[j]).value.0 != w {
          SettingExactly(raw[j], w, Setting(raw[j]).value.1);
        }
      }
    }
  }

  lemma {:induction false} OneStands(raw: seq<Override>, i: int, k: int, w: int, t: Time, u: Time)
    requires Stands(raw, i, w, t) && Stands(raw, k, w, u)
    ensures i == k && t == u
  {
  }

  lemma {:induction false} TimesAre(raw: seq<Override>, w: int, t: Time)
    ensures (w in TimesByDay(raw) && TimesByDay(raw)[w] == t) <==> exists i :: LastToSet(raw, i, w, t)
  {
    hide Setting, Sets, TimesByDay, Stands, LastToSet, NoneFrom;
    LastOverrideStands(raw);
    forall i ensures LastToSet(raw, i, w, t) <==> Stands(raw, i, w, t) { LastSets(raw, i, w, t); }
    NoneSet(raw, w);
    if w in TimesByDay(raw) {
      var i :| Stands(raw, i, w, TimesByDay(raw)[w]);
      if TimesByDay(raw)[w] == t { assert LastToSet(raw, i, w, t); }
      if k :| LastToSet(raw, k, w, t) { OneStands(raw, i, k, w, TimesByDay(raw)[w], t); }
    } else if k :| LastToSet(raw, k, w, t) {
      SetByLast(raw, k, w, t);
    }
  }

  lemma {:induction false} SetByLast(raw: seq<Override>, k: int, w: int, t: Time)
    requires LastToSet(raw, k, w, t)
    ensures !NoneFrom(raw, 0, w)
  {
  }

  lemma {:induction false} NumbersAre(list: seq<Option<int>>, d: int)
    ensures d in Numbers(list) <==> Some(d) in list
  {
    if list != [] {
      NumbersAre(list[1..], d);
      assert list == [list[0]] + list[1..];
    }
  }

  lemma {:induction false} TimeOnExactly(s: CourseSchedule, p: Plan, w: int, t: Time)
    requires PlanOf(s) == Some(p)
    ensures TimeOn(p, w) == t <==> MeetsAt(s, w, t)
  {
    hide ParseHhmm, Pad, PartsInTz, UtcDay, TimesByDay, Days, LastToSet, NoneFrom;
    TimesAre(s.overrides, w, t);
    NoneSet(s.overrides, w);
    ParsesExactly(s.meetingTime.value, t);
    ParsesExactly(s.meetingTime.value, p.general);
    if w !in p.perDay {
      forall i ensures !LastToSet(s.overrides, i, w, t) { if LastToSet(s.overrides, i, w, t) { SetByLast(s.overrides, i, w, t); } }
    }
  }

  lemma {:induction false} DaysAre(raw: seq<Option<int>>)
    ensures forall d :: d in Days(Some(raw)) <==> Some(d) in raw
    ensures Days(Some(raw)) != [] <==> exists d :: Some(d) in raw
  {
    forall d ensures d in Days(Some(raw)) <==> Some(d) in raw { NumbersAre(raw, d); }
    if d :| Some(d) in raw { assert d in Days(Some(raw)); }
    if Days(Some(raw)) != [] {
      var d := Days(Some(raw))[0];
      assert d in Days(Some(raw)) && Some(d) in raw;
    }
  }

  lemma {:induction false} TimeIs(text: string)
    ensures ParseHhmm(text).Some? <==> exists t: Time :: IsTime(Some(text), t)
    ensures text == "" ==> ParseHhmm(text).None?
  {
    hide Pad;
    if ParseHhmm(text).Some? {
      ParsesExactly(text, ParseHhmm(text).value);
      assert IsTime(Some(text), ParseHhmm(text).value);
    }
    if t: Time :| IsTime(Some(text), t) { ParsesExactly(text, t); }
  }

  lemma {:induction false} PlanExactly(s: CourseSchedule)
    ensures PlanOf(s).Some? <==> Complete(s)
    ensures PlanOf(s).Some? ==>
              var p := PlanOf(s).value;
              && p.base == FirstDay(s) && p.dayCount == 7 * s.durationWeeks.value && p.tz == s.timezone.value
              && forall d :: d in p.days <==> Some(d) in s.meetingDays.value
  {
    hide ParseHhmm, PartsInTz, UtcDay, TimesByDay, IsTime, Numbers;
    if s.meetingDays.Some? { DaysAre(s.meetingDays.value); } else { assert Days(s.meetingDays) == []; }
    if s.meetingTime.Some? { TimeIs(s.meetingTime.value); } else { NeverTime(); }
    hide Days;
  }

  lemma {:induction false} NeverTime()
    ensures forall t: Time :: !IsTime(None, t)
  {
  }

  lemma {:induction false} HeldExactly(s: CourseSchedule, p: Plan, i: int, o: Occurrence)
    requires PlanOf(s) == Some(p) && Complete(s)
    ensures (0 <= i < p.dayCount && Meets(p, i) && o == Meeting(p, i)) <==> HeldOn(s, i, o)
  {
    PlanExactly(s);
    hide PlanOf, FirstDay, MeetsAt, ZonedWallTimeToUtc, DateOf, DateKey, WeekDay, Complete, TimeOn;
    var w := WeekDay(p.base + i);
    forall t ensures TimeOn(p, w) == t <==> MeetsAt(s, w, t) { TimeOnExactly(s, p, w, t); }
  }

  ghost predicate DaysAscend(days: seq<int>) {
    forall j, k :: 0 <= j < k < |days| ==> days[j] < days[k]
  }

  /** The meetings of a complete schedule, day by day, on these days of the run. */
  ghost predicate HeldOnDays(s: CourseSchedule, occ: seq<Occurrence>, days: seq<int>)
    requires Complete(s)
  {
    && |days| == |occ| && DaysAscend(days)
    && forall k :: 0 <= k < |occ| ==> HeldOn(s, days[k], occ[k])
  }

  /** An incomplete schedule has no meetings; a complete one has exactly those that are held on a
      selected weekday of the run, at that weekday's own time or else the general one, in order. */
  lemma {:induction false} MeetingsAre(s: CourseSchedule)
    ensures !Complete(s) ==> Meetings(s) == []
    ensures Complete(s) ==> forall o :: o in Meetings(s) <==> exists i :: HeldOn(s, i, o)
    ensures Complete(s) ==> exists days :: HeldOnDays(s, Meetings(s), days)
  {
    PlanExactly(s);
    hide PlanOf, Complete, Meeting, Meets, FirstDay, HeldOn;
    if Complete(s) {
      var p := PlanOf(s).value;
      var occ, picks := Held(p, p.dayCount), Picks(p, p.dayCount);
      assert Meetings(s) == occ;
      PicksAreTheMeetingDays(p, p.dayCount);
      hide Held, Picks, Meetings;
      forall k | 0 <= k < |occ| ensures HeldOn(s, picks[k], occ[k]) {
        assert picks[k] in picks;
        HeldExactly(s, p, picks[k], occ[k]);
      }
      forall i, o | HeldOn(s, i, o) ensures o in occ {
        HeldExactly(s, p, i, o);
        var k :| 0 <= k < |picks| && picks[k] == i;
        assert occ[k] == o;
      }
      assert HeldOnDays(s, occ, picks);
    }
  }

  lemma {:induction false} NoDays(p: Plan, n: int)
    requires n <= 0
    ensures Held(p, n) == []
  {
  }

  lemma {:induction false} NextDay(p: Plan, i: nat)
    ensures Held(p, i + 1) == if Meets(p, i) then Held(p, i) + [Meeting(p, i)] else Held(p, i)
  {
  }

  /** All meetings across the program run, in chronological order. */
  method ListOccurrences(s: CourseSchedule) returns (occurrences: seq<Occurrence>)
    ensures occurrences == Meetings(s)
  {
    var days := Days(s.meetingDays);
    if s.startDate.None? || s.durationWeeks.None? || s.durationWeeks.value == 0
       || s.meetingTime.None? || s.meetingTime.value == "" || s.timezone.None? || days == [] {
      return [];
    }
    var general := ParseHhmm(s.meetingTime.value);
    if general.None? { return []; }
    var perDay := ParseTimesByDay(s.overrides);
    var start := PartsInTz(s.startDate.value, s.timezone.value);
    occurrences := WalkDays(
      Plan(UtcDay(start.date), s.durationWeeks.value * 7, days, general.value, perDay, s.timezone.value));
  }

  /** Walk the run day by day. */
  method WalkDays(p: Plan) returns (occurrences: seq<Occurrence>)
    ensures occurrences == Held(p, p.dayCount)
  {
    hide Meeting;
    occurrences := [];
    NoDays(p, 0);
    if p.dayCount < 0 { NoDays(p, p.dayCount); }
    var i := 0;
    while i < p.dayCount
      invariant 0 <= i && (i <= p.dayCount || i == 0)
      invariant occurrences == Held(p, i)
    {
      var dow := WeekDay(p.base + i);
      if dow in p.days {
        occurrences := occurrences + [Meeting(p, i)];
      }
      NextDay(p, i);
      i := i + 1;
    }
  }
}
