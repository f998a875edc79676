/** Pre-class reminders: a sweep every few minutes and a latch per course and day. */
module Reminders {
  import opened Wrappers
  import opened CivilDate
  import opened Zone
  import opened Schedule
  import opened JoinWindow

  datatype Course = Course(id: string, schedule: CourseSchedule, leadMinutes: Option<int>,
                           emails: seq<Option<string>>)

  /** One course looked at by one sweep: when the sweep began, and the clock when its turn came. */
  datatype Visit = Visit(course: Course, now: int, clock: int)

  datatype Reminder = Reminder(course: string, dateKey: string, visit: nat)

  datatype Mail = Mail(email: string, course: string, dateKey: string)

  function LeadMs(c: Course): int {
    (if c.leadMinutes.Some? then c.leadMinutes.value else 30) * MINUTE_MS
  }

  /** The meeting a visit would remind of: the next one, if it is upcoming and inside the lead. */
  function Due(v: Visit): Option<Occurrence> {
    var next := Window(v.course.schedule, v.clock).next;
    if next.None? || next.value.scheduledAt - v.now <= 0 || next.value.scheduledAt - v.now > LeadMs(v.course)
    then None else next
  }

  predicate Latched(log: seq<Reminder>, course: string, dateKey: string) {
    exists k :: 0 <= k < |log| && log[k].course == course && log[k].dateKey == dateKey
  }

  /** What one visit adds to a log. */
  function Adds(log: seq<Reminder>, v: Visit, n: nat): seq<Reminder> {
    if Due(v).Some? && !Latched(log, v.course.id, Due(v).value.dateKey)
    then [Reminder(v.course.id, Due(v).value.dateKey, n)] else []
  }

  /** Every reminder sent over a run of visits, in order. */
  function Log(visits: seq<Visit>): seq<Reminder>
    decreases |visits|
  {
    if visits == [] then [] else
    var n := |visits| - 1;
    var log := Log(visits[..n]);
    log + Adds(log, visits[n], n)
  }

  function Letters(c: Course, emails: seq<Option<string>>, dateKey: string): seq<Mail> {
    if emails == [] then []
    else Letters(c, emails[..|emails| - 1], dateKey)
         + match emails[|emails| - 1]
           case None => []
           case Some(e) => if e == "" then [] else [Mail(e, c.id, dateKey)]
  }

  /** The mail of every reminder: one letter to each student with an address. */
  function Mails(visits: seq<Visit>, log: seq<Reminder>): seq<Mail>
  {
    if log == [] then [] else
    var r := log[|log| - 1];
    Mails(visits, log[..|log| - 1])
    + if r.visit < |visits| then Letters(visits[r.visit].course, visits[r.visit].course.emails, r.dateKey) else []
  }

  lemma {:induction false} LogAdds(visits: seq<Visit>, v: Visit)
    ensures Log(visits + [v]) == Log(visits) + Adds(Log(visits), v, |visits|)
  {
    hide Adds;
    assert (visits + [v])[..|visits|] == visits;
  }

  /** The entry comes from a visit to that course which found that meeting due. */
  ghost predicate Explained(visits: seq<Visit>, r: Reminder) {
    && r.visit < |visits| && r.course == visits[r.visit].course.id
    && Due(visits[r.visit]).Some? && Due(visits[r.visit]).value.dateKey == r.dateKey
  }

  lemma {:induction false} LogIsExplained(visits: seq<Visit>)
    ensures forall k :: 0 <= k < |Log(visits)| ==> Explained(visits, Log(visits)[k])
    decreases |visits|
  {
    if visits != [] {
      hide Due, Latched;
      var n := |visits| - 1;
      LogIsExplained(visits[..n]);
      var log := Log(visits[..n]);
      forall k | 0 <= k < |Log(visits)| ensures Explained(visits, Log(visits)[k]) {
        if k < |log| { assert Explained(visits[..n], log[k]); }
      }
    }
  }

  // ---------- Who is mailed ----------

  /** How many letters to this address a class day's reminder has brought. */
  function MailsTo(mails: seq<Mail>, email: string, course: string, dateKey: string): nat {
    multiset(mails)[Mail(email, course, dateKey)]
  }

  /** How often an address is on a course's list. */
  function OnList(c: Course, email: string): nat {
    if email == "" then 0 else multiset(c.emails)[Some(email)]
  }

  lemma {:induction false} LettersReachAll(c: Course, emails: seq<Option<string>>, key: string, a: string, id: string, k: string)
    ensures MailsTo(Letters(c, emails, key), a, id, k)
         == if id == c.id && k == key && a != "" then multiset(emails)[Some(a)] else 0
  {
    hide Letters, MailsTo;
    if emails == [] {
      NoLetters(c, key, a, id, k);
    } else {
      var init, last := emails[..|emails| - 1], emails[|emails| - 1];
      LettersReachAll(c, init, key, a, id, k);
      LettersNext(c, emails, key);
      JoinMails(Letters(c, init, key), Letters(c, [last], key), a, id, k);
      OneLetter(c, last, key, a, id, k);
      assert emails == init + [last];
    }
  }

  lemma {:induction false} NoLetters(c: Course, key: string, a: string, id: string, k: string)
    ensures MailsTo(Letters(c, [], key), a, id, k) == 0
  {
  }

  lemma {:induction false} LettersNext(c: Course, emails: seq<Option<string>>, key: string)
    requires emails != []
    ensures Letters(c, emails, key) == Letters(c, emails[..|emails| - 1], key) + Letters(c, [emails[|emails| - 1]], key)
  {
    var last := [emails[|emails| - 1]];
    assert last[..0] == [] && Letters(c, last[..0], key) == [];
  }

  lemma {:induction false} OneLetter(c: Course, email: Option<string>, key: string, a: string, id: string, k: string)
    ensures MailsTo(Letters(c, [email], key), a, id, k)
         == if id == c.id && k == key && a != "" && email == Some(a) then 1 else 0
  {
    assert [email][..0] == [] && Letters(c, [email][..0], key) == [];
  }

  /** What the last reminder adds to the mail of a class day. */
  lemma {:induction false} MailsNext(visits: seq<Visit>, log: seq<Reminder>, a: string, id: string, k: string)
    requires log != [] && Explained(visits, log[|log| - 1])
    ensures var r := log[|log| - 1];
            r.visit < |visits| && MailsTo(Mails(visits, log), a, id, k) == MailsTo(Mails(visits, log[..|log| - 1]), a, id, k)
              + if r.course == id && r.dateKey == k then OnList(visits[r.visit].course, a) else 0
  {
    hide Due, Letters, MailsTo;
    var r := log[|log| - 1];
    var c := visits[r.visit].course;
    LettersReachAll(c, c.emails, r.dateKey, a, id, k);
    JoinMails(Mails(visits, log[..|log| - 1]), Letters(c, c.emails, r.dateKey), a, id, k);
  }

  ghost predicate AllExplained(visits: seq<Visit>, log: seq<Reminder>) {
    forall k :: 0 <= k < |log| ==> Explained(visits, log[k])
  }

  lemma {:induction false} LogInit(visits: seq<Visit>, log: seq<Reminder>)
    requires AllExplained(visits, log) && NoRepeat(log) && log != []
    ensures var init, r := log[..|log| - 1], log[|log| - 1];
            && AllExplained(visits, init) && NoRepeat(init) && Explained(visits, r) && !Latched(init, r.course, r.dateKey)
  {
    hide Explained;
  }

  lemma {:induction false} NoMail(visits: seq<Visit>, log: seq<Reminder>, a: string, id: string, k: string)
    requires AllExplained(visits, log) && NoRepeat(log) && !Latched(log, id, k)
    ensures MailsTo(Mails(visits, log), a, id, k) == 0
    decreases |log|
  {
    hide Explained, OnList, MailsTo, AllExplained, NoRepeat;
    if log == [] {
      NoMailAtAll(visits, a, id, k);
    } else {
      LogInit(visits, log);
      if Latched(log[..|log| - 1], id, k) { StillLatched(log, id, k); }
      MailsNext(visits, log, a, id, k);
      hide Mails;
      NoMail(visits, log[..|log| - 1], a, id, k);
    }
  }

  lemma {:induction false} NoMailAtAll(visits: seq<Visit>, a: string, id: string, k: string)
    ensures MailsTo(Mails(visits, []), a, id, k) == 0
  {
  }

  lemma {:induction false} AllMail(visits: seq<Visit>, log: seq<Reminder>, j: nat, a: string)
    requires AllExplained(visits, log) && NoRepeat(log) && j < |log|
    ensures log[j].visit < |visits|
    ensures MailsTo(Mails(visits, log), a, log[j].course, log[j].dateKey) == OnList(visits[log[j].visit].course, a)
    decreases |log|
  {
    hide OnList, Mails, MailsTo, AllExplained, NoRepeat, Explained;
    var init, r := log[..|log| - 1], log[|log| - 1];
    LogInit(visits, log);
    MailsNext(visits, log, a, log[j].course, log[j].dateKey);
    if j < |log| - 1 {
      AllMail(visits, init, j, a);
      assert log[j] == init[j];
      LatchedAt(init, j);
      hide Latched;
    } else {
      hide Latched;
      NoMail(visits, init, a, r.course, r.dateKey);
    }
  }

  lemma {:induction false} LatchedAt(log: seq<Reminder>, j: nat)
    requires j < |log|
    ensures Latched(log, log[j].course, log[j].dateKey)
  {
  }

  lemma {:induction false} JoinMails(x: seq<Mail>, y: seq<Mail>, a: string, id: string, k: string)
    ensures MailsTo(x + y, a, id, k) == MailsTo(x, a, id, k) + MailsTo(y, a, id, k)
  {
  }

  lemma {:induction false} StillLatched(log: seq<Reminder>, id: string, k: string)
    requires log != [] && Latched(log[..|log| - 1], id, k)
    ensures Latched(log, id, k)
  {
    var j :| 0 <= j < |log| - 1 && log[..|log| - 1][j].course == id && log[..|log| - 1][j].dateKey == k;
    assert log[j].course == id && log[j].dateKey == k;
  }

  /** In every run each reminder has mailed every address of its course as often as it is on the
      list, and no class day without a reminder has brought any mail. */
  lemma {:induction false} EveryoneIsMailed(visits: seq<Visit>, a: string, id: string, k: string)
    ensures forall j :: 0 <= j < |Log(visits)| && Log(visits)[j].course == id && Log(visits)[j].dateKey == k ==>
              Log(visits)[j].visit < |visits|
              && MailsTo(Mails(visits, Log(visits)), a, id, k) == OnList(visits[Log(visits)[j].visit].course, a)
    ensures !Latched(Log(visits), id, k) ==> MailsTo(Mails(visits, Log(visits)), a, id, k) == 0
  {
    hide Log, Due, Letters, Mails, MailsTo, OnList;
    AtMostOnce(visits);
    LogIsExplained(visits);
    if Latched(Log(visits), id, k) {
      forall j | 0 <= j < |Log(visits)| && Log(visits)[j].course == id && Log(visits)[j].dateKey == k
        ensures Log(visits)[j].visit < |visits|
        ensures MailsTo(Mails(visits, Log(visits)), a, id, k) == OnList(visits[Log(visits)[j].visit].course, a)
      {
        AllMail(visits, Log(visits), j, a);
      }
    } else {
      NoMail(visits, Log(visits), a, id, k);
    }
  }

  // ---------- At most once, always ----------

  ghost predicate NoRepeat(log: seq<Reminder>) {
    forall j, k :: 0 <= j < k < |log| ==> log[j].course != log[k].course || log[j].dateKey != log[k].dateKey
  }

  lemma {:induction false} NoRepeatGrows(log: seq<Reminder>, r: Reminder)
    requires NoRepeat(log) && !Latched(log, r.course, r.dateKey)
    ensures NoRepeat(log + [r])
  {
  }

  /** No class day of a course is ever reminded twice. */
  lemma {:induction false} AtMostOnce(visits: seq<Visit>)
    ensures NoRepeat(Log(visits))
    decreases |visits|
  {
    if visits != [] {
      hide NoRepeat, Latched, Due;
      var n := |visits| - 1;
      var log, v := Log(visits[..n]), visits[n];
      AtMostOnce(visits[..n]);
      assert log + [] == log;
      if Adds(log, v, n) != [] {
        NoRepeatGrows(log, Adds(log, v, n)[0]);
      }
    } else {
      assert NoRepeat([]);
    }
  }

  /** Every reminder, in any run, is of a meeting of its course that had not begun when the sweep
      did and was inside the lead. */
  ghost predicate Timely(visits: seq<Visit>, r: Reminder) {
    r.visit < |visits|
    && var c, now := visits[r.visit].course, visits[r.visit].now;
       && r.course == c.id
       && exists o :: o in Meetings(c.schedule) && o.dateKey == r.dateKey && now < o.scheduledAt
                   && o.scheduledAt - now <= (match c.leadMinutes case None => 30 case Some(m) => m) * 60_000
  }

  lemma {:induction false} RemindersAreTimely(visits: seq<Visit>)
    ensures forall k :: 0 <= k < |Log(visits)| ==> Timely(visits, Log(visits)[k])
  {
    LogIsExplained(visits);
    hide Log, Meetings, DateKey, PartsInTz;
    forall k | 0 <= k < |Log(visits)| ensures Timely(visits, Log(visits)[k]) {
      var r := Log(visits)[k];
      assert Explained(visits, r);
      var v := visits[r.visit];
      FindAfterIn(Meetings(v.course.schedule), v.clock);
      assert Due(v).value in Meetings(v.course.schedule);
    }
  }

  // ---------- Courses do not disturb each other ----------

  function ById(log: seq<Reminder>, id: string): seq<string>
    decreases |log|
  {
    if log == [] then []
    else ById(log[..|log| - 1], id) + if log[|log| - 1].course == id then [log[|log| - 1].dateKey] else []
  }

  function VisitsOf(visits: seq<Visit>, id: string): seq<Visit>
    decreases |visits|
  {
    if visits == [] then []
    else VisitsOf(visits[..|visits| - 1], id)
         + if visits[|visits| - 1].course.id == id then [visits[|visits| - 1]] else []
  }

  lemma {:induction false} LatchedById(log: seq<Reminder>, id: string, key: string)
    ensures Latched(log, id, key) <==> key in ById(log, id)
  {
    if log != [] {
      var n := |log| - 1;
      LatchedById(log[..n], id, key);
      if Latched(log, id, key) {
        var k :| 0 <= k < |log| && log[k].course == id && log[k].dateKey == key;
        if k < n { assert log[..n][k] == log[k]; }
      }
      if Latched(log[..n], id, key) {
        var k :| 0 <= k < n && log[..n][k].course == id && log[..n][k].dateKey == key;
        assert log[k] == log[..n][k];
      }
    }
  }

  lemma {:induction false} ByIdAppends(log: seq<Reminder>, r: Reminder, id: string)
    ensures ById(log + [r], id) == ById(log, id) + if r.course == id then [r.dateKey] else []
  {
    assert (log + [r])[..|log|] == log;
  }

  lemma {:induction false} AddsAlike(log: seq<Reminder>, own: seq<Reminder>, v: Visit, n: nat, m: nat, id: string)
    requires ById(log, id) == ById(own, id)
    ensures ById(log + Adds(log, v, n), id) == ById(if v.course.id == id then own + Adds(own, v, m) else own, id)
  {
    hide Due, ById, Latched;
    assert log + [] == log && own + [] == own;
    if Due(v).Some? {
      var key := Due(v).value.dateKey;
      LatchedById(log, id, key);
      LatchedById(own, id, key);
      ByIdAppends(log, Reminder(v.course.id, key, n), id);
      ByIdAppends(own, Reminder(v.course.id, key, m), id);
    }
  }

  /** A course is reminded as if it were the only one. */
  lemma {:induction false} CoursesAreIndependent(visits: seq<Visit>, id: string)
    ensures ById(Log(visits), id) == ById(Log(VisitsOf(visits, id)), id)
    decreases |visits|
  {
    if visits != [] {
      var n := |visits| - 1;
      var init, v := visits[..n], visits[n];
      var own := VisitsOf(init, id);
      CoursesAreIndependent(init, id);
      AddsAlike(Log(init), Log(own), v, n, |own|, id);
      LogAdds(own, v);
      assert Log(visits) == Log(init) + Adds(Log(init), v, n) by { hide Due, Latched, ById; }
      assert VisitsOf(visits, id) == if v.course.id == id then own + [v] else own by { hide Log, Adds, ById; }
      hide Log, VisitsOf, ById, Adds;
    }
  }

  // ---------- Exactly once, when the sweeps are dense enough ----------

  /** Sweeps of one course, each at most g after the one before, whatever a sweep's own delay. */
  ghost predicate Dense(c: Course, visits: seq<Visit>, g: int) {
    && (forall k :: 0 <= k < |visits| ==> visits[k].course == c && visits[k].now <= visits[k].clock)
    && (forall k :: 0 <= k < |visits| - 1 ==> visits[k + 1].clock <= visits[k].now + g)
  }

  ghost predicate Apart(occ: seq<Occurrence>, g: int) {
    && Ascending(occ)
    && forall k :: 0 <= k < |occ| - 1 ==> occ[k].scheduledAt + g <= occ[k + 1].scheduledAt
  }

  /** A visit less than g before a meeting finds that meeting due. */
  lemma {:induction false} LastVisitFindsIt(v: Visit, m: nat, g: int)
    requires var occ := Meetings(v.course.schedule);
             m < |occ| && Apart(occ, g) && v.now <= v.clock < occ[m].scheduledAt <= v.now + g
    requires g <= LeadMs(v.course)
    ensures Due(v) == Some(Meetings(v.course.schedule)[m])
  {
    hide Meetings, DateKey, PartsInTz;
    var occ := Meetings(v.course.schedule);
    if m > 0 {
      assert occ[m - 1].scheduledAt + g <= occ[m].scheduledAt;
    }
    forall k | 0 <= k < m ensures occ[k].scheduledAt <= v.clock {
      if k < m - 1 { assert occ[k].scheduledAt < occ[m - 1].scheduledAt; }
    }
    FindAfterIs(occ, v.clock, m);
  }

  lemma {:induction false} FindAfterIs(occ: seq<Occurrence>, now: int, m: nat)
    requires m < |occ| && occ[m].scheduledAt > now
    requires forall k :: 0 <= k < m ==> occ[k].scheduledAt <= now
    ensures FindAfter(occ, now) == Some(occ[m])
  {
    if m > 0 { FindAfterIs(occ[1..], now, m - 1); }
  }

  /** Between a visit before t and one not before t there is a last one before t. */
  lemma {:induction false} Crossing(visits: seq<Visit>, t: int) returns (k: nat)
    requires |visits| >= 2 && visits[0].clock < t <= visits[|visits| - 1].clock
    ensures k + 1 < |visits| && visits[k].clock < t <= visits[k + 1].clock
  {
    if visits[1].clock >= t {
      k := 0;
    } else {
      k := Crossing(visits[1..], t);
      k := k + 1;
    }
  }

  lemma {:induction false} LogGrows(visits: seq<Visit>, n: nat)
    requires n <= |visits|
    ensures Log(visits[..n]) <= Log(visits)
    decreases |visits|
  {
    hide Adds;
    if n == |visits| {
      assert visits[..n] == visits;
    } else {
      var init := visits[..|visits| - 1];
      assert init[..n] == visits[..n];
      LogGrows(init, n);
      assert Log(visits) == Log(init) + Adds(Log(init), visits[|visits| - 1], |visits| - 1);
    }
  }

  /** Entry k of the log is the one reminder of this class day. */
  ghost predicate Sole(log: seq<Reminder>, id: string, key: string, k: int) {
    && 0 <= k < |log| && log[k].course == id && log[k].dateKey == key
    && forall j :: 0 <= j < |log| && log[j].course == id && log[j].dateKey == key ==> j == k
  }

  ghost predicate InLead(c: Course, visits: seq<Visit>, i: nat, at: int) {
    i < |visits| && visits[i].now < at
    && at - visits[i].now <= (match c.leadMinutes case None => 30 case Some(m) => m) * 60_000
  }

  /** When the course is the only one, a meeting swept before and after is reminded. */
  lemma {:induction false} Reminded(c: Course, visits: seq<Visit>, g: int, m: nat)
    requires Dense(c, visits, g) && g <= LeadMs(c)
    requires var occ := Meetings(c.schedule);
             && Apart(occ, g) && m < |occ| && |visits| >= 2
             && visits[0].clock < occ[m].scheduledAt <= visits[|visits| - 1].clock
    ensures Latched(Log(visits), c.id, Meetings(c.schedule)[m].dateKey)
  {
    hide Meetings, DateKey, PartsInTz, Window, PlanOf, Apart, Dense;
    var o := Meetings(c.schedule)[m];
    var i := Crossing(visits, o.scheduledAt);
    assert visits[i].course == c && visits[i].now <= visits[i].clock && visits[i + 1].clock <= visits[i].now + g by { NextSweep(c, visits, g, i); }
    LastVisitFindsIt(visits[i], m, g);
    hide Due;
    assert visits[..i + 1] == visits[..i] + [visits[i]];
    LogAdds(visits[..i], visits[i]);
    hide Log;
    AddsLatch(Log(visits[..i]), visits[i], i);
    LogGrows(visits, i + 1);
    var k :| 0 <= k < |Log(visits[..i + 1])| && Log(visits[..i + 1])[k].course == c.id && Log(visits[..i + 1])[k].dateKey == o.dateKey;
    assert Log(visits)[k] == Log(visits[..i + 1])[k];
  }

  lemma {:induction false} NextSweep(c: Course, visits: seq<Visit>, g: int, i: nat)
    requires Dense(c, visits, g) && i + 1 < |visits|
    ensures visits[i].course == c && visits[i].now <= visits[i].clock && visits[i + 1].clock <= visits[i].now + g
  {
  }

  /** A visit that finds a meeting due leaves it latched. */
  lemma {:induction false} AddsLatch(log: seq<Reminder>, v: Visit, n: nat)
    requires Due(v).Some?
    ensures Latched(log + Adds(log, v, n), v.course.id, Due(v).value.dateKey)
  {
    hide Due;
    assert log + [] == log;
    var r := Reminder(v.course.id, Due(v).value.dateKey, n);
    assert (log + [r])[|log|] == r;
  }

  lemma {:induction false} VisitsAreOwn(visits: seq<Visit>, id: string, i: nat)
    requires i < |visits| && visits[i].course.id == id
    ensures visits[i] in VisitsOf(visits, id)
    decreases |visits|
  {
    if i < |visits| - 1 { VisitsAreOwn(visits[..|visits| - 1], id, i); }
  }

  /** However many courses are swept together: every meeting of a course swept before and after is
      reminded exactly once, by a sweep that ran before it started and no earlier than its lead. */
  lemma {:induction false} ExactlyOnce(c: Course, visits: seq<Visit>, g: int, m: nat)
    requires var own := VisitsOf(visits, c.id);
             var occ := Meetings(c.schedule);
             && Dense(c, own, g) && g <= LeadMs(c) && PlanOf(c.schedule).Some?
             && Apart(occ, g) && m < |occ| && |own| >= 2
             && own[0].clock < occ[m].scheduledAt <= own[|own| - 1].clock
    ensures exists k :: Sole(Log(visits), c.id, Meetings(c.schedule)[m].dateKey, k)
                     && InLead(c, visits, Log(visits)[k].visit, Meetings(c.schedule)[m].scheduledAt)
    ensures forall a :: MailsTo(Mails(visits, Log(visits)), a, c.id, Meetings(c.schedule)[m].dateKey) == OnList(c, a)
  {
    hide Meetings, DateKey, PlanOf, Apart, Due, Log, VisitsOf, ById, Latched, Sole, InLead, LeadMs, Mails, MailsTo, OnList;
    var own, o := VisitsOf(visits, c.id), Meetings(c.schedule)[m];
    Reminded(c, own, g, m);
    CoursesAreIndependent(visits, c.id);
    LatchedById(Log(own), c.id, o.dateKey);
    LatchedById(Log(visits), c.id, o.dateKey);
    assert o in Meetings(c.schedule);
    hide Dense;
    assert forall v :: v in own ==> v.course == c by { OwnCourse(c, own, g); }
    OnceAndInLead(c, visits, o);
  }

  lemma {:induction false} OwnCourse(c: Course, own: seq<Visit>, g: int)
    requires Dense(c, own, g)
    ensures forall v :: v in own ==> v.course == c
  {
  }

  /** A meeting that is latched is so by one reminder, sent inside the lead. */
  lemma {:induction false} OnceAndInLead(c: Course, visits: seq<Visit>, o: Occurrence)
    requires Latched(Log(visits), c.id, o.dateKey) && o in Meetings(c.schedule) && PlanOf(c.schedule).Some?
    requires forall v :: v in VisitsOf(visits, c.id) ==> v.course == c
    ensures exists k :: Sole(Log(visits), c.id, o.dateKey, k) && InLead(c, visits, Log(visits)[k].visit, o.scheduledAt)
    ensures forall a :: MailsTo(Mails(visits, Log(visits)), a, c.id, o.dateKey) == OnList(c, a)
  {
    hide Meetings, DateKey, PlanOf, Due, Log, VisitsOf, MailsTo, OnList, Mails;
    var log := Log(visits);
    var k :| 0 <= k < |log| && log[k].course == c.id && log[k].dateKey == o.dateKey;
    AtMostOnce(visits);
    LogIsExplained(visits);
    assert Explained(visits, log[k]);
    VisitsAreOwn(visits, c.id, log[k].visit);
    DueIsAMeeting(c, visits[log[k].visit], o);
    assert Sole(log, c.id, o.dateKey, k);
    forall a ensures MailsTo(Mails(visits, log), a, c.id, o.dateKey) == OnList(c, a) {
      EveryoneIsMailed(visits, a, c.id, o.dateKey);
    }
  }

  /** What a visit finds due is a meeting of the course, and the date says which. */
  lemma {:induction false} DueIsAMeeting(c: Course, v: Visit, o: Occurrence)
    requires v.course == c && PlanOf(c.schedule).Some?
    requires o in Meetings(c.schedule) && Due(v).Some? && Due(v).value.dateKey == o.dateKey
    ensures Due(v) == Some(o) && v.now < o.scheduledAt <= v.now + LeadMs(c)
  {
    hide DateKey, PartsInTz, Held, FindKey;
    var occ := Meetings(c.schedule);
    FindAfterIn(occ, v.clock);
    DatesAreDistinct(PlanOf(c.schedule).value);
  }

  lemma {:induction false} FindAfterIn(occ: seq<Occurrence>, now: int)
    ensures FindAfter(occ, now).Some? ==> FindAfter(occ, now).value in occ
  {
    if occ != [] { FindAfterIn(occ[1..], now); }
  }

  // ---------- The service ----------

  class RemindersService {
    var latches: set<(string, string)>
    var mails: seq<Mail>
    ghost var visits: seq<Visit>

    ghost predicate Valid()
      reads this
    {
      && (forall id, key :: (id, key) in latches <==> Latched(Log(visits), id, key))
      && mails == Mails(visits, Log(visits))
    }

    constructor ()
      ensures Valid() && visits == []
    {
      latches, mails, visits := {}, [], [];
    }

    /** One sweep over the given courses; clocks[i] is the time when course i's turn comes.  A zone
        that the platform does not know, or a database failure, ends it before course `reached`. */
    method Sweep(courses: seq<Course>, now: int, clocks: seq<int>, reached: nat)
      requires Valid() && |clocks| == |courses| && reached <= |courses|
      modifies this
      ensures Valid()
      ensures visits == old(visits) + seq(reached, i requires 0 <= i < reached => Visit(courses[i], now, clocks[i]))
    {
      hide Valid;
      for i := 0 to reached
        invariant Valid()
        invariant visits == old(visits) + seq(i, k requires 0 <= k < i => Visit(courses[k], now, clocks[k]))
      {
        VisitCourse(courses[i], now, clocks[i]);
      }
    }

    method VisitCourse(c: Course, now: int, clock: int)
      requires Valid()
      modifies this
      ensures Valid() && visits == old(visits) + [Visit(c, now, clock)]
    {
      hide Log, Mails, Latched, Window;
      ghost var v := Visit(c, now, clock);
      visits := visits + [v];
      NextVisit(old(visits), v);
      var window := ResolveJoinWindow(c.schedule, clock);
      var next := window.next;
      if next.None? { return; }
      var untilMs := next.value.scheduledAt - now;
      if untilMs <= 0 || untilMs > LeadMs(c) { return; }
      var key := next.value.dateKey;
      if (c.id, key) in latches { return; }
      latches := latches + {(c.id, key)};
      for i := 0 to |c.emails|
        invariant mails == old(mails) + Letters(c, c.emails[..i], key)
        invariant visits == old(visits) + [v] && latches == old(latches) + {(c.id, key)}
      {
        assert c.emails[..i + 1][..i] == c.emails[..i];
        if c.emails[i].Some? && c.emails[i].value != "" {
          mails := mails + [Mail(c.emails[i].value, c.id, key)];
        }
      }
      assert c.emails[..|c.emails|] == c.emails;
    }
  }

  lemma {:induction false} MailsDependOnTheirVisits(visits: seq<Visit>, more: seq<Visit>, log: seq<Reminder>)
    requires forall k :: 0 <= k < |log| ==> log[k].visit < |visits|
    ensures Mails(visits + more, log) == Mails(visits, log)
  {
    if log != [] {
      MailsDependOnTheirVisits(visits, more, log[..|log| - 1]);
      var i := log[|log| - 1].visit;
      assert (visits + more)[i] == visits[i];
    }
  }

  /** What one more visit means for the latches and the mail. */
  lemma {:induction false} NextVisit(visits: seq<Visit>, v: Visit)
    ensures var log, all := Log(visits), Log(visits + [v]);
            if Due(v).Some? && !Latched(log, v.course.id, Due(v).value.dateKey) then
              var key := Due(v).value.dateKey;
              && Mails(visits + [v], all) == Mails(visits, log) + Letters(v.course, v.course.emails, key)
              && forall id, k :: Latched(all, id, k) <==> Latched(log, id, k) || (id == v.course.id && k == key)
            else all == log && Mails(visits + [v], all) == Mails(visits, log)
  {
    hide Due, Log, Letters, Latched;
    var log := Log(visits);
    LogAdds(visits, v);
    LogIsExplained(visits);
    assert forall k :: 0 <= k < |log| ==> log[k].visit < |visits| by {
      assert forall k :: 0 <= k < |log| ==> Explained(visits, log[k]);
    }
    MailsDependOnTheirVisits(visits, [v], log);
    assert log + [] == log;
    if Adds(log, v, |visits|) != [] {
      var r := Reminder(v.course.id, Due(v).value.dateKey, |visits|);
      assert (log + [r])[..|log|] == log && (visits + [v])[|visits|] == v;
      forall id, k ensures Latched(log + [r], id, k) <==> Latched(log, id, k) || (id == r.course && k == r.dateKey) {
        LatchedMore(log, r, id, k);
      }
    }
  }

  lemma {:induction false} LatchedMore(log: seq<Reminder>, r: Reminder, id: string, key: string)
    ensures Latched(log + [r], id, key) <==> Latched(log, id, key) || (id == r.course && key == r.dateKey)
  {
    if Latched(log, id, key) {
      var k :| 0 <= k < |log| && log[k].course == id && log[k].dateKey == key;
      assert (log + [r])[k] == log[k];
    }
    assert (log + [r])[|log|] == r;
  }
}
