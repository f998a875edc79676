/** Buzzer rounds: the server decides, in the order it receives the answers.

    One handler or one timer callback is one step.  Below that granularity the handler's second
    look at the state and its write are not atomic, and that is not modelled. */
module Buzzer {
  import opened Wrappers

  type User = string

  const POINTS_BUZZER_WIN := 25

  /** A quiz question as stored; `course` is the course its quiz leads to, if any. */
  datatype Question = Question(id: string, options: nat, correctIndex: int, points: Option<int>, course: Option<string>)

  datatype Phase = QuestionOpen | Winner(user: User) | Timeout

  datatype State = State(phase: Phase, eligible: set<User>, question: string)

  datatype Award = Award(student: User, course: string, delta: int, question: string)

  /** One session: its two Redis keys, its live timer with the question it is for, and the awards. */
  datatype Room = Room(state: Option<State>, answered: set<User>, timer: Option<string>, awards: seq<Award>)

  /** `question` is what the database finds under the id sent; `stored` is false when saving the
      answer fails with anything but a repeat. */
  datatype Event =
    | Start(owner: bool, students: set<User>, question: Option<Question>, belongs: bool)
    | Answer(user: User, studentInRoom: bool, questionId: string, index: int, question: Option<Question>, stored: bool)
    | TimerFires

  predicate Open(r: Room) {
    r.state.Some? && r.state.value.phase == QuestionOpen
  }

  predicate Starts(r: Room, ev: Event)
    requires ev.Start?
  {
    ev.owner && !Open(r) && ev.students != {} && ev.question.Some? && ev.belongs
  }

  predicate Correct(q: Question, index: int) {
    0 <= index < q.options && index == q.correctIndex
  }

  function Prize(q: Question, user: User, ref: string): seq<Award> {
    match q.course
    case None => []
    case Some(c) => [Award(user, c, if q.points.Some? then q.points.value else POINTS_BUZZER_WIN, ref)]
  }

  function AnswerStep(r: Room, ev: Event): Room
    requires ev.Answer?
  {
    if !ev.studentInRoom then r
    else if !Open(r) || r.state.value.question != ev.questionId then r
    else if ev.user !in r.state.value.eligible || ev.user in r.answered then r
    else
      var marked := r.(answered := r.answered + {ev.user});
      if ev.question.None? || !ev.stored || !Correct(ev.question.value, ev.index) then marked
      else marked.(state := Some(r.state.value.(phase := Winner(ev.user))),
                   timer := None,
                   awards := r.awards + Prize(ev.question.value, ev.user, ev.questionId))
  }

  /** A timer fires only while it is live. */
  predicate Enabled(r: Room, ev: Event) {
    ev.TimerFires? ==> r.timer.Some?
  }

  function Step(r: Room, ev: Event): Room
    requires Enabled(r, ev)
  {
    match ev
    case Start(_, students, question, _) =>
      if Starts(r, ev)
      then Room(Some(State(QuestionOpen, students, question.value.id)), {}, Some(question.value.id), r.awards)
      else r
    case Answer(_, _, _, _, _, _) => AnswerStep(r, ev)
    case TimerFires =>
      var fired := r.(timer := None);
      if Open(r) && r.state.value.question == r.timer.value
      then fired.(state := Some(r.state.value.(phase := Timeout))) else fired
  }

  // ---------- Every run ----------

  ghost predicate Run(r: Room, evs: seq<Event>)
    decreases |evs|
  {
    evs == [] || (Enabled(r, evs[0]) && Run(Step(r, evs[0]), evs[1..]))
  }

  ghost function Exec(r: Room, evs: seq<Event>): Room
    requires Run(r, evs)
    decreases |evs|
  {
    if evs == [] then r else Exec(Step(r, evs[0]), evs[1..])
  }

  const IDLE := Room(None, {}, None, [])

  /** A live timer exists exactly while a question is open, and is for that question; only
      eligible students have answered, and a winner is one of them. */
  ghost predicate Inv(r: Room) {
    && (r.timer.Some? <==> Open(r))
    && (Open(r) ==> r.timer == Some(r.state.value.question))
    && (r.state.Some? ==> r.answered <= r.state.value.eligible)
    && (r.state.Some? && r.state.value.phase.Winner? ==> r.state.value.phase.user in r.answered)
  }

  lemma {:induction false} EveryRunKeepsInv(r: Room, evs: seq<Event>)
    requires Inv(r) && Run(r, evs)
    ensures Inv(Exec(r, evs))
    decreases |evs|
  {
    if evs != [] {
      EveryRunKeepsInv(Step(r, evs[0]), evs[1..]);
    }
  }

  /** From the start of the session on, every open question has its own live timer. */
  lemma {:induction false} TimerExactlyWhileOpen(evs: seq<Event>)
    requires Run(IDLE, evs)
    ensures var r := Exec(IDLE, evs);
            && (r.timer.Some? <==> Open(r)) && (Open(r) ==> r.timer == Some(r.state.value.question))
  {
    EveryRunKeepsInv(IDLE, evs);
  }

  /** A step that ends a round is the only one that changes what the round ended as: a timeout
      never replaces a winner, nor the other way round, and only a new start leaves either. */
  lemma {:induction false} EndsAreFinal(r: Room, ev: Event)
    requires Inv(r) && Enabled(r, ev) && r.state.Some? && !Open(r)
    ensures Step(r, ev).awards == r.awards
    ensures Step(r, ev).state == r.state || (ev.Start? && Starts(r, ev) && Open(Step(r, ev)))
  {
  }

  // ---------- One round, by reference to the received events alone ----------

  /** Event i of the round is an attempt: an answer to the question by an eligible student, who
      has not tried before. */
  ghost predicate Attempt(s: State, evs: seq<Event>, i: int) {
    && 0 <= i < |evs| && Eligible(s, evs[i])
    && forall j :: 0 <= j < i && Eligible(s, evs[j]) ==> evs[j].user != evs[i].user
  }

  predicate Eligible(s: State, ev: Event) {
    ev.Answer? && ev.studentInRoom && ev.questionId == s.question && ev.user in s.eligible
  }

  ghost predicate CorrectAttempt(s: State, evs: seq<Event>, i: int) {
    && Attempt(s, evs, i) && evs[i].stored && evs[i].question.Some?
    && var q := evs[i].question.value; evs[i].index == q.correctIndex && 0 <= q.correctIndex < q.options
  }

  /** The first event that ends the round, by a correct attempt or by time. */
  ghost predicate EndsAt(s: State, evs: seq<Event>, i: int) {
    && 0 <= i < |evs| && (evs[i].TimerFires? || CorrectAttempt(s, evs, i))
    && forall j :: 0 <= j < i ==> !evs[j].TimerFires? && !CorrectAttempt(s, evs, j)
  }

  ghost predicate NeverEnds(s: State, evs: seq<Event>) {
    forall j :: 0 <= j < |evs| ==> !evs[j].TimerFires? && !CorrectAttempt(s, evs, j)
  }

  /** The users who have tried. */
  ghost function Tried(s: State, evs: seq<Event>): set<User> {
    set i | 0 <= i < |evs| && Eligible(s, evs[i]) :: evs[i].user
  }

  lemma {:induction false} RunInit(r: Room, evs: seq<Event>)
    requires Run(r, evs) && evs != []
    ensures Run(r, evs[..|evs| - 1]) && Enabled(Exec(r, evs[..|evs| - 1]), evs[|evs| - 1])
    ensures Exec(r, evs) == Step(Exec(r, evs[..|evs| - 1]), evs[|evs| - 1])
    decreases |evs|
  {
    var n := |evs| - 1;
    if n == 0 {
      assert evs == [evs[0]] && evs[..0] == [] && evs[1..] == [];
    } else {
      RunInit(Step(r, evs[0]), evs[1..]);
      assert evs[1..][..n - 1] == evs[..n][1..];
    }
  }

  /** No event after the opening one opens a round. */
  ghost predicate OneRound(evs: seq<Event>) {
    forall i :: 0 <= i < |evs| ==> !evs[i].Start?
  }

  /** How a round ended: the room after it, by the events alone. */
  ghost predicate Fate(s: State, before: seq<Award>, evs: seq<Event>, r: Room) {
    if NeverEnds(s, evs) then
      r == Room(Some(s), Tried(s, evs), Some(s.question), before)
    else
      exists i :: EndsAt(s, evs, i) && r.timer == None && r.state.Some?
        && if evs[i].TimerFires?
           then r.state.value == s.(phase := Timeout) && r.awards == before
           else r.state.value == s.(phase := Winner(evs[i].user))
                && r.awards == before + Winnings(evs[i], s.question)
  }

  /** What the winning answer brings: the question's points, or 25 if it has none of its own, in the
      course that its quiz leads to, if any. */
  function Winnings(ev: Event, question: string): seq<Award>
    requires ev.Answer? && ev.question.Some?
  {
    match ev.question.value
    case Question(_, _, _, _, None) => []
    case Question(_, _, _, None, Some(c)) => [Award(ev.user, c, 25, question)]
    case Question(_, _, _, Some(points), Some(c)) => [Award(ev.user, c, points, question)]
  }

  /** The winner is the first eligible student whose correct first try was received before the
      time ran out; there is one award, to that student, exactly if the question has a course;
      with no such try the round stays open until its timer ends it. */
  lemma {:induction false} FirstCorrectWins(s: State, before: seq<Award>, evs: seq<Event>)
    requires s.phase == QuestionOpen && OneRound(evs)
    requires var r := Room(Some(s), {}, Some(s.question), before); Run(r, evs)
    ensures var r := Room(Some(s), {}, Some(s.question), before); Fate(s, before, evs, Exec(r, evs))
    decreases |evs|
  {
    var r := Room(Some(s), {}, Some(s.question), before);
    if evs == [] {
      assert Tried(s, evs) == {};
    } else {
      var n := |evs| - 1;
      var init, last := evs[..n], evs[n];
      RunInit(r, evs);
      FirstCorrectWins(s, before, init);
      hide Fate, NeverEnds, CorrectAttempt, Step;
      var m := Exec(r, init);
      if NeverEnds(s, init) {
        OpenStep(s, before, evs, m);
      } else {
        ClosedStep(s, before, evs, m);
      }
    }
  }

  /** A start opens a round exactly for the owner, while no question is open, with students in the
      room and a question that is found and belongs to the class; else it changes nothing. */
  lemma {:induction false} StartsExactly(r: Room, owner: bool, students: set<User>, question: Option<Question>, belongs: bool)
    ensures Step(r, Start(owner, students, question, belongs))
         == if owner && students != {} && question.Some? && belongs && !(r.state.Some? && r.state.value.phase == QuestionOpen)
            then Room(Some(State(QuestionOpen, students, question.value.id)), {}, Some(question.value.id), r.awards)
            else r
  {
  }

  /** So a whole round, from its start on, ends as its events say. */
  lemma {:induction false} WholeRound(r: Room, students: set<User>, question: Question, rest: seq<Event>)
    requires students != {} && !(r.state.Some? && r.state.value.phase == QuestionOpen)
    requires OneRound(rest) && Run(r, [Start(true, students, Some(question), true)] + rest)
    ensures Fate(State(QuestionOpen, students, question.id), r.awards, rest,
                 Exec(r, [Start(true, students, Some(question), true)] + rest))
  {
    var start := Start(true, students, Some(question), true);
    assert ([start] + rest)[0] == start && ([start] + rest)[1..] == rest;
    StartsExactly(r, true, students, Some(question), true);
    hide Fate, Step;
    FirstCorrectWins(State(QuestionOpen, students, question.id), r.awards, rest);
  }

  /** What the events before the last one say does not depend on the last. */
  lemma {:induction false} PrefixAgrees(s: State, evs: seq<Event>)
    requires evs != []
    ensures var init := evs[..|evs| - 1];
            forall i :: 0 <= i < |init| ==> (CorrectAttempt(s, init, i) <==> CorrectAttempt(s, evs, i))
  {
    var init := evs[..|evs| - 1];
    forall i | 0 <= i < |init| ensures Attempt(s, init, i) <==> Attempt(s, evs, i) {
      assert forall j :: 0 <= j < i ==> init[j] == evs[j];
    }
  }

  /** The last event of a round that had ended before it. */
  lemma {:induction false} ClosedStep(s: State, before: seq<Award>, evs: seq<Event>, m: Room)
    requires evs != [] && !evs[|evs| - 1].Start? && Enabled(m, evs[|evs| - 1])
    requires !NeverEnds(s, evs[..|evs| - 1]) && Fate(s, before, evs[..|evs| - 1], m)
    requires s.phase == QuestionOpen
    ensures Fate(s, before, evs, Step(m, evs[|evs| - 1]))
  {
    var init, last := evs[..|evs| - 1], evs[|evs| - 1];
    PrefixAgrees(s, evs);
    hide Winnings;
    var i :| EndsAt(s, init, i) && m.timer == None && m.state.Some?
      && if init[i].TimerFires?
         then m.state.value == s.(phase := Timeout) && m.awards == before
         else m.state.value == s.(phase := Winner(init[i].user))
              && m.awards == before + Winnings(init[i], s.question);
    assert init[i] == evs[i] && EndsAt(s, evs, i) && !NeverEnds(s, evs);
    assert Step(m, last).state == m.state && Step(m, last).awards == m.awards && Step(m, last).timer == None;
  }

  /** The last event of a round that was open before it. */
  lemma {:induction false} OpenStep(s: State, before: seq<Award>, evs: seq<Event>, m: Room)
    requires s.phase == QuestionOpen && evs != [] && !evs[|evs| - 1].Start?
    requires NeverEnds(s, evs[..|evs| - 1])
    requires m == Room(Some(s), Tried(s, evs[..|evs| - 1]), Some(s.question), before)
    ensures Fate(s, before, evs, Step(m, evs[|evs| - 1]))
  {
    var n := |evs| - 1;
    var init, last := evs[..n], evs[n];
    PrefixAgrees(s, evs);
    assert forall j :: 0 <= j < n ==> init[j] == evs[j];
    TriedSnoc(s, evs);
    if Eligible(s, last) {
      assert Attempt(s, evs, n) <==> last.user !in Tried(s, init) by { AttemptIsNew(s, evs); }
    }
    if last.TimerFires? || CorrectAttempt(s, evs, n) {
      assert EndsAt(s, evs, n) && !NeverEnds(s, evs);
    } else {
      assert NeverEnds(s, evs);
    }
  }

  lemma {:induction false} TriedSnoc(s: State, evs: seq<Event>)
    requires evs != []
    ensures var last := evs[|evs| - 1];
            Tried(s, evs) == Tried(s, evs[..|evs| - 1]) + if Eligible(s, last) then {last.user} else {}
  {
    var init := evs[..|evs| - 1];
    forall u | u in Tried(s, init) ensures u in Tried(s, evs) {
      var i :| 0 <= i < |init| && Eligible(s, init[i]) && init[i].user == u;
      assert evs[i] == init[i];
    }
    forall u | u in Tried(s, evs) && u !in Tried(s, init) ensures u == evs[|evs| - 1].user && Eligible(s, evs[|evs| - 1]) {
      var i :| 0 <= i < |evs| && Eligible(s, evs[i]) && evs[i].user == u;
      if i < |init| { assert init[i] == evs[i]; }
    }
  }

  lemma {:induction false} AttemptIsNew(s: State, evs: seq<Event>)
    requires evs != [] && Eligible(s, evs[|evs| - 1])
    ensures Attempt(s, evs, |evs| - 1) <==> evs[|evs| - 1].user !in Tried(s, evs[..|evs| - 1])
  {
    var n := |evs| - 1;
    var init := evs[..n];
    if evs[n].user in Tried(s, init) {
      var i :| 0 <= i < |init| && Eligible(s, init[i]) && init[i].user == evs[n].user;
      assert evs[i] == init[i];
    } else {
      forall j | 0 <= j < n && Eligible(s, evs[j]) ensures evs[j].user != evs[n].user {
        assert init[j] == evs[j];
      }
    }
  }
}
