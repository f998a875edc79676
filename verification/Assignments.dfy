/** Grades and the points they are worth: the ledger only grows, yet a submission's net is its grade. */
module Assignments {
  import opened Wrappers
  import opened Points

  /** A submission row, for one student and one assignment of a course. */
  datatype Submission = Submission(student: string, course: string, maxPoints: Option<int>, grade: Option<int>)

  datatype Book = Book(ledger: seq<Row>, subs: map<string, Submission>)

  /** What a submission has been awarded so far. */
  function Net(ledger: seq<Row>, id: string, sub: Submission): int {
    if ledger == [] then 0
    else Net(ledger[..|ledger| - 1], id, sub) + if IsFor(ledger[|ledger| - 1], id, sub) then ledger[|ledger| - 1].delta else 0
  }

  predicate IsFor(r: Row, id: string, sub: Submission) {
    r.student == sub.student && r.course == sub.course && r.reason == AssignmentGraded && r.ref == id
  }

  /** `prior` is what the instructor read of the net before its transaction. */
  datatype GradeEvent =
    | Submit(id: string, student: string, course: string, maxPoints: Option<int>)   // and upload
    | Grade(id: string, grade: int, prior: int)
    | OtherAward(row: Row)

  function GradeRow(id: string, sub: Submission, delta: int): Row {
    Row(sub.student, sub.course, delta, AssignmentGraded, id)
  }

  predicate TooHigh(sub: Submission, grade: int) {
    sub.maxPoints.Some? && grade > sub.maxPoints.value
  }

  function BookStep(b: Book, ev: GradeEvent): Book {
    match ev
    case Submit(id, student, course, maxPoints) =>
      b.(subs := b.subs[id := if id in b.subs then b.subs[id].(grade := None) else Submission(student, course, maxPoints, None)])
    case Grade(id, grade, prior) =>
      if id !in b.subs || TooHigh(b.subs[id], grade) then b else
      var sub := b.subs[id];
      Book(if grade - prior != 0 then b.ledger + [GradeRow(id, sub, grade - prior)] else b.ledger,
           b.subs[id := sub.(grade := Some(grade))])
    case OtherAward(r) => b.(ledger := b.ledger + [r])
  }

  /** Other awards never carry a grade's reason; everything else may come in any order. */
  ghost predicate Enabled(b: Book, ev: GradeEvent) {
    ev.OtherAward? ==> ev.row.reason != AssignmentGraded
  }

  /** Whenever a submission has a grade, its deltas add up to it, and a submission not yet made
      has none. */
  ghost predicate Settled(b: Book) {
    && (forall id :: id in b.subs && b.subs[id].grade.Some? ==> Net(b.ledger, id, b.subs[id]) == b.subs[id].grade.value)
    && forall id, sub: Submission :: id !in b.subs ==> Net(b.ledger, id, sub) == 0
  }

  /** The net is the sum of this submission's graded deltas, and of no other rows. */
  lemma {:induction false} NetAppends(ledger: seq<Row>, r: Row, id: string, sub: Submission)
    ensures Net([], id, sub) == 0
    ensures Net(ledger + [r], id, sub) == Net(ledger, id, sub)
              + if r.student == sub.student && r.course == sub.course && r.reason == AssignmentGraded && r.ref == id then r.delta else 0
  {
    assert (ledger + [r])[..|ledger|] == ledger;
  }

  /** The instructor read the net that still stands when it commits. */
  ghost predicate Fresh(b: Book, ev: GradeEvent) {
    ev.Grade? && ev.id in b.subs && !TooHigh(b.subs[ev.id], ev.grade) ==> ev.prior == Net(b.ledger, ev.id, b.subs[ev.id])
  }

  /** A step keeps nets equal to grades exactly when no other grading of the same submission came
      between the read and the commit to change its net. */
  lemma {:induction false} StepSettlesExactly(b: Book, ev: GradeEvent)
    requires Settled(b) && Enabled(b, ev)
    ensures Settled(BookStep(b, ev)) <==> Fresh(b, ev)
    ensures b.ledger <= BookStep(b, ev).ledger
  {
    var b' := BookStep(b, ev);
    match ev
    case Submit(id, _, _, _) =>
    case OtherAward(r) =>
      forall id, sub: Submission ensures Net(b'.ledger, id, sub) == Net(b.ledger, id, sub) { NetAppends(b.ledger, r, id, sub); }
    case Grade(id, grade, prior) =>
      if id in b.subs && !TooHigh(b.subs[id], grade) { GradeSettlesExactly(b, id, grade, prior); }
  }

  lemma {:induction false} NetAfterGrade(ledger: seq<Row>, id: string, sub: Submission, delta: int, k: string, x: Submission)
    ensures var l := if delta != 0 then ledger + [GradeRow(id, sub, delta)] else ledger;
            && (k != id ==> Net(l, k, x) == Net(ledger, k, x))
            && (k == id && x.student == sub.student && x.course == sub.course ==> Net(l, k, x) == Net(ledger, k, sub) + delta)
  {
    NetAppends(ledger, GradeRow(id, sub, delta), k, x);
    if x.student == sub.student && x.course == sub.course { SameNet(ledger, k, x, sub); }
    hide Net;
  }

  lemma {:induction false} SameNet(ledger: seq<Row>, id: string, x: Submission, y: Submission)
    requires x.student == y.student && x.course == y.course
    ensures Net(ledger, id, x) == Net(ledger, id, y)
  {
    if ledger != [] { SameNet(ledger[..|ledger| - 1], id, x, y); }
  }

  lemma {:induction false} GradeSettlesExactly(b: Book, id: string, grade: int, prior: int)
    requires Settled(b) && id in b.subs && !TooHigh(b.subs[id], grade)
    ensures Settled(BookStep(b, Grade(id, grade, prior))) <==> prior == Net(b.ledger, id, b.subs[id])
  {
    hide Net;
    var b', sub := BookStep(b, Grade(id, grade, prior)), b.subs[id];
    forall k, x: Submission | k != id ensures Net(b'.ledger, k, x) == Net(b.ledger, k, x) {
      NetAfterGrade(b.ledger, id, sub, grade - prior, k, x);
    }
    NetAfterGrade(b.ledger, id, sub, grade - prior, id, b'.subs[id]);
    assert Net(b'.ledger, id, b'.subs[id]) == Net(b.ledger, id, sub) + (grade - prior);
    if Settled(b') { assert Net(b'.ledger, id, b'.subs[id]) == grade; }
  }

  ghost predicate Run(b: Book, evs: seq<GradeEvent>)
    decreases |evs|
  {
    evs == [] || (Enabled(b, evs[0]) && Fresh(b, evs[0]) && Run(BookStep(b, evs[0]), evs[1..]))
  }

  ghost function BookExec(b: Book, evs: seq<GradeEvent>): Book
    decreases |evs|
  {
    if evs == [] then b else BookExec(BookStep(b, evs[0]), evs[1..])
  }

  /** Over any run of submitting, uploading, resubmitting and grading again. */
  lemma {:induction false} NetsAreGrades(b: Book, evs: seq<GradeEvent>)
    requires Settled(b) && Run(b, evs)
    ensures Settled(BookExec(b, evs)) && b.ledger <= BookExec(b, evs).ledger
    decreases |evs|
  {
    if evs != [] {
      StepSettlesExactly(b, evs[0]);
      NetsAreGrades(BookStep(b, evs[0]), evs[1..]);
    }
  }

  // ---------- What grade a submission shows, by the events alone ----------

  /** The grade after the last event that concerns the submission: none once it is handed in, and
      a grade that is not above the maximum once it is given. */
  ghost function LastWord(shown: Option<int>, maxPoints: Option<int>, id: string, evs: seq<GradeEvent>): Option<int>
    decreases |evs|
  {
    if evs == [] then shown
    else
      LastWord(
        match evs[0]
        case Submit(k, _, _, _) => if k == id then None else shown
        case Grade(k, grade, _) =>
          if k == id && (maxPoints.None? || grade <= maxPoints.value) then Some(grade) else shown
        case OtherAward(_) => shown,
        maxPoints, id, evs[1..])
  }

  /** A submission shows the last word, and keeps its student, course and maximum. */
  lemma {:induction false} GradesAreTheLastWord(b: Book, id: string, evs: seq<GradeEvent>)
    requires id in b.subs
    ensures id in BookExec(b, evs).subs
    ensures BookExec(b, evs).subs[id] == b.subs[id].(grade := LastWord(b.subs[id].grade, b.subs[id].maxPoints, id, evs))
    decreases |evs|
  {
    if evs != [] { GradesAreTheLastWord(BookStep(b, evs[0]), id, evs[1..]); }
  }

  /** A first submission is there, without a grade. */
  lemma {:induction false} FirstSubmission(b: Book, id: string, student: string, course: string, maxPoints: Option<int>)
    requires id !in b.subs
    ensures var b' := BookStep(b, Submit(id, student, course, maxPoints));
            b'.subs == b.subs[id := Submission(student, course, maxPoints, None)] && b'.ledger == b.ledger
  {
  }

  /** The rows that one grading adds: the difference, unless there is none or the grade is refused. */
  lemma {:induction false} GradingPostsTheDifference(b: Book, id: string, grade: int, prior: int)
    ensures var l := BookStep(b, Grade(id, grade, prior)).ledger;
            if id in b.subs && (b.subs[id].maxPoints.None? || grade <= b.subs[id].maxPoints.value) && grade != prior
            then l == b.ledger + [Row(b.subs[id].student, b.subs[id].course, grade - prior, AssignmentGraded, id)]
            else l == b.ledger
  {
  }

  /** Two gradings that both read before either commits leave a net of twice the grade. */
  lemma {:induction false} RacingGradesUnsettle()
    ensures var b := Book([], map["s" := Submission("ann", "c", None, None)]);
            var b2 := BookExec(b, [Grade("s", 10, 0), Grade("s", 10, 0)]);
            && Settled(b) && !Settled(b2)
            && "s" in b2.subs && b2.subs["s"].grade == Some(10) && Net(b2.ledger, "s", b2.subs["s"]) == 20
  {
    var b := Book([], map["s" := Submission("ann", "c", None, None)]);
    var e := Grade("s", 10, 0);
    var b1 := BookStep(b, e);
    assert BookExec(b, [e, e]) == BookStep(b1, e) by {
      assert [e, e][1..] == [e] && [e][1..] == [];
      assert BookExec(b1, [e]) == BookExec(BookStep(b1, e), []);
    }
    StepSettlesExactly(b, e);
    NetAppends([], GradeRow("s", b.subs["s"], 10), "s", b1.subs["s"]);
    assert b1.ledger == [] + [GradeRow("s", b.subs["s"], 10)];
    StepSettlesExactly(b1, e);
    NetAfterGrade(b1.ledger, "s", b1.subs["s"], 10, "s", BookStep(b1, e).subs["s"]);
  }

  // ---------- The service ----------

  class AssignmentsService {
    const points: PointsService
    var subs: map<string, Submission>

    constructor (points: PointsService)
      ensures this.points == points && subs == map[]
    {
      this.points := points;
      subs := map[];
    }

    function View(): Book
      reads this, points
    {
      Book(points.ledger, subs)
    }

    /** submit and uploadSubmission, as far as grade and ledger go. */
    method Submit(id: string, student: string, course: string, maxPoints: Option<int>)
      modifies this
      ensures View() == BookStep(old(View()), GradeEvent.Submit(id, student, course, maxPoints))
    {
      if id in subs {
        subs := subs[id := subs[id].(grade := None)];
      } else {
        subs := subs[id := Submission(student, course, maxPoints, None)];
      }
    }

    /** The instructor's first read. */
    method PriorAward(id: string) returns (prior: int)
      requires id in subs
      ensures prior == Net(points.ledger, id, subs[id])
    {
      prior := 0;
      for i := 0 to |points.ledger|
        invariant prior == Net(points.ledger[..i], id, subs[id])
      {
        var r := points.ledger[i];
        assert points.ledger[..i + 1][..i] == points.ledger[..i];
        if IsFor(r, id, subs[id]) { prior := prior + r.delta; }
      }
      assert points.ledger[..|points.ledger|] == points.ledger;
    }

    /** The instructor's transaction; false when there is no such submission or the grade is too high. */
    method CommitGrade(id: string, grade: int, prior: int) returns (ok: bool)
      modifies this, points
      ensures View() == BookStep(old(View()), GradeEvent.Grade(id, grade, prior))
      ensures ok <==> id in old(subs) && !TooHigh(old(subs)[id], grade)
    {
      if id !in subs || TooHigh(subs[id], grade) { return false; }
      var netDelta := grade - prior;
      var sub := subs[id];
      subs := subs[id := sub.(grade := Some(grade))];
      if netDelta != 0 {
        points.Award(GradeRow(id, sub, netDelta), Done);
        assert points.View().ledger == old(points.View().ledger) + [GradeRow(id, sub, netDelta)];
      }
      return true;
    }
  }
}
