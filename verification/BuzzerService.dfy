/** The handlers of the room gateway that run a buzzer round, over the keys they change. */
module BuzzerService {
  import opened Wrappers
  import opened Buzzer

  datatype Refusal = BuzzerBusy | NoStudents | BadQuestion | NotOpen | NotEligible | AlreadyAnswered

  /** What an answer is refused with: a closed or different question comes first, then a student
      outside the round, then a second try. */
  function Refused(r: Buzzer.Room, user: User, studentInRoom: bool, questionId: string): Option<Refusal> {
    if !studentInRoom then None
    else if !Open(r) || r.state.value.question != questionId then Some(NotOpen)
    else if user !in r.state.value.eligible then Some(NotEligible)
    else if user in r.answered then Some(AlreadyAnswered)
    else None
  }

  class RoomGateway {
    /** The buzzer and buzzer-answered keys, the live timers, and what went to the points ledger. */
    var buzzer: map<string, State>
    var answered: map<string, set<User>>
    var timers: map<string, string>
    var awarded: map<string, seq<Award>>

    constructor ()
      ensures forall s :: Room(s) == IDLE
    {
      buzzer, answered, timers, awarded := map[], map[], map[], map[];
    }

    function Room(s: string): Room
      reads this
    {
      Buzzer.Room(if s in buzzer then Some(buzzer[s]) else None,
                  if s in answered then answered[s] else {},
                  if s in timers then Some(timers[s]) else None,
                  if s in awarded then awarded[s] else [])
    }

    method ClearTimer(s: string)
      modifies this`timers
      ensures timers == old(timers) - {s}
    {
      timers := timers - {s};
    }

    method OnBuzzerStart(s: string, owner: bool, students: set<User>, question: Option<Question>, belongs: bool)
      returns (refused: Option<Refusal>)
      modifies this
      ensures Room(s) == Step(old(Room(s)), Start(owner, students, question, belongs))
      ensures forall k :: k != s ==> Room(k) == old(Room(k))
      ensures refused == if !owner then None
        else if old(Room(s)).state.Some? && old(Room(s)).state.value.phase == QuestionOpen then Some(BuzzerBusy)
        else if students == {} then Some(NoStudents)
        else if question.None? || !belongs then Some(BadQuestion)
        else None
    {
      if !owner { return None; }
      if s in buzzer && buzzer[s].phase == QuestionOpen { return Some(BuzzerBusy); }
      if students == {} { return Some(NoStudents); }
      if question.None? || !belongs { return Some(BadQuestion); }
      answered := answered - {s};
      buzzer := buzzer[s := State(QuestionOpen, students, question.value.id)];
      ClearTimer(s);
      timers := timers[s := question.value.id];
      return None;
    }

    /** markBuzzerAnswered: true the first time a student answers. */
    method MarkAnswered(s: string, user: User) returns (first: bool)
      modifies this`answered
      ensures first <==> user !in old(Room(s)).answered
      ensures answered == old(answered)[s := old(Room(s)).answered + {user}]
    {
      var before := if s in answered then answered[s] else {};
      first := user !in before;
      answered := answered[s := before + {user}];
    }

    method OnQuizAnswer(s: string, user: User, studentInRoom: bool, questionId: string, index: int,
                        question: Option<Question>, stored: bool)
      returns (refused: Option<Refusal>)
      modifies this
      ensures Room(s) == Step(old(Room(s)), Answer(user, studentInRoom, questionId, index, question, stored))
      ensures forall k :: k != s ==> Room(k) == old(Room(k))
      ensures refused == Refused(old(Room(s)), user, studentInRoom, questionId)
      ensures refused.Some? ==> Room(s) == old(Room(s))
    {
      if !studentInRoom { return None; }
      if s !in buzzer || buzzer[s].phase != QuestionOpen || buzzer[s].question != questionId { return Some(NotOpen); }
      if user !in buzzer[s].eligible { return Some(NotEligible); }
      var first := MarkAnswered(s, user);
      if !first {
        assert old(Room(s)).answered + {user} == old(Room(s)).answered;
        return Some(AlreadyAnswered);
      }
      if question.None? || !stored { return None; }
      if !Correct(question.value, index) { return None; }
      // the second look: at this granularity the question is still open
      if s !in buzzer || buzzer[s].phase != QuestionOpen { return None; }
      ClearTimer(s);
      buzzer := buzzer[s := buzzer[s].(phase := Winner(user))];
      awarded := awarded[s := (if s in awarded then awarded[s] else []) + Prize(question.value, user, questionId)];
      return None;
    }

    /** The callback of the live timer. */
    method TimeoutBuzzer(s: string, questionId: string)
      requires s in timers && timers[s] == questionId
      modifies this
      ensures Room(s) == Step(old(Room(s)), TimerFires)
      ensures forall k :: k != s ==> Room(k) == old(Room(k))
    {
      timers := timers - {s};
      if s !in buzzer || buzzer[s].phase != QuestionOpen || buzzer[s].question != questionId { return; }
      buzzer := buzzer[s := buzzer[s].(phase := Timeout)];
    }
  }
}
