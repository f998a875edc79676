/** The points ledger, and the leaderboard kept in Redis as a projection of it.

    An award and its bump are one step, as are a read and the rebuild it causes. */
module Points {
  import opened Wrappers

  datatype Reason = QuizCorrect | BuzzerWin | AssignmentGraded | OtherReason

  datatype Row = Row(student: string, course: string, delta: int, reason: Reason, ref: string)

  /** The append-only ledger, the sorted sets, and the markers of the trusted ones. */
  datatype Store = Store(ledger: seq<Row>, zsets: map<string, map<string, int>>, built: set<string>)

  // ---------- What the ledger says ----------

  function Sum(ledger: seq<Row>, student: string, course: string): int {
    if ledger == [] then 0
    else
      var r := ledger[|ledger| - 1];
      Sum(ledger[..|ledger| - 1], student, course) + if r.student == student && r.course == course then r.delta else 0
  }

  ghost function Students(ledger: seq<Row>, course: string): set<string> {
    set r | r in ledger && r.course == course :: r.student
  }

  /** The total of every student with a row in the course. */
  ghost function Totals(ledger: seq<Row>, course: string): map<string, int> {
    map u | u in Students(ledger, course) :: Sum(ledger, u, course)
  }

  lemma {:induction false} SumAppends(ledger: seq<Row>, r: Row, student: string, course: string)
    ensures Sum([], student, course) == 0
    ensures Sum(ledger + [r], student, course)
         == Sum(ledger, student, course) + if r.student == student && r.course == course then r.delta else 0
  {
    assert (ledger + [r])[..|ledger|] == ledger;
  }

  lemma {:induction false} StudentsAppend(ledger: seq<Row>, r: Row, course: string)
    ensures Students(ledger + [r], course) == Students(ledger, course) + if r.course == course then {r.student} else {}
  {
    var all := ledger + [r];
    assert forall x :: x in all <==> x in ledger || x == r;
  }

  lemma {:induction false} TotalsAppend(ledger: seq<Row>, r: Row, course: string)
    ensures Totals(ledger + [r], course)
         == if r.course == course then Added(Totals(ledger, course), r.student, r.delta) else Totals(ledger, course)
  {
    var all := ledger + [r];
    StudentsAppend(ledger, r, course);
    forall u ensures Sum(all, u, course) == Sum(ledger, u, course) + if r.student == u && r.course == course then r.delta else 0 {
      SumAppends(ledger, r, u, course);
    }
    if r.student !in Students(ledger, course) {
      NoRowsNoSum(ledger, r.student, course);
    }
    hide Students, Sum;
  }

  lemma {:induction false} NoRowsNoSum(ledger: seq<Row>, student: string, course: string)
    requires student !in Students(ledger, course)
    ensures Sum(ledger, student, course) == 0
  {
    if ledger != [] {
      var n := |ledger| - 1;
      assert ledger == ledger[..n] + [ledger[n]] && ledger[n] in ledger;
      assert forall r :: r in ledger[..n] ==> r in ledger;
      NoRowsNoSum(ledger[..n], student, course);
    }
  }

  // ---------- Steps ----------

  /** ZINCRBY: a missing member counts from zero. */
  function Added(z: map<string, int>, member: string, delta: int): map<string, int> {
    z[member := (if member in z then z[member] else 0) + delta]
  }

  function Zset(st: Store, course: string): map<string, int> {
    if course in st.zsets then st.zsets[course] else map[]
  }

  function Bump(st: Store, r: Row): Store {
    if r.course in st.built
    then st.(zsets := st.zsets[r.course := Added(Zset(st, r.course), r.student, r.delta)])
    else st
  }

  datatype Event =
    | Award(row: Row)
    | AwardWithoutBump(row: Row)   // Redis failed
    | BumpWithoutAward(row: Row)   // the transaction was rolled back
    | Read(course: string)         // rebuilds a cold projection
    | Rebuild(course: string)
    | Expire(course: string)       // both keys together
    | ExpireMarker(course: string)
    | ExpireZset(course: string)

  ghost function RebuildStep(st: Store, course: string): Store {
    st.(zsets := st.zsets[course := Totals(st.ledger, course)], built := st.built + {course})
  }

  ghost function Step(st: Store, ev: Event): Store {
    match ev
    case Award(r) => Bump(st.(ledger := st.ledger + [r]), r)
    case AwardWithoutBump(r) => st.(ledger := st.ledger + [r])
    case BumpWithoutAward(r) => Bump(st, r)
    case Read(c) => if c in st.built then st else RebuildStep(st, c)
    case Rebuild(c) => RebuildStep(st, c)
    case Expire(c) => st.(zsets := st.zsets - {c}, built := st.built - {c})
    case ExpireMarker(c) => st.(built := st.built - {c})
    case ExpireZset(c) => st.(zsets := st.zsets - {c})
  }

  // ---------- The projection refines the ledger ----------

  /** A trusted projection is exactly the totals. */
  ghost predicate Faithful(st: Store) {
    forall c :: c in st.built ==> Zset(st, c) == Totals(st.ledger, c)
  }

  /** When a step leaves the projection faithful. */
  ghost predicate Sound(st: Store, ev: Event) {
    match ev
    case AwardWithoutBump(r) => r.course in st.built ==> r.delta == 0 && r.student in Students(st.ledger, r.course)
    case BumpWithoutAward(r) => r.course in st.built ==> r.delta == 0 && r.student in Students(st.ledger, r.course)
    case ExpireZset(c) => c in st.built ==> Students(st.ledger, c) == {}
    case _ => true
  }

  lemma {:induction false} StepKeepsFaithExactly(st: Store, ev: Event)
    requires Faithful(st)
    ensures Faithful(Step(st, ev)) <==> Sound(st, ev)
  {
    var st' := Step(st, ev);
    match ev
    case Award(r) =>
      forall c | c in st'.built ensures Zset(st', c) == Totals(st'.ledger, c) { TotalsAppend(st.ledger, r, c); }
    case AwardWithoutBump(r) =>
      MissedBump(st, r);
    case BumpWithoutAward(r) =>
      if r.course in st.built {
        AddedIsSame(Totals(st.ledger, r.course), r.student, r.delta);
        assert Faithful(st') ==> Zset(st', r.course) == Totals(st.ledger, r.course);
      }
    case Read(c) =>
    case Rebuild(c) =>
    case Expire(c) =>
      assert forall k :: k in st'.zsets <==> k in st.zsets && k != c;
    case ExpireMarker(c) =>
    case ExpireZset(c) =>
      assert forall k :: k in st'.zsets <==> k in st.zsets && k != c;
      if c in st.built {
        assert Faithful(st') ==> Zset(st', c) == Totals(st.ledger, c);
        assert Totals(st.ledger, c).Keys == Students(st.ledger, c);
        if Students(st.ledger, c) == {} { assert Totals(st.ledger, c) == map[]; }
      }
  }

  lemma {:induction false} AddedIsSame(z: map<string, int>, u: string, delta: int)
    ensures Added(z, u, delta) == z <==> u in z && delta == 0
  {
    var a := Added(z, u, delta);
    assert u in a;
  }

  lemma {:induction false} MissedBump(st: Store, r: Row)
    requires Faithful(st)
    ensures Faithful(Step(st, AwardWithoutBump(r))) <==> Sound(st, AwardWithoutBump(r))
  {
    var st' := Step(st, AwardWithoutBump(r));
    forall c ensures Totals(st'.ledger, c) == if r.course == c then Added(Totals(st.ledger, c), r.student, r.delta) else Totals(st.ledger, c) {
      TotalsAppend(st.ledger, r, c);
    }
    AddedIsSame(Totals(st.ledger, r.course), r.student, r.delta);
    hide Totals, Added;
    assert Totals(st.ledger, r.course).Keys == Students(st.ledger, r.course) by { TotalKeys(st.ledger, r.course); }
    if r.course in st.built {
      assert Faithful(st') ==> Zset(st', r.course) == Totals(st'.ledger, r.course);
    }
  }

  lemma {:induction false} TotalKeys(ledger: seq<Row>, course: string)
    ensures Totals(ledger, course).Keys == Students(ledger, course)
  {
  }

  ghost function Exec(st: Store, evs: seq<Event>): Store
    decreases |evs|
  {
    if evs == [] then st else Exec(Step(st, evs[0]), evs[1..])
  }

  ghost predicate SoundRun(st: Store, evs: seq<Event>)
    decreases |evs|
  {
    evs == [] || (Sound(st, evs[0]) && SoundRun(Step(st, evs[0]), evs[1..]))
  }

  /** Over any run of awards, reads, rebuilds and joint expiry, the trusted projections are the
      ledger's totals. */
  lemma {:induction false} RunsKeepFaith(st: Store, evs: seq<Event>)
    requires Faithful(st) && SoundRun(st, evs)
    ensures Faithful(Exec(st, evs))
    decreases |evs|
  {
    if evs != [] {
      StepKeepsFaithExactly(st, evs[0]);
      RunsKeepFaith(Step(st, evs[0]), evs[1..]);
    }
  }

  /** A read or a rebuild leaves a projection that the next read trusts, and that is the totals. */
  lemma {:induction false} ReadsWarm(st: Store, course: string)
    requires Faithful(st)
    ensures forall ev :: ev in [Read(course), Rebuild(course)] ==>
              course in Step(st, ev).built && Zset(Step(st, ev), course) == Totals(st.ledger, course) && Step(st, ev).ledger == st.ledger
  {
    hide Totals;
  }

  /** Expiry leaves a cold projection, which the next read rebuilds. */
  lemma {:induction false} ExpiryCools(st: Store, course: string)
    ensures course !in Step(st, Expire(course)).built && course !in Step(st, Expire(course)).zsets
    ensures Faithful(st) ==> Zset(Exec(st, [Expire(course), Read(course)]), course) == Totals(st.ledger, course)
  {
    hide Totals;
    assert [Expire(course), Read(course)][1..] == [Read(course)] && [Read(course)][1..] == [];
    assert Exec(Step(st, Expire(course)), [Read(course)]) == Exec(Step(Step(st, Expire(course)), Read(course)), []);
  }

  /** The rows that were committed, in order. */
  function Committed(evs: seq<Event>): seq<Row>
    decreases |evs|
  {
    if evs == [] then []
    else (match evs[0] case Award(r) => [r] case AwardWithoutBump(r) => [r] case _ => []) + Committed(evs[1..])
  }

  /** The ledger is only appended to, and holds exactly the committed awards. */
  lemma {:induction false} LedgerIsTheAwards(st: Store, evs: seq<Event>)
    ensures Exec(st, evs).ledger == st.ledger + Committed(evs)
    decreases |evs|
  {
    if evs != [] {
      LedgerIsTheAwards(Step(st, evs[0]), evs[1..]);
      hide Totals;
      assert Step(st, evs[0]).ledger == st.ledger + match evs[0] case Award(r) => [r] case AwardWithoutBump(r) => [r] case _ => [];
    }
  }

  /** On the leaderboard one award moves one student by its points, and nobody else. */
  lemma {:induction false} AwardMovesOne(ledger: seq<Row>, r: Row, student: string)
    ensures var z, z' := Totals(ledger, r.course), Totals(ledger + [r], r.course);
            && r.student in z' && z'[r.student] == (if r.student in z then z[r.student] else 0) + r.delta
            && (student != r.student ==> (student in z' <==> student in z) && (student in z ==> z'[student] == z[student]))
    ensures forall c :: c != r.course ==> Totals(ledger + [r], c) == Totals(ledger, c)
  {
    forall c ensures Totals(ledger + [r], c) == if r.course == c then Added(Totals(ledger, c), r.student, r.delta) else Totals(ledger, c) {
      TotalsAppend(ledger, r, c);
    }
    hide Totals;
  }

  // ---------- Leaderboards ----------

  datatype Score = Score(user: string, points: int)

  datatype LeaderboardRow = LeaderboardRow(user: string, name: string, points: int, rank: nat)

  /** Every member of m once, with its score, in descending order. */
  ghost predicate Ranked(rows: seq<Score>, m: map<string, int>) {
    && (forall i :: 0 <= i < |rows| ==> rows[i].user in m && m[rows[i].user] == rows[i].points)
    && (forall i, j :: 0 <= i < j < |rows| ==> rows[i].user != rows[j].user && rows[i].points >= rows[j].points)
    && (forall u :: u in m ==> exists i :: 0 <= i < |rows| && rows[i].user == u)
  }

  function Scores(board: seq<LeaderboardRow>): seq<Score> {
    seq(|board|, i requires 0 <= i < |board| => Score(board[i].user, board[i].points))
  }

  /** The leaderboard of m: its ranking, numbered from 1. */
  ghost predicate IsLeaderboard(board: seq<LeaderboardRow>, m: map<string, int>) {
    Ranked(Scores(board), m) && forall i :: 0 <= i < |board| ==> board[i].rank == i + 1
  }

  /** Place a score after all that are at least as high. */
  function Place(rows: seq<Score>, s: Score): seq<Score> {
    if rows == [] then [s]
    else
      var n := |rows| - 1;
      if rows[n].points >= s.points then rows + [s] else Place(rows[..n], s) + [rows[n]]
  }

  lemma {:induction false} PlaceRanks(rows: seq<Score>, m: map<string, int>, s: Score)
    requires Ranked(rows, m) && s.user !in m
    ensures Ranked(Place(rows, s), m[s.user := s.points])
  {
    var r, m' := Place(rows, s), m[s.user := s.points];
    PlaceInOrder(rows, s);
    PlaceHolds(rows, s);
    forall i | 0 <= i < |r| ensures r[i].user in m' && m'[r[i].user] == r[i].points {
      assert r[i] in r;
    }
    forall u | u in m' ensures exists i :: 0 <= i < |r| && r[i].user == u {
      if u == s.user {
        assert s in r;
      } else {
        var i :| 0 <= i < |rows| && rows[i].user == u;
        assert rows[i] in r;
      }
    }
  }

  lemma {:induction false} PlaceHolds(rows: seq<Score>, s: Score)
    ensures forall x :: x in Place(rows, s) <==> x in rows || x == s
  {
    if rows != [] {
      var n := |rows| - 1;
      assert rows == rows[..n] + [rows[n]];
      PlaceHolds(rows[..n], s);
    }
  }

  ghost predicate InOrder(rows: seq<Score>) {
    forall i, j :: 0 <= i < j < |rows| ==> rows[i].user != rows[j].user && rows[i].points >= rows[j].points
  }

  lemma {:induction false} PlaceInOrder(rows: seq<Score>, s: Score)
    requires InOrder(rows) && forall i :: 0 <= i < |rows| ==> rows[i].user != s.user
    ensures InOrder(Place(rows, s))
  {
    if rows != [] {
      var n := |rows| - 1;
      PlaceInOrder(rows[..n], s);
      PlaceHolds(rows[..n], s);
      var t := Place(rows[..n], s);
      forall k | 0 <= k < |t| && rows[n].points < s.points ensures t[k].user != rows[n].user && t[k].points >= rows[n].points {
        assert t[k] in t;
      }
    }
  }

  // ---------- The service ----------

  datatype Outcome = Done | BumpFailed | RolledBack

  class PointsService {
    var ledger: seq<Row>
    var zsets: map<string, map<string, int>>
    var built: set<string>

    constructor ()
      ensures View() == Store([], map[], {})
    {
      ledger, zsets, built := [], map[], {};
    }

    function View(): Store
      reads this
    {
      Store(ledger, zsets, built)
    }

    /** Increment the sorted set only while it is trusted. */
    method BumpProjection(r: Row)
      modifies this`zsets
      ensures View() == Bump(old(View()), r)
    {
      if r.course in built {
        var z := if r.course in zsets then zsets[r.course] else map[];
        zsets := zsets[r.course := Added(z, r.student, r.delta)];
      }
    }

    /** Append to the ledger and bump; the outcome says what, if anything, went wrong. */
    method Award(r: Row, outcome: Outcome)
      modifies this
      ensures View() == Step(old(View()), match outcome
        case Done => Event.Award(r)
        case BumpFailed => AwardWithoutBump(r)
        case RolledBack => BumpWithoutAward(r))
    {
      if outcome != RolledBack { ledger := ledger + [r]; }
      if outcome != BumpFailed { BumpProjection(r); }
    }

    /** Descending scores of a sorted set. */
    method ZRevRange(z: map<string, int>) returns (rows: seq<Score>)
      ensures Ranked(rows, z)
    {
      rows := [];
      ghost var done: map<string, int> := map[];
      var left := z.Keys;
      while left != {}
        invariant left <= z.Keys
        invariant done == map u | u in z && u !in left :: z[u]
        invariant Ranked(rows, done)
        decreases |left|
      {
        hide Ranked;
        var u :| u in left;
        PlaceRanks(rows, done, Score(u, z[u]));
        rows := Place(rows, Score(u, z[u]));
        done := done[u := z[u]];
        left := left - {u};
      }
      assert done == z;
    }

    /** groupBy over the ledger. */
    method Aggregate(course: string) returns (totals: map<string, int>)
      ensures totals == Totals(ledger, course)
    {
      totals := map[];
      for i := 0 to |ledger|
        invariant totals == Totals(ledger[..i], course)
      {
        hide Totals;
        assert ledger[..i + 1] == ledger[..i] + [ledger[i]];
        TotalsAppend(ledger[..i], ledger[i], course);
        if ledger[i].course == course {
          totals := Added(totals, ledger[i].student, ledger[i].delta);
        }
      }
      assert ledger[..|ledger|] == ledger;
    }

    /** Recompute from the ledger and repopulate the sorted set; the rows come back even when
        Redis fails. */
    method RebuildProjection(course: string, redisOk: bool) returns (rows: seq<Score>)
      modifies this
      ensures View() == if redisOk then RebuildStep(old(View()), course) else old(View())
      ensures Ranked(rows, Totals(ledger, course))
    {
      hide Totals, Ranked;
      var totals := Aggregate(course);
      rows := ZRevRange(totals);
      if redisOk {
        zsets := zsets[course := totals];
        built := built + {course};
      }
    }

    /** The course leaderboard: from the projection if it is trusted, else from the ledger. */
    method GetLeaderboard(course: string, names: map<string, string>, redisOk: bool) returns (board: seq<LeaderboardRow>)
      modifies this
      ensures redisOk ==> View() == Step(old(View()), Read(course))
      ensures !redisOk ==> View() == old(View())
      ensures old(Faithful(View())) ==> IsLeaderboard(board, Totals(ledger, course))
      ensures forall i :: 0 <= i < |board| ==>
                board[i].name == if board[i].user in names then names[board[i].user] else "Unknown"
    {
      hide Totals, Ranked;
      var rows: seq<Score>;
      if redisOk && course in built {
        assert Faithful(View()) ==> Zset(View(), course) == Totals(ledger, course);
        rows := ZRevRange(if course in zsets then zsets[course] else map[]);
      } else {
        rows := RebuildProjection(course, redisOk);
      }
      board := seq(|rows|, i requires 0 <= i < |rows| =>
        LeaderboardRow(rows[i].user, if rows[i].user in names then names[rows[i].user] else "Unknown", rows[i].points, i + 1));
      assert Scores(board) == rows;
    }
  }
}
