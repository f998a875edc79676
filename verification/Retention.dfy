/** The nightly removal of board files: a cursor walks the expired sessions a hundred at a time,
    and failed removals wait in a retry set. */
module Retention {
  import opened Wrappers

  const PAGE := 100

  type Id = int

  datatype State = State(cursor: Option<Id>, retry: set<Id>)

  ghost predicate Ascending(ids: seq<Id>) {
    forall i, j :: 0 <= i < j < |ids| ==> ids[i] < ids[j]
  }

  /** How many ids are not after the cursor. */
  function Passed(ids: seq<Id>, cursor: Option<Id>): nat {
    if cursor.None? || ids == [] then 0
    else if ids[|ids| - 1] <= cursor.value then |ids|
    else Passed(ids[..|ids| - 1], cursor)
  }

  lemma {:induction false} PassedIs(ids: seq<Id>, cursor: Option<Id>)
    requires Ascending(ids)
    ensures Passed(ids, cursor) <= |ids|
    ensures forall i :: 0 <= i < |ids| ==> (i < Passed(ids, cursor) <==> cursor.Some? && ids[i] <= cursor.value)
  {
    if cursor.Some? && ids != [] && ids[|ids| - 1] > cursor.value {
      PassedIs(ids[..|ids| - 1], cursor);
    }
  }

  function Min(a: int, b: int): int {
    if a < b then a else b
  }

  /** findMany: the first hundred ids after the cursor. */
  function PageAfter(ids: seq<Id>, cursor: Option<Id>): seq<Id> {
    var p := Min(Passed(ids, cursor), |ids|);
    ids[p..Min(p + PAGE, |ids|)]
  }

  /** The sessions of one tick: the page after the cursor, or the first page at the end. */
  function Visited(ids: seq<Id>, cursor: Option<Id>): seq<Id> {
    var page := PageAfter(ids, cursor);
    if page == [] && cursor.Some? then PageAfter(ids, None) else page
  }

  function CursorAfter(ids: seq<Id>, cursor: Option<Id>): Option<Id> {
    var v := Visited(ids, cursor);
    if v == [] then None else Some(v[|v| - 1])
  }

  // ---------- Every session is visited ----------

  /** Where in the list the tick starts. */
  function StartAt(ids: seq<Id>, cursor: Option<Id>): int {
    var p := Passed(ids, cursor);
    if p >= |ids| then 0 else p
  }

  lemma {:induction false} TickMoves(ids: seq<Id>, cursor: Option<Id>)
    requires Ascending(ids) && ids != []
    ensures var p := StartAt(ids, cursor);
            && 0 <= p < |ids| && Visited(ids, cursor) == ids[p..Min(p + PAGE, |ids|)]
            && Passed(ids, CursorAfter(ids, cursor)) == Min(p + PAGE, |ids|)
  {
    PassedIs(ids, cursor);
    hide Passed, Ascending;
    var p := StartAt(ids, cursor);
    var e := Min(p + PAGE, |ids|);
    assert Passed(ids, None) == 0 by { NonePassed(ids); }
    assert Visited(ids, cursor) == ids[p..e];
    hide Visited;
    assert CursorAfter(ids, cursor) == Some(ids[e - 1]);
    PassedAt(ids, e);
  }

  lemma {:induction false} NonePassed(ids: seq<Id>)
    ensures Passed(ids, None) == 0
  {
  }

  lemma {:induction false} PassedAt(ids: seq<Id>, e: nat)
    requires Ascending(ids) && 1 <= e <= |ids|
    ensures Passed(ids, Some(ids[e - 1])) == e
    decreases |ids|
  {
    if e < |ids| {
      assert ids[e - 1] < ids[|ids| - 1];
      PassedAt(ids[..|ids| - 1], e);
    }
  }

  /** The sessions visited over n ticks. */
  ghost function VisitedBy(ids: seq<Id>, cursor: Option<Id>, n: nat): set<Id>
    decreases n
  {
    if n == 0 then {} else SetOf(Visited(ids, cursor)) + VisitedBy(ids, CursorAfter(ids, cursor), n - 1)
  }

  /** Every session at a position from lo up to hi is in the set. */
  ghost predicate Covered(ids: seq<Id>, lo: int, hi: int, seen: set<Id>) {
    forall i :: 0 <= i < |ids| && lo <= i < hi ==> ids[i] in seen
  }

  lemma {:induction false} CoveredJoin(ids: seq<Id>, lo: int, mid: int, hi: int, a: set<Id>, b: set<Id>)
    requires Covered(ids, lo, mid, a) && Covered(ids, mid, hi, b) && b <= a
    ensures Covered(ids, lo, hi, a)
  {
  }

  lemma {:induction false} OneTickCovers(ids: seq<Id>, cursor: Option<Id>, n: nat)
    requires Ascending(ids) && ids != [] && n > 0
    ensures Covered(ids, StartAt(ids, cursor), StartAt(ids, cursor) + PAGE, VisitedBy(ids, cursor, n))
    ensures StartAt(ids, CursorAfter(ids, cursor))
         == if StartAt(ids, cursor) + PAGE < |ids| then StartAt(ids, cursor) + PAGE else 0
    ensures VisitedBy(ids, CursorAfter(ids, cursor), n - 1) <= VisitedBy(ids, cursor, n)
  {
    TickMoves(ids, cursor);
    var p := StartAt(ids, cursor);
    var e := Min(p + PAGE, |ids|);
    var page, seen := Visited(ids, cursor), VisitedBy(ids, cursor, n);
    assert SetOf(page) <= seen;
    hide Visited, CursorAfter, Passed, VisitedBy, StartAt;
    forall i | p <= i < e ensures ids[i] in seen {
      assert page[i - p] == ids[i];
    }
  }

  /** From position p on, n ticks visit the next 100n sessions up to the end. */
  lemma {:induction false} WalksToTheEnd(ids: seq<Id>, cursor: Option<Id>, n: nat)
    requires Ascending(ids) && ids != []
    ensures Covered(ids, StartAt(ids, cursor), StartAt(ids, cursor) + 100 * n, VisitedBy(ids, cursor, n))
    decreases n
  {
    hide VisitedBy, StartAt, CursorAfter, Ascending, Visited, PageAfter, Passed;
    if n > 0 {
      var p, next, seen := StartAt(ids, cursor), CursorAfter(ids, cursor), VisitedBy(ids, cursor, n);
      var later := VisitedBy(ids, next, n - 1);
      OneTickCovers(ids, cursor, n);
      WalksToTheEnd(ids, next, n - 1);
      hide Covered;
      LastStretch(ids, p, n, StartAt(ids, next), later);
      CoveredJoin(ids, p, p + PAGE, p + 100 * n, seen, later);
    }
  }

  lemma {:induction false} LastStretch(ids: seq<Id>, p: int, n: nat, start: int, later: set<Id>)
    requires n > 0 && start == if p + PAGE < |ids| then p + PAGE else 0
    requires Covered(ids, start, start + 100 * (n - 1), later)
    ensures Covered(ids, p + PAGE, p + 100 * n, later)
  {
  }

  /** After enough ticks to reach the end, the rest start from the top. */
  lemma {:induction false} WrapsAround(ids: seq<Id>, cursor: Option<Id>, n: nat, m: nat)
    requires Ascending(ids) && ids != []
    requires n >= 1 && StartAt(ids, cursor) + 100 * (n - 1) < |ids| <= StartAt(ids, cursor) + 100 * n
    ensures Covered(ids, 0, 100 * m, VisitedBy(ids, cursor, n + m))
    decreases n
  {
    hide VisitedBy, StartAt, CursorAfter, Ascending, Visited, PageAfter, Passed;
    var next := CursorAfter(ids, cursor);
    OneTickCovers(ids, cursor, n + m);
    if n == 1 {
      WalksToTheEnd(ids, next, m);
    } else {
      WrapsAround(ids, next, n - 1, m);
    }
    assert n - 1 + m == n + m - 1;
    assert Covered(ids, 0, 100 * m, VisitedBy(ids, next, n + m - 1));
  }

  lemma {:induction false} MoreTicksVisitMore(ids: seq<Id>, cursor: Option<Id>, n: nat, m: nat)
    requires n <= m
    ensures VisitedBy(ids, cursor, n) <= VisitedBy(ids, cursor, m)
    decreases n
  {
    hide Visited, CursorAfter, SetOf;
    if n > 0 { MoreTicksVisitMore(ids, CursorAfter(ids, cursor), n - 1, m - 1); }
  }

  lemma {:induction false} PagesAhead(len: nat, p: nat) returns (n: nat, m: nat)
    requires p < len
    ensures n >= 1 && p + 100 * (n - 1) < len <= p + 100 * n && p <= 100 * m
    ensures n + m <= (len + 99) / 100 + 1
  {
    n, m := (len - p + 99) / 100, (p + 99) / 100;
  }

  /** From any cursor, one tick more than there are pages visits every expired session. */
  lemma {:induction false} EverySessionIsVisited(ids: seq<Id>, cursor: Option<Id>)
    requires Ascending(ids)
    ensures forall x :: x in ids ==> x in VisitedBy(ids, cursor, (|ids| + 99) / 100 + 1)
  {
    hide VisitedBy, StartAt, CursorAfter, Ascending, Visited, PageAfter, Passed;
    if ids != [] {
      var p, total := StartAt(ids, cursor), (|ids| + 99) / 100 + 1;
      assert 0 <= p < |ids| by { TickMoves(ids, cursor); }
      var n, m := PagesAhead(|ids|, p);
      assert Covered(ids, 0, p, VisitedBy(ids, cursor, total)) by {
        WrapsAround(ids, cursor, n, m);
        MoreTicksVisitMore(ids, cursor, n + m, total);
      }
      assert Covered(ids, p, |ids|, VisitedBy(ids, cursor, total)) by {
        WalksToTheEnd(ids, cursor, n);
        MoreTicksVisitMore(ids, cursor, n, total);
      }
    }
  }

  // ---------- Failed sessions are retried ----------

  /** One tick: the retries taken up, the expired sessions, and which removals succeed. */
  datatype Tick = Tick(retried: seq<Id>, ids: seq<Id>, retryOk: set<Id>, visitOk: set<Id>)

  function SetOf(s: seq<Id>): set<Id> {
    set x | x in s
  }

  function Step(st: State, t: Tick): State {
    State(CursorAfter(t.ids, st.cursor),
          (st.retry - (SetOf(t.retried) * t.retryOk)) + (SetOf(Visited(t.ids, st.cursor)) - t.visitOk))
  }

  function Exec(st: State, ticks: seq<Tick>): State {
    if ticks == [] then st else Step(Exec(st, ticks[..|ticks| - 1]), ticks[|ticks| - 1])
  }

  ghost predicate VisitsAt(st: State, ticks: seq<Tick>, k: int, x: Id) {
    0 <= k < |ticks| && x in Visited(ticks[k].ids, Exec(st, ticks[..k]).cursor)
  }

  ghost predicate FailsAt(st: State, ticks: seq<Tick>, k: int, x: Id) {
    VisitsAt(st, ticks, k, x) && x !in ticks[k].visitOk
  }

  ghost predicate SameSessions(ticks: seq<Tick>, ids: seq<Id>) {
    forall k :: 0 <= k < |ticks| ==> ticks[k].ids == ids
  }

  lemma {:induction false} VisitedInRun(st: State, ticks: seq<Tick>, ids: seq<Id>, from: nat, n: nat, x: Id)
    requires SameSessions(ticks, ids) && from + n <= |ticks|
    requires x in VisitedBy(ids, Exec(st, ticks[..from]).cursor, n)
    ensures exists k :: VisitsAt(st, ticks, k, x)
    decreases n
  {
    hide Visited, CursorAfter;
    if x in Visited(ids, Exec(st, ticks[..from]).cursor) {
      assert VisitsAt(st, ticks, from, x);
    } else {
      assert ticks[..from + 1][..from] == ticks[..from];
      VisitedInRun(st, ticks, ids, from + 1, n - 1, x);
    }
  }

  /** From any state, and however the removals go, one tick more than there are pages visits every
      session that stays expired. */
  lemma {:induction false} EveryRunVisits(st: State, ticks: seq<Tick>, ids: seq<Id>, x: Id)
    requires Ascending(ids) && SameSessions(ticks, ids) && |ticks| > (|ids| + 99) / 100 && x in ids
    ensures exists k :: VisitsAt(st, ticks, k, x)
  {
    hide Visited, CursorAfter, VisitedBy, VisitsAt;
    EverySessionIsVisited(ids, st.cursor);
    assert ticks[..0] == [];
    VisitedInRun(st, ticks, ids, 0, (|ids| + 99) / 100 + 1, x);
  }

  predicate RetrySucceeds(t: Tick, x: Id) {
    x in t.retried && x in t.retryOk
  }

  /** In tick k the session's removal failed, and no retry after it has succeeded. */
  ghost predicate Owed(st: State, ticks: seq<Tick>, k: int, x: Id) {
    FailsAt(st, ticks, k, x) && forall j :: k < j < |ticks| ==> !RetrySucceeds(ticks[j], x)
  }

  /** What one more tick changes about what is owed. */
  lemma {:induction false} OwedAfter(st: State, ticks: seq<Tick>, k: int, x: Id)
    requires ticks != []
    ensures var n := |ticks| - 1;
            Owed(st, ticks, k, x) <==> if k == n then FailsAt(st, ticks, n, x)
                                       else Owed(st, ticks[..n], k, x) && !RetrySucceeds(ticks[n], x)
  {
    var n := |ticks| - 1;
    var init := ticks[..n];
    if 0 <= k < n { assert init[..k] == ticks[..k]; }
    hide Visited, Exec, RetrySucceeds;
    if Owed(st, init, k, x) && !RetrySucceeds(ticks[n], x) {
      forall j | k < j < |ticks| ensures !RetrySucceeds(ticks[j], x) {
        if j < n { assert init[j] == ticks[j]; }
      }
    }
    if Owed(st, ticks, k, x) && k != n {
      forall j | k < j < n ensures !RetrySucceeds(init[j], x) { assert init[j] == ticks[j]; }
    }
  }

  /** From an empty retry set, a session is in it exactly while one of its failures is owed. */
  lemma {:induction false} RetriedExactlyWhileOwed(st: State, ticks: seq<Tick>, x: Id)
    requires st.retry == {}
    ensures x in Exec(st, ticks).retry <==> exists k :: Owed(st, ticks, k, x)
    decreases |ticks|
  {
    if ticks != [] {
      var n := |ticks| - 1;
      RetriedExactlyWhileOwed(st, ticks[..n], x);
      assert x in Exec(st, ticks).retry
        <==> (x in Exec(st, ticks[..n]).retry && !RetrySucceeds(ticks[n], x)) || FailsAt(st, ticks, n, x);
      forall k ensures Owed(st, ticks, k, x) <==> if k == n then FailsAt(st, ticks, n, x)
                                                  else Owed(st, ticks[..n], k, x) && !RetrySucceeds(ticks[n], x) {
        OwedAfter(st, ticks, k, x);
      }
      hide Exec, FailsAt, RetrySucceeds;
      assert !Owed(st, ticks[..n], n, x);
      assert FailsAt(st, ticks, n, x) ==> Owed(st, ticks, n, x);
      if k :| Owed(st, ticks[..n], k, x) { assert Owed(st, ticks, k, x) || RetrySucceeds(ticks[n], x); }
    }
  }

  // ---------- The service ----------

  class BoardAssetRetentionService {
    var cursor: Option<Id>
    var retry: set<Id>

    constructor ()
      ensures View() == State(None, {})
    {
      cursor, retry := None, {};
    }

    function View(): State
      reads this
    {
      State(cursor, retry)
    }

    /** One night: up to a hundred members of the retry set first, then the next page. */
    method RemoveExpiredAssets(t: Tick)
      requires SetOf(t.retried) <= retry && |t.retried| <= PAGE
      modifies this
      ensures View() == Step(old(View()), t)
    {
      hide Visited, PageAfter;
      for i := 0 to |t.retried|
        invariant cursor == old(cursor) && retry == old(retry) - (SetOf(t.retried[..i]) * t.retryOk)
      {
        assert t.retried[..i + 1] == t.retried[..i] + [t.retried[i]];
        if t.retried[i] in t.retryOk { retry := retry - {t.retried[i]}; }
      }
      assert t.retried[..|t.retried|] == t.retried;
      ghost var rest := retry;
      var sessions := PageAfter(t.ids, cursor);
      ghost var before := cursor;
      if sessions == [] && cursor.Some? {
        cursor := None;
        sessions := PageAfter(t.ids, None);
      }
      assert sessions == Visited(t.ids, before) by { VisitedIs(t.ids, before); }
      for i := 0 to |sessions|
        invariant cursor == before || (cursor == None && sessions == PageAfter(t.ids, None))
        invariant sessions == [] ==> cursor == None
        invariant retry == rest + (SetOf(sessions[..i]) - t.visitOk)
      {
        assert sessions[..i + 1] == sessions[..i] + [sessions[i]];
        if sessions[i] !in t.visitOk { retry := retry + {sessions[i]}; }
      }
      assert sessions[..|sessions|] == sessions;
      if sessions != [] { cursor := Some(sessions[|sessions| - 1]); }
    }
  }

  lemma {:induction false} VisitedIs(ids: seq<Id>, cursor: Option<Id>)
    ensures Visited(ids, cursor)
         == if PageAfter(ids, cursor) == [] && cursor.Some? then PageAfter(ids, None) else PageAfter(ids, cursor)
  {
  }
}
