/** Live terminals: a map of maps whose buffers keep only the end of what was streamed, against a
    flat map that keeps everything. */
module Terminals {
  import opened Wrappers

  const MAX_BACKLOG := 64 * 1024

  /** A UTF-16 code unit: the buffer may be cut between the halves of a pair. */
  type Unit = u: int | 0 <= u < 0x1_0000 witness 0

  datatype Terminal = Terminal(host: string, backlog: seq<Unit>)

  datatype Key = Key(session: string, terminal: string)

  type Sessions = map<string, map<string, Terminal>>

  datatype Event =
    | Open(key: Key, host: string)
    | Append(key: Key, chunk: seq<Unit>)
    | Close(key: Key)
    | CleanupSocket(socket: string)
    | CleanupSession(session: string)

  function Tail(s: seq<Unit>): (r: seq<Unit>)
    ensures |r| == if |s| < MAX_BACKLOG then |s| else MAX_BACKLOG
    ensures exists cut :: cut + r == s
  {
    var cut := if |s| > MAX_BACKLOG then |s| - MAX_BACKLOG else 0;
    assert s[..cut] + s[cut..] == s;
    s[cut..]
  }

  lemma {:induction false} TailOfTail(a: seq<Unit>, b: seq<Unit>)
    ensures Tail(Tail(a) + b) == Tail(a + b)
  {
  }

  predicate IsOpen(st: Sessions, k: Key) {
    k.session in st && k.terminal in st[k.session]
  }

  function At(st: Sessions, k: Key): Terminal
    requires IsOpen(st, k)
  {
    st[k.session][k.terminal]
  }

  // ---------- The nested maps ----------

  function Put(st: Sessions, k: Key, t: Terminal): Sessions {
    st[k.session := (if k.session in st then st[k.session] else map[])[k.terminal := t]]
  }

  function Removed(st: Sessions, k: Key): Sessions {
    if k.session !in st then st
    else
      var rest := st[k.session] - {k.terminal};
      if rest == map[] then st - {k.session} else st[k.session := rest]
  }

  /** The terminals another socket hosts. */
  function Kept(terms: map<string, Terminal>, socket: string): map<string, Terminal> {
    map t | t in terms && terms[t].host != socket :: terms[t]
  }

  /** Every session outside todo has been cleaned. */
  function Cleaned(st: Sessions, todo: set<string>, socket: string): Sessions {
    map s | s in st && (s in todo || Kept(st[s], socket) != map[]) :: if s in todo then st[s] else Kept(st[s], socket)
  }

  function Step(st: Sessions, e: Event): Sessions {
    match e
    case Open(k, host) => Put(st, k, Terminal(host, []))
    case Append(k, chunk) =>
      if IsOpen(st, k) then Put(st, k, At(st, k).(backlog := Tail(At(st, k).backlog + chunk))) else st
    case Close(k) => Removed(st, k)
    case CleanupSocket(socket) => Cleaned(st, {}, socket)
    case CleanupSession(session) => st - {session}
  }

  function Exec(events: seq<Event>): Sessions {
    if events == [] then map[] else Step(Exec(events[..|events| - 1]), events[|events| - 1])
  }

  // ---------- The flat map that forgets nothing ----------

  function FlatStep(flat: map<Key, Terminal>, e: Event): map<Key, Terminal> {
    match e
    case Open(k, host) => flat[k := Terminal(host, [])]
    case Append(k, chunk) => if k in flat then flat[k := flat[k].(backlog := flat[k].backlog + chunk)] else flat
    case Close(k) => flat - {k}
    case CleanupSocket(socket) => map k | k in flat && flat[k].host != socket :: flat[k]
    case CleanupSession(session) => map k | k in flat && k.session != session :: flat[k]
  }

  function FlatExec(events: seq<Event>): map<Key, Terminal> {
    if events == [] then map[] else FlatStep(FlatExec(events[..|events| - 1]), events[|events| - 1])
  }

  /** The same terminals are open, each holding the end of what the flat map holds, and no session
      keeps an empty map. */
  ghost predicate Refines(st: Sessions, flat: map<Key, Terminal>) {
    && (forall s :: s in st ==> st[s] != map[])
    && (forall k :: IsOpen(st, k) <==> k in flat)
    && (forall k :: k in flat && IsOpen(st, k) ==> At(st, k) == Terminal(flat[k].host, Tail(flat[k].backlog)))
  }

  lemma {:induction false} PutIs(st: Sessions, k: Key, t: Terminal)
    ensures forall j :: IsOpen(Put(st, k, t), j) <==> j == k || IsOpen(st, j)
    ensures forall j :: IsOpen(Put(st, k, t), j) ==> At(Put(st, k, t), j) == if j == k then t else At(st, j)
    ensures (forall s :: s in st ==> st[s] != map[]) ==> forall s :: s in Put(st, k, t) ==> Put(st, k, t)[s] != map[]
  {
    assert k.terminal in Put(st, k, t)[k.session];
  }

  lemma {:induction false} RemovedIs(st: Sessions, k: Key)
    ensures forall j :: IsOpen(Removed(st, k), j) <==> j != k && IsOpen(st, j)
    ensures forall j :: IsOpen(Removed(st, k), j) ==> At(Removed(st, k), j) == At(st, j)
    ensures (forall s :: s in st ==> st[s] != map[]) ==> forall s :: s in Removed(st, k) ==> Removed(st, k)[s] != map[]
  {
    if k.session in st {
      var rest := st[k.session] - {k.terminal};
      assert forall t :: t in rest <==> t in st[k.session] && t != k.terminal;
    }
  }

  lemma {:induction false} CleanedIs(st: Sessions, socket: string)
    ensures forall j :: IsOpen(Cleaned(st, {}, socket), j) <==> IsOpen(st, j) && At(st, j).host != socket
    ensures forall j :: IsOpen(Cleaned(st, {}, socket), j) ==> At(Cleaned(st, {}, socket), j) == At(st, j)
    ensures forall s :: s in Cleaned(st, {}, socket) ==> Cleaned(st, {}, socket)[s] != map[]
  {
    forall j | IsOpen(st, j) && At(st, j).host != socket ensures IsOpen(Cleaned(st, {}, socket), j) {
      assert j.terminal in Kept(st[j.session], socket);
    }
  }

  lemma {:induction false} PutRefines(st: Sessions, flat: map<Key, Terminal>, k: Key, t: Terminal)
    requires Refines(st, flat)
    ensures Refines(Put(st, k, t.(backlog := Tail(t.backlog))), flat[k := t])
  {
    PutIs(st, k, t.(backlog := Tail(t.backlog)));
    hide Put, Tail, IsOpen, At;
  }

  lemma {:induction false} RemovalRefines(st: Sessions, flat: map<Key, Terminal>, e: Event)
    requires Refines(st, flat) && (e.Close? || e.CleanupSocket?)
    ensures Refines(Step(st, e), FlatStep(flat, e))
  {
    if e.Close? { RemovedIs(st, e.key); } else { CleanedIs(st, e.socket); }
    hide Removed, Cleaned, Kept, Tail, IsOpen, At, Put;
  }

  lemma {:induction false} StepRefines(st: Sessions, flat: map<Key, Terminal>, e: Event)
    requires Refines(st, flat)
    ensures Refines(Step(st, e), FlatStep(flat, e))
  {
    match e
    case Open(k, host) => PutRefines(st, flat, k, Terminal(host, []));
    case Append(k, chunk) =>
      if IsOpen(st, k) {
        TailOfTail(flat[k].backlog, chunk);
        PutRefines(st, flat, k, flat[k].(backlog := flat[k].backlog + chunk));
        hide Refines, Put, Tail;
      }
    case Close(k) => RemovalRefines(st, flat, e);
    case CleanupSocket(socket) => RemovalRefines(st, flat, e);
    case CleanupSession(session) => hide Tail;
  }

  /** At every point of every run each open terminal's backlog is the last 65536 characters of
      everything appended since it opened, and no session keeps an empty map. */
  lemma {:induction false} RunsRefine(events: seq<Event>)
    ensures Refines(Exec(events), FlatExec(events))
    decreases |events|
  {
    if events != [] {
      RunsRefine(events[..|events| - 1]);
      StepRefines(Exec(events[..|events| - 1]), FlatExec(events[..|events| - 1]), events[|events| - 1]);
    }
  }

  // ---------- One terminal, by the events alone ----------

  /** What the last event makes of this terminal: who hosts it and all it has streamed since it was
      opened, if it is open. */
  function After(last: Option<Terminal>, e: Event, k: Key): Option<Terminal> {
    match e
    case Open(j, host) => if j == k then Some(Terminal(host, [])) else last
    case Append(j, chunk) => if j == k && last.Some? then Some(Terminal(last.value.host, last.value.backlog + chunk)) else last
    case Close(j) => if j == k then None else last
    case CleanupSocket(socket) => if last.Some? && last.value.host == socket then None else last
    case CleanupSession(session) => if k.session == session then None else last
  }

  function Streamed(events: seq<Event>, k: Key): Option<Terminal> {
    if events == [] then None else After(Streamed(events[..|events| - 1], k), events[|events| - 1], k)
  }

  lemma {:induction false} FlatIsStreamed(events: seq<Event>, k: Key)
    ensures k in FlatExec(events) <==> Streamed(events, k).Some?
    ensures k in FlatExec(events) ==> Streamed(events, k) == Some(FlatExec(events)[k])
    decreases |events|
  {
    if events != [] { FlatIsStreamed(events[..|events| - 1], k); }
  }

  /** A terminal is listed exactly while its own events leave it open, and its backlog is the last
      65536 units, or all, of what it has streamed. */
  lemma {:induction false} BacklogIsTheEnd(events: seq<Event>, k: Key)
    ensures IsOpen(Exec(events), k) <==> Streamed(events, k).Some?
    ensures IsOpen(Exec(events), k) ==>
              var t, all := At(Exec(events), k), Streamed(events, k).value;
              && t.host == all.host
              && t.backlog == (if |all.backlog| <= 65_536 then all.backlog else all.backlog[|all.backlog| - 65_536..])
  {
    RunsRefine(events);
    FlatIsStreamed(events, k);
    hide Exec, FlatExec, Streamed, IsOpen, At;
    if k in FlatExec(events) { TailIs(FlatExec(events)[k].backlog); }
  }

  lemma {:induction false} TailIs(s: seq<Unit>)
    ensures Tail(s) == if |s| <= 65_536 then s else s[|s| - 65_536..]
  {
  }

  // ---------- The service ----------

  ghost predicate Distinct(keys: seq<Key>) {
    forall i, j :: 0 <= i < j < |keys| ==> keys[i] != keys[j]
  }

  /** The terminals the socket hosts in the sessions outside todo. */
  ghost predicate HostedOutside(st: Sessions, todo: set<string>, socket: string, k: Key) {
    IsOpen(st, k) && k.session !in todo && At(st, k).host == socket
  }

  ghost predicate HostedIn(s: string, terms: map<string, Terminal>, socket: string, k: Key) {
    k.session == s && k.terminal in terms && terms[k.terminal].host == socket
  }

  lemma {:induction false} CleanedOne(st: Sessions, todo: set<string>, s: string, socket: string)
    requires s in todo && s in st
    ensures s in Cleaned(st, todo, socket) && Cleaned(st, todo, socket)[s] == st[s]
    ensures Cleaned(st, todo - {s}, socket)
         == if Kept(st[s], socket) == map[] then Cleaned(st, todo, socket) - {s} else Cleaned(st, todo, socket)[s := Kept(st[s], socket)]
  {
  }

  lemma {:induction false} NoneCleaned(st: Sessions, socket: string)
    ensures Cleaned(st, st.Keys, socket) == st
  {
  }

  lemma {:induction false} HostedInOneMore(st: Sessions, todo: set<string>, s: string, socket: string, k: Key)
    requires s in todo && s in st
    ensures HostedOutside(st, todo - {s}, socket, k)
       <==> HostedOutside(st, todo, socket, k) || HostedIn(s, st[s], socket, k)
    ensures !(HostedOutside(st, todo, socket, k) && HostedIn(s, st[s], socket, k))
  {
  }

  lemma {:induction false} DistinctJoin(a: seq<Key>, b: seq<Key>)
    requires Distinct(a) && Distinct(b) && forall k :: k in a ==> k !in b
    ensures Distinct(a + b)
  {
    forall i, j | 0 <= i < j < |a + b| ensures (a + b)[i] != (a + b)[j] {
      if i < |a| <= j { assert a[i] in a && b[j - |a|] in b; }
    }
  }

  class TerminalService {
    var sessions: Sessions

    constructor ()
      ensures sessions == Exec([])
    {
      sessions := map[];
    }

    method OpenTerminal(k: Key, host: string)
      modifies this
      ensures sessions == Step(old(sessions), Open(k, host))
    {
      var terms: map<string, Terminal> := map[];
      if k.session in sessions { terms := sessions[k.session]; }
      sessions := sessions[k.session := terms[k.terminal := Terminal(host, [])]];
    }

    method AppendData(k: Key, chunk: seq<Unit>)
      modifies this
      ensures sessions == Step(old(sessions), Append(k, chunk))
    {
      if k.session !in sessions || k.terminal !in sessions[k.session] { return; }
      var term := sessions[k.session][k.terminal];
      var backlog := term.backlog + chunk;
      if |backlog| > MAX_BACKLOG { backlog := backlog[|backlog| - MAX_BACKLOG..]; }
      sessions := sessions[k.session := sessions[k.session][k.terminal := term.(backlog := backlog)]];
    }

    method CloseTerminal(k: Key)
      modifies this
      ensures sessions == Step(old(sessions), Close(k))
    {
      if k.session !in sessions { return; }
      var terms := sessions[k.session] - {k.terminal};
      if |terms| == 0 {
        sessions := sessions - {k.session};
      } else {
        sessions := sessions[k.session := terms];
      }
    }

    /** Removes the socket's terminals everywhere and lists exactly those, each once. */
    method CleanupSocket(socket: string) returns (closed: seq<Key>)
      modifies this
      ensures sessions == Step(old(sessions), Event.CleanupSocket(socket))
      ensures Distinct(closed)
      ensures forall k :: k in closed <==> IsOpen(old(sessions), k) && At(old(sessions), k).host == socket
    {
      closed := [];
      ghost var was := sessions;
      var todo := sessions.Keys;
      NoneCleaned(was, socket);
      assert forall k :: !HostedOutside(was, todo, socket, k);
      while todo != {}
        invariant todo <= was.Keys
        invariant sessions == Cleaned(was, todo, socket)
        invariant Distinct(closed)
        invariant forall k :: k in closed <==> HostedOutside(was, todo, socket, k)
        decreases |todo|
      {
        hide Cleaned, Kept, HostedOutside, HostedIn, Distinct;
        var s :| s in todo;
        CleanedOne(was, todo, s, socket);
        forall k ensures
          && (HostedOutside(was, todo - {s}, socket, k) <==> HostedOutside(was, todo, socket, k) || HostedIn(s, was[s], socket, k))
          && !(HostedOutside(was, todo, socket, k) && HostedIn(s, was[s], socket, k)) {
          HostedInOneMore(was, todo, s, socket, k);
        }
        var terms, hosted := RemoveHosted(s, sessions[s], socket);
        if |terms| == 0 {
          sessions := sessions - {s};
        } else {
          sessions := sessions[s := terms];
        }
        DistinctJoin(closed, hosted);
        closed := closed + hosted;
        todo := todo - {s};
      }
    }

    /** The loop over one session's terminals. */
    method RemoveHosted(s: string, was: map<string, Terminal>, socket: string) returns (terms: map<string, Terminal>, closed: seq<Key>)
      ensures terms == Kept(was, socket)
      ensures Distinct(closed)
      ensures forall k :: k in closed <==> HostedIn(s, was, socket, k)
    {
      terms, closed := was, [];
      var left := was.Keys;
      while left != {}
        invariant left <= was.Keys
        invariant terms == map t | t in was && (t in left || was[t].host != socket) :: was[t]
        invariant Distinct(closed)
        invariant forall k :: k in closed <==> (k.session == s && k.terminal in was.Keys - left && was[k.terminal].host == socket)
        decreases |left|
      {
        var t :| t in left;
        if terms[t].host == socket {
          terms := terms - {t};
          closed := closed + [Key(s, t)];
        }
        left := left - {t};
      }
    }

    method CleanupSession(session: string)
      modifies this
      ensures sessions == Step(old(sessions), Event.CleanupSession(session))
    {
      sessions := sessions - {session};
    }
  }
}
