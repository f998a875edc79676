/** The life of one session's board document inside the API process, as a state machine.

    Every event below is one stretch of code that runs without an `await`, or one thing that
    the object store does on its own.  Events may happen in any order that `Enabled` admits, so
    a run covers every interleaving of joins, leaves, edits, overlapping flushes and failed
    writes.  A Yjs document is the set of updates applied to it.  Entries are named by an
    identity type, so that a stale reference to an evicted entry can be told from the entry
    the map holds now. */
module BoardProtocol {
  import opened Wrappers

  type Client = nat   // one call of retain
  type Update = nat
  type Doc = set<Update>

  /** A BoardEntry.  `holders` is history: the calls of retain that still hold the entry. */
  datatype Entry = Entry(doc: Doc, dirty: bool, clients: nat, revision: nat, destroyed: bool,
                         holders: set<Client>)

  /** A pending load: who waits for it and, once the store has answered, what it read. */
  datatype Load = Load(waiters: set<Client>, read: Option<Doc>)

  /** Who resumes with the answer to a write; nobody, once the caller has been told it failed. */
  datatype Owner = Timer | Release | Nobody
  datatype Effect = Pending | Applied | Dropped

  /** A write in flight together with the code suspended on it. */
  datatype Put<Id> = Put(entry: Id, revision: nat, snapshot: Doc, owner: Owner, effect: Effect)

  /** Everything the process and the store know of one session: its key in the two maps, every
      entry ever made for it, its writes in issue order, and its storage cell.  `accepted` is
      history: all that was ever stored or accepted. */
  datatype Room<Id(==)> = Room(
    board: Option<Id>,
    loading: Option<Load>,
    heap: map<Id, Entry>,
    puts: map<nat, Put<Id>>,
    store: Doc,
    accepted: Doc)

  /** `next` numbers the write that the event may issue; `id` names the entry it makes. */
  datatype Event<Id> =
    | Retain(client: Client)
    | StoreReads
    | LoadDone(id: Id)
    | LoadFails
    | Leave(client: Client, next: nat)
    | Edit(update: Update)
    | TimerFlush(next: nat)
    | PutLands(ticket: nat)
    | PutDropped(ticket: nat)
    | GiveUp(ticket: nat)
    | PutAnswered(ticket: nat, ok: bool, next: nat)

  /** References lead to existing entries, and a session is loaded or loading, never both. */
  ghost predicate Linked<Id>(r: Room<Id>) {
    && (r.board.Some? ==>
         r.board.value in r.heap && !r.heap[r.board.value].destroyed && r.loading.None?)
    && forall t :: t in r.puts ==> r.puts[t].entry in r.heap
  }

  // ---------- Steps ----------

  ghost function RetainStep<Id>(r: Room<Id>, c: Client): Room<Id>
    requires Linked(r)
  {
    match r.board
    case Some(e) =>
      var x := r.heap[e];
      r.(heap := r.heap[e := x.(clients := x.clients + 1, holders := x.holders + {c})])
    case None =>
      match r.loading
      case Some(l) => r.(loading := Some(l.(waiters := l.waiters + {c})))
      case None => r.(loading := Some(Load({c}, None)))
  }

  /** The load resolves and all its waiters resume, each counting itself in. */
  ghost function LoadDoneStep<Id>(r: Room<Id>, id: Id): Room<Id>
    requires r.loading.Some? && r.loading.value.read.Some?
  {
    var l := r.loading.value;
    r.(board := Some(id),
       loading := None,
       heap := r.heap[id := Entry(l.read.value, false, |l.waiters|, 0, false, l.waiters)])
  }

  ghost function EditStep<Id>(r: Room<Id>, u: Update): Room<Id>
    requires Linked(r)
  {
    match r.board
    case None => r
    case Some(e) =>
      var x := r.heap[e];
      r.(heap := r.heap[e := x.(doc := x.doc + {u}, dirty := true, revision := x.revision + 1)],
         accepted := r.accepted + {u})
  }

  /** flush up to its `await`: the revision and the encoded document are captured here. */
  ghost function IssuePut<Id>(r: Room<Id>, e: Id, owner: Owner, next: nat): Room<Id>
    requires e in r.heap
  {
    var x := r.heap[e];
    r.(puts := r.puts[next := Put(e, x.revision, x.doc, owner, Pending)])
  }

  ghost function Destroy<Id>(r: Room<Id>, e: Id): Room<Id>
    requires e in r.heap
  {
    r.(heap := r.heap[e := r.heap[e].(destroyed := true)])
  }

  /** release from its loop head on: flush again, give up because a client is back, or evict
      whatever the map holds for the session. */
  ghost function ReleaseTail<Id>(r: Room<Id>, e: Id, next: nat): Room<Id>
    requires e in r.heap
  {
    var x := r.heap[e];
    if x.dirty && x.clients == 0 then IssuePut(r, e, Release, next)
    else if x.clients > 0 then r
    else Destroy(r, e).(board := None)
  }

  /** The entry the map holds counts one client out. */
  ghost function Uncount<Id>(r: Room<Id>, c: Client): Room<Id>
    requires Linked(r) && r.board.Some?
  {
    var x := r.heap[r.board.value];
    r.(heap := r.heap[r.board.value :=
      x.(clients := if x.clients == 0 then 0 else x.clients - 1, holders := x.holders - {c})])
  }

  ghost function LeaveStep<Id>(r: Room<Id>, c: Client, next: nat): Room<Id>
    requires Linked(r)
  {
    match r.board
    case None => r
    case Some(e) =>
      var r1 := Uncount(r, c);
      if r1.heap[e].clients > 0 then r1 else ReleaseTail(r1, e, next)
  }

  ghost function TimerFlushStep<Id>(r: Room<Id>, next: nat): Room<Id>
    requires Linked(r)
  {
    if r.board.Some? && r.heap[r.board.value].dirty then IssuePut(r, r.board.value, Timer, next) else r
  }

  /** flushDirty after a saved write: evict an abandoned entry, testing its identity. */
  ghost function TimerTail<Id>(r: Room<Id>, e: Id): Room<Id>
    requires e in r.heap
  {
    var x := r.heap[e];
    if x.dirty || x.clients > 0 then r
    else Destroy(r, e).(board := if r.board == Some(e) then None else r.board)
  }

  /** flush after a successful write: clean only if nothing was edited meanwhile. */
  ghost function MarkSaved<Id>(r: Room<Id>, p: Put<Id>): Room<Id>
    requires p.entry in r.heap
  {
    var x := r.heap[p.entry];
    if x.revision == p.revision then r.(heap := r.heap[p.entry := x.(dirty := false)]) else r
  }

  ghost function PutAnsweredStep<Id>(r: Room<Id>, t: nat, ok: bool, next: nat): Room<Id>
    requires Linked(r) && t in r.puts
  {
    var p := r.puts[t];
    var r1 := r.(puts := r.puts - {t});
    if !ok then r1 else
    var r2 := MarkSaved(r1, p);
    match p.owner
    case Release => ReleaseTail(r2, p.entry, next)
    case Timer => TimerTail(r2, p.entry)
    case Nobody => r2
  }

  /** What the environment may do.  A client leaves only while one of its retains stands, writes
      that take effect on one key do so in issue order, and a write reported as saved was applied.
      A write may come to nothing at any time, and may be reported as failed before or after it
      takes effect. */
  ghost predicate Enabled<Id>(r: Room<Id>, ev: Event<Id>) {
    match ev
    case Retain(c) =>
      && (forall e :: e in r.heap ==> c !in r.heap[e].holders)
      && (r.loading.Some? ==> c !in r.loading.value.waiters)
    case StoreReads => r.loading.Some? && r.loading.value.read.None?
    case LoadDone(id) => r.loading.Some? && r.loading.value.read.Some? && id !in r.heap
    case LoadFails => r.loading.Some?
    case Leave(c, next) => Unused(r, next) && exists e :: e in r.heap && c in r.heap[e].holders
    case Edit(_) => true
    case TimerFlush(next) => Unused(r, next)
    case PutLands(t) => InTurn(r, t)
    case PutDropped(t) => Undecided(r, t)
    case GiveUp(t) => Undecided(r, t) && r.puts[t].owner != Nobody
    case PutAnswered(t, ok, next) =>
      && t in r.puts && Unused(r, next) && r.puts[t].owner != Nobody
      && r.puts[t].effect != Pending && (ok ==> r.puts[t].effect == Applied)
  }

  ghost predicate Unused<Id>(r: Room<Id>, next: nat) {
    forall t :: t in r.puts ==> t < next
  }

  ghost predicate Undecided<Id>(r: Room<Id>, t: nat) {
    t in r.puts && r.puts[t].effect == Pending
  }

  ghost predicate InTurn<Id>(r: Room<Id>, t: nat) {
    && Undecided(r, t)
    && forall q :: q in r.puts && q < t ==> r.puts[q].effect != Pending
  }

  ghost function Step<Id>(r: Room<Id>, ev: Event<Id>): Room<Id>
    requires Linked(r) && Enabled(r, ev)
  {
    match ev
    case Retain(c) => RetainStep(r, c)
    case StoreReads => r.(loading := Some(r.loading.value.(read := Some(r.store))))
    case LoadDone(id) => LoadDoneStep(r, id)
    case LoadFails => r.(loading := None)
    case Leave(c, next) => LeaveStep(r, c, next)
    case Edit(u) => EditStep(r, u)
    case TimerFlush(next) => TimerFlushStep(r, next)
    case PutLands(t) => r.(puts := r.puts[t := r.puts[t].(effect := Applied)], store := r.puts[t].snapshot)
    case PutDropped(t) => r.(puts := r.puts[t := r.puts[t].(effect := Dropped)])
    case GiveUp(t) => r.(puts := r.puts[t := r.puts[t].(owner := Nobody)])
    case PutAnswered(t, ok, next) => PutAnsweredStep(r, t, ok, next)
  }

  // ---------- The invariant ----------

  /** The store has everything, and so does every write still on its way to it. */
  ghost predicate Settled<Id>(r: Room<Id>) {
    && r.store == r.accepted
    && forall t :: t in r.puts && r.puts[t].effect == Pending ==> r.puts[t].snapshot == r.accepted
  }

  /** Nobody holds an entry that the map has let go, and it has nothing left to save. */
  ghost predicate Counted<Id>(r: Room<Id>) {
    forall e :: e in r.heap ==>
      && r.heap[e].clients == |r.heap[e].holders|
      && (r.board != Some(e) ==> !r.heap[e].dirty && r.heap[e].holders == {})
  }

  ghost predicate Complete<Id>(r: Room<Id>)
    requires Linked(r)
  {
    && (r.board.Some? ==> r.heap[r.board.value].doc == r.accepted)
    && (r.loading.Some? && r.loading.value.read.Some? ==> r.loading.value.read.value == r.accepted)
    && ((r.board.Some? ==> !r.heap[r.board.value].dirty) ==> Settled(r))
  }

  /** A write that captured the latest revision carries the whole document; once it has been
      applied the session is settled. */
  ghost predicate Faithful<Id>(r: Room<Id>, t: nat)
    requires Linked(r) && t in r.puts
  {
    var p, x := r.puts[t], r.heap[r.puts[t].entry];
    && p.revision <= x.revision
    && (p.revision == x.revision ==>
         && p.snapshot == x.doc
         && (p.effect == Applied && r.board == Some(p.entry) ==> Settled(r)))
  }

  /** Writes issued after one for the entry now in the map are for that entry too. */
  ghost predicate Ordered<Id>(r: Room<Id>, t: nat, q: nat)
    requires t in r.puts && q in r.puts
  {
    t < q && r.board == Some(r.puts[t].entry)
    ==> r.puts[q].entry == r.puts[t].entry && r.puts[t].revision <= r.puts[q].revision
  }

  ghost predicate PutsInLine<Id>(r: Room<Id>)
    requires Linked(r)
  {
    && (forall t :: t in r.puts ==> Faithful(r, t))
    && (forall t, q :: t in r.puts && q in r.puts ==> Ordered(r, t, q))
  }

  ghost predicate Inv<Id>(r: Room<Id>) {
    Linked(r) && Counted(r) && Complete(r) && PutsInLine(r)
  }

  /** Nothing in memory yet; the store may hold a snapshot from before. */
  ghost predicate Init<Id>(r: Room<Id>) {
    r.board == None && r.loading == None && r.heap == map[] && r.puts == map[] && r.accepted == r.store
  }
}
