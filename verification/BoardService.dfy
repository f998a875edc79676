/** The service itself: maps and entries changed in place, one method for each stretch of code
    between two awaits.  Every method does to the room of its session exactly what the protocol
    says, and leaves every other session's room alone. */
module BoardService {
  import opened Wrappers
  import opened BoardProtocol

  type Session = string

  class BoardEntry {
    const session: Session
    var doc: Doc
    var destroyed: bool
    var dirty: bool
    var clients: nat
    var revision: nat
    ghost var holders: set<Client>

    constructor (session: Session, doc: Doc, clients: nat, ghost holders: set<Client>)
      ensures this.session == session && Value() == Entry(doc, false, clients, 0, false, holders)
    {
      this.session, this.doc, this.clients := session, doc, clients;
      destroyed, dirty, revision := false, false, 0;
      this.holders := holders;
    }

    ghost function Value(): Entry
      reads this
    {
      Entry(doc, dirty, clients, revision, destroyed, holders)
    }
  }

  /** The storage cell of one session, the writes on their way to it, and all it was owed. */
  datatype Cell = Cell(store: Doc, puts: map<nat, Put<BoardEntry>>, accepted: Doc)

  class BoardDocService {
    var boards: map<Session, BoardEntry>
    var loading: map<Session, Load>
    var cells: map<Session, Cell>
    var tickets: nat
    ghost var known: set<BoardEntry>

    constructor (store: map<Session, Doc>)
      ensures Valid()
      ensures forall s :: Init(Room(s)) && Room(s).store == if s in store then store[s] else {}
    {
      boards, loading, tickets := map[], map[], 0;
      cells := map s | s in store :: Cell(store[s], map[], store[s]);
      known := {};
    }

    function CellAt(s: Session): Cell
      reads this
    {
      if s in cells then cells[s] else Cell({}, map[], {})
    }

    function BoardAt(s: Session): Option<BoardEntry>
      reads this
    {
      if s in boards then Some(boards[s]) else None
    }

    function LoadAt(s: Session): Option<Load>
      reads this
    {
      if s in loading then Some(loading[s]) else None
    }

    /** All that concerns one session. */
    ghost function Room(s: Session): Room<BoardEntry>
      reads this, known
    {
      BoardProtocol.Room(BoardAt(s), LoadAt(s), map e | e in known && e.session == s :: e.Value(),
                         CellAt(s).puts, CellAt(s).store, CellAt(s).accepted)
    }

    ghost predicate Valid()
      reads this, known
    {
      forall s :: Linked(Room(s)) && Unused(Room(s), tickets)
    }

    /** Nothing outside session s has changed. */
    twostate predicate Only(s: Session)
      reads this, known
    {
      && old(known) <= known && old(tickets) <= tickets
      && (forall e :: e in known && e !in old(known) ==> e.session == s)
      && (forall e :: e in old(known) && e.session != s ==> e.Value() == old(e.Value()))
      && forall k :: k != s ==>
           BoardAt(k) == old(BoardAt(k)) && LoadAt(k) == old(LoadAt(k)) && CellAt(k) == old(CellAt(k))
    }

    /** A stretch of code that kept its own room in order has kept the whole service valid. */
    twostate lemma Stepped(s: Session)
      requires old(Valid()) && Only(s)
      requires Linked(Room(s)) && Unused(Room(s), tickets)
      ensures Valid() && forall k :: k != s ==> Room(k) == old(Room(k))
    {
      forall k | k != s ensures Room(k) == old(Room(k)) {
        assert Room(k).heap == old(Room(k).heap);
      }
    }

    /** Count a client in, now or once the pending load resolves. */
    method Retain(s: Session, c: Client) returns (joined: Option<BoardEntry>)
      requires Valid() && Enabled(Room(s), Event.Retain(c))
      modifies this, known
      ensures Room(s) == RetainStep(old(Room(s)), c)
      ensures Valid() && forall k :: k != s ==> Room(k) == old(Room(k))
      ensures joined == Room(s).board == old(Room(s)).board
      ensures joined.Some? ==> (joined.value.clients == old(joined.value.clients) + 1 && c in joined.value.holders)
      ensures joined.None? ==> (s in loading && c in loading[s].waiters)
    {
      joined := BoardAt(s);
      if s in boards {
        var e := boards[s];
        assert e in Room(s).heap;
        e.clients := e.clients + 1;
        e.holders := e.holders + {c};
        assert Room(s).heap == old(Room(s).heap)[e := e.Value()];
      } else {
        if s in loading {
          loading := loading[s := loading[s].(waiters := loading[s].waiters + {c})];
        } else {
          loading := loading[s := Load({c}, None)];
        }
        assert Room(s).heap == old(Room(s).heap);
      }
      Stepped(s);
    }

    /** The store answers a pending load. */
    method StoreReads(s: Session)
      requires Valid() && Enabled(Room(s), Event.StoreReads)
      modifies this
      ensures Room(s) == Step(old(Room(s)), Event.StoreReads)
      ensures Valid() && forall k :: k != s ==> Room(k) == old(Room(k))
    {
      loading := loading[s := loading[s].(read := Some(CellAt(s).store))];
      Stepped(s);
    }

    /** The load resolves: the entry is made, put in the map, and counted in by its waiters. */
    method LoadDone(s: Session) returns (e: BoardEntry)
      requires Valid() && s in loading && loading[s].read.Some?
      modifies this
      ensures fresh(e) && e !in old(known) && Room(s) == LoadDoneStep(old(Room(s)), e)
      ensures e.holders == old(loading[s].waiters) && e.clients == |e.holders| && BoardAt(s) == Some(e)
      ensures Valid() && forall k :: k != s ==> Room(k) == old(Room(k))
    {
      var l := loading[s];
      e := new BoardEntry(s, l.read.value, |l.waiters|, l.waiters);
      boards := boards[s := e];
      loading := loading - {s};
      known := known + {e};
      assert Room(s).heap == old(Room(s).heap)[e := e.Value()];
      Stepped(s);
    }

    method LoadFails(s: Session)
      requires Valid() && s in loading
      modifies this
      ensures Room(s) == Step(old(Room(s)), Event.LoadFails)
      ensures Valid() && forall k :: k != s ==> Room(k) == old(Room(k))
    {
      loading := loading - {s};
      assert Room(s).heap == old(Room(s).heap);
      Stepped(s);
    }

    /** Take an edit in; refused when no document is in memory. */
    method ApplyUpdate(s: Session, u: Update) returns (taken: bool)
      requires Valid()
      modifies this, known
      ensures Room(s) == EditStep(old(Room(s)), u) && taken == Room(s).board.Some?
      ensures Valid() && forall k :: k != s ==> Room(k) == old(Room(k))
    {
      taken := s in boards;
      if taken {
        var e := boards[s];
        assert e in Room(s).heap;
        e.doc := e.doc + {u};
        e.dirty := true;
        e.revision := e.revision + 1;
        cells := cells[s := CellAt(s).(accepted := CellAt(s).accepted + {u})];
        assert Room(s).heap == old(Room(s).heap)[e := e.Value()];
      }
      Stepped(s);
    }

    /** flush up to its await. */
    method IssuePut(e: BoardEntry, owner: Owner)
      requires Valid() && e in known
      modifies this
      ensures Room(e.session) == BoardProtocol.IssuePut(old(Room(e.session)), e, owner, old(tickets))
      ensures unchanged(this`boards, this`loading, this`known) && old(tickets) <= tickets
      ensures Valid() && forall k :: k != e.session ==> Room(k) == old(Room(k))
    {
      var s := e.session;
      var put := Put.Put(e, e.revision, e.doc, owner, Pending);
      cells := cells[s := CellAt(s).(puts := CellAt(s).puts[tickets := put])];
      tickets := tickets + 1;
      assert Room(s).heap == old(Room(s).heap);
      Stepped(s);
    }

    /** release from its loop head on; true when the room is now empty. */
    method ReleaseTail(e: BoardEntry) returns (empty: Option<bool>)
      requires Valid() && e in known
      modifies this, e
      ensures Room(e.session) == BoardProtocol.ReleaseTail(old(Room(e.session)), e, old(tickets))
      ensures Valid() && forall k :: k != e.session ==> Room(k) == old(Room(k))
      ensures empty == if old(e.clients) > 0 then Some(false) else if old(e.dirty) then None else Some(true)
    {
      if e.dirty && e.clients == 0 {
        empty := None;
        IssuePut(e, Owner.Release);
      } else if e.clients > 0 {
        empty := Some(false);
      } else {
        empty := Some(true);
        e.destroyed := true;
        boards := boards - {e.session};
        assert Room(e.session).heap == old(Room(e.session).heap)[e := e.Value()];
        Stepped(e.session);
      }
    }

    /** Count a client out; the last one flushes and evicts.  The answer is true when the room is
        now empty, and comes later when there is something to write first. */
    method Release(s: Session, ghost c: Client) returns (empty: Option<bool>)
      requires Valid()
      modifies this, known
      ensures empty == match old(BoardAt(s))
        case None => Some(false)
        case Some(e) => if old(e.clients) > 1 then Some(false) else if old(e.dirty) then None else Some(true)
      ensures Room(s) == LeaveStep(old(Room(s)), c, old(tickets))
      ensures Valid() && forall k :: k != s ==> Room(k) == old(Room(k))
    {
      if s !in boards {
        return Some(false);
      }
      var e := boards[s];
      assert e in Room(s).heap;
      e.clients := if e.clients == 0 then 0 else e.clients - 1;
      e.holders := e.holders - {c};
      assert Room(s).heap == old(Room(s).heap)[e := e.Value()];
      Stepped(s);
      if e.clients > 0 {
        return Some(false);
      }
      empty := ReleaseTail(e);
    }

    /** One visit of flushDirty to a session. */
    method TimerFlush(s: Session)
      requires Valid()
      modifies this
      ensures Room(s) == TimerFlushStep(old(Room(s)), old(tickets))
      ensures Valid() && forall k :: k != s ==> Room(k) == old(Room(k))
    {
      if s in boards {
        assert boards[s] in Room(s).heap;
        if boards[s].dirty {
          IssuePut(boards[s], Owner.Timer);
        }
      }
    }

    /** flushDirty after a saved write. */
    method TimerTail(e: BoardEntry)
      requires Valid() && e in known
      modifies this, e
      ensures Room(e.session) == BoardProtocol.TimerTail(old(Room(e.session)), e)
      ensures Valid() && forall k :: k != e.session ==> Room(k) == old(Room(k))
    {
      if !e.dirty && e.clients == 0 {
        e.destroyed := true;
        if BoardAt(e.session) == Some(e) {
          boards := boards - {e.session};
        }
        assert Room(e.session).heap == old(Room(e.session).heap)[e := e.Value()];
        Stepped(e.session);
      }
    }

    /** The store's answer has come: the write is no longer in flight. */
    method Answered(s: Session, t: nat) returns (p: Put<BoardEntry>)
      requires Valid() && t in CellAt(s).puts
      modifies this`cells
      ensures Valid() && p == old(CellAt(s).puts[t]) && p.entry in known && p.entry.session == s
      ensures Room(s) == old(Room(s)).(puts := old(Room(s)).puts - {t})
      ensures forall k :: k != s ==> Room(k) == old(Room(k))
    {
      p := CellAt(s).puts[t];
      assert Room(s).puts[t] == p && p.entry in Room(s).heap;
      cells := cells[s := CellAt(s).(puts := CellAt(s).puts - {t})];
      assert Room(s).heap == old(Room(s).heap);
      Stepped(s);
    }

    /** flush after a successful write. */
    method MarkSaved(p: Put<BoardEntry>)
      requires Valid() && p.entry in known
      modifies p.entry`dirty
      ensures Valid() && Room(p.entry.session) == BoardProtocol.MarkSaved(old(Room(p.entry.session)), p)
      ensures forall k :: k != p.entry.session ==> Room(k) == old(Room(k))
    {
      var e := p.entry;
      assert e in Room(e.session).heap;
      if e.revision == p.revision {
        e.dirty := false;
      }
      assert Room(e.session).heap == old(Room(e.session).heap)[e := e.Value()];
      Stepped(e.session);
    }

    /** The answer to a write resumes flush and then whoever called it; the result is what a
        release that is now over has answered. */
    method PutAnswered(s: Session, t: nat, ok: bool) returns (empty: Option<bool>)
      requires Valid() && t in CellAt(s).puts
      modifies this, known
      ensures Room(s) == PutAnsweredStep(old(Room(s)), t, ok, old(tickets))
      ensures Valid() && forall k :: k != s ==> Room(k) == old(Room(k))
      ensures !ok ==> empty == if old(CellAt(s).puts[t].owner) == Owner.Release then Some(true) else None
    {
      assert t in Room(s).puts;
      var p := Answered(s, t);
      if ok { MarkSaved(p); }
      match p.owner
      case Release => if ok { empty := ReleaseTail(p.entry); } else { empty := Some(true); }
      case Timer => empty := None; if ok { TimerTail(p.entry); }
      case Nobody => empty := None;
    }

    /** flush is told that the write failed, though the store has not decided: a release answers
        that the room is empty, the timer goes on, and the write stays on its way. */
    method GiveUp(s: Session, t: nat) returns (empty: Option<bool>)
      requires Valid() && Undecided(Room(s), t) && Room(s).puts[t].owner != Nobody
      modifies this`cells
      ensures Room(s) == Step(old(Room(s)), Event.GiveUp(t))
      ensures Valid() && forall k :: k != s ==> Room(k) == old(Room(k))
      ensures empty == if old(CellAt(s).puts[t].owner) == Owner.Release then Some(true) else None
    {
      var c := CellAt(s);
      assert t in c.puts;
      empty := if c.puts[t].owner == Owner.Release then Some(true) else None;
      cells := cells[s := c.(puts := c.puts[t := c.puts[t].(owner := Nobody)])];
      assert Room(s).heap == old(Room(s).heap);
      Stepped(s);
    }

    /** A write takes effect in the store, after those issued before it that do. */
    method PutLands(s: Session, t: nat)
      requires Valid() && InTurn(Room(s), t)
      modifies this`cells
      ensures Room(s) == Step(old(Room(s)), Event.PutLands(t))
      ensures Valid() && forall k :: k != s ==> Room(k) == old(Room(k))
    {
      var c := CellAt(s);
      assert t in c.puts;
      var p := c.puts[t];
      cells := cells[s := c.(puts := c.puts[t := p.(effect := Applied)], store := p.snapshot)];
      assert Room(s).heap == old(Room(s).heap);
      Stepped(s);
    }

    /** A write turns out, at any time, never to take effect. */
    method PutDropped(s: Session, t: nat)
      requires Valid() && Undecided(Room(s), t)
      modifies this`cells
      ensures Room(s) == Step(old(Room(s)), Event.PutDropped(t))
      ensures Valid() && forall k :: k != s ==> Room(k) == old(Room(k))
    {
      var c := CellAt(s);
      assert t in c.puts;
      cells := cells[s := c.(puts := c.puts[t := c.puts[t].(effect := Dropped)])];
      assert Room(s).heap == old(Room(s).heap);
      Stepped(s);
    }
  }
}
