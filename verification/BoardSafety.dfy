/** No interleaving loses an accepted edit, with the one exception the code leaves open. */
module BoardSafety {
  import opened Wrappers
  import opened BoardProtocol

  // ---------- Each step keeps the invariant ----------

  lemma {:induction false} RetainKeeps<Id>(r: Room<Id>, c: Client)
    requires Inv(r) && Enabled(r, Retain(c))
    ensures Inv(RetainStep(r, c))
  {
    var r' := RetainStep(r, c);
    assert Linked(r') && Counted(r') && Complete(r');
    assert forall t :: t in r.puts && Faithful(r, t) ==> Faithful(r', t);
    assert forall t, q :: t in r.puts && q in r.puts && Ordered(r, t, q) ==> Ordered(r', t, q);
  }

  lemma {:induction false} LoadDoneKeeps<Id>(r: Room<Id>, id: Id)
    requires Inv(r) && Enabled(r, LoadDone(id))
    ensures Inv(LoadDoneStep(r, id))
  {
    var r' := LoadDoneStep(r, id);
    assert Linked(r') && Counted(r') && Complete(r');
    assert forall t :: t in r.puts && Faithful(r, t) ==> Faithful(r', t);
  }

  lemma {:induction false} EditKeeps<Id>(r: Room<Id>, u: Update)
    requires Inv(r)
    ensures Inv(EditStep(r, u))
  {
    var r' := EditStep(r, u);
    assert forall t :: t in r.puts && Faithful(r, t) ==> Faithful(r', t);
    assert forall t, q :: t in r.puts && q in r.puts && Ordered(r, t, q) ==> Ordered(r', t, q);
  }

  lemma {:induction false} IssuePutKeeps<Id>(r: Room<Id>, owner: Owner, next: nat)
    requires Inv(r) && Unused(r, next) && r.board.Some? && r.heap[r.board.value].dirty
    ensures Inv(IssuePut(r, r.board.value, owner, next))
  {
    var r' := IssuePut(r, r.board.value, owner, next);
    assert forall t :: t in r.puts && Faithful(r, t) ==> Faithful(r', t);
    assert forall t, q :: t in r.puts && q in r.puts && Ordered(r, t, q) ==> Ordered(r', t, q);
  }

  lemma {:induction false} PutLandsKeeps<Id>(r: Room<Id>, t: nat)
    requires Inv(r) && InTurn(r, t)
    ensures Inv(Step(r, PutLands(t)))
  {
    var r' := Step(r, PutLands(t));
    var p := r.puts[t];
    assert Faithful(r, t);
    if r.board == Some(p.entry) && p.revision == r.heap[p.entry].revision {
      forall q | q in r.puts && r.puts[q].effect == Pending ensures r.puts[q].snapshot == r.accepted {
        assert Ordered(r, t, q) && Faithful(r, q);
      }
      assert Settled(r');
    }
    assert Settled(r) ==> Settled(r');
    assert forall q :: q in r.puts && Faithful(r, q) ==> Faithful(r', q);
    assert forall u, q :: u in r.puts && q in r.puts && Ordered(r, u, q) ==> Ordered(r', u, q);
  }

  lemma {:induction false} PutDroppedKeeps<Id>(r: Room<Id>, t: nat)
    requires Inv(r) && Undecided(r, t)
    ensures Inv(Step(r, PutDropped(t)))
  {
    var r' := Step(r, PutDropped(t));
    assert Settled(r) ==> Settled(r');
    assert forall q :: q in r.puts && Faithful(r, q) ==> Faithful(r', q);
    assert forall u, q :: u in r.puts && q in r.puts && Ordered(r, u, q) ==> Ordered(r', u, q);
  }

  /** A write reported as failed may still land, long after its caller has gone on. */
  lemma {:induction false} GiveUpKeeps<Id>(r: Room<Id>, t: nat)
    requires Inv(r) && Enabled(r, GiveUp(t))
    ensures Inv(Step(r, GiveUp(t)))
  {
    var r' := Step(r, GiveUp(t));
    assert Settled(r) ==> Settled(r');
    assert forall q :: q in r.puts && Faithful(r, q) ==> Faithful(r', q);
    assert forall u, q :: u in r.puts && q in r.puts && Ordered(r, u, q) ==> Ordered(r', u, q);
  }

  /** An answered write leaves the flight. */
  lemma {:induction false} ForgetKeeps<Id>(r: Room<Id>, t: nat)
    requires Inv(r)
    ensures Inv(r.(puts := r.puts - {t}))
  {
    var r' := r.(puts := r.puts - {t});
    assert Settled(r) ==> Settled(r');
    assert forall q :: q in r'.puts && Faithful(r, q) ==> Faithful(r', q);
    assert forall u, q :: u in r'.puts && q in r'.puts && Ordered(r, u, q) ==> Ordered(r', u, q);
  }

  /** Its caller is told once, and nobody is told again; the entry is as it was. */
  lemma {:induction false} GivenUpForGood<Id>(r: Room<Id>, t: nat, ok: bool, next: nat)
    requires Inv(r) && Enabled(r, GiveUp(t))
    ensures var r' := Step(r, GiveUp(t));
            && t in r'.puts && r'.puts[t].owner == Nobody && !Enabled(r', PutAnswered(t, ok, next)) && r'.heap == r.heap && r'.board == r.board
            && r'.puts[t].snapshot == r.puts[t].snapshot && r'.puts[t].effect == Pending
  {
  }

  lemma {:induction false} MarkSavedKeeps<Id>(r: Room<Id>, p: Put<Id>)
    requires Inv(r) && p.entry in r.heap
    requires r.board == Some(p.entry) && p.revision == r.heap[p.entry].revision ==> Settled(r)
    ensures Inv(MarkSaved(r, p))
  {
    var r' := MarkSaved(r, p);
    assert Settled(r) ==> Settled(r');
    assert forall q :: q in r.puts && Faithful(r, q) ==> Faithful(r', q);
    assert forall u, q :: u in r.puts && q in r.puts && Ordered(r, u, q) ==> Ordered(r', u, q);
  }

  /** The map lets go of an entry that is clean and unused. */
  lemma {:induction false} EvictKeeps<Id>(r: Room<Id>, e: Id)
    requires Inv(r) && e in r.heap && !r.heap[e].dirty && r.heap[e].clients == 0
    requires r.board.Some? ==> !r.heap[r.board.value].dirty && r.heap[r.board.value].clients == 0
    ensures Inv(Destroy(r, e).(board := None))
  {
  }

  lemma {:induction false} UncountKeeps<Id>(r: Room<Id>, c: Client)
    requires Inv(r) && exists e :: e in r.heap && c in r.heap[e].holders
    ensures r.board.Some? && c in r.heap[r.board.value].holders && Inv(Uncount(r, c))
  {
    var e :| e in r.heap && c in r.heap[e].holders;
    assert r.board == Some(e);
    var r1 := Uncount(r, c);
    assert Settled(r) ==> Settled(r1);
    assert forall q :: q in r.puts && Faithful(r, q) ==> Faithful(r1, q);
    assert forall u, q :: u in r.puts && q in r.puts && Ordered(r, u, q) ==> Ordered(r1, u, q);
  }

  lemma {:induction false} LeaveKeeps<Id>(r: Room<Id>, c: Client, next: nat)
    requires Inv(r) && Enabled(r, Leave(c, next))
    ensures Inv(LeaveStep(r, c, next))
  {
    UncountKeeps(r, c);
    var e, r1 := r.board.value, Uncount(r, c);
    if r1.heap[e].clients == 0 {
      if r1.heap[e].dirty { IssuePutKeeps(r1, Release, next); } else { EvictKeeps(r1, e); }
    }
  }

  // ---------- Where the code is safe, exactly ----------

  /** release deletes the session's key without asking whose entry it leads to.  This is the
      answer that makes it delete an entry loaded since, while that one is in use or unsaved. */
  ghost predicate Hijacks<Id>(r: Room<Id>, ev: Event<Id>)
    requires Linked(r) && Enabled(r, ev)
  {
    && ev.PutAnswered? && ev.ok
    && var p := r.puts[ev.ticket];
       && p.owner == Release
       && r.board.Some? && r.board.value != p.entry
       && var now := r.heap[r.board.value];
          now.dirty || now.clients > 0
  }

  /** A step keeps the invariant if, and only if, it is not such a deletion. */
  lemma {:induction false} StepKeepsInvExactly<Id>(r: Room<Id>, ev: Event<Id>)
    requires Inv(r) && Enabled(r, ev)
    ensures Inv(Step(r, ev)) <==> !Hijacks(r, ev)
  {
    match ev
    case Retain(c) => RetainKeeps(r, c);
    case StoreReads =>
      var r' := Step(r, ev);
      assert forall t :: t in r.puts && Faithful(r, t) ==> Faithful(r', t);
      assert forall t, q :: t in r.puts && q in r.puts && Ordered(r, t, q) ==> Ordered(r', t, q);
    case LoadDone(id) => LoadDoneKeeps(r, id);
    case LoadFails =>
      var r' := Step(r, ev);
      assert forall t :: t in r.puts && Faithful(r, t) ==> Faithful(r', t);
      assert forall t, q :: t in r.puts && q in r.puts && Ordered(r, t, q) ==> Ordered(r', t, q);
    case Leave(c, next) => LeaveKeeps(r, c, next);
    case Edit(u) => EditKeeps(r, u);
    case TimerFlush(next) => if Step(r, ev) != r { IssuePutKeeps(r, Timer, next); }
    case PutLands(t) => PutLandsKeeps(r, t);
    case PutDropped(t) => PutDroppedKeeps(r, t);
    case GiveUp(t) => GiveUpKeeps(r, t);
    case PutAnswered(t, ok, next) => AnsweredExactly(r, t, ok, next);
  }

  lemma {:induction false} AnsweredExactly<Id>(r: Room<Id>, t: nat, ok: bool, next: nat)
    requires Inv(r) && Enabled(r, PutAnswered(t, ok, next))
    ensures Inv(PutAnsweredStep(r, t, ok, next)) <==> !Hijacks(r, PutAnswered(t, ok, next))
  {
    var p, r1 := r.puts[t], r.(puts := r.puts - {t});
    ForgetKeeps(r, t);
    if ok {
      assert Faithful(r, t);
      MarkSavedKeeps(r1, p);
      var r2 := MarkSaved(r1, p);
      match p.owner
      case Release => ReleaseTailExactly(r2, p.entry, next);
      case Timer => TimerTailKeeps(r2, p.entry);
    }
  }

  lemma {:induction false} ReleaseTailExactly<Id>(r: Room<Id>, e: Id, next: nat)
    requires Inv(r) && e in r.heap && Unused(r, next)
    ensures Inv(ReleaseTail(r, e, next))
       <==> !(r.board.Some? && r.board.value != e
              && (r.heap[r.board.value].dirty || r.heap[r.board.value].clients > 0))
  {
    var x := r.heap[e];
    if x.clients == 0 {
      if x.dirty {
        IssuePutKeeps(r, Release, next);
      } else if r.board.Some? && r.board.value != e && (r.heap[r.board.value].dirty || r.heap[r.board.value].clients > 0) {
        assert r.board.value in ReleaseTail(r, e, next).heap;
      } else {
        EvictKeeps(r, e);
      }
    }
  }

  lemma {:induction false} TimerTailKeeps<Id>(r: Room<Id>, e: Id)
    requires Inv(r) && e in r.heap
    ensures Inv(TimerTail(r, e))
  {
    if !r.heap[e].dirty && r.heap[e].clients == 0 {
      if r.board == Some(e) {
        EvictKeeps(r, e);
      } else {
        var r' := Destroy(r, e);
        assert forall q :: q in r.puts && Faithful(r, q) ==> Faithful(r', q);
        assert forall u, q :: u in r.puts && q in r.puts && Ordered(r, u, q) ==> Ordered(r', u, q);
      }
    }
  }

  // ---------- Whole runs ----------

  ghost predicate Run<Id>(r: Room<Id>, evs: seq<Event<Id>>)
    decreases |evs|
  {
    evs == [] || (Linked(r) && Enabled(r, evs[0]) && Run(Step(r, evs[0]), evs[1..]))
  }

  ghost function Exec<Id>(r: Room<Id>, evs: seq<Event<Id>>): Room<Id>
    requires Run(r, evs)
    decreases |evs|
  {
    if evs == [] then r else Exec(Step(r, evs[0]), evs[1..])
  }

  /** No release resumes on an evicted entry while its successor is in use or unsaved. */
  ghost predicate NoHijack<Id>(r: Room<Id>, evs: seq<Event<Id>>)
    requires Run(r, evs)
    decreases |evs|
  {
    evs == [] || (!Hijacks(r, evs[0]) && NoHijack(Step(r, evs[0]), evs[1..]))
  }

  /** What the service owes its callers, in their terms. */
  ghost predicate Promise<Id>(r: Room<Id>) {
    // the document in memory has every accepted edit; without one, the snapshot has
    && (r.board.Some? ==> r.board.value in r.heap && r.heap[r.board.value].doc == r.accepted)
    && (r.board.None? ==> r.store == r.accepted)
    // an entry that counts as saved is saved
    && (r.board.Some? && !r.heap[r.board.value].dirty ==> r.store == r.accepted)
    // whoever holds an entry holds the one the map leads to, and it is alive
    && (forall e :: e in r.heap && r.heap[e].holders != {} ==> r.board == Some(e) && !r.heap[e].destroyed)
    // a destroyed document was saved and unused
    && (forall e :: e in r.heap && r.heap[e].destroyed ==> !r.heap[e].dirty && r.heap[e].clients == 0)
  }

  /** The promise itself survives a step if, and only if, it is not such a deletion of an entry
      that is in use or whose edits the store lacks: an unsaved entry that nobody uses may have
      been stored already. */
  lemma {:induction false} StepKeepsPromiseExactly<Id>(r: Room<Id>, ev: Event<Id>)
    requires Inv(r) && Enabled(r, ev)
    ensures Promise(Step(r, ev))
       <==> !(Hijacks(r, ev) && (r.heap[r.board.value].clients > 0 || r.store != r.accepted))
  {
    StepKeepsInvExactly(r, ev);
    hide PutsInLine, Complete;
    if Hijacks(r, ev) { HijackPromise(r, ev); } else { InvPromises(Step(r, ev)); }
  }

  lemma {:induction false} InvPromises<Id>(r: Room<Id>)
    requires Inv(r)
    ensures Promise(r)
  {
  }

  lemma {:induction false} HijackPromise<Id>(r: Room<Id>, ev: Event<Id>)
    requires Inv(r) && Enabled(r, ev) && Hijacks(r, ev)
    ensures Promise(Step(r, ev)) <==> r.heap[r.board.value].clients == 0 && r.store == r.accepted
  {
    var r' := Step(r, ev);
    assert r'.board.None? && r'.store == r.store && r'.accepted == r.accepted;
    assert r'.heap[r.board.value] == r.heap[r.board.value];
    assert r.heap[r.board.value].clients == |r.heap[r.board.value].holders|;
  }

  lemma {:induction false} RunKeepsInv<Id>(r: Room<Id>, evs: seq<Event<Id>>)
    requires Inv(r) && Run(r, evs) && NoHijack(r, evs)
    ensures Inv(Exec(r, evs))
    decreases |evs|
  {
    if evs != [] {
      StepKeepsInvExactly(r, evs[0]);
      RunKeepsInv(Step(r, evs[0]), evs[1..]);
    }
  }

  /** In every interleaving without that one deletion, no accepted edit is ever lost. */
  lemma {:induction false} EveryRunKeepsPromise<Id>(r: Room<Id>, evs: seq<Event<Id>>)
    requires Init(r) && Run(r, evs) && NoHijack(r, evs)
    ensures Promise(Exec(r, evs))
  {
    RunKeepsInv(r, evs);
  }

  /** A client keeps its entry, alive and reachable, until it leaves; edits only add to it. */
  lemma {:induction false} HolderKeepsDocument<Id>(r: Room<Id>, ev: Event<Id>, c: Client, e: Id)
    requires Inv(r) && Enabled(r, ev) && !Hijacks(r, ev)
    requires e in r.heap && c in r.heap[e].holders && !(ev.Leave? && ev.client == c)
    ensures var r' := Step(r, ev);
            && r'.board == Some(e) && e in r'.heap && c in r'.heap[e].holders
            && !r'.heap[e].destroyed && r.heap[e].doc <= r'.heap[e].doc
            && forall u :: u in EditStep(r', u).heap[e].doc
  {
    StepKeepsInvExactly(r, ev);
  }

  /** A last client that leaves a saved document evicts it; whoever joins next loads it whole. */
  lemma {:induction false} EvictThenReload<Id>(r: Room<Id>, c: Client, next: nat, d: Client, id: Id)
    requires Inv(r) && r.board.Some? && r.heap[r.board.value].holders == {c}
    requires !r.heap[r.board.value].dirty && Unused(r, next) && id !in r.heap
    ensures var evs := [Leave(c, next), Retain(d), StoreReads, LoadDone(id)];
            && Run(r, evs)
            && Exec(r, evs).board == Some(id) && id in Exec(r, evs).heap && r.board.value in Exec(r, evs).heap
            && Exec(r, evs).heap[id].doc == r.heap[r.board.value].doc
            && Exec(r, evs).heap[id].holders == {d}
            && Exec(r, evs).heap[r.board.value].destroyed
  {
    var evs := [Leave(c, next), Retain(d), StoreReads, LoadDone(id)];
    var r1 := Step(r, evs[0]);
    StepKeepsInvExactly(r, evs[0]);
    var r2 := Step(r1, evs[1]);
    var r3 := Step(r2, evs[2]);
    var r4 := Step(r3, evs[3]);
    assert evs[1..][1..][1..][1..] == [];
    assert Run(r4, []) && Exec(r4, []) == r4;
    assert evs[1..][1..][1..] == [LoadDone(id)] && evs[1..][1..] == [StoreReads, LoadDone(id)];
    assert Run(r3, evs[1..][1..][1..]) && Exec(r3, evs[1..][1..][1..]) == r4;
    assert Run(r2, evs[1..][1..]) && Exec(r2, evs[1..][1..]) == r4;
    assert Run(r1, evs[1..]) && Exec(r1, evs[1..]) == r4;
  }

  // ---------- Who is in the room, by the events alone ----------

  /** Who has joined and not left; a failed load sends everyone away. */
  ghost function JoinedAfter<Id>(joined: set<Client>, evs: seq<Event<Id>>): set<Client>
    decreases |evs|
  {
    if evs == [] then joined
    else
      JoinedAfter(
        match evs[0]
        case Retain(c) => joined + {c}
        case Leave(c, _) => joined - {c}
        case LoadFails => {}
        case _ => joined,
        evs[1..])
  }

  /** Exactly these clients are counted: by the entry in the map, or as waiting for the load. */
  ghost predicate Counts<Id>(r: Room<Id>, joined: set<Client>) {
    if r.board.Some? then
      && r.board.value in r.heap
      && r.heap[r.board.value].holders == joined && r.heap[r.board.value].clients == |joined|
    else if r.loading.Some? then r.loading.value.waiters == joined
    else joined == {}
  }

  /** Joining a loaded board counts the client in; otherwise it waits with those before it. */
  lemma {:induction false} RetainCounts<Id>(r: Room<Id>, c: Client)
    requires Inv(r) && Enabled(r, Retain(c))
    ensures var r' := Step(r, Retain(c));
            if r.board.Some? then
              && r'.board == r.board && r.board.value in r'.heap
              && r'.heap[r.board.value].clients == r.heap[r.board.value].clients + 1
              && r'.heap[r.board.value].holders == r.heap[r.board.value].holders + {c}
            else
              && r'.board == None && r'.loading.Some? && c in r'.loading.value.waiters
              && r'.loading.value.waiters == (if r.loading.Some? then r.loading.value.waiters else {}) + {c}
  {
  }

  lemma {:induction false} StepCounts<Id>(r: Room<Id>, ev: Event<Id>, joined: set<Client>)
    requires Inv(r) && Enabled(r, ev) && !Hijacks(r, ev) && Counts(r, joined)
    ensures Counts(Step(r, ev), JoinedAfter(joined, [ev]))
  {
    StepKeepsInvExactly(r, ev);
    assert [ev][1..] == [];
    match ev
    case Retain(c) => RetainCounts(r, c);
    case Leave(c, next) => UncountKeeps(r, c);
    case PutAnswered(t, ok, next) => AnsweredCounts(r, t, ok, next, joined);
    case _ =>
  }

  /** An answer evicts only an entry that nobody holds. */
  lemma {:induction false} AnsweredCounts<Id>(r: Room<Id>, t: nat, ok: bool, next: nat, joined: set<Client>)
    requires Inv(r) && Enabled(r, PutAnswered(t, ok, next)) && !Hijacks(r, PutAnswered(t, ok, next)) && Counts(r, joined)
    ensures Counts(PutAnsweredStep(r, t, ok, next), joined)
  {
    hide PutsInLine, Complete;
    assert forall e :: e in r.heap ==> r.heap[e].clients == |r.heap[e].holders|;
  }

  lemma {:induction false} RunCounts<Id>(r: Room<Id>, evs: seq<Event<Id>>, joined: set<Client>)
    requires Inv(r) && Counts(r, joined) && Run(r, evs) && NoHijack(r, evs)
    ensures Counts(Exec(r, evs), JoinedAfter(joined, evs))
    decreases |evs|
  {
    hide Inv, Counts, Step, Enabled, Hijacks;
    if evs != [] {
      StepCounts(r, evs[0], joined);
      StepKeepsInvExactly(r, evs[0]);
      JoinedNext(joined, evs);
      RunCounts(Step(r, evs[0]), evs[1..], JoinedAfter(joined, [evs[0]]));
    }
  }

  lemma {:induction false} JoinedNext<Id>(joined: set<Client>, evs: seq<Event<Id>>)
    requires evs != []
    ensures JoinedAfter(joined, evs) == JoinedAfter(JoinedAfter(joined, [evs[0]]), evs[1..])
  {
    assert [evs[0]][1..] == [];
  }

  /** In every run without that deletion the clients counted are exactly those who have joined and
      not left, they hold the entry the map leads to, and none of them is refused. */
  lemma {:induction false} EveryRunCounts<Id>(r: Room<Id>, evs: seq<Event<Id>>)
    requires Init(r) && Run(r, evs) && NoHijack(r, evs)
    ensures var r', joined := Exec(r, evs), JoinedAfter({}, evs);
            && Counts(r', joined)
            && (joined != {} && r'.loading.None? ==>
                 && r'.board.Some? && r'.board.value in r'.heap && !r'.heap[r'.board.value].destroyed
                 && r'.heap[r'.board.value].holders == joined)
  {
    RunKeepsInv(r, evs);
    RunCounts(r, evs, {});
  }

  // ---------- No edit is lost ----------

  lemma {:induction false} RunSplits<Id>(r: Room<Id>, a: seq<Event<Id>>, b: seq<Event<Id>>)
    requires Run(r, a + b) && NoHijack(r, a + b)
    ensures Run(r, a) && NoHijack(r, a) && Run(Exec(r, a), b) && NoHijack(Exec(r, a), b)
    ensures Exec(r, a + b) == Exec(Exec(r, a), b)
    decreases |a|
  {
    hide Step, Enabled, Hijacks, Linked;
    if a == [] {
      assert a + b == b;
    } else {
      assert (a + b)[0] == a[0] && (a + b)[1..] == a[1..] + b;
      RunSplits(Step(r, a[0]), a[1..], b);
    }
  }

  lemma {:induction false} AcceptedGrows<Id>(r: Room<Id>, evs: seq<Event<Id>>)
    requires Run(r, evs)
    ensures r.accepted <= Exec(r, evs).accepted
    decreases |evs|
  {
    if evs != [] { AcceptedGrows(Step(r, evs[0]), evs[1..]); }
  }

  /** An edit made while someone is in the loaded room is in the document or, once that has gone, in
      the snapshot, whatever happens afterwards. */
  lemma {:induction false} NoEditIsLost<Id>(r: Room<Id>, before: seq<Event<Id>>, u: Update, after: seq<Event<Id>>)
    requires Init(r) && Run(r, before + ([Edit(u)] + after)) && NoHijack(r, before + ([Edit(u)] + after))
    requires Run(r, before) ==> Exec(r, before).loading.None?
    requires JoinedAfter({}, before) != {}
    ensures var r' := Exec(r, before + ([Edit(u)] + after));
            if r'.board.Some? then r'.board.value in r'.heap && u in r'.heap[r'.board.value].doc else u in r'.store
  {
    hide Step, Enabled, Hijacks, Linked, Init, Counts;
    RunSplits(r, before, [Edit(u)] + after);
    var m := Exec(r, before);
    EveryRunCounts(r, before);
    assert ([Edit(u)] + after)[0] == Edit(u) && ([Edit(u)] + after)[1..] == after;
    var m' := Step(m, Edit(u));
    assert u in m'.accepted by { EditIsAccepted(m, u); }
    AcceptedGrows(m', after);
    EveryRunKeepsPromise(r, before + ([Edit(u)] + after));
  }

  lemma {:induction false} EditIsAccepted<Id>(r: Room<Id>, u: Update)
    requires Linked(r) && r.board.Some?
    ensures u in Step(r, Edit(u)).accepted
  {
  }

  // ---------- A tick saves ----------

  /** With no other write under way, one tick whose write succeeds leaves the entry clean and
      stored whole, and evicts it if nobody holds it. */
  lemma {:induction false} TickSaves<Id>(r: Room<Id>, n: nat, m: nat)
    requires Inv(r) && r.puts == map[] && r.board.Some? && r.heap[r.board.value].dirty && n < m
    ensures var evs := [TimerFlush(n), PutLands(n), PutAnswered(n, true, m)];
            && Run(r, evs)
            && var r', e := Exec(r, evs), r.board.value;
               && r'.store == r.accepted && r'.accepted == r.accepted && r'.puts == map[]
               && e in r'.heap && !r'.heap[e].dirty && r'.heap[e].doc == r.heap[e].doc
               && (if r.heap[e].clients > 0 then r'.board == Some(e) && !r'.heap[e].destroyed
                   else r'.board == None && r'.heap[e].destroyed)
  {
    var evs := [TimerFlush(n), PutLands(n), PutAnswered(n, true, m)];
    var r1 := Step(r, evs[0]);
    StepKeepsInvExactly(r, evs[0]);
    var r2 := Step(r1, evs[1]);
    StepKeepsInvExactly(r1, evs[1]);
    var r3 := Step(r2, evs[2]);
    assert evs[1..][1..][1..] == [] && evs[1..][1..] == [PutAnswered(n, true, m)] && evs[1..][0] == PutLands(n);
    assert r3.puts == map[];
    assert Run(r3, []) && Exec(r3, []) == r3;
    assert Run(r2, evs[1..][1..]) && Exec(r2, evs[1..][1..]) == r3;
    assert Run(r1, evs[1..]) && Exec(r1, evs[1..]) == r3;
  }

  // ---------- The exception is real ----------

  /** A tick and the last leave each flush entry 0; the tick's answer evicts it, client 2 loads
      entry 1 and edits it, then the answer to the leave deletes entry 1 from the map. */
  const HIJACK: seq<Event<nat>> :=
    [Retain(1), StoreReads, LoadDone(0), Edit(7), TimerFlush(0), Leave(1, 1), PutLands(0), PutLands(1),
     PutAnswered(0, true, 2), Retain(2), StoreReads, LoadDone(1), Edit(8), PutAnswered(1, true, 2)]

  function EmptyRoom(): Room<nat> {
    Room(None, None, map[], map[], {}, {})
  }

  /** The rooms that HIJACK passes through. */
  ghost function Rooms(n: nat): Room<nat> {
    var e0 := Entry({7}, true, 0, 1, false, {});
    var p0 := map[0 := Put<nat>.Put(0, 1, {7}, Timer, Pending)];
    var p1 := p0[1 := Put(0, 1, {7}, Release, Pending)];
    var landed := p1[0 := p1[0].(effect := Applied)];
    var both := landed[1 := landed[1].(effect := Applied)];
    var gone := map[0 := e0.(dirty := false, destroyed := true)];
    var rest := map[1 := both[1]];
    if n == 0 then EmptyRoom()
    else if n == 1 then Room(None, Some(Load({1}, None)), map[], map[], {}, {})
    else if n == 2 then Room(None, Some(Load({1}, Some({}))), map[], map[], {}, {})
    else if n == 3 then Room(Some(0), None, map[0 := Entry({}, false, 1, 0, false, {1})], map[], {}, {})
    else if n == 4 then Room(Some(0), None, map[0 := Entry({7}, true, 1, 1, false, {1})], map[], {}, {7})
    else if n == 5 then Room(Some(0), None, map[0 := Entry({7}, true, 1, 1, false, {1})], p0, {}, {7})
    else if n == 6 then Room(Some(0), None, map[0 := e0], p1, {}, {7})
    else if n == 7 then Room(Some(0), None, map[0 := e0], landed, {7}, {7})
    else if n == 8 then Room(Some(0), None, map[0 := e0], both, {7}, {7})
    else if n == 9 then Room(None, None, gone, rest, {7}, {7})
    else if n == 10 then Room(None, Some(Load({2}, None)), gone, rest, {7}, {7})
    else if n == 11 then Room(None, Some(Load({2}, Some({7}))), gone, rest, {7}, {7})
    else if n == 12 then Room(Some(1), None, gone[1 := Entry({7}, false, 1, 0, false, {2})], rest, {7}, {7})
    else if n == 13 then Room(Some(1), None, gone[1 := Entry({7, 8}, true, 1, 1, false, {2})], rest, {7}, {7, 8})
    else Room(None, None, gone[1 := Entry({7, 8}, true, 1, 1, false, {2})], map[], {7}, {7, 8})
  }

  lemma {:induction false} HijackLeave()
    ensures Linked(Rooms(5)) && Enabled(Rooms(5), HIJACK[5]) && Step(Rooms(5), HIJACK[5]) == Rooms(6)
  {
    var r := Rooms(5);
    assert 1 in r.heap[0].holders && r.heap[0].holders - {1} == {};
    assert LeaveStep(r, 1, 1).heap == Rooms(6).heap && LeaveStep(r, 1, 1).puts == Rooms(6).puts;
  }

  lemma {:induction false} HijackEdit()
    ensures Linked(Rooms(12)) && Step(Rooms(12), HIJACK[12]) == Rooms(13)
  {
    assert {7} + {8} == {7, 8};
    assert EditStep(Rooms(12), 8).heap == Rooms(13).heap;
  }

  lemma {:induction false} HijackStep(n: nat)
    requires n < |HIJACK|
    ensures Linked(Rooms(n)) && Enabled(Rooms(n), HIJACK[n]) && Step(Rooms(n), HIJACK[n]) == Rooms(n + 1)
  {
    if n == 5 {
      HijackLeave();
    } else if n == 12 {
      HijackEdit();
    } else if n < 5 {
      HijackOpens(n);
    } else {
      HijackCloses(n);
    }
  }

  lemma {:induction false} HijackOpens(n: nat)
    requires n < 5
    ensures Linked(Rooms(n)) && Enabled(Rooms(n), HIJACK[n]) && Step(Rooms(n), HIJACK[n]) == Rooms(n + 1)
  {
    var edited: Doc := {};
    assert edited + {7} == {7};
  }

  lemma {:induction false} HijackCloses(n: nat)
    requires 5 < n < |HIJACK| && n != 12
    ensures Linked(Rooms(n)) && Enabled(Rooms(n), HIJACK[n]) && Step(Rooms(n), HIJACK[n]) == Rooms(n + 1)
  {
  }

  lemma {:induction false} HijackRun(n: nat)
    requires n <= |HIJACK|
    ensures Run(Rooms(n), HIJACK[n..]) && Exec(Rooms(n), HIJACK[n..]) == Rooms(|HIJACK|)
    decreases |HIJACK| - n
  {
    if n < |HIJACK| {
      HijackStep(n);
      HijackRun(n + 1);
      assert HIJACK[n..][0] == HIJACK[n] && HIJACK[n..][1..] == HIJACK[n + 1..];
    }
  }

  /** Without NoHijack the promise fails: edit 8 is in no snapshot and no map, and the client
      that made it is refused from now on. */
  lemma {:induction false} HijackLosesAnEdit()
    ensures Init(EmptyRoom()) && Run(EmptyRoom(), HIJACK)
    ensures var r := Exec(EmptyRoom(), HIJACK);
            && !Promise(r) && 8 in r.accepted && 8 !in r.store && r.board == None && r.puts == map[]
            && 1 in r.heap && r.heap[1].holders == {2} && Linked(r)
            && forall u :: EditStep(r, u) == r
  {
    HijackRun(0);
    assert HIJACK[0..] == HIJACK;
    LostRoom(Exec(EmptyRoom(), HIJACK));
  }

  lemma {:induction false} LostRoom(r: Room<nat>)
    requires r == Rooms(14)
    ensures !Promise(r) && 8 in r.accepted && 8 !in r.store && r.board == None && r.puts == map[]
    ensures 1 in r.heap && r.heap[1].holders == {2} && Linked(r)
    ensures forall u :: EditStep(r, u) == r
  {
    assert 2 in r.heap[1].holders;
  }
}
