/** The service that keeps the shared code documents: every document in memory, every write in
    flight and every snapshot in the store is one the validator accepts. */
module CodeService {
  import opened Wrappers
  import opened CodePath
  import opened CodeDoc
  import opened CodeSafety

  type Doc = seq<Named>

  // ---------- Snapshots ----------

  /** What a snapshot decodes to: the same roots, none of them typed yet. */
  function Decoded(d: Doc): Doc {
    if d == [] then []
    else
      var n := d[|d| - 1];
      Decoded(d[..|d| - 1]) + [match n.root
        case Text(t) => n.(root := Abstract(t, []))
        case Map(es) => n.(root := Abstract("", es))
        case _ => n]
  }

  /** A document as the service keeps it. */
  ghost predicate Good(d: Doc) {
    WellFormed(d) && TypedAll(d) == Some(d) && Accepted(d)
  }

  lemma {:induction false} DecodedOne(n: Named)
    requires RootOk(n) && UniqueKeys(EntriesOf(n.root))
    ensures var m := Decoded([n])[0]; m.name == n.name && UniqueKeys(EntriesOf(m.root)) && Typed(m) == Some(n)
  {
    hide MetaEntryOk, FlagOk, Allowed, MetaBytes, Utf8Bytes, UniqueKeys;
    assert [n][..0] == [];
  }

  lemma {:induction false} TypedAgain(d: Doc)
    requires WellFormed(d) && forall n :: n in d ==> RootOk(n)
    ensures WellFormed(Decoded(d)) && TypedAll(Decoded(d)) == Some(d)
    ensures Names(Decoded(d)) == Names(d)
  {
    if d != [] {
      var k := |d| - 1;
      NamesInit(d);
      assert d == d[..k] + [d[k]] && d[k] in d;
      assert forall n :: n in d[..k] ==> n in d;
      DecodedOne(d[k]);
      var init, last := Decoded(d[..k]), Decoded([d[k]])[0];
      assert Decoded(d) == init + [last] by { assert [d[k]][..0] == []; }
      hide UniqueNames, UniqueKeys, EntriesOf, RootOk, Decoded, Typed, Names;
      TypedAgain(d[..k]);
      NamesAppend(init, last);
      assert (init + [last])[..|init|] == init;
      TypedAppend(init, last);
    }
  }

  lemma {:induction false} TypedAppend(d: Doc, n: Named)
    requires TypedAll(d).Some? && Typed(n).Some?
    ensures TypedAll(d + [n]) == Some(TypedAll(d).value + [Typed(n).value])
  {
    assert (d + [n])[..|d|] == d;
  }

  ghost predicate AllTyped(d: Doc) {
    forall n :: n in d ==> Typed(n) == Some(n)
  }

  lemma {:induction false} AllTypedExactly(d: Doc)
    ensures AllTyped(d) ==> TypedAll(d) == Some(d)
    ensures TypedAll(d).Some? ==> AllTyped(TypedAll(d).value)
  {
    if d != [] {
      var k := |d| - 1;
      assert d == d[..k] + [d[k]] && d[k] in d;
      AllTypedExactly(d[..k]);
      TypedIsTyped(d[k]);
      hide Typed;
    }
  }

  lemma {:induction false} TypedIsTyped(n: Named)
    ensures Typed(n).Some? ==> Typed(Typed(n).value) == Typed(n)
  {
  }

  lemma {:induction false} SubstanceIsPart(d: Doc)
    ensures forall n :: n in Substance(d) <==> n in d && n.root != Text("")
  {
    if d != [] {
      var k := |d| - 1;
      assert d == d[..k] + [d[k]];
      SubstanceIsPart(d[..k]);
    }
  }

  /** Sanitizing a kept document gives one to keep. */
  lemma {:induction false} SanitizedIsGood(d: Doc)
    requires Good(d)
    ensures Sanitize(d, true) == Some((Substance(d), true)) && Good(Substance(d))
  {
    hide Substance, Sanitize, Clean, FileCount, TotalBytes, TypedAll, WellFormed, Allowed, Utf8Bytes, MetaEntryOk, FlagOk;
    PassingDocumentsAreKept(d);
    Sanitized(d);
    CleanIsTyped(Substance(d));
    SubstanceIsPart(d);
    forall n | n in Substance(d) && n.name == INITIALIZED ensures |EntriesOf(n.root)| <= MAX_FILES {
      assert RootOk(n);
    }
    CleanPassesExactly(Substance(d));
  }

  lemma {:induction false} ReloadedIsGood(d: Doc)
    requires Good(d)
    ensures Sanitize(Decoded(d), true) == Some((Substance(d), true)) && Good(Substance(d))
  {
    TypedAgain(d);
    SanitizedIsGood(d);
  }

  // ---------- Seeding a file ----------

  /** The file:initialized map has this path. */
  predicate Seeded(d: Doc, path: string) {
    exists n :: n in d && n.name == INITIALIZED && n.root.Map? && Entry(path, True) in n.root.entries
  }

  function RootIndex(d: Doc, name: string): (i: int)
    ensures -1 <= i < |d| && (i >= 0 ==> d[i].name == name)
  {
    if d == [] then -1
    else if d[|d| - 1].name == name then |d| - 1
    else RootIndex(d[..|d| - 1], name)
  }

  lemma {:induction false} RootIndexFinds(d: Doc, name: string)
    ensures RootIndex(d, name) == -1 <==> forall n :: n in d ==> n.name != name
  {
    if d != [] {
      var k := |d| - 1;
      assert d == d[..k] + [d[k]];
      RootIndexFinds(d[..k], name);
    }
  }

  /** The root of this name set to a value; a root that was missing comes last. */
  function Put(d: Doc, name: string, root: Root): Doc {
    var i := RootIndex(d, name);
    if i >= 0 then d[i := Named(name, root)] else d + [Named(name, root)]
  }

  function RootAt(d: Doc, name: string, empty: Root): Root {
    var i := RootIndex(d, name);
    if i >= 0 then d[i].root else empty
  }

  /** The candidate that seeding builds: the text, if the file is empty, and the mark. */
  function SeedOf(d: Doc, path: string, content: string): Doc {
    var text, flags := RootAt(d, "file:" + path, Text("")), RootAt(d, INITIALIZED, Map([]));
    if !text.Text? || !flags.Map? then d else
    Put(Put(d, "file:" + path, Text(if text.text == "" then content else text.text)),
        INITIALIZED, Map(flags.entries + [Entry(path, True)]))
  }

  lemma {:induction false} PutKeeps(d: Doc, name: string, root: Root)
    requires WellFormed(d) && AllTyped(d) && UniqueKeys(EntriesOf(root))
    requires Typed(Named(name, root)) == Some(Named(name, root))
    ensures var r := Put(d, name, root);
            && WellFormed(r) && AllTyped(r) && Named(name, root) in r
            && (forall n :: n in d && n.name != name ==> n in r)
            && (forall n :: n in r && n.name != name ==> n in d)
  {
    hide Typed;
    var i, r := RootIndex(d, name), Put(d, name, root);
    RootIndexFinds(d, name);
    if i < 0 {
      assert name !in Names(d);
      NamesAppend(d, Named(name, root));
    } else {
      assert r[i] == Named(name, root);
      forall n | n in d && n.name != name ensures n in r {
        var j :| 0 <= j < |d| && d[j] == n;
        assert r[j] == n;
      }
    }
  }

  lemma {:induction false} RootAtTyped(d: Doc, name: string, empty: Root)
    requires WellFormed(d) && AllTyped(d) && Typed(Named(name, empty)) == Some(Named(name, empty))
    requires UniqueKeys(EntriesOf(empty))
    ensures var r := RootAt(d, name, empty);
            && Typed(Named(name, r)) == Some(Named(name, r)) && UniqueKeys(EntriesOf(r))
            && (r != empty ==> Named(name, r) in d) && (forall n :: n in d && n.name == name ==> n.root == r)
  {
    hide Typed;
    var i := RootIndex(d, name);
    RootIndexFinds(d, name);
    if i >= 0 {
      assert d[i] in d && d[i] == Named(name, d[i].root);
    }
  }

  /** The text of a file that the document holds, or nothing. */
  ghost predicate HasText(d: Doc, path: string, text: string) {
    if text == "" then forall n :: n in d && n.name == "file:" + path ==> n.root == Text("")
    else Named("file:" + path, Text(text)) in d
  }

  /** One document is the other with this file seeded: the file has its old text or, if it had none,
      the new one; its path is marked, the other marks stay, and so does every other root. */
  ghost predicate Seeds(d: Doc, r: Doc, path: string, content: string) {
    && (forall n :: n in r && n.name != "file:" + path && n.name != INITIALIZED ==> n in d)
    && (forall n :: n in d && n.name != "file:" + path && n.name != INITIALIZED ==> n in r)
    && (forall text :: HasText(d, path, text) && text != "" ==> HasText(r, path, text))
    && (HasText(d, path, "") ==> Named("file:" + path, Text(content)) in r)
    && (exists n :: n in r && MarksOf(d, n, path))
  }

  /** The marks of the document and this path's. */
  ghost predicate MarksOf(d: Doc, n: Named, path: string) {
    && n.name == INITIALIZED && n.root.Map? && Entry(path, True) in n.root.entries
    && (forall m, e :: m in d && m.name == INITIALIZED && e in EntriesOf(m.root) ==> e in n.root.entries)
    && (forall e :: e in n.root.entries && e != Entry(path, True) ==> exists m :: m in d && m.name == INITIALIZED && e in EntriesOf(m.root))
  }

  /** Seeding gives a well-formed document that is the old one with the file seeded. */
  lemma {:induction false} SeedKeepsTexts(d: Doc, path: string, content: string)
    requires Good(d) && !Seeded(d, path) && path != "initialized"
    ensures var r := SeedOf(d, path, content);
            && WellFormed(r) && TypedAll(r) == Some(r) && Seeded(r, path) && Seeds(d, r, path, content)
  {
    hide Accepted, UniqueNames, Seeds, MarksOf, HasText;
    AllTypedExactly(d);
    var file := "file:" + path;
    assert file[5..] == path && file != INITIALIZED && IsFileName(file) && !IsMapName(file);
    RootAtTyped(d, file, Text(""));
    RootAtTyped(d, INITIALIZED, Map([]));
    var text, flags := RootAt(d, file, Text("")), RootAt(d, INITIALIZED, Map([]));
    FlagsStayUnique(d, path, flags);
    var seeded, marks := Text(if text.text == "" then content else text.text), Map(flags.entries + [Entry(path, True)]);
    var mid := Put(d, file, seeded);
    PutKeeps(d, file, seeded);
    PutKeeps(mid, INITIALIZED, marks);
    var r := SeedOf(d, path, content);
    assert r == Put(mid, INITIALIZED, marks);
    AllTypedExactly(r);
    assert Entry(path, True) in marks.entries;
    hide Put, RootAt, SeedOf, Typed, TypedAll;
    SeedsWhole(d, r, path, content, text.text, flags.entries);
  }

  lemma {:induction false} SeedsWhole(d: Doc, r: Doc, path: string, content: string, text: string, flags: seq<Entry>)
    requires var file := "file:" + path;
             && file != INITIALIZED && Named(file, Text(if text == "" then content else text)) in r
             && Named(INITIALIZED, Map(flags + [Entry(path, True)])) in r
             && (forall n :: n in r && n.name != file && n.name != INITIALIZED ==> n in d)
             && (forall n :: n in d && n.name != file && n.name != INITIALIZED ==> n in r)
             && (forall n :: n in d && n.name == file ==> n.root == Text(text))
             && (text != "" ==> Named(file, Text(text)) in d)
             && (forall n :: n in d && n.name == INITIALIZED ==> n.root == Map(flags))
             && (flags != [] ==> Named(INITIALIZED, Map(flags)) in d)
    ensures Seeds(d, r, path, content)
  {
    var marks := Named(INITIALIZED, Map(flags + [Entry(path, True)]));
    assert MarksOf(d, marks, path) by {
      if flags != [] { assert Named(INITIALIZED, Map(flags)) in d && EntriesOf(Map(flags)) == flags; }
    }
  }

  lemma {:induction false} FlagsStayUnique(d: Doc, path: string, flags: Root)
    requires Good(d) && !Seeded(d, path)
    requires flags.Map? && UniqueKeys(flags.entries) && (flags != Map([]) ==> Named(INITIALIZED, flags) in d)
    ensures UniqueKeys(flags.entries + [Entry(path, True)])
  {
    hide Allowed, WellFormed, TypedAll;
    forall e | e in flags.entries ensures e.key != path {
      assert flags != Map([]);
      assert RootOk(Named(INITIALIZED, flags));
      assert FlagOk(e) && e == Entry(e.key, True);
    }
    KeysAppend(flags.entries, Entry(path, True));
  }

  // ---------- The service ----------

  class CodeDocService {
    var docs: map<string, Doc>
    var loading: map<string, Doc>   // snapshots that pending loads have read
    var dirty: set<string>
    var flights: seq<(string, Doc)>
    var store: map<string, Doc>

    ghost predicate Valid()
      reads this
    {
      && (forall s :: s in docs ==> Good(docs[s]))
      && (forall s :: s in loading ==> Good(loading[s]))
      && (forall k :: 0 <= k < |flights| ==> Good(flights[k].1))
      && (forall s :: s in store ==> Good(store[s]))
    }

    constructor ()
      ensures Valid() && docs == map[] && store == map[]
    {
      docs, loading, dirty, flights, store := map[], map[], {}, [], map[];
    }

    /** A pending load reads the snapshot, if there is one. */
    method StoreReads(s: string)
      requires Valid()
      modifies this`loading
      ensures Valid() && loading == old(loading)[s := if s in store then store[s] else []]
    {
      hide Good;
      EmptyIsGood();
      loading := loading[s := if s in store then store[s] else []];
    }

    /** The load completes: what was read is decoded and sanitized. */
    method Load(s: string)
      requires Valid() && s in loading
      modifies this
      ensures Valid() && store == old(store) && flights == old(flights) && loading == old(loading) - {s}
      ensures docs == old(docs)[s := Substance(old(loading)[s])] && dirty == old(dirty) + {s}
    {
      hide Good;
      ReloadedIsGood(loading[s]);
      var r := SanitizeProtectedBuffers(Decoded(loading[s]), true);
      docs := docs[s := r.value.0];
      loading := loading - {s};
      dirty := dirty + {s};
    }

    /** An update makes a candidate of the document; it is taken only if the candidate passes. */
    method ApplyUpdate(s: string, merge: Doc -> Doc, fits: bool) returns (ok: bool)
      requires Valid() && (s in docs ==> WellFormed(merge(docs[s])))
      modifies this
      ensures Valid() && store == old(store) && flights == old(flights) && loading == old(loading)
      ensures dirty == if ok then old(dirty) + {s} else old(dirty)
      ensures ok <==> s in old(docs) && fits && TypedAll(merge(old(docs)[s])).Some? && Accepted(TypedAll(merge(old(docs)[s])).value)
      ensures !ok ==> docs == old(docs)
      ensures ok ==> docs == old(docs)[s := TypedAll(merge(old(docs)[s])).value]
    {
      hide WellFormed, Accepted, TypedAll;
      if s !in docs { return false; }
      var candidate := TypedAll(merge(docs[s]));
      if candidate.None? { return false; }
      var passes := Validate(candidate.value);
      if !passes || !fits { return false; }
      TypedKeeps(merge(docs[s]));
      AllTypedExactly(merge(docs[s]));
      AllTypedExactly(candidate.value);
      docs := docs[s := candidate.value];
      dirty := dirty + {s};
      return true;
    }

    /** Put a file's first content into the document, once. */
    method SeedFileContent(s: string, path: string, content: string, fits: bool) returns (ok: bool)
      requires Valid()
      modifies this
      ensures Valid()
      ensures !ok ==> docs == old(docs)
      ensures ok ==> s in old(docs) && docs.Keys == old(docs).Keys && Allowed(path) && Utf8Bytes(content) <= 1_048_576
      ensures ok ==> !Seeded(old(docs)[s], path) && Seeds(old(docs)[s], docs[s], path, content)
      ensures ok ==> forall k :: k in docs && k != s ==> docs[k] == old(docs)[k]
      ensures ok <== (s in old(docs) && Allowed(path) && Utf8Bytes(content) <= 1_048_576 && path != "initialized" && fits
                      && !Seeded(old(docs)[s], path) && Accepted(SeedOf(old(docs)[s], path, content)))
    {
      hide Accepted, WellFormed, Allowed, TypedAll, Seeds;
      if s !in docs { return false; }
      if !Allowed(path) || Utf8Bytes(content) > MAX_FILE_BYTES { return false; }
      if Seeded(docs[s], path) { return false; }
      if path == "initialized" { return false; }  // its root is the map of marks, and getText throws
      SeedKeepsTexts(docs[s], path, content);
      ok := ApplyUpdate(s, d => SeedOf(d, path, content), fits);
    }

    /** The last client leaves: the document is sanitized and its write is issued. */
    method ReleaseLast(s: string)
      requires Valid() && s in docs
      modifies this
      ensures Valid() && store == old(store) && loading == old(loading) && dirty == old(dirty) + {s}
      ensures docs == old(docs)[s := Substance(old(docs)[s])]
      ensures flights == old(flights) + [(s, Substance(old(docs)[s]))]
    {
      hide Good;
      SanitizedIsGood(docs[s]);
      var r := SanitizeProtectedBuffers(docs[s], true);
      docs := docs[s := r.value.0];
      dirty := dirty + {s};
      Flush(s);
    }

    /** A write is issued with the document as it is now. */
    method Flush(s: string)
      requires Valid() && s in docs
      modifies this`flights
      ensures Valid() && flights == old(flights) + [(s, docs[s])] && dirty == old(dirty)
    {
      hide Good;
      flights := flights + [(s, docs[s])];
    }

    /** A write in flight ends, in the store or nowhere; the entry counts as saved if it landed. */
    method WriteEnds(k: nat, landed: bool)
      requires Valid() && k < |flights|
      modifies this
      ensures Valid() && docs == old(docs) && loading == old(loading)
      ensures dirty == if landed then old(dirty) - {old(flights)[k].0} else old(dirty)
      ensures store == if landed then old(store)[old(flights)[k].0 := old(flights)[k].1] else old(store)
      ensures flights == old(flights)[..k] + old(flights)[k + 1..]
    {
      hide Good;
      var (s, snapshot) := flights[k];
      if landed {
        store := store[s := snapshot];
        dirty := dirty - {s};
      }
      flights := flights[..k] + flights[k + 1..];
    }

    /** The emptied room's document is destroyed. */
    method Evict(s: string)
      requires Valid()
      modifies this
      ensures Valid() && docs == old(docs) - {s} && store == old(store) && flights == old(flights)
      ensures loading == old(loading) && dirty == old(dirty) - {s}
    {
      hide Good;
      docs := docs - {s};
      dirty := dirty - {s};
    }
  }

  lemma {:induction false} EmptyIsGood()
    ensures Good([])
  {
  }
}
