/** The sanitizer and the validator were written apart; this is how they agree. */
module CodeSafety {
  import opened Wrappers
  import opened CodePath
  import opened CodeDoc

  /** A root as the sanitizer leaves it. */
  ghost predicate Clean(n: Named) {
    if n.name == META then n.root.Map? && forall e :: e in n.root.entries ==> MetaEntryOk(e)
    else if n.name == INITIALIZED then n.root.Map? && forall e :: e in n.root.entries ==> FlagOk(e)
    else
      && IsFileName(n.name) && Allowed(PathOf(n.name)) && n.root.Text?
      && n.root.text != "" && Utf8Bytes(n.root.text) <= MAX_FILE_BYTES
  }

  // ---------- Unique names and keys ----------

  ghost function Names(d: seq<Named>): set<string> {
    set n | n in d :: n.name
  }

  lemma {:induction false} NamesInit(d: seq<Named>)
    requires d != [] && UniqueNames(d)
    ensures UniqueNames(d[..|d| - 1]) && d[|d| - 1].name !in Names(d[..|d| - 1])
    ensures Names(d) == Names(d[..|d| - 1]) + {d[|d| - 1].name}
  {
    assert d == d[..|d| - 1] + [d[|d| - 1]];
  }

  lemma {:induction false} NamesAppend(d: seq<Named>, n: Named)
    requires UniqueNames(d) && n.name !in Names(d)
    ensures UniqueNames(d + [n]) && Names(d + [n]) == Names(d) + {n.name}
  {
    forall i | 0 <= i < |d| ensures d[i].name != n.name {
      assert d[i] in d;
    }
  }

  lemma {:induction false} KeysInit(es: seq<Entry>)
    requires es != [] && UniqueKeys(es)
    ensures UniqueKeys(es[..|es| - 1]) && forall e :: e in es[..|es| - 1] ==> e.key != es[|es| - 1].key
  {
  }

  lemma {:induction false} KeysAppend(es: seq<Entry>, e: Entry)
    requires UniqueKeys(es) && forall x :: x in es ==> x.key != e.key
    ensures UniqueKeys(es + [e])
  {
  }

  lemma {:induction false} Kept(es: seq<Entry>, keep: Entry -> bool)
    ensures forall e :: e in Keep(es, keep) <==> e in es && keep(e)
    ensures (forall e :: e in es ==> keep(e)) ==> Keep(es, keep) == es
  {
    if es != [] {
      var k := |es| - 1;
      Kept(es[..k], keep);
      assert es == es[..k] + [es[k]];
    }
  }

  lemma {:induction false} KeptUnique(es: seq<Entry>, keep: Entry -> bool)
    requires UniqueKeys(es)
    ensures UniqueKeys(Keep(es, keep))
  {
    if es != [] {
      var k := |es| - 1;
      KeysInit(es);
      hide UniqueKeys;
      KeptUnique(es[..k], keep);
      Kept(es[..k], keep);
      if keep(es[k]) { KeysAppend(Keep(es[..k], keep), es[k]); }
      assert Keep(es[..k], keep) + [] == Keep(es[..k], keep);
    }
  }

  // ---------- Typing ----------

  lemma {:induction false} TypedOne(n: Named)
    requires Typed(n).Some? && UniqueKeys(EntriesOf(n.root))
    ensures Typed(n).value.name == n.name && UniqueKeys(EntriesOf(Typed(n).value.root))
  {
  }

  lemma {:induction false} TypedKeeps(d: seq<Named>)
    requires WellFormed(d) && TypedAll(d).Some?
    ensures WellFormed(TypedAll(d).value)
    ensures Names(TypedAll(d).value) == Names(d)
  {
    if d != [] {
      var k := |d| - 1;
      NamesInit(d);
      assert d == d[..k] + [d[k]] && d[k] in d;
      assert forall m :: m in d[..k] ==> m in d;
      hide UniqueNames, UniqueKeys, EntriesOf, Typed, Names;
      TypedKeeps(d[..k]);
      TypedOne(d[k]);
      NamesAppend(TypedAll(d[..k]).value, Typed(d[k]).value);
    }
  }

  lemma {:induction false} CleanIsTyped(d: seq<Named>)
    requires forall n :: n in d ==> Clean(n)
    ensures TypedAll(d) == Some(d)
  {
    if d != [] {
      var n := |d| - 1;
      assert d == d[..n] + [d[n]] && d[n] in d;
      assert forall m :: m in d[..n] ==> m in d;
      CleanIsTyped(d[..n]);
    }
  }

  // ---------- What the first pass drops ----------

  ghost predicate Unfit(n: Named) {
    IsFileName(n.name) && (!Allowed(PathOf(n.name)) || !n.root.Text? || Utf8Bytes(n.root.text) > MAX_FILE_BYTES)
  }

  lemma {:induction false} ScanDropsTheUnfit(d: seq<Named>)
    ensures forall n :: n in d && Unfit(n) ==> PathOf(n.name) in ScanAll(d).dropped
    ensures forall n :: n in d && n.name == INITIALIZED && n.root.Map? ==> BadFlags(n.root.entries) <= ScanAll(d).dropped
  {
    hide Allowed, Utf8Bytes;
    if d != [] {
      var k := |d| - 1;
      ScanDropsTheUnfit(d[..k]);
      assert d == d[..k] + [d[k]];
    }
  }

  lemma {:induction false} MetaKept(es: seq<Entry>)
    ensures forall e :: e in KeepMeta(es) ==> MetaEntryOk(e)
    ensures UniqueKeys(es) ==> UniqueKeys(KeepMeta(es))
    ensures (forall e :: e in es ==> MetaEntryOk(e)) ==> KeepMeta(es) == es
  {
    hide MetaEntryOk, UniqueKeys;
    Kept(es, e => MetaEntryOk(e));
    if UniqueKeys(es) { KeptUnique(es, e => MetaEntryOk(e)); }
  }

  lemma {:induction false} FlagsKept(es: seq<Entry>, dropped: set<string>)
    ensures forall e :: e in KeepFlags(es, dropped) <==> e in es && e.key !in dropped && Safe(e.key) && e.value == True
    ensures UniqueKeys(es) ==> UniqueKeys(KeepFlags(es, dropped))
    ensures (forall e :: e in es ==> FlagOk(e) && e.key !in dropped) ==> KeepFlags(es, dropped) == es
  {
    hide Safe, Protected, UniqueKeys;
    var keep := (e: Entry) => e.key !in dropped && Safe(e.key) && e.value == True;
    Kept(es, keep);
    if UniqueKeys(es) { KeptUnique(es, keep); }
  }

  /** What the second pass must drop of a root is dropped. */
  ghost predicate Covered(n: Named, dropped: set<string>) {
    && (Unfit(n) ==> PathOf(n.name) in dropped)
    && (n.name == INITIALIZED && n.root.Map? ==> BadFlags(n.root.entries) <= dropped)
  }

  ghost predicate CleanDoc(d: seq<Named>) {
    WellFormed(d) && forall n :: n in d ==> Clean(n)
  }

  lemma {:induction false} FlagsAreOk(es: seq<Entry>, dropped: set<string>)
    requires BadFlags(es) <= dropped
    ensures forall e :: e in KeepFlags(es, dropped) ==> FlagOk(e)
  {
    FlagsKept(es, dropped);
    hide Safe, Protected, KeepFlags;
    assert forall e :: e in es && !FlagOk(e) ==> e.key in BadFlags(es);
  }

  lemma {:induction false} RebuiltIsClean(n: Named, dropped: set<string>)
    requires Covered(n, dropped) && UniqueKeys(EntriesOf(n.root))
    ensures forall m :: m in Rebuilt(n, dropped) ==> m.name == n.name && Clean(m) && UniqueKeys(EntriesOf(m.root))
  {
    hide Allowed, Utf8Bytes, MetaEntryOk, FlagOk, BadFlags, KeepMeta, KeepFlags, UniqueKeys;
    if n.name == META && n.root.Map? {
      MetaKept(n.root.entries);
    } else if n.name == INITIALIZED && n.root.Map? {
      FlagsKept(n.root.entries, dropped);
      FlagsAreOk(n.root.entries, dropped);
    } else {
      NoKeys();
    }
  }

  lemma {:induction false} NoKeys()
    ensures UniqueKeys([])
  {
  }

  /** Adding nothing, or one clean root of a new name. */
  lemma {:induction false} CleanAppend(a: seq<Named>, b: seq<Named>, name: string)
    requires CleanDoc(a) && name !in Names(a) && |b| <= 1
    requires forall m :: m in b ==> m.name == name && Clean(m) && UniqueKeys(EntriesOf(m.root))
    ensures CleanDoc(a + b) && Names(a + b) <= Names(a) + {name}
  {
    hide Clean, UniqueKeys, EntriesOf;
    if b == [] {
      assert a + b == a;
    } else {
      assert b == [b[0]] && b[0] in b;
      NamesAppend(a, b[0]);
      hide UniqueNames;
    }
  }

  lemma {:induction false} WellFormedInit(d: seq<Named>)
    requires d != [] && WellFormed(d)
    ensures WellFormed(d[..|d| - 1]) && UniqueKeys(EntriesOf(d[|d| - 1].root))
    ensures d[|d| - 1].name !in Names(d[..|d| - 1]) && Names(d) == Names(d[..|d| - 1]) + {d[|d| - 1].name}
  {
    NamesInit(d);
    assert d[|d| - 1] in d;
    hide UniqueNames, UniqueKeys, EntriesOf, Names;
  }

  lemma {:induction false} AllRebuiltClean(d: seq<Named>, dropped: set<string>)
    requires WellFormed(d) && forall n :: n in d ==> Covered(n, dropped)
    ensures CleanDoc(RebuiltAll(d, dropped)) && Names(RebuiltAll(d, dropped)) <= Names(d)
    decreases |d|
  {
    if d != [] {
      var k := |d| - 1;
      var init, last := d[..k], d[k];
      assert d == init + [last] && last in d;
      assert forall n :: n in init ==> n in d;
      hide Covered, CleanDoc, WellFormed, Clean, Rebuilt, UniqueKeys, EntriesOf, Names;
      WellFormedInit(d);
      AllRebuiltClean(init, dropped);
      RebuiltIsClean(last, dropped);
      RebuiltIsAtMostOne(last, dropped);
      CleanAppend(RebuiltAll(init, dropped), Rebuilt(last, dropped), last.name);
    }
  }

  lemma {:induction false} RebuiltIsAtMostOne(n: Named, dropped: set<string>)
    ensures |Rebuilt(n, dropped)| <= 1
  {
  }

  // ---------- Quotas ----------

  lemma {:induction false} CountsAppend(d: seq<Named>, n: Named)
    ensures FileCount(d + [n]) == FileCount(d) + if IsFile(n) then 1 else 0
    ensures TotalBytes(d + [n]) == TotalBytes(d) + if IsFile(n) then Utf8Bytes(n.root.text) else 0
  {
    assert (d + [n])[..|d|] == d;
  }

  lemma {:induction false} ScanGrows(s: Scan, n: Named)
    ensures s.dropped <= ScanRoot(s, n).dropped && s.files <= ScanRoot(s, n).files && s.bytes <= ScanRoot(s, n).bytes
  {
  }

  /** What is kept is never more than what was counted when the last of it was kept. */
  lemma {:induction false} KeptWithinQuota(d: seq<Named>, dropped: set<string>)
    requires ScanAll(d).dropped <= dropped
    ensures var kept, scan := RebuiltAll(d, dropped), ScanAll(d);
            && FileCount(kept) <= scan.files && FileCount(kept) <= MAX_FILES
            && TotalBytes(kept) <= scan.bytes && TotalBytes(kept) <= MAX_TEXT_BYTES
    decreases |d|
  {
    if d != [] {
      var k := |d| - 1;
      var last, kept := d[k], RebuiltAll(d[..k], dropped);
      ScanGrows(ScanAll(d[..k]), last);
      hide Allowed, Utf8Bytes, KeepMeta, KeepFlags, BadFlags, MetaEntryOk;
      KeptWithinQuota(d[..k], dropped);
      var b := Rebuilt(last, dropped);
      if b == [] {
        assert RebuiltAll(d, dropped) == kept;
      } else {
        assert b == [b[0]];
        CountsAppend(kept, b[0]);
      }
    }
  }

  // ---------- The main results ----------

  lemma {:induction false} MetaIsSmall(es: seq<Entry>)
    requires UniqueKeys(es) && forall e :: e in es ==> MetaEntryOk(e)
    ensures |es| <= 1 && MetaBytes(es) <= 256
  {
    assert forall k :: 0 <= k < |es| ==> es[k] in es;
    if |es| >= 2 { TwoLangs(es[0], es[1]); }
    if |es| == 1 {
      BytesPerUnit(es[0].value.s);
      assert es[..0] == [] && MetaBytes(es[..0]) == 0;
      LangBytes();
    }
  }

  lemma {:induction false} TwoLangs(a: Entry, b: Entry)
    requires MetaEntryOk(a) && MetaEntryOk(b)
    ensures a.key == b.key
  {
  }

  lemma {:induction false} LangBytes()
    ensures Utf8Bytes("lang") <= 16
  {
    var s := "lang";
    BytesPerCharacter(s);
  }

  lemma {:induction false} BytesPerCharacter(s: string)
    ensures Utf8Bytes(s) <= 4 * |s|
  {
    if s != "" { BytesPerCharacter(s[1..]); }
  }

  // ---------- What the validator accepts ----------

  datatype File = File(path: string, text: string)

  /** A text under `file:`, but for the placeholder of an editor with no file open. */
  predicate HoldsFile(n: Named) {
    n.name != "file:initialized" && "file:" <= n.name && n.root.Text? && (n.name != "file:" || n.root.text != "")
  }

  predicate IsTheFile(n: Named, f: File) {
    HoldsFile(n) && f == File(n.name[5..], n.root.text)
  }

  function FilesOf(d: seq<Named>): seq<File> {
    if d == [] then []
    else
      var last := d[|d| - 1];
      FilesOf(d[..|d| - 1]) + if HoldsFile(last) then [File(last.name[5..], last.root.text)] else []
  }

  function BytesOf(files: seq<File>): nat {
    if files == [] then 0 else BytesOf(files[..|files| - 1]) + Utf8Bytes(files[|files| - 1].text)
  }

  /** The metadata, the marks, the placeholder, or a file. */
  ghost predicate InWorkspace(n: Named) {
    if n.name == "meta" then
      n.root.Map? && |n.root.entries| <= 1
      && forall e :: e in n.root.entries ==> e.key == "lang" && e.value.Str? && Units(e.value.s) <= 32
    else if n.name == "file:initialized" then
      n.root.Map? && |n.root.entries| <= 500 && forall e :: e in n.root.entries ==> Allowed(e.key) && e.value == True
    else
      || (n.name == "file:" && n.root == Text(""))
      || ("file:" <= n.name && n.root.Text? && Allowed(n.name[5..]) && Utf8Bytes(n.root.text) <= 1_048_576)
  }

  lemma {:induction false} RootOkIs(n: Named)
    requires UniqueKeys(EntriesOf(n.root))
    ensures RootOk(n) <==> InWorkspace(n)
  {
    hide Allowed, Utf8Bytes, Units, UniqueKeys, MetaBytes;
    assert INITIALIZED[0] == 'f' && META[0] == 'm' && "file:"[0] == 'f';
    if n.name == META && n.root.Map? && forall e :: e in n.root.entries ==> MetaEntryOk(e) { MetaIsSmall(n.root.entries); }
  }

  lemma {:induction false} CountsAre(d: seq<Named>)
    ensures FileCount(d) == |FilesOf(d)| && TotalBytes(d) == BytesOf(FilesOf(d))
  {
    if d != [] {
      var k := |d| - 1;
      CountsAre(d[..k]);
      assert IsFile(d[k]) <==> HoldsFile(d[k]);
      hide Utf8Bytes, HoldsFile, IsFile;
      if HoldsFile(d[k]) {
        assert FilesOf(d)[..|FilesOf(d)| - 1] == FilesOf(d[..k]) && FilesOf(d)[|FilesOf(d)| - 1].text == d[k].root.text;
      } else {
        assert FilesOf(d) == FilesOf(d[..k]);
      }
    }
  }

  /** Each file of the document once, and nothing else. */
  lemma {:induction false} FilesAre(d: seq<Named>)
    requires UniqueNames(d)
    ensures forall f :: f in FilesOf(d) <==> exists n :: n in d && IsTheFile(n, f)
    ensures forall i, j :: 0 <= i < j < |FilesOf(d)| ==> FilesOf(d)[i].path != FilesOf(d)[j].path
    decreases |d|
  {
    if d != [] {
      var k := |d| - 1;
      var init, last := d[..k], d[k];
      NamesInit(d);
      hide UniqueNames;
      FilesAre(init);
      assert d == init + [last];
      if HoldsFile(last) {
        forall i | 0 <= i < |FilesOf(init)| ensures FilesOf(init)[i].path != last.name[5..] {
          assert FilesOf(init)[i] in FilesOf(init);
          var n :| n in init && IsTheFile(n, FilesOf(init)[i]);
          assert n.name in Names(init);
          if n.name[5..] == last.name[5..] { SameFile(n.name, last.name); }
        }
      }
      forall f ensures f in FilesOf(d) <==> exists n :: n in d && IsTheFile(n, f) {
        if n :| n in init && IsTheFile(n, f) { assert n in d; }
        if f in FilesOf(d) && f !in FilesOf(init) { assert last in d && IsTheFile(last, f); }
      }
    }
  }

  lemma {:induction false} SameFile(a: string, b: string)
    requires "file:" <= a && "file:" <= b && a[5..] == b[5..]
    ensures a == b
  {
    assert a == "file:" + a[5..] && b == "file:" + b[5..];
  }

  /** The validator accepts exactly the workspaces of at most 500 files and 20 MB of text. */
  lemma {:induction false} AcceptedExactly(d: seq<Named>)
    requires WellFormed(d)
    ensures Accepted(d) <==>
              (forall n :: n in d ==> InWorkspace(n)) && |FilesOf(d)| <= 500 && BytesOf(FilesOf(d)) <= 20_971_520
  {
    CountsAre(d);
    forall n | n in d ensures RootOk(n) <==> InWorkspace(n) { RootOkIs(n); }
    hide RootOk, InWorkspace, FilesOf, FileCount, TotalBytes;
  }

  /** What a clean document has been through. */
  lemma {:induction false} Sanitized(d: seq<Named>)
    requires WellFormed(d) && Sanitize(d, true).Some?
    ensures var c := Sanitize(d, true).value.0;
            && WellFormed(c) && (forall n :: n in c ==> Clean(n))
            && FileCount(c) <= MAX_FILES && TotalBytes(c) <= MAX_TEXT_BYTES
  {
    hide Clean, Unfit, ScanAll, RebuiltAll, BadFlags;
    TypedKeeps(d);
    var t := TypedAll(d).value;
    ScanDropsTheUnfit(t);
    AllRebuiltClean(t, ScanAll(t).dropped);
    KeptWithinQuota(t, ScanAll(t).dropped);
  }

  /** At most 500 of the document's initialized marks are true, on allowed paths, and not on a
      dropped path. */
  ghost predicate FewMarks(d: seq<Named>, dropped: set<string>) {
    forall n :: n in d && n.name == INITIALIZED ==> |KeepFlags(EntriesOf(n.root), dropped)| <= MAX_FILES
  }

  ghost predicate ShortMarks(d: seq<Named>) {
    forall n :: n in d && n.name == INITIALIZED ==> |EntriesOf(n.root)| <= MAX_FILES
  }

  lemma {:induction false} TypedMarks(d: seq<Named>, dropped: set<string>)
    requires TypedAll(d).Some?
    ensures FewMarks(d, dropped) <==> FewMarks(TypedAll(d).value, dropped)
    ensures forall n :: n in TypedAll(d).value && n.name == INITIALIZED ==> n.root.Map?
  {
    hide KeepFlags;
    if d != [] {
      var k := |d| - 1;
      assert d == d[..k] + [d[k]];
      assert TypedAll(d).value == TypedAll(d[..k]).value + [Typed(d[k]).value];
      TypedMarks(d[..k], dropped);
    }
  }

  lemma {:induction false} MarksJoin(a: seq<Named>, b: seq<Named>, dropped: set<string>)
    ensures ShortMarks(a + b) <==> ShortMarks(a) && ShortMarks(b)
    ensures FewMarks(a + b, dropped) <==> FewMarks(a, dropped) && FewMarks(b, dropped)
  {
    hide KeepFlags, EntriesOf;
    assert forall n :: n in a ==> n in a + b;
    assert forall n :: n in b ==> n in a + b;
  }

  lemma {:induction false} RebuiltOne(n: Named, dropped: set<string>)
    requires n.name == INITIALIZED ==> n.root.Map?
    ensures FewMarks([n], dropped) <==> ShortMarks(Rebuilt(n, dropped))
  {
    hide KeepFlags, KeepMeta;
    if n.name == INITIALIZED {
      assert Rebuilt(n, dropped) == [Named(INITIALIZED, Map(KeepFlags(n.root.entries, dropped)))];
      assert n in [n];
    } else {
      assert forall m :: m in Rebuilt(n, dropped) ==> m.name == n.name;
    }
  }

  lemma {:induction false} RebuiltMarks(d: seq<Named>, dropped: set<string>)
    requires forall n :: n in d && n.name == INITIALIZED ==> n.root.Map?
    ensures FewMarks(d, dropped) <==> ShortMarks(RebuiltAll(d, dropped))
  {
    hide FewMarks, ShortMarks, Rebuilt;
    if d == [] {
      NoMarks(dropped);
    } else {
      var k := |d| - 1;
      assert d == d[..k] + [d[k]] && d[k] in d;
      RebuiltMarks(d[..k], dropped);
      RebuiltOne(d[k], dropped);
      MarksJoin(d[..k], [d[k]], dropped);
      MarksJoin(RebuiltAll(d[..k], dropped), Rebuilt(d[k], dropped), dropped);
    }
  }

  lemma {:induction false} NoMarks(dropped: set<string>)
    ensures FewMarks([], dropped) && ShortMarks([])
  {
  }

  // ---------- Which marks survive ----------

  predicate AllowedFile(n: Named) {
    IsFileName(n.name) && Allowed(PathOf(n.name))
  }

  /** The text of a file, whether its root has a type yet or not. */
  function FileText(n: Named): string {
    match n.root case Abstract(t, _) => t case Text(t) => t case _ => ""
  }

  function AllowedFiles(d: seq<Named>): nat {
    if d == [] then 0 else AllowedFiles(d[..|d| - 1]) + if AllowedFile(d[|d| - 1]) then 1 else 0
  }

  function AllowedBytes(d: seq<Named>): nat {
    if d == [] then 0
    else AllowedBytes(d[..|d| - 1]) + if AllowedFile(d[|d| - 1]) then Utf8Bytes(FileText(d[|d| - 1])) else 0
  }

  /** Root k is a file on an allowed path that is too big, or beyond the quota of the files up to it. */
  predicate OverQuota(d: seq<Named>, k: int) {
    && 0 <= k < |d| && AllowedFile(d[k])
    && (Utf8Bytes(FileText(d[k])) > MAX_FILE_BYTES || AllowedFiles(d[..k + 1]) > MAX_FILES
        || AllowedBytes(d[..k + 1]) > MAX_TEXT_BYTES)
  }

  ghost predicate FileDropped(d: seq<Named>, path: string) {
    exists k :: DropsAt(d, k, path)
  }

  predicate DropsAt(d: seq<Named>, k: int, path: string) {
    OverQuota(d, k) && PathOf(d[k].name) == path
  }

  /** The initialized marks that are true, on an allowed path, and not of a file that is dropped. */
  ghost function Surviving(d: seq<Named>): set<string> {
    set n, e | n in d && n.name == INITIALIZED && e in EntriesOf(n.root) && FlagOk(e) && !FileDropped(d, e.key) :: e.key
  }

  /** Some mark of this path is false, or the path is not allowed. */
  ghost predicate BadMark(d: seq<Named>, path: string) {
    exists n :: n in d && n.name == INITIALIZED && path in BadFlags(EntriesOf(n.root))
  }

  lemma {:induction false} DropsEarlier(d: seq<Named>, n: nat, k: int, path: string)
    requires n <= |d| && k < n
    ensures DropsAt(d[..n], k, path) <==> DropsAt(d, k, path)
  {
    hide Utf8Bytes, AllowedFile, AllowedFiles, AllowedBytes;
    if k >= 0 { assert d[..n][..k + 1] == d[..k + 1]; }
  }

  lemma {:induction false} FileDroppedNext(d: seq<Named>, path: string)
    requires d != []
    ensures FileDropped(d, path) <==> FileDropped(d[..|d| - 1], path) || DropsAt(d, |d| - 1, path)
  {
    var n := |d| - 1;
    assert forall k :: DropsAt(d, k, path) ==> k <= n;
    assert forall k :: DropsAt(d[..n], k, path) ==> k < n;
    hide DropsAt;
    forall k | k < n ensures DropsAt(d[..n], k, path) <==> DropsAt(d, k, path) { DropsEarlier(d, n, k, path); }
  }

  lemma {:induction false} BadMarkNext(d: seq<Named>, path: string)
    requires d != []
    ensures var last := d[|d| - 1];
            BadMark(d, path) <==> BadMark(d[..|d| - 1], path) || (last.name == INITIALIZED && path in BadFlags(EntriesOf(last.root)))
  {
    assert d == d[..|d| - 1] + [d[|d| - 1]] && d[|d| - 1] in d;
    hide BadFlags;
  }

  lemma {:induction false} DropsOne(s: Scan, n: Named, path: string)
    requires Typed(n).Some? && Allowed(path)
    ensures var r := ScanRoot(s, Typed(n).value);
            && r.files == s.files + (if AllowedFile(n) then 1 else 0)
            && r.bytes == s.bytes + (if AllowedFile(n) then Utf8Bytes(FileText(n)) else 0)
            && (path in r.dropped <==>
                 || path in s.dropped
                 || (n.name == INITIALIZED && path in BadFlags(EntriesOf(n.root)))
                 || (AllowedFile(n) && PathOf(n.name) == path
                     && (Utf8Bytes(FileText(n)) > MAX_FILE_BYTES || r.files > MAX_FILES || r.bytes > MAX_TEXT_BYTES)))
  {
    hide Allowed, Utf8Bytes, MetaEntryOk, BadFlags;
  }

  /** What the first pass drops among the allowed paths, by the document alone. */
  lemma {:induction false} DropsExactly(d: seq<Named>, path: string)
    requires TypedAll(d).Some? && Allowed(path)
    ensures var scan := ScanAll(TypedAll(d).value);
            && scan.files == AllowedFiles(d) && scan.bytes == AllowedBytes(d)
            && (path in scan.dropped <==> FileDropped(d, path) || BadMark(d, path))
    decreases |d|
  {
    hide Allowed, Utf8Bytes, BadFlags, ScanRoot, Typed, FileDropped, BadMark, AllowedFile;
    if d != [] {
      var n := |d| - 1;
      ScanNext(d);
      DropsExactly(d[..n], path);
      DropsOne(ScanAll(TypedAll(d[..n]).value), d[n], path);
      FileDroppedNext(d, path);
      BadMarkNext(d, path);
      assert d[..n + 1] == d;
      hide ScanAll, TypedAll;
      assert AllowedFiles(d) == ScanAll(TypedAll(d).value).files && AllowedBytes(d) == ScanAll(TypedAll(d).value).bytes;
    } else {
      NothingDropped(path);
    }
  }

  lemma {:induction false} NothingDropped(path: string)
    ensures !FileDropped([], path) && !BadMark([], path)
  {
  }

  lemma {:induction false} ScanNext(d: seq<Named>)
    requires d != [] && TypedAll(d).Some?
    ensures var n := |d| - 1;
            && TypedAll(d[..n]).Some? && Typed(d[n]).Some?
            && ScanAll(TypedAll(d).value) == ScanRoot(ScanAll(TypedAll(d[..n]).value), Typed(d[n]).value)
  {
    hide ScanRoot, Typed;
    var t, last := TypedAll(d[..|d| - 1]).value, Typed(d[|d| - 1]).value;
    assert TypedAll(d).value == t + [last] && (t + [last])[..|t|] == t;
  }

  ghost function Keys(es: seq<Entry>): set<string> {
    set e | e in es :: e.key
  }

  lemma {:induction false} OneKeyEach(es: seq<Entry>)
    requires UniqueKeys(es)
    ensures |Keys(es)| == |es|
  {
    if es != [] {
      var n := |es| - 1;
      KeysInit(es);
      OneKeyEach(es[..n]);
      assert es == es[..n] + [es[n]];
      assert Keys(es) == Keys(es[..n]) + {es[n].key};
    }
  }

  lemma {:induction false} OnlyRoot(d: seq<Named>, n: Named)
    requires UniqueNames(d) && n in d
    ensures forall m :: m in d && m.name == n.name ==> m == n
  {
  }

  /** A mark is kept exactly if it is true, on an allowed path, and of no file that is dropped. */
  lemma {:induction false} MarkSurvives(d: seq<Named>, n: Named, e: Entry)
    requires WellFormed(d) && TypedAll(d).Some? && n in d && n.name == INITIALIZED && e in EntriesOf(n.root)
    ensures e in KeepFlags(EntriesOf(n.root), ScanAll(TypedAll(d).value).dropped)
       <==> FlagOk(e) && !FileDropped(d, e.key)
  {
    var es, dropped := EntriesOf(n.root), ScanAll(TypedAll(d).value).dropped;
    FlagsKept(es, dropped);
    OnlyRoot(d, n);
    assert BadMark(d, e.key) <==> e.key in BadFlags(es) by { hide BadFlags; }
    OnlyMark(es, e);
    if Allowed(e.key) {
      DropsExactly(d, e.key);
      hide ScanAll, TypedAll, Safe, Protected, KeepFlags, FileDropped, BadMark, BadFlags;
    } else if Safe(e.key) {
      BadMarksDropped(d, n);
      hide ScanAll, TypedAll, Safe, Protected, KeepFlags, FileDropped, BadMark;
    }
  }

  lemma {:induction false} OnlyMark(es: seq<Entry>, e: Entry)
    requires UniqueKeys(es) && e in es
    ensures e.key in BadFlags(es) <==> !FlagOk(e)
  {
    hide FlagOk;
  }

  lemma {:induction false} BadMarksOne(s: Scan, n: Named)
    requires n.name == INITIALIZED && Typed(n).Some?
    ensures BadFlags(EntriesOf(n.root)) <= ScanRoot(s, Typed(n).value).dropped
  {
    hide Allowed, MetaEntryOk, BadFlags;
  }

  lemma {:induction false} BadMarksDropped(d: seq<Named>, n: Named)
    requires TypedAll(d).Some? && n in d && n.name == INITIALIZED
    ensures BadFlags(EntriesOf(n.root)) <= ScanAll(TypedAll(d).value).dropped
    decreases |d|
  {
    var k := |d| - 1;
    assert d == d[..k] + [d[k]];
    ScanNext(d);
    ScanGrows(ScanAll(TypedAll(d[..k]).value), Typed(d[k]).value);
    hide TypedAll, ScanAll, Typed, ScanRoot, BadFlags;
    if n in d[..k] {
      BadMarksDropped(d[..k], n);
    } else {
      BadMarksOne(ScanAll(TypedAll(d[..k]).value), d[k]);
    }
  }

  // ---------- What the sanitizer keeps, exactly ----------

  /** The text of this file comes through: its path is allowed, it is neither empty nor over a
      quota, and no mark of its path is false. */
  ghost predicate FileComesThrough(d: seq<Named>, n: Named) {
    && IsFileName(n.name) && Allowed(n.name[5..]) && FileText(n) != ""
    && !FileDropped(d, n.name[5..]) && !BadMark(d, n.name[5..])
  }

  /** A root of the result comes from this root of the document: a file with its text, or a map
      with the entries that are in order. */
  ghost predicate ComesFrom(d: seq<Named>, n: Named, m: Named) {
    && m.name == n.name
    && (if IsFileName(n.name) then FileComesThrough(d, n) && m.root == Text(FileText(n))
        else if n.name == META then
          m.root.Map? && forall e :: e in m.root.entries <==>
            e in EntriesOf(n.root) && e.key == "lang" && e.value.Str? && Units(e.value.s) <= 32
        else
          n.name == INITIALIZED && m.root.Map? && forall e :: e in m.root.entries <==>
            e in EntriesOf(n.root) && Allowed(e.key) && e.value == True && !FileDropped(d, e.key))
  }

  /** Exactly what comes through is in the result. */
  ghost predicate KeepsExactly(d: seq<Named>, c: seq<Named>) {
    && (forall m :: m in c ==> exists n :: n in d && ComesFrom(d, n, m))
    && (forall n :: n in d && IsFileName(n.name) && FileComesThrough(d, n) ==> Named(n.name, Text(FileText(n))) in c)
    && (forall n :: n in d && IsMapName(n.name) ==> exists m :: m in c && ComesFrom(d, n, m))
  }

  lemma {:induction false} RebuiltFileExactly(d: seq<Named>, n: Named)
    requires WellFormed(d) && TypedAll(d).Some? && n in d && IsFileName(n.name) && Typed(n).Some?
    ensures Rebuilt(Typed(n).value, ScanAll(TypedAll(d).value).dropped)
         == if FileComesThrough(d, n) then [Named(n.name, Text(FileText(n)))] else []
  {
    var t, path, dropped := Typed(n).value, PathOf(n.name), ScanAll(TypedAll(d).value).dropped;
    assert t == Named(n.name, Text(FileText(n))) && path == n.name[5..];
    if Allowed(path) {
      DropsExactly(d, path);
    } else {
      TypedHas(d, n);
      ScanDropsTheUnfit(TypedAll(d).value);
      assert Unfit(t);
    }
    hide ScanAll, TypedAll, Allowed, FileDropped, BadMark, KeepMeta, KeepFlags, Unfit;
  }

  lemma {:induction false} TypedHas(d: seq<Named>, n: Named)
    requires TypedAll(d).Some? && n in d
    ensures Typed(n).Some? && Typed(n).value in TypedAll(d).value
  {
    var k := |d| - 1;
    assert d == d[..k] + [d[k]];
    assert TypedAll(d).value == TypedAll(d[..k]).value + [Typed(d[k]).value];
    hide Typed;
    if n in d[..k] { TypedHas(d[..k], n); }
  }

  lemma {:induction false} TypedFrom(d: seq<Named>, t: Named)
    requires TypedAll(d).Some? && t in TypedAll(d).value
    ensures exists n :: n in d && Typed(n) == Some(t)
  {
    var k := |d| - 1;
    assert d == d[..k] + [d[k]] && d[k] in d;
    assert TypedAll(d).value == TypedAll(d[..k]).value + [Typed(d[k]).value];
    hide Typed;
    if t in TypedAll(d[..k]).value {
      TypedFrom(d[..k], t);
      var n :| n in d[..k] && Typed(n) == Some(t);
      assert n in d;
    }
  }

  lemma {:induction false} RebuiltMapExactly(d: seq<Named>, n: Named)
    requires WellFormed(d) && TypedAll(d).Some? && n in d && IsMapName(n.name) && Typed(n).Some?
    ensures var r := Rebuilt(Typed(n).value, ScanAll(TypedAll(d).value).dropped);
            |r| == 1 && ComesFrom(d, n, r[0])
  {
    var es, dropped := EntriesOf(n.root), ScanAll(TypedAll(d).value).dropped;
    assert Typed(n).value == Named(n.name, Map(es)) && !IsFileName(n.name) by { MapIsNoFile(n.name); }
    if n.name == META {
      MetaKeptExactly(es);
    } else {
      FlagsKept(es, dropped);
      forall e | e in es ensures e in KeepFlags(es, dropped) <==> Allowed(e.key) && e.value == True && !FileDropped(d, e.key) {
        hide ScanAll, TypedAll, KeepFlags, FileDropped, Allowed;
        MarkSurvives(d, n, e);
      }
    }
    hide ScanAll, TypedAll, Allowed, FileDropped, KeepMeta, KeepFlags, MetaEntryOk;
  }

  lemma {:induction false} MapIsNoFile(name: string)
    requires IsMapName(name)
    ensures !IsFileName(name)
  {
    assert META[0] == 'm' && "file:"[0] == 'f';
  }

  lemma {:induction false} MetaKeptExactly(es: seq<Entry>)
    ensures forall e :: e in KeepMeta(es) <==> e in es && e.key == "lang" && e.value.Str? && Units(e.value.s) <= 32
  {
    Kept(es, e => MetaEntryOk(e));
  }

  lemma {:induction false} RebuiltHas(d: seq<Named>, dropped: set<string>, m: Named)
    ensures m in RebuiltAll(d, dropped) <==> exists n :: n in d && m in Rebuilt(n, dropped)
  {
    hide Rebuilt;
    if d != [] {
      var k := |d| - 1;
      assert d == d[..k] + [d[k]] && d[k] in d;
      RebuiltHas(d[..k], dropped, m);
      if n :| n in d[..k] && m in Rebuilt(n, dropped) { assert n in d; }
    }
  }

  lemma {:induction false} OtherRootsGo(n: Named, dropped: set<string>)
    requires !IsFileName(n.name) && !IsMapName(n.name)
    ensures Rebuilt(n, dropped) == []
  {
  }

  /** A root of the result comes from one of the document. */
  lemma {:induction false} NothingElse(d: seq<Named>, m: Named)
    requires WellFormed(d) && TypedAll(d).Some? && m in RebuiltAll(TypedAll(d).value, ScanAll(TypedAll(d).value).dropped)
    ensures exists n :: n in d && ComesFrom(d, n, m)
  {
    var t := TypedAll(d).value;
    var dropped := ScanAll(t).dropped;
    RebuiltHas(t, dropped, m);
    var x :| x in t && m in Rebuilt(x, dropped);
    TypedFrom(d, x);
    var n :| n in d && Typed(n) == Some(x);
    assert x.name == n.name;
    if IsFileName(n.name) {
      RebuiltFileExactly(d, n);
      hide ScanAll, TypedAll, Rebuilt, RebuiltAll, Typed, FileComesThrough;
      assert ComesFrom(d, n, m);
    } else if IsMapName(n.name) {
      RebuiltMapExactly(d, n);
      hide ScanAll, TypedAll, Rebuilt, RebuiltAll, Typed;
    } else {
      OtherRootsGo(x, dropped);
    }
  }

  /** What comes through is in the result. */
  lemma {:induction false} NothingMissing(d: seq<Named>, n: Named)
    requires WellFormed(d) && TypedAll(d).Some? && n in d
    ensures var c := RebuiltAll(TypedAll(d).value, ScanAll(TypedAll(d).value).dropped);
            && (IsFileName(n.name) && FileComesThrough(d, n) ==> Named(n.name, Text(FileText(n))) in c)
            && (IsMapName(n.name) ==> exists m :: m in c && ComesFrom(d, n, m))
  {
    hide ScanAll, TypedAll, Rebuilt, RebuiltAll, Typed, FileComesThrough;
    var t := TypedAll(d).value;
    var dropped := ScanAll(t).dropped;
    TypedHas(d, n);
    var x := Typed(n).value;
    if IsFileName(n.name) && FileComesThrough(d, n) {
      RebuiltFileExactly(d, n);
      RebuiltHas(t, dropped, Named(n.name, Text(FileText(n))));
      assert Rebuilt(x, dropped)[0] in Rebuilt(x, dropped);
    }
    if IsMapName(n.name) {
      RebuiltMapExactly(d, n);
      var m := Rebuilt(x, dropped)[0];
      assert m in Rebuilt(x, dropped);
      RebuiltHas(t, dropped, m);
    }
  }

  /** The sanitizer fails exactly on a map name with text or a file name with a map, and otherwise
      keeps exactly what comes through. */
  lemma {:induction false} SanitizesExactly(d: seq<Named>)
    requires WellFormed(d)
    ensures Sanitize(d, true).Some? <==> forall n :: n in d ==> !Mistyped(n)
    ensures Sanitize(d, true).Some? ==> KeepsExactly(d, Sanitize(d, true).value.0)
  {
    TypedExactly(d);
    hide TypedAll, ScanAll, RebuiltAll, Mistyped, ComesFrom, FileComesThrough, WellFormed;
    if TypedAll(d).Some? {
      var c := RebuiltAll(TypedAll(d).value, ScanAll(TypedAll(d).value).dropped);
      assert c == Sanitize(d, true).value.0;
      forall m | m in c ensures exists n :: n in d && ComesFrom(d, n, m) { NothingElse(d, m); }
      forall n | n in d
        ensures IsFileName(n.name) && FileComesThrough(d, n) ==> Named(n.name, Text(FileText(n))) in c
        ensures IsMapName(n.name) ==> exists m :: m in c && ComesFrom(d, n, m)
      {
        NothingMissing(d, n);
      }
    }
  }

  /** A root that holds another type than its name asks for. */
  predicate Mistyped(n: Named) {
    || ((n.name == META || n.name == INITIALIZED) && (n.root.Text? || n.root.OtherRoot?))
    || (n.name != INITIALIZED && "file:" <= n.name && (n.root.Map? || n.root.OtherRoot?))
  }

  lemma {:induction false} MistypedExactly(n: Named)
    ensures Typed(n).None? <==> Mistyped(n)
  {
    if IsMapName(n.name) { MapIsNoFile(n.name); }
  }

  lemma {:induction false} TypedExactly(d: seq<Named>)
    ensures TypedAll(d).Some? <==> forall n :: n in d ==> !Mistyped(n)
  {
    hide Typed, Mistyped;
    if d != [] {
      var k := |d| - 1;
      assert d == d[..k] + [d[k]] && d[k] in d;
      TypedExactly(d[..k]);
      MistypedExactly(d[k]);
    }
  }

  lemma {:induction false} SurvivingOf(d: seq<Named>, n: Named)
    requires WellFormed(d) && TypedAll(d).Some? && n in d && n.name == INITIALIZED
    ensures Surviving(d) == Keys(KeepFlags(EntriesOf(n.root), ScanAll(TypedAll(d).value).dropped))
  {
    hide ScanAll, TypedAll, FlagOk, FileDropped, EntriesOf, KeepFlags, Safe;
    var es, dropped := EntriesOf(n.root), ScanAll(TypedAll(d).value).dropped;
    OnlyRoot(d, n);
    FlagsKept(es, dropped);
    forall e | e in es ensures e in KeepFlags(es, dropped) <==> FlagOk(e) && !FileDropped(d, e.key) { MarkSurvives(d, n, e); }
  }

  lemma {:induction false} SurvivingAreKept(d: seq<Named>)
    requires WellFormed(d) && TypedAll(d).Some?
    ensures FewMarks(d, ScanAll(TypedAll(d).value).dropped) <==> |Surviving(d)| <= MAX_FILES
  {
    hide ScanAll, TypedAll, FlagOk, FileDropped, EntriesOf, Typed, Keys, KeepFlags, Surviving;
    var dropped := ScanAll(TypedAll(d).value).dropped;
    if n :| n in d && n.name == INITIALIZED {
      var es := EntriesOf(n.root);
      OnlyRoot(d, n);
      SurvivingOf(d, n);
      FlagsKept(es, dropped);
      OneKeyEach(KeepFlags(es, dropped));
    } else {
      NoneSurvive(d);
    }
  }

  lemma {:induction false} NoneSurvive(d: seq<Named>)
    requires forall n :: n in d ==> n.name != INITIALIZED
    ensures Surviving(d) == {}
  {
  }

  /** A sanitized document passes the validator exactly when at most 500 initialized marks survive:
      the sanitizer checks each mark but does not count them. */
  lemma {:induction false} SanitizedPassesExactly(d: seq<Named>)
    requires WellFormed(d) && Sanitize(d, true).Some?
    ensures Accepted(Sanitize(d, true).value.0) <==> |Surviving(d)| <= MAX_FILES
  {
    Sanitized(d);
    var c, t := Sanitize(d, true).value.0, TypedAll(d).value;
    var dropped := ScanAll(t).dropped;
    assert c == RebuiltAll(t, dropped);
    hide Sanitize, ScanAll, RebuiltAll, TypedAll, Surviving, FewMarks, WellFormed, Accepted, Clean, ShortMarks;
    TypedMarks(d, dropped);
    RebuiltMarks(t, dropped);
    CleanPassesExactly(c);
    SurvivingAreKept(d);
  }

  lemma {:induction false} CleanPassesExactly(c: seq<Named>)
    requires WellFormed(c) && (forall n :: n in c ==> Clean(n))
    requires FileCount(c) <= MAX_FILES && TotalBytes(c) <= MAX_TEXT_BYTES
    ensures Accepted(c) <==> ShortMarks(c)
  {
    hide Allowed, Utf8Bytes, MetaEntryOk, FlagOk;
    forall n | n in c ensures RootOk(n) <==> (n.name == INITIALIZED ==> |EntriesOf(n.root)| <= MAX_FILES) {
      assert Clean(n);
      if n.name == META { MetaIsSmall(n.root.entries); }
    }
  }

  lemma {:induction false} KeptIsNoLonger(es: seq<Entry>, keep: Entry -> bool)
    ensures |Keep(es, keep)| <= |es|
  {
    if es != [] { KeptIsNoLonger(es[..|es| - 1], keep); }
  }

  /** So a document with at most 500 marks to begin with always comes out acceptable. */
  lemma {:induction false} FewMarksPass(d: seq<Named>)
    requires WellFormed(d) && Sanitize(d, true).Some? && ShortMarks(d)
    ensures Accepted(Sanitize(d, true).value.0)
  {
    SanitizedPassesExactly(d);
    SurvivingAreKept(d);
    var dropped := ScanAll(TypedAll(d).value).dropped;
    hide Sanitize, TypedAll, ScanAll, Accepted, Surviving, WellFormed;
    forall n | n in d && n.name == INITIALIZED ensures |KeepFlags(EntriesOf(n.root), dropped)| <= MAX_FILES {
      KeptIsNoLonger(EntriesOf(n.root), (e: Entry) => e.key !in dropped && Safe(e.key) && e.value == True);
    }
  }

  // ---------- 501 marks ----------

  function Letters(n: nat): string {
    seq(n, _ => 'a')
  }

  function ManyMarks(): seq<Named> {
    [Named(INITIALIZED, Map(seq(501, i requires 0 <= i < 501 => Entry(Letters(i + 1), True))))]
  }

  lemma {:induction false} LettersSplit(n: nat)
    ensures Split(Letters(n), '/') == [Letters(n)] && Units(Letters(n)) == n
    decreases n
  {
    if n > 0 {
      assert Letters(n)[1..] == Letters(n - 1) && Letters(n) == [Letters(n)[0]] + Letters(n - 1);
      LettersSplit(n - 1);
    }
  }

  lemma {:induction false} PlainIsAllowed(s: string)
    requires Slashes(s) == s && Lower(s) == s && Split(s, '/') == [s] && 0 < Units(s) <= 512
    requires s != "" && forall i :: 0 <= i < |s| ==> s[i] == 'a'
    ensures Allowed(s)
  {
    hide Slashes, Lower, Split, Units;
    assert Safe(s);
    assert s[0] == 'a' && ".env."[0] == '.' && "id_rsa"[0] == 'i' && "id_ed25519"[0] == 'i';
    assert s !in [".aws", ".ssh", ".secrets", ".docker", "secrets"];
    assert s !in [".env", ".npmrc", ".netrc", "credentials", "credentials.json", "secrets.json"];
    assert !(".env." <= s);
    assert !("id_rsa" <= s || "id_ed25519" <= s);
    assert forall i :: 0 <= i < |[s]| ==> [s][i] == s;
    assert !EndsWith(s, ".pem") && !EndsWith(s, ".key") && !EndsWith(s, ".p12") && !EndsWith(s, ".pfx") by { LastOf(s); }
  }

  lemma {:induction false} LastOf(s: string)
    requires s != "" && s[|s| - 1] == 'a'
    ensures forall t :: t != "" && t[|t| - 1] != 'a' ==> !EndsWith(s, t)
  {
  }

  lemma {:induction false} LettersAllowed(n: nat)
    requires 0 < n <= 512
    ensures Allowed(Letters(n))
  {
    LettersSplit(n);
    hide Units, Split, Allowed;
    var s := Letters(n);
    assert Slashes(s) == s && Lower(s) == s;
    PlainIsAllowed(s);
  }

  lemma {:induction false} OneRoot(n: Named)
    requires n.name == INITIALIZED && n.root.Map? && Clean(n)
    ensures FileCount([n]) == 0 && TotalBytes([n]) == 0
    ensures Sanitize([n], true) == Some(([n], true))
  {
    hide Clean;
    assert [n][..0] == [] && FileCount([n][..0]) == 0 && TotalBytes([n][..0]) == 0;
    CleanIsTyped([n]);
    CleanScan([n]);
    CleanStays([n]);
    hide TypedAll, ScanAll, RebuiltAll;
  }

  lemma {:induction false} ManyMarksAre()
    ensures |ManyMarks()| == 1 && ManyMarks()[0].name == INITIALIZED && ManyMarks()[0].root.Map?
    ensures var es := ManyMarks()[0].root.entries;
            && |es| == 501 && UniqueKeys(es) && forall e :: e in es ==> FlagOk(e)
  {
    var es := ManyMarks()[0].root.entries;
    hide Allowed;
    forall i | 0 <= i < 501 ensures FlagOk(es[i]) && |es[i].key| == i + 1 {
      LettersAllowed(i + 1);
    }
  }

  /** A document of 501 marks comes through the sanitizer as it is, and no update that keeps them
      is accepted afterwards. */
  lemma {:induction false} TooManyMarksSurvive()
    ensures WellFormed(ManyMarks()) && Sanitize(ManyMarks(), true) == Some((ManyMarks(), true)) && !Accepted(ManyMarks())
  {
    ManyMarksAre();
    hide ManyMarks, FlagOk, Sanitize, FileCount, TotalBytes, MetaEntryOk, UniqueKeys;
    var d := ManyMarks();
    assert d == [d[0]] && Clean(d[0]);
    hide Clean;
    OneRoot(d[0]);
    assert d[0] in d && !RootOk(d[0]);
  }

  lemma {:induction false} CleanScan(d: seq<Named>)
    requires (forall n :: n in d ==> Clean(n)) && FileCount(d) <= MAX_FILES && TotalBytes(d) <= MAX_TEXT_BYTES
    ensures ScanAll(d) == Scan({}, false, FileCount(d), TotalBytes(d))
    decreases |d|
  {
    if d != [] {
      var k := |d| - 1;
      hide Allowed, Utf8Bytes, MetaEntryOk, FlagOk;
      CountsGrow(d, k);
      assert d == d[..k] + [d[k]] && d[k] in d;
      assert forall n :: n in d[..k] ==> n in d;
      CleanScan(d[..k]);
      assert Clean(d[k]);
    }
  }

  lemma {:induction false} CleanStays(d: seq<Named>)
    requires forall n :: n in d ==> Clean(n)
    ensures RebuiltAll(d, {}) == d
  {
    if d != [] {
      var k := |d| - 1;
      assert d == d[..k] + [d[k]] && d[k] in d;
      assert forall n :: n in d[..k] ==> n in d;
      CleanStays(d[..k]);
      hide Allowed, Utf8Bytes, MetaEntryOk, FlagOk;
      var n := d[k];
      assert Clean(n);
      if n.root.Map? {
        MetaKept(n.root.entries);
        FlagsKept(n.root.entries, {});
      }
    }
  }

  /** Sanitizing twice is sanitizing once. */
  lemma {:induction false} SanitizeIsIdempotent(d: seq<Named>)
    requires WellFormed(d) && Sanitize(d, true).Some?
    ensures var c := Sanitize(d, true).value.0;
            Sanitize(c, true) == Some((c, true))
  {
    Sanitized(d);
    var c := Sanitize(d, true).value.0;
    CleanIsTyped(c);
    CleanScan(c);
    CleanStays(c);
  }

  /** The roots that mean something: maps, and files that are not empty. */
  function Substance(d: seq<Named>): seq<Named> {
    if d == [] then []
    else Substance(d[..|d| - 1]) + if d[|d| - 1].root == Text("") then [] else [d[|d| - 1]]
  }

  lemma {:induction false} AcceptedScanOne(s: Scan, n: Named)
    requires RootOk(n) && s.files + (if IsFile(n) then 1 else 0) <= MAX_FILES
    requires s.bytes + (if IsFile(n) then Utf8Bytes(n.root.text) else 0) <= MAX_TEXT_BYTES
    ensures var r := ScanRoot(s, n);
            && r.dropped <= s.dropped + {""} && r.files == s.files + (if IsFile(n) then 1 else 0)
            && r.bytes == s.bytes + (if IsFile(n) then Utf8Bytes(n.root.text) else 0)
  {
    hide Protected, Utf8Bytes, MetaEntryOk;
  }

  lemma {:induction false} AcceptedScan(d: seq<Named>)
    requires Accepted(d)
    ensures ScanAll(d).dropped <= {""} && ScanAll(d).files == FileCount(d) && ScanAll(d).bytes == TotalBytes(d)
    decreases |d|
  {
    hide RootOk, Utf8Bytes, ScanRoot, IsFile;
    if d != [] {
      var k := |d| - 1;
      CountsGrow(d, k);
      assert d == d[..k] + [d[k]] && d[k] in d;
      assert forall n :: n in d[..k] ==> n in d;
      AcceptedScan(d[..k]);
      AcceptedScanOne(ScanAll(d[..k]), d[k]);
    }
  }

  lemma {:induction false} AcceptedKept(d: seq<Named>, dropped: set<string>)
    requires (forall n :: n in d ==> RootOk(n)) && dropped <= {""}
    ensures RebuiltAll(d, dropped) == Substance(d)
  {
    if d != [] {
      var k := |d| - 1;
      assert d == d[..k] + [d[k]] && d[k] in d;
      assert forall n :: n in d[..k] ==> n in d;
      AcceptedKept(d[..k], dropped);
      hide Protected, Utf8Bytes, MetaEntryOk;
      var n := d[k];
      assert RootOk(n) && !Safe("");
      if n.root.Map? {
        MetaKept(n.root.entries);
        FlagsKept(n.root.entries, dropped);
      }
    }
  }

  /** A document that already passes keeps every file with content and all its metadata. */
  lemma {:induction false} PassingDocumentsAreKept(d: seq<Named>)
    requires TypedAll(d) == Some(d) && Accepted(d)
    ensures Sanitize(d, true) == Some((Substance(d), true))
  {
    hide RootOk;
    AcceptedScan(d);
    AcceptedKept(d, ScanAll(d).dropped);
  }
}
