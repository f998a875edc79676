/** The shared code document: what an update may turn it into, and the sanitizer that a snapshot
    goes through when it is loaded or the room empties. */
module CodeDoc {
  import opened Wrappers
  import opened CodePath

  const MAX_FILES := 500
  const MAX_FILE_BYTES := 1024 * 1024
  const MAX_TEXT_BYTES := 20 * 1024 * 1024

  datatype Value = Str(s: string) | True | OtherValue

  datatype Entry = Entry(key: string, value: Value)

  /** A root type.  A decoded root has no type yet, and may hold text and entries. */
  datatype Root = Abstract(content: string, members: seq<Entry>) | Text(text: string) | Map(entries: seq<Entry>) | OtherRoot

  datatype Named = Named(name: string, root: Root)

  /** Named roots in order; names, and the keys of a map, are unique. */
  ghost predicate WellFormed(d: seq<Named>) {
    UniqueNames(d) && forall n :: n in d ==> UniqueKeys(EntriesOf(n.root))
  }

  ghost predicate UniqueNames(d: seq<Named>) {
    forall i, j :: 0 <= i < j < |d| ==> d[i].name != d[j].name
  }

  function EntriesOf(r: Root): seq<Entry> {
    match r
    case Abstract(_, m) => m
    case Map(m) => m
    case _ => []
  }

  ghost predicate UniqueKeys(es: seq<Entry>) {
    forall i, j :: 0 <= i < j < |es| ==> es[i].key != es[j].key
  }

  const META := "meta"
  const INITIALIZED := "file:initialized"

  predicate IsMapName(name: string) {
    name == META || name == INITIALIZED
  }

  predicate IsFileName(name: string) {
    "file:" <= name && name != INITIALIZED
  }

  function PathOf(name: string): string
    requires IsFileName(name)
  {
    name[5..]
  }

  // ---------- Typed getters ----------

  /** getMap or getText by name: gives a type to a root that has none, and throws on another. */
  function Typed(n: Named): Option<Named> {
    if IsMapName(n.name) then
      match n.root
      case Abstract(_, m) => Some(n.(root := Map(m)))
      case Map(_) => Some(n)
      case _ => None
    else if IsFileName(n.name) then
      match n.root
      case Abstract(t, _) => Some(n.(root := Text(t)))
      case Text(_) => Some(n)
      case _ => None
    else Some(n)
  }

  function TypedAll(d: seq<Named>): Option<seq<Named>> {
    if d == [] then Some([]) else
    match (TypedAll(d[..|d| - 1]), Typed(d[|d| - 1]))
    case (Some(rest), Some(n)) => Some(rest + [n])
    case _ => None
  }

  // ---------- The rules a document must keep ----------

  predicate MetaEntryOk(e: Entry) {
    e.key == "lang" && e.value.Str? && Units(e.value.s) <= 32
  }

  function MetaBytes(es: seq<Entry>): nat {
    if es == [] then 0
    else MetaBytes(es[..|es| - 1])
         + Utf8Bytes(es[|es| - 1].key) + if es[|es| - 1].value.Str? then Utf8Bytes(es[|es| - 1].value.s) else 0
  }

  predicate FlagOk(e: Entry) {
    Allowed(e.key) && e.value == True
  }

  /** The empty `file:` root of an editor with no file open. */
  predicate Placeholder(n: Named) {
    n.name == "file:" && n.root == Text("")
  }

  predicate RootOk(n: Named) {
    if n.name == META then
      && n.root.Map? && |n.root.entries| <= 8
      && (forall e :: e in n.root.entries ==> MetaEntryOk(e)) && MetaBytes(n.root.entries) <= 256
    else if n.name == INITIALIZED then
      n.root.Map? && |n.root.entries| <= MAX_FILES && forall e :: e in n.root.entries ==> FlagOk(e)
    else
      && IsFileName(n.name)
      && (Placeholder(n) || (Allowed(PathOf(n.name)) && n.root.Text? && Utf8Bytes(n.root.text) <= MAX_FILE_BYTES))
  }

  /** A root that counts as a file, and its size. */
  predicate IsFile(n: Named) {
    IsFileName(n.name) && n.root.Text? && !Placeholder(n)
  }

  function FileCount(d: seq<Named>): nat {
    if d == [] then 0 else FileCount(d[..|d| - 1]) + if IsFile(d[|d| - 1]) then 1 else 0
  }

  function TotalBytes(d: seq<Named>): nat {
    if d == [] then 0
    else TotalBytes(d[..|d| - 1]) + if IsFile(d[|d| - 1]) then Utf8Bytes(d[|d| - 1].root.text) else 0
  }

  predicate Accepted(d: seq<Named>) {
    && (forall n :: n in d ==> RootOk(n))
    && FileCount(d) <= MAX_FILES && TotalBytes(d) <= MAX_TEXT_BYTES
  }

  lemma {:induction false} CountsGrow(d: seq<Named>, k: nat)
    requires k <= |d|
    ensures FileCount(d[..k]) <= FileCount(d) && TotalBytes(d[..k]) <= TotalBytes(d)
    decreases |d|
  {
    if k < |d| {
      CountsGrow(d[..|d| - 1], k);
      assert d[..|d| - 1][..k] == d[..k];
    } else {
      assert d[..k] == d;
    }
  }

  /** The validator: one pass with running totals, refusing at the first fault. */
  method Validate(d: seq<Named>) returns (ok: bool)
    ensures ok <==> Accepted(d)
  {
    hide RootOk, Utf8Bytes;
    var fileCount, totalFileBytes := 0, 0;
    for i := 0 to |d|
      invariant fileCount == FileCount(d[..i]) <= MAX_FILES
      invariant totalFileBytes == TotalBytes(d[..i]) <= MAX_TEXT_BYTES
      invariant forall n :: n in d[..i] ==> RootOk(n)
    {
      assert d[..i + 1][..i] == d[..i] && d[..i + 1] == d[..i] + [d[i]];
      CountsGrow(d, i + 1);
      if !RootOk(d[i]) { assert d[i] in d; return false; }
      if IsFile(d[i]) {
        fileCount := fileCount + 1;
        totalFileBytes := totalFileBytes + Utf8Bytes(d[i].root.text);
      }
      if fileCount > MAX_FILES || totalFileBytes > MAX_TEXT_BYTES { return false; }
    }
    assert d[..|d|] == d;
    return true;
  }

  // ---------- The sanitizer ----------

  /** First pass: the paths to drop, whether anything must change, and the running totals. */
  datatype Scan = Scan(dropped: set<string>, changed: bool, files: nat, bytes: nat)

  function BadFlags(es: seq<Entry>): set<string> {
    set e | e in es && !FlagOk(e) :: e.key
  }

  function ScanRoot(s: Scan, n: Named): Scan {
    if n.name == META then
      if n.root.Map? && forall e :: e in n.root.entries ==> MetaEntryOk(e) then s else s.(changed := true)
    else if n.name == INITIALIZED then
      if !n.root.Map? then s.(changed := true)
      else if BadFlags(n.root.entries) == {} then s
      else s.(dropped := s.dropped + BadFlags(n.root.entries), changed := true)
    else if IsFileName(n.name) then
      var path := PathOf(n.name);
      if !Allowed(path) || !n.root.Text? then s.(dropped := s.dropped + {path}, changed := true) else
      var files, bytes := s.files + 1, s.bytes + Utf8Bytes(n.root.text);
      if files > MAX_FILES || Utf8Bytes(n.root.text) > MAX_FILE_BYTES || bytes > MAX_TEXT_BYTES
      then Scan(s.dropped + {path}, true, files, bytes)
      else s.(files := files, bytes := bytes)
    else s.(changed := true)
  }

  function ScanAll(d: seq<Named>): Scan {
    if d == [] then Scan({}, false, 0, 0) else ScanRoot(ScanAll(d[..|d| - 1]), d[|d| - 1])
  }

  function Keep(es: seq<Entry>, keep: Entry -> bool): seq<Entry> {
    if es == [] then [] else Keep(es[..|es| - 1], keep) + if keep(es[|es| - 1]) then [es[|es| - 1]] else []
  }

  function KeepMeta(es: seq<Entry>): seq<Entry> {
    Keep(es, e => MetaEntryOk(e))
  }

  function KeepFlags(es: seq<Entry>, dropped: set<string>): seq<Entry> {
    Keep(es, (e: Entry) => e.key !in dropped && Safe(e.key) && e.value == True)
  }

  /** Second pass: what a root becomes in the fresh document. */
  function Rebuilt(n: Named, dropped: set<string>): seq<Named> {
    if IsFileName(n.name) then
      if PathOf(n.name) !in dropped && n.root.Text? && n.root.text != "" then [n] else []
    else if n.name == META && n.root.Map? then [n.(root := Map(KeepMeta(n.root.entries)))]
    else if n.name == INITIALIZED && n.root.Map? then [n.(root := Map(KeepFlags(n.root.entries, dropped)))]
    else []
  }

  function RebuiltAll(d: seq<Named>, dropped: set<string>): seq<Named> {
    if d == [] then [] else RebuiltAll(d[..|d| - 1], dropped) + Rebuilt(d[|d| - 1], dropped)
  }

  /** None when a typed getter throws; otherwise the clean document and whether it is a new one. */
  function Sanitize(d: seq<Named>, force: bool): Option<(seq<Named>, bool)> {
    match TypedAll(d)
    case None => None
    case Some(t) =>
      var scan := ScanAll(t);
      if scan.dropped == {} && !scan.changed && !force then Some((t, false))
      else Some((RebuiltAll(t, scan.dropped), true))
  }

  method SanitizeProtectedBuffers(d: seq<Named>, force: bool) returns (r: Option<(seq<Named>, bool)>)
    ensures r == Sanitize(d, force)
  {
    hide ScanRoot, Rebuilt, TypedAll;
    var typed := TypedAll(d);
    if typed.None? { return None; }
    var t := typed.value;
    var scan := Scan({}, false, 0, 0);
    for i := 0 to |t|
      invariant scan == ScanAll(t[..i])
    {
      assert t[..i + 1][..i] == t[..i];
      scan := ScanRoot(scan, t[i]);
    }
    assert t[..|t|] == t;
    if scan.dropped == {} && !scan.changed && !force { return Some((t, false)); }
    var compacted: seq<Named> := [];
    for i := 0 to |t|
      invariant compacted == RebuiltAll(t[..i], scan.dropped)
    {
      assert t[..i + 1][..i] == t[..i];
      compacted := compacted + Rebuilt(t[i], scan.dropped);
    }
    return Some((compacted, true));
  }
}
