/** Which paths the shared code document may hold. */
module CodePath {
  /** String.length: code units of UTF-16. */
  function Units(s: string): nat {
    if s == "" then 0 else (if s[0] as int > 0xFFFF then 2 else 1) + Units(s[1..])
  }

  /** Buffer.byteLength in UTF-8. */
  function Utf8Bytes(s: string): nat {
    if s == "" then 0
    else (var c := s[0] as int; if c < 0x80 then 1 else if c < 0x800 then 2 else if c < 0x1_0000 then 3 else 4)
         + Utf8Bytes(s[1..])
  }

  lemma {:induction false} BytesPerUnit(s: string)
    ensures Utf8Bytes(s) <= 3 * Units(s)
  {
    if s != "" { BytesPerUnit(s[1..]); }
  }

  lemma {:induction false} SizesAdd(s: string, t: string)
    ensures Utf8Bytes(s + t) == Utf8Bytes(s) + Utf8Bytes(t) && Units(s + t) == Units(s) + Units(t)
  {
    if s == "" {
      assert s + t == t;
    } else {
      SizesAdd(s[1..], t);
      assert (s + t)[0] == s[0] && (s + t)[1..] == s[1..] + t;
    }
  }

  /** How many code points fit into n bytes of UTF-8: 7 bits in one, 5n + 1 bits in more. */
  function CodePoints(n: nat): nat {
    if n == 0 then 0 else if n == 1 then 0x80 else if n == 2 then 0x800 else 32 * CodePoints(n - 1)
  }

  /** A character takes as many bytes as its code point needs, and two units beyond the first plane. */
  lemma {:induction false} SizeOfCharacter(c: char)
    ensures var n := Utf8Bytes([c]); 1 <= n && CodePoints(n - 1) <= c as int && (c as int) < CodePoints(n)
    ensures Units([c]) == if c as int < 256 * 256 then 1 else 2
  {
    assert [c][1..] == "";
    assert CodePoints(3) == 32 * CodePoints(2) && CodePoints(4) == 32 * CodePoints(3);
  }

  function Slashes(s: string): string {
    seq(|s|, i requires 0 <= i < |s| => if s[i] == '\\' then '/' else s[i])
  }

  function Lower(s: string): string {
    seq(|s|, i requires 0 <= i < |s| => if 'A' <= s[i] <= 'Z' then (s[i] as int + 32) as char else s[i])
  }

  function Split(s: string, c: char): (parts: seq<string>)
    ensures parts != []
  {
    if s == "" then [""]
    else
      var rest := Split(s[1..], c);
      if s[0] == c then [""] + rest else [[s[0]] + rest[0]] + rest[1..]
  }

  predicate IsLetter(c: char) {
    'a' <= c <= 'z' || 'A' <= c <= 'Z'
  }

  predicate Safe(path: string) {
    var p := Slashes(path);
    && 0 < Units(p) <= 512 && p[0] != '/'
    && !(|p| >= 2 && IsLetter(p[0]) && p[1] == ':')
    && forall i :: 0 <= i < |Split(p, '/')| ==> Split(p, '/')[i] !in ["", ".", ".."]
  }

  predicate EndsWith(s: string, t: string) {
    |s| >= |t| && s[|s| - |t|..] == t
  }

  predicate Protected(path: string) {
    var segments := Split(Lower(Slashes(path)), '/');
    (exists i :: 0 <= i < |segments| && segments[i] in [".aws", ".ssh", ".secrets", ".docker", "secrets"])
    || ProtectedName(segments[|segments| - 1])
  }

  predicate ProtectedName(file: string) {
    && file !in [".env.example", ".env.sample", ".env.template"]
    && (|| file in [".env", ".npmrc", ".netrc", "credentials", "credentials.json", "secrets.json"]
        || ".env." <= file || EndsWith(file, ".pem") || EndsWith(file, ".key") || EndsWith(file, ".p12")
        || EndsWith(file, ".pfx") || "id_rsa" <= file || "id_ed25519" <= file)
  }

  predicate Allowed(path: string) {
    Safe(path) && !Protected(path)
  }

  // ---------- A safe path stays inside the workspace ----------

  /** The directory depth after following the segments from depth d, or -1 once above the root. */
  function Follow(segments: seq<string>, d: int): int {
    if d < 0 || segments == [] then d
    else if segments[0] == ".." then Follow(segments[1..], d - 1)
    else if segments[0] == "." || segments[0] == "" then Follow(segments[1..], d)
    else Follow(segments[1..], d + 1)
  }

  /** Every segment of a safe path goes one directory down, and none goes up. */
  lemma {:induction false} SafePathsGoDown(path: string)
    requires Safe(path)
    ensures Follow(Split(Slashes(path), '/'), 0) == |Split(Slashes(path), '/')|
  {
    GoesDown(Split(Slashes(path), '/'), 0);
  }

  lemma {:induction false} GoesDown(segments: seq<string>, d: nat)
    requires forall i :: 0 <= i < |segments| ==> segments[i] !in ["", ".", ".."]
    ensures Follow(segments, d) == d + |segments|
  {
    if segments != [] {
      assert segments[0] !in ["", ".", ".."];
      GoesDown(segments[1..], d + 1);
    }
  }

  // ---------- Which paths are safe, segment by segment ----------

  predicate Plain(segment: string) {
    '/' !in segment && '\\' !in segment
  }

  function Join(segments: seq<string>): string
    requires segments != []
  {
    if |segments| == 1 then segments[0] else segments[0] + "/" + Join(segments[1..])
  }

  ghost predicate AllPlain(segments: seq<string>) {
    forall i :: 0 <= i < |segments| ==> Plain(segments[i])
  }

  lemma {:induction false} SplitPlain(s: string, rest: string)
    requires Plain(s)
    ensures Split(s, '/') == [s]
    ensures Split(s + "/" + rest, '/') == [s] + Split(rest, '/')
    decreases |s|
  {
    var all := s + "/" + rest;
    if s == "" {
      assert all[0] == '/' && all[1..] == rest;
    } else {
      SplitPlain(s[1..], rest);
      assert all[0] == s[0] && all[1..] == s[1..] + "/" + rest;
      assert s == [s[0]] + s[1..];
    }
  }

  lemma {:induction false} SplitJoin(segments: seq<string>)
    requires segments != [] && AllPlain(segments)
    ensures Split(Join(segments), '/') == segments
    decreases |segments|
  {
    if |segments| == 1 {
      SplitPlain(segments[0], "");
    } else {
      SplitJoin(segments[1..]);
      SplitPlain(segments[0], Join(segments[1..]));
      assert segments == [segments[0]] + segments[1..];
    }
  }

  lemma {:induction false} JoinIsPlain(segments: seq<string>)
    requires segments != [] && AllPlain(segments)
    ensures '\\' !in Join(segments) && Slashes(Join(segments)) == Join(segments)
    decreases |segments|
  {
    if |segments| > 1 { JoinIsPlain(segments[1..]); }
    SlashesOf(Join(segments));
  }

  lemma {:induction false} SlashesOf(s: string)
    requires '\\' !in s
    ensures Slashes(s) == s
  {
    assert forall i :: 0 <= i < |s| ==> s[i] in s;
  }

  /** Two slashes or backslashes mean the same. */
  lemma {:induction false} SlashesDontMatter(path: string)
    ensures Safe(Slashes(path)) == Safe(path) && Protected(Slashes(path)) == Protected(path)
  {
    assert Slashes(Slashes(path)) == Slashes(path);
  }

  /** Every path is segments joined by slashes, once its backslashes are slashes. */
  lemma {:induction false} EveryPathIsJoined(path: string)
    ensures var segments := Split(Slashes(path), '/');
            AllPlain(segments) && Join(segments) == Slashes(path)
  {
    assert '\\' !in Slashes(path);
    SplitsPlainly(Slashes(path));
  }

  lemma {:induction false} SplitsPlainly(s: string)
    requires '\\' !in s
    ensures AllPlain(Split(s, '/')) && Join(Split(s, '/')) == s
  {
    if s != "" {
      var rest := Split(s[1..], '/');
      SplitsPlainly(s[1..]);
      assert s == [s[0]] + s[1..];
      if s[0] == '/' {
        assert ([""] + rest)[1..] == rest;
      } else {
        var all := [[s[0]] + rest[0]] + rest[1..];
        assert Plain(rest[0]) && s[0] in s;
        if |rest| > 1 { assert all[1..] == rest[1..]; }
        assert Join(all) == [s[0]] + Join(rest);
      }
    }
  }

  lemma {:induction false} JoinFrom(segments: seq<string>)
    requires segments != []
    ensures segments[0] <= Join(segments)
    ensures |Join(segments)| > |segments[0]| <==> |segments| > 1
    ensures |segments| > 1 ==> Join(segments)[|segments[0]|] == '/'
  {
  }

  /** Of the paths written with slashes, exactly those are safe that have at most 512 units, no drive
      letter, and no segment that is empty or moves nowhere or up. */
  lemma {:induction false} SafeExactly(segments: seq<string>)
    requires segments != [] && AllPlain(segments)
    ensures Safe(Join(segments)) <==>
              && Units(Join(segments)) <= 512
              && !(|segments[0]| >= 2 && ('a' <= segments[0][0] <= 'z' || 'A' <= segments[0][0] <= 'Z') && segments[0][1] == ':')
              && forall i :: 0 <= i < |segments| ==> segments[i] != "" && segments[i] != "." && segments[i] != ".."
  {
    var p := Join(segments);
    SplitJoin(segments);
    JoinIsPlain(segments);
    JoinFrom(segments);
    assert p != "" ==> Units(p) > 0;
    hide Units, Split, Slashes, Join;
    if segments[0] != "" { assert p[0] == segments[0][0]; }
    if |p| >= 2 && |segments[0]| == 1 { assert p[1] == '/'; }
    if |segments[0]| >= 2 { assert p[1] == segments[0][1]; }
  }

  // ---------- Which paths are protected, name by name ----------

  lemma {:induction false} LowerPlain(s: string)
    ensures Plain(s) ==> Plain(Lower(s))
  {
    if Plain(s) {
      forall i | 0 <= i < |s| ensures Lower(s)[i] != '/' && Lower(s)[i] != '\\' { assert s[i] in s; }
    }
  }

  lemma {:induction false} LowerAppends(s: string, t: string)
    ensures Lower(s + t) == Lower(s) + Lower(t)
  {
  }

  function Upper(s: string): string {
    seq(|s|, i requires 0 <= i < |s| => if 'a' <= s[i] <= 'z' then (s[i] as int - 32) as char else s[i])
  }

  /** Letter case does not matter for what is protected. */
  lemma {:induction false} CaseDoesNotMatter(path: string)
    ensures Lower(Upper(path)) == Lower(path) && Protected(Upper(path)) == Protected(path)
    ensures (forall c :: c in path ==> !('A' <= c <= 'Z')) ==> Lower(path) == path
  {
    forall i | 0 <= i < |path| ensures Lower(Slashes(Upper(path)))[i] == Lower(Slashes(path))[i] && path[i] in path {}
    assert Lower(Slashes(Upper(path))) == Lower(Slashes(path));
    assert Lower(Upper(path)) == Lower(path);
  }

  function LowerAll(segments: seq<string>): seq<string> {
    seq(|segments|, i requires 0 <= i < |segments| => Lower(segments[i]))
  }

  lemma {:induction false} LowerJoin(segments: seq<string>)
    requires segments != []
    ensures Lower(Join(segments)) == Join(LowerAll(segments))
    decreases |segments|
  {
    if |segments| > 1 {
      var rest := segments[1..];
      LowerJoin(rest);
      LowerAppends(segments[0] + "/", Join(rest));
      LowerAppends(segments[0], "/");
      assert Lower("/") == "/";
      assert LowerAll(segments)[1..] == LowerAll(rest);
    } else {
      assert LowerAll(segments) == [Lower(segments[0])];
    }
  }

  /** Lower-case names of directories whose content nobody shares. */
  predicate SecretDirectory(name: string) {
    name == ".aws" || name == ".ssh" || name == ".secrets" || name == ".docker" || name == "secrets"
  }

  /** Lower-case names of files that hold secrets: environments but for three templates, credentials,
      and keys by their endings or beginnings. */
  ghost predicate SecretFile(name: string) {
    || name == ".env" || name == ".npmrc" || name == ".netrc"
    || name == "credentials" || name == "credentials.json" || name == "secrets.json"
    || (exists x :: name == ".env." + x && x != "example" && x != "sample" && x != "template")
    || (exists x :: name == x + ".pem") || (exists x :: name == x + ".key")
    || (exists x :: name == x + ".p12") || (exists x :: name == x + ".pfx")
    || (exists x :: name == "id_rsa" + x) || (exists x :: name == "id_ed25519" + x)
  }

  lemma {:induction false} StartsWith(s: string, t: string)
    ensures t <= s <==> exists x :: s == t + x
  {
    if t <= s { assert s == t + s[|t|..]; }
  }

  lemma {:induction false} EndsWithIs(s: string, t: string)
    ensures EndsWith(s, t) <==> exists x :: s == x + t
  {
    if EndsWith(s, t) { assert s == s[..|s| - |t|] + t; }
    if x :| s == x + t { assert s[|s| - |t|..] == t; }
  }

  lemma {:induction false} EnvironmentIs(name: string)
    ensures (".env." <= name && name !in [".env.example", ".env.sample", ".env.template"])
       <==> exists x :: name == ".env." + x && x != "example" && x != "sample" && x != "template"
  {
    assert ".env." + "example" == ".env.example" && ".env." + "sample" == ".env.sample" && ".env." + "template" == ".env.template";
    if ".env." <= name { assert name == ".env." + name[5..]; }
    if x :| name == ".env." + x && x != "example" && x != "sample" && x != "template" {
      assert name[5..] == x;
      assert ".env.example"[5..] == "example" && ".env.sample"[5..] == "sample" && ".env.template"[5..] == "template";
    }
  }

  lemma {:induction false} NoTemplate(name: string)
    requires name in [".env.example", ".env.sample", ".env.template"]
    ensures !EndsWith(name, ".pem") && !EndsWith(name, ".key") && !EndsWith(name, ".p12") && !EndsWith(name, ".pfx")
    ensures !("id_rsa" <= name) && !("id_ed25519" <= name) && name[0] == '.'
  {
    assert name[|name| - 1] == 'e' && ".pem"[3] == 'm' && ".key"[3] == 'y' && ".p12"[3] == '2' && ".pfx"[3] == 'x';
    assert "id_rsa"[0] == 'i' && "id_ed25519"[0] == 'i';
  }

  lemma {:induction false} ProtectedNameIs(name: string)
    ensures ProtectedName(name) <==> SecretFile(name)
  {
    EnvironmentIs(name);
    StartsWith(name, "id_rsa");
    StartsWith(name, "id_ed25519");
    EndsWithIs(name, ".pem");
    EndsWithIs(name, ".key");
    EndsWithIs(name, ".p12");
    EndsWithIs(name, ".pfx");
    if name in [".env.example", ".env.sample", ".env.template"] { NoTemplate(name); }
    hide EndsWith;
  }

  lemma {:induction false} LoweredSegments(segments: seq<string>)
    requires segments != [] && AllPlain(segments)
    ensures Split(Lower(Slashes(Join(segments))), '/') == LowerAll(segments)
  {
    hide Join, Split, Slashes, Lower, Plain;
    JoinIsPlain(segments);
    LowerJoin(segments);
    forall i | 0 <= i < |segments| ensures Plain(Lower(segments[i])) { LowerPlain(segments[i]); }
    SplitJoin(LowerAll(segments));
  }

  /** A path is protected exactly when, in lower case, one of its segments is a directory of secrets
      or its last is a file of secrets. */
  lemma {:induction false} ProtectedExactly(segments: seq<string>)
    requires segments != [] && AllPlain(segments)
    ensures Protected(Join(segments)) <==>
              || (exists i :: 0 <= i < |segments| && SecretDirectory(Lower(segments[i])))
              || SecretFile(Lower(segments[|segments| - 1]))
  {
    hide Join, Split, Slashes, Lower, SecretFile, SecretDirectory, ProtectedName, AllPlain;
    LoweredSegments(segments);
    ProtectedNameIs(Lower(segments[|segments| - 1]));
    forall i | 0 <= i < |segments|
      ensures Lower(segments[i]) in [".aws", ".ssh", ".secrets", ".docker", "secrets"] <==> SecretDirectory(Lower(segments[i]))
    {
      DirectoryIs(Lower(segments[i]));
    }
    var lower := Split(Lower(Slashes(Join(segments))), '/');
    assert forall i :: 0 <= i < |segments| ==> lower[i] == Lower(segments[i]);
    if i :| 0 <= i < |segments| && SecretDirectory(Lower(segments[i])) {
      assert lower[i] in [".aws", ".ssh", ".secrets", ".docker", "secrets"];
    }
    if i :| 0 <= i < |lower| && lower[i] in [".aws", ".ssh", ".secrets", ".docker", "secrets"] {
      assert SecretDirectory(Lower(segments[i]));
    }
  }

  lemma {:induction false} DirectoryIs(name: string)
    ensures name in [".aws", ".ssh", ".secrets", ".docker", "secrets"] <==> SecretDirectory(name)
  {
  }
}
