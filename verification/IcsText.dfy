/** Free text in a calendar file: the escaping of titles, and how RFC 5545 reads it. */
module IcsText {
  import opened Wrappers

  function ReplaceAll(s: string, c: char, sub: string): string {
    if s == "" then "" else (if s[0] == c then sub else [s[0]]) + ReplaceAll(s[1..], c, sub)
  }

  function Esc(s: string): string {
    ReplaceAll(ReplaceAll(ReplaceAll(ReplaceAll(s, '\\', "\\\\"), ';', "\\;"), ',', "\\,"), '\n', "\\n")
  }

  /** TEXT of RFC 5545 section 3.3.11: a backslash stands before a backslash, a semicolon, a
      comma, or the letter n for a line break. */
  function ReadText(s: string): Option<string> {
    if s == "" then Some("")
    else if s[0] == '\\' then
      if |s| == 1 then None else
      match ReadText(s[2..])
      case None => None
      case Some(rest) =>
        if s[1] == '\\' || s[1] == ';' || s[1] == ',' then Some([s[1]] + rest)
        else if s[1] == 'n' || s[1] == 'N' then Some("\n" + rest)
        else None
    else if s[0] == ';' || s[0] == ',' || s[0] == '\n' then None
    else
      match ReadText(s[1..])
      case None => None
      case Some(rest) => Some([s[0]] + rest)
  }

  lemma {:induction false} ReplaceAllAppends(s: string, t: string, c: char, sub: string)
    ensures ReplaceAll(s + t, c, sub) == ReplaceAll(s, c, sub) + ReplaceAll(t, c, sub)
  {
    if s == "" {
      assert s + t == t;
    } else {
      ReplaceAllAppends(s[1..], t, c, sub);
      assert (s + t)[1..] == s[1..] + t && (s + t)[0] == s[0];
      var head := if s[0] == c then sub else [s[0]];
      var x, y := ReplaceAll(s[1..], c, sub), ReplaceAll(t, c, sub);
      assert ReplaceAll(s + t, c, sub) == head + (x + y);
      assert head + (x + y) == (head + x) + y;
    }
  }

  function EscChar(c: char): string {
    if c == '\\' then "\\\\" else if c == ';' then "\\;" else if c == ',' then "\\," else if c == '\n' then "\\n" else [c]
  }

  /** The four replacements, one after the other, escape each character once. */
  lemma {:induction false} EscIsOnePass(c: char, s: string)
    ensures Esc([c] + s) == EscChar(c) + Esc(s)
  {
    ReplaceAllAppends([c], s, '\\', "\\\\");
    var a := ReplaceAll([c], '\\', "\\\\");
    var s1 := ReplaceAll(s, '\\', "\\\\");
    ReplaceAllAppends(a, s1, ';', "\\;");
    var b := ReplaceAll(a, ';', "\\;");
    var s2 := ReplaceAll(s1, ';', "\\;");
    ReplaceAllAppends(b, s2, ',', "\\,");
    var d := ReplaceAll(b, ',', "\\,");
    ReplaceAllAppends(d, ReplaceAll(s2, ',', "\\,"), '\n', "\\n");
    EscOfOne(c);
  }

  lemma {:induction false} EscOfOne(c: char)
    ensures Esc([c]) == EscChar(c)
  {
    assert ReplaceAll([c], '\\', "\\\\") == if c == '\\' then "\\\\" else [c];
    Twice('\\', ';', "\\;");
    Twice('\\', ',', "\\,");
    Twice('\\', '\n', "\\n");
    Twice(';', ',', "\\,");
    Twice(';', '\n', "\\n");
    Twice(',', '\n', "\\n");
  }

  /** A pair that starts with a backslash is left alone by the later replacements. */
  lemma {:induction false} Twice(x: char, c: char, sub: string)
    requires x != c && c != '\\'
    ensures ReplaceAll(['\\', x], c, sub) == ['\\', x]
  {
    assert ['\\', x][1..] == [x];
    assert ReplaceAll([x], c, sub) == [x];
  }

  /** Whatever a title holds, a calendar reads it back, and the file's lines stay whole. */
  lemma {:induction false} TitlesReadBack(s: string)
    ensures ReadText(Esc(s)) == Some(s) && '\n' !in Esc(s)
  {
    if s != "" {
      TitlesReadBack(s[1..]);
      assert s == [s[0]] + s[1..];
      EscIsOnePass(s[0], s[1..]);
      var e, c := Esc(s), EscChar(s[0]);
      assert e[|c|..] == Esc(s[1..]);
    }
  }
}
