/** The parts of a mark: words and letters of the text, checked, deduplicated and put in reading
    order. */
module QuranWords {
  import opened Wrappers
  import opened Text

  /** A value off the wire: absent or null, a whole number, or anything else. */
  datatype Wire = Absent | Whole(n: int) | Other

  datatype PartRef = PartRef(surah: Wire, ayah: Wire, word: Wire, letter: Wire)

  /** A part as it is stored; without a word it is the whole ayah, without a letter the whole word. */
  datatype Part = Part(surah: nat, ayah: nat, word: Option<nat>, letter: Option<nat>)

  datatype PartError =
    NothingPicked | TooMany | BadSurah | NoSuchAyah | LetterWithoutWord | NoSuchWord | NoSuchLetter

  /** The words of an ayah, each by its number of letters; None if there is no such ayah. */
  type Words = (nat, nat) -> Option<seq<nat>>

  const MAX_PARTS := 64

  function Resolve(p: PartRef, text: Words): Result<Part, PartError> {
    if !p.surah.Whole? || p.surah.n < 1 || p.surah.n > 114 then Err(BadSurah) else
    var words := if p.ayah.Whole? && p.ayah.n >= 1 then text(p.surah.n, p.ayah.n) else None;
    if words.None? then Err(NoSuchAyah)
    else if p.word == Absent then
      if p.letter != Absent then Err(LetterWithoutWord) else Ok(Part(p.surah.n, p.ayah.n, None, None))
    else if !p.word.Whole? || p.word.n < 0 || p.word.n >= |words.value| then Err(NoSuchWord)
    else if p.letter == Absent then Ok(Part(p.surah.n, p.ayah.n, Some(p.word.n), None))
    else if !p.letter.Whole? || p.letter.n < 0 || p.letter.n >= words.value[p.word.n] then Err(NoSuchLetter)
    else Ok(Part(p.surah.n, p.ayah.n, Some(p.word.n), Some(p.letter.n)))
  }

  // ---------- Which parts are there ----------

  function AsWire(n: Option<nat>): Wire {
    match n case None => Absent case Some(k) => Whole(k)
  }

  function AsRef(p: Part): PartRef {
    PartRef(Whole(p.surah), Whole(p.ayah), AsWire(p.word), AsWire(p.letter))
  }

  /** The text has this ayah, word or letter. */
  ghost predicate InText(q: Part, text: Words) {
    && 1 <= q.surah <= 114 && q.ayah >= 1 && text(q.surah, q.ayah).Some?
    && var words := text(q.surah, q.ayah).value;
       && (q.word.Some? ==> q.word.value < |words|)
       && (q.letter.Some? ==> q.word.Some? && q.letter.value < words[q.word.value])
  }

  /** A reference is accepted exactly for a part of the text that it names on the wire. */
  lemma {:induction false} ResolvesExactly(p: PartRef, q: Part, text: Words)
    ensures Resolve(p, text) == Ok(q) <==> InText(q, text) && p == AsRef(q)
  {
  }

  /** What is wrong with a reference, from its surah down to its letter. */
  ghost predicate Wrong(p: PartRef, text: Words, e: PartError) {
    var surahOk := p.surah.Whole? && 1 <= p.surah.n <= 114;
    var ayahOk := surahOk && p.ayah.Whole? && p.ayah.n >= 1 && text(p.surah.n, p.ayah.n).Some?;
    var wordOk := ayahOk && p.word.Whole? && 0 <= p.word.n < |text(p.surah.n, p.ayah.n).value|;
    match e
    case BadSurah => !surahOk
    case NoSuchAyah => surahOk && !ayahOk
    case LetterWithoutWord => ayahOk && p.word.Absent? && !p.letter.Absent?
    case NoSuchWord => ayahOk && !p.word.Absent? && !wordOk
    case NoSuchLetter =>
      wordOk && !p.letter.Absent? && !(p.letter.Whole? && 0 <= p.letter.n < text(p.surah.n, p.ayah.n).value[p.word.n])
    case _ => false
  }

  lemma {:induction false} RefusedExactly(p: PartRef, text: Words, e: PartError)
    ensures Resolve(p, text) == Err(e) <==> Wrong(p, text, e)
  {
  }

  // ---------- Dedupe keys ----------

  function OptText(n: Option<nat>): string {
    match n case None => "" case Some(k) => Dec(k)
  }

  function Key(p: Part): string {
    Dec(p.surah) + ":" + (Dec(p.ayah) + ":" + (OptText(p.word) + ":" + OptText(p.letter)))
  }

  lemma {:induction false} SplitAtColon(a: string, x: string, b: string, y: string)
    requires AllDigits(a) && AllDigits(b) && a + ":" + x == b + ":" + y
    ensures a == b && x == y
  {
    var s, t := a + ":" + x, b + ":" + y;
    assert s[0] == t[0] && s[1..] == t[1..];
    if a != "" && b != "" {
      assert s[1..] == a[1..] + ":" + x && t[1..] == b[1..] + ":" + y;
      SplitAtColon(a[1..], x, b[1..], y);
    } else if a == b {
      assert s[1..] == x && t[1..] == y;
    }
  }

  lemma {:induction false} OptTextInjective(m: Option<nat>, n: Option<nat>)
    ensures AllDigits(OptText(m)) && (OptText(m) == OptText(n) ==> m == n)
  {
    if m.Some? { DecRoundTrip(m.value); }
    if n.Some? { DecRoundTrip(n.value); }
  }

  /** Two parts have one dedupe key only if they are the same part. */
  lemma {:induction false} KeyInjective(p: Part, q: Part)
    requires Key(p) == Key(q)
    ensures p == q
  {
    hide Dec, OptText, AllDigits;
    DecRoundTrip(p.surah);
    DecRoundTrip(q.surah);
    DecRoundTrip(p.ayah);
    DecRoundTrip(q.ayah);
    OptTextInjective(p.word, q.word);
    OptTextInjective(q.word, p.word);
    OptTextInjective(p.letter, q.letter);
    SplitAtColon(Dec(p.surah), Dec(p.ayah) + ":" + (OptText(p.word) + ":" + OptText(p.letter)),
                 Dec(q.surah), Dec(q.ayah) + ":" + (OptText(q.word) + ":" + OptText(q.letter)));
    SplitAtColon(Dec(p.ayah), OptText(p.word) + ":" + OptText(p.letter),
                 Dec(q.ayah), OptText(q.word) + ":" + OptText(q.letter));
    SplitAtColon(OptText(p.word), OptText(p.letter), OptText(q.word), OptText(q.letter));
    DecInjective(p.surah, q.surah);
    DecInjective(p.ayah, q.ayah);
  }

  // ---------- Reading order ----------

  function Rank(n: Option<nat>): int {
    match n case None => -1 case Some(k) => k
  }

  /** The comparator of the sort: negative, zero or positive. */
  function Compare(a: Part, b: Part): int {
    if a.surah != b.surah then a.surah - b.surah
    else if a.ayah != b.ayah then a.ayah - b.ayah
    else if Rank(a.word) != Rank(b.word) then Rank(a.word) - Rank(b.word)
    else Rank(a.letter) - Rank(b.letter)
  }

  ghost predicate InReadingOrder(s: seq<Part>) {
    forall i, j :: 0 <= i < j < |s| ==> Compare(s[i], s[j]) < 0
  }

  ghost predicate Distinct(s: seq<Part>) {
    forall i, j :: 0 <= i < j < |s| ==> s[i] != s[j]
  }

  /** Earlier in the text; a whole ayah before its words, a whole word before its letters. */
  ghost predicate Before(a: Part, b: Part) {
    || a.surah < b.surah
    || (a.surah == b.surah && a.ayah < b.ayah)
    || (a.surah == b.surah && a.ayah == b.ayah && a.word.None? && b.word.Some?)
    || (a.surah == b.surah && a.ayah == b.ayah && a.word.Some? && b.word.Some? && a.word.value < b.word.value)
    || (a.surah == b.surah && a.ayah == b.ayah && a.word == b.word && a.letter.None? && b.letter.Some?)
    || (a.surah == b.surah && a.ayah == b.ayah && a.word == b.word && a.letter.Some? && b.letter.Some? && a.letter.value < b.letter.value)
  }

  lemma {:induction false} ComparesExactly(a: Part, b: Part)
    ensures Compare(a, b) < 0 <==> Before(a, b)
  {
  }

  /** Array.prototype.sort on parts. */
  function Sort(s: seq<Part>): seq<Part> {
    if s == [] then [] else Insert(Sort(s[..|s| - 1]), s[|s| - 1])
  }

  function Insert(s: seq<Part>, p: Part): seq<Part> {
    if s == [] then [p]
    else
      var n := |s| - 1;
      if Compare(s[n], p) <= 0 then s + [p] else Insert(s[..n], p) + [s[n]]
  }

  lemma {:induction false} OrderIsTotal(a: Part, b: Part, c: Part)
    ensures Compare(a, b) == 0 <==> a == b
    ensures Compare(a, b) < 0 <==> Compare(b, a) > 0
    ensures Compare(a, b) < 0 && Compare(b, c) < 0 ==> Compare(a, c) < 0
  {
  }

  lemma {:induction false} InOrderAppend(s: seq<Part>, p: Part)
    requires InReadingOrder(s) && forall q :: q in s ==> Compare(q, p) < 0
    ensures InReadingOrder(s + [p])
  {
    hide Compare;
    assert forall k :: 0 <= k < |s| ==> s[k] in s;
  }

  lemma {:induction false} InOrderInit(s: seq<Part>)
    requires InReadingOrder(s) && s != []
    ensures var init, last := s[..|s| - 1], s[|s| - 1];
            InReadingOrder(init) && forall q :: q in init ==> Compare(q, last) < 0
  {
    hide Compare;
  }

  lemma {:induction false} InsertSorts(s: seq<Part>, p: Part)
    requires InReadingOrder(s) && p !in s
    ensures InReadingOrder(Insert(s, p)) && |Insert(s, p)| == |s| + 1
    ensures forall q :: q in Insert(s, p) <==> q in s || q == p
  {
    hide Compare, InReadingOrder;
    if s == [] {
      JustOne(p);
    } else {
      var n := |s| - 1;
      var last := s[n];
      assert s == s[..n] + [last] && last in s;
      InOrderInit(s);
      OrderIsTotal(last, p, p);
      if Compare(last, p) <= 0 {
        forall q | q in s ensures Compare(q, p) < 0 { OrderIsTotal(q, last, p); }
        InOrderAppend(s, p);
      } else {
        InsertSorts(s[..n], p);
        forall q | q in Insert(s[..n], p) ensures Compare(q, last) < 0 { OrderIsTotal(p, last, last); }
        InOrderAppend(Insert(s[..n], p), last);
      }
    }
  }

  lemma {:induction false} JustOne(p: Part)
    ensures InReadingOrder([p])
  {
  }

  lemma {:induction false} SortSorts(s: seq<Part>)
    requires Distinct(s)
    ensures InReadingOrder(Sort(s)) && |Sort(s)| == |s| && forall p :: p in Sort(s) <==> p in s
  {
    if s != [] {
      var n := |s| - 1;
      assert s == s[..n] + [s[n]] && s[n] !in s[..n];
      SortSorts(s[..n]);
      InsertSorts(Sort(s[..n]), s[n]);
      hide Insert, InReadingOrder;
    }
  }

  // ---------- Validation ----------

  /** The canonical form of a list: strictly in reading order, and exactly the parts it names. */
  ghost predicate Canonical(list: seq<PartRef>, text: Words, out: seq<Part>) {
    && InReadingOrder(out) && |out| <= |list|
    && (forall p :: p in list ==> Resolve(p, text).Ok? && Resolve(p, text).value in out)
    && (forall q :: q in out ==> exists p :: p in list && Resolve(p, text) == Ok(q))
  }

  /** What the first part in trouble is refused with, if any is. */
  function FirstError(list: seq<PartRef>, text: Words): Option<PartError> {
    if list == [] then None
    else match Resolve(list[0], text)
      case Err(e) => Some(e)
      case Ok(_) => FirstError(list[1..], text)
  }

  /** The error is that of the first reference that has one. */
  lemma {:induction false} FirstErrorIs(list: seq<PartRef>, text: Words, e: PartError)
    ensures FirstError(list, text) == Some(e) <==>
              exists i :: 0 <= i < |list| && Wrong(list[i], text, e) && forall j :: 0 <= j < i ==> Resolve(list[j], text).Ok?
    ensures FirstError(list, text) == None <==> forall i :: 0 <= i < |list| ==> Resolve(list[i], text).Ok?
    decreases |list|
  {
    hide Resolve, Wrong;
    if list != [] {
      var rest := list[1..];
      FirstErrorIs(rest, text, e);
      RefusedExactly(list[0], text, e);
      assert forall i :: 1 <= i < |list| ==> list[i] == rest[i - 1];
      if Resolve(list[0], text).Ok? {
        if i :| 0 <= i < |rest| && Wrong(rest[i], text, e) && forall j :: 0 <= j < i ==> Resolve(rest[j], text).Ok? {
          assert list[i + 1] == rest[i];
          assert forall j :: 0 <= j < i + 1 ==> Resolve(list[j], text).Ok?;
        }
        if i :| 1 <= i < |list| && Wrong(list[i], text, e) && forall j :: 0 <= j < i ==> Resolve(list[j], text).Ok? {
          assert rest[i - 1] == list[i];
          forall j | 0 <= j < i - 1 ensures Resolve(rest[j], text).Ok? { assert rest[j] == list[j + 1]; }
        }
      }
    }
  }

  /** What is stored, without the sort or the keys: strictly in the order of the text, and exactly
      the parts of the text that the references name. */
  lemma {:induction false} CanonicalIs(list: seq<PartRef>, text: Words, out: seq<Part>)
    requires Canonical(list, text, out)
    ensures forall i, j :: 0 <= i < j < |out| ==> Before(out[i], out[j])
    ensures forall q :: q in out <==> InText(q, text) && AsRef(q) in list
  {
    hide Resolve, Compare, Before, InText, AsRef;
    forall i, j | 0 <= i < j < |out| ensures Before(out[i], out[j]) { ComparesExactly(out[i], out[j]); }
    forall q ensures q in out <==> InText(q, text) && AsRef(q) in list {
      if q in out {
        var p :| p in list && Resolve(p, text) == Ok(q);
        ResolvesExactly(p, q, text);
      }
      ResolvesExactly(AsRef(q), q, text);
    }
  }

  method ValidateParts(parts: Option<seq<PartRef>>, max: nat, text: Words) returns (r: Result<seq<Part>, PartError>)
    ensures var list := if parts.Some? then parts.value else [];
            && (list == [] ==> r == Err(NothingPicked))
            && (list != [] && |list| > max ==> r == Err(TooMany))
            && (list != [] && |list| <= max ==>
                 match FirstError(list, text)
                 case Some(e) => r == Err(e)
                 case None => r.Ok? && Canonical(list, text, r.value))
  {
    hide Resolve, Key, InReadingOrder;
    var list := if parts.Some? then parts.value else [];
    if |list| == 0 { return Err(NothingPicked); }
    if |list| > max { return Err(TooMany); }
    var seen: set<string> := {};
    var out: seq<Part> := [];
    for i := 0 to |list|
      invariant FirstError(list, text) == FirstError(list[i..], text)
      invariant forall p :: p in out <==> Key(p) in seen
      invariant Collected(list[..i], text, out)
    {
      var part := Resolve(list[i], text);
      assert list[i..][0] == list[i] && list[i..][1..] == list[i + 1..];
      if part.Err? { return Err(part.error); }
      assert list[..i + 1] == list[..i] + [list[i]];
      CollectOne(list[..i], list[i], text, out, part.value);
      var key := Key(part.value);
      if key !in seen {
        AddKey(out, part.value, seen);
        seen := seen + {key};
        out := out + [part.value];
      }
    }
    assert list[..|list|] == list;
    SortSorts(out);
    r := Ok(Sort(out));
  }

  /** The parts named so far, each once. */
  ghost predicate Collected(list: seq<PartRef>, text: Words, out: seq<Part>) {
    && Distinct(out) && |out| <= |list|
    && (forall p :: p in list ==> Resolve(p, text).Ok? && Resolve(p, text).value in out)
    && (forall q :: q in out ==> exists p :: p in list && Resolve(p, text) == Ok(q))
  }

  lemma {:induction false} CollectOne(list: seq<PartRef>, p: PartRef, text: Words, out: seq<Part>, q: Part)
    requires Collected(list, text, out) && Resolve(p, text) == Ok(q)
    ensures q in out ==> Collected(list + [p], text, out)
    ensures q !in out ==> Collected(list + [p], text, out + [q])
  {
    hide Resolve;
    assert forall x :: x in out ==> exists y :: y in list && y in list + [p] && Resolve(y, text) == Ok(x);
    assert (list + [p])[|list|] == p && p in list + [p];
    if q !in out {
      assert (out + [q])[|out|] == q && q in out + [q];
    }
  }

  lemma {:induction false} AddKey(out: seq<Part>, q: Part, seen: set<string>)
    requires (forall p :: p in out <==> Key(p) in seen) && Key(q) !in seen
    ensures forall p :: p in out + [q] <==> Key(p) in seen + {Key(q)}
  {
    hide Key;
    forall p ensures p in out + [q] <==> Key(p) in seen + {Key(q)} {
      if Key(p) == Key(q) { KeyInjective(p, q); }
    }
  }

  // ---------- The canonical form is canonical ----------

  /** Two lists in reading order with the same parts are the same list. */
  lemma {:induction false} OneOrderOnly(s: seq<Part>, t: seq<Part>)
    requires InReadingOrder(s) && InReadingOrder(t)
    requires forall p :: p in s <==> p in t
    ensures s == t
    decreases |s|
  {
    if s == [] {
      if t != [] { SameFirst(t, s); }
    } else {
      assert s[0] in s;
      SameFirst(s, t);
      var x, y := s[1..], t[1..];
      assert s == [s[0]] + x && t == [t[0]] + y;
      HeadIsOnce(s);
      HeadIsOnce(t);
      hide Compare;
      assert forall p :: p in x <==> p in s && p != s[0];
      assert forall p :: p in y <==> p in t && p != t[0];
      OneOrderOnly(x, y);
    }
  }

  lemma {:induction false} HeadIsOnce(s: seq<Part>)
    requires InReadingOrder(s) && s != []
    ensures s[0] !in s[1..]
  {
    forall k | 1 <= k < |s| ensures s[k] != s[0] {
      assert Compare(s[0], s[k]) < 0;
    }
  }

  lemma {:induction false} SameFirst(s: seq<Part>, t: seq<Part>)
    requires InReadingOrder(s) && InReadingOrder(t) && s != []
    requires forall p :: p in s <==> p in t
    ensures t != [] && s[0] == t[0]
  {
    assert s[0] in s && s[0] in t;
    assert t[0] in t && t[0] in s;
    var i :| 0 <= i < |s| && s[i] == t[0];
    var j :| 0 <= j < |t| && t[j] == s[0];
    OrderIsTotal(s[0], t[0], s[0]);
  }

  /** Lists that name the same parts are stored alike. */
  lemma {:induction false} SamePartsSameForm(xs: seq<PartRef>, ys: seq<PartRef>, text: Words, s: seq<Part>, t: seq<Part>)
    requires Canonical(xs, text, s) && Canonical(ys, text, t)
    requires forall q :: (exists p :: p in xs && Resolve(p, text) == Ok(q)) <==> (exists p :: p in ys && Resolve(p, text) == Ok(q))
    ensures s == t
  {
    hide Resolve, Compare;
    forall q ensures q in s <==> q in t {
      if q in s || q in t { assert (exists p :: p in xs && Resolve(p, text) == Ok(q)) && (exists p :: p in ys && Resolve(p, text) == Ok(q)); }
    }
    OneOrderOnly(s, t);
  }

  function AsRefs(s: seq<Part>): seq<PartRef> {
    seq(|s|, i requires 0 <= i < |s| => AsRef(s[i]))
  }

  lemma {:induction false} ResolvedAgain(p: PartRef, text: Words)
    requires Resolve(p, text).Ok?
    ensures Resolve(AsRef(Resolve(p, text).value), text) == Resolve(p, text)
  {
  }

  /** Storing a stored mark again changes nothing: whatever form it gets is the one it had. */
  lemma {:induction false} StoringAgainChangesNothing(list: seq<PartRef>, text: Words, out: seq<Part>, again: seq<Part>)
    requires Canonical(list, text, out)
    ensures FirstError(AsRefs(out), text) == None
    ensures Canonical(AsRefs(out), text, again) ==> again == out
  {
    hide Resolve, Compare, AsRef;
    var refs := AsRefs(out);
    forall i | 0 <= i < |refs| ensures Resolve(refs[i], text) == Ok(out[i]) {
      assert out[i] in out;
      var p :| p in list && Resolve(p, text) == Ok(out[i]);
      ResolvedAgain(p, text);
    }
    NoError(refs, text);
    if Canonical(refs, text, again) {
      forall q ensures q in again <==> q in out {
        if q in again {
          var p :| p in refs && Resolve(p, text) == Ok(q);
          var i :| 0 <= i < |refs| && refs[i] == p;
          assert q == out[i];
        }
        if i :| 0 <= i < |out| && out[i] == q {
          assert refs[i] in refs;
        }
      }
      OneOrderOnly(again, out);
    }
  }

  lemma {:induction false} NoError(list: seq<PartRef>, text: Words)
    requires forall i :: 0 <= i < |list| ==> Resolve(list[i], text).Ok?
    ensures FirstError(list, text) == None
  {
    if list != [] {
      hide Resolve;
      NoError(list[1..], text);
    }
  }

  /** A mark is filed under its least ayah. */
  function FirstAyahOf(parts: seq<Part>): (nat, nat)
    requires parts != []
  {
    (parts[0].surah, parts[0].ayah)
  }

  lemma {:induction false} FiledUnderTheLeastAyah(list: seq<PartRef>, text: Words, out: seq<Part>)
    requires list != [] && Canonical(list, text, out)
    ensures out != []
    ensures var (s, a) := FirstAyahOf(out);
            forall p :: p in list ==> var q := Resolve(p, text).value; s < q.surah || (s == q.surah && a <= q.ayah)
  {
    assert list[0] in list;
    forall p | p in list
      ensures var q := Resolve(p, text).value;
              out[0].surah < q.surah || (out[0].surah == q.surah && out[0].ayah <= q.ayah)
    {
      var q := Resolve(p, text).value;
      hide Resolve;
      var i :| 0 <= i < |out| && out[i] == q;
      if i > 0 { assert Compare(out[0], out[i]) < 0; }
    }
  }
}
