/** Memorisation progress: distinct ayahs out of overlapping recited ranges. */
module Hifz {
  import opened Wrappers
  import opened Surahs

  datatype Kind = NewHifz | OtherKind

  datatype Entry = Entry(kind: Kind, surah: int, start: int, end: int, recordedAt: int)

  datatype Range = Range(lo: int, hi: int)

  // ---------- What is counted ----------

  /** The ayahs newly memorised, each as (surah, ayah). */
  ghost function Recited(entries: seq<Entry>): set<Ayah> {
    set e: Entry, a: int | e in entries && e.kind == NewHifz && e.start <= a <= e.end :: Ayah(e.surah, a)
  }

  ghost function Touched(entries: seq<Entry>): set<int> {
    set e | e in entries && e.kind == NewHifz :: e.surah
  }

  /** Ayahs lo to hi of one surah. */
  ghost function Interval(s: int, lo: int, hi: int): set<Ayah>
    decreases hi - lo + 1
  {
    if lo > hi then {} else Interval(s, lo, hi - 1) + {Ayah(s, hi)}
  }

  lemma {:induction false} IntervalIs(s: int, lo: int, hi: int)
    ensures forall p :: p in Interval(s, lo, hi) <==> p.surah == s && lo <= p.number <= hi
    ensures lo <= hi + 1 ==> |Interval(s, lo, hi)| == hi - lo + 1
    decreases hi - lo + 1
  {
    if lo <= hi { IntervalIs(s, lo, hi - 1); }
  }

  predicate Covers(r: Range, a: int) {
    r.lo <= a <= r.hi
  }

  /** The ayahs of one surah that some range covers. */
  ghost function Union(s: int, ranges: seq<Range>): set<Ayah> {
    set r: Range, a: int | r in ranges && r.lo <= a <= r.hi && Covers(r, a) :: Ayah(s, a)
  }

  lemma {:induction false} UnionAppends(s: int, ranges: seq<Range>, r: Range)
    ensures Union(s, ranges + [r]) == Union(s, ranges) + Interval(s, r.lo, r.hi)
  {
    var all := ranges + [r];
    IntervalIs(s, r.lo, r.hi);
    forall p | p in Union(s, ranges) + Interval(s, r.lo, r.hi) ensures p in Union(s, all) {
      if p in Interval(s, r.lo, r.hi) {
        assert all[|ranges|] == r && r in all && Covers(r, p.number) && p == Ayah(s, p.number);
      } else {
        var q, a :| q in ranges && q.lo <= a <= q.hi && Covers(q, a) && p == Ayah(s, a);
        assert q in all;
      }
    }
  }

  // ---------- Sorting ----------

  predicate Sorted(ranges: seq<Range>) {
    forall i, j :: 0 <= i < j < |ranges| ==> ranges[i].lo <= ranges[j].lo
  }

  /** Array.prototype.sort by first ayah: stable. */
  function SortByStart(ranges: seq<Range>): (s: seq<Range>)
    ensures Sorted(s) && |s| == |ranges| && forall r :: r in s <==> r in ranges
  {
    if ranges == [] then []
    else
      assert ranges == ranges[..|ranges| - 1] + [ranges[|ranges| - 1]];
      Insert(SortByStart(ranges[..|ranges| - 1]), ranges[|ranges| - 1])
  }

  function Insert(ranges: seq<Range>, r: Range): (s: seq<Range>)
    requires Sorted(ranges)
    ensures Sorted(s) && |s| == |ranges| + 1 && forall q :: q in s <==> q in ranges || q == r
  {
    if ranges == [] then [r]
    else
      var n := |ranges| - 1;
      assert ranges == ranges[..n] + [ranges[n]];
      if ranges[n].lo <= r.lo then ranges + [r]
      else
        var t := Insert(ranges[..n], r);
        assert forall q :: q in ranges[..n] ==> q.lo <= ranges[n].lo;
        assert forall q :: q in t ==> q.lo <= ranges[n].lo;
        assert forall k :: 0 <= k < |t| ==> t[k] in t;
        t + [ranges[n]]
  }

  // ---------- The sweep ----------

  lemma {:induction false} Touching(s: int, lo: int, hi: int, start: int, end: int)
    requires lo <= start <= hi + 1 && start <= end
    ensures Interval(s, lo, hi) + Interval(s, start, end) == Interval(s, lo, if hi < end then end else hi)
  {
    IntervalIs(s, lo, hi);
    IntervalIs(s, start, end);
    IntervalIs(s, lo, if hi < end then end else hi);
  }

  lemma {:induction false} Apart(s: int, done: set<Ayah>, lo: int, hi: int)
    requires lo <= hi && forall p :: p in done ==> p.number < lo
    ensures |done + Interval(s, lo, hi)| == |done| + (hi - lo + 1)
    ensures forall p :: p in done + Interval(s, lo, hi) ==> p.number <= hi
  {
    IntervalIs(s, lo, hi);
    assert done !! Interval(s, lo, hi);
  }

  /** Sweep the sorted ranges of a surah once, merging those that overlap or touch. */
  method MergedLength(ghost surah: int, ranges: seq<Range>) returns (total: int)
    requires ranges != [] && Sorted(ranges) && forall r :: r in ranges ==> r.lo <= r.hi
    ensures total == |Union(surah, ranges)|
  {
    hide Union, Interval;
    total := 0;
    var curStart, curEnd := ranges[0].lo, ranges[0].hi;
    ghost var done: set<Ayah> := {};
    UnionOfFirst(surah, ranges);
    for i := 1 to |ranges|
      invariant curStart <= curEnd && curStart <= ranges[i - 1].lo
      invariant total == |done| && forall p :: p in done ==> p.number < curStart
      invariant Union(surah, ranges[..i]) == done + Interval(surah, curStart, curEnd)
    {
      var s, en := ranges[i].lo, ranges[i].hi;
      assert ranges[i] in ranges && ranges[..i + 1] == ranges[..i] + [ranges[i]];
      UnionAppends(surah, ranges[..i], ranges[i]);
      if s <= curEnd + 1 {
        Touching(surah, curStart, curEnd, s, en);
        curEnd := if curEnd < en then en else curEnd;
      } else {
        Apart(surah, done, curStart, curEnd);
        total := total + (curEnd - curStart + 1);
        done := done + Interval(surah, curStart, curEnd);
        curStart, curEnd := s, en;
      }
    }
    Apart(surah, done, curStart, curEnd);
    total := total + (curEnd - curStart + 1);
    assert ranges[..|ranges|] == ranges;
  }

  lemma {:induction false} UnionOfFirst(s: int, ranges: seq<Range>)
    requires ranges != [] && ranges[0].lo <= ranges[0].hi
    ensures Union(s, ranges[..1]) == {} + Interval(s, ranges[0].lo, ranges[0].hi)
  {
    assert ranges[..1] == [] + [ranges[0]];
    UnionAppends(s, [], ranges[0]);
  }

  // ---------- By surah ----------

  /** The part of a set of ayahs that lies in one surah. */
  ghost function InSurah(m: set<Ayah>, s: int): set<Ayah> {
    set p | p in m && p.surah == s
  }

  /** The lists are exactly the ranges of the entries, surah by surah. */
  ghost predicate Grouped(entries: seq<Entry>, bySurah: map<int, seq<Range>>) {
    && (forall e :: e in entries && e.kind == NewHifz ==> e.surah in bySurah && Range(e.start, e.end) in bySurah[e.surah])
    && (forall s :: s in bySurah ==> bySurah[s] != [])
    && (forall s, r :: s in bySurah && r in bySurah[s] ==> FromEntry(entries, s, r))
  }

  ghost predicate FromEntry(entries: seq<Entry>, s: int, r: Range) {
    exists e :: e in entries && e.kind == NewHifz && e.surah == s && Range(e.start, e.end) == r
  }

  lemma {:induction false} GroupCovers(entries: seq<Entry>, bySurah: map<int, seq<Range>>, s: int, ranges: seq<Range>)
    requires Grouped(entries, bySurah) && s in bySurah
    requires forall r :: r in ranges <==> r in bySurah[s]
    ensures InSurah(Recited(entries), s) == Union(s, ranges)
  {
    var m, u := Recited(entries), Union(s, ranges);
    forall p | p in InSurah(m, s) ensures p in u {
      assert p in m && p.surah == s;
      var e: Entry, a :| e in entries && e.kind == NewHifz && e.start <= a <= e.end && Ayah(e.surah, a) == p;
      assert Range(e.start, e.end) in ranges && Covers(Range(e.start, e.end), a);
    }
    forall p | p in u ensures p in InSurah(m, s) {
      var r: Range, a :| r in ranges && r.lo <= a <= r.hi && Covers(r, a) && p == Ayah(s, a);
      assert FromEntry(entries, s, r);
    }
  }

  lemma {:induction false} GroupedKeys(entries: seq<Entry>, bySurah: map<int, seq<Range>>)
    requires Grouped(entries, bySurah)
    ensures bySurah.Keys == Touched(entries)
    ensures forall p :: p in Recited(entries) ==> p.surah in bySurah
  {
    forall s | s in bySurah ensures s in Touched(entries) {
      assert bySurah[s][0] in bySurah[s];
      assert FromEntry(entries, s, bySurah[s][0]);
    }
  }

  method GroupBySurah(entries: seq<Entry>) returns (bySurah: map<int, seq<Range>>)
    ensures Grouped(entries, bySurah)
  {
    bySurah := map[];
    for i := 0 to |entries|
      invariant Grouped(entries[..i], bySurah)
    {
      var e := entries[i];
      ghost var before := bySurah;
      assert entries[..i + 1] == entries[..i] + [e];
      if e.kind != NewHifz {
        GroupedSkips(entries[..i], e, bySurah);
        continue;
      }
      var list := if e.surah in bySurah then bySurah[e.surah] else [];
      bySurah := bySurah[e.surah := list + [Range(e.start, e.end)]];
      GroupedAdds(entries[..i], e, before);
    }
    assert entries[..|entries|] == entries;
  }

  lemma {:induction false} GroupedSkips(entries: seq<Entry>, e: Entry, m: map<int, seq<Range>>)
    requires Grouped(entries, m) && e.kind != NewHifz
    ensures Grouped(entries + [e], m)
  {
    forall s, r | s in m && r in m[s] ensures FromEntry(entries + [e], s, r) {
      assert FromEntry(entries, s, r);
    }
  }

  lemma {:induction false} GroupedAdds(entries: seq<Entry>, e: Entry, m: map<int, seq<Range>>)
    requires Grouped(entries, m) && e.kind == NewHifz
    ensures Grouped(entries + [e], m[e.surah := (if e.surah in m then m[e.surah] else []) + [Range(e.start, e.end)]])
  {
    var m' := m[e.surah := (if e.surah in m then m[e.surah] else []) + [Range(e.start, e.end)]];
    forall s, r | s in m' && r in m'[s] ensures FromEntry(entries + [e], s, r) {
      if s != e.surah || r != Range(e.start, e.end) {
        assert FromEntry(entries, s, r);
      } else {
        assert e in entries + [e];
      }
    }
  }

  /** Distinct-ayah progress: the number of ayahs in the union of all newly memorised ranges. */
  method Summarize(entries: seq<Entry>) returns (ayahsMemorized: int, surahsTouched: nat, lastRecitedAt: Option<int>)
    requires forall e :: e in entries && e.kind == NewHifz ==> e.start <= e.end
    ensures ayahsMemorized == |Recited(entries)|
    ensures surahsTouched == |Touched(entries)|
    ensures lastRecitedAt == if entries == [] then None else Some(entries[0].recordedAt)
  {
    var bySurah := GroupBySurah(entries);
    GroupedKeys(entries, bySurah);
    ghost var all := Recited(entries);
    ayahsMemorized := 0;
    var left := bySurah.Keys;
    ghost var counted: set<Ayah> := {};
    while left != {}
      invariant left <= bySurah.Keys
      invariant counted == set p | p in all && p.surah !in left
      invariant ayahsMemorized == |counted|
      decreases |left|
    {
      var s :| s in left;
      var ranges := SortByStart(bySurah[s]);
      forall r | r in ranges ensures r.lo <= r.hi {
        assert FromEntry(entries, s, r);
      }
      var n := MergedLength(s, ranges);
      GroupCovers(entries, bySurah, s, ranges);
      counted := counted + InSurah(all, s);
      ayahsMemorized := ayahsMemorized + n;
      left := left - {s};
    }
    assert counted == all;
    surahsTouched := |bySurah|;
    lastRecitedAt := if |entries| > 0 then Some(entries[0].recordedAt) else None;
  }

  // ---------- What follows for the count ----------

  ghost function Progress(entries: seq<Entry>): nat {
    |Recited(entries)|
  }

  lemma {:induction false} SubsetSize<T>(a: set<T>, b: set<T>)
    requires a <= b
    ensures |a| <= |b| && (|a| == |b| ==> a == b)
  {
    assert b == a + (b - a);
  }

  /** One more entry never lowers the count, and raises it exactly if it has a new ayah. */
  lemma {:induction false} ProgressGrows(entries: seq<Entry>, e: Entry)
    ensures Progress(entries) <= Progress(entries + [e])
    ensures Progress(entries) == Progress(entries + [e]) <==>
              (e.kind == NewHifz ==> forall a :: e.start <= a <= e.end ==> Ayah(e.surah, a) in Recited(entries))
  {
    var m, m' := Recited(entries), Recited(entries + [e]);
    SubsetSize(m, m');
    if e.kind == NewHifz ==> forall a :: e.start <= a <= e.end ==> Ayah(e.surah, a) in m {
      assert m == m';
    } else {
      var a :| e.start <= a <= e.end && Ayah(e.surah, a) !in m;
      assert e in entries + [e] && Ayah(e.surah, a) in m';
    }
  }

  /** The count depends on which entries there are, not on their order or repetition. */
  lemma {:induction false} ProgressIgnoresOrder(xs: seq<Entry>, ys: seq<Entry>)
    requires forall e :: e in xs <==> e in ys
    ensures Progress(xs) == Progress(ys)
  {
    assert Recited(xs) == Recited(ys);
  }

  /** With entries that the validator accepted, progress never exceeds the whole Qur'an. */
  lemma {:induction false} ProgressIsBounded(entries: seq<Entry>)
    requires forall e :: e in entries ==> ValidateRef(e.surah, e.start, e.end).Ok?
    ensures Progress(entries) <= TOTAL_AYAHS
  {
    hide AyahCount;
    TheWholeQuran();
    forall p | p in Recited(entries) ensures p in Ayahs(SURAH_COUNT) {
      var e: Entry :| e in entries && e.kind == NewHifz && e.start <= p.number <= e.end && e.surah == p.surah;
      AcceptedExactly(e.surah, e.start, e.end);
    }
    SubsetSize(Recited(entries), Ayahs(SURAH_COUNT));
  }
}
