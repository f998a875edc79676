/** What instant a wall-clock time of a zone stands for, after section 3.3.5 of RFC 5545: the first
    of the instants at which clocks show it or, when a change skips it, the time told by the offset
    that held before the gap. */
module LocalTime {
  import opened CivilDate
  import opened Zone

  type Reader = int -> int

  ghost predicate Occurs(tz: Offset, w: int) {
    exists t :: Shown(tz, t) == w
  }

  ghost predicate FirstShown(tz: Offset, w: int, t: int) {
    Shown(tz, t) == w && forall u :: u < t ==> Shown(tz, u) != w
  }

  /** At g the clocks are past w for the first time. */
  ghost predicate FirstPast(tz: Offset, w: int, g: int) {
    Shown(tz, g) > w && forall u :: u < g ==> Shown(tz, u) < w
  }

  ghost predicate Reads(tz: Offset, w: int, r: int) {
    if Occurs(tz, w) then FirstShown(tz, w, r)
    else exists g :: FirstPast(tz, w, g) && r == w - tz(g - 1)
  }

  ghost predicate Follows(read: Reader, tz: Offset) {
    forall w :: Reads(tz, w, read(w))
  }

  /** The zone's offsets never differ by a day. */
  ghost predicate Narrow(tz: Offset) {
    forall a, b :: tz(a) - tz(b) < DAY_MS
  }

  // ---------- Every wall-clock time has one reading ----------

  lemma {:induction false} FindPast(tz: Offset, w: int, t: int) returns (g: int)
    requires Civil(tz) && forall u :: u < t ==> Shown(tz, u) < w
    ensures Shown(tz, g) >= w && forall u :: u < g ==> Shown(tz, u) < w
    decreases w + DAY_MS - t
  {
    assert -DAY_MS < tz(t);
    if Shown(tz, t) >= w {
      g := t;
    } else {
      g := FindPast(tz, w, t + 1);
    }
  }

  lemma {:induction false} FindFirst(tz: Offset, w: int, t: int, s: int) returns (f: int)
    requires Shown(tz, s) == w && t <= s && forall u :: u < t ==> Shown(tz, u) != w
    ensures FirstShown(tz, w, f)
    decreases s - t
  {
    if Shown(tz, t) == w {
      f := t;
    } else {
      f := FindFirst(tz, w, t + 1, s);
    }
  }

  lemma {:induction false} OneReading(tz: Offset, w: int) returns (r: int)
    requires Civil(tz)
    ensures forall q :: Reads(tz, w, q) <==> q == r
  {
    forall u | u < w - DAY_MS ensures Shown(tz, u) < w { assert tz(u) < DAY_MS; }
    var g := FindPast(tz, w, w - DAY_MS);
    if Occurs(tz, w) {
      var s :| Shown(tz, s) == w;
      r := FindFirst(tz, w, g, s);
    } else {
      assert FirstPast(tz, w, g);
      r := w - tz(g - 1);
      forall h | FirstPast(tz, w, h) ensures h == g {}
    }
  }

  ghost function ReadingOf(tz: Offset, w: int): int {
    if exists r :: Reads(tz, w, r) then var r :| Reads(tz, w, r); r else 0
  }

  /** So every zone has a reader that follows it. */
  lemma {:induction false} EveryZoneIsRead(tz: Offset)
    requires Civil(tz)
    ensures Follows(w => ReadingOf(tz, w), tz)
  {
    forall w ensures Reads(tz, w, ReadingOf(tz, w)) {
      var r := OneReading(tz, w);
      assert Reads(tz, w, r);
    }
  }

  // ---------- Readings ascend ----------

  lemma {:induction false} ReadByAnOffset(tz: Offset, w: int, r: int) returns (t: int)
    requires Reads(tz, w, r)
    ensures r == w - tz(t)
  {
    if Occurs(tz, w) {
      t := r;
    } else {
      var g :| FirstPast(tz, w, g) && r == w - tz(g - 1);
      t := g - 1;
    }
  }

  /** A time of a later day is read as a later instant. */
  lemma {:induction false} ReadingsAscend(tz: Offset, w: int, r: int, w': int, r': int)
    requires Narrow(tz) && Reads(tz, w, r) && Reads(tz, w', r') && w + DAY_MS <= w'
    ensures r < r'
  {
    var t := ReadByAnOffset(tz, w, r);
    var t' := ReadByAnOffset(tz, w', r');
    assert tz(t') - tz(t) < DAY_MS;
  }

  // ---------- When the service reads alike ----------

  /** The offset at the guess is the right one: at the answer it places, that offset holds and
      clocks have not shown the time before; or the time is skipped, and it held before the gap. */
  ghost predicate GuessHolds(tz: Offset, w: int) {
    var at := w - tz(w);
    if Occurs(tz, w) then tz(at) == tz(w) && forall u :: u < at ==> Shown(tz, u) != w
    else exists g :: FirstPast(tz, w, g) && tz(g - 1) == tz(w)
  }

  lemma {:induction false} PlacedAsReadExactly(tz: Offset, w: int, r: int)
    requires Reads(tz, w, r)
    ensures r == w - tz(w) <==> GuessHolds(tz, w)
  {
    var at := w - tz(w);
    if Occurs(tz, w) {
      if GuessHolds(tz, w) {
        assert Shown(tz, at) == w && Shown(tz, r) == w;
      }
    } else {
      var g :| FirstPast(tz, w, g) && r == w - tz(g - 1);
      forall h | FirstPast(tz, w, h) ensures h == g { OneGap(tz, w, g, h); }
    }
  }

  lemma {:induction false} OneGap(tz: Offset, w: int, g: int, h: int)
    requires FirstPast(tz, w, g) && FirstPast(tz, w, h)
    ensures g == h
  {
    assert Shown(tz, g) > w && Shown(tz, h) > w;
  }

  /** Within a day of w the zone changes its offset at most once, from a to b at g. */
  ghost predicate OneChange(tz: Offset, w: int, g: int, a: int, b: int) {
    && -DAY_MS < a < DAY_MS && -DAY_MS < b < DAY_MS
    && forall t :: w - DAY_MS <= t <= w + DAY_MS ==> tz(t) == if t < g then a else b
  }

  function Max(a: int, b: int): int {
    if a < b then b else a
  }

  /** The wall-clock times that the service misplaces around such a change: as long a stretch as
      the larger offset, after the change's UTC time in the east, before it in the west. */
  predicate Misplaced(w: int, g: int, a: int, b: int) {
    a != b && (g <= w < g + Max(a, b) || g + Max(a, b) <= w < g)
  }

  lemma {:induction false} ShownNear(tz: Offset, w: int, g: int, a: int, b: int)
    requires Civil(tz) && OneChange(tz, w, g, a, b)
    ensures forall t :: Shown(tz, t) == w <==> (t == w - a && t < g) || (t == w - b && t >= g)
  {
    forall t ensures Shown(tz, t) == w <==> (t == w - a && t < g) || (t == w - b && t >= g) {
      assert -DAY_MS < tz(t) < DAY_MS;
    }
  }

  lemma {:induction false} GapNear(tz: Offset, w: int, g: int, a: int, b: int)
    requires Civil(tz) && OneChange(tz, w, g, a, b) && g + a <= w < g + b
    ensures forall h :: FirstPast(tz, w, h) <==> h == g
    ensures tz(g - 1) == a
  {
    forall u | u < g ensures Shown(tz, u) < w { assert -DAY_MS < tz(u) < DAY_MS; }
    assert tz(g) == b;
    assert FirstPast(tz, w, g);
    forall h | FirstPast(tz, w, h) ensures h == g { OneGap(tz, w, g, h); }
  }

  /** Where the zone changes at most once within a day of the time, the guess holds exactly outside
      that stretch. */
  lemma {:induction false} OneChangeExactly(tz: Offset, w: int, g: int, a: int, b: int)
    requires Civil(tz) && OneChange(tz, w, g, a, b)
    ensures GuessHolds(tz, w) <==> !Misplaced(w, g, a, b)
  {
    ShownNear(tz, w, g, a, b);
    assert tz(w) == if w < g then a else b;
    hide Shown;
    if g + a <= w < g + b {
      GapNear(tz, w, g, a, b);
      assert !Occurs(tz, w) && FirstPast(tz, w, g);
    } else {
      var t := if w - a < g then w - a else w - b;
      assert FirstShown(tz, w, t);
      FirstIs(tz, w, t);
    }
  }

  lemma {:induction false} FirstIs(tz: Offset, w: int, t: int)
    requires FirstShown(tz, w, t)
    ensures GuessHolds(tz, w) <==> t == w - tz(w)
  {
    assert Occurs(tz, w) && Reads(tz, w, t);
    PlacedAsReadExactly(tz, w, t);
  }
}
