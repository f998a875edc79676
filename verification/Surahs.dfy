/** The ayah counts of the 114 surahs and the references they admit. */
module Surahs {
  import opened Wrappers

  const SURAH_COUNT := 114

  /** Hafs / Kufic counts, twelve surahs a row. */
  const ROW0: seq<nat> := [7, 286, 200, 176, 120, 165, 206, 75, 129, 109, 123, 111]
  const ROW1: seq<nat> := [43, 52, 99, 128, 111, 110, 98, 135, 112, 78, 118, 64]
  const ROW2: seq<nat> := [77, 227, 93, 88, 69, 60, 34, 30, 73, 54, 45, 83]
  const ROW3: seq<nat> := [182, 88, 75, 85, 54, 53, 89, 59, 37, 35, 38, 29]
  const ROW4: seq<nat> := [18, 45, 60, 49, 62, 55, 78, 96, 29, 22, 24, 13]
  const ROW5: seq<nat> := [14, 11, 11, 18, 12, 12, 30, 52, 52, 44, 28, 28]
  const ROW6: seq<nat> := [20, 56, 40, 31, 50, 40, 46, 42, 29, 19, 36, 25]
  const ROW7: seq<nat> := [22, 17, 19, 26, 30, 20, 15, 21, 11, 8, 8, 19]
  const ROW8: seq<nat> := [5, 8, 8, 11, 11, 8, 3, 9, 5, 4, 7, 3]
  const ROW9: seq<nat> := [6, 3, 5, 4, 5, 6]

  function AyahCount(s: int): nat
    requires 1 <= s <= SURAH_COUNT
  {
    if s <= 12 then ROW0[s - 1]
    else if s <= 24 then ROW1[s - 13]
    else if s <= 36 then ROW2[s - 25]
    else if s <= 48 then ROW3[s - 37]
    else if s <= 60 then ROW4[s - 49]
    else if s <= 72 then ROW5[s - 61]
    else if s <= 84 then ROW6[s - 73]
    else if s <= 96 then ROW7[s - 85]
    else if s <= 108 then ROW8[s - 97]
    else ROW9[s - 109]
  }

  const TOTAL_AYAHS := 6236

  datatype Ayah = Ayah(surah: int, number: int)

  datatype RefError = UnknownSurah | NotPositive | BeyondLastAyah | StartAfterEnd

  datatype Ref = Ref(surah: int, start: int, end: int)

  function ValidateRef(surah: int, start: int, end: int): Result<Ref, RefError> {
    if surah < 1 || surah > SURAH_COUNT then Err(UnknownSurah)
    else if start < 1 || end < 1 then Err(NotPositive)
    else if end > AyahCount(surah) then Err(BeyondLastAyah)
    else if start > end then Err(StartAfterEnd)
    else Ok(Ref(surah, start, end))
  }

  /** The ayahs of the first n surahs, counted and as a set. */
  function Prefix(n: nat): nat
    requires n <= SURAH_COUNT
  {
    if n == 0 then 0 else Prefix(n - 1) + AyahCount(n)
  }

  ghost function Ayahs(n: nat): set<Ayah>
    requires n <= SURAH_COUNT
  {
    set s: int, a: int | 1 <= s <= n && 1 <= a <= AyahCount(s) :: Ayah(s, a)
  }

  lemma {:induction false} AyahsOfOne(s: int, n: nat)
    ensures |set a: int | 1 <= a <= n :: Ayah(s, a)| == n
  {
    if n > 0 {
      AyahsOfOne(s, n - 1);
      var rest := set a: int | 1 <= a <= n - 1 :: Ayah(s, a);
      assert (set a: int | 1 <= a <= n :: Ayah(s, a)) == rest + {Ayah(s, n)};
      assert Ayah(s, n) !in rest;
    }
  }

  lemma {:induction false} PrefixCounts(n: nat)
    requires n <= SURAH_COUNT
    ensures |Ayahs(n)| == Prefix(n)
  {
    hide AyahCount;
    if n == 0 {
      assert Ayahs(0) == {};
    } else {
      PrefixCounts(n - 1);
      AyahsOfOne(n, AyahCount(n));
      var own := set a: int | 1 <= a <= AyahCount(n) :: Ayah(n, a);
      assert Ayahs(n) == Ayahs(n - 1) + own;
      assert Ayahs(n - 1) !! own;
    }
  }

  /** The whole book has 6236 ayahs; a reference is accepted exactly when it is a range that lies
      within it. */
  lemma {:induction false} TheWholeQuran()
    ensures |Ayahs(SURAH_COUNT)| == TOTAL_AYAHS
  {
    PrefixCounts(SURAH_COUNT);
    PrefixIs6236();
  }

  lemma {:induction false} FirstFortySurahs()
    ensures Prefix(40) == 4218
  {
    assert Prefix(4) == 669;
    assert Prefix(8) == 1235;
    assert Prefix(12) == 1707;
    assert Prefix(16) == 2029;
    assert Prefix(20) == 2483;
    assert Prefix(24) == 2855;
    assert Prefix(28) == 3340;
    assert Prefix(32) == 3533;
    assert Prefix(36) == 3788;
    assert Prefix(40) == 4218;
  }

  lemma {:induction false} FirstEightySurahs()
    ensures Prefix(80) == 5800
  {
    FirstFortySurahs();
    assert Prefix(44) == 4473;
    assert Prefix(48) == 4612;
    assert Prefix(52) == 4784;
    assert Prefix(56) == 5075;
    assert Prefix(60) == 5163;
    assert Prefix(64) == 5217;
    assert Prefix(68) == 5323;
    assert Prefix(72) == 5475;
    assert Prefix(76) == 5622;
    assert Prefix(80) == 5800;
  }

  lemma {:induction false} PrefixIs6236()
    ensures Prefix(114) == 6236
  {
    FirstEightySurahs();
    assert Prefix(84) == 5909;
    assert Prefix(88) == 5993;
    assert Prefix(92) == 6079;
    assert Prefix(96) == 6125;
    assert Prefix(100) == 6157;
    assert Prefix(104) == 6188;
    assert Prefix(108) == 6207;
    assert Prefix(112) == 6225;
    assert Prefix(114) == 6236;
  }

  lemma {:induction false} EarlyLandmarks(s: int)
    requires 1 <= s <= 36
    ensures 3 < AyahCount(s) <= 286 && (AyahCount(s) == 286 <==> s == 2)
  {
  }

  lemma {:induction false} MiddleLandmarks(s: int)
    requires 37 <= s <= 72
    ensures 3 < AyahCount(s) < 286
  {
  }

  lemma {:induction false} LateLandmarks(s: int)
    requires 73 <= s <= 114
    ensures 3 <= AyahCount(s) < 286 && (AyahCount(s) == 3 <==> s == 103 || s == 108 || s == 110)
  {
  }

  /** The second surah is the longest, the three shortest have three ayahs, and the first has seven. */
  lemma {:induction false} Landmarks(s: int)
    requires 1 <= s <= SURAH_COUNT
    ensures 3 <= AyahCount(s) <= 286 && (AyahCount(s) == 286 <==> s == 2)
    ensures AyahCount(s) == 3 <==> s == 103 || s == 108 || s == 110
    ensures AyahCount(1) == 7
  {
    assert AyahCount(1) == ROW0[0];
    hide AyahCount;
    if s <= 36 { EarlyLandmarks(s); } else if s <= 72 { MiddleLandmarks(s); } else { LateLandmarks(s); }
  }

  lemma {:induction false} AcceptedExactly(surah: int, start: int, end: int)
    ensures ValidateRef(surah, start, end).Ok? <==>
              start <= end && forall a :: start <= a <= end ==> Ayah(surah, a) in Ayahs(SURAH_COUNT)
    ensures ValidateRef(surah, start, end).Ok? ==> ValidateRef(surah, start, end).value == Ref(surah, start, end)
  {
    hide AyahCount;
    if start <= end && forall a :: start <= a <= end ==> Ayah(surah, a) in Ayahs(SURAH_COUNT) {
      assert Ayah(surah, start) in Ayahs(SURAH_COUNT) && Ayah(surah, end) in Ayahs(SURAH_COUNT);
    }
  }
}
