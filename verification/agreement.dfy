/**
 A reference matcher that tries every shift, and the agreement of both
 scanning matchers with it and with each other.
 */
module Agreement {
  import opened Matching
  import BoyerMoore
  import Kmp

  /** Every shift from s on at which pat occurs in txt, in increasing order. */
  function MatchesFrom(txt: seq<Byte>, pat: seq<Byte>, s: nat): seq<int>
    decreases |txt| - s
  {
    if s + |pat| > |txt| then []
    else (if txt[s..s + |pat|] == pat then [s] else []) + MatchesFrom(txt, pat, s + 1)
  }

  /** The naive matcher: try every shift from 0 to |txt| - |pat|. */
  function NaiveMatches(txt: seq<Byte>, pat: seq<Byte>): seq<int>
  {
    MatchesFrom(txt, pat, 0)
  }

  lemma SliceMatchIsOccurrence(txt: seq<Byte>, pat: seq<Byte>, s: nat)
    requires s + |pat| <= |txt|
    ensures txt[s..s + |pat|] == pat <==> OccursAt(txt, pat, s)
  {
    if OccursAt(txt, pat, s) {
      assert forall t :: 0 <= t < |pat| ==> txt[s..s + |pat|][t] == pat[t];
    }
  }

  /** MatchesFrom lists exactly the occurrences at or after s, in increasing order. */
  lemma {:induction false} MatchesFromIsCorrect(txt: seq<Byte>, pat: seq<Byte>, s: nat)
    ensures StrictlyIncreasing(MatchesFrom(txt, pat, s))
    ensures forall x :: x in MatchesFrom(txt, pat, s) <==> s <= x && OccursAt(txt, pat, x)
    decreases |txt| - s
  {
    if s + |pat| <= |txt| {
      MatchesFromIsCorrect(txt, pat, s + 1);
      SliceMatchIsOccurrence(txt, pat, s);
      var rest := MatchesFrom(txt, pat, s + 1);
      var head := if txt[s..s + |pat|] == pat then [s] else [];
      assert MatchesFrom(txt, pat, s) == head + rest;
      forall a, b | 0 <= a < b < |head + rest|
        ensures (head + rest)[a] < (head + rest)[b]
      {
        if |head| == 1 && a == 0 {
          assert (head + rest)[b] == rest[b - 1];
          assert rest[b - 1] in rest;
        } else {
          assert (head + rest)[a] == rest[a - |head|];
          assert (head + rest)[b] == rest[b - |head|];
        }
      }
    }
  }

  /** The naive matcher's answer is a correct report. */
  lemma NaiveMatchesReports(txt: seq<Byte>, pat: seq<Byte>)
    ensures Reports(txt, pat, NaiveMatches(txt, pat))
  {
    MatchesFromIsCorrect(txt, pat, 0);
  }

  /**
   Both scanners, run on the same text and pattern, return the very same
   offsets, and those are the naive matcher's.
   */
  method BothMatchersAgree(txt: seq<Byte>, pat: seq<Byte>) returns (bm: seq<int>, kmp: seq<int>)
    requires |pat| >= 1
    ensures bm == kmp
    ensures bm == NaiveMatches(txt, pat)
  {
    bm := BoyerMoore.Search(txt, pat);
    kmp := Kmp.KmpSearch(pat, txt);
    ReportsAreUnique(txt, pat, bm, kmp);
    NaiveMatchesReports(txt, pat);
    ReportsAreUnique(txt, pat, bm, NaiveMatches(txt, pat));
  }

  // Fixtures, as bytes: "ABAAABCD", "ABC", "AAAA", "AA", "hello", "z".
  const AbaaabcdText: seq<Byte> := [65, 66, 65, 65, 65, 66, 67, 68]
  const AbcPattern: seq<Byte> := [65, 66, 67]
  const AaaaText: seq<Byte> := [65, 65, 65, 65]
  const AaPattern: seq<Byte> := [65, 65]
  const HelloText: seq<Byte> := [104, 101, 108, 108, 111]
  const ZPattern: seq<Byte> := [122]

  /** "ABC" occurs in "ABAAABCD" at offset 4 only. */
  lemma SingleMatchFixture()
    ensures NaiveMatches(AbaaabcdText, AbcPattern) == [4]
  {
    var t, p := AbaaabcdText, AbcPattern;
    // the first mismatching pattern index at each shift other than 4
    assert t[5..8][0] != p[0] && t[3..6][1] != p[1] && t[2..5][1] != p[1];
    assert t[1..4][0] != p[0] && t[0..3][2] != p[2];
    assert t[4..7] == p;
    assert MatchesFrom(t, p, 6) == [];
    assert MatchesFrom(t, p, 5) == [];
    assert MatchesFrom(t, p, 4) == [4];
    assert MatchesFrom(t, p, 3) == [4];
    assert MatchesFrom(t, p, 2) == [4];
    assert MatchesFrom(t, p, 1) == [4];
  }

  /** "AA" occurs in "AAAA" at 0, 1 and 2: overlapping matches are all reported. */
  lemma OverlappingMatchesFixture()
    ensures NaiveMatches(AaaaText, AaPattern) == [0, 1, 2]
  {
    var t, p := AaaaText, AaPattern;
    assert t[0..2] == p && t[1..3] == p && t[2..4] == p;
    assert MatchesFrom(t, p, 3) == [];
    assert MatchesFrom(t, p, 2) == [2];
    assert MatchesFrom(t, p, 1) == [1, 2];
  }

  /** "z" does not occur in "hello"; nothing occurs in the empty text. */
  lemma NoMatchFixtures()
    ensures NaiveMatches(HelloText, ZPattern) == []
    ensures NaiveMatches([], AbcPattern) == []
  {
    var t, p := HelloText, ZPattern;
    assert t[0..1][0] != p[0] && t[1..2][0] != p[0] && t[2..3][0] != p[0];
    assert t[3..4][0] != p[0] && t[4..5][0] != p[0];
    assert MatchesFrom(t, p, 5) == [];
    assert MatchesFrom(t, p, 4) == [];
    assert MatchesFrom(t, p, 3) == [];
    assert MatchesFrom(t, p, 2) == [];
    assert MatchesFrom(t, p, 1) == [];
  }

  /** Both scanners, run on the fixtures, return the expected offsets. */
  method ScannersOnFixtures() returns (single: seq<int>, overlapping: seq<int>, none: seq<int>, empty: seq<int>)
    ensures single == [4]
    ensures overlapping == [0, 1, 2]
    ensures none == []
    ensures empty == []
  {
    var bm, kmp := BothMatchersAgree(AbaaabcdText, AbcPattern);
    SingleMatchFixture();
    single := kmp;
    bm, kmp := BothMatchersAgree(AaaaText, AaPattern);
    OverlappingMatchesFixture();
    overlapping := bm;
    bm, kmp := BothMatchersAgree(HelloText, ZPattern);
    NoMatchFixtures();
    none := kmp;
    bm, kmp := BothMatchersAgree([], AbcPattern);
    empty := bm;
  }
}
