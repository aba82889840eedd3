/**
 Boyer-Moore substring search using the bad-character rule only
 (badCharHeuristic and search). Matches are returned as offsets instead of
 being printed.
 */
module BoyerMoore {
  import opened Matching

  /**
   idx is where byte c last occurs in pat, or -1 when c does not occur in it.
   */
  predicate IsLastOccurrence(pat: seq<Byte>, c: Byte, idx: int)
  {
    && -1 <= idx < |pat|
    && (idx >= 0 ==> pat[idx] == c)
    && forall k :: idx < k < |pat| ==> pat[k] != c
  }

  /**
   Builds the bad-character table: every entry starts at -1, then a left to
   right pass over the pattern records the latest index of each byte.
   */
  method BadCharHeuristic(pat: seq<Byte>) returns (badchar: seq<int>)
    ensures |badchar| == AlphabetSize
    ensures forall c: Byte :: IsLastOccurrence(pat, c, badchar[c])
  {
    badchar := seq(AlphabetSize, _ => -1);
    var i := 0;
    while i < |pat|
      invariant 0 <= i <= |pat|
      invariant |badchar| == AlphabetSize
      invariant forall c: Byte :: IsLastOccurrence(pat[..i], c, badchar[c])
    {
      badchar := badchar[pat[i] := i];
      i := i + 1;
      assert forall k :: 0 <= k < i ==> pat[..i][k] == pat[k];
    }
    assert pat[..i] == pat;
  }

  /**
   After a mismatch at pattern index j under shift s, no occurrence starts
   before s + max(1, j - badchar[txt[s + j]]).
   */
  lemma MismatchShiftIsSafe(txt: seq<Byte>, pat: seq<Byte>, s: int, j: int, last: int)
    requires 0 <= s && s + |pat| <= |txt|
    requires 0 <= j < |pat| && pat[j] != txt[s + j]
    requires IsLastOccurrence(pat, txt[s + j], last)
    ensures forall x :: s <= x < s + Max(1, j - last) ==> !OccursAt(txt, pat, x)
  {
    forall x | s <= x < s + Max(1, j - last)
      ensures !OccursAt(txt, pat, x)
    {
      // the window at x puts pattern index t under the mismatched text byte
      var t := j - (x - s);
      assert 0 <= t < |pat| && txt[x + t] != pat[t];
    }
  }

  /**
   After a full match at shift s with a byte following the window, no
   occurrence starts strictly between s and s + m - badchar[txt[s + m]].
   */
  lemma MatchShiftIsSafe(txt: seq<Byte>, pat: seq<Byte>, s: int, last: int)
    requires |pat| >= 1
    requires 0 <= s && s + |pat| < |txt|
    requires IsLastOccurrence(pat, txt[s + |pat|], last)
    ensures forall x :: s < x < s + |pat| - last ==> !OccursAt(txt, pat, x)
  {
    forall x | s < x < s + |pat| - last
      ensures !OccursAt(txt, pat, x)
    {
      // the window at x puts pattern index t under the byte after the match
      var t := |pat| - (x - s);
      assert 0 <= t < |pat| && txt[x + t] != pat[t];
    }
  }

  /**
   The bad-character scan. The window at shift s is compared right to left;
   on a full match s is reported and the window moves so that the byte after
   it lines up with its last occurrence in the pattern (or by one at the end
   of the text); on a mismatch at j the window moves by max(1, j - badchar).
   Every step moves the window forward by at least one.
   */
  method Search(txt: seq<Byte>, pat: seq<Byte>) returns (shifts: seq<int>)
    requires |pat| >= 1
    ensures Reports(txt, pat, shifts)
  {
    var m := |pat|;
    var n := |txt|;
    var badchar := BadCharHeuristic(pat);
    shifts := [];
    var s := 0;
    while s <= n - m
      invariant 0 <= s
      invariant StrictlyIncreasing(shifts)
      invariant forall x :: x in shifts ==> x < s && OccursAt(txt, pat, x)
      invariant forall x :: 0 <= x < s && OccursAt(txt, pat, x) ==> x in shifts
      decreases n - s
    {
      var j := m - 1;
      while j >= 0 && pat[j] == txt[s + j]
        invariant -1 <= j < m
        invariant forall k :: j < k < m ==> pat[k] == txt[s + k]
        decreases j
      {
        j := j - 1;
      }
      var shift;
      if j < 0 {
        assert OccursAt(txt, pat, s);
        AppendKeepsIncreasing(shifts, s);
        shifts := shifts + [s];
        if s + m < n {
          shift := m - badchar[txt[s + m]];
          MatchShiftIsSafe(txt, pat, s, badchar[txt[s + m]]);
        } else {
          shift := 1;
        }
      } else {
        shift := Max(1, j - badchar[txt[s + j]]);
        MismatchShiftIsSafe(txt, pat, s, j, badchar[txt[s + j]]);
      }
      assert shift >= 1;
      s := s + shift;
    }
  }
}
