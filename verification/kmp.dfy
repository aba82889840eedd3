/**
 Knuth-Morris-Pratt substring search (computeLPSArray and KMPSearch).
 Matches, overlapping ones included, are returned as offsets instead of
 being printed.
 */
module Kmp {
  import opened Matching

  /**
   k is the length of a proper border of the prefix pat[..q]: pat[..k] is a
   proper prefix of pat[..q] and also a suffix of it.
   */
  predicate IsBorder(pat: seq<Byte>, q: int, k: int)
  {
    && 0 <= k < q <= |pat|
    && forall t :: 0 <= t < k ==> pat[t] == pat[q - k + t]
  }

  /** pat[..q] has no proper border longer than k. */
  predicate NoBorderLongerThan(pat: seq<Byte>, q: int, k: int)
  {
    forall b :: k < b < q ==> !IsBorder(pat, q, b)
  }

  /** k is the longest proper border of pat[..q]. */
  predicate IsLongestBorder(pat: seq<Byte>, q: int, k: int)
  {
    IsBorder(pat, q, k) && NoBorderLongerThan(pat, q, k)
  }

  /** A border of pat[..q+1] minus its last byte is a border of pat[..q]. */
  lemma BorderShrinks(pat: seq<Byte>, q: int, k: int)
    requires 0 <= k && IsBorder(pat, q + 1, k + 1)
    ensures IsBorder(pat, q, k)
  {
    forall t | 0 <= t < k
      ensures pat[t] == pat[q - k + t]
    {
      assert pat[t] == pat[q + 1 - (k + 1) + t];
    }
  }

  /** A border of a border of pat[..q] is a border of pat[..q]. */
  lemma BorderOfBorder(pat: seq<Byte>, q: int, k: int, b: int)
    requires IsBorder(pat, q, k) && IsBorder(pat, k, b)
    ensures IsBorder(pat, q, b)
  {
    forall t | 0 <= t < b
      ensures pat[t] == pat[q - b + t]
    {
      assert pat[t] == pat[k - b + t];
      assert pat[k - b + t] == pat[q - k + (k - b + t)];
    }
  }

  /** Of two borders of pat[..q], the shorter is a border of the longer. */
  lemma ShorterBorderIsBorderOfLonger(pat: seq<Byte>, q: int, k: int, b: int)
    requires IsBorder(pat, q, k) && IsBorder(pat, q, b) && b < k
    ensures IsBorder(pat, k, b)
  {
    forall t | 0 <= t < b
      ensures pat[t] == pat[k - b + t]
    {
      assert pat[t] == pat[q - b + t];
      assert pat[k - b + t] == pat[q - k + (k - b + t)];
    }
  }

  /**
   The failure function: lps[i] is the length of the longest proper prefix
   of pat[..i+1] that is also a suffix of it (so lps[0] == 0 and
   0 <= lps[i] <= i). len is the previous entry; on a mismatch it falls back
   through lps[len - 1] without advancing i.
   */
  method ComputeLpsArray(pat: seq<Byte>) returns (lps: seq<int>)
    requires |pat| >= 1
    ensures |lps| == |pat|
    ensures forall i :: 0 <= i < |pat| ==> IsLongestBorder(pat, i + 1, lps[i])
  {
    var m := |pat|;
    lps := seq(m, _ => 0);
    var len := 0;
    var i := 1;
    while i < m
      invariant 1 <= i <= m
      invariant 0 <= len < i
      invariant |lps| == m
      invariant forall t :: 0 <= t < i ==> IsLongestBorder(pat, t + 1, lps[t])
      invariant IsBorder(pat, i, len)
      invariant NoBorderLongerThan(pat, i + 1, len + 1)
      decreases m - i, len
    {
      if pat[i] == pat[len] {
        assert IsBorder(pat, i + 1, len + 1);
        len := len + 1;
        lps := lps[i := len];
        i := i + 1;
        var q := i + 1;
        forall k | len + 1 < k < q
          ensures !IsBorder(pat, q, k)
        {
          if IsBorder(pat, q, k) {
            BorderShrinks(pat, i, k - 1);
          }
        }
      } else if len != 0 {
        var fallback := lps[len - 1];
        BorderOfBorder(pat, i, len, fallback);
        var q := i + 1;
        forall k | fallback + 1 < k < q
          ensures !IsBorder(pat, q, k)
        {
          if k == len + 1 {
            assert pat[len] != pat[q - k + len];
          } else if k < len + 1 && IsBorder(pat, q, k) {
            BorderShrinks(pat, i, k - 1);
            ShorterBorderIsBorderOfLonger(pat, i, len, k - 1);
          }
        }
        len := fallback;
      } else {
        assert !IsBorder(pat, i + 1, 1) by {
          assert pat[0] != pat[i + 1 - 1 + 0];
        }
        lps := lps[i := 0];
        i := i + 1;
        var q := i + 1;
        forall k | 1 < k < q
          ensures !IsBorder(pat, q, k)
        {
          if IsBorder(pat, q, k) {
            BorderShrinks(pat, i, k - 1);
          }
        }
      }
    }
  }

  /**
   If pat[..j] sits in the text just before i, an occurrence starting
   strictly inside that stretch would make a border of pat[..j]; so none
   starts before i - b when b is the longest one.
   */
  lemma FallbackSkipsNoMatch(txt: seq<Byte>, pat: seq<Byte>, i: int, j: int, b: int)
    requires 0 < j <= |pat| && j <= i <= |txt|
    requires forall t :: 0 <= t < j ==> pat[t] == txt[i - j + t]
    requires IsLongestBorder(pat, j, b)
    ensures forall x :: i - j < x < i - b ==> !OccursAt(txt, pat, x)
    ensures forall t :: 0 <= t < b ==> pat[t] == txt[i - b + t]
  {
    forall t | 0 <= t < b
      ensures pat[t] == txt[i - b + t]
    {
      assert pat[t] == pat[j - b + t];
      assert pat[j - b + t] == txt[i - j + (j - b + t)];
    }
    forall x | i - j < x < i - b
      ensures !OccursAt(txt, pat, x)
    {
      var k := i - x;
      assert !IsBorder(pat, j, k);
      var t :| 0 <= t < k && pat[t] != pat[j - k + t];
      assert pat[j - k + t] == txt[x + t];
    }
  }

  /**
   The KMP scan: i walks the text and never moves back, j counts the
   pattern bytes matched just before i. After a full match the start i - j
   is reported and j falls back to lps[j - 1], so overlapping matches are
   found too.
   */
  method KmpSearch(pat: seq<Byte>, txt: seq<Byte>) returns (found: seq<int>)
    requires |pat| >= 1
    ensures Reports(txt, pat, found)
  {
    var m := |pat|;
    var n := |txt|;
    var lps := ComputeLpsArray(pat);
    found := [];
    var i := 0;
    var j := 0;
    while i < n
      invariant 0 <= j < m
      invariant j <= i <= n
      invariant forall t :: 0 <= t < j ==> pat[t] == txt[i - j + t]
      invariant StrictlyIncreasing(found)
      invariant forall x :: x in found ==> x < i - j && OccursAt(txt, pat, x)
      invariant forall x :: 0 <= x < i - j && OccursAt(txt, pat, x) ==> x in found
      decreases n - i, j
    {
      if pat[j] == txt[i] {
        j := j + 1;
        i := i + 1;
      }
      if j == m {
        assert OccursAt(txt, pat, i - j);
        AppendKeepsIncreasing(found, i - j);
        found := found + [i - j];
        FallbackSkipsNoMatch(txt, pat, i, j, lps[j - 1]);
        j := lps[j - 1];
      } else if i < n && pat[j] != txt[i] {
        assert !OccursAt(txt, pat, i - j) by {
          assert txt[i - j + j] != pat[j];
        }
        if j != 0 {
          FallbackSkipsNoMatch(txt, pat, i, j, lps[j - 1]);
          j := lps[j - 1];
        } else {
          i := i + 1;
        }
      }
    }
  }
}
