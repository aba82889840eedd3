/**
 The shared vocabulary of both pattern matchers: the byte alphabet, what it
 means for a pattern to occur in a text, and what a correct list of reported
 match offsets is.
 */
module Matching {

  /** Size of the bad-character table: one entry per byte value (NO_OF_CHARS). */
  const AlphabetSize: int := 256

  /** A text or pattern symbol. Both matchers index tables by it, so it is a byte. */
  type Byte = x: int | 0 <= x < AlphabetSize

  /** The maximum of two integers, as the bad-character shift uses it. */
  function Max(a: int, b: int): (r: int)
    ensures r >= a && r >= b
    ensures r == a || r == b
  {
    if a > b then a else b
  }

  /** The pattern occurs in the text starting at offset s. */
  predicate OccursAt(txt: seq<Byte>, pat: seq<Byte>, s: int)
  {
    && 0 <= s
    && s + |pat| <= |txt|
    && forall t :: 0 <= t < |pat| ==> txt[s + t] == pat[t]
  }

  predicate StrictlyIncreasing(xs: seq<int>)
  {
    forall a, b :: 0 <= a < b < |xs| ==> xs[a] < xs[b]
  }

  /** Appending an element above all present ones keeps a sequence strictly increasing. */
  lemma AppendKeepsIncreasing(xs: seq<int>, x: int)
    requires StrictlyIncreasing(xs)
    requires forall y :: y in xs ==> y < x
    ensures StrictlyIncreasing(xs + [x])
  {
    forall a, b | 0 <= a < b < |xs| + 1
      ensures (xs + [x])[a] < (xs + [x])[b]
    {
      if b == |xs| {
        assert xs[a] in xs;
      }
    }
  }

  /**
   What a matcher must report: every offset where the pattern occurs, each
   once, in increasing order, and nothing else.
   */
  ghost predicate Reports(txt: seq<Byte>, pat: seq<Byte>, offsets: seq<int>)
  {
    && StrictlyIncreasing(offsets)
    && forall s :: s in offsets <==> OccursAt(txt, pat, s)
  }

  /** The head of a strictly increasing sequence is its least element. */
  lemma HeadIsLeast(xs: seq<int>, x: int)
    requires StrictlyIncreasing(xs)
    requires x in xs
    ensures xs[0] <= x
  {
    var i :| 0 <= i < |xs| && xs[i] == x;
    if i > 0 {
      assert xs[0] < xs[i];
    }
  }

  lemma SameElementsSameEmptiness(xs: seq<int>, ys: seq<int>)
    requires forall x :: x in xs <==> x in ys
    ensures |xs| == 0 <==> |ys| == 0
  {
    if |xs| > 0 {
      var x := xs[0];
      assert x in xs;
    }
    if |ys| > 0 {
      var y := ys[0];
      assert y in ys;
    }
  }

  /** Dropping the head of a strictly increasing sequence removes exactly that element. */
  lemma TailElements(xs: seq<int>, x: int)
    requires StrictlyIncreasing(xs) && |xs| > 0
    ensures x in xs[1..] <==> x in xs && x != xs[0]
  {
    if x in xs[1..] {
      var i :| 0 <= i < |xs| - 1 && xs[1..][i] == x;
      assert xs[0] < xs[i + 1];
    }
    if x in xs && x != xs[0] {
      var i :| 0 <= i < |xs| && xs[i] == x;
      assert xs[1..][i - 1] == x;
    }
  }

  /** Two strictly increasing sequences holding the same elements are equal. */
  lemma {:induction false} IncreasingWithSameElementsEqual(xs: seq<int>, ys: seq<int>)
    requires StrictlyIncreasing(xs) && StrictlyIncreasing(ys)
    requires forall x :: x in xs <==> x in ys
    ensures xs == ys
    decreases |xs|
  {
    SameElementsSameEmptiness(xs, ys);
    if |xs| > 0 {
      var x0, y0 := xs[0], ys[0];
      assert x0 in xs && y0 in ys;
      HeadIsLeast(ys, x0);
      HeadIsLeast(xs, y0);
      forall x ensures x in xs[1..] <==> x in ys[1..] {
        TailElements(xs, x);
        TailElements(ys, x);
      }
      IncreasingWithSameElementsEqual(xs[1..], ys[1..]);
      assert xs == [x0] + xs[1..] && ys == [y0] + ys[1..];
    }
  }

  /**
   A text and pattern determine the reported offsets completely: any two
   correct reports are the same sequence, so a matcher cannot depend on
   hidden state and re-running it yields the same answer.
   */
  lemma ReportsAreUnique(txt: seq<Byte>, pat: seq<Byte>, r1: seq<int>, r2: seq<int>)
    requires Reports(txt, pat, r1) && Reports(txt, pat, r2)
    ensures r1 == r2
  {
    IncreasingWithSameElementsEqual(r1, r2);
  }
}
