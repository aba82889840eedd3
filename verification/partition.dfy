/**
 The split arithmetic of the program: a buffer of some length is cut into
 two equal shares plus a remainder share, once over the whole corpus
 (level 1) and once more over each worker's share (level 2).
 */
module Partition {
  import opened Matching

  /** The two equal share lengths and the remainder length of one split. */
  datatype Split = Split(size: nat, rem: nat)

  /**
   size = length / 3 and rem = length - (size + size); the same arithmetic
   gives size and rem at level 1 and size1 and rem1 at level 2. The
   remainder share is the longest, by at most two bytes.
   */
  function Split3(length: nat): (r: Split)
    ensures r.size + r.size + r.rem == length
    ensures r.size <= r.rem < r.size + 3
  {
    var size := length / 3;
    Split(size, length - (size + size))
  }

  /** The two facts above pin the split down: no other pair satisfies them. */
  lemma Split3IsUnique(length: nat, size: nat, rem: nat)
    requires size + size + rem == length
    requires size <= rem < size + 3
    ensures Split3(length) == Split(size, rem)
  {
  }

  /** The half-open range [lo, hi) of byte positions. */
  datatype Range = Range(lo: nat, hi: nat) {
    predicate Contains(x: int) {
      lo <= x < hi
    }
    function Length(): int {
      hi - lo
    }
  }

  /** Some range of rs contains position x. */
  predicate Covers(rs: seq<Range>, x: int)
  {
    exists k :: 0 <= k < |rs| && rs[k].Contains(x)
  }

  /**
   The three pieces a buffer of the given length is cut into:
   [0, size), [size, 2 * size) and [2 * size, length).
   */
  function Pieces(length: nat): (rs: seq<Range>)
    ensures |rs| == 3
    ensures forall k :: 0 <= k < 3 ==> rs[k].lo <= rs[k].hi
  {
    var size := Split3(length).size;
    [Range(0, size), Range(size, 2 * size), Range(2 * size, length)]
  }

  /**
   The pieces tile [0, length): every position lies in one of them, no
   position lies in two, and none lies outside. The first two have length
   size and the last one rem.
   */
  lemma PiecesTile(length: nat)
    ensures Pieces(length)[0].Length() == Pieces(length)[1].Length() == Split3(length).size
    ensures Pieces(length)[2].Length() == Split3(length).rem
    ensures forall x :: 0 <= x < length ==> Covers(Pieces(length), x)
    ensures forall x, k1, k2 ::
      0 <= k1 < 3 && 0 <= k2 < 3 && Pieces(length)[k1].Contains(x) && Pieces(length)[k2].Contains(x) ==> k1 == k2
    ensures forall x, k :: 0 <= k < 3 && Pieces(length)[k].Contains(x) ==> 0 <= x < length
  {
    var ps := Pieces(length);
    forall x | 0 <= x < length
      ensures Covers(ps, x)
    {
      if x < ps[0].hi {
        assert ps[0].Contains(x);
      } else if x < ps[1].hi {
        assert ps[1].Contains(x);
      } else {
        assert ps[2].Contains(x);
      }
    }
  }

  /** The bytes of buf at the positions of range r. */
  function Slice(buf: seq<Byte>, r: Range): seq<Byte>
    requires r.lo <= r.hi <= |buf|
  {
    buf[r.lo..r.hi]
  }

  /**
   One copy loop of the level-2 split: the bytes buf[lo..hi] are copied one
   by one into a fresh piece.
   */
  method CopyRange(buf: seq<Byte>, lo: nat, hi: nat) returns (piece: seq<Byte>)
    requires lo <= hi <= |buf|
    ensures |piece| == hi - lo
    ensures forall k :: 0 <= k < hi - lo ==> piece[k] == buf[lo + k]
  {
    piece := [];
    var i := lo;
    while i < hi
      invariant lo <= i <= hi
      invariant |piece| == i - lo
      invariant forall k :: 0 <= k < i - lo ==> piece[k] == buf[lo + k]
    {
      piece := piece + [buf[i]];
      i := i + 1;
    }
  }

  /**
   A worker's level-2 split: the first `size` bytes of the share it
   received are cut into the three pieces of Pieces(size) by three copy
   loops. The pieces, laid end to end, give back those bytes.
   */
  method SplitShare(buf: seq<Byte>, size: nat) returns (pieces: seq<seq<Byte>>)
    requires size <= |buf|
    ensures |pieces| == 3
    ensures forall k :: 0 <= k < 3 ==> pieces[k] == Slice(buf, Pieces(size)[k])
    ensures pieces[0] + pieces[1] + pieces[2] == buf[..size]
  {
    PiecesTile(size);
    var size1 := Split3(size).size;
    var first := CopyRange(buf, 0, size1);
    var second := CopyRange(buf, size1, 2 * size1);
    var third := CopyRange(buf, 2 * size1, size);
    pieces := [first, second, third];
    assert first == buf[0..size1];
    assert second == buf[size1..2 * size1];
    assert third == buf[2 * size1..size];
    assert buf[..size] == buf[0..size1] + buf[size1..2 * size1] + buf[2 * size1..size];
  }

  /** Range r moved right by offset positions. */
  function Shift(r: Range, offset: nat): Range
  {
    Range(r.lo + offset, r.hi + offset)
  }

  /** Consecutive ranges: each one is well formed and ends where the next starts. */
  predicate Consecutive(rs: seq<Range>)
  {
    && (forall i :: 0 <= i < |rs| ==> rs[i].lo <= rs[i].hi)
    && (forall i :: 0 <= i < |rs| - 1 ==> rs[i].hi == rs[i + 1].lo)
  }

  /** Share r cut into the three pieces of the given length, in corpus positions. */
  function CutShare(r: Range, length: nat): seq<Range>
  {
    var ps := Pieces(length);
    [Shift(ps[0], r.lo), Shift(ps[1], r.lo), Shift(ps[2], r.lo)]
  }

  /**
   The nine leaf ranges of the corpus, in offset order, when every level-1
   share is cut by the split of its own length.
   */
  function LeafRanges(length: nat): (rs: seq<Range>)
    ensures |rs| == 9
    ensures forall k :: 0 <= k < 9 ==> rs[k].lo <= rs[k].hi
  {
    var shares := Pieces(length);
    CutShare(shares[0], shares[0].Length())
      + CutShare(shares[1], shares[1].Length())
      + CutShare(shares[2], shares[2].Length())
  }

  /**
   The nine leaves as the workers cut them: every worker cuts the first
   `size` bytes of its share, size being the level-1 share length, whatever
   the length of the share it received.
   */
  function LeafRangesAsWritten(length: nat): (rs: seq<Range>)
    ensures |rs| == 9
    ensures forall k :: 0 <= k < 9 ==> rs[k].lo <= rs[k].hi
  {
    var shares := Pieces(length);
    var size := Split3(length).size;
    CutShare(shares[0], size) + CutShare(shares[1], size) + CutShare(shares[2], size)
  }

  /** Cutting a share by its own length tiles exactly that share. */
  lemma CutShareTiles(r: Range)
    requires r.lo <= r.hi
    ensures |CutShare(r, r.Length())| == 3
    ensures CutShare(r, r.Length())[0].lo == r.lo
    ensures CutShare(r, r.Length())[2].hi == r.hi
    ensures Consecutive(CutShare(r, r.Length()))
  {
  }

  lemma ConsecutiveJoin(a: seq<Range>, b: seq<Range>)
    requires Consecutive(a) && Consecutive(b)
    requires |a| > 0 && |b| > 0 && a[|a| - 1].hi == b[0].lo
    ensures Consecutive(a + b)
  {
    forall i | 0 <= i < |a + b| - 1
      ensures (a + b)[i].hi == (a + b)[i + 1].lo
    {
      if i < |a| - 1 {
        assert (a + b)[i] == a[i] && (a + b)[i + 1] == a[i + 1];
      } else if i == |a| - 1 {
        assert (a + b)[i] == a[i] && (a + b)[i + 1] == b[0];
      } else {
        assert (a + b)[i] == b[i - |a|] && (a + b)[i + 1] == b[i + 1 - |a|];
      }
    }
  }

  /**
   Cutting every level-1 share by its own length makes the nine leaves
   tile the whole corpus [0, length) in offset order, with no gap and no
   overlap.
   */
  lemma LeafRangesTileCorpus(length: nat)
    ensures |LeafRanges(length)| == 9
    ensures LeafRanges(length)[0].lo == 0
    ensures LeafRanges(length)[8].hi == length
    ensures Consecutive(LeafRanges(length))
  {
    var shares := Pieces(length);
    var c0 := CutShare(shares[0], shares[0].Length());
    var c1 := CutShare(shares[1], shares[1].Length());
    var c2 := CutShare(shares[2], shares[2].Length());
    CutShareTiles(shares[0]);
    CutShareTiles(shares[1]);
    CutShareTiles(shares[2]);
    ConsecutiveJoin(c0, c1);
    ConsecutiveJoin(c0 + c1, c2);
  }

  /**
   As written, the last leaf stops at 3 * size, so the last length mod 3
   bytes of the corpus lie in no leaf; with length 5 two bytes are lost.
   */
  lemma LeafRangesAsWrittenLoseTail(length: nat)
    ensures LeafRangesAsWritten(length)[8].hi == length - length % 3
    ensures forall k, x :: 0 <= k < 9 && LeafRangesAsWritten(length)[k].Contains(x) ==> x < length - length % 3
    ensures length == 5 ==> LeafRangesAsWritten(length)[8].hi == 3
  {
  }
}
