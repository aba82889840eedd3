/**
 The static redistribution of level-2 pieces among the four processes,
 taken as data: where each worker sends each of its three pieces, whom each
 process receives from, which pieces each process scans, and the element
 counts of those transfers.
 */
module Routing {
  import opened Partition

  /** A process rank: 0 is the distributor, 1 to 3 are the workers. */
  type Rank = r: int | 0 <= r < 4

  type Worker = w: int | 1 <= w < 4 witness 1

  /** The index of a level-2 piece within a worker's share. */
  type PieceIndex = k: int | 0 <= k < 3

  const Distributor: Rank := 0

  /**
   Where worker w sends its piece k: piece 0 to the distributor, the other
   two to other workers, never to w itself.
   */
  function Destination(w: Worker, k: PieceIndex): (d: Rank)
    ensures d != w
    ensures k == 0 <==> d == Distributor
  {
    if k == 0 then Distributor
    else if w == 1 then (if k == 1 then 2 else 3)
    else if w == 2 then (if k == 1 then 1 else 3)
    else (if k == 1 then 1 else 2)
  }

  /** Worker w routes one of its pieces to rank r. */
  predicate SendsTo(w: Worker, r: Rank)
  {
    exists k: PieceIndex :: Destination(w, k) == r
  }

  /**
   A worker's three pieces go to three different ranks, so it sends exactly
   one piece to every rank other than itself.
   */
  lemma DestinationsOfWorker(w: Worker)
    ensures forall k1: PieceIndex, k2: PieceIndex :: Destination(w, k1) == Destination(w, k2) ==> k1 == k2
    ensures forall r: Rank :: r != w <==> SendsTo(w, r)
  {
    forall r: Rank | r != w
      ensures SendsTo(w, r)
    {
      var k := PieceFor(w, r);
    }
  }

  /** The sources of rank r's receives of level-2 pieces, in program order. */
  function Senders(r: Rank): (s: seq<Worker>)
    ensures r !in s
    ensures |s| == if r == Distributor then 3 else 2
  {
    if r == 0 then [1, 2, 3]
    else if r == 1 then [2, 3]
    else if r == 2 then [1, 3]
    else [1, 2]
  }

  /**
   The piece that worker w sends to rank r: the inverse of Destination for
   a fixed worker.
   */
  function PieceFor(w: Worker, r: Rank): (k: PieceIndex)
    requires r != w
    ensures Destination(w, k) == r
  {
    if Destination(w, 0) == r then 0
    else if Destination(w, 1) == r then 1
    else 2
  }

  /**
   The receives match the sends: rank r receives from worker w exactly
   when w routes one of its pieces to r, and from no worker twice.
   */
  lemma ReceivesMatchSends(r: Rank, w: Worker)
    ensures w in Senders(r) <==> SendsTo(w, r)
    ensures forall a, b :: 0 <= a < b < |Senders(r)| ==> Senders(r)[a] != Senders(r)[b]
  {
    if w != r {
      var k := PieceFor(w, r);
      assert Destination(w, k) == r;
    }
  }

  /**
   The pieces rank r runs the matcher on, as (worker, piece index) pairs:
   every piece it receives, in the order received.
   */
  function Scanned(r: Rank): (s: seq<(Worker, PieceIndex)>)
    ensures |s| == |Senders(r)|
    ensures forall i :: 0 <= i < |s| ==> s[i].0 == Senders(r)[i] && Destination(s[i].0, s[i].1) == r
  {
    var senders := Senders(r);
    seq(|senders|, i requires 0 <= i < |senders| =>
      (senders[i], PieceFor(senders[i], r)))
  }

  /**
   Every one of the nine level-2 pieces is scanned by exactly one rank:
   the one it is routed to. The distributor scans three pieces, one from
   each worker, and each worker scans two.
   */
  lemma EveryPieceScannedOnce(w: Worker, k: PieceIndex, r: Rank)
    ensures (w, k) in Scanned(Destination(w, k))
    ensures (w, k) in Scanned(r) ==> r == Destination(w, k)
    ensures |Scanned(r)| == if r == Distributor then 3 else 2
    ensures r == Distributor ==> forall i :: 0 <= i < 3 ==> Scanned(r)[i].1 == 0
  {
    var d := Destination(w, k);
    ReceivesMatchSends(d, w);
    var i :| 0 <= i < |Senders(d)| && Senders(d)[i] == w;
    assert Scanned(d)[i] == (w, k);
  }

  /** The element count of each piece of a share of the given length. */
  function PieceLength(size: nat, k: PieceIndex): (n: nat)
    ensures n == Pieces(size)[k].Length()
  {
    if k < 2 then Split3(size).size else Split3(size).rem
  }

  /**
   The count worker w passes to the send of its piece k, as written: the
   size1 or rem1 of the level-1 share length size. Worker 2 sends its third
   piece with count size1.
   */
  function SentCountAsWritten(w: Worker, k: PieceIndex, size: nat): (c: nat)
    ensures c <= PieceLength(size, k)
    ensures (w, k) != (2, 2) ==> c == PieceLength(size, k)
  {
    var sp := Split3(size);
    if k < 2 || w == 2 then sp.size else sp.rem
  }

  /**
   The send counts of the program with one line changed: worker 2 sends its
   third piece with count rem1, as workers 1 and 3 do.
   */
  function SentCount(w: Worker, k: PieceIndex, size: nat): (c: nat)
    ensures c == PieceLength(size, k)
  {
    if (w, k) == (2, 2) then Split3(size).rem else SentCountAsWritten(w, k, size)
  }

  /**
   The count rank r passes to its receive from worker w: the length of the
   piece w routes to r, except that the distributor posts rem1 for worker
   3's first piece, which has size1 bytes.
   */
  function ReceiveCount(r: Rank, w: Worker, size: nat): (c: nat)
    requires r != w
    ensures c >= PieceLength(size, PieceFor(w, r))
    ensures (r, w) != (0, 3) ==> c == PieceLength(size, PieceFor(w, r))
  {
    var sp := Split3(size);
    if r == 0 then (if w == 3 then sp.rem else sp.size)
    else if r == 1 then sp.size
    else if r == 2 then (if w == 1 then sp.size else sp.rem)
    else sp.rem
  }

  /**
   With the corrected send counts every piece travels whole: the count sent
   is the piece's length, and the receiving side posts a count at least as
   large, so no transfer is truncated.
   */
  lemma CorrectedCountsDeliverWholePieces(w: Worker, k: PieceIndex, size: nat)
    ensures SentCount(w, k, size) == PieceLength(size, k)
    ensures ReceiveCount(Destination(w, k), w, size) >= SentCount(w, k, size)
  {
  }

  /**
   As written, worker 2 sends only size1 of the rem1 bytes of its third
   piece; with size 5 (size1 1, rem1 3) two bytes never reach rank 3.
   */
  lemma RankTwoTruncatesThirdPiece(size: nat)
    ensures SentCountAsWritten(2, 2, size) == PieceLength(size, 2) - size % 3
    ensures size == 5 ==> SentCountAsWritten(2, 2, size) + 2 == PieceLength(size, 2)
    ensures forall w: Worker, k: PieceIndex :: (w, k) != (2, 2) ==> SentCountAsWritten(w, k, size) == SentCount(w, k, size)
  {
  }

  /** The length of worker w's level-1 share of a corpus of the given length. */
  function ShareLength(length: nat, w: Worker): (n: nat)
    ensures n == Pieces(length)[w - 1].Length()
  {
    if w < 3 then Split3(length).size else Split3(length).rem
  }

  /**
   The count a transfer of worker w's piece k needs, on both sides, once
   every worker cuts its own share: the length of that leaf of the corpus.
   */
  function LeafCount(length: nat, w: Worker, k: PieceIndex): (n: nat)
    ensures n == LeafRanges(length)[3 * (w - 1) + k].Length()
  {
    PieceLength(ShareLength(length, w), k)
  }

  /**
   The counts above are computed from the level-1 size, which is the length
   of the shares of workers 1 and 2: for their pieces the corrected count is
   exactly the leaf's length.
   */
  lemma LevelOneCountsFitEqualShares(length: nat, w: Worker, k: PieceIndex)
    requires w < 3
    ensures SentCount(w, k, Split3(length).size) == LeafCount(length, w, k)
  {
  }

  /**
   Worker 3's share has rem bytes, not size: for a corpus of length 8 the
   first piece of its own share, LeafCount(8, 3, 0), has one byte, and the
   count sent for it is 0.
   */
  lemma LevelOneCountsMissRankThreeShare(length: nat)
    requires length == 8
    ensures SentCount(3, 0, Split3(length).size) + 1 == PieceLength(ShareLength(length, 3), 0)
  {
    var size := Split3(length).size;
    assert size == 2;
    assert SentCount(3, 0, size) == Split3(size).size == 0;
    assert ShareLength(length, 3) == Split3(length).rem == 4;
    assert PieceLength(4, 0) == Split3(4).size == 1;
  }
}
