# Parallel pattern matching: matchers, split arithmetic and routing table

This project models, in Dafny, the parts of `myproj.c` that have a clear
meaning apart from the MPI plumbing. The program is an MPI search over a
text file. Rank 0 is the distributor. It cuts the corpus into three level-1
shares and sends one share to each of ranks 1 to 3, the workers. Each worker
cuts its share into three level-2 pieces and sends them to fixed
destinations. Each rank then runs a substring matcher on the pieces it
received.

The model has these parts:

- `Matching`: the byte alphabet and `OccursAt(txt, pat, s)`, the predicate
  that specifies both matchers. It also has `Reports`, which says that a list
  of offsets is exactly the occurrences, strictly increasing. A lemma proves
  that a correct report is unique.
- `BoyerMoore`: `badCharHeuristic` and `search`, which is Boyer–Moore with
  the bad-character rule only. The matcher returns its offsets as a
  `seq<int>` instead of printing them.
- `Kmp`: `computeLPSArray` and `KMPSearch`. They are specified with proper
  borders (`IsBorder`, `IsLongestBorder`).
- `Agreement`: a naive reference matcher, a proof that both scanners return
  the same offsets as it does, and four sample inputs.
- `Partition`: the split arithmetic `size = length/3`,
  `rem = length - 2*size`. It covers the copy loops of the level-2 split and
  the nine leaf ranges.
- `Routing`: where each worker sends each piece, whom each rank receives
  from, and which pieces each rank scans. This is modelled as data, not as
  message passing. It also has the element counts of the piece transfers.

Characters are bytes 0..255, and texts and patterns are sequences with an
explicit length. The pattern must be non-empty, because `computeLPSArray`
writes `lps[0]` unconditionally.

## Model

| member | source | states |
|---|---|---|
| `Matching.Max` | myproj.c:10 | The result is at least each argument and equal to one of them. |
| `Matching.ReportsAreUnique` | myproj.c:44-82 | Any two offset lists that report exactly the occurrences in increasing order are equal. So a matcher's answer depends only on the text and the pattern, and re-running it gives the same list. |
| `BoyerMoore.BadCharHeuristic` | myproj.c:14-27 | The table has 256 entries. Entry `c` is the index of the last occurrence of byte `c` in the pattern, or -1 when `c` does not occur. So every entry lies in [-1, m-1]. |
| `BoyerMoore.MismatchShiftIsSafe` | myproj.c:73-82 | Suppose the window at shift `s` mismatches at pattern index `j`. Then no occurrence starts in [s, s + max(1, j - badchar[txt[s+j]])). The shift is at least 1 and skips no match. |
| `BoyerMoore.MatchShiftIsSafe` | myproj.c:59-69 | After a full match at `s` with `s + m < n`, no occurrence starts strictly between `s` and `s + m - badchar[txt[s+m]]`. |
| `BoyerMoore.Search` | myproj.c:31-84 | Returns exactly the shifts where the pattern occurs, each once, in strictly increasing order. It returns an empty list when `m > n`. The scan terminates because every step advances the shift. |
| `Kmp.ComputeLpsArray` | myproj.c:92-128 | For every `i`, `lps[i]` is the length of the longest proper prefix of `pat[0..i]` that is also a suffix of it. So `lps[0] == 0` and `0 <= lps[i] <= i`. The loop keeps `len < i` and terminates. |
| `Kmp.FallbackSkipsNoMatch` | myproj.c:154-169 | Suppose `pat[..j]` ends at text position `i`. Falling back to `lps[j-1]` skips no occurrence, and `pat[..lps[j-1]]` still ends at `i`. |
| `Kmp.KmpSearch` | myproj.c:130-171 | Returns exactly the offsets `i - j` where the pattern occurs, overlapping ones included, in strictly increasing order. The text cursor never moves back, and `j < M` holds at the loop head. |
| `Agreement.NaiveMatchesReports` | myproj.c:44-61 | Trying every shift from 0 to n - m gives a correct report. This is the reference both scanners are compared with. |
| `Agreement.BothMatchersAgree` | myproj.c:31-171 | `search` and `KMPSearch` return the same offsets for the same text and pattern, and these equal the naive matcher's. |
| `Agreement.ScannersOnFixtures` | myproj.c:31-171 | `search` and `KMPSearch` themselves return [4] for "ABC" in "ABAAABCD", [0, 1, 2] for "AA" in "AAAA", and nothing for "z" in "hello" or for "ABC" in the empty text. |
| `Agreement.SingleMatchFixture` | myproj.c:31-89 | "ABC" occurs in "ABAAABCD" at offset 4 only. |
| `Agreement.OverlappingMatchesFixture` | myproj.c:130-171 | "AA" occurs in "AAAA" at offsets 0, 1 and 2. |
| `Agreement.NoMatchFixtures` | myproj.c:31-89 | "z" does not occur in "hello". Nothing occurs in the empty text. |
| `Partition.Pieces` | myproj.c:331-350 | A buffer is cut into three well-formed ranges [0,size), [size,2*size) and [2*size,length): the level-1 reads of the corpus here, and the level-2 copy loops at lines 416-436. |
| `Partition.Split3` | myproj.c:279-283 | `size + size + rem == length` and `0 <= rem - size < 3`. The same holds for `size1` and `rem1` over `size`. |
| `Partition.Split3IsUnique` | myproj.c:279-280 | Those two facts determine `size` and `rem` completely. |
| `Partition.PiecesTile` | myproj.c:416-436 | The copy ranges [0,size1), [size1,2*size1) and [2*size1,size) cover [0,size) with no overlap and nothing outside it. The first two have length `size1` and the last has length `rem1`. |
| `Partition.CopyRange` | myproj.c:421-428 | Each copy loop produces a piece of length `hi - lo` with `piece[k] == buf[lo + k]`. |
| `Partition.SplitShare` | myproj.c:416-436 | Each of the three pieces is the slice of its range. Laid end to end, they give back the first `size` bytes of the received share. |
| `Partition.LeafRangesAsWritten` | myproj.c:527-546 | The nine leaves as the workers cut them, each share cut over its first `size` bytes (rank 3's loops at lines 527-546 included): nine well-formed ranges. |
| `Partition.LeafRanges` | myproj.c:279-288 | The nine leaves when each share is cut by the split of its own length: nine well-formed ranges. |
| `Partition.LeafRangesAsWrittenLoseTail` | myproj.c:542 | As written, every worker cuts only `size` bytes. The last leaf ends at `length - length % 3`, and no leaf holds a position at or beyond it, so for length 5 corpus bytes 3 and 4 are in no leaf. |
| `Partition.LeafRangesTileCorpus` | myproj.c:279-283 | If each level-1 share is cut by its own length, the nine leaves tile [0, length) in order with no gap or overlap. |
| `Routing.Destination` | myproj.c:438-555 | Piece 0 of every worker goes to rank 0. No worker sends to itself. |
| `Routing.DestinationsOfWorker` | myproj.c:438-555 | A worker's three pieces go to three different ranks. It sends exactly one piece to every rank other than itself. |
| `Routing.Senders` | myproj.c:382-551 | The ranks each process receives level-2 pieces from, in program order: three for rank 0, two for each worker, and never the process itself. |
| `Routing.PieceFor` | myproj.c:382-551 | Gives the piece a worker sends to a given other rank, the piece each receive of every rank (lines 382-387, 442-444, 493, 499 and 549-551) takes in. It inverts `Destination`. |
| `Routing.ReceivesMatchSends` | myproj.c:382-555 | Rank `r` posts a receive from worker `w` exactly when `w` routes a piece to `r`. No rank receives twice from the same worker. |
| `Routing.Scanned` | myproj.c:388-559 | The pieces a rank runs `search` on, one per receive, in receive order. Each is a piece that its sender routes to that rank. |
| `Routing.EveryPieceScannedOnce` | myproj.c:388-559 | Each of the nine pieces is scanned by exactly the rank it is routed to. Rank 0 scans every worker's piece 0. Every other rank scans exactly two pieces. |
| `Routing.PieceLength` | myproj.c:286-288 | A piece's element count is the length of its range: `size1`, `size1` or `rem1`. |
| `Routing.SentCountAsWritten` | myproj.c:438-555 | The count each worker passes to each send. It never exceeds the piece's length, and equals it for every piece but rank 2's third. |
| `Routing.SentCount` | myproj.c:438-555 | The code's send counts with only line 497 changed to `rem1`. Every count is then the piece's length. |
| `Routing.ReceiveCount` | myproj.c:382-551 | The count each rank posts for each receive. It is at least the length of the piece it receives, and equal to it except for rank 0's receive from rank 3 (line 387), which posts `rem1` for a piece of `size1` bytes. |
| `Routing.ShareLength` | myproj.c:356-358 | The length of each worker's level-1 share: `size` for ranks 1 and 2, `rem` for rank 3, the length of its range of the corpus. |
| `Routing.LeafCount` | myproj.c:279-288 | With both findings corrected, the count a transfer of worker `w`'s piece `k` needs is the length of leaf `3*(w-1)+k` of the corpus. |
| `Routing.LevelOneCountsFitEqualShares` | myproj.c:438-497 | For ranks 1 and 2, whose shares have `size` bytes, the corrected counts computed from `size` are exactly the leaf lengths. |
| `Routing.LevelOneCountsMissRankThreeShare` | myproj.c:553-555 | For rank 3, whose share has `rem` bytes, counts computed from `size` can fall short once line 542 is corrected: for length 8 its first piece has one byte but the count is 0. |
| `Routing.RankTwoTruncatesThirdPiece` | myproj.c:497 | Rank 2 sends its third piece with count `size1`, which is `size % 3` short of the piece. Every other send count is the piece's length. |
| `Routing.CorrectedCountsDeliverWholePieces` | myproj.c:438-555 | With rank 2's count corrected, every send carries the whole piece. The receiving rank posts a count at least as large, so no transfer is cut short. This holds with the cut at line 542 as written, where every share is cut over `size` bytes. |

## Findings

| source | as written | input that shows it | evidently intended | confidence | as-written member | corrected member |
|---|---|---|---|---|---|---|
| myproj.c:542 | Rank 3 receives a share of `rem` bytes but cuts only `[0, size)` of it. | Corpus length 5 gives size 1 and rem 3. Rank 3's share has 3 bytes, and its pieces cover 1 of them. Corpus bytes 3 and 4 are in no leaf and are never scanned. | Cut each share by its own length, so the nine leaves tile the corpus. | not executed; high | `Partition.LeafRangesAsWrittenLoseTail` | `Partition.LeafRangesTileCorpus` |
| myproj.c:497 | Rank 2 sends its third piece, which has `rem1` bytes, with count `size1`. Rank 3 posts `rem1` for it (line 551). | Corpus length 15 gives size 5, size1 1 and rem1 3. Rank 2 sends only 1 of the 3 bytes. | Send count `rem1`, as ranks 1 and 3 do at lines 440 and 555. This correction assumes the cut at line 542 as written; with that line corrected too, rank 3's counts must come from its own share length (`Routing.LeafCount`, `Routing.LevelOneCountsMissRankThreeShare`). | not executed; high | `Routing.RankTwoTruncatesThirdPiece` | `Routing.CorrectedCountsDeliverWholePieces` |

## Left out

- The MPI runtime is not modelled: init, finalize, send, receive, tags and blocking semantics (myproj.c:249-252, 356-387, 403-555). Only the destination table, the receive sources and the transfer counts are modelled, as data.
- File input (`fopen`, `fseek`, `ftell`, `fread`, myproj.c:255-350), the `scanf` pattern input (myproj.c:363) and all `printf` output are left out. The corpus and pattern are parameters, and matches are return values.
- C string handling is left out: `strlen` and `strcpy` on buffers that may not be NUL-terminated, and the 5-byte pattern receive buffers (myproj.c:409, 464, 519). These are memory-safety defects. The model uses sequences with explicit lengths.
- The level-1 receive buffer sizes are left out. Rank 3's receive buffer has `size + 1` bytes, but it receives `rem` elements into it (myproj.c:325 vs 514). The level-1 send counts themselves are modelled by `Routing.ShareLength`.
- The table indexing with signed `char` (myproj.c:26, 69, 82) is left out. The alphabet is bytes 0..255.
- The `counter == m` "not found" test (myproj.c:33, 83-88) is left out. It counts loop iterations and says nothing reliable about whether a match exists. An empty result list means not found.
- Overflow of 32-bit `int` is not modelled. Shifts and lengths are unbounded integers.
- A worker's own pieces are not scanned by that worker. The code sends all three pieces away, and a worker scans only the two it receives (myproj.c:448-449, 502-503, 558-559). The model follows the code.
- The end-to-end run is not modelled: which absolute corpus offsets are finally reported depends on the transport and on the buffer defects above.
