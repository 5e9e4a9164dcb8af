# Track consolidation for incremental reconstruction, in Dafny

This project models the track-consolidation core of an incremental multi-view
reconstruction pipeline (`rich_features.py`). For each pair of consecutive
frames (i, i+1) the core does four things:

- **Correspondence filter** (`Matching`). It applies Lowe's ratio test
  (`d1 < 0.7 * d2`) to the k = 2 nearest-neighbour results of the descriptor
  matcher. It fails when 10 or fewer matches survive. Otherwise it builds four
  index-aligned arrays: query pixels, train pixels, query ids and train ids.
  A separate inlier-mask filter then keeps the id entries whose mask value
  is 1.
- **Track store** (`Tracks.TrackStore`). This is the point cloud: a sequence
  of tracks. Each track (`Point3D` in the source) has 3D coordinates and an
  origin map from frame index to keypoint id.
- **Track consolidator** (`TrackStore.AttachIndices`). An empty store takes
  one new track per triangulated point. Otherwise each candidate extends the
  first track, in store order, that holds the candidate's query id in frame i
  (that track's origin gets `i+1 := train id`). A candidate with no such track
  is appended. Later candidates also see the tracks appended by earlier
  candidates of the same call.
- **Continuity scanner** (`Scan.ScanCloud`). It only reads the store.
  It collects the ids shared between the current query ids and the previous
  pair's train ids, keeping duplicates. For each shared id it returns the
  frame-i pixel and, when some track holds that id in frame i, that track's
  coordinates.

Pixels and coordinates are pairs and triples of reals. Keypoint ids and frame
indices are natural numbers. Distances are reals.

Files: `features.dfy` (value types, `Option`, `Result`), `selection.dfy`
(`TrueIndices`: the strictly increasing indices at which a flag sequence is
set; every filtering step is characterised through it), `matching.dfy`,
`tracks.dfy`, `scan.dfy`.

How the proofs are organised:
- Each loop of the source is a loop in a method. Most are proved against a
  recursive specification function: `GoodMatches`, `NewTracks`, `Consolidate`
  (through `Attach`), `FirstClaimant`, `SharedIds`, `Resolve`. Some methods
  hold several loops: `AttachIndices` holds the loops at lines 72-75 and
  80-85, and `ScanCloud` the loops at lines 99-117. The loop that collects
  the 2D pixels (lines 116-117) is proved by a direct invariant on each
  entry.
- Lemmas then relate each specification function to an independent
  description: selected indices, multiset counts, first-holder lookups.

Behaviour of the code worth knowing; the model follows the code in each case:
- The inlier filter removes entries from the two id arrays only, not from the
  pixel arrays.
- With too few good matches the code prints a message and then fails while
  returning unbound names. The model makes this `Err(InsufficientMatches(count))`.
- Origin entries can be overwritten. A later candidate with the same query id
  reassigns frame i+1 of the same track (`Tracks.OverwriteExample`).
- The shared-id list keeps duplicates. It is a set intersection only when the
  previous train ids are duplicate-free.
- The 2D and 3D outputs of the scan can have different lengths when a shared
  id has no track.
- The code reports no invariant-violation or unresolved-continuity condition,
  so the model reports none.

## Model

| member | source | states |
|---|---|---|
| `Matching.RatioTestExamples` | rich_features.py:34-36 | distances 0.3 against 0.5 pass the ratio test; 0.4 against 0.5 do not |
| `Matching.GoodMatchesAreRatioSurvivors` | rich_features.py:33-36 | the good matches are exactly the nearest matches at the indices passing `d1 < 0.7 * d2`, in input order |
| `Matching.GoodMatches` | rich_features.py:33-36 | definition: the nearest match of every pair with `d1 < 0.7 * d2`, in input order |
| `Matching.SelectGoodMatches` | rich_features.py:33-36 | the ratio-test loop returns the good matches |
| `Matching.MatchKeypoints` | rich_features.py:22-49 | fails, carrying the count, iff 10 or fewer good matches; otherwise the four outputs have one entry per good match, and entry k is the query pixel, train pixel, query id and train id of the k-th good match |
| `Matching.Masked` | rich_features.py:54-55 | definition: the entries whose mask value is 1, in order |
| `Matching.MaskedSelectsInliers` | rich_features.py:54-55 | masked selection keeps exactly the entries at the indices whose mask value is 1, in order |
| `Matching.InlierCount` | rich_features.py:54-55 | the number of kept entries is the number of 1s in the mask |
| `Matching.FilterKeypoints` | rich_features.py:51-57 | both id arrays keep exactly the entries whose mask value is 1, in order and still aligned; each output's length is the number of 1s |
| `Tracks.FirstClaimant` | rich_features.py:63-70 | finds the first track, in store order, holding the id in frame i; tracks without an entry for frame i are skipped; returns none iff no track holds it |
| `Tracks.FirstClaimantSameClaims` | rich_features.py:63-70 | the lookup depends only on the tracks' frame-i entries |
| `Tracks.FirstClaimantAppend` | rich_features.py:63-70 | appending a track keeps every existing lookup result; a missing one can only become the appended position |
| `Tracks.NewTracks` | rich_features.py:72-75 | one fresh track per 3D point, in order; the result is as long as the points and every origin has exactly the keys i and i+1 |
| `Tracks.ConsolidateOne` | rich_features.py:80-85 | one merge step: the first track holding the query id in frame i gets the train id for frame i+1, otherwise the candidate is appended; the store grows by at most one track |
| `Tracks.Consolidate` | rich_features.py:79-85 | the merge steps applied to the candidates in order, each seeing the store left by the previous ones; the store grows by at most one track per candidate |
| `Tracks.Attach` | rich_features.py:77-87 | an empty store becomes exactly one track per 3D point; a non-empty one receives the candidates by `Consolidate` and grows by at most one track per candidate |
| `Tracks.TrackStore.constructor` | rich_features.py:59 | a store starts empty |
| `Tracks.TrackStore.FindPoint` | rich_features.py:63-70 | the linear search with early return yields the first track holding the id in frame i |
| `Tracks.TrackStore.AttachIndices` | rich_features.py:59-87 | the store after the call is `Attach` of the store before it: one new track per point when empty, otherwise the candidates merged in order |
| `Tracks.NewTracksAt` | rich_features.py:72-78 | with an empty store there is one track per 3D point; track k has coordinates `pts[k]` and origin exactly `{i: kp1[k], i+1: kp2[k]}`, two entries |
| `Tracks.BootstrapUniqueIff` | rich_features.py:72-78 | after the first call no two tracks hold the same frame-i keypoint iff the query ids are pairwise distinct |
| `Tracks.ConsolidateOneFrameI` | rich_features.py:80-85 | a merge step with a holder of the query id keeps every frame-i entry and the length; without one it appends exactly the new track |
| `Tracks.ConsolidateKeepsExisting` | rich_features.py:79-85 | existing tracks keep their position, their coordinates and every origin entry other than frame i+1; the store never shrinks |
| `Tracks.ConsolidateClaims` | rich_features.py:79-85 | afterwards a query id is held in frame i iff the old store held it or some candidate carries it; an old first holder stays the first holder |
| `Tracks.ConsolidateKeepsUniqueClaims` | rich_features.py:79-85 | if no two tracks held the same frame-i keypoint before the call, none do after it |
| `Tracks.ConsolidateAppendsUnmatched` | rich_features.py:80-85 | the store grows by exactly the unmatched candidates (query id held by no old track and by no earlier candidate), appended in candidate order with their coordinates and query id, and with origin entries for frames i and i+1 only |
| `Tracks.ConsolidateOneWrites` | rich_features.py:80-85 | after a merge step the first holder of the query id holds the candidate's train id in frame i+1 |
| `Tracks.ConsolidateTouchesOnlyFirstHolders` | rich_features.py:79-85 | an old track that is not, in the old store, the first holder of some candidate's query id is left exactly as it was |
| `Tracks.ConsolidateLastWriteWins` | rich_features.py:79-85 | the first track holding query id q ends up holding, in frame i+1, the train id of the last candidate with query id q |
| `Tracks.ConsolidateUniqueTrainClaims` | rich_features.py:79-85 | with pairwise distinct train ids not already held in frame i+1, unique frame-(i+1) claims are preserved, and every frame-(i+1) claim comes from the old store or a candidate |
| `Tracks.OverwriteExample` | rich_features.py:83 | two candidates with the same query id: the second overwrites the frame-(i+1) entry written by the first |
| `Tracks.DuplicateTrainIdExample` | rich_features.py:83-85 | with a repeated train id two tracks end up holding the same frame-(i+1) keypoint |
| `Scan.Occurrences` | rich_features.py:100-103 | the inner loop contributes one copy of the id per equal previous train id |
| `Scan.SharedIds` | rich_features.py:99-103 | definition: for each current query id in order, one copy per equal previous train id |
| `Scan.CollectSharedIds` | rich_features.py:99-103 | the nested loop returns the shared-id list `SharedIds` |
| `Scan.SharedIdsCount` | rich_features.py:99-103 | each id occurs in the shared list (count in current ids) × (count in previous ids) times |
| `Scan.SharedIdsMembership` | rich_features.py:99-103 | an id is shared iff it occurs among both the current query ids and the previous train ids |
| `Scan.SharedIdsDistinctPrevious` | rich_features.py:99-103 | with duplicate-free previous train ids the shared list is exactly the current query ids found among them, in the current order |
| `Scan.SharedIdsExample` | rich_features.py:99-103 | previous train ids [5, 8, 12] and current query ids [8, 12, 20] share exactly [8, 12] |
| `Scan.SharedIdsKeepsDuplicates` | rich_features.py:99-103 | a repeated previous train id repeats the shared id |
| `Scan.Resolve` | rich_features.py:105-114 | definition: for each shared id in order, the coordinates of the first track holding it in frame i; ids no track holds contribute nothing |
| `Scan.ResolveSelectsResolvable` | rich_features.py:105-114 | the 3D output holds, in order, the coordinates of the first track holding each shared id that some track holds; ids no track holds are omitted |
| `Scan.ResolveLength` | rich_features.py:105-117 | the 3D output is at most as long as the shared-id list, and exactly as long iff every shared id is held by some track |
| `Scan.ScanCloud` | rich_features.py:89-122 | the 2D output has one entry per shared id, namely `prevKp[id].pt`; the 3D output is the coordinates of the shared ids' first holders; the store is not modified |
| `Scan.RescanIsIdempotent` | rich_features.py:89-122 | two scans with the same inputs and store give identical outputs |

## Left out

- Keypoint detection and description (`find_keypoints_descriptors`, rich_features.py:9-17): a thin wrapper over the SURF detector of a vision library.
- Construction of the FLANN matcher and the `knnMatch` call (rich_features.py:24-30): a foreign library. `MatchKeypoints` takes the list of (nearest, second-nearest) pairs as a parameter.
- The conversions to 32-bit float arrays and the reshaping (rich_features.py:39-40, 119-120): representation only; plain sequences are used.
- Floating-point rounding in the ratio test: distances are reals, so 0.7 is exact.
- The message printed when too few matches survive (rich_features.py:46): output only.
- The mutable default argument of `attach_indices` (rich_features.py:59): the store is an explicit `TrackStore` object. In the source an empty store is replaced by a new list rather than extended in place. Callers that use the returned list see no difference.
- The unused `prev_des` parameter of `scan_cloud`.
- Out-of-range keypoint indices, which raise an index error in the source, are preconditions here: matched keypoint ids within the keypoint lists (`MatchKeypoints`), at least as many ids as 3D points (`AttachIndices`), shared ids within the previous keypoints (`ScanCloud`), and a mask as long as the id arrays (`FilterKeypoints`).
- Sharing of `Point3D` objects and their origin dictionaries: tracks are values in a sequence, and an in-place origin update is an update at a position of that sequence. No two tracks in the source share an origin dictionary, so nothing observable is lost.
