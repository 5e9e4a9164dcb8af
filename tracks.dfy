/** The track store and the track consolidator: the growing point cloud in
    which every 3D point remembers, per frame, the keypoint that observed it,
    and the step that merges one frame pair's triangulated points into it. */
module Tracks {
  import opened Features
  import opened Selection

  /** A 3D point record: its coordinates and, per frame index, the id of the
      keypoint that observed it in that frame. */
  datatype Track = Track(coords: Point3, origin: map<nat, nat>)

  /** Track `t` holds keypoint `id` in frame `f`. A track without an entry for
      `f` claims nothing there. */
  predicate Claims(t: Track, f: nat, id: nat) {
    f in t.origin && t.origin[f] == id
  }

  /** The track a candidate of frame pair (i, i+1) becomes when it is new. */
  function NewTrack(i: nat, c: Point3, q: nat, t: nat): Track {
    Track(c, map[i := q, i + 1 := t])
  }

  /** No two tracks hold the same keypoint id in frame `f`. */
  predicate UniqueClaims(tracks: seq<Track>, f: nat) {
    forall a, b :: 0 <= a < b < |tracks| && f in tracks[a].origin && f in tracks[b].origin ==>
      tracks[a].origin[f] != tracks[b].origin[f]
  }

  /** Both stores have the same length and the same entry (or none) for frame
      `f` in every track. */
  predicate SameClaimsAt(a: seq<Track>, b: seq<Track>, f: nat) {
    && |a| == |b|
    && forall k :: 0 <= k < |a| ==>
         && (f in a[k].origin <==> f in b[k].origin)
         && (f in a[k].origin ==> a[k].origin[f] == b[k].origin[f])
  }

  /** `after` is `before` with the same coordinates and the same origin
      entries, except that the entry for frame `f` may have been added or
      reassigned. */
  predicate AgreesExcept(before: Track, after: Track, f: nat) {
    && after.coords == before.coords
    && before.origin.Keys <= after.origin.Keys
    && after.origin.Keys <= before.origin.Keys + {f}
    && forall g :: g in before.origin && g != f ==> after.origin[g] == before.origin[g]
  }

  /** The first track, in store order, that holds keypoint `id` in frame `i`;
      tracks without an entry for frame `i` are skipped. */
  function FirstClaimant(tracks: seq<Track>, i: nat, id: nat): (r: Option<nat>)
    ensures r.Some? ==> r.value < |tracks| && Claims(tracks[r.value], i, id)
    ensures r.Some? ==> forall k :: 0 <= k < r.value ==> !Claims(tracks[k], i, id)
    ensures r.None? ==> forall k :: 0 <= k < |tracks| ==> !Claims(tracks[k], i, id)
  {
    if tracks == [] then None
    else if Claims(tracks[0], i, id) then Some(0)
    else match FirstClaimant(tracks[1..], i, id)
      case Some(j) => Some(j + 1)
      case None => None
  }

  /** The candidates of frame pair (i, i+1) as fresh tracks, one per 3D point. */
  function NewTracks(i: nat, pts: seq<Point3>, kp1: seq<nat>, kp2: seq<nat>): (r: seq<Track>)
    requires |pts| <= |kp1| && |pts| <= |kp2|
    ensures |r| == |pts|
    ensures forall k :: 0 <= k < |r| ==> r[k].origin.Keys == {i, i + 1}
  {
    if pts == [] then []
    else
      var n := |pts| - 1;
      NewTracks(i, pts[..n], kp1, kp2) + [NewTrack(i, pts[n], kp1[n], kp2[n])]
  }

  /** Merging one candidate (3D point c, query id q, train id t) into a
      non-empty store: the first track holding q in frame i gets train id t
      for frame i+1; without such a track the candidate is appended. */
  function ConsolidateOne(tracks: seq<Track>, i: nat, c: Point3, q: nat, t: nat): (r: seq<Track>)
    ensures |tracks| <= |r| <= |tracks| + 1
  {
    match FirstClaimant(tracks, i, q)
    case Some(j) => tracks[j := tracks[j].(origin := tracks[j].origin[i + 1 := t])]
    case None => tracks + [NewTrack(i, c, q, t)]
  }

  /** Merging the candidates one after another, each seeing the store as the
      previous ones left it (tracks appended earlier included). */
  function Consolidate(tracks: seq<Track>, i: nat, pts: seq<Point3>, kp1: seq<nat>, kp2: seq<nat>): (r: seq<Track>)
    requires |pts| <= |kp1| && |pts| <= |kp2|
    ensures |tracks| <= |r| <= |tracks| + |pts|
  {
    if pts == [] then tracks
    else
      var n := |pts| - 1;
      ConsolidateOne(Consolidate(tracks, i, pts[..n], kp1, kp2), i, pts[n], kp1[n], kp2[n])
  }

  /** The store after one consolidation call: an empty store becomes one new
      track per 3D point; otherwise the candidates are merged in. */
  function Attach(tracks: seq<Track>, i: nat, pts: seq<Point3>, kp1: seq<nat>, kp2: seq<nat>): (r: seq<Track>)
    requires |pts| <= |kp1| && |pts| <= |kp2|
    ensures tracks == [] ==> |r| == |pts|
    ensures tracks != [] ==> |tracks| <= |r| <= |tracks| + |pts|
  {
    if tracks == [] then NewTracks(i, pts, kp1, kp2) else Consolidate(tracks, i, pts, kp1, kp2)
  }

  /** Candidate c is unmatched when no track of the old store holds its query
      id in frame i and no earlier candidate has the same query id. */
  function UnmatchedFlags(tracks: seq<Track>, i: nat, kp1: seq<nat>, n: nat): (r: seq<bool>)
    requires n <= |kp1|
    ensures |r| == n
  {
    seq(n, c requires 0 <= c < n => FirstClaimant(tracks, i, kp1[c]).None? && kp1[c] !in kp1[..c])
  }

  // ---------------------------------------------------------------------
  // Lookup lemmas

  /** Lookups in frame i see only the frame-i entries. */
  lemma {:induction false} FirstClaimantSameClaims(a: seq<Track>, b: seq<Track>, i: nat, q: nat)
    requires SameClaimsAt(a, b, i)
    ensures FirstClaimant(a, i, q) == FirstClaimant(b, i, q)
  {
    var ra, rb := FirstClaimant(a, i, q), FirstClaimant(b, i, q);
    if ra.Some? {
      assert Claims(b[ra.value], i, q);
    }
    if rb.Some? {
      assert Claims(a[rb.value], i, q);
    }
  }

  /** Appending a track leaves existing lookups alone and can only resolve a
      missing one to the appended position. */
  lemma FirstClaimantAppend(tracks: seq<Track>, t: Track, i: nat, q: nat)
    ensures FirstClaimant(tracks + [t], i, q) ==
      if FirstClaimant(tracks, i, q).Some? then FirstClaimant(tracks, i, q)
      else if Claims(t, i, q) then Some(|tracks|)
      else None
  {
    var s := FirstClaimant(tracks, i, q);
    if s.Some? {
      assert Claims((tracks + [t])[s.value], i, q);
    } else if Claims(t, i, q) {
      assert Claims((tracks + [t])[|tracks|], i, q);
    }
  }

  /** One merge step never changes the entries for frame i of the existing
      tracks; it can only append. */
  lemma ConsolidateOneFrameI(tracks: seq<Track>, i: nat, c: Point3, q: nat, t: nat)
    ensures var r := ConsolidateOne(tracks, i, c, q, t);
      match FirstClaimant(tracks, i, q)
      case Some(_) => SameClaimsAt(tracks, r, i)
      case None => r == tracks + [NewTrack(i, c, q, t)]
  {
  }

  // ---------------------------------------------------------------------
  // First frame pair

  /** With an empty store, track k is the k-th 3D point observed by the k-th
      query id in frame i and the k-th train id in frame i+1, and nothing else. */
  lemma {:induction false} NewTracksAt(i: nat, pts: seq<Point3>, kp1: seq<nat>, kp2: seq<nat>)
    requires |pts| <= |kp1| && |pts| <= |kp2|
    ensures |NewTracks(i, pts, kp1, kp2)| == |pts|
    ensures forall k :: 0 <= k < |pts| ==>
      && NewTracks(i, pts, kp1, kp2)[k].coords == pts[k]
      && NewTracks(i, pts, kp1, kp2)[k].origin == map[i := kp1[k], i + 1 := kp2[k]]
      && |NewTracks(i, pts, kp1, kp2)[k].origin| == 2
  {
    if pts != [] {
      var n := |pts| - 1;
      NewTracksAt(i, pts[..n], kp1, kp2);
      assert map[i := kp1[n], i + 1 := kp2[n]].Keys == {i, i + 1};
    }
  }

  /** The first consolidation yields unique frame-i claims iff its query ids
      are pairwise distinct (no merge search happens on an empty store). */
  lemma BootstrapUniqueIff(i: nat, pts: seq<Point3>, kp1: seq<nat>, kp2: seq<nat>)
    requires |pts| <= |kp1| && |pts| <= |kp2|
    ensures UniqueClaims(Attach([], i, pts, kp1, kp2), i) <==>
      forall a, b :: 0 <= a < b < |pts| ==> kp1[a] != kp1[b]
  {
    var r := Attach([], i, pts, kp1, kp2);
    NewTracksAt(i, pts, kp1, kp2);
    assert forall k :: 0 <= k < |pts| ==> i in r[k].origin && r[k].origin[i] == kp1[k];
  }

  // ---------------------------------------------------------------------
  // Later frame pairs: what one consolidation call does to a non-empty store

  lemma AgreesExceptTransitive(a: Track, b: Track, c: Track, f: nat)
    requires AgreesExcept(a, b, f) && AgreesExcept(b, c, f)
    ensures AgreesExcept(a, c, f)
  {
  }

  /** Existing tracks keep their position and coordinates, and every origin
      entry except the one for frame i+1; the store never shrinks. */
  lemma {:induction false} ConsolidateKeepsExisting(tracks: seq<Track>, i: nat, pts: seq<Point3>, kp1: seq<nat>, kp2: seq<nat>)
    requires |pts| <= |kp1| && |pts| <= |kp2|
    ensures var r := Consolidate(tracks, i, pts, kp1, kp2);
      |tracks| <= |r| && forall k :: 0 <= k < |tracks| ==> AgreesExcept(tracks[k], r[k], i + 1)
  {
    if pts != [] {
      var n := |pts| - 1;
      var r' := Consolidate(tracks, i, pts[..n], kp1, kp2);
      ConsolidateKeepsExisting(tracks, i, pts[..n], kp1, kp2);
      var r := Consolidate(tracks, i, pts, kp1, kp2);
      forall k | 0 <= k < |tracks|
        ensures AgreesExcept(tracks[k], r[k], i + 1)
      {
        assert AgreesExcept(r'[k], r[k], i + 1);
        AgreesExceptTransitive(tracks[k], r'[k], r[k], i + 1);
      }
    }
  }

  /** After the call, a query id is held in frame i iff the old store held it
      there or some candidate carries it; a track of the old store that was the
      first to hold it stays the first. */
  lemma {:induction false} ConsolidateClaims(tracks: seq<Track>, i: nat, pts: seq<Point3>, kp1: seq<nat>, kp2: seq<nat>)
    requires |pts| <= |kp1| && |pts| <= |kp2|
    ensures var r := Consolidate(tracks, i, pts, kp1, kp2);
      forall q :: FirstClaimant(r, i, q).Some? <==> FirstClaimant(tracks, i, q).Some? || q in kp1[..|pts|]
    ensures var r := Consolidate(tracks, i, pts, kp1, kp2);
      forall q :: FirstClaimant(tracks, i, q).Some? ==> FirstClaimant(r, i, q) == FirstClaimant(tracks, i, q)
  {
    if pts != [] {
      var n := |pts| - 1;
      var r' := Consolidate(tracks, i, pts[..n], kp1, kp2);
      ConsolidateClaims(tracks, i, pts[..n], kp1, kp2);
      var r := Consolidate(tracks, i, pts, kp1, kp2);
      assert kp1[..n + 1] == kp1[..n] + [kp1[n]];
      ConsolidateOneFrameI(r', i, pts[n], kp1[n], kp2[n]);
      forall q
        ensures FirstClaimant(r, i, q).Some? <==> FirstClaimant(r', i, q).Some? || q == kp1[n]
        ensures FirstClaimant(r', i, q).Some? ==> FirstClaimant(r, i, q) == FirstClaimant(r', i, q)
      {
        if FirstClaimant(r', i, kp1[n]).Some? {
          FirstClaimantSameClaims(r', r, i, q);
          FirstClaimantSameClaims(r', r, i, kp1[n]);
        } else {
          FirstClaimantAppend(r', NewTrack(i, pts[n], kp1[n], kp2[n]), i, q);
        }
      }
    }
  }

  /** Only first holders are written: a track of the old store that is not,
      in the old store, the first holder of any candidate's query id is left
      exactly as it was. */
  lemma {:induction false} ConsolidateTouchesOnlyFirstHolders(tracks: seq<Track>, i: nat, pts: seq<Point3>, kp1: seq<nat>, kp2: seq<nat>)
    requires |pts| <= |kp1| && |pts| <= |kp2|
    ensures var r := Consolidate(tracks, i, pts, kp1, kp2);
      && |tracks| <= |r|
      && forall k :: 0 <= k < |tracks| && (forall c :: 0 <= c < |pts| ==> FirstClaimant(tracks, i, kp1[c]) != Some(k)) ==>
           r[k] == tracks[k]
  {
    ConsolidateKeepsExisting(tracks, i, pts, kp1, kp2);
    if pts != [] {
      var n := |pts| - 1;
      var r' := Consolidate(tracks, i, pts[..n], kp1, kp2);
      ConsolidateTouchesOnlyFirstHolders(tracks, i, pts[..n], kp1, kp2);
      ConsolidateClaims(tracks, i, pts[..n], kp1, kp2);
      ConsolidateOneFrameI(r', i, pts[n], kp1[n], kp2[n]);
      var r := Consolidate(tracks, i, pts, kp1, kp2);
      var q := kp1[n];
      forall k | 0 <= k < |tracks| && (forall c :: 0 <= c < |pts| ==> FirstClaimant(tracks, i, kp1[c]) != Some(k))
        ensures r[k] == tracks[k]
      {
        assert r'[k] == tracks[k];
        assert FirstClaimant(tracks, i, q) != Some(k);
        match FirstClaimant(r', i, q)
        case Some(j) =>
          if FirstClaimant(tracks, i, q).Some? {
            assert j == FirstClaimant(tracks, i, q).value;
          } else {
            assert !Claims(tracks[k], i, q);
          }
          assert j != k;
        case None =>
      }
    }
  }

  /** No two tracks hold the same keypoint in frame i after the call if none
      did before: an extension never touches frame i, and a candidate is
      appended only when no track holds its query id. */
  lemma {:induction false} ConsolidateKeepsUniqueClaims(tracks: seq<Track>, i: nat, pts: seq<Point3>, kp1: seq<nat>, kp2: seq<nat>)
    requires |pts| <= |kp1| && |pts| <= |kp2|
    requires UniqueClaims(tracks, i)
    ensures UniqueClaims(Consolidate(tracks, i, pts, kp1, kp2), i)
  {
    if pts != [] {
      var n := |pts| - 1;
      var r' := Consolidate(tracks, i, pts[..n], kp1, kp2);
      ConsolidateKeepsUniqueClaims(tracks, i, pts[..n], kp1, kp2);
      ConsolidateOneFrameI(r', i, pts[n], kp1[n], kp2[n]);
    }
  }

  /** The tracks of `r` from position `base` on are, in order, one per index
      of `ix`: the m-th has the coordinates and the frame-i query id of
      candidate ix[m], and origin entries for frames i and i+1 only. */
  predicate AppendedAre(r: seq<Track>, base: nat, ix: seq<nat>, i: nat, pts: seq<Point3>, kp1: seq<nat>) {
    && |r| == base + |ix|
    && forall m :: 0 <= m < |ix| ==>
         && ix[m] < |pts| && ix[m] < |kp1|
         && r[base + m].coords == pts[ix[m]]
         && Claims(r[base + m], i, kp1[ix[m]])
         && r[base + m].origin.Keys == {i, i + 1}
  }

  lemma AppendedAreSnocTrain(r: seq<Track>, base: nat, ix: seq<nat>, i: nat, pts: seq<Point3>, kp1: seq<nat>, kp2: seq<nat>, n: nat)
    requires n < |pts| && n < |kp1| && n < |kp2|
    requires AppendedAre(r, base, ix, i, pts[..n], kp1)
    ensures AppendedAre(r + [NewTrack(i, pts[n], kp1[n], kp2[n])], base, ix + [n], i, pts, kp1)
  {
  }

  lemma AppendedAreKept(r: seq<Track>, r2: seq<Track>, base: nat, ix: seq<nat>, i: nat, pts: seq<Point3>, kp1: seq<nat>, n: nat)
    requires n <= |pts|
    requires AppendedAre(r, base, ix, i, pts[..n], kp1)
    requires SameClaimsAt(r, r2, i)
    requires forall k :: 0 <= k < |r| ==> r2[k].coords == r[k].coords
    requires forall k :: 0 <= k < |r| ==> r[k].origin.Keys <= r2[k].origin.Keys <= r[k].origin.Keys + {i + 1}
    ensures AppendedAre(r2, base, ix, i, pts, kp1)
  {
    forall m | 0 <= m < |ix|
      ensures r2[base + m].coords == pts[ix[m]] && Claims(r2[base + m], i, kp1[ix[m]])
      ensures r2[base + m].origin.Keys == {i, i + 1}
    {
      assert Claims(r[base + m], i, kp1[ix[m]]);
      assert r[base + m].origin.Keys == {i, i + 1};
    }
  }

  lemma UnmatchedFlagsSnoc(tracks: seq<Track>, i: nat, kp1: seq<nat>, n: nat)
    requires n < |kp1|
    ensures UnmatchedFlags(tracks, i, kp1, n + 1) ==
      UnmatchedFlags(tracks, i, kp1, n) + [FirstClaimant(tracks, i, kp1[n]).None? && kp1[n] !in kp1[..n]]
  {
  }

  /** The store grows by one track per unmatched candidate, appended in
      candidate order: the m-th appended track has the coordinates and the
      query id of the m-th unmatched candidate, and origin entries for frames
      i and i+1 only. */
  lemma {:induction false} ConsolidateAppendsUnmatched(tracks: seq<Track>, i: nat, pts: seq<Point3>, kp1: seq<nat>, kp2: seq<nat>)
    requires |pts| <= |kp1| && |pts| <= |kp2|
    ensures AppendedAre(Consolidate(tracks, i, pts, kp1, kp2), |tracks|,
                        TrueIndices(UnmatchedFlags(tracks, i, kp1, |pts|)), i, pts, kp1)
  {
    if pts != [] {
      var n := |pts| - 1;
      var r' := Consolidate(tracks, i, pts[..n], kp1, kp2);
      var flag := FirstClaimant(tracks, i, kp1[n]).None? && kp1[n] !in kp1[..n];
      UnmatchedFlagsSnoc(tracks, i, kp1, n);
      TrueIndicesSnoc(UnmatchedFlags(tracks, i, kp1, n), flag);
      var ix' := TrueIndices(UnmatchedFlags(tracks, i, kp1, n));
      assert FirstClaimant(r', i, kp1[n]).None? <==> flag by {
        ConsolidateClaims(tracks, i, pts[..n], kp1, kp2);
      }
      ConsolidateAppendsUnmatched(tracks, i, pts[..n], kp1, kp2);
      assert pts[..n] == pts[..n][..n];
      ConsolidateOneFrameI(r', i, pts[n], kp1[n], kp2[n]);
      var r := Consolidate(tracks, i, pts, kp1, kp2);
      match FirstClaimant(r', i, kp1[n])
      case Some(j) =>
        AppendedAreKept(r', r, |tracks|, ix', i, pts, kp1, n);
      case None =>
        AppendedAreSnocTrain(r', |tracks|, ix', i, pts, kp1, kp2, n);
    }
  }

  /** Candidate c is the last one, among the first n, with its query id. */
  predicate IsLastQuery(kp1: seq<nat>, c: nat, n: nat)
    requires c < n <= |kp1|
  {
    forall d :: c < d < n ==> kp1[d] != kp1[c]
  }

  /** The first track holding query id q in frame i holds train id t in frame i+1. */
  predicate FirstHolderHas(r: seq<Track>, i: nat, q: nat, t: nat) {
    FirstClaimant(r, i, q).Some? && Claims(r[FirstClaimant(r, i, q).value], i + 1, t)
  }

  /** A merge step makes the first holder of its query id hold its train id. */
  lemma ConsolidateOneWrites(r: seq<Track>, i: nat, c: Point3, q: nat, t: nat)
    ensures FirstHolderHas(ConsolidateOne(r, i, c, q, t), i, q, t)
  {
    var r2 := ConsolidateOne(r, i, c, q, t);
    ConsolidateOneFrameI(r, i, c, q, t);
    if FirstClaimant(r, i, q).Some? {
      FirstClaimantSameClaims(r, r2, i, q);
    } else {
      FirstClaimantAppend(r, NewTrack(i, c, q, t), i, q);
    }
  }

  /** A merge step for another query id leaves the first holder of q alone. */
  lemma ConsolidateOneKeepsOtherHolder(r: seq<Track>, i: nat, c: Point3, q0: nat, t0: nat, q: nat, t: nat)
    requires q != q0 && FirstHolderHas(r, i, q, t)
    ensures FirstHolderHas(ConsolidateOne(r, i, c, q0, t0), i, q, t)
  {
    var r2 := ConsolidateOne(r, i, c, q0, t0);
    ConsolidateOneFrameI(r, i, c, q0, t0);
    if FirstClaimant(r, i, q0).Some? {
      FirstClaimantSameClaims(r, r2, i, q);
    } else {
      FirstClaimantAppend(r, NewTrack(i, c, q0, t0), i, q);
    }
  }

  /** The first track holding query id q in frame i ends up with the train id
      of the last candidate whose query id is q: later candidates overwrite
      the frame-(i+1) entry of earlier ones. */
  lemma {:induction false} ConsolidateLastWriteWins(tracks: seq<Track>, i: nat, pts: seq<Point3>, kp1: seq<nat>, kp2: seq<nat>)
    requires |pts| <= |kp1| && |pts| <= |kp2|
    ensures forall c :: 0 <= c < |pts| && IsLastQuery(kp1, c, |pts|) ==>
      FirstHolderHas(Consolidate(tracks, i, pts, kp1, kp2), i, kp1[c], kp2[c])
  {
    if pts != [] {
      var n := |pts| - 1;
      var r' := Consolidate(tracks, i, pts[..n], kp1, kp2);
      ConsolidateLastWriteWins(tracks, i, pts[..n], kp1, kp2);
      forall c | 0 <= c < |pts| && IsLastQuery(kp1, c, |pts|)
        ensures FirstHolderHas(Consolidate(tracks, i, pts, kp1, kp2), i, kp1[c], kp2[c])
      {
        if c == n {
          ConsolidateOneWrites(r', i, pts[n], kp1[n], kp2[n]);
        } else {
          assert kp1[n] != kp1[c];
          assert IsLastQuery(kp1, c, n);
          ConsolidateOneKeepsOtherHolder(r', i, pts[n], kp1[n], kp2[n], kp1[c], kp2[c]);
        }
      }
    }
  }

  /** Under explicit preconditions — the candidates' train ids are pairwise
      distinct and none of them is already held in frame i+1 — no two tracks
      hold the same keypoint in frame i+1 after the call if none did before;
      every frame-(i+1) claim afterwards comes from the old store or from a
      candidate. */
  lemma {:induction false} ConsolidateUniqueTrainClaims(tracks: seq<Track>, i: nat, pts: seq<Point3>, kp1: seq<nat>, kp2: seq<nat>)
    requires |pts| <= |kp1| && |pts| <= |kp2|
    requires UniqueClaims(tracks, i + 1)
    requires forall c :: 0 <= c < |pts| ==> FirstClaimant(tracks, i + 1, kp2[c]).None?
    requires forall a, b :: 0 <= a < b < |pts| ==> kp2[a] != kp2[b]
    ensures UniqueClaims(Consolidate(tracks, i, pts, kp1, kp2), i + 1)
    ensures forall x :: FirstClaimant(Consolidate(tracks, i, pts, kp1, kp2), i + 1, x).Some? ==>
      FirstClaimant(tracks, i + 1, x).Some? || x in kp2[..|pts|]
  {
    if pts != [] {
      var n := |pts| - 1;
      var r' := Consolidate(tracks, i, pts[..n], kp1, kp2);
      ConsolidateUniqueTrainClaims(tracks, i, pts[..n], kp1, kp2);
      var r := Consolidate(tracks, i, pts, kp1, kp2);
      var t := kp2[n];
      assert kp2[..n + 1] == kp2[..n] + [t];
      assert t !in kp2[..n] by {
        forall a | 0 <= a < n ensures kp2[..n][a] != t { }
      }
      assert FirstClaimant(tracks, i + 1, t).None?;
      assert FirstClaimant(r', i + 1, t).None?;
      var f := i + 1;
      forall x
        ensures FirstClaimant(r, f, x).Some? ==> FirstClaimant(tracks, f, x).Some? || x in kp2[..n + 1]
      {
        if FirstClaimant(r, f, x).Some? && x != t {
          var k := FirstClaimant(r, f, x).value;
          assert Claims(r'[k], f, x);
        }
      }
    }
  }

  /** Origin entries can be overwritten: two candidates with the same query
      id both write the frame-(i+1) entry of the track that holds it. */
  lemma OverwriteExample(c: Point3)
    ensures var r := Consolidate([Track(c, map[0 := 5, 1 := 6])], 0, [c, c], [5, 5], [7, 8]);
      |r| == 1 && r[0].origin == map[0 := 5, 1 := 8]
  {
    var t0 := Track(c, map[0 := 5, 1 := 6]);
    assert [c][..0] == [];
    assert FirstClaimant([t0], 0, 5) == Some(0);
    var one := Consolidate([t0], 0, [c], [5, 5], [7, 8]);
    assert Consolidate([t0], 0, [], [5, 5], [7, 8]) == [t0];
    assert one == ConsolidateOne([t0], 0, c, 5, 7);
    assert map[0 := 5, 1 := 6][1 := 7] == map[0 := 5, 1 := 7];
    assert [c, c][..1] == [c];
    assert one == [Track(c, map[0 := 5, 1 := 7])];
    assert FirstClaimant(one, 0, 5) == Some(0);
  }

  /** With a repeated train id two tracks can end up holding the same keypoint
      in frame i+1, so that property needs distinct train ids. */
  lemma DuplicateTrainIdExample(c: Point3)
    ensures !UniqueClaims(Consolidate([Track(c, map[0 := 9])], 0, [c, c], [1, 2], [7, 7]), 1)
  {
    var t0 := Track(c, map[0 := 9]);
    assert [c][..0] == [];
    assert FirstClaimant([t0], 0, 1) == None by { assert !Claims(t0, 0, 1); }
    var one := Consolidate([t0], 0, [c], [1, 2], [7, 7]);
    assert Consolidate([t0], 0, [], [1, 2], [7, 7]) == [t0];
    assert one == ConsolidateOne([t0], 0, c, 1, 7);
    assert [c, c][..1] == [c];
    assert one == [t0, NewTrack(0, c, 1, 7)];
    var r := Consolidate([t0], 0, [c, c], [1, 2], [7, 7]);
    assert FirstClaimant(one, 0, 2) == None by {
      assert !Claims(one[0], 0, 2) && !Claims(one[1], 0, 2);
    }
    assert r == one + [NewTrack(0, c, 2, 7)];
    assert 1 in r[1].origin && 1 in r[2].origin && r[1].origin[1] == r[2].origin[1];
  }

  // ---------------------------------------------------------------------
  // The store object

  /** The indexed point cloud, owned by the pipeline driver and written only
      by the consolidator. */
  class TrackStore {
    var tracks: seq<Track>

    /** A store starts empty. */
    constructor ()
      ensures tracks == []
    {
      tracks := [];
    }

    /** The linear search for the first track holding keypoint `id` in frame
        `i`; tracks without an entry for frame `i` are skipped. */
    method FindPoint(i: nat, id: nat) returns (r: Option<nat>)
      ensures r == FirstClaimant(tracks, i, id)
    {
      var j := 0;
      while j < |tracks|
        invariant 0 <= j <= |tracks|
        invariant forall k :: 0 <= k < j ==> !Claims(tracks[k], i, id)
      {
        if Claims(tracks[j], i, id) {
          return Some(j);
        }
        j := j + 1;
      }
      return None;
    }

    /** One consolidation call for frame pair (i, i+1): the candidates are
        built first; an empty store takes them all, otherwise each candidate
        extends the first track holding its query id in frame i, or is
        appended. */
    method AttachIndices(i: nat, pts3D: seq<Point3>, kp1: seq<nat>, kp2: seq<nat>)
      requires |pts3D| <= |kp1| && |pts3D| <= |kp2|
      modifies this
      ensures tracks == Attach(old(tracks), i, pts3D, kp1, kp2)
    {
      var newPts: seq<Track> := [];
      for num := 0 to |pts3D|
        invariant newPts == NewTracks(i, pts3D[..num], kp1, kp2)
      {
        assert pts3D[..num + 1][..num] == pts3D[..num];
        newPts := newPts + [NewTrack(i, pts3D[num], kp1[num], kp2[num])];
      }
      assert pts3D[..|pts3D|] == pts3D;
      NewTracksAt(i, pts3D, kp1, kp2);
      if tracks == [] {
        tracks := newPts;
      } else {
        for num := 0 to |newPts|
          invariant tracks == Consolidate(old(tracks), i, pts3D[..num], kp1, kp2)
        {
          assert pts3D[..num + 1][..num] == pts3D[..num];
          var newPt := newPts[num];
          var found := FindPoint(i, newPt.origin[i]);
          match found
          case Some(j) =>
            tracks := tracks[j := tracks[j].(origin := tracks[j].origin[i + 1 := kp2[num]])];
          case None =>
            tracks := tracks + [newPt];
        }
      }
    }
  }
}
