/** The continuity scanner: the keypoints of frame i matched both backward
    (into frame i-1, the previous pair's train ids) and forward (into frame
    i+1, the current pair's query ids), with their pixel in frame i and, where
    a track holds them, their known 3D coordinates. It only reads the store. */
module Scan {
  import opened Features
  import opened Selection
  import opened Tracks

  /** One copy of `x` per element of `s` equal to it. */
  function Occurrences(x: nat, s: seq<nat>): (r: seq<nat>)
    ensures |r| == multiset(s)[x]
    ensures forall k :: 0 <= k < |r| ==> r[k] == x
  {
    if s == [] then []
    else
      var n := |s| - 1;
      assert s == s[..n] + [s[n]];
      Occurrences(x, s[..n]) + (if s[n] == x then [x] else [])
  }

  /** The shared ids produced by the nested loop: for each current query id,
      in order, one copy per equal previous train id. */
  function SharedIds(current: seq<nat>, previous: seq<nat>): seq<nat> {
    if current == [] then []
    else
      var n := |current| - 1;
      SharedIds(current[..n], previous) + Occurrences(current[n], previous)
  }

  /** Each id occurs in the shared list as often as the product of its counts
      in the two inputs: duplicates are kept, not a set intersection. */
  lemma {:induction false} SharedIdsCount(current: seq<nat>, previous: seq<nat>, x: nat)
    ensures multiset(SharedIds(current, previous))[x] == multiset(current)[x] * multiset(previous)[x]
  {
    if current != [] {
      var n := |current| - 1;
      SharedIdsCount(current[..n], previous, x);
      var occ := Occurrences(current[n], previous);
      var a: nat := multiset(current[..n])[x];
      var m: nat := multiset(previous)[x];
      var mo: multiset<nat> := multiset(occ);
      assert current == current[..n] + [current[n]];
      assert multiset(current)[x] == a + (if current[n] == x then 1 else 0);
      assert multiset(SharedIds(current, previous))[x] == a * m + mo[x];
      if current[n] == x {
        OccurrencesAllX(occ, x);
        ProductStep(a, m);
      } else {
        assert x !in occ;
      }
    }
  }

  lemma ProductStep(a: nat, m: nat)
    ensures (a + 1) * m == a * m + m
  {
  }

  lemma {:induction false} OccurrencesAllX(s: seq<nat>, x: nat)
    requires forall k :: 0 <= k < |s| ==> s[k] == x
    ensures multiset(s)[x] == |s|
  {
    if s != [] {
      var n := |s| - 1;
      assert s == s[..n] + [s[n]];
      OccurrencesAllX(s[..n], x);
    }
  }

  /** An id is shared iff it is among the current query ids and among the
      previous train ids. */
  lemma SharedIdsMembership(current: seq<nat>, previous: seq<nat>, x: nat)
    ensures x in SharedIds(current, previous) <==> x in current && x in previous
  {
    SharedIdsCount(current, previous, x);
  }

  function MembershipFlags(current: seq<nat>, previous: seq<nat>): (r: seq<bool>)
    ensures |r| == |current|
  {
    seq(|current|, k requires 0 <= k < |current| => current[k] in previous)
  }

  /** With duplicate-free previous train ids the shared list is the current
      query ids that also occur among them, in the current order. */
  lemma {:induction false} SharedIdsDistinctPrevious(current: seq<nat>, previous: seq<nat>)
    requires forall a, b :: 0 <= a < b < |previous| ==> previous[a] != previous[b]
    ensures SelectsAt(SharedIds(current, previous), current, TrueIndices(MembershipFlags(current, previous)))
  {
    if current != [] {
      var n := |current| - 1;
      SharedIdsDistinctPrevious(current[..n], previous);
      var x := current[n];
      assert MembershipFlags(current, previous) == MembershipFlags(current[..n], previous) + [x in previous];
      TrueIndicesSnoc(MembershipFlags(current[..n], previous), x in previous);
      OccurrencesDistinct(x, previous);
      SelectsAtSnoc(SharedIds(current[..n], previous), current, TrueIndices(MembershipFlags(current[..n], previous)), x in previous);
    }
  }

  /** Against a duplicate-free sequence an id occurs once or not at all. */
  lemma OccurrencesDistinct(x: nat, s: seq<nat>)
    requires forall a, b :: 0 <= a < b < |s| ==> s[a] != s[b]
    ensures Occurrences(x, s) == if x in s then [x] else []
  {
    var occ := Occurrences(x, s);
    if x in s {
      var j :| 0 <= j < |s| && s[j] == x;
      DistinctCount(s, j);
      assert |occ| == 1;
    } else {
      assert multiset(s)[x] == 0;
    }
  }

  /** In a duplicate-free sequence the element at position j occurs once. */
  lemma {:induction false} DistinctCount(s: seq<nat>, j: nat)
    requires j < |s|
    requires forall a, b :: 0 <= a < b < |s| ==> s[a] != s[b]
    ensures multiset(s)[s[j]] == 1
  {
    var n := |s| - 1;
    assert s == s[..n] + [s[n]];
    if j < n {
      DistinctCount(s[..n], j);
      assert s[n] != s[j];
    } else {
      assert s[n] !in s[..n];
    }
  }

  /** The worked example: previous train ids {5, 8, 12}, current query ids
      {8, 12, 20} share exactly 8 and 12, in the current order. */
  lemma SharedIdsExample()
    ensures SharedIds([8, 12, 20], [5, 8, 12]) == [8, 12]
  {
    var prev := [5, 8, 12];
    ExampleOccurrences();
    assert [8, 12, 20][..2] == [8, 12];
    assert [8, 12][..1] == [8];
    assert [8][..0] == [];
    assert SharedIds([8], prev) == [8];
    assert SharedIds([8, 12], prev) == [8, 12];
  }

  lemma ExampleOccurrences()
    ensures Occurrences(8, [5, 8, 12]) == [8]
    ensures Occurrences(12, [5, 8, 12]) == [12]
    ensures Occurrences(20, [5, 8, 12]) == []
  {
    var prev := [5, 8, 12];
    assert prev[1] == 8 && prev[2] == 12;
    OccurrencesDistinct(8, prev);
    OccurrencesDistinct(12, prev);
    OccurrencesDistinct(20, prev);
  }

  /** A repeated previous train id repeats the shared id. */
  lemma SharedIdsKeepsDuplicates()
    ensures SharedIds([8], [8, 8]) == [8, 8]
  {
    assert [8][..0] == [];
    assert [8, 8][..1] == [8];
    assert Occurrences(8, [8, 8]) == [8, 8];
  }

  /** The coordinates of the first track holding `id` in frame i, if any. */
  function Lookup3D(tracks: seq<Track>, i: nat, id: nat): seq<Point3> {
    match FirstClaimant(tracks, i, id)
    case Some(j) => [tracks[j].coords]
    case None => []
  }

  /** For each id, in order, the coordinates of the first track holding it in
      frame i; an id that no track holds contributes nothing. */
  function Resolve(tracks: seq<Track>, i: nat, ids: seq<nat>): seq<Point3> {
    if ids == [] then []
    else
      var n := |ids| - 1;
      Resolve(tracks, i, ids[..n]) + Lookup3D(tracks, i, ids[n])
  }

  function ResolvableFlags(tracks: seq<Track>, i: nat, ids: seq<nat>): (r: seq<bool>)
    ensures |r| == |ids|
  {
    seq(|ids|, k requires 0 <= k < |ids| => FirstClaimant(tracks, i, ids[k]).Some?)
  }

  /** `out` holds, in order, the coordinates of the first track holding each
      id ids[ix[k]] in frame i. */
  predicate PicksResolved(out: seq<Point3>, tracks: seq<Track>, i: nat, ids: seq<nat>, ix: seq<nat>) {
    && |out| == |ix|
    && forall k :: 0 <= k < |ix| ==>
         && ix[k] < |ids|
         && FirstClaimant(tracks, i, ids[ix[k]]).Some?
         && out[k] == tracks[FirstClaimant(tracks, i, ids[ix[k]]).value].coords
  }

  lemma PicksResolvedSnoc(out: seq<Point3>, tracks: seq<Track>, i: nat, ids: seq<nat>, ix: seq<nat>)
    requires ids != []
    requires PicksResolved(out, tracks, i, ids[..|ids| - 1], ix)
    ensures var last := ids[|ids| - 1];
      PicksResolved(out + Lookup3D(tracks, i, last), tracks, i, ids,
                    ix + if FirstClaimant(tracks, i, last).Some? then [|ids| - 1] else [])
  {
    var n := |ids| - 1;
    forall k | 0 <= k < |ix| ensures ids[..n][ix[k]] == ids[ix[k]] { }
  }

  /** The 3D output is, in order, one coordinate per id that some track holds
      in frame i: the first such track's coordinates. */
  lemma {:induction false} ResolveSelectsResolvable(tracks: seq<Track>, i: nat, ids: seq<nat>)
    ensures PicksResolved(Resolve(tracks, i, ids), tracks, i, ids, TrueIndices(ResolvableFlags(tracks, i, ids)))
  {
    if ids != [] {
      var n := |ids| - 1;
      var init := ids[..n];
      ResolveSelectsResolvable(tracks, i, init);
      var b := FirstClaimant(tracks, i, ids[n]).Some?;
      assert ResolvableFlags(tracks, i, ids) == ResolvableFlags(tracks, i, init) + [b];
      TrueIndicesSnoc(ResolvableFlags(tracks, i, init), b);
      PicksResolvedSnoc(Resolve(tracks, i, init), tracks, i, ids, TrueIndices(ResolvableFlags(tracks, i, init)));
    }
  }

  /** The 3D output is never longer than the list of ids, and exactly as long
      iff every id is held by some track in frame i. */
  lemma {:induction false} ResolveLength(tracks: seq<Track>, i: nat, ids: seq<nat>)
    ensures |Resolve(tracks, i, ids)| <= |ids|
    ensures |Resolve(tracks, i, ids)| == |ids| <==>
      forall k :: 0 <= k < |ids| ==> FirstClaimant(tracks, i, ids[k]).Some?
  {
    if ids != [] {
      var n := |ids| - 1;
      ResolveLength(tracks, i, ids[..n]);
      if FirstClaimant(tracks, i, ids[n]).None? {
        assert !(forall k :: 0 <= k < |ids| ==> FirstClaimant(tracks, i, ids[k]).Some?) by {
          assert FirstClaimant(tracks, i, ids[n]).None?;
        }
      } else {
        assert forall k :: 0 <= k < n ==> ids[..n][k] == ids[k];
      }
    }
  }

  /** The nested loop over current query ids and previous train ids that
      appends a current id once per equal previous id. */
  method CollectSharedIds(prevFilter: seq<nat>, filteredKp: seq<nat>) returns (indices2D: seq<nat>)
    ensures indices2D == SharedIds(filteredKp, prevFilter)
  {
    indices2D := [];
    for a := 0 to |filteredKp|
      invariant indices2D == SharedIds(filteredKp[..a], prevFilter)
    {
      assert filteredKp[..a + 1][..a] == filteredKp[..a];
      var newIdx := filteredKp[a];
      for b := 0 to |prevFilter|
        invariant indices2D == SharedIds(filteredKp[..a], prevFilter) + Occurrences(newIdx, prevFilter[..b])
      {
        assert prevFilter[..b + 1][..b] == prevFilter[..b];
        if newIdx == prevFilter[b] {
          indices2D := indices2D + [newIdx];
        }
      }
      assert prevFilter[..|prevFilter|] == prevFilter;
    }
    assert filteredKp[..|filteredKp|] == filteredKp;
  }

  /** The scan: the shared ids by the nested loop, the 3D coordinates of the
      first track holding each shared id in frame i (skipping ids no track
      holds), and the frame-i pixel of every shared id. */
  method ScanCloud(i: nat, prevKp: seq<KeyPoint>, prevFilter: seq<nat>, filteredKp: seq<nat>, store: TrackStore)
    returns (pts2D: seq<Pixel>, pts3D: seq<Point3>)
    requires forall k :: 0 <= k < |SharedIds(filteredKp, prevFilter)| ==> SharedIds(filteredKp, prevFilter)[k] < |prevKp|
    ensures var shared := SharedIds(filteredKp, prevFilter);
      && |pts2D| == |shared|
      && (forall k :: 0 <= k < |shared| ==> pts2D[k] == prevKp[shared[k]].pt)
      && pts3D == Resolve(store.tracks, i, shared)
  {
    var indices2D := CollectSharedIds(prevFilter, filteredKp);

    pts3D := [];
    for k := 0 to |indices2D|
      invariant pts3D == Resolve(store.tracks, i, indices2D[..k])
    {
      assert indices2D[..k + 1][..k] == indices2D[..k];
      assert Resolve(store.tracks, i, indices2D[..k + 1]) == pts3D + Lookup3D(store.tracks, i, indices2D[k]);
      var found := store.FindPoint(i, indices2D[k]);
      if found.Some? {
        pts3D := pts3D + [store.tracks[found.value].coords];
      }
    }
    assert indices2D[..|indices2D|] == indices2D;

    pts2D := [];
    for k := 0 to |indices2D|
      invariant |pts2D| == k
      invariant forall m :: 0 <= m < k ==> pts2D[m] == prevKp[indices2D[m]].pt
    {
      pts2D := pts2D + [prevKp[indices2D[k]].pt];
    }
  }

  /** Scanning twice with the same inputs and the same store gives the same
      outputs: the scan reads the store and changes nothing. */
  method RescanIsIdempotent(i: nat, prevKp: seq<KeyPoint>, prevFilter: seq<nat>, filteredKp: seq<nat>, store: TrackStore)
    returns (first2D: seq<Pixel>, first3D: seq<Point3>, second2D: seq<Pixel>, second3D: seq<Point3>)
    requires forall k :: 0 <= k < |SharedIds(filteredKp, prevFilter)| ==> SharedIds(filteredKp, prevFilter)[k] < |prevKp|
    ensures first2D == second2D && first3D == second3D
  {
    first2D, first3D := ScanCloud(i, prevKp, prevFilter, filteredKp, store);
    second2D, second3D := ScanCloud(i, prevKp, prevFilter, filteredKp, store);
  }
}
