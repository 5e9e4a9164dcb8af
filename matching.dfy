/** The correspondence filter: Lowe's ratio test over the matcher's k = 2
    nearest-neighbour results, the minimum-match threshold, the assembly of the
    four index-aligned arrays, and the inlier-mask filter. The matcher itself
    is not modelled: its results are a parameter. */
module Matching {
  import opened Features
  import opened Selection

  /** A good-match count at or below this is a failure. */
  const MinMatchCount: nat := 10

  /** Lowe's ratio: the nearest distance must be below this share of the second. */
  const LoweRatio: real := 0.7

  /** One nearest-neighbour result: query keypoint, train keypoint, distance. */
  datatype DMatch = DMatch(queryIdx: nat, trainIdx: nat, distance: real)

  /** The two nearest neighbours of one query descriptor, nearest first. */
  datatype KnnPair = KnnPair(m: DMatch, n: DMatch)

  /** The four index-aligned outputs of a successful match. */
  datatype Correspondences = Correspondences(
    srcPts: seq<Pixel>, dstPts: seq<Pixel>, queryIds: seq<nat>, trainIds: seq<nat>)

  datatype MatchError = InsufficientMatches(found: nat)

  predicate PassesRatioTest(p: KnnPair) {
    p.m.distance < LoweRatio * p.n.distance
  }

  function RatioFlags(pairs: seq<KnnPair>): (r: seq<bool>)
    ensures |r| == |pairs|
  {
    seq(|pairs|, k requires 0 <= k < |pairs| => PassesRatioTest(pairs[k]))
  }

  /** The nearest match of every pair that passes the ratio test, in input order. */
  function GoodMatches(pairs: seq<KnnPair>): seq<DMatch> {
    if pairs == [] then []
    else
      var last := pairs[|pairs| - 1];
      GoodMatches(pairs[..|pairs| - 1]) + (if PassesRatioTest(last) then [last.m] else [])
  }

  /** The good matches are exactly the nearest matches at the indices that pass
      the ratio test, in increasing index order. */
  lemma {:induction false} GoodMatchesAreRatioSurvivors(pairs: seq<KnnPair>)
    ensures |GoodMatches(pairs)| == |TrueIndices(RatioFlags(pairs))|
    ensures forall k :: 0 <= k < |GoodMatches(pairs)| ==>
      GoodMatches(pairs)[k] == pairs[TrueIndices(RatioFlags(pairs))[k]].m
  {
    if pairs != [] {
      var n := |pairs| - 1;
      var init := pairs[..n];
      GoodMatchesAreRatioSurvivors(init);
      assert RatioFlags(pairs) == RatioFlags(init) + [PassesRatioTest(pairs[n])];
      TrueIndicesSnoc(RatioFlags(init), PassesRatioTest(pairs[n]));
    }
  }

  /** A candidate is kept iff its nearest distance is below 0.7 times the second. */
  lemma RatioTestExamples()
    ensures PassesRatioTest(KnnPair(DMatch(0, 0, 0.3), DMatch(0, 1, 0.5)))
    ensures !PassesRatioTest(KnnPair(DMatch(0, 0, 0.4), DMatch(0, 1, 0.5)))
  {
  }

  /** The ratio-test loop: appends the nearest match of each pair that passes. */
  method SelectGoodMatches(pairs: seq<KnnPair>) returns (good: seq<DMatch>)
    ensures good == GoodMatches(pairs)
  {
    good := [];
    for j := 0 to |pairs|
      invariant good == GoodMatches(pairs[..j])
    {
      assert pairs[..j + 1][..j] == pairs[..j];
      var p := pairs[j];
      if PassesRatioTest(p) {
        good := good + [p.m];
      }
    }
    assert pairs[..|pairs|] == pairs;
  }

  /** Every good match refers to an existing keypoint in both frames. */
  predicate IndicesInRange(good: seq<DMatch>, kp1: seq<KeyPoint>, kp2: seq<KeyPoint>) {
    forall k :: 0 <= k < |good| ==> good[k].queryIdx < |kp1| && good[k].trainIdx < |kp2|
  }

  /** The four arrays all have one entry per good match, and entry k describes
      the k-th good match: its query pixel, train pixel, query id and train id. */
  predicate AlignedWith(c: Correspondences, good: seq<DMatch>, kp1: seq<KeyPoint>, kp2: seq<KeyPoint>)
    requires IndicesInRange(good, kp1, kp2)
  {
    && |c.srcPts| == |good| && |c.dstPts| == |good|
    && |c.queryIds| == |good| && |c.trainIds| == |good|
    && forall k :: 0 <= k < |good| ==>
         && c.srcPts[k] == kp1[good[k].queryIdx].pt
         && c.dstPts[k] == kp2[good[k].trainIdx].pt
         && c.queryIds[k] == good[k].queryIdx
         && c.trainIds[k] == good[k].trainIdx
  }

  /** Ratio test, threshold and assembly. With ten or fewer good matches the
      result is a failure carrying the count; otherwise the aligned arrays. */
  method MatchKeypoints(kp1: seq<KeyPoint>, kp2: seq<KeyPoint>, matches: seq<KnnPair>)
    returns (r: Result<Correspondences, MatchError>)
    requires |GoodMatches(matches)| > MinMatchCount ==> IndicesInRange(GoodMatches(matches), kp1, kp2)
    ensures r.Err? <==> |GoodMatches(matches)| <= MinMatchCount
    ensures r.Err? ==> r.error == InsufficientMatches(|GoodMatches(matches)|)
    ensures r.Ok? ==> AlignedWith(r.value, GoodMatches(matches), kp1, kp2)
  {
    var good := SelectGoodMatches(matches);
    if |good| > MinMatchCount {
      var src := seq(|good|, k requires 0 <= k < |good| => kp1[good[k].queryIdx].pt);
      var dst := seq(|good|, k requires 0 <= k < |good| => kp2[good[k].trainIdx].pt);
      var ids1 := seq(|good|, k requires 0 <= k < |good| => good[k].queryIdx);
      var ids2 := seq(|good|, k requires 0 <= k < |good| => good[k].trainIdx);
      r := Ok(Correspondences(src, dst, ids1, ids2));
    } else {
      r := Err(InsufficientMatches(|good|));
    }
  }

  /** The entries of `s` whose mask value is 1, in order. */
  function Masked<T>(mask: seq<int>, s: seq<T>): seq<T>
    requires |mask| == |s|
  {
    if s == [] then []
    else
      var n := |s| - 1;
      Masked(mask[..n], s[..n]) + (if mask[n] == 1 then [s[n]] else [])
  }

  function InlierFlags(mask: seq<int>): (r: seq<bool>)
    ensures |r| == |mask|
  {
    seq(|mask|, k requires 0 <= k < |mask| => mask[k] == 1)
  }

  /** Masked selection keeps exactly the entries at the inlier indices. */
  lemma {:induction false} MaskedSelectsInliers<T>(mask: seq<int>, s: seq<T>)
    requires |mask| == |s|
    ensures |Masked(mask, s)| == |TrueIndices(InlierFlags(mask))|
    ensures forall k :: 0 <= k < |Masked(mask, s)| ==>
      Masked(mask, s)[k] == s[TrueIndices(InlierFlags(mask))[k]]
  {
    if s != [] {
      var n := |s| - 1;
      MaskedSelectsInliers(mask[..n], s[..n]);
      assert InlierFlags(mask) == InlierFlags(mask[..n]) + [mask[n] == 1];
      TrueIndicesSnoc(InlierFlags(mask[..n]), mask[n] == 1);
    }
  }

  /** The number of inliers is the number of 1s in the mask. */
  lemma {:induction false} InlierCount(mask: seq<int>)
    ensures |TrueIndices(InlierFlags(mask))| == multiset(mask)[1]
  {
    if mask != [] {
      var n := |mask| - 1;
      InlierCount(mask[..n]);
      assert mask == mask[..n] + [mask[n]];
      assert InlierFlags(mask) == InlierFlags(mask[..n]) + [mask[n] == 1];
      TrueIndicesSnoc(InlierFlags(mask[..n]), mask[n] == 1);
    }
  }

  /** The inlier filter: both id arrays keep the entries whose mask value is 1,
      in order and still aligned; each output has one entry per 1 in the mask. */
  function FilterKeypoints(mask: seq<int>, kp1: seq<nat>, kp2: seq<nat>): (r: (seq<nat>, seq<nat>))
    requires |mask| == |kp1| && |mask| == |kp2|
    ensures |r.0| == multiset(mask)[1] && |r.1| == multiset(mask)[1]
    ensures var ix := TrueIndices(InlierFlags(mask));
      |r.0| == |ix| && |r.1| == |ix| &&
      forall k :: 0 <= k < |ix| ==> r.0[k] == kp1[ix[k]] && r.1[k] == kp2[ix[k]]
  {
    MaskedSelectsInliers(mask, kp1);
    MaskedSelectsInliers(mask, kp2);
    InlierCount(mask);
    (Masked(mask, kp1), Masked(mask, kp2))
  }
}
