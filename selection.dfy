/** Order-preserving selection: the positions of a flag sequence that are set.
    Every filtering step of the core (ratio test, inlier mask, unmatched
    candidates, resolvable shared ids) is characterised through it. */
module Selection {

  /** The indices j < |keep| with keep[j], in strictly increasing order. */
  function TrueIndices(keep: seq<bool>): (r: seq<nat>)
    ensures forall k :: 0 <= k < |r| ==> r[k] < |keep| && keep[r[k]]
    ensures forall a, b :: 0 <= a < b < |r| ==> r[a] < r[b]
    ensures forall j :: 0 <= j < |keep| && keep[j] ==> j in r
  {
    if keep == [] then []
    else TrueIndices(keep[..|keep| - 1]) + (if keep[|keep| - 1] then [|keep| - 1] else [])
  }

  /** Setting one more flag at the end appends exactly that index. */
  lemma TrueIndicesSnoc(keep: seq<bool>, b: bool)
    ensures TrueIndices(keep + [b]) == TrueIndices(keep) + (if b then [|keep|] else [])
  {
    assert (keep + [b])[..|keep|] == keep;
  }

  /** `out` is, in order, the elements of `s` at the indices `ix`. */
  ghost predicate SelectsAt<T>(out: seq<T>, s: seq<T>, ix: seq<nat>) {
    && |out| == |ix|
    && forall k :: 0 <= k < |ix| ==> ix[k] < |s| && out[k] == s[ix[k]]
  }

  /** Extending the source by one element and, optionally, selecting it. */
  lemma SelectsAtSnoc<T>(out: seq<T>, s: seq<T>, ix: seq<nat>, keep: bool)
    requires s != []
    requires SelectsAt(out, s[..|s| - 1], ix)
    ensures SelectsAt(out + (if keep then [s[|s| - 1]] else []), s, ix + (if keep then [|s| - 1] else []))
  {
    var n := |s| - 1;
    forall k | 0 <= k < |ix| ensures s[..n][ix[k]] == s[ix[k]] { }
  }
}
