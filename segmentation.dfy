/** read_segmentation: inverting the per-vertex segment index array into a map from each
    segment id to the ascending list of its vertices. */
module Segmentation {
  import opened Seqs

  /** The vertices whose segment index is s, in vertex order. */
  function SegmentVerts(segIndices: seq<int>, s: int): (r: seq<nat>)
    decreases |segIndices|
  {
    if |segIndices| == 0 then []
    else
      var n := |segIndices| - 1;
      SegmentVerts(segIndices[..n], s) + (if segIndices[n] == s then [n] else [])
  }

  /** The segment map read_segmentation builds: one entry per segment id that occurs,
      holding that segment's vertices. */
  function SegmentationOf(segIndices: seq<int>): (m: map<int, seq<nat>>)
  {
    map s | s in segIndices :: SegmentVerts(segIndices, s)
  }

  /** What every later stage relies on of a segment map over n vertices: each list is
      non-empty, strictly ascending and within 0..n-1. */
  predicate SegMapValid(seg: map<int, seq<nat>>, n: nat)
  {
    forall s :: s in seg ==> |seg[s]| > 0 && InBounds(seg[s], n) && StrictlyIncreasing(seg[s])
  }

  /** The list of a segment in a valid map is non-empty and within 0..n-1. */
  lemma SegMapValidAt(seg: map<int, seq<nat>>, n: nat, s: int)
    requires SegMapValid(seg, n) && s in seg
    ensures |seg[s]| > 0 && InBounds(seg[s], n)
  {
  }

  /** One more vertex extends exactly the list of its own segment by its index. */
  lemma SegmentVertsSnoc(xs: seq<int>, x: int, s: int)
    ensures SegmentVerts(xs + [x], s) == SegmentVerts(xs, s) + (if x == s then [|xs|] else [])
  {
    assert (xs + [x])[..|xs|] == xs;
  }

  /** A vertex is in the list of s exactly when its segment index is s. */
  lemma {:induction false} SegmentVertsMembers(xs: seq<int>, s: int, v: int)
    ensures v in SegmentVerts(xs, s) <==> 0 <= v < |xs| && xs[v] == s
    decreases |xs|
  {
    if |xs| > 0 {
      var n := |xs| - 1;
      SegmentVertsMembers(xs[..n], s, v);
    }
  }

  /** The list of s is strictly ascending and lies within 0..|xs|-1. */
  lemma {:induction false} SegmentVertsSorted(xs: seq<int>, s: int)
    ensures InBounds(SegmentVerts(xs, s), |xs|)
    ensures StrictlyIncreasing(SegmentVerts(xs, s))
    decreases |xs|
  {
    if |xs| > 0 {
      var n := |xs| - 1;
      SegmentVertsSorted(xs[..n], s);
      var p := SegmentVerts(xs[..n], s);
      assert InBounds(p, n);
    }
  }

  /** A segment id that does not occur has no vertices. */
  lemma SegmentVertsEmpty(xs: seq<int>, s: int)
    requires s !in xs
    ensures SegmentVerts(xs, s) == []
  {
    var e := SegmentVerts(xs, s);
    if |e| > 0 {
      SegmentVertsMembers(xs, s, e[0]);
    }
  }

  /** One more vertex of segment x: its index is appended to x's list, which is created
      if x is new; every other list is unchanged. */
  lemma SegmentationSnoc(xs: seq<int>, x: int)
    ensures var m := SegmentationOf(xs);
      SegmentationOf(xs + [x]) == if x in m then m[x := m[x] + [|xs|]] else m[x := [|xs|]]
  {
    var m := SegmentationOf(xs);
    var m', r := SegmentationOf(xs + [x]), if x in m then m[x := m[x] + [|xs|]] else m[x := [|xs|]];
    forall s ensures s in m' <==> s in r {
      assert s in xs + [x] <==> s in xs || s == x;
    }
    forall s | s in m' ensures m'[s] == r[s] {
      SegmentVertsSnoc(xs, x, s);
      if s !in xs {
        SegmentVertsEmpty(xs, s);
      }
    }
    assert m'.Keys == r.Keys;
  }

  /** read_segmentation (scannet.py): a loop over the vertices that appends each vertex to
      its segment's list, creating the list on first sight. */
  method ReadSegmentation(segIndices: seq<int>) returns (segToVerts: map<int, seq<nat>>, numVerts: nat)
    ensures numVerts == |segIndices|
    ensures segToVerts == SegmentationOf(segIndices)
  {
    segToVerts := map[];
    numVerts := |segIndices|;
    var i := 0;
    ghost var done: seq<int> := [];
    while i < numVerts
      invariant 0 <= i <= numVerts && done == segIndices[..i]
      invariant segToVerts == SegmentationOf(done)
    {
      var segId := segIndices[i];
      SegmentationSnoc(done, segId);
      if segId in segToVerts {
        segToVerts := segToVerts[segId := segToVerts[segId] + [i]];
      } else {
        segToVerts := segToVerts[segId := [i]];
      }
      assert segIndices[..i + 1] == done + [segId];
      done := done + [segId];
      i := i + 1;
    }
    assert segIndices[..i] == segIndices;
  }

  /** A vertex belongs to a segment's list exactly when its segment index is that segment. */
  lemma SegmentationMembers(segIndices: seq<int>, s: int, v: int)
    requires s in SegmentationOf(segIndices)
    ensures v in SegmentationOf(segIndices)[s] <==> 0 <= v < |segIndices| && segIndices[v] == s
  {
    SegmentVertsMembers(segIndices, s, v);
  }

  /** Every vertex index 0..num_verts-1 lies in the list of exactly one segment. */
  lemma SegmentationPartitions(segIndices: seq<int>, v: nat)
    requires v < |segIndices|
    ensures segIndices[v] in SegmentationOf(segIndices)
    ensures v in SegmentationOf(segIndices)[segIndices[v]]
    ensures forall s :: s in SegmentationOf(segIndices) && v in SegmentationOf(segIndices)[s] ==> s == segIndices[v]
  {
    var m := SegmentationOf(segIndices);
    SegmentVertsMembers(segIndices, segIndices[v], v);
    forall s | s in m && v in m[s] ensures s == segIndices[v] {
      SegmentVertsMembers(segIndices, s, v);
    }
  }

  /** The lists read_segmentation builds are non-empty, strictly ascending and in range. */
  lemma SegmentationValid(segIndices: seq<int>)
    ensures SegMapValid(SegmentationOf(segIndices), |segIndices|)
  {
    var m := SegmentationOf(segIndices);
    forall s | s in m ensures |m[s]| > 0 && InBounds(m[s], |segIndices|) && StrictlyIncreasing(m[s]) {
      var v :| 0 <= v < |segIndices| && segIndices[v] == s;
      SegmentVertsMembers(segIndices, s, v);
      SegmentVertsSorted(segIndices, s);
    }
  }
}
