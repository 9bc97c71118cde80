/** The label and instance fusion of `export`: per-vertex semantic labels and instance ids
    written into zero-initialised uint32 arrays, segment by segment, so that the last
    write to a vertex wins; and the first-write-wins map from object to label id. */
module Fusion {
  import opened Seqs
  import opened Results
  import opened Segmentation

  const TWO_32: int := 0x1_0000_0000

  /** A Python int stored into a numpy uint32 array: it wraps modulo 2^32. */
  function U32(x: int): (r: int)
    ensures 0 <= r < TWO_32
    ensures 0 <= x < TWO_32 ==> r == x
    ensures (x - r) % TWO_32 == 0
  {
    x % TWO_32
  }

  /** One entry of `dict.items()`: a key and the segment list it maps to. */
  datatype Item<K> = Item(key: K, segs: seq<int>)

  /** One pass of a fusion loop: every vertex of the segments segs is set to value. */
  datatype Stroke = Stroke(segs: seq<int>, value: int)

  /** Vertex v lies in one of the segments listed in segs (segments missing from the
      segment map cover nothing). */
  predicate Covers(seg: map<int, seq<nat>>, segs: seq<int>, v: int)
    decreases |segs|
  {
    |segs| > 0 &&
    var s := segs[|segs| - 1];
    (Covers(seg, segs[..|segs| - 1], v) || (s in seg && v in seg[s]))
  }

  lemma CoversSnoc(seg: map<int, seq<nat>>, segs: seq<int>, s: int)
    ensures forall v :: Covers(seg, segs + [s], v) == (Covers(seg, segs, v) || (s in seg && v in seg[s]))
  {
    assert (segs + [s])[..|segs|] == segs;
  }

  /** Vertex v lies in one of the segments listed in segs, stated by position. */
  lemma {:induction false} CoversMembers(seg: map<int, seq<nat>>, segs: seq<int>, v: int)
    ensures Covers(seg, segs, v) <==> exists k :: 0 <= k < |segs| && segs[k] in seg && v in seg[segs[k]]
    decreases |segs|
  {
    if |segs| > 0 {
      var n := |segs| - 1;
      CoversMembers(seg, segs[..n], v);
      if k :| 0 <= k < |segs| && segs[k] in seg && v in seg[segs[k]] {
        if k < n {
          assert segs[..n][k] == segs[k];
        }
      }
    }
  }

  /** Every segment listed in segs is a key of the segment map (else `seg_to_verts[seg]`
      raises KeyError). */
  predicate SegsResolve(seg: map<int, seq<nat>>, segs: seq<int>)
  {
    forall k :: 0 <= k < |segs| ==> segs[k] in seg
  }

  /** The value a zero-initialised array holds at v after the strokes were applied in
      order: the value of the last stroke covering v, or 0 (unannotated). */
  function Paint(seg: map<int, seq<nat>>, strokes: seq<Stroke>, v: int): int
    decreases |strokes|
  {
    if |strokes| == 0 then 0
    else
      var st := strokes[|strokes| - 1];
      if Covers(seg, st.segs, v) then st.value else Paint(seg, strokes[..|strokes| - 1], v)
  }

  lemma PaintSnoc(seg: map<int, seq<nat>>, strokes: seq<Stroke>, st: Stroke)
    ensures forall v :: Paint(seg, strokes + [st], v) == if Covers(seg, st.segs, v) then st.value else Paint(seg, strokes, v)
  {
    assert (strokes + [st])[..|strokes|] == strokes;
  }

  /** Every painted value is 0 or the value of one of the strokes. */
  lemma {:induction false} PaintValue(seg: map<int, seq<nat>>, strokes: seq<Stroke>, v: int)
    ensures Paint(seg, strokes, v) == 0 || exists k :: 0 <= k < |strokes| && Paint(seg, strokes, v) == strokes[k].value
    decreases |strokes|
  {
    if |strokes| > 0 {
      var n := |strokes| - 1;
      PaintValue(seg, strokes[..n], v);
      if Paint(seg, strokes, v) != 0 && !Covers(seg, strokes[n].segs, v) {
        var k :| 0 <= k < n && Paint(seg, strokes[..n], v) == strokes[..n][k].value;
        assert strokes[..n][k] == strokes[k];
      }
    }
  }

  /** A vertex no stroke covers keeps its initial 0. */
  lemma {:induction false} PaintUncovered(seg: map<int, seq<nat>>, strokes: seq<Stroke>, v: int)
    requires forall k :: 0 <= k < |strokes| ==> !Covers(seg, strokes[k].segs, v)
    ensures Paint(seg, strokes, v) == 0
    decreases |strokes|
  {
    if |strokes| > 0 {
      var n := |strokes| - 1;
      var p := strokes[..n];
      assert forall k :: 0 <= k < n ==> p[k] == strokes[k];
      PaintUncovered(seg, p, v);
    }
  }

  /** Last write wins: a vertex holds the value of the LAST stroke covering it. */
  lemma {:induction false} PaintLast(seg: map<int, seq<nat>>, strokes: seq<Stroke>, v: int, k: nat)
    requires k < |strokes| && Covers(seg, strokes[k].segs, v)
    requires forall k' :: k < k' < |strokes| ==> !Covers(seg, strokes[k'].segs, v)
    ensures Paint(seg, strokes, v) == strokes[k].value
    decreases |strokes|
  {
    var n := |strokes| - 1;
    if k < n {
      var p := strokes[..n];
      assert p[k] == strokes[k];
      assert forall k' :: k < k' < n ==> p[k'] == strokes[k'];
      PaintLast(seg, p, v, k);
    }
  }

  /** One pass of a fusion loop (`for seg in segs: arr[seg_to_verts[seg]] = value`): sets
      every vertex of the listed segments to value, in place; false when a segment is
      missing from the segment map (the KeyError of the source). */
  method PaintSegs(a: array<int>, seg: map<int, seq<nat>>, segs: seq<int>, value: int) returns (ok: bool)
    requires SegMapValid(seg, a.Length)
    modifies a
    ensures ok <==> SegsResolve(seg, segs)
    ensures ok ==> forall v :: 0 <= v < a.Length ==> a[v] == if Covers(seg, segs, v) then value else old(a[v])
  {
    var t := 0;
    while t < |segs|
      invariant 0 <= t <= |segs|
      invariant SegsResolve(seg, segs[..t])
      invariant forall v :: 0 <= v < a.Length ==> a[v] == if Covers(seg, segs[..t], v) then value else old(a[v])
    {
      if segs[t] !in seg {
        return false;
      }
      var verts := seg[segs[t]];
      SegMapValidAt(seg, a.Length, segs[t]);
      forall q | 0 <= q < |verts| {
        a[verts[q]] := value;
      }
      assert segs[..t + 1] == segs[..t] + [segs[t]];
      CoversSnoc(seg, segs[..t], segs[t]);
      t := t + 1;
    }
    assert segs[..t] == segs;
    return true;
  }

  // ---------------------------------------------------------------------------------------
  // Semantic labels

  /** Every label of label_to_segs has an id in label_map, and every segment in its list is
      known to the segment map: nothing in the label loop raises. */
  predicate LabelsResolve<L(==)>(items: seq<Item<L>>, seg: map<int, seq<nat>>, labelMap: map<L, int>)
  {
    forall k :: 0 <= k < |items| ==> items[k].key in labelMap && SegsResolve(seg, items[k].segs)
  }

  /** The passes of the label loop: each label's segment list written with its id. */
  function LabelStrokes<L(==)>(items: seq<Item<L>>, labelMap: map<L, int>): (r: seq<Stroke>)
    requires forall k :: 0 <= k < |items| ==> items[k].key in labelMap
  {
    seq(|items|, k requires 0 <= k < |items| => Stroke(items[k].segs, U32(labelMap[items[k].key])))
  }

  /** The label loop of `export`, over label_to_segs.items(): every vertex of every segment
      in a label's list gets the label's id. A label without an id, or a segment missing
      from the segment map, is a KeyError. */
  method FuseLabels<L(==)>(items: seq<Item<L>>, seg: map<int, seq<nat>>, numVerts: nat, labelMap: map<L, int>)
    returns (r: Result<seq<int>>)
    requires SegMapValid(seg, numVerts)
    ensures r.Ok? <==> LabelsResolve(items, seg, labelMap)
    ensures r.Err? ==> r.error == KeyError
    ensures r.Ok? ==> |r.value| == numVerts
    ensures r.Ok? ==> forall v :: 0 <= v < numVerts ==> r.value[v] == Paint(seg, LabelStrokes(items, labelMap), v)
  {
    var labelIds := new int[numVerts](_ => 0);
    var k := 0;
    ghost var done: seq<Stroke> := [];
    while k < |items|
      invariant 0 <= k <= |items|
      invariant forall j :: 0 <= j < k ==> items[j].key in labelMap && SegsResolve(seg, items[j].segs)
      invariant done == LabelStrokes(items[..k], labelMap)
      invariant forall v :: 0 <= v < numVerts ==> labelIds[v] == Paint(seg, done, v)
    {
      var item := items[k];
      if item.key !in labelMap {
        return Err(KeyError);
      }
      var labelId := labelMap[item.key];
      var ok := PaintSegs(labelIds, seg, item.segs, U32(labelId));
      if !ok {
        return Err(KeyError);
      }
      PaintSnoc(seg, done, Stroke(item.segs, U32(labelId)));
      assert items[..k + 1] == items[..k] + [item];
      done := done + [Stroke(item.segs, U32(labelId))];
      k := k + 1;
    }
    assert items[..k] == items;
    return Ok(labelIds[..]);
  }

  // ---------------------------------------------------------------------------------------
  // Instance ids and the object-to-label map

  /** What the instance loop returns: per-vertex instance ids, and object_id_to_label_id. */
  datatype Instances = Instances(ids: seq<int>, objectLabel: map<int, int>)

  /** Every segment of every object is known to the segment map. */
  predicate ObjectsResolve(items: seq<Item<int>>, seg: map<int, seq<nat>>)
  {
    forall k :: 0 <= k < |items| ==> SegsResolve(seg, items[k].segs)
  }

  /** The passes of the instance loop: each object's segment list written with its id. */
  function ObjectStrokes(items: seq<Item<int>>): (r: seq<Stroke>)
  {
    seq(|items|, k requires 0 <= k < |items| => Stroke(items[k].segs, U32(items[k].key)))
  }

  /** object_id_to_label_id after the objects items were processed: an object gets, once,
      the label id of the first vertex of the first segment in its list. */
  function ObjectLabelsOf(items: seq<Item<int>>, seg: map<int, seq<nat>>, labelIds: seq<int>): (m: map<int, int>)
    requires ObjectsResolve(items, seg) && SegMapValid(seg, |labelIds|)
    decreases |items|
  {
    if |items| == 0 then map[]
    else
      var n := |items| - 1;
      var it := items[n];
      var p := ObjectLabelsOf(items[..n], seg, labelIds);
      if |it.segs| > 0 && it.key !in p then
        SegMapValidAt(seg, |labelIds|, it.segs[0]);
        p[it.key := labelIds[seg[it.segs[0]][0]]]
      else p
  }

  lemma ObjectLabelsSnoc(items: seq<Item<int>>, it: Item<int>, seg: map<int, seq<nat>>, labelIds: seq<int>)
    requires ObjectsResolve(items + [it], seg) && SegMapValid(seg, |labelIds|)
    ensures ObjectsResolve(items, seg)
    ensures |it.segs| > 0 ==> it.segs[0] in seg && |seg[it.segs[0]]| > 0 && seg[it.segs[0]][0] < |labelIds|
    ensures var p := ObjectLabelsOf(items, seg, labelIds);
      ObjectLabelsOf(items + [it], seg, labelIds) ==
        if |it.segs| > 0 && it.key !in p then p[it.key := labelIds[seg[it.segs[0]][0]]] else p
  {
    assert forall k :: 0 <= k < |items| ==> (items + [it])[k] == items[k];
    assert (items + [it])[..|items|] == items;
    if |it.segs| > 0 {
      assert (items + [it])[|items|] == it;
      SegMapValidAt(seg, |labelIds|, it.segs[0]);
    }
  }

  /** An object has a label id exactly when one of its entries lists a segment, and the
      id is taken from the first vertex of the first segment of the first such entry. */
  lemma {:induction false} ObjectLabelsFirst(items: seq<Item<int>>, seg: map<int, seq<nat>>, labelIds: seq<int>, o: int)
    requires ObjectsResolve(items, seg) && SegMapValid(seg, |labelIds|)
    ensures o in ObjectLabelsOf(items, seg, labelIds) <==> exists k :: 0 <= k < |items| && items[k].key == o && |items[k].segs| > 0
    ensures forall k :: (0 <= k < |items| && items[k].key == o && |items[k].segs| > 0 &&
      (forall j :: 0 <= j < k && items[j].key == o ==> |items[j].segs| == 0)) ==>
      items[k].segs[0] in seg && |seg[items[k].segs[0]]| > 0 && seg[items[k].segs[0]][0] < |labelIds| &&
      ObjectLabelsOf(items, seg, labelIds)[o] == labelIds[seg[items[k].segs[0]][0]]
    decreases |items|
  {
    if |items| > 0 {
      var n := |items| - 1;
      var p := items[..n];
      assert forall k :: 0 <= k < n ==> p[k] == items[k];
      ObjectLabelsFirst(p, seg, labelIds, o);
      forall k | 0 <= k < |items| && items[k].key == o && |items[k].segs| > 0
        ensures items[k].segs[0] in seg && |seg[items[k].segs[0]]| > 0 && seg[items[k].segs[0]][0] < |labelIds|
      {
        SegMapValidAt(seg, |labelIds|, items[k].segs[0]);
      }
    }
  }

  /** The instance loop of `export`, over object_id_to_segs.items(): every vertex of every
      segment in an object's list gets the object's id, and an object not yet in
      object_id_to_label_id gets the label id of the first vertex of the segment being
      written. A segment missing from the segment map is a KeyError. */
  method FuseInstances(items: seq<Item<int>>, seg: map<int, seq<nat>>, numVerts: nat, labelIds: seq<int>)
    returns (r: Result<Instances>)
    requires SegMapValid(seg, numVerts) && |labelIds| == numVerts
    ensures r.Ok? <==> ObjectsResolve(items, seg)
    ensures r.Err? ==> r.error == KeyError
    ensures r.Ok? ==> |r.value.ids| == numVerts
    ensures r.Ok? ==> forall v :: 0 <= v < numVerts ==> r.value.ids[v] == Paint(seg, ObjectStrokes(items), v)
    ensures r.Ok? ==> r.value.objectLabel == ObjectLabelsOf(items, seg, labelIds)
  {
    var instanceIds := new int[numVerts](_ => 0);
    var objectLabel: map<int, int> := map[];
    var k := 0;
    ghost var done: seq<Item<int>> := [];
    while k < |items|
      invariant 0 <= k <= |items| && done == items[..k]
      invariant ObjectsResolve(done, seg)
      invariant objectLabel == ObjectLabelsOf(done, seg, labelIds)
      invariant forall v :: 0 <= v < numVerts ==> instanceIds[v] == Paint(seg, ObjectStrokes(done), v)
    {
      var item := items[k];
      var ok := PaintSegs(instanceIds, seg, item.segs, U32(item.key));
      if !ok {
        return Err(KeyError);
      }
      ObjectStrokesSnoc(done, item);
      PaintSnoc(seg, ObjectStrokes(done), Stroke(item.segs, U32(item.key)));
      assert forall j :: 0 <= j < k ==> (done + [item])[j] == done[j];
      ObjectLabelsSnoc(done, item, seg, labelIds);
      if |item.segs| > 0 && item.key !in objectLabel {
        SegMapValidAt(seg, numVerts, item.segs[0]);
        objectLabel := objectLabel[item.key := labelIds[seg[item.segs[0]][0]]];
      }
      assert items[..k + 1] == done + [item];
      done := done + [item];
      k := k + 1;
    }
    assert done == items;
    return Ok(Instances(instanceIds[..], objectLabel));
  }

  lemma ObjectStrokesSnoc(items: seq<Item<int>>, it: Item<int>)
    ensures ObjectStrokes(items + [it]) == ObjectStrokes(items) + [Stroke(it.segs, U32(it.key))]
  {
  }
}
