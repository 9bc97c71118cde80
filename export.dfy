/** `export`: reading the aggregation and the segmentation of a scan, fusing them into
    per-vertex semantic labels and instance ids, and computing one box per instance. */
module Export {
  import opened Seqs
  import opened Results
  import opened Segmentation
  import opened Aggregation
  import opened Fusion
  import opened Boxes

  /** label_to_segs.items(), in key order. */
  function LabelItems<L(==)>(agg: Aggregation<L>): (items: seq<Item<L>>)
    requires WellFormed(agg)
  {
    seq(|agg.labels|, k requires 0 <= k < |agg.labels| => Item(agg.labels[k], LabelSegs(agg, agg.labels[k])))
  }

  /** object_id_to_segs.items(), in key order. */
  function ObjectItems<L(==)>(agg: Aggregation<L>): (items: seq<Item<int>>)
    requires WellFormed(agg)
  {
    seq(|agg.objectIds|, k requires 0 <= k < |agg.objectIds| => Item(agg.objectIds[k], ObjectSegs(agg, agg.objectIds[k])))
  }

  /** What `export` returns besides the mesh: label_ids, instance_ids, instance_bboxes and
      object_id_to_label_id. */
  datatype Scene = Scene(labelIds: seq<int>, instanceIds: seq<int>, boxes: seq<Box>, objectLabel: map<int, int>)

  /** The scene `export` computes from the segGroups of the aggregation file, the
      segIndices of the segmentation file, the label mapping and the (aligned) vertex
      positions, or the first error it raises. The box table has one row per object key
      (np.unique of the keys, which are distinct). */
  ghost function ExportOf<L>(groups: seq<SegGroup<L>>, segIndices: seq<int>, labelMap: map<L, int>, points: seq<Point>): Result<Scene>
  {
    var agg := AggregationOf(groups);
    var seg := SegmentationOf(segIndices);
    var n := |segIndices|;
    AggregationWellFormed(groups);
    SegmentationValid(segIndices);
    var li := LabelItems(agg);
    if !LabelsResolve(li, seg, labelMap) then Err(KeyError)
    else
      var labelIds := seq(n, v => Paint(seg, LabelStrokes(li, labelMap), v));
      var oi := ObjectItems(agg);
      if !ObjectsResolve(oi, seg) then Err(KeyError)
      else
        var instanceIds := seq(n, v => Paint(seg, ObjectStrokes(oi), v));
        var objectLabel := ObjectLabelsOf(oi, seg, labelIds);
        match BoxesOf(agg.objectIds, points, instanceIds, objectLabel, |agg.objectIds|)
        case Err(e) => Err(e)
        case Ok(boxes) => Ok(Scene(labelIds, instanceIds, boxes, objectLabel))
  }

  /** `export` after the files are parsed and the mesh is aligned. */
  method ExportScene<L(==)>(groups: seq<SegGroup<L>>, segIndices: seq<int>, labelMap: map<L, int>, points: seq<Point>)
    returns (r: Result<Scene>)
    ensures r == ExportOf(groups, segIndices, labelMap, points)
  {
    var agg := ReadAggregation(groups);
    var seg, numVerts := ReadSegmentation(segIndices);
    AggregationWellFormed(groups);
    SegmentationValid(segIndices);
    var li := LabelItems(agg);
    var labels := FuseLabels(li, seg, numVerts, labelMap);
    if labels.Err? {
      return Err(labels.error);
    }
    PaintedAll(labels.value, seg, LabelStrokes(li, labelMap), numVerts);
    var oi := ObjectItems(agg);
    var inst := FuseInstances(oi, seg, numVerts, labels.value);
    if inst.Err? {
      return Err(inst.error);
    }
    PaintedAll(inst.value.ids, seg, ObjectStrokes(oi), numVerts);
    var boxes := InstanceBoxes(agg.objectIds, points, inst.value.ids, inst.value.objectLabel, |agg.objectIds|);
    if boxes.Err? {
      return Err(boxes.error);
    }
    return Ok(Scene(labels.value, inst.value.ids, boxes.value, inst.value.objectLabel));
  }

  /** An array a fusion pass filled vertex by vertex is the paint of every vertex. */
  lemma PaintedAll(r: seq<int>, seg: map<int, seq<nat>>, strokes: seq<Stroke>, n: nat)
    requires |r| == n && forall v :: 0 <= v < n ==> r[v] == Paint(seg, strokes, v)
    ensures r == seq(n, v => Paint(seg, strokes, v))
  {
  }

  /** Vertex v lies in a segment of the list segs exactly when its own segment index is
      listed: seg_to_verts puts each vertex in the list of its segment and no other. */
  lemma CoversIff(segIndices: seq<int>, segs: seq<int>, v: nat)
    requires v < |segIndices|
    ensures Covers(SegmentationOf(segIndices), segs, v) <==> segIndices[v] in segs
  {
    var seg := SegmentationOf(segIndices);
    CoversMembers(seg, segs, v);
    SegmentationPartitions(segIndices, v);
    if k :| 0 <= k < |segs| && segs[k] in seg && v in seg[segs[k]] {
      SegmentationMembers(segIndices, segs[k], v);
    }
  }

  /** Some group with label l lists segment s. */
  predicate LabelCovers<L(==)>(groups: seq<SegGroup<L>>, l: L, s: int)
  {
    exists j :: 0 <= j < |groups| && groups[j].labelName == l && s in groups[j].segments
  }

  /** Every label has a mapping and every segment a group lists occurs in the segmentation. */
  predicate AnnotationsResolve<L(==)>(groups: seq<SegGroup<L>>, segIndices: seq<int>, labelMap: map<L, int>)
  {
    forall j :: 0 <= j < |groups| ==>
      groups[j].labelName in labelMap && forall t :: 0 <= t < |groups[j].segments| ==> groups[j].segments[t] in segIndices
  }

  /** The segment map has a list for exactly the segment ids the segmentation uses. */
  lemma SegmentKeys(segIndices: seq<int>, s: int)
    ensures s in SegmentationOf(segIndices) <==> s in segIndices
  {
    var seg := SegmentationOf(segIndices);
    if s in segIndices {
      var v :| 0 <= v < |segIndices| && segIndices[v] == s;
      SegmentationPartitions(segIndices, v);
    }
    if s in seg {
      SegmentationValid(segIndices);
      SegMapValidAt(seg, |segIndices|, s);
      SegmentationMembers(segIndices, s, seg[s][0]);
    }
  }

  /** The label pass raises nothing exactly when the annotations resolve. */
  lemma LabelsResolveIff<L>(groups: seq<SegGroup<L>>, segIndices: seq<int>, labelMap: map<L, int>)
    ensures WellFormed(AggregationOf(groups))
    ensures LabelsResolve(LabelItems(AggregationOf(groups)), SegmentationOf(segIndices), labelMap) <==>
      AnnotationsResolve(groups, segIndices, labelMap)
  {
    AggregationWellFormed(groups);
    if LabelsResolve(LabelItems(AggregationOf(groups)), SegmentationOf(segIndices), labelMap) {
      LabelsResolveSound(groups, segIndices, labelMap);
    }
    if AnnotationsResolve(groups, segIndices, labelMap) {
      LabelsResolveComplete(groups, segIndices, labelMap);
    }
  }

  lemma LabelsResolveSound<L>(groups: seq<SegGroup<L>>, segIndices: seq<int>, labelMap: map<L, int>)
    requires WellFormed(AggregationOf(groups))
    requires LabelsResolve(LabelItems(AggregationOf(groups)), SegmentationOf(segIndices), labelMap)
    ensures AnnotationsResolve(groups, segIndices, labelMap)
  {
    var agg := AggregationOf(groups);
    var seg := SegmentationOf(segIndices);
    var li := LabelItems(agg);
    forall j | 0 <= j < |groups|
      ensures groups[j].labelName in labelMap
      ensures forall t :: 0 <= t < |groups[j].segments| ==> groups[j].segments[t] in segIndices
    {
      var l := groups[j].labelName;
      LabelSegsConcat(groups, l);
      var k :| 0 <= k < |agg.labels| && agg.labels[k] == l;
      assert li[k].key == l;
      forall t | 0 <= t < |groups[j].segments| ensures groups[j].segments[t] in segIndices {
        LabelConcatMembers(groups, l, groups[j].segments[t]);
        var segs := li[k].segs;
        var q :| 0 <= q < |segs| && segs[q] == groups[j].segments[t];
        SegmentKeys(segIndices, segs[q]);
      }
    }
  }

  lemma LabelsResolveComplete<L>(groups: seq<SegGroup<L>>, segIndices: seq<int>, labelMap: map<L, int>)
    requires WellFormed(AggregationOf(groups))
    requires AnnotationsResolve(groups, segIndices, labelMap)
    ensures LabelsResolve(LabelItems(AggregationOf(groups)), SegmentationOf(segIndices), labelMap)
  {
    var agg := AggregationOf(groups);
    var seg := SegmentationOf(segIndices);
    var li := LabelItems(agg);
    forall k | 0 <= k < |li| ensures li[k].key in labelMap && SegsResolve(seg, li[k].segs) {
      var l := agg.labels[k];
      LabelSegsConcat(groups, l);
      forall q | 0 <= q < |li[k].segs| ensures li[k].segs[q] in seg {
        LabelConcatMembers(groups, l, li[k].segs[q]);
        var j :| 0 <= j < |groups| && groups[j].labelName == l && li[k].segs[q] in groups[j].segments;
        var t :| 0 <= t < |groups[j].segments| && groups[j].segments[t] == li[k].segs[q];
        SegmentKeys(segIndices, li[k].segs[q]);
      }
    }
  }

  /** When the annotations resolve, so does every object's list in the instance pass. */
  lemma ObjectsResolveFrom<L>(groups: seq<SegGroup<L>>, segIndices: seq<int>, labelMap: map<L, int>)
    requires AnnotationsResolve(groups, segIndices, labelMap)
    ensures WellFormed(AggregationOf(groups))
    ensures ObjectsResolve(ObjectItems(AggregationOf(groups)), SegmentationOf(segIndices))
  {
    var agg := AggregationOf(groups);
    var seg := SegmentationOf(segIndices);
    AggregationWellFormed(groups);
    var oi := ObjectItems(agg);
    forall k | 0 <= k < |oi| ensures SegsResolve(seg, oi[k].segs) {
      var o := agg.objectIds[k];
      var j := agg.objectList[o];
      forall q | 0 <= q < |oi[k].segs| ensures oi[k].segs[q] in seg {
        ListMembers(groups, j, oi[k].segs[q]);
        var i :| j <= i < |groups| && oi[k].segs[q] in groups[i].segments;
        var t :| 0 <= t < |groups[i].segments| && groups[i].segments[t] == oi[k].segs[q];
        SegmentKeys(segIndices, oi[k].segs[q]);
      }
    }
  }

  /** The k-th pass of the label loop paints vertex v exactly when some group carrying
      the k-th label lists v's segment. */
  lemma LabelStrokeCovers<L>(groups: seq<SegGroup<L>>, segIndices: seq<int>, labelMap: map<L, int>, k: nat, v: nat)
    requires WellFormed(AggregationOf(groups))
    requires LabelsResolve(LabelItems(AggregationOf(groups)), SegmentationOf(segIndices), labelMap)
    requires k < |AggregationOf(groups).labels| && v < |segIndices|
    ensures var l := AggregationOf(groups).labels[k];
      && l in labelMap
      && LabelStrokes(LabelItems(AggregationOf(groups)), labelMap)[k] == Stroke(LabelConcat(groups, l), U32(labelMap[l]))
      && (Covers(SegmentationOf(segIndices), LabelConcat(groups, l), v) <==> LabelCovers(groups, l, segIndices[v]))
  {
    var agg := AggregationOf(groups);
    var l := agg.labels[k];
    assert LabelItems(agg)[k].key == l;
    LabelSegsConcat(groups, l);
    CoversIff(segIndices, LabelConcat(groups, l), v);
    LabelConcatMembers(groups, l, segIndices[v]);
  }

  /** The label loop leaves 0 at a vertex whose segment no group lists. */
  lemma LabelPaintUncovered<L>(groups: seq<SegGroup<L>>, segIndices: seq<int>, labelMap: map<L, int>, v: nat)
    requires WellFormed(AggregationOf(groups))
    requires LabelsResolve(LabelItems(AggregationOf(groups)), SegmentationOf(segIndices), labelMap)
    requires v < |segIndices|
    requires forall k :: 0 <= k < |AggregationOf(groups).labels| ==> !LabelCovers(groups, AggregationOf(groups).labels[k], segIndices[v])
    ensures Paint(SegmentationOf(segIndices), LabelStrokes(LabelItems(AggregationOf(groups)), labelMap), v) == 0
  {
    var strokes := LabelStrokes(LabelItems(AggregationOf(groups)), labelMap);
    forall k | 0 <= k < |strokes| ensures !Covers(SegmentationOf(segIndices), strokes[k].segs, v) {
      LabelStrokeCovers(groups, segIndices, labelMap, k, v);
    }
    PaintUncovered(SegmentationOf(segIndices), strokes, v);
  }

  /** The label loop leaves at vertex v the mapped id of the last label (in key order)
      some group of which lists v's segment. */
  lemma LabelPaintLast<L>(groups: seq<SegGroup<L>>, segIndices: seq<int>, labelMap: map<L, int>, v: nat, k: nat)
    requires WellFormed(AggregationOf(groups))
    requires LabelsResolve(LabelItems(AggregationOf(groups)), SegmentationOf(segIndices), labelMap)
    requires v < |segIndices| && k < |AggregationOf(groups).labels|
    requires LabelCovers(groups, AggregationOf(groups).labels[k], segIndices[v])
    requires forall k' :: k < k' < |AggregationOf(groups).labels| ==> !LabelCovers(groups, AggregationOf(groups).labels[k'], segIndices[v])
    ensures AggregationOf(groups).labels[k] in labelMap
    ensures Paint(SegmentationOf(segIndices), LabelStrokes(LabelItems(AggregationOf(groups)), labelMap), v) ==
      U32(labelMap[AggregationOf(groups).labels[k]])
  {
    var strokes := LabelStrokes(LabelItems(AggregationOf(groups)), labelMap);
    forall k' | k < k' < |strokes| ensures !Covers(SegmentationOf(segIndices), strokes[k'].segs, v) {
      LabelStrokeCovers(groups, segIndices, labelMap, k', v);
    }
    LabelStrokeCovers(groups, segIndices, labelMap, k, v);
    PaintLast(SegmentationOf(segIndices), strokes, v, k);
  }

  /** label_ids: vertex v carries the mapped id of the last label, in the order labels
      first appear in segGroups, some group of which lists v's segment, or 0 when no
      group lists it. All groups of a label count, because their segments are
      concatenated under the label. */
  lemma ExportLabelIds<L>(groups: seq<SegGroup<L>>, segIndices: seq<int>, labelMap: map<L, int>, points: seq<Point>, v: nat)
    requires ExportOf(groups, segIndices, labelMap, points).Ok? && v < |segIndices|
    ensures |ExportOf(groups, segIndices, labelMap, points).value.labelIds| == |segIndices|
    ensures forall k :: 0 <= k < |Dedup(LabelsOf(groups))| ==> Dedup(LabelsOf(groups))[k] in labelMap
    ensures var ls, s := Dedup(LabelsOf(groups)), segIndices[v];
      (forall k :: 0 <= k < |ls| ==> !LabelCovers(groups, ls[k], s)) ==>
        ExportOf(groups, segIndices, labelMap, points).value.labelIds[v] == 0
    ensures var ls, s := Dedup(LabelsOf(groups)), segIndices[v];
      forall k :: (0 <= k < |ls| && LabelCovers(groups, ls[k], s) &&
        (forall k' :: k < k' < |ls| ==> !LabelCovers(groups, ls[k'], s))) ==>
        ExportOf(groups, segIndices, labelMap, points).value.labelIds[v] == U32(labelMap[ls[k]])
  {
    ExportLabelPaint(groups, segIndices, labelMap, points);
    var ls, s := Dedup(LabelsOf(groups)), segIndices[v];
    if forall k :: 0 <= k < |ls| ==> !LabelCovers(groups, ls[k], s) {
      ExportLabelUncovered(groups, segIndices, labelMap, points, v);
    }
    forall k | 0 <= k < |ls| && LabelCovers(groups, ls[k], s) &&
      (forall k' :: k < k' < |ls| ==> !LabelCovers(groups, ls[k'], s))
      ensures ExportOf(groups, segIndices, labelMap, points).value.labelIds[v] == U32(labelMap[ls[k]])
    {
      ExportLabelLast(groups, segIndices, labelMap, points, v, k);
    }
  }

  /** A successful export's label_ids is the label loop's paint, after which every label
      has a mapping. */
  lemma ExportLabelPaint<L>(groups: seq<SegGroup<L>>, segIndices: seq<int>, labelMap: map<L, int>, points: seq<Point>)
    requires ExportOf(groups, segIndices, labelMap, points).Ok?
    ensures WellFormed(AggregationOf(groups))
    ensures LabelsResolve(LabelItems(AggregationOf(groups)), SegmentationOf(segIndices), labelMap)
    ensures ExportOf(groups, segIndices, labelMap, points).value.labelIds ==
      seq(|segIndices|, v => Paint(SegmentationOf(segIndices), LabelStrokes(LabelItems(AggregationOf(groups)), labelMap), v))
    ensures forall k :: 0 <= k < |Dedup(LabelsOf(groups))| ==> Dedup(LabelsOf(groups))[k] in labelMap
  {
    var agg := AggregationOf(groups);
    AggregationWellFormed(groups);
    SegmentationValid(segIndices);
    var li := LabelItems(agg);
    forall k | 0 <= k < |agg.labels| ensures agg.labels[k] in labelMap {
      assert li[k].key == agg.labels[k];
    }
  }

  /** In a successful export, a vertex whose segment no group lists is labelled 0. */
  lemma ExportLabelUncovered<L>(groups: seq<SegGroup<L>>, segIndices: seq<int>, labelMap: map<L, int>, points: seq<Point>, v: nat)
    requires ExportOf(groups, segIndices, labelMap, points).Ok? && v < |segIndices|
    requires forall k :: 0 <= k < |Dedup(LabelsOf(groups))| ==> !LabelCovers(groups, Dedup(LabelsOf(groups))[k], segIndices[v])
    ensures ExportOf(groups, segIndices, labelMap, points).value.labelIds[v] == 0
  {
    ExportLabelPaint(groups, segIndices, labelMap, points);
    LabelPaintUncovered(groups, segIndices, labelMap, v);
  }

  /** In a successful export, a vertex takes the mapped id of the last label, in key
      order, some group of which lists its segment. */
  lemma ExportLabelLast<L>(groups: seq<SegGroup<L>>, segIndices: seq<int>, labelMap: map<L, int>, points: seq<Point>, v: nat, k: nat)
    requires ExportOf(groups, segIndices, labelMap, points).Ok? && v < |segIndices|
    requires k < |Dedup(LabelsOf(groups))| && LabelCovers(groups, Dedup(LabelsOf(groups))[k], segIndices[v])
    requires forall k' :: k < k' < |Dedup(LabelsOf(groups))| ==> !LabelCovers(groups, Dedup(LabelsOf(groups))[k'], segIndices[v])
    ensures Dedup(LabelsOf(groups))[k] in labelMap
    ensures ExportOf(groups, segIndices, labelMap, points).value.labelIds[v] == U32(labelMap[Dedup(LabelsOf(groups))[k]])
  {
    ExportLabelPaint(groups, segIndices, labelMap, points);
    LabelPaintLast(groups, segIndices, labelMap, v, k);
  }


  /** With distinct object ids, object_id_to_segs has one key per group, in group order. */
  lemma ObjectKeysDistinct<L>(groups: seq<SegGroup<L>>)
    requires Distinct(ObjectIdsOf(groups))
    ensures WellFormed(AggregationOf(groups))
    ensures AggregationOf(groups).objectIds == ObjectIdsOf(groups)
    ensures |ObjectItems(AggregationOf(groups))| == |groups|
  {
    AggregationWellFormed(groups);
    DedupDistinct(ObjectIdsOf(groups));
  }

  /** With distinct object ids, group j's key refers to list j. */
  lemma ObjectItemsDistinct<L>(groups: seq<SegGroup<L>>, j: nat)
    requires Distinct(ObjectIdsOf(groups)) && j < |groups|
    ensures WellFormed(AggregationOf(groups))
    ensures AggregationOf(groups).objectIds == ObjectIdsOf(groups)
    ensures |ObjectItems(AggregationOf(groups))| == |groups|
    ensures ObjectItems(AggregationOf(groups))[j] == Item(groups[j].objectId + 1, AggregationOf(groups).lists[j])
  {
    var agg := AggregationOf(groups);
    var ids := ObjectIdsOf(groups);
    ObjectKeysDistinct(groups);
    assert agg.objectList == ObjectListOf(ids);
    assert ids[j] == groups[j].objectId + 1;
    LastIndexOfUnique(ids, ids[j], j);
    assert agg.objectList[ids[j]] == j;
    assert ObjectSegs(agg, ids[j]) == agg.lists[j];
    assert ObjectItems(agg)[j] == Item(agg.objectIds[j], ObjectSegs(agg, agg.objectIds[j]));
  }

  /** With distinct object ids, the j-th pass of the instance loop writes objectId + 1 to
      the vertices of list j. */
  lemma InstanceStrokeCovers<L>(groups: seq<SegGroup<L>>, segIndices: seq<int>, j: nat, v: nat)
    requires Distinct(ObjectIdsOf(groups)) && j < |groups| && v < |segIndices|
    ensures WellFormed(AggregationOf(groups))
    ensures |ObjectStrokes(ObjectItems(AggregationOf(groups)))| == |groups|
    ensures ObjectStrokes(ObjectItems(AggregationOf(groups)))[j] ==
      Stroke(AggregationOf(groups).lists[j], U32(groups[j].objectId + 1))
    ensures Covers(SegmentationOf(segIndices), AggregationOf(groups).lists[j], v) <==>
      segIndices[v] in AggregationOf(groups).lists[j]
  {
    ObjectItemsDistinct(groups, j);
    CoversIff(segIndices, AggregationOf(groups).lists[j], v);
  }

  /** The instance loop leaves 0 at a vertex whose segment no group lists. */
  lemma InstancePaintUncovered<L>(groups: seq<SegGroup<L>>, segIndices: seq<int>, v: nat)
    requires Distinct(ObjectIdsOf(groups)) && v < |segIndices|
    requires forall j :: 0 <= j < |groups| ==> segIndices[v] !in groups[j].segments
    ensures WellFormed(AggregationOf(groups))
    ensures Paint(SegmentationOf(segIndices), ObjectStrokes(ObjectItems(AggregationOf(groups))), v) == 0
  {
    ObjectKeysDistinct(groups);
    var strokes := ObjectStrokes(ObjectItems(AggregationOf(groups)));
    forall k | 0 <= k < |strokes| ensures !Covers(SegmentationOf(segIndices), strokes[k].segs, v) {
      InstanceStrokeCovers(groups, segIndices, k, v);
      ListMembers(groups, k, segIndices[v]);
    }
    PaintUncovered(SegmentationOf(segIndices), strokes, v);
  }

  /** With distinct object ids, the instance loop leaves at vertex v the id of the last
      group listing v's segment. A first group of a label whose list also holds later
      groups' segments is overwritten by those later groups, so the sharing does not show. */
  lemma InstancePaintLast<L>(groups: seq<SegGroup<L>>, segIndices: seq<int>, v: nat, j: nat)
    requires Distinct(ObjectIdsOf(groups)) && v < |segIndices| && j < |groups|
    requires segIndices[v] in groups[j].segments
    requires forall i :: j < i < |groups| ==> segIndices[v] !in groups[i].segments
    ensures WellFormed(AggregationOf(groups))
    ensures Paint(SegmentationOf(segIndices), ObjectStrokes(ObjectItems(AggregationOf(groups))), v) == U32(groups[j].objectId + 1)
  {
    ObjectKeysDistinct(groups);
    var strokes := ObjectStrokes(ObjectItems(AggregationOf(groups)));
    InstanceStrokeCovers(groups, segIndices, j, v);
    forall k | j < k < |strokes| ensures !Covers(SegmentationOf(segIndices), strokes[k].segs, v) {
      InstanceStrokeCovers(groups, segIndices, k, v);
      ListMembers(groups, k, segIndices[v]);
    }
    ListMembers(groups, j, segIndices[v]);
    PaintLast(SegmentationOf(segIndices), strokes, v, j);
  }

  /** Every label id `export` writes is 0 (unannotated) or the wrapped mapping of some label. */
  lemma ExportLabelValues<L>(groups: seq<SegGroup<L>>, segIndices: seq<int>, labelMap: map<L, int>, points: seq<Point>, v: nat)
    requires ExportOf(groups, segIndices, labelMap, points).Ok? && v < |segIndices|
    ensures |ExportOf(groups, segIndices, labelMap, points).value.labelIds| == |segIndices|
    ensures var x := ExportOf(groups, segIndices, labelMap, points).value.labelIds[v];
      x == 0 || exists l :: l in labelMap && x == U32(labelMap[l])
  {
    var agg := AggregationOf(groups);
    var seg := SegmentationOf(segIndices);
    AggregationWellFormed(groups);
    SegmentationValid(segIndices);
    var li := LabelItems(agg);
    assert LabelsResolve(li, seg, labelMap);
    var strokes := LabelStrokes(li, labelMap);
    var r := ExportOf(groups, segIndices, labelMap, points).value.labelIds;
    assert r == seq(|segIndices|, v => Paint(seg, strokes, v));
    PaintValue(seg, strokes, v);
    if r[v] != 0 {
      var k :| 0 <= k < |strokes| && r[v] == strokes[k].value;
      assert li[k].key in labelMap && r[v] == U32(labelMap[li[k].key]);
    }
  }

  /** The instance ids and object labels `export` computes, when it succeeds. */
  lemma ExportFused<L>(groups: seq<SegGroup<L>>, segIndices: seq<int>, labelMap: map<L, int>, points: seq<Point>)
    requires ExportOf(groups, segIndices, labelMap, points).Ok?
    ensures WellFormed(AggregationOf(groups))
    ensures SegMapValid(SegmentationOf(segIndices), |segIndices|)
    ensures ObjectsResolve(ObjectItems(AggregationOf(groups)), SegmentationOf(segIndices))
    ensures var sc := ExportOf(groups, segIndices, labelMap, points).value;
      && |sc.labelIds| == |segIndices|
      && sc.instanceIds == seq(|segIndices|, v => Paint(SegmentationOf(segIndices), ObjectStrokes(ObjectItems(AggregationOf(groups))), v))
      && sc.objectLabel == ObjectLabelsOf(ObjectItems(AggregationOf(groups)), SegmentationOf(segIndices), sc.labelIds)
      && BoxesOf(AggregationOf(groups).objectIds, points, sc.instanceIds, sc.objectLabel, |AggregationOf(groups).objectIds|) == Ok(sc.boxes)
  {
    AggregationWellFormed(groups);
    SegmentationValid(segIndices);
  }

  /** instance_ids, for annotations with distinct object ids: vertex v carries
      objectId + 1 of the last group listing v's segment, or 0 when no group lists it. */
  lemma ExportInstanceIds<L>(groups: seq<SegGroup<L>>, segIndices: seq<int>, labelMap: map<L, int>, points: seq<Point>, v: nat)
    requires ExportOf(groups, segIndices, labelMap, points).Ok? && v < |segIndices|
    requires Distinct(ObjectIdsOf(groups))
    ensures |ExportOf(groups, segIndices, labelMap, points).value.instanceIds| == |segIndices|
    ensures (forall j :: 0 <= j < |groups| ==> segIndices[v] !in groups[j].segments) ==>
      ExportOf(groups, segIndices, labelMap, points).value.instanceIds[v] == 0
    ensures forall j :: (0 <= j < |groups| && segIndices[v] in groups[j].segments &&
      (forall i :: j < i < |groups| ==> segIndices[v] !in groups[i].segments)) ==>
      ExportOf(groups, segIndices, labelMap, points).value.instanceIds[v] == U32(groups[j].objectId + 1)
  {
    ExportFused(groups, segIndices, labelMap, points);
    if forall j :: 0 <= j < |groups| ==> segIndices[v] !in groups[j].segments {
      InstancePaintUncovered(groups, segIndices, v);
    }
    forall j | 0 <= j < |groups| && segIndices[v] in groups[j].segments &&
      (forall i :: j < i < |groups| ==> segIndices[v] !in groups[i].segments)
      ensures ExportOf(groups, segIndices, labelMap, points).value.instanceIds[v] == U32(groups[j].objectId + 1)
    {
      InstancePaintLast(groups, segIndices, v, j);
    }
  }

  /** object_id_to_label_id, for annotations with distinct object ids: when `export`
      succeeds every object has an entry (the box loop looks each one up), and a group
      with segments gets the label id of the first vertex of its first segment. */
  lemma ExportObjectLabels<L>(groups: seq<SegGroup<L>>, segIndices: seq<int>, labelMap: map<L, int>, points: seq<Point>, j: nat)
    requires ExportOf(groups, segIndices, labelMap, points).Ok?
    requires Distinct(ObjectIdsOf(groups)) && j < |groups|
    ensures groups[j].objectId + 1 in ExportOf(groups, segIndices, labelMap, points).value.objectLabel
    ensures |groups[j].segments| > 0 ==>
      var sc, seg, s := ExportOf(groups, segIndices, labelMap, points).value, SegmentationOf(segIndices), groups[j].segments[0];
      && s in seg && |seg[s]| > 0 && seg[s][0] < |sc.labelIds|
      && sc.objectLabel[groups[j].objectId + 1] == sc.labelIds[seg[s][0]]
  {
    var sc := ExportOf(groups, segIndices, labelMap, points).value;
    var agg := AggregationOf(groups);
    var seg := SegmentationOf(segIndices);
    var o := groups[j].objectId + 1;
    ExportFused(groups, segIndices, labelMap, points);
    ObjectItemsDistinct(groups, j);
    var items := ObjectItems(agg);
    assert BoxesResolve(agg.objectIds, points, sc.instanceIds, sc.objectLabel, |agg.objectIds|) by {
      BoxesOk(agg.objectIds, points, sc.instanceIds, sc.objectLabel, |agg.objectIds|);
    }
    assert agg.objectIds[j] == o;
    if |groups[j].segments| > 0 {
      ListStartsWithOwn(groups, j);
      assert items[j].segs[0] == groups[j].segments[0];
      forall i | 0 <= i < j ensures items[i].key != o {
        assert items[i].key == agg.objectIds[i];
      }
      ObjectLabelsFirst(items, seg, sc.labelIds, o);
    }
  }

  /** instance_bboxes, for annotations whose object ids are 0 .. N-1 in some order (as
      `export` assumes): row objectId holds the box of that object's vertices. */
  lemma ExportBoxes<L>(groups: seq<SegGroup<L>>, segIndices: seq<int>, labelMap: map<L, int>, points: seq<Point>, sc: Scene)
    requires ExportOf(groups, segIndices, labelMap, points) == Ok(sc)
    requires Distinct(ObjectIdsOf(groups))
    requires forall j :: 0 <= j < |groups| ==> 0 <= groups[j].objectId < |groups|
    ensures |sc.boxes| == |groups|
    ensures forall j :: 0 <= j < |groups| ==> (|points| == |sc.instanceIds| && groups[j].objectId + 1 in sc.objectLabel &&
      sc.boxes[groups[j].objectId] == InstanceBox(points, sc.instanceIds, sc.objectLabel, groups[j].objectId + 1))
  {
    ExportFused(groups, segIndices, labelMap, points);
    ObjectKeysDistinct(groups);
    var keys := AggregationOf(groups).objectIds;
    assert BoxesOf(keys, points, sc.instanceIds, sc.objectLabel, |keys|) == Ok(sc.boxes);
    BoxRowsOfKeys(groups, keys, points, sc.instanceIds, sc.objectLabel, sc.boxes);
  }

  /** The box table of the box loop over the keys objectId + 1 of groups with distinct
      object ids in 0 .. N-1. */
  lemma BoxRowsOfKeys<L>(groups: seq<SegGroup<L>>, keys: seq<int>, pts: seq<Point>, ids: seq<int>, objLabel: map<int, int>, boxes: seq<Box>)
    requires keys == ObjectIdsOf(groups) && Distinct(keys)
    requires forall j :: 0 <= j < |groups| ==> 0 <= groups[j].objectId < |groups|
    requires BoxesOf(keys, pts, ids, objLabel, |keys|) == Ok(boxes)
    ensures |boxes| == |groups|
    ensures forall j :: 0 <= j < |groups| ==> (|pts| == |ids| && groups[j].objectId + 1 in objLabel &&
      boxes[groups[j].objectId] == InstanceBox(pts, ids, objLabel, groups[j].objectId + 1))
  {
    BoxesOk(keys, pts, ids, objLabel, |keys|);
    BoxesRows(keys, pts, ids, objLabel, |keys|);
    forall j | 0 <= j < |groups| ensures |pts| == |ids| && groups[j].objectId + 1 in objLabel &&
      boxes[groups[j].objectId] == InstanceBox(pts, ids, objLabel, groups[j].objectId + 1)
    {
      assert keys[j] == groups[j].objectId + 1;
    }
  }

  /** With distinct object ids in 0 .. N-1, every group listing segments and a vertex table
      as long as the masks, the box loop raises nothing. */
  lemma BoxLoopResolves<L>(groups: seq<SegGroup<L>>, segIndices: seq<int>, labelIds: seq<int>, pts: seq<Point>, ids: seq<int>)
    requires Distinct(ObjectIdsOf(groups))
    requires forall j :: 0 <= j < |groups| ==> 0 <= groups[j].objectId < |groups| && |groups[j].segments| > 0
    requires WellFormed(AggregationOf(groups))
    requires ObjectsResolve(ObjectItems(AggregationOf(groups)), SegmentationOf(segIndices))
    requires SegMapValid(SegmentationOf(segIndices), |labelIds|) && |pts| == |ids|
    ensures var keys := AggregationOf(groups).objectIds;
      BoxesResolve(keys, pts, ids, ObjectLabelsOf(ObjectItems(AggregationOf(groups)), SegmentationOf(segIndices), labelIds), |keys|)
  {
    ObjectKeysDistinct(groups);
    ObjectItemsOwn(groups);
    var oi, seg := ObjectItems(AggregationOf(groups)), SegmentationOf(segIndices);
    ItemsLabelled(oi, seg, labelIds);
    KeysResolve(ObjectIdsOf(groups), oi, pts, ids, ObjectLabelsOf(oi, seg, labelIds));
  }

  /** Keys that all have a label and address a row of the table raise nothing. */
  lemma KeysResolve(keys: seq<int>, oi: seq<Item<int>>, pts: seq<Point>, ids: seq<int>, ol: map<int, int>)
    requires |pts| == |ids| && |oi| == |keys|
    requires forall k :: 0 <= k < |oi| ==> oi[k].key == keys[k] && 1 <= keys[k] <= |keys|
    requires forall k :: 0 <= k < |oi| ==> oi[k].key in ol
    ensures BoxesResolve(keys, pts, ids, ol, |keys|)
  {
    forall k | 0 <= k < |keys| ensures keys[k] in ol && RowOf(keys[k] - 1, |keys|).Some? {
      assert oi[k].key == keys[k];
    }
  }

  /** With distinct object ids and non-empty segment lists, entry k of
      object_id_to_segs.items() is group k's key with a non-empty list. */
  lemma ObjectItemsOwn<L>(groups: seq<SegGroup<L>>)
    requires Distinct(ObjectIdsOf(groups))
    requires forall j :: 0 <= j < |groups| ==> 0 <= groups[j].objectId < |groups| && |groups[j].segments| > 0
    ensures WellFormed(AggregationOf(groups))
    ensures var oi := ObjectItems(AggregationOf(groups));
      && |oi| == |groups|
      && forall k :: 0 <= k < |oi| ==> oi[k].key == ObjectIdsOf(groups)[k] && 1 <= oi[k].key <= |groups| && |oi[k].segs| > 0
  {
    ObjectKeysDistinct(groups);
    var oi := ObjectItems(AggregationOf(groups));
    forall k | 0 <= k < |oi| ensures oi[k].key == ObjectIdsOf(groups)[k] && 1 <= oi[k].key <= |groups| && |oi[k].segs| > 0 {
      ObjectItemsDistinct(groups, k);
      ListStartsWithOwn(groups, k);
    }
  }

  /** Every entry of object_id_to_segs.items() that lists a segment gives its key a label id. */
  lemma ItemsLabelled(oi: seq<Item<int>>, seg: map<int, seq<nat>>, labelIds: seq<int>)
    requires ObjectsResolve(oi, seg) && SegMapValid(seg, |labelIds|)
    requires forall k :: 0 <= k < |oi| ==> |oi[k].segs| > 0
    ensures forall k :: 0 <= k < |oi| ==> oi[k].key in ObjectLabelsOf(oi, seg, labelIds)
  {
    forall k | 0 <= k < |oi| ensures oi[k].key in ObjectLabelsOf(oi, seg, labelIds) {
      ObjectLabelsFirst(oi, seg, labelIds, oi[k].key);
    }
  }

  /** `export` succeeds on annotations whose labels all have a mapping, whose segments all
      occur in the segmentation, whose object ids are 0 .. N-1 in some order and list at
      least one segment each, on a mesh with one vertex per segment index. */
  lemma ExportOk<L>(groups: seq<SegGroup<L>>, segIndices: seq<int>, labelMap: map<L, int>, points: seq<Point>)
    requires AnnotationsResolve(groups, segIndices, labelMap) && |points| == |segIndices|
    requires Distinct(ObjectIdsOf(groups))
    requires forall j :: 0 <= j < |groups| ==> 0 <= groups[j].objectId < |groups| && |groups[j].segments| > 0
    ensures ExportOf(groups, segIndices, labelMap, points).Ok?
  {
    var agg := AggregationOf(groups);
    var seg := SegmentationOf(segIndices);
    var n := |segIndices|;
    LabelsResolveIff(groups, segIndices, labelMap);
    ObjectsResolveFrom(groups, segIndices, labelMap);
    SegmentationValid(segIndices);
    var li := LabelItems(agg);
    var labelIds := seq(n, v => Paint(seg, LabelStrokes(li, labelMap), v));
    var oi := ObjectItems(agg);
    var ids := seq(n, v => Paint(seg, ObjectStrokes(oi), v));
    var ol := ObjectLabelsOf(oi, seg, labelIds);
    BoxLoopResolves(groups, segIndices, labelIds, points, ids);
    BoxesOk(agg.objectIds, points, ids, ol, |agg.objectIds|);
  }

  /** A label without a mapping, or a segment missing from the segmentation, makes
      `export` raise KeyError. */
  lemma ExportKeyError<L>(groups: seq<SegGroup<L>>, segIndices: seq<int>, labelMap: map<L, int>, points: seq<Point>)
    requires !AnnotationsResolve(groups, segIndices, labelMap)
    ensures ExportOf(groups, segIndices, labelMap, points) == Err(KeyError)
  {
    LabelsResolveIff(groups, segIndices, labelMap);
  }

  /** A vertex table whose length differs from the segmentation's makes `export` raise
      (the instance mask cannot select from it) as soon as there is an object. */
  lemma ExportShapeError<L>(groups: seq<SegGroup<L>>, segIndices: seq<int>, labelMap: map<L, int>, points: seq<Point>)
    requires |groups| > 0 && |points| != |segIndices|
    ensures ExportOf(groups, segIndices, labelMap, points).Err?
  {
    if ExportOf(groups, segIndices, labelMap, points).Ok? {
      var sc := ExportOf(groups, segIndices, labelMap, points).value;
      var keys := AggregationOf(groups).objectIds;
      ExportFused(groups, segIndices, labelMap, points);
      DedupMembers(ObjectIdsOf(groups));
      assert ObjectIdsOf(groups)[0] in keys;
      BoxesOk(keys, points, sc.instanceIds, sc.objectLabel, |keys|);
      assert false;
    }
  }

  /** An object whose list ends up empty never gets a label id, and the box loop's lookup
      of it raises. */
  lemma ExportEmptyObject<L>(groups: seq<SegGroup<L>>, segIndices: seq<int>, labelMap: map<L, int>, points: seq<Point>, o: int)
    requires WellFormed(AggregationOf(groups)) && o in AggregationOf(groups).objectList
    requires ObjectSegs(AggregationOf(groups), o) == []
    ensures ExportOf(groups, segIndices, labelMap, points).Err?
  {
    if ExportOf(groups, segIndices, labelMap, points).Ok? {
      var sc := ExportOf(groups, segIndices, labelMap, points).value;
      var agg := AggregationOf(groups);
      var keys := agg.objectIds;
      var oi := ObjectItems(agg);
      ExportFused(groups, segIndices, labelMap, points);
      var p :| 0 <= p < |keys| && keys[p] == o;
      forall k | 0 <= k < |oi| && oi[k].key == o ensures |oi[k].segs| == 0 {
        assert oi[k].key == keys[k];
        assert k == p;
      }
      ObjectLabelsFirst(oi, SegmentationOf(segIndices), sc.labelIds, o);
      BoxesOk(keys, points, sc.instanceIds, sc.objectLabel, |keys|);
      assert false;
    }
  }
}
