/** Scannet.read_one_scan: the scene `export` computes for one scan, with the do-not-care
    classes filtered out, the boxes restricted to the object classes, the vertices
    subsampled to a budget and the nyu40 labels remapped to dense training labels. */
module ScanProcessing {
  import opened Seqs
  import opened Results
  import opened Aggregation
  import opened Boxes
  import opened Export

  /** Scannet.VALID_CLASS_IDS: the nyu40 ids that are trained on, ascending. */
  const VALID_CLASS_IDS: seq<int> := [1, 2, 3, 4, 5, 6, 7, 8, 9, 10, 11, 12, 14, 16, 24, 28, 33, 34, 36, 39]

  /** Scannet.IGNORE_LABEL: the training label of every other class. */
  const IGNORE_LABEL: int := -100

  /** The largest key of Scannet.SCANNET_COLOR_MAP: the remap loop visits 0 ..= this. */
  const MAX_CLASS_ID: int := 40

  /** A row of mesh_vertices: position, then colour. */
  datatype Vertex = Vertex(pos: Point, rgb: Point)

  /** The three per-vertex arrays read_one_scan filters together. */
  datatype Scan<V> = Scan(vertices: seq<V>, semantic: seq<int>, instance: seq<int>)

  /** The arrays of a scan have one entry per vertex. */
  predicate Lockstep<V>(s: Scan<V>)
  {
    |s.vertices| == |s.semantic| && |s.instance| == |s.semantic|
  }

  /** The same positions of all three arrays: mesh_vertices[idx], semantic_labels[idx],
      instance_labels[idx]. */
  function SelectScan<V>(s: Scan<V>, idx: seq<nat>): (r: Scan<V>)
    requires Lockstep(s) && InBounds(idx, |s.semantic|)
    ensures Lockstep(r) && |r.semantic| == |idx|
  {
    Scan(Select(s.vertices, idx), Select(s.semantic, idx), Select(s.instance, idx))
  }

  /** The vertices whose semantic label is not a do-not-care class, ascending: the
      positions where np.logical_not(np.in1d(semantic_labels, donotcare_class_ids)) holds. */
  function KeptIndices(semantic: seq<int>, donotcare: seq<int>): (idx: seq<nat>)
  {
    IndicesWhere(semantic, l => l !in donotcare)
  }

  /** "Discard unwanted classes": the mask is computed on the semantic labels, so indexing
      the other arrays with it raises IndexError when their length differs. */
  function FilterDoNotCare<V>(s: Scan<V>, donotcare: seq<int>): (r: Result<Scan<V>>)
  {
    if !Lockstep(s) then Err(IndexError)
    else Ok(SelectScan(s, KeptIndices(s.semantic, donotcare)))
  }

  /** The filter keeps exactly the vertices whose label is not do-not-care, in their
      original order and in lockstep across the three arrays, and fails exactly when the
      arrays differ in length. */
  lemma FilterDoNotCareSpec<V>(s: Scan<V>, donotcare: seq<int>)
    ensures FilterDoNotCare(s, donotcare).Ok? <==> Lockstep(s)
    ensures FilterDoNotCare(s, donotcare).Err? ==> FilterDoNotCare(s, donotcare).error == IndexError
    ensures FilterDoNotCare(s, donotcare).Ok? ==>
      var idx, r := KeptIndices(s.semantic, donotcare), FilterDoNotCare(s, donotcare).value;
      && Lockstep(r) && |r.semantic| == |idx| && InBounds(idx, |s.semantic|)
      && (forall j, k :: 0 <= j < k < |idx| ==> idx[j] < idx[k])
      && (forall i :: 0 <= i < |s.semantic| ==> (i in idx <==> s.semantic[i] !in donotcare))
      && (forall k :: 0 <= k < |idx| ==>
            (r.vertices[k] == s.vertices[idx[k]] && r.semantic[k] == s.semantic[idx[k]] && r.instance[k] == s.instance[idx[k]]))
  {
    if Lockstep(s) {
      var idx := KeptIndices(s.semantic, donotcare);
      forall i | 0 <= i < |s.semantic| && i in idx ensures s.semantic[i] !in donotcare {
        var k :| 0 <= k < |idx| && idx[k] == i;
      }
    }
  }

  /** No label of a filtered scan is a do-not-care class. */
  lemma FilterDropsDoNotCare<V>(s: Scan<V>, donotcare: seq<int>)
    requires FilterDoNotCare(s, donotcare).Ok?
    ensures forall k :: 0 <= k < |FilterDoNotCare(s, donotcare).value.semantic| ==>
      FilterDoNotCare(s, donotcare).value.semantic[k] !in donotcare
  {
  }

  /** An empty do-not-care list keeps every vertex. */
  lemma FilterNothing<V>(s: Scan<V>)
    requires Lockstep(s)
    ensures FilterDoNotCare(s, []) == Ok(s)
  {
    IndicesWhereAll(s.semantic, l => l !in []);
    SelectAll(s.vertices);
    SelectAll(s.semantic);
    SelectAll(s.instance);
  }

  /** instance_bboxes[np.in1d(instance_bboxes[:, -1], obj_class_ids), :]: the rows whose
      label column is an object class, in order. */
  function FilterBoxes(boxes: seq<Box>, objClassIds: seq<int>): (r: seq<Box>)
  {
    Select(boxes, IndicesWhere(boxes, (b: Box) => b.labelId in objClassIds))
  }

  /** The box filter keeps a row exactly when its label is an object class, in order. */
  lemma FilterBoxesSpec(boxes: seq<Box>, objClassIds: seq<int>)
    ensures var idx, r := IndicesWhere(boxes, (b: Box) => b.labelId in objClassIds), FilterBoxes(boxes, objClassIds);
      && |r| == |idx|
      && (forall j, k :: 0 <= j < k < |idx| ==> idx[j] < idx[k])
      && (forall i :: 0 <= i < |boxes| ==> (i in idx <==> boxes[i].labelId in objClassIds))
      && (forall k :: 0 <= k < |idx| ==> r[k] == boxes[idx[k]] && r[k].labelId in objClassIds)
  {
    var idx := IndicesWhere(boxes, (b: Box) => b.labelId in objClassIds);
    forall i | 0 <= i < |boxes| && i in idx ensures boxes[i].labelId in objClassIds {
      var k :| 0 <= k < |idx| && idx[k] == i;
    }
  }

  /** np.random.choice(n, m, replace=False): m distinct positions below n. */
  predicate ValidChoice(choices: seq<nat>, n: nat, m: nat)
  {
    |choices| == m && InBounds(choices, n) && Distinct(choices)
  }

  /** The subsampling branch is taken: max_num_point is set (non-zero) and the scan has
      more vertices than it. */
  predicate Draws<V>(s: Scan<V>, maxNumPoint: Option<int>)
  {
    maxNumPoint.Some? && maxNumPoint.value != 0 && |s.vertices| > maxNumPoint.value
  }

  /** "Subsample": with a budget the scan exceeds, the three arrays are indexed by the
      same random draw; a negative budget makes np.random.choice raise ValueError. */
  function Subsample<V>(s: Scan<V>, maxNumPoint: Option<int>, choices: seq<nat>): (r: Result<Scan<V>>)
    requires Lockstep(s)
    requires Draws(s, maxNumPoint) && maxNumPoint.value > 0 ==> ValidChoice(choices, |s.vertices|, maxNumPoint.value)
  {
    if !Draws(s, maxNumPoint) then Ok(s)
    else if maxNumPoint.value < 0 then Err(ValueError)
    else Ok(SelectScan(s, choices))
  }

  /** Without a budget, with a zero budget or with a scan within budget the scan is
      unchanged; above a positive budget exactly max_num_point vertices remain, drawn from
      distinct positions in lockstep, so no vertex is duplicated. */
  lemma SubsampleSpec<V>(s: Scan<V>, maxNumPoint: Option<int>, choices: seq<nat>)
    requires Lockstep(s)
    requires Draws(s, maxNumPoint) && maxNumPoint.value > 0 ==> ValidChoice(choices, |s.vertices|, maxNumPoint.value)
    ensures !Draws(s, maxNumPoint) ==> Subsample(s, maxNumPoint, choices) == Ok(s)
    ensures Draws(s, maxNumPoint) && maxNumPoint.value < 0 ==> Subsample(s, maxNumPoint, choices) == Err(ValueError)
    ensures Draws(s, maxNumPoint) && maxNumPoint.value > 0 ==>
      var r := Subsample(s, maxNumPoint, choices);
      && r.Ok? && Lockstep(r.value) && |r.value.vertices| == maxNumPoint.value
      && (forall k :: 0 <= k < |choices| ==> (r.value.vertices[k] == s.vertices[choices[k]] &&
            r.value.semantic[k] == s.semantic[choices[k]] && r.value.instance[k] == s.instance[choices[k]]))
      && multiset(r.value.vertices) <= multiset(s.vertices)
  {
    if Draws(s, maxNumPoint) && maxNumPoint.value > 0 {
      SelectDistinctSubMultiset(s.vertices, choices);
    }
  }

  /** How many of the ids in valid are below x. */
  function CountLess(valid: seq<int>, x: int): (c: nat)
    decreases |valid|
  {
    if |valid| == 0 then 0
    else CountLess(valid[..|valid| - 1], x) + (if valid[|valid| - 1] < x then 1 else 0)
  }

  /** Moving the bound up by one counts x exactly when it is one of the ids. */
  lemma {:induction false} CountLessStep(valid: seq<int>, x: int)
    requires Distinct(valid)
    ensures CountLess(valid, x + 1) == CountLess(valid, x) + (if x in valid then 1 else 0)
    decreases |valid|
  {
    if |valid| > 0 {
      var n := |valid| - 1;
      var p := valid[..n];
      DistinctSplit(valid);
      CountLessStep(p, x);
      var a, b := CountLess(p, x + 1), CountLess(p, x);
      assert CountLess(valid, x + 1) == a + (if valid[n] < x + 1 then 1 else 0);
      assert CountLess(valid, x) == b + (if valid[n] < x then 1 else 0);
    }
  }

  /** A distinct list is a distinct prefix followed by a last element not in it. */
  lemma DistinctSplit(valid: seq<int>)
    requires Distinct(valid) && |valid| > 0
    ensures var n := |valid| - 1;
      && Distinct(valid[..n])
      && valid[n] !in valid[..n]
      && (forall x :: x in valid <==> x in valid[..n] || x == valid[n])
  {
    var n := |valid| - 1;
    var p := valid[..n];
    forall i, j | 0 <= i < j < |p| ensures p[i] != p[j] {
      assert p[i] == valid[i] && p[j] == valid[j];
    }
    forall i | 0 <= i < n ensures p[i] != valid[n] {
      assert p[i] == valid[i];
    }
    assert valid == p + [valid[n]];
  }

  /** In an ascending list, the ids below the k-th are exactly the k before it. */
  lemma {:induction false} CountLessPosition(valid: seq<int>, k: nat)
    requires StrictlyIncreasing(valid) && k < |valid|
    ensures CountLess(valid, valid[k]) == k
    decreases |valid|
  {
    var n := |valid| - 1;
    var p := valid[..n];
    if k < n {
      assert StrictlyIncreasing(p) by {
        forall i, j | 0 <= i < j < |p| ensures p[i] < p[j] {
          assert p[i] == valid[i] && p[j] == valid[j];
        }
      }
      CountLessPosition(p, k);
      assert p[k] == valid[k];
    } else {
      CountLessAll(p, valid[k]);
    }
  }

  /** Every id of the list is below x: all are counted. */
  lemma {:induction false} CountLessAll(valid: seq<int>, x: int)
    requires forall i :: 0 <= i < |valid| ==> valid[i] < x
    ensures CountLess(valid, x) == |valid|
    decreases |valid|
  {
    if |valid| > 0 {
      CountLessAll(valid[..|valid| - 1], x);
    }
  }

  /** No id of the list is below x: none is counted. */
  lemma {:induction false} CountLessNone(valid: seq<int>, x: int)
    requires forall i :: 0 <= i < |valid| ==> valid[i] >= x
    ensures CountLess(valid, x) == 0
    decreases |valid|
  {
    if |valid| > 0 {
      CountLessNone(valid[..|valid| - 1], x);
    }
  }

  /** The dense training label of nyu40 id x: for a valid class, the number of valid
      classes below it (the value of count when the loop reaches x), for another id the
      loop visits IGNORE_LABEL; ids outside 0 ..= 40 are not visited. */
  function Remap(x: int): int
  {
    if 0 <= x <= MAX_CLASS_ID then
      if x in VALID_CLASS_IDS then CountLess(VALID_CLASS_IDS, x) else IGNORE_LABEL
    else x
  }

  lemma ValidIncreasing()
    ensures StrictlyIncreasing(VALID_CLASS_IDS) && Distinct(VALID_CLASS_IDS)
  {
    var v := VALID_CLASS_IDS;
    assert forall k :: 0 <= k < |v| - 1 ==> v[k] < v[k + 1];
    forall i, j | 0 <= i < j < |v| ensures v[i] < v[j] {
      AdjacentIncreasing(v, i, j);
    }
  }

  lemma {:induction false} AdjacentIncreasing(v: seq<int>, i: nat, j: nat)
    requires forall k :: 0 <= k < |v| - 1 ==> v[k] < v[k + 1]
    requires i < j < |v|
    ensures v[i] < v[j]
    decreases j - i
  {
    if i + 1 < j {
      AdjacentIncreasing(v, i + 1, j);
    }
  }

  /** The k-th valid class becomes label k: the labels are dense, 0 .. 19, and each
      valid class gets its position in VALID_CLASS_IDS. */
  lemma RemapValid(k: nat)
    requires k < |VALID_CLASS_IDS|
    ensures Remap(VALID_CLASS_IDS[k]) == k
  {
    ValidIncreasing();
    CountLessPosition(VALID_CLASS_IDS, k);
  }

  /** Every visited id becomes a label in 0 .. 19 or IGNORE_LABEL; ids outside the loop's
      range keep their value. */
  lemma RemapRange(x: int)
    ensures 0 <= x <= MAX_CLASS_ID ==> (0 <= Remap(x) < |VALID_CLASS_IDS| || Remap(x) == IGNORE_LABEL)
    ensures 0 <= x <= MAX_CLASS_ID && x !in VALID_CLASS_IDS ==> Remap(x) == IGNORE_LABEL
    ensures (x < 0 || x > MAX_CLASS_ID) ==> Remap(x) == x
  {
    if 0 <= x <= MAX_CLASS_ID && x in VALID_CLASS_IDS {
      var k :| 0 <= k < |VALID_CLASS_IDS| && VALID_CLASS_IDS[k] == x;
      RemapValid(k);
    }
  }

  /** A valid class id is larger than its position. */
  lemma {:induction false} ValidAbovePosition(k: nat)
    requires k < |VALID_CLASS_IDS|
    ensures VALID_CLASS_IDS[k] > k
  {
    if k > 0 {
      ValidAbovePosition(k - 1);
      ValidIncreasing();
    }
  }

  /** No valid class id is negative, so the loop starts with count 0. */
  lemma NoValidBelowZero()
    ensures CountLess(VALID_CLASS_IDS, 0) == 0
  {
    forall k | 0 <= k < |VALID_CLASS_IDS| ensures VALID_CLASS_IDS[k] >= 0 {
      ValidAbovePosition(k);
    }
    CountLessNone(VALID_CLASS_IDS, 0);
  }

  /** The label written for a visited id is below that id, so a later pass of the loop,
      which only rewrites entries equal to a larger id, never meets it again. */
  lemma RemapBelow(x: int)
    requires 0 <= x <= MAX_CLASS_ID
    ensures Remap(x) < x || (x == 0 && Remap(x) == IGNORE_LABEL)
  {
    if x in VALID_CLASS_IDS {
      var k :| 0 <= k < |VALID_CLASS_IDS| && VALID_CLASS_IDS[k] == x;
      RemapValid(k);
      ValidAbovePosition(k);
    }
  }

  /** The remap loop of read_one_scan: for i = 0 ..= 40, every entry equal to i is set to
      the next dense label when i is a valid class and to IGNORE_LABEL otherwise. Done in
      place and in sequence, it has the effect of Remap on every entry. */
  method RemapLabels(a: array<int>)
    modifies a
    ensures forall j :: 0 <= j < a.Length ==> a[j] == Remap(old(a[j]))
  {
    ValidIncreasing();
    NoValidBelowZero();
    var count := 0;
    var i := 0;
    while i < MAX_CLASS_ID + 1
      invariant 0 <= i <= MAX_CLASS_ID + 1
      invariant count == CountLess(VALID_CLASS_IDS, i)
      invariant forall j :: 0 <= j < a.Length ==>
        a[j] == if 0 <= old(a[j]) < i then Remap(old(a[j])) else old(a[j])
    {
      CountLessStep(VALID_CLASS_IDS, i);
      var newLabel: int;
      if i in VALID_CLASS_IDS {
        newLabel := count;
        count := count + 1;
      } else {
        newLabel := IGNORE_LABEL;
      }
      assert newLabel == Remap(i);
      forall x | 0 <= x < i ensures Remap(x) != i {
        RemapBelow(x);
      }
      // semantic_labels[semantic_labels == i] = label
      forall j | 0 <= j < a.Length && a[j] == i {
        a[j] := newLabel;
      }
      i := i + 1;
    }
  }

  /** Remap applied to every label. */
  function RemapAll(xs: seq<int>): (ys: seq<int>)
  {
    seq(|xs|, k requires 0 <= k < |xs| => Remap(xs[k]))
  }

  /** The remap loop run on a fresh copy of the labels. */
  method RemapSeq(xs: seq<int>) returns (ys: seq<int>)
    ensures ys == RemapAll(xs)
  {
    var a := new int[|xs|](k requires 0 <= k < |xs| => xs[k]);
    RemapLabels(a);
    ys := a[..];
  }

  /** What read_one_scan returns, before it is wrapped into tensors. */
  datatype ScanData = ScanData(vertices: seq<Vertex>, labels: seq<int>, instances: seq<int>, boxes: seq<Box>)

  function Positions(vertices: seq<Vertex>): (ps: seq<Point>)
    ensures |ps| == |vertices|
  {
    seq(|vertices|, k requires 0 <= k < |vertices| => vertices[k].pos)
  }

  /** The random draw of np.random.choice(n, m, replace=False) for every n > m > 0. */
  ghost predicate DrawsValid(draw: (nat, nat) -> seq<nat>)
  {
    forall n: nat, m: nat :: 0 < m < n ==> ValidChoice(draw(n, m), n, m)
  }

  /** read_one_scan: export, discard the do-not-care classes, keep the boxes of the
      object classes, subsample, and remap the labels pointwise. */
  ghost function ScanOf<L>(groups: seq<SegGroup<L>>, segIndices: seq<int>, labelMap: map<L, int>, vertices: seq<Vertex>,
                          donotcare: seq<int>, objClassIds: seq<int>, maxNumPoint: Option<int>, draw: (nat, nat) -> seq<nat>): Result<ScanData>
    requires DrawsValid(draw)
  {
    match ExportOf(groups, segIndices, labelMap, Positions(vertices))
    case Err(e) => Err(e)
    case Ok(sc) => PostProcess(sc, vertices, donotcare, objClassIds, maxNumPoint, draw)
  }

  /** The part of read_one_scan after `export`. */
  ghost function PostProcess(sc: Scene, vertices: seq<Vertex>, donotcare: seq<int>, objClassIds: seq<int>,
                             maxNumPoint: Option<int>, draw: (nat, nat) -> seq<nat>): Result<ScanData>
    requires DrawsValid(draw)
  {
    match FilterDoNotCare(Scan(vertices, sc.labelIds, sc.instanceIds), donotcare)
    case Err(e) => Err(e)
    case Ok(f) =>
      var choices := if Draws(f, maxNumPoint) && maxNumPoint.value > 0 then draw(|f.vertices|, maxNumPoint.value) else [];
      match Subsample(f, maxNumPoint, choices)
      case Err(e) => Err(e)
      case Ok(t) =>
        Ok(ScanData(t.vertices, RemapAll(t.semantic), t.instance, FilterBoxes(sc.boxes, objClassIds)))
  }

  /** read_one_scan (Scannet, scannet.py) from the parsed files of one scan. */
  method ReadOneScan<L(==)>(groups: seq<SegGroup<L>>, segIndices: seq<int>, labelMap: map<L, int>, vertices: seq<Vertex>,
                            donotcare: seq<int>, objClassIds: seq<int>, maxNumPoint: Option<int>, draw: (nat, nat) -> seq<nat>)
    returns (r: Result<ScanData>)
    requires DrawsValid(draw)
    ensures r == ScanOf(groups, segIndices, labelMap, vertices, donotcare, objClassIds, maxNumPoint, draw)
  {
    var scene := ExportScene(groups, segIndices, labelMap, Positions(vertices));
    if scene.Err? {
      return Err(scene.error);
    }
    var sc := scene.value;
    var filtered := FilterDoNotCare(Scan(vertices, sc.labelIds, sc.instanceIds), donotcare);
    if filtered.Err? {
      return Err(filtered.error);
    }
    var f := filtered.value;
    var boxes := FilterBoxes(sc.boxes, objClassIds);
    var choices := if Draws(f, maxNumPoint) && maxNumPoint.value > 0 then draw(|f.vertices|, maxNumPoint.value) else [];
    var sub := Subsample(f, maxNumPoint, choices);
    if sub.Err? {
      return Err(sub.error);
    }
    var t := sub.value;
    var labels := RemapSeq(t.semantic);
    return Ok(ScanData(t.vertices, labels, t.instance, boxes));
  }

  /** Post-processing labels that are nyu40 ids yields one dense training label 0 .. 19
      or IGNORE_LABEL per remaining vertex. */
  lemma PostProcessLabelsRange(sc: Scene, vertices: seq<Vertex>, donotcare: seq<int>, objClassIds: seq<int>,
                               maxNumPoint: Option<int>, draw: (nat, nat) -> seq<nat>)
    requires DrawsValid(draw)
    requires forall v :: 0 <= v < |sc.labelIds| ==> 0 <= sc.labelIds[v] <= MAX_CLASS_ID
    requires PostProcess(sc, vertices, donotcare, objClassIds, maxNumPoint, draw).Ok?
    ensures var d := PostProcess(sc, vertices, donotcare, objClassIds, maxNumPoint, draw).value;
      && |d.labels| == |d.vertices| == |d.instances|
      && forall k :: 0 <= k < |d.labels| ==> (0 <= d.labels[k] < |VALID_CLASS_IDS| || d.labels[k] == IGNORE_LABEL)
  {
    var f := FilterDoNotCare(Scan(vertices, sc.labelIds, sc.instanceIds), donotcare).value;
    var choices := if Draws(f, maxNumPoint) && maxNumPoint.value > 0 then draw(|f.vertices|, maxNumPoint.value) else [];
    var t := Subsample(f, maxNumPoint, choices).value;
    FilterDoNotCareSpec(Scan(vertices, sc.labelIds, sc.instanceIds), donotcare);
    SubsampleSpec(f, maxNumPoint, choices);
    assert forall k :: 0 <= k < |t.semantic| ==> 0 <= t.semantic[k] <= MAX_CLASS_ID;
    forall k | 0 <= k < |t.semantic| ensures 0 <= Remap(t.semantic[k]) < |VALID_CLASS_IDS| || Remap(t.semantic[k]) == IGNORE_LABEL {
      RemapRange(t.semantic[k]);
    }
  }

  /** With nyu40 ids (0 ..= 40) in the label mapping, every label read_one_scan returns is
      a dense training label 0 .. 19 or IGNORE_LABEL, one per remaining vertex. */
  lemma ScanLabelsRange<L>(groups: seq<SegGroup<L>>, segIndices: seq<int>, labelMap: map<L, int>, vertices: seq<Vertex>,
                           donotcare: seq<int>, objClassIds: seq<int>, maxNumPoint: Option<int>, draw: (nat, nat) -> seq<nat>)
    requires DrawsValid(draw)
    requires forall l :: l in labelMap ==> 0 <= labelMap[l] <= MAX_CLASS_ID
    requires ScanOf(groups, segIndices, labelMap, vertices, donotcare, objClassIds, maxNumPoint, draw).Ok?
    ensures var d := ScanOf(groups, segIndices, labelMap, vertices, donotcare, objClassIds, maxNumPoint, draw).value;
      && |d.labels| == |d.vertices| == |d.instances|
      && forall k :: 0 <= k < |d.labels| ==> (0 <= d.labels[k] < |VALID_CLASS_IDS| || d.labels[k] == IGNORE_LABEL)
  {
    var sc := ExportOf(groups, segIndices, labelMap, Positions(vertices)).value;
    forall v | 0 <= v < |sc.labelIds| ensures 0 <= sc.labelIds[v] <= MAX_CLASS_ID {
      ExportLabelValues(groups, segIndices, labelMap, Positions(vertices), v);
    }
    PostProcessLabelsRange(sc, vertices, donotcare, objClassIds, maxNumPoint, draw);
  }
}
