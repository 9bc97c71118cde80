/** The bounding-box loop of `export`: one axis-aligned box per instance, stored in a
    zero-initialised table at row obj_id - 1 with Python's negative-index semantics. */
module Boxes {
  import opened Seqs
  import opened Results

  /** A vertex position (after axis alignment), in float64 in the source. */
  datatype Point = Point(x: real, y: real, z: real)

  /** One row of instance_bboxes: (cx, cy, cz, dx, dy, dz, label_id). */
  datatype Box = Box(center: Point, extent: Point, labelId: int)

  /** The all-zero row np.zeros leaves for an instance that is never written. */
  const ZeroBox: Box := Box(Point(0.0, 0.0, 0.0), Point(0.0, 0.0, 0.0), 0)

  function Coord(p: Point, axis: nat): real
    requires axis < 3
  {
    if axis == 0 then p.x else if axis == 1 then p.y else p.z
  }

  /** One coordinate column of a point cloud: obj_pc[:, axis]. */
  function Column(pc: seq<Point>, axis: nat): (c: seq<real>)
    requires axis < 3
    ensures |c| == |pc|
  {
    seq(|pc|, k requires 0 <= k < |pc| => Coord(pc[k], axis))
  }

  /** np.min of a non-empty column. */
  function MinOf(xs: seq<real>): real
    requires |xs| > 0
    decreases |xs|
  {
    if |xs| == 1 then xs[0]
    else
      var m := MinOf(xs[..|xs| - 1]);
      if xs[|xs| - 1] < m then xs[|xs| - 1] else m
  }

  /** np.max of a non-empty column. */
  function MaxOf(xs: seq<real>): real
    requires |xs| > 0
    decreases |xs|
  {
    if |xs| == 1 then xs[0]
    else
      var m := MaxOf(xs[..|xs| - 1]);
      if xs[|xs| - 1] > m then xs[|xs| - 1] else m
  }

  /** The minimum is an element of the column and no element is below it. */
  lemma {:induction false} MinOfIsMin(xs: seq<real>)
    requires |xs| > 0
    ensures exists k :: 0 <= k < |xs| && xs[k] == MinOf(xs)
    ensures forall k :: 0 <= k < |xs| ==> MinOf(xs) <= xs[k]
    decreases |xs|
  {
    if |xs| > 1 {
      var p := xs[..|xs| - 1];
      MinOfIsMin(p);
      assert forall k :: 0 <= k < |p| ==> p[k] == xs[k];
      var j :| 0 <= j < |p| && p[j] == MinOf(p);
      if MinOf(xs) == xs[|xs| - 1] {
        assert xs[|xs| - 1] == MinOf(xs);
      } else {
        assert xs[j] == MinOf(xs);
      }
    } else {
      assert xs[0] == MinOf(xs);
    }
  }

  /** The maximum is an element of the column and no element is above it. */
  lemma {:induction false} MaxOfIsMax(xs: seq<real>)
    requires |xs| > 0
    ensures exists k :: 0 <= k < |xs| && xs[k] == MaxOf(xs)
    ensures forall k :: 0 <= k < |xs| ==> xs[k] <= MaxOf(xs)
    decreases |xs|
  {
    if |xs| > 1 {
      var p := xs[..|xs| - 1];
      MaxOfIsMax(p);
      assert forall k :: 0 <= k < |p| ==> p[k] == xs[k];
      var j :| 0 <= j < |p| && p[j] == MaxOf(p);
      if MaxOf(xs) == xs[|xs| - 1] {
        assert xs[|xs| - 1] == MaxOf(xs);
      } else {
        assert xs[j] == MaxOf(xs);
      }
    } else {
      assert xs[0] == MaxOf(xs);
    }
  }

  /** (min + max) / 2 of one coordinate of a non-empty cloud. */
  function Center(pc: seq<Point>, axis: nat): real
    requires |pc| > 0 && axis < 3
  {
    (MinOf(Column(pc, axis)) + MaxOf(Column(pc, axis))) / 2.0
  }

  /** max - min of one coordinate of a non-empty cloud. */
  function Extent(pc: seq<Point>, axis: nat): real
    requires |pc| > 0 && axis < 3
  {
    MaxOf(Column(pc, axis)) - MinOf(Column(pc, axis))
  }

  /** The box of a non-empty point cloud: centre and extent on each axis, with the
      instance's label id. */
  function BoxOf(pc: seq<Point>, labelId: int): Box
    requires |pc| > 0
  {
    Box(Point(Center(pc, 0), Center(pc, 1), Center(pc, 2)), Point(Extent(pc, 0), Extent(pc, 1), Extent(pc, 2)), labelId)
  }

  /** Every entry of a column lies between its minimum and its maximum. */
  lemma ColumnBounds(pc: seq<Point>, axis: nat)
    requires |pc| > 0 && axis < 3
    ensures forall k :: 0 <= k < |pc| ==> MinOf(Column(pc, axis)) <= Coord(pc[k], axis) <= MaxOf(Column(pc, axis))
    ensures exists k :: 0 <= k < |pc| && Coord(pc[k], axis) == MinOf(Column(pc, axis))
    ensures exists k :: 0 <= k < |pc| && Coord(pc[k], axis) == MaxOf(Column(pc, axis))
  {
    var col := Column(pc, axis);
    MinOfIsMin(col);
    MaxOfIsMax(col);
    assert forall k :: 0 <= k < |pc| ==> col[k] == Coord(pc[k], axis);
    var i :| 0 <= i < |col| && col[i] == MinOf(col);
    var j :| 0 <= j < |col| && col[j] == MaxOf(col);
  }

  /** The box is the tightest axis-aligned box around the cloud: its extents are
      non-negative, every point lies within centre +- extent / 2, and on each axis some
      point touches each face. */
  lemma BoxBounds(pc: seq<Point>, labelId: int, axis: nat)
    requires |pc| > 0 && axis < 3
    ensures BoxOf(pc, labelId).labelId == labelId
    ensures Coord(BoxOf(pc, labelId).extent, axis) >= 0.0
    ensures var c, e := Coord(BoxOf(pc, labelId).center, axis), Coord(BoxOf(pc, labelId).extent, axis);
      forall k :: 0 <= k < |pc| ==> c - e / 2.0 <= Coord(pc[k], axis) <= c + e / 2.0
    ensures var c, e := Coord(BoxOf(pc, labelId).center, axis), Coord(BoxOf(pc, labelId).extent, axis);
      (exists k :: 0 <= k < |pc| && Coord(pc[k], axis) == c - e / 2.0) &&
      (exists k :: 0 <= k < |pc| && Coord(pc[k], axis) == c + e / 2.0)
  {
    var lo, hi := MinOf(Column(pc, axis)), MaxOf(Column(pc, axis));
    assert Coord(BoxOf(pc, labelId).center, axis) == Center(pc, axis) == (lo + hi) / 2.0;
    assert Coord(BoxOf(pc, labelId).extent, axis) == Extent(pc, axis) == hi - lo;
    assert (lo + hi) / 2.0 - (hi - lo) / 2.0 == lo && (lo + hi) / 2.0 + (hi - lo) / 2.0 == hi;
    ColumnBounds(pc, axis);
  }

  /** obj_pc = mesh_vertices[instance_ids == obj_id, 0:3]: the points, in vertex order,
      whose instance id equals the object id exactly. */
  function PointsOf(pts: seq<Point>, ids: seq<int>, o: int): (pc: seq<Point>)
    requires |pts| == |ids|
    decreases |pts|
  {
    if |pts| == 0 then []
    else
      var n := |pts| - 1;
      PointsOf(pts[..n], ids[..n], o) + (if ids[n] == o then [pts[n]] else [])
  }

  /** The cloud of an object is empty exactly when no vertex carries its id, each of its
      points is the position of a vertex that does, and the position of every vertex
      that does is in it. */
  lemma PointsOfMembers(pts: seq<Point>, ids: seq<int>, o: int)
    requires |pts| == |ids|
    ensures |PointsOf(pts, ids, o)| == 0 <==> o !in ids
    ensures forall k :: 0 <= k < |PointsOf(pts, ids, o)| ==>
      exists v :: 0 <= v < |ids| && ids[v] == o && PointsOf(pts, ids, o)[k] == pts[v]
    ensures forall v :: 0 <= v < |ids| && ids[v] == o ==> pts[v] in PointsOf(pts, ids, o)
  {
    PointsOfSound(pts, ids, o);
    PointsOfComplete(pts, ids, o);
  }

  /** The emptiness and soundness halves of PointsOfMembers. */
  lemma {:induction false} PointsOfSound(pts: seq<Point>, ids: seq<int>, o: int)
    requires |pts| == |ids|
    ensures |PointsOf(pts, ids, o)| == 0 <==> o !in ids
    ensures forall k :: 0 <= k < |PointsOf(pts, ids, o)| ==>
      exists v :: 0 <= v < |ids| && ids[v] == o && PointsOf(pts, ids, o)[k] == pts[v]
    decreases |pts|
  {
    if |pts| > 0 {
      var n := |pts| - 1;
      var ps, qs := pts[..n], ids[..n];
      PointsOfSound(ps, qs, o);
      assert forall v :: 0 <= v < n ==> qs[v] == ids[v] && ps[v] == pts[v];
      if o in ids {
        var v :| 0 <= v < |ids| && ids[v] == o;
        if v < n {
          assert o in qs;
        }
      }
      if o in qs {
        var v :| 0 <= v < n && qs[v] == o;
        assert ids[v] == o;
      }
    }
  }

  /** Every vertex carrying the object id contributes its position to the cloud. */
  lemma {:induction false} PointsOfComplete(pts: seq<Point>, ids: seq<int>, o: int)
    requires |pts| == |ids|
    ensures forall v :: 0 <= v < |ids| && ids[v] == o ==> pts[v] in PointsOf(pts, ids, o)
    decreases |pts|
  {
    if |pts| > 0 {
      var n := |pts| - 1;
      var ps, qs := pts[..n], ids[..n];
      PointsOfComplete(ps, qs, o);
      forall v | 0 <= v < |ids| && ids[v] == o ensures pts[v] in PointsOf(pts, ids, o) {
        if v < n {
          assert qs[v] == ids[v] && ps[v] == pts[v];
        }
      }
    }
  }

  /** The row a Python index selects in a table of n rows (negative indices count from
      the end), or None when `instance_bboxes[idx]` raises IndexError. */
  function RowOf(idx: int, n: nat): (r: Option<nat>)
    ensures r.Some? <==> 0 <= idx + n && idx < n
    ensures r.Some? ==> r.value < n && (r.value == idx || r.value == idx + n)
  {
    if idx + n < 0 || idx >= n then None
    else if idx < 0 then Some(idx + n) else Some(idx)
  }

  /** The row the source means for object o: its box, or zeros when no vertex carries its id. */
  function InstanceBox(pts: seq<Point>, ids: seq<int>, objLabel: map<int, int>, o: int): Box
    requires |pts| == |ids| && o in objLabel
  {
    var pc := PointsOf(pts, ids, o);
    if |pc| == 0 then ZeroBox else BoxOf(pc, objLabel[o])
  }

  /** The error the iteration for object o raises, if any: a KeyError for an object
      without a label id, an IndexError when the instance mask and the vertex table
      differ in length, an IndexError when the object has points but its row index
      lies outside the table. */
  function StepError(o: int, pts: seq<Point>, ids: seq<int>, objLabel: map<int, int>, n: nat): Option<Error>
  {
    if o !in objLabel then Some(KeyError)
    else if |pts| != |ids| then Some(IndexError)
    else if |PointsOf(pts, ids, o)| > 0 && RowOf(o - 1, n).None? then Some(IndexError)
    else None
  }

  /** The table after a successful iteration for o: its box written into its row, and
      nothing written for an object without points. */
  function Place(rows: seq<Box>, o: int, pts: seq<Point>, ids: seq<int>, objLabel: map<int, int>): (r: seq<Box>)
    requires StepError(o, pts, ids, objLabel, |rows|).None?
    ensures |r| == |rows|
  {
    if |PointsOf(pts, ids, o)| == 0 then rows
    else rows[RowOf(o - 1, |rows|).value := InstanceBox(pts, ids, objLabel, o)]
  }

  /** The first error the box loop over keys raises, if any. */
  function FailureOf(keys: seq<int>, pts: seq<Point>, ids: seq<int>, objLabel: map<int, int>, n: nat): Option<Error>
    decreases |keys|
  {
    if |keys| == 0 then None
    else
      var f := FailureOf(keys[..|keys| - 1], pts, ids, objLabel, n);
      if f.Some? then f else StepError(keys[|keys| - 1], pts, ids, objLabel, n)
  }

  /** The table after the loop over keys ran without raising, from the all-zero table. */
  function RowsOf(keys: seq<int>, pts: seq<Point>, ids: seq<int>, objLabel: map<int, int>, n: nat): (rows: seq<Box>)
    requires FailureOf(keys, pts, ids, objLabel, n).None?
    ensures |rows| == n
    decreases |keys|
  {
    if |keys| == 0 then seq(n, _ => ZeroBox)
    else Place(RowsOf(keys[..|keys| - 1], pts, ids, objLabel, n), keys[|keys| - 1], pts, ids, objLabel)
  }

  /** instance_bboxes after the box loop over keys, or the first error it raised. */
  function BoxesOf(keys: seq<int>, pts: seq<Point>, ids: seq<int>, objLabel: map<int, int>, n: nat): (r: Result<seq<Box>>)
  {
    match FailureOf(keys, pts, ids, objLabel, n)
    case Some(e) => Err(e)
    case None => Ok(RowsOf(keys, pts, ids, objLabel, n))
  }

  lemma FailureSnoc(keys: seq<int>, o: int, pts: seq<Point>, ids: seq<int>, objLabel: map<int, int>, n: nat)
    ensures var f := FailureOf(keys, pts, ids, objLabel, n);
      FailureOf(keys + [o], pts, ids, objLabel, n) == if f.Some? then f else StepError(o, pts, ids, objLabel, n)
  {
    assert (keys + [o])[..|keys|] == keys;
  }

  lemma RowsSnoc(keys: seq<int>, o: int, pts: seq<Point>, ids: seq<int>, objLabel: map<int, int>, n: nat)
    requires FailureOf(keys + [o], pts, ids, objLabel, n).None?
    ensures FailureOf(keys, pts, ids, objLabel, n).None? && StepError(o, pts, ids, objLabel, n).None?
    ensures RowsOf(keys + [o], pts, ids, objLabel, n) == Place(RowsOf(keys, pts, ids, objLabel, n), o, pts, ids, objLabel)
  {
    assert (keys + [o])[..|keys|] == keys;
  }

  /** Once the loop has raised, later keys change nothing. */
  lemma {:induction false} FailureSticky(keys: seq<int>, k: nat, pts: seq<Point>, ids: seq<int>, objLabel: map<int, int>, n: nat)
    requires k <= |keys| && FailureOf(keys[..k], pts, ids, objLabel, n).Some?
    ensures FailureOf(keys, pts, ids, objLabel, n) == FailureOf(keys[..k], pts, ids, objLabel, n)
    decreases |keys|
  {
    if k < |keys| {
      var m := |keys| - 1;
      assert keys[..m][..k] == keys[..k];
      FailureSticky(keys[..m], k, pts, ids, objLabel, n);
    } else {
      assert keys[..k] == keys;
    }
  }

  /** Nothing in the box loop raises: every object has a label id, the instance mask
      matches the vertex table, and every object with points has a row. */
  predicate BoxesResolve(keys: seq<int>, pts: seq<Point>, ids: seq<int>, objLabel: map<int, int>, n: nat)
  {
    forall k :: 0 <= k < |keys| ==>
      keys[k] in objLabel && |pts| == |ids| && (|PointsOf(pts, ids, keys[k])| > 0 ==> RowOf(keys[k] - 1, n).Some?)
  }

  /** The box loop succeeds exactly when nothing in it raises. */
  lemma {:induction false} BoxesOk(keys: seq<int>, pts: seq<Point>, ids: seq<int>, objLabel: map<int, int>, n: nat)
    ensures BoxesOf(keys, pts, ids, objLabel, n).Ok? <==> BoxesResolve(keys, pts, ids, objLabel, n)
    decreases |keys|
  {
    if |keys| > 0 {
      var m := |keys| - 1;
      var p := keys[..m];
      assert forall k :: 0 <= k < m ==> p[k] == keys[k];
      BoxesOk(p, pts, ids, objLabel, n);
    }
  }

  /** A row that no object id names stays zero. */
  lemma {:induction false} RowUntouched(keys: seq<int>, pts: seq<Point>, ids: seq<int>, objLabel: map<int, int>, n: nat, row: nat)
    requires FailureOf(keys, pts, ids, objLabel, n).None?
    requires forall k :: 0 <= k < |keys| ==> 1 <= keys[k] <= n
    requires row < n && forall k :: 0 <= k < |keys| ==> keys[k] != row + 1
    ensures RowsOf(keys, pts, ids, objLabel, n)[row] == ZeroBox
    decreases |keys|
  {
    if |keys| > 0 {
      var m := |keys| - 1;
      var p := keys[..m];
      assert forall k :: 0 <= k < m ==> p[k] == keys[k];
      RowUntouched(p, pts, ids, objLabel, n, row);
    }
  }

  /** For an object o in 1..n, placing writes row o - 1 at most. */
  lemma PlaceRow(rows: seq<Box>, o: int, pts: seq<Point>, ids: seq<int>, objLabel: map<int, int>, row: nat)
    requires StepError(o, pts, ids, objLabel, |rows|).None?
    requires 1 <= o <= |rows| && row < |rows|
    ensures o in objLabel && |pts| == |ids|
    ensures Place(rows, o, pts, ids, objLabel)[row] ==
      if row == o - 1 && |PointsOf(pts, ids, o)| > 0 then InstanceBox(pts, ids, objLabel, o) else rows[row]
  {
    assert RowOf(o - 1, |rows|) == Some(o - 1);
  }

  /** When the object ids are distinct and lie in 1..n (what the source assumes), row
      o - 1 holds the box of object o: zeros when no vertex carries its id. */
  lemma {:induction false} RowOfKey(keys: seq<int>, pts: seq<Point>, ids: seq<int>, objLabel: map<int, int>, n: nat, k: nat)
    requires FailureOf(keys, pts, ids, objLabel, n).None?
    requires Distinct(keys) && forall j :: 0 <= j < |keys| ==> 1 <= keys[j] <= n
    requires k < |keys|
    ensures keys[k] in objLabel && |pts| == |ids|
    ensures RowsOf(keys, pts, ids, objLabel, n)[keys[k] - 1] == InstanceBox(pts, ids, objLabel, keys[k])
    decreases |keys|
  {
    var m := |keys| - 1;
    var p, o := keys[..m], keys[m];
    assert forall j :: 0 <= j < m ==> p[j] == keys[j];
    var rows := RowsOf(p, pts, ids, objLabel, n);
    assert RowsOf(keys, pts, ids, objLabel, n) == Place(rows, o, pts, ids, objLabel);
    PlaceRow(rows, o, pts, ids, objLabel, keys[k] - 1);
    if k < m {
      assert p[k] == keys[k] != o;
      RowOfKey(p, pts, ids, objLabel, n, k);
    } else {
      RowUntouched(p, pts, ids, objLabel, n, o - 1);
    }
  }

  /** The box table when the loop raises nothing: row o - 1 holds the box of each object
      o, and every other row is zero, provided the object ids are distinct and in 1..n. */
  lemma BoxesRows(keys: seq<int>, pts: seq<Point>, ids: seq<int>, objLabel: map<int, int>, n: nat)
    requires BoxesResolve(keys, pts, ids, objLabel, n)
    requires Distinct(keys) && forall j :: 0 <= j < |keys| ==> 1 <= keys[j] <= n
    ensures BoxesOf(keys, pts, ids, objLabel, n).Ok?
    ensures |BoxesOf(keys, pts, ids, objLabel, n).value| == n
    ensures forall k :: 0 <= k < |keys| ==> (keys[k] in objLabel && |pts| == |ids| &&
      BoxesOf(keys, pts, ids, objLabel, n).value[keys[k] - 1] == InstanceBox(pts, ids, objLabel, keys[k]))
    ensures forall row :: 0 <= row < n && row + 1 !in keys ==> BoxesOf(keys, pts, ids, objLabel, n).value[row] == ZeroBox
  {
    BoxesOk(keys, pts, ids, objLabel, n);
    forall k | 0 <= k < |keys|
      ensures keys[k] in objLabel && |pts| == |ids| &&
        BoxesOf(keys, pts, ids, objLabel, n).value[keys[k] - 1] == InstanceBox(pts, ids, objLabel, keys[k])
    {
      RowOfKey(keys, pts, ids, objLabel, n, k);
    }
    forall row | 0 <= row < n && row + 1 !in keys ensures BoxesOf(keys, pts, ids, objLabel, n).value[row] == ZeroBox {
      RowUntouched(keys, pts, ids, objLabel, n, row);
    }
  }

  /** One iteration of the box loop for object o, writing its row in place; the error
      it raises, if any. */
  method WriteBox(rows: array<Box>, o: int, pts: seq<Point>, ids: seq<int>, objLabel: map<int, int>)
    returns (err: Option<Error>)
    modifies rows
    ensures err == StepError(o, pts, ids, objLabel, rows.Length)
    ensures err.None? ==> rows[..] == Place(old(rows[..]), o, pts, ids, objLabel)
  {
    if o !in objLabel {
      return Some(KeyError);
    }
    var labelId := objLabel[o];
    if |pts| != |ids| {
      return Some(IndexError);
    }
    var pc := PointsOf(pts, ids, o);
    if |pc| == 0 {
      return None;
    }
    var idx := o - 1;
    if idx < -rows.Length || idx >= rows.Length {
      return Some(IndexError);
    }
    var row := if idx < 0 then idx + rows.Length else idx;
    rows[row] := BoxOf(pc, labelId);
    return None;
  }

  /** The box loop of `export`, over the keys of object_id_to_segs, writing rows of a
      zero-initialised table of numInstances rows in place. */
  method InstanceBoxes(keys: seq<int>, pts: seq<Point>, ids: seq<int>, objLabel: map<int, int>, numInstances: nat)
    returns (r: Result<seq<Box>>)
    ensures r == BoxesOf(keys, pts, ids, objLabel, numInstances)
  {
    var rows := new Box[numInstances](_ => ZeroBox);
    var k := 0;
    ghost var done: seq<int> := [];
    assert rows[..] == seq(numInstances, _ => ZeroBox);
    while k < |keys|
      invariant 0 <= k <= |keys| && done == keys[..k]
      invariant FailureOf(done, pts, ids, objLabel, numInstances).None?
      invariant RowsOf(done, pts, ids, objLabel, numInstances) == rows[..]
    {
      FailureSnoc(done, keys[k], pts, ids, objLabel, numInstances);
      var err := WriteBox(rows, keys[k], pts, ids, objLabel);
      assert keys[..k + 1] == done + [keys[k]];
      if err.Some? {
        FailureSticky(keys, k + 1, pts, ids, objLabel, numInstances);
        return Err(err.value);
      }
      RowsSnoc(done, keys[k], pts, ids, objLabel, numInstances);
      done := done + [keys[k]];
      k := k + 1;
    }
    assert done == keys;
    return Ok(rows[..]);
  }
}
