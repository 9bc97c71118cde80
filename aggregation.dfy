/** read_aggregation: grouping the object annotations of a scan by object id and by label.

    Python lists are mutable objects shared by reference, and read_aggregation relies on
    that: on the first sight of a label it stores the group's own `segments` list under the
    label, and later groups with that label `extend` that same list, so the first object of
    each label sees the whole concatenation. The model makes list identity explicit: the
    list parsed from segGroups[j] has identity j, `lists[j]` is its current content, and
    both dicts map their keys to identities.

    Labels are the raw category names of the annotation file; the model only compares
    them for equality, so it is stated for any label type L. */
module Aggregation {
  import opened Seqs

  /** One entry of the aggregation file's `segGroups` array. */
  datatype SegGroup<L> = SegGroup(objectId: int, labelName: L, segments: seq<int>)

  /** object_id_to_segs and label_to_segs: the store of list contents, then for each dict
      its key order (Python dicts keep insertion order) and its key-to-list map. */
  datatype Aggregation<L(==)> = Aggregation(
    lists: seq<seq<int>>,
    objectIds: seq<int>,
    objectList: map<int, nat>,
    labels: seq<L>,
    labelList: map<L, nat>)

  /** Both dicts list each key once, in key order, and refer to lists in the store. */
  ghost predicate WellFormed<L>(agg: Aggregation<L>)
  {
    && Distinct(agg.objectIds)
    && Distinct(agg.labels)
    && (forall o :: o in agg.objectList ==> o in agg.objectIds)
    && (forall k :: 0 <= k < |agg.objectIds| ==> agg.objectIds[k] in agg.objectList)
    && (forall l :: l in agg.labelList ==> l in agg.labels)
    && (forall k :: 0 <= k < |agg.labels| ==> agg.labels[k] in agg.labelList)
    && (forall o :: o in agg.objectList ==> agg.objectList[o] < |agg.lists|)
    && (forall l :: l in agg.labelList ==> agg.labelList[l] < |agg.lists|)
  }

  /** object_id_to_segs[o]: the current content of the list stored under object o. */
  function ObjectSegs<L(==)>(agg: Aggregation<L>, o: int): seq<int>
    requires WellFormed(agg) && o in agg.objectList
  {
    agg.lists[agg.objectList[o]]
  }

  /** label_to_segs[l]: the current content of the list stored under label l. */
  function LabelSegs<L(==)>(agg: Aggregation<L>, l: L): seq<int>
    requires WellFormed(agg) && l in agg.labelList
  {
    agg.lists[agg.labelList[l]]
  }

  /** The dict key each group produces: its objectId shifted to be 1-based. */
  function ObjectIdsOf<L>(groups: seq<SegGroup<L>>): (ids: seq<int>)
    ensures |ids| == |groups|
  {
    seq(|groups|, j requires 0 <= j < |groups| => groups[j].objectId + 1)
  }

  function LabelsOf<L>(groups: seq<SegGroup<L>>): (ls: seq<L>)
    ensures |ls| == |groups|
  {
    seq(|groups|, j requires 0 <= j < |groups| => groups[j].labelName)
  }

  /** The segments of every group labelled l, in group order, concatenated without
      deduplication. */
  function LabelConcat<L(==)>(groups: seq<SegGroup<L>>, l: L): seq<int>
    decreases |groups|
  {
    if |groups| == 0 then []
    else
      var last := groups[|groups| - 1];
      LabelConcat(groups[..|groups| - 1], l) + (if last.labelName == l then last.segments else [])
  }

  /** Group j is the first group carrying its label. */
  predicate FirstOfLabel<L(==)>(groups: seq<SegGroup<L>>, j: nat)
    requires j < |groups|
  {
    var ls := LabelsOf(groups);
    assert ls[j] == groups[j].labelName;
    FirstIndexOf(ls, groups[j].labelName) == j
  }

  /** What read_aggregation returns for segGroups `groups`:
      - object keys are the distinct `objectId + 1` in first-occurrence order, each mapped to
        the list of the LAST group with that id (a later assignment replaces the value but
        keeps the key's place);
      - label keys are the distinct labels in first-occurrence order, each mapped to the list
        of the FIRST group with that label;
      - that first group's list has been extended by the segments of every later group with
        the same label; every other list is the group's own `segments`. */
  function AggregationOf<L(==)>(groups: seq<SegGroup<L>>): (agg: Aggregation<L>)
  {
    Aggregation(ListsOf(groups), Dedup(ObjectIdsOf(groups)), ObjectListOf(ObjectIdsOf(groups)),
                Dedup(LabelsOf(groups)), LabelListOf(LabelsOf(groups)))
  }

  /** The list store after the pass: each label's first list holds the concatenation. */
  function ListsOf<L(==)>(groups: seq<SegGroup<L>>): (lists: seq<seq<int>>)
    ensures |lists| == |groups|
  {
    seq(|groups|, j requires 0 <= j < |groups| =>
      if FirstOfLabel(groups, j) then LabelConcat(groups, groups[j].labelName) else groups[j].segments)
  }

  /** Each object key refers to the list of the last group with that key. */
  function ObjectListOf(ids: seq<int>): (m: map<int, nat>)
  {
    map o | o in ids :: LastIndexOf(ids, o)
  }

  /** Each label key refers to the list of the first group with that label. */
  function LabelListOf<L(==)>(ls: seq<L>): (m: map<L, nat>)
  {
    map l | l in ls :: FirstIndexOf(ls, l)
  }

  lemma ObjectIdsOfSnoc<L>(groups: seq<SegGroup<L>>, g: SegGroup<L>)
    ensures ObjectIdsOf(groups + [g]) == ObjectIdsOf(groups) + [g.objectId + 1]
  {
  }

  lemma LabelsOfSnoc<L>(groups: seq<SegGroup<L>>, g: SegGroup<L>)
    ensures LabelsOf(groups + [g]) == LabelsOf(groups) + [g.labelName]
  {
  }

  lemma LabelConcatSnoc<L>(groups: seq<SegGroup<L>>, g: SegGroup<L>, l: L)
    ensures LabelConcat(groups + [g], l) == LabelConcat(groups, l) + (if g.labelName == l then g.segments else [])
  {
    assert (groups + [g])[..|groups|] == groups;
  }

  /** A label no group carries has nothing concatenated under it. */
  lemma {:induction false} LabelConcatAbsent<L>(groups: seq<SegGroup<L>>, l: L)
    requires forall k :: 0 <= k < |groups| ==> groups[k].labelName != l
    ensures LabelConcat(groups, l) == []
    decreases |groups|
  {
    if |groups| > 0 {
      LabelConcatAbsent(groups[..|groups| - 1], l);
    }
  }

  /** `object_id_to_segs[o] = segs` at position |ids|: the key refers to the new list from
      now on, and every other key keeps its list. */
  lemma ObjectListSnoc(ids: seq<int>, o: int)
    ensures ObjectListOf(ids + [o]) == ObjectListOf(ids)[o := |ids|]
  {
    var m, m' := ObjectListOf(ids + [o]), ObjectListOf(ids)[o := |ids|];
    forall k ensures k in m <==> k in m' {
      assert k in ids + [o] <==> k in ids || k == o;
    }
    forall k | k in m ensures m[k] == m'[k] {
      if k == o {
        LastIndexOfUnique(ids + [o], k, |ids|);
      } else {
        LastIndexOfUnique(ids + [o], k, LastIndexOf(ids, k));
      }
    }
    assert m.Keys == m'.Keys;
  }

  /** A new label is stored with the list at position |ls|; a known one keeps its list. */
  lemma LabelListSnoc<L>(ls: seq<L>, l: L)
    ensures LabelListOf(ls + [l]) == if l in ls then LabelListOf(ls) else LabelListOf(ls)[l := |ls|]
  {
    var m := LabelListOf(ls + [l]);
    var m' := if l in ls then LabelListOf(ls) else LabelListOf(ls)[l := |ls|];
    forall k ensures k in m <==> k in m' {
      assert k in ls + [l] <==> k in ls || k == l;
    }
    forall k | k in m ensures m[k] == m'[k] {
      if k in ls {
        FirstIndexOfUnique(ls + [l], k, FirstIndexOf(ls, k));
      } else {
        FirstIndexOfUnique(ls + [l], k, |ls|);
      }
    }
    assert m.Keys == m'.Keys;
  }

  /** One more group whose label is already known: its list is new and untouched, and the
      list of the label's first group grows by its segments. */
  lemma ListsSnocKnown<L>(groups: seq<SegGroup<L>>, g: SegGroup<L>)
    requires g.labelName in LabelsOf(groups)
    ensures var first := FirstIndexOf(LabelsOf(groups), g.labelName);
      ListsOf(groups + [g]) == (ListsOf(groups) + [g.segments])[first := ListsOf(groups)[first] + g.segments]
  {
    var gs := groups + [g];
    var l := g.labelName;
    var ls := LabelsOf(groups);
    var first := FirstIndexOf(ls, l);
    LabelsOfSnoc(groups, g);
    assert gs[..|groups|] == groups;
    var r := (ListsOf(groups) + [g.segments])[first := ListsOf(groups)[first] + g.segments];
    forall j | 0 <= j < |gs| ensures ListsOf(gs)[j] == r[j] {
      LabelConcatSnoc(groups, g, gs[j].labelName);
      if j < |groups| {
        assert gs[j] == groups[j] && ls[j] == groups[j].labelName;
        FirstIndexOfUnique(ls + [l], groups[j].labelName, FirstIndexOf(ls, groups[j].labelName));
      } else {
        FirstIndexOfUnique(ls + [l], l, first);
      }
    }
  }

  /** One more group with a new label: its list is new, it is the label's first list and
      holds just its own segments. */
  lemma ListsSnocNew<L>(groups: seq<SegGroup<L>>, g: SegGroup<L>)
    requires g.labelName !in LabelsOf(groups)
    ensures ListsOf(groups + [g]) == ListsOf(groups) + [g.segments]
  {
    var gs := groups + [g];
    var l := g.labelName;
    var ls := LabelsOf(groups);
    LabelsOfSnoc(groups, g);
    assert gs[..|groups|] == groups;
    forall k | 0 <= k < |groups| ensures groups[k].labelName != l {
      assert ls[k] == groups[k].labelName;
    }
    LabelConcatAbsent(groups, l);
    forall j | 0 <= j < |gs| ensures ListsOf(gs)[j] == (ListsOf(groups) + [g.segments])[j] {
      LabelConcatSnoc(groups, g, gs[j].labelName);
      if j < |groups| {
        assert gs[j] == groups[j] && ls[j] == groups[j].labelName;
        FirstIndexOfUnique(ls + [l], groups[j].labelName, FirstIndexOf(ls, groups[j].labelName));
      } else {
        FirstIndexOfUnique(ls + [l], l, |groups|);
      }
    }
  }

  /** The effect of one loop iteration of read_aggregation on the whole result: what the
      first i + 1 groups produce, stated in terms of what the first i produced. */
  lemma AggregationSnoc<L>(groups: seq<SegGroup<L>>, g: SegGroup<L>)
    ensures var agg := AggregationOf(groups);
      var o, l, n := g.objectId + 1, g.labelName, |groups|;
      && (l in agg.labelList ==> agg.labelList[l] < n)
      && AggregationOf(groups + [g]) == Aggregation(
           var lists := agg.lists + [g.segments];
           if l in agg.labelList then lists[agg.labelList[l] := lists[agg.labelList[l]] + g.segments] else lists,
           if o in agg.objectList then agg.objectIds else agg.objectIds + [o],
           agg.objectList[o := n],
           if l in agg.labelList then agg.labels else agg.labels + [l],
           if l in agg.labelList then agg.labelList else agg.labelList[l := n])
  {
    var ids, ls := ObjectIdsOf(groups), LabelsOf(groups);
    ObjectIdsOfSnoc(groups, g);
    LabelsOfSnoc(groups, g);
    DedupSnoc(ids, g.objectId + 1);
    DedupSnoc(ls, g.labelName);
    ObjectListSnoc(ids, g.objectId + 1);
    LabelListSnoc(ls, g.labelName);
    if g.labelName in ls {
      ListsSnocKnown(groups, g);
    } else {
      ListsSnocNew(groups, g);
    }
  }

  /** One iteration of read_aggregation's loop: the list of group g gets the next identity,
      is assigned to g's object key, and is either stored under g's label (a new label) or
      appended to the list already stored under it. */
  method AddGroup<L(==)>(agg: Aggregation<L>, g: SegGroup<L>, ghost done: seq<SegGroup<L>>) returns (next: Aggregation<L>)
    requires agg == AggregationOf(done)
    ensures next == AggregationOf(done + [g])
  {
    AggregationSnoc(done, g);
    var objectId := g.objectId + 1;
    var name := g.labelName;
    var i := |agg.lists|;
    // segs = segGroups[i]["segments"]: the list with identity i
    var lists := agg.lists + [g.segments];
    var objectIds, labels, labelList := agg.objectIds, agg.labels, agg.labelList;
    // object_id_to_segs[object_id] = segs
    if objectId !in agg.objectList {
      objectIds := objectIds + [objectId];
    }
    var objectList := agg.objectList[objectId := i];
    if name in labelList {
      // label_to_segs[label].extend(segs): grows the list of the label's first group
      var first := labelList[name];
      lists := lists[first := lists[first] + g.segments];
    } else {
      // label_to_segs[label] = segs: the very list object stored for this object id
      labels := labels + [name];
      labelList := labelList[name := i];
    }
    next := Aggregation(lists, objectIds, objectList, labels, labelList);
  }

  /** read_aggregation (scannet.py): one pass over segGroups, adding one group at a time. */
  method ReadAggregation<L(==)>(groups: seq<SegGroup<L>>) returns (agg: Aggregation<L>)
    ensures agg == AggregationOf(groups)
  {
    agg := Aggregation([], [], map[], [], map[]);
    assert agg == AggregationOf(groups[..0]);
    var i := 0;
    while i < |groups|
      invariant 0 <= i <= |groups|
      invariant agg == AggregationOf(groups[..i])
    {
      assert groups[..i + 1] == groups[..i] + [groups[i]];
      agg := AddGroup(agg, groups[i], groups[..i]);
      i := i + 1;
    }
    assert groups[..i] == groups;
  }

  /** A segment is in the concatenation for l exactly when some group labelled l lists it. */
  lemma {:induction false} LabelConcatMembers<L>(groups: seq<SegGroup<L>>, l: L, s: int)
    ensures s in LabelConcat(groups, l) <==>
      exists j :: 0 <= j < |groups| && groups[j].labelName == l && s in groups[j].segments
    decreases |groups|
  {
    if |groups| > 0 {
      var n := |groups| - 1;
      var p := groups[..n];
      LabelConcatMembers(p, l, s);
      if s in LabelConcat(groups, l) && s !in LabelConcat(p, l) {
        assert groups[n].labelName == l && s in groups[n].segments;
      }
      if j :| 0 <= j < |groups| && groups[j].labelName == l && s in groups[j].segments {
        if j < n {
          assert p[j] == groups[j];
        }
      }
    }
  }

  /** What read_aggregation returns is well formed: both dicts have distinct keys in key
      order and refer to lists in the store. */
  lemma AggregationWellFormed<L>(groups: seq<SegGroup<L>>)
    ensures WellFormed(AggregationOf(groups))
  {
    DedupMembers(ObjectIdsOf(groups));
    DedupMembers(LabelsOf(groups));
  }

  /** Group j yields the object key objectId + 1, and these are exactly the object keys. */
  lemma ObjectKeys<L>(groups: seq<SegGroup<L>>, o: int)
    ensures o in AggregationOf(groups).objectList <==>
      exists j :: 0 <= j < |groups| && groups[j].objectId + 1 == o
  {
    var ids := ObjectIdsOf(groups);
    assert AggregationOf(groups).objectList == ObjectListOf(ids);
    if o in ids {
      var j :| 0 <= j < |ids| && ids[j] == o;
      assert groups[j].objectId + 1 == o;
    }
    if j :| 0 <= j < |groups| && groups[j].objectId + 1 == o {
      assert ids[j] == o;
    }
  }

  /** Object key o refers to the list of the last group with key o. */
  lemma ObjectListLast<L>(groups: seq<SegGroup<L>>, o: int)
    requires o in AggregationOf(groups).objectList
    ensures var j := AggregationOf(groups).objectList[o];
      && j < |groups| && groups[j].objectId + 1 == o
      && (forall k :: j < k < |groups| ==> groups[k].objectId + 1 != o)
  {
    var agg := AggregationOf(groups);
    var ids := ObjectIdsOf(groups);
    assert agg.objectList == ObjectListOf(ids);
    var j := LastIndexOf(ids, o);
    assert agg.objectList[o] == j;
    assert groups[j].objectId + 1 == ids[j];
    forall k | j < k < |groups| ensures groups[k].objectId + 1 != o {
      assert ids[k] == groups[k].objectId + 1;
    }
  }

  /** After the pass, list j is group j's own segments, or, when group j is the first of
      its label, the whole concatenation of that label. */
  lemma ListOfGroup<L>(groups: seq<SegGroup<L>>, j: nat)
    requires j < |groups|
    ensures AggregationOf(groups).lists[j] ==
      if FirstOfLabel(groups, j) then LabelConcat(groups, groups[j].labelName) else groups[j].segments
  {
  }

  /** The list read_aggregation shares between both dicts: the label dict refers to the
      list of each label's first group, which holds the whole concatenation of that label,
      and the object dict refers to the list of the last group of each object; when one
      group is both, the two dicts reach the same list. A group that is not the first of
      its label keeps its own segments. */
  lemma ListsAliased<L>(groups: seq<SegGroup<L>>, j: nat)
    requires j < |groups|
    ensures var agg, l := AggregationOf(groups), groups[j].labelName;
      FirstOfLabel(groups, j) ==>
        && l in agg.labelList && agg.labelList[l] == j && agg.lists[j] == LabelConcat(groups, l)
    ensures var agg, o := AggregationOf(groups), groups[j].objectId + 1;
      (forall k :: j < k < |groups| ==> groups[k].objectId != groups[j].objectId) ==>
        o in agg.objectList && agg.objectList[o] == j
    ensures var agg, o, l := AggregationOf(groups), groups[j].objectId + 1, groups[j].labelName;
      && FirstOfLabel(groups, j)
      && (forall k :: j < k < |groups| ==> groups[k].objectId != groups[j].objectId) ==>
        && WellFormed(agg) && o in agg.objectList && l in agg.labelList
        && ObjectSegs(agg, o) == LabelSegs(agg, l) == LabelConcat(groups, l)
    ensures !FirstOfLabel(groups, j) ==> AggregationOf(groups).lists[j] == groups[j].segments
  {
    var agg := AggregationOf(groups);
    var ids, ls := ObjectIdsOf(groups), LabelsOf(groups);
    ListOfGroup(groups, j);
    AggregationWellFormed(groups);
    assert ls[j] == groups[j].labelName;
    assert ids[j] == groups[j].objectId + 1;
    if forall k :: j < k < |groups| ==> groups[k].objectId != groups[j].objectId {
      forall k | j < k < |ids| ensures ids[k] != ids[j] {
        assert ids[k] == groups[k].objectId + 1;
      }
      LastIndexOfUnique(ids, ids[j], j);
    }
  }

  /** List j holds group j's own segments, and any other segment it holds belongs to a
      later group: a group's list is extended only by groups that come after it. */
  lemma ListMembers<L>(groups: seq<SegGroup<L>>, j: nat, s: int)
    requires j < |groups|
    ensures s in groups[j].segments ==> s in AggregationOf(groups).lists[j]
    ensures s in AggregationOf(groups).lists[j] ==> exists i :: j <= i < |groups| && s in groups[i].segments
  {
    var l := groups[j].labelName;
    ListOfGroup(groups, j);
    if FirstOfLabel(groups, j) {
      LabelConcatMembers(groups, l, s);
      if s in AggregationOf(groups).lists[j] {
        var i :| 0 <= i < |groups| && groups[i].labelName == l && s in groups[i].segments;
        var ls := LabelsOf(groups);
        assert ls[i] == l;
      }
    }
  }

  /** The concatenation over a prefix of the groups is a prefix of the whole one. */
  lemma {:induction false} LabelConcatPrefix<L>(groups: seq<SegGroup<L>>, m: nat, l: L)
    requires m <= |groups|
    ensures var c, p := LabelConcat(groups, l), LabelConcat(groups[..m], l);
      |p| <= |c| && c[..|p|] == p
    decreases |groups| - m
  {
    if m < |groups| {
      LabelConcatPrefix(groups, m + 1, l);
      LabelConcatSnoc(groups[..m], groups[m], l);
      assert groups[..m] + [groups[m]] == groups[..m + 1];
    } else {
      assert groups[..m] == groups;
    }
  }

  /** List j starts with group j's own segments: an extend only appends. */
  lemma ListStartsWithOwn<L>(groups: seq<SegGroup<L>>, j: nat)
    requires j < |groups|
    ensures var own, list := groups[j].segments, AggregationOf(groups).lists[j];
      |own| <= |list| && list[..|own|] == own
  {
    var l := groups[j].labelName;
    ListOfGroup(groups, j);
    if FirstOfLabel(groups, j) {
      var ls := LabelsOf(groups);
      forall k | 0 <= k < j ensures groups[k].labelName != l {
        assert ls[k] == groups[k].labelName;
      }
      FirstOwnConcat(groups, j);
      LabelConcatPrefix(groups, j + 1, l);
    }
  }

  /** Up to the first group of a label, the label's concatenation is that group's own
      segments. */
  lemma FirstOwnConcat<L>(groups: seq<SegGroup<L>>, j: nat)
    requires j < |groups|
    requires forall k :: 0 <= k < j ==> groups[k].labelName != groups[j].labelName
    ensures LabelConcat(groups[..j + 1], groups[j].labelName) == groups[j].segments
  {
    var l := groups[j].labelName;
    var p := groups[..j];
    assert forall k :: 0 <= k < |p| ==> p[k].labelName != l;
    LabelConcatAbsent(p, l);
    LabelConcatSnoc(p, groups[j], l);
    assert p + [groups[j]] == groups[..j + 1];
  }

  /** The labels are exactly those some group carries; the list of label l is that of the
      first group labelled l and holds the segments of every group labelled l, in order. */
  lemma LabelSegsConcat<L>(groups: seq<SegGroup<L>>, l: L)
    ensures l in AggregationOf(groups).labelList <==> exists j :: 0 <= j < |groups| && groups[j].labelName == l
    ensures l in AggregationOf(groups).labelList ==>
      var agg, j := AggregationOf(groups), AggregationOf(groups).labelList[l];
      && j < |groups| && groups[j].labelName == l
      && (forall k :: 0 <= k < j ==> groups[k].labelName != l)
      && agg.lists[j] == LabelConcat(groups, l)
  {
    var ls := LabelsOf(groups);
    if l in ls {
      var j := FirstIndexOf(ls, l);
      assert groups[j].labelName == l;
      assert FirstOfLabel(groups, j);
      forall k | 0 <= k < j ensures groups[k].labelName != l {
        assert ls[k] == groups[k].labelName;
      }
    }
    if j :| 0 <= j < |groups| && groups[j].labelName == l {
      assert ls[j] == l;
    }
  }

  /** The list store of a single group holds just that group's segments. */
  lemma SingleGroupLists<L>(g: SegGroup<L>)
    ensures ListsOf([g]) == [g.segments]
  {
    var gs := [g];
    assert LabelsOf(gs) == [g.labelName];
    assert FirstOfLabel(gs, 0);
    assert LabelConcat(gs, g.labelName) == LabelConcat([], g.labelName) + g.segments by {
      assert gs[..0] == [];
    }
    assert ListsOf(gs)[0] == g.segments;
  }

  /** The aggregation of a single group. */
  lemma SingleGroup<L>(g: SegGroup<L>)
    ensures AggregationOf([g]) ==
      Aggregation([g.segments], [g.objectId + 1], map[g.objectId + 1 := 0], [g.labelName], map[g.labelName := 0])
  {
    SingleGroupLists(g);
    SingleGroupObjects(g);
    SingleGroupLabels(g);
  }

  /** The object key order and key map of a single group. */
  lemma SingleGroupObjects<L>(g: SegGroup<L>)
    ensures Dedup(ObjectIdsOf([g])) == [g.objectId + 1]
    ensures ObjectListOf(ObjectIdsOf([g])) == map[g.objectId + 1 := 0]
  {
    var empty: seq<int> := [];
    assert ObjectIdsOf([g]) == empty + [g.objectId + 1];
    DedupDistinct([g.objectId + 1]);
    ObjectListSnoc(empty, g.objectId + 1);
    assert ObjectListOf(empty) == map[];
  }

  /** The label key order and key map of a single group. */
  lemma SingleGroupLabels<L>(g: SegGroup<L>)
    ensures Dedup(LabelsOf([g])) == [g.labelName]
    ensures LabelListOf(LabelsOf([g])) == map[g.labelName := 0]
  {
    var empty: seq<L> := [];
    assert LabelsOf([g]) == empty + [g.labelName];
    DedupDistinct([g.labelName]);
    LabelListSnoc(empty, g.labelName);
    assert LabelListOf(empty) == map[];
  }

  /** Aliasing in a concrete case: two objects with objectIds 0 and 1 and the same label l
      (say "chair"). The first object's list is the one stored under l, so the second
      object's extend reaches it. */
  lemma AliasingExample<L>(l: L)
    ensures AggregationOf([SegGroup(0, l, [7]), SegGroup(1, l, [8])]) ==
      Aggregation([[7, 8], [8]], [1, 2], map[1 := 0, 2 := 1], [l], map[l := 0])
  {
    AliasingLists(l);
    AliasingObjects(l);
    AliasingLabels(l);
  }

  /** The list store of the example: the first chair's list was extended. */
  lemma AliasingLists<L>(l: L)
    ensures ListsOf([SegGroup(0, l, [7]), SegGroup(1, l, [8])]) == [[7, 8], [8]]
  {
    var g0, g1 := SegGroup(0, l, [7]), SegGroup(1, l, [8]);
    var gs := [g0, g1];
    assert LabelsOf(gs) == [l, l];
    assert FirstIndexOf([l, l], l) == 0;
    assert FirstOfLabel(gs, 0) && !FirstOfLabel(gs, 1);
    assert LabelConcat(gs, l) == [7, 8] by {
      assert gs[..1] == [g0];
      assert [g0][..0] == [];
      assert LabelConcat([g0], l) == [7];
    }
  }

  /** The object keys of the example. */
  lemma AliasingObjects<L>(l: L)
    ensures var ids := ObjectIdsOf([SegGroup(0, l, [7]), SegGroup(1, l, [8])]);
      Dedup(ids) == [1, 2] && ObjectListOf(ids) == map[1 := 0, 2 := 1]
  {
    var empty: seq<int> := [];
    assert ObjectIdsOf([SegGroup(0, l, [7]), SegGroup(1, l, [8])]) == [1, 2];
    assert Distinct([1, 2]);
    DedupDistinct([1, 2]);
    ObjectListSnoc(empty, 1);
    assert empty + [1] == [1];
    assert ObjectListOf(empty) == map[];
    ObjectListSnoc([1], 2);
    assert [1] + [2] == [1, 2];
  }

  /** The label keys of the example: one label, bound to the first chair's list. */
  lemma AliasingLabels<L>(l: L)
    ensures var ls := LabelsOf([SegGroup(0, l, [7]), SegGroup(1, l, [8])]);
      Dedup(ls) == [l] && LabelListOf(ls) == map[l := 0]
  {
    var empty: seq<L> := [];
    assert LabelsOf([SegGroup(0, l, [7]), SegGroup(1, l, [8])]) == [l] + [l];
    DedupSnoc(empty, l);
    assert empty + [l] == [l];
    DedupSnoc([l], l);
    LabelListSnoc(empty, l);
    assert LabelListOf(empty) == map[];
    LabelListSnoc([l], l);
  }

  /** In that case object 1 holds both chairs' segments, object 2 only its own. */
  lemma AliasingExampleSegs<L>(l: L)
    ensures var agg := AggregationOf([SegGroup(0, l, [7]), SegGroup(1, l, [8])]);
      && WellFormed(agg) && 1 in agg.objectList && 2 in agg.objectList && l in agg.labelList
      && ObjectSegs(agg, 1) == [7, 8]
      && ObjectSegs(agg, 2) == [8]
      && LabelSegs(agg, l) == [7, 8]
  {
    AliasingExample(l);
    AggregationWellFormed([SegGroup(0, l, [7]), SegGroup(1, l, [8])]);
  }
}
