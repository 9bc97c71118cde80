# ScanNet annotation fusion, modelled in Dafny

This project models the part of the ScanNet dataset loader
(`src/datasets/segmentation/scannet.py`) that turns a scan's parsed annotation files
into training data. The steps follow the loader's own order:

- **`read_segmentation`** inverts the per-vertex `segIndices` of the over-segmentation
  into a map from segment id to the ascending list of its vertices. Module
  `Segmentation`.
- **`read_aggregation`** reads the annotated `segGroups`. It builds
  `object_id_to_segs`, whose keys are the 1-based object ids, and `label_to_segs`,
  which concatenates the segments of every group that has the label. On a label's
  first occurrence, the label's entry *is the same list object* as that first
  group's object entry, so every later `extend` also grows that object's list.
  Module `Aggregation`. Lists are identified by the group that created them, and
  both dictionaries refer to lists by identity.
- **`export`** works in three steps.
  - It paints per-vertex semantic labels and then instance ids into zero-initialised
    `uint32` arrays, last write wins. Module `Fusion`, on a real `array` per pass.
  - It records each object's label from the first vertex of its first segment,
    first write wins.
  - It computes one axis-aligned box per object, written to row `obj_id - 1`.
    Module `Boxes`, on an `array` of rows.
  - Module `Export` composes these steps. It relates the result back to the groups,
    segment indices and label map the caller passed in.
- **`Scannet.read_one_scan`**:
  - drops the vertices of the do-not-care classes, in lockstep across positions,
    labels and instance ids;
  - keeps the boxes of the object classes;
  - subsamples to a budget with a random draw;
  - remaps nyu40 ids to dense training labels `0 .. 19`, or `IGNORE_LABEL` (-100).
    This is done in place for `i = 0 ..= 40` against `VALID_CLASS_IDS`.
  Module `ScanProcessing`. It also proves that the sequential in-place remap equals a
  pointwise map.
- **The smaller pieces**:
  - choosing a processed file from a split name (module `Splits`);
  - validating requested download file types;
  - building a scan file's download URL and local name (module `Download`).

Shared vocabulary:

- Module `Results` holds the `Result`/`Option` types and the Python error kinds
  raised (`KeyError`, `IndexError`, `ValueError`).
- Module `Seqs` holds sequence helpers: distinctness, order-preserving selection,
  deduplication and index search.

Python dictionaries are modelled as an insertion-ordered key sequence next to a
Dafny `map`, because `export` depends on dictionary iteration order.

Inputs are values the model receives rather than files it reads:
- the `segGroups` of the aggregation file;
- the `segIndices` of the segmentation file;
- the raw-category → nyu40 mapping;
- the aligned vertex positions.

The random draw of `np.random.choice` is a function parameter. It is required to
return the kind of sample `choice(n, m, replace=False)` returns.

## Model

| member | source | states |
|---|---|---|
| Segmentation.ReadSegmentation | src/datasets/segmentation/scannet.py:218-230 | The loop returns num_verts = `|segIndices|` and exactly the segment-to-vertices map SegmentationOf(segIndices). |
| Segmentation.SegmentationMembers | src/datasets/segmentation/scannet.py:224-229 | Vertex v is in segment s's list iff v < num_verts and segIndices[v] == s. |
| Segmentation.SegmentationPartitions | src/datasets/segmentation/scannet.py:224-229 | Every vertex index is in its own segment's list and in no other segment's list. |
| Segmentation.SegmentationValid | src/datasets/segmentation/scannet.py:224-229 | Every list is non-empty, strictly ascending and holds only indices below num_verts. |
| Segmentation.SegmentVertsSorted | src/datasets/segmentation/scannet.py:226-229 | The vertices appended to a segment's list are in bounds and strictly ascending. |
| Segmentation.SegmentationSnoc | src/datasets/segmentation/scannet.py:226-229 | One more vertex appends its index to its segment's list, or starts that list as a singleton. |
| Aggregation.ReadAggregation | src/datasets/segmentation/scannet.py:199-215 | The loop over segGroups returns exactly AggregationOf(groups): both dictionaries, their key orders and the shared lists. |
| Aggregation.AddGroup | src/datasets/segmentation/scannet.py:207-214 | One iteration turns the aggregation of a prefix of the groups into the aggregation of that prefix plus one group. |
| Aggregation.AggregationSnoc | src/datasets/segmentation/scannet.py:210-214 | One group's effect: the object key is reassigned to the group's own list, a known label has that list appended to its first list, and a new label is bound to it. |
| Aggregation.AggregationWellFormed | src/datasets/segmentation/scannet.py:199-215 | The keys are distinct, each key maps to a list identity that exists, and the key sequences list exactly the map's keys. |
| Aggregation.ObjectKeys | src/datasets/segmentation/scannet.py:207-210 | The object keys are exactly the values objectId + 1 of the groups. |
| Aggregation.ObjectListLast | src/datasets/segmentation/scannet.py:210 | A repeated object key ends up with the list of its last group. |
| Aggregation.LabelSegsConcat | src/datasets/segmentation/scannet.py:211-214 | A label is a key iff some group has it. Its list is its first group's list and equals the concatenation, in group order and without deduplication, of the segments of all groups with that label. |
| Aggregation.LabelConcatMembers | src/datasets/segmentation/scannet.py:211-214 | A segment is in a label's concatenation iff some group with that label lists it. |
| Aggregation.ListsAliased | src/datasets/segmentation/scannet.py:206-214 | label_to_segs refers to the list of each label's first group, which holds the whole concatenation of that label; object_id_to_segs refers to the list of the last group of each object id. When one group is both, the two dicts reach the same list. Every group that is not first of its label keeps its own segments. |
| Aggregation.ListMembers | src/datasets/segmentation/scannet.py:210-214 | A group's final list contains its own segments. It contains only segments of that group or of later groups. |
| Aggregation.ListStartsWithOwn | src/datasets/segmentation/scannet.py:210-214 | A group's final list begins with its own segments. |
| Aggregation.LabelConcatPrefix | src/datasets/segmentation/scannet.py:212 | Extending a label's list only appends: the concatenation over a prefix of the groups is a prefix of the full one. |
| Aggregation.SingleGroup | src/datasets/segmentation/scannet.py:199-215 | A single group yields one object key objectId + 1 and one label, both bound to the group's list. |
| Aggregation.AliasingExample | src/datasets/segmentation/scannet.py:210-214 | Two groups with one label and segments [7] and [8]: object 1's list becomes [7, 8] and object 2's stays [8]. |
| Aggregation.AliasingExampleSegs | src/datasets/segmentation/scannet.py:210-214 | In that example, object 1's segments and the label's segments are both [7, 8]. |
| Fusion.U32 | src/datasets/segmentation/scannet.py:257 | A value stored in a uint32 array lies in [0, 2^32) and is congruent to the value written. Values already in range are unchanged. |
| Fusion.PaintSegs | src/datasets/segmentation/scannet.py:261-263 | Writing one value to the vertices of a list of segments succeeds iff every segment is a key of seg_to_verts. Covered vertices get the value; all others keep theirs. |
| Fusion.PaintSnoc | src/datasets/segmentation/scannet.py:259-263 | A later stroke overwrites exactly the vertices it covers. |
| Fusion.PaintUncovered | src/datasets/segmentation/scannet.py:257-263 | A vertex that no stroke covers keeps its initial 0. |
| Fusion.PaintLast | src/datasets/segmentation/scannet.py:257-263 | A covered vertex ends with the value of the last stroke that covers it. |
| Fusion.PaintValue | src/datasets/segmentation/scannet.py:257-263 | Every final value is 0 or the value of some stroke. |
| Fusion.FuseLabels | src/datasets/segmentation/scannet.py:257-263 | The label pass succeeds iff every label is in label_map and every segment is in seg_to_verts; otherwise it raises KeyError. On success it returns num_verts labels, each the painting of the label strokes. |
| Fusion.FuseInstances | src/datasets/segmentation/scannet.py:264-271 | The instance pass succeeds iff every segment is in seg_to_verts; otherwise it raises KeyError. On success the ids are the painting of the object strokes and object_id_to_label_id is ObjectLabelsOf. |
| Fusion.ObjectLabelsSnoc | src/datasets/segmentation/scannet.py:270-271 | An object's label is recorded from the first vertex of its first segment, and only if it has none yet. |
| Fusion.ObjectLabelsFirst | src/datasets/segmentation/scannet.py:266-271 | An object key has a label iff some entry for it has a segment. The label is taken from the first such entry. |
| Boxes.MinOfIsMin | src/datasets/segmentation/scannet.py:283-285 | np.min of a non-empty column is one of its elements and at most every element. |
| Boxes.MaxOfIsMax | src/datasets/segmentation/scannet.py:286-288 | np.max of a non-empty column is one of its elements and at least every element. |
| Boxes.ColumnBounds | src/datasets/segmentation/scannet.py:283-288 | Every point lies between the axis minimum and maximum, and both are attained. |
| Boxes.BoxBounds | src/datasets/segmentation/scannet.py:289-291 | A box's extent is at least 0. Centre ± extent/2 bounds every point and is attained on both sides. The box carries the label. |
| Boxes.PointsOfMembers | src/datasets/segmentation/scannet.py:275-277 | An object's point cloud is empty iff no vertex has its instance id. Every point in it belongs to a vertex with that id, and every vertex with that id contributes its point to it. |
| Boxes.RowOf | src/datasets/segmentation/scannet.py:293 | A Python row index into n rows is valid iff -n <= idx < n. It selects idx, or idx + n when idx is negative. |
| Boxes.BoxesOk | src/datasets/segmentation/scannet.py:272-293 | The box loop succeeds iff every key has a label, the points match the vertices, and every key with points has a valid row obj_id - 1. |
| Boxes.FailureSticky | src/datasets/segmentation/scannet.py:273-293 | The first error raised by the box loop is the one reported. |
| Boxes.RowUntouched | src/datasets/segmentation/scannet.py:272 | A row that no key in 1..num_instances addresses stays a zero row. |
| Boxes.PlaceRow | src/datasets/segmentation/scannet.py:276-293 | One iteration writes row obj_id - 1 when the object has points, and leaves it unchanged when it has none. |
| Boxes.RowOfKey | src/datasets/segmentation/scannet.py:272-293 | With distinct keys in 1..n, row key - 1 ends as that key's box. |
| Boxes.BoxesRows | src/datasets/segmentation/scannet.py:272-293 | With distinct keys in 1..n, the table has n rows. Row key - 1 is that object's box, or zero when it has no points; every other row is zero. |
| Boxes.WriteBox | src/datasets/segmentation/scannet.py:274-293 | One iteration on the row array raises StepError's error or writes exactly Place's row. |
| Boxes.InstanceBoxes | src/datasets/segmentation/scannet.py:272-293 | The loop over the object keys returns exactly BoxesOf: the table, or the first error raised. |
| Export.ExportScene | src/datasets/segmentation/scannet.py:254-301 | export's fusion returns exactly ExportOf: label_ids, instance_ids, instance_bboxes and object_id_to_label_id, or the first error raised. |
| Export.CoversIff | src/datasets/segmentation/scannet.py:261-262 | Vertex v is among seg_to_verts[seg] for some seg of a list iff segIndices[v] is in the list. |
| Export.SegmentKeys | src/datasets/segmentation/scannet.py:262 | seg_to_verts[seg] succeeds iff some vertex has segment index seg. |
| Export.LabelsResolveIff | src/datasets/segmentation/scannet.py:259-262 | The label pass finds every key iff every group's label is in label_map and every group's segment occurs in segIndices. |
| Export.ObjectsResolveFrom | src/datasets/segmentation/scannet.py:266-268 | When the annotations resolve, the instance pass finds every segment. |
| Export.ExportLabelIds | src/datasets/segmentation/scannet.py:257-263 | label_ids has num_verts entries. A vertex no label covers is 0. Otherwise it is U32(label_map[l]) for the last label l, in label_to_segs order, whose groups list its segment. |
| Export.ExportLabelValues | src/datasets/segmentation/scannet.py:257-263 | Every label id is 0 or the uint32 value of some label_map entry. |
| Export.InstancePaintLast | src/datasets/segmentation/scannet.py:266-269 | With distinct object ids, a vertex ends with the id of the last group listing its segment. The segments aliased into a first object's list are always overwritten later. |
| Export.ExportInstanceIds | src/datasets/segmentation/scannet.py:264-269 | instance_ids has num_verts entries. A vertex no group covers is 0. Otherwise it is U32(objectId + 1) of the last group whose segments contain its segment. |
| Export.ExportObjectLabels | src/datasets/segmentation/scannet.py:270-271 | Every object key gets a label id. With segments, it is label_ids at the first vertex of the object's first segment. |
| Export.ExportBoxes | src/datasets/segmentation/scannet.py:272-293 | With objectIds distinct and 0-based below the group count, the table has one row per group. Row objectId is that object's InstanceBox. |
| Export.ExportOk | src/datasets/segmentation/scannet.py:254-293 | export succeeds when the annotations resolve, there is one position per vertex, the objectIds are distinct 0-based ids below the group count, and every group has segments. |
| Export.ExportKeyError | src/datasets/segmentation/scannet.py:259-268 | export raises KeyError when a label is not in label_map or a group lists a segment that no vertex has. |
| Export.ExportShapeError | src/datasets/segmentation/scannet.py:275 | With at least one object, positions that do not match the vertices make export fail. |
| Export.ExportEmptyObject | src/datasets/segmentation/scannet.py:270-274 | An object whose segment list is empty never gets a label, so the box loop fails on it. |
| ScanProcessing.FilterDoNotCareSpec | src/datasets/segmentation/scannet.py:515-519 | The filter fails with IndexError exactly when the arrays differ in length. Otherwise it keeps exactly the vertices whose label is not do-not-care, in order and in lockstep. |
| ScanProcessing.FilterDropsDoNotCare | src/datasets/segmentation/scannet.py:516-518 | No label left after filtering is a do-not-care class. |
| ScanProcessing.FilterNothing | src/datasets/segmentation/scannet.py:516-519 | An empty do-not-care list keeps the scan unchanged. |
| ScanProcessing.FilterBoxesSpec | src/datasets/segmentation/scannet.py:521-522 | A box row is kept iff its label column is an object class. Rows keep their order. |
| ScanProcessing.SubsampleSpec | src/datasets/segmentation/scannet.py:524-531 | Without a budget, with a zero budget or within budget the scan is unchanged. A negative budget raises ValueError. Above a positive budget exactly max_num_point vertices remain, drawn in lockstep from distinct positions, so the vertex multiset shrinks. |
| ScanProcessing.RemapValid | src/datasets/segmentation/scannet.py:533-542 | The k-th entry of VALID_CLASS_IDS becomes training label k. |
| ScanProcessing.RemapRange | src/datasets/segmentation/scannet.py:533-542 | Ids in 0..40 become a label in 0..19, or IGNORE_LABEL (-100) when they are not valid classes. Ids outside 0..40 are kept. |
| ScanProcessing.RemapBelow | src/datasets/segmentation/scannet.py:533-542 | The label written for id i is below i, except id 0, which becomes IGNORE_LABEL. A later pass of the loop never matches it again. |
| ScanProcessing.ValidIncreasing | src/datasets/segmentation/scannet.py:341 | VALID_CLASS_IDS is strictly ascending, hence distinct. |
| ScanProcessing.RemapLabels | src/datasets/segmentation/scannet.py:533-542 | The sequential in-place loop over i = 0..40 leaves every entry equal to Remap of its old value. |
| ScanProcessing.RemapSeq | src/datasets/segmentation/scannet.py:533-542 | Running the remap loop on the labels gives the pointwise remap of every label. |
| ScanProcessing.ReadOneScan | src/datasets/segmentation/scannet.py:511-542 | read_one_scan returns exactly ScanOf: export, then the filter, the box filter, the subsample and the remap, or the first error raised. |
| ScanProcessing.PostProcessLabelsRange | src/datasets/segmentation/scannet.py:515-542 | When export's labels are nyu40 ids, the three arrays stay the same length and every label is in 0..19 or IGNORE_LABEL. |
| ScanProcessing.ScanLabelsRange | src/datasets/segmentation/scannet.py:511-542 | When label_map yields nyu40 ids, every training label is in 0..19 or IGNORE_LABEL, with one label per remaining vertex. |
| Splits.SplitPathSpec | src/datasets/segmentation/scannet.py:420-427 | Loading a split succeeds iff it is "train" or "val", from "<processed_dir>/<split>.pt". "test" raises IndexError, because index 2 is past the two processed files; any other name raises ValueError. |
| Splits.DefaultSplitFails | src/datasets/segmentation/scannet.py:392 | The default split "trainval" raises ValueError. |
| Download.ChooseFileTypesSpec | src/datasets/segmentation/scannet.py:446-459 | A request proceeds iff every requested type is in FILETYPES. With no request, FILETYPES and FILETYPES_TEST are kept. With one, the requested types are downloaded, and file_types_test holds the requested types not in FILETYPES_TEST, in request order with repetitions: it picks, in ascending order, exactly the positions of such types. |
| Download.ScanUrlRelease | src/datasets/segmentation/scannet.py:114-118 | The release part of the URL is "v1/scans" exactly for a .sens file with v1 .sens files wanted, and "v2/scans" otherwise. The URL of any other file type does not depend on use_v1_sens; that of a .sens file does. |
| Download.ScanUrlSpec | src/datasets/segmentation/scannet.py:114-120 | The URL starts with BASE_URL followed by the release. It ends with "/<scan_id><ft>", the same name as the local file "<out_dir>/<scan_id><ft>". |

## Left out

- File parsing is not modelled: PLY (`plyfile`), JSON and the TSV label map, including
  `represents_int` and the int-key coercion. The model receives the parsed values.
- The axis-alignment matrix is not modelled: parsing the meta file and multiplying in
  float64. Positions are taken as already aligned.
- Floating point is not modelled. Coordinates, centres and extents are exact `real`s,
  so the float32 casts of the returned arrays are not modelled.
- The conversion of the returned uint32 arrays to `np.int` is not modelled. It is
  value-preserving on uint32 values, and `np.int` no longer exists in NumPy 1.24+.
- ExportScene models the uint32 stores as wrapping modulo 2^32 (NumPy 1.x). NumPy 2
  raises OverflowError for an out-of-range Python int instead.
- The randomness of `np.random.choice` is a parameter. Only its contract is modelled:
  m distinct indices below n.
- The tensors are not modelled: `torch.from_numpy`, the RGB `/ 255.0` normalisation,
  the `Data` record, and the `use_instance_labels` / `use_instance_bboxes` flags.
  ReadOneScan returns all four arrays.
- Downloading is not modelled: the network, temporary files, `input()` prompts, the
  interactive removal of `.sens` and logging. Only the file-type choice and the URL
  and path strings are modelled.
- `os.path.join` is modelled as joining with "/". `processed_dir` is a parameter.
- `process`, the multiprocessing `Pool`, `torch.save`/`collate` and the
  `ScannetDataset` wiring are not part of this model.
- The dataset constructor's `version` assertion is not part of this model.
- `SCANNET_COLOR_MAP`'s colours are not modelled. Only its largest key, 40, matters,
  as the remap loop bound (MAX_CLASS_ID).
- `object_id_to_label_id` is a `map`. Its insertion order is not modelled, because
  nothing downstream iterates over it.
- Download.ChooseFileTypes: `file_types_test` is computed exactly as written, but the
  downloader never uses it afterwards.
- Segmentation.ReadSegmentation: an empty `segIndices` is accepted and yields an empty
  map with 0 vertices, as the code does. Nothing fails on it.
- Export.ExportInstanceIds, Export.ExportObjectLabels and Export.ExportBoxes assume
  distinct objectIds. With a repeated objectId, later reassignments and the aliased
  lists interact; that case is covered only by the general ExportOf and the
  Aggregation lemmas.
- Export.ExportOk gives a sufficient condition for success, not a characterisation.
  Boxes.BoxesOk characterises the box loop exactly and Export.LabelsResolveIff the
  label pass.
- Export.ExportShapeError and Export.ExportEmptyObject state only that export fails,
  not which error it raises. The kind depends on the order of the loops, and ExportOf
  gives it exactly.
