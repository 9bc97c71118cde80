/** The string logic of the download script: validating the requested file types and
    building the URL and the local name of each scan file. */
module Download {
  import opened Seqs
  import opened Results

  const BASE_URL: string := "http://kaldir.vc.in.tum.de/scannet/"

  /** RELEASES: the v2 release, then the v1 release. */
  const RELEASES: seq<string> := ["v2/scans", "v1/scans"]

  /** RELEASE: the release that is downloaded. */
  const RELEASE: string := RELEASES[0]

  const V1_IDX: nat := 1

  /** FILETYPES: the file types a scan can be downloaded as. */
  const FILETYPES: seq<string> := [
    ".aggregation.json", ".sens", ".txt", "_vh_clean.ply", "_vh_clean_2.0.010000.segs.json",
    "_vh_clean_2.ply", "_vh_clean.segs.json", "_vh_clean.aggregation.json", "_vh_clean_2.labels.ply",
    "_2d-instance.zip", "_2d-instance-filt.zip", "_2d-label.zip", "_2d-label-filt.zip"]

  /** FILETYPES_TEST: the file types test scans come in. */
  const FILETYPES_TEST: seq<string> := [".sens", ".txt", "_vh_clean.ply", "_vh_clean_2.ply"]

  /** The file types of scans and the list computed as file_types_test. */
  datatype FileTypes = FileTypes(scan: seq<string>, test: seq<string>)

  /** download_scans' choice of file types: all of them when none is requested; when
      some are, None (the download is abandoned) if one is not a known file type, and
      otherwise the requested ones, with file_types_test holding those of them that are
      NOT in FILETYPES_TEST. */
  function ChooseFileTypes(types: seq<string>): (r: Option<FileTypes>)
  {
    if |types| == 0 then Some(FileTypes(FILETYPES, FILETYPES_TEST))
    else if exists k :: 0 <= k < |types| && types[k] !in FILETYPES then None
    else Some(FileTypes(types, Select(types, IndicesWhere(types, NotTestType))))
  }

  /** A file type test scans do not come in. */
  predicate NotTestType(t: string)
  {
    t !in FILETYPES_TEST
  }

  /** A request succeeds exactly when every requested type is known. With no request,
      every file type is downloaded and file_types_test is FILETYPES_TEST. With one, the
      requested types are downloaded, and file_types_test is the requested types that
      test scans do not have, in request order and with their repetitions: it selects,
      in ascending order, exactly the positions of such types. */
  lemma ChooseFileTypesSpec(types: seq<string>)
    ensures ChooseFileTypes(types).Some? <==> forall k :: 0 <= k < |types| ==> types[k] in FILETYPES
    ensures |types| == 0 ==> ChooseFileTypes(types) == Some(FileTypes(FILETYPES, FILETYPES_TEST))
    ensures |types| > 0 && ChooseFileTypes(types).Some? ==>
      var ft := ChooseFileTypes(types).value;
      && ft.scan == types
      && (forall k :: 0 <= k < |ft.test| ==> ft.test[k] in types && ft.test[k] !in FILETYPES_TEST)
      && (forall k :: 0 <= k < |types| && types[k] !in FILETYPES_TEST ==> types[k] in ft.test)
      && PicksInOrder(types, ft.test, NotTestType)
  {
    if |types| > 0 && forall k :: 0 <= k < |types| ==> types[k] in FILETYPES {
      SelectWhere(types, NotTestType);
    }
  }

  /** r lists the elements of xs that satisfy keep, in order and with their repetitions:
      it selects, in ascending order, exactly the positions of such elements. */
  ghost predicate PicksInOrder<T>(xs: seq<T>, r: seq<T>, keep: T -> bool)
  {
    exists idx: seq<nat> ::
      && InBounds(idx, |xs|)
      && (forall j, k :: 0 <= j < k < |idx| ==> idx[j] < idx[k])
      && (forall i :: 0 <= i < |xs| ==> (i in idx <==> keep(xs[i])))
      && |r| == |idx|
      && (forall k :: 0 <= k < |idx| ==> r[k] == xs[idx[k]])
  }

  /** np.nonzero followed by fancy indexing: selecting the positions a mask keeps picks
      exactly the kept elements, in order. */
  lemma SelectWhere<T>(xs: seq<T>, keep: T -> bool)
    ensures var r := Select(xs, IndicesWhere(xs, keep));
      && (forall k :: 0 <= k < |r| ==> r[k] in xs && keep(r[k]))
      && (forall k :: 0 <= k < |xs| && keep(xs[k]) ==> xs[k] in r)
      && PicksInOrder(xs, r, keep)
  {
    var idx := IndicesWhere(xs, keep);
    var r := Select(xs, idx);
    forall k | 0 <= k < |xs| && keep(xs[k]) ensures xs[k] in r {
      var q :| 0 <= q < |idx| && idx[q] == k;
      assert r[q] == xs[k];
    }
    SelectWherePicks(xs, keep);
  }

  lemma SelectWherePicks<T>(xs: seq<T>, keep: T -> bool)
    ensures PicksInOrder(xs, Select(xs, IndicesWhere(xs, keep)), keep)
  {
    var idx := IndicesWhere(xs, keep);
    var r := Select(xs, idx);
    forall i | 0 <= i < |xs| ensures i in idx <==> keep(xs[i]) {
      if i in idx {
        var q :| 0 <= q < |idx| && idx[q] == i;
      }
    }
    assert |r| == |idx| && forall k :: 0 <= k < |idx| ==> r[k] == xs[idx[k]];
  }

  /** The release a file is fetched from: the v1 release for .sens files when v1 .sens
      files are wanted, RELEASE otherwise. */
  function ReleaseFor(ft: string, useV1Sens: bool): (release: string)
  {
    if useV1Sens && ft == ".sens" then RELEASES[V1_IDX] else RELEASE
  }

  /** The URL download_scan fetches file type ft of scan scanId from. */
  function ScanUrl(scanId: string, ft: string, useV1Sens: bool): (url: string)
  {
    BASE_URL + ReleaseFor(ft, useV1Sens) + "/" + scanId + "/" + scanId + ft
  }

  /** The local file download_scan writes it to. */
  function ScanOutFile(outDir: string, scanId: string, ft: string): (path: string)
  {
    outDir + "/" + scanId + ft
  }

  /** The release part of a scan file's URL: "v1/scans" exactly for .sens files with v1
      .sens files wanted, "v2/scans" otherwise; so the URL of any other file type does
      not depend on whether v1 .sens files are wanted, while a .sens file's does. */
  lemma ScanUrlRelease(scanId: string, ft: string, useV1Sens: bool)
    ensures var url := ScanUrl(scanId, ft, useV1Sens);
      && |BASE_URL| + 8 <= |url|
      && url[|BASE_URL|..][..8] == (if useV1Sens && ft == ".sens" then "v1/scans" else "v2/scans")
    ensures ft != ".sens" ==> ScanUrl(scanId, ft, true) == ScanUrl(scanId, ft, false)
    ensures ScanUrl(scanId, ".sens", true) != ScanUrl(scanId, ".sens", false)
  {
    UrlParts(BASE_URL, ReleaseFor(ft, useV1Sens), scanId, ft);
    var v1, v2 := ScanUrl(scanId, ".sens", true), ScanUrl(scanId, ".sens", false);
    UrlParts(BASE_URL, "v1/scans", scanId, ".sens");
    UrlParts(BASE_URL, "v2/scans", scanId, ".sens");
    assert v1[|BASE_URL|..][..8][1] == '1' && v2[|BASE_URL|..][..8][1] == '2';
  }

  /** A scan file's URL is BASE_URL, then the release it is fetched from, and ends with
      the same file name as the local file it is saved to. */
  lemma ScanUrlSpec(outDir: string, scanId: string, ft: string, useV1Sens: bool)
    ensures var url, name := ScanUrl(scanId, ft, useV1Sens), "/" + scanId + ft;
      && |BASE_URL| <= |url| && url[..|BASE_URL|] == BASE_URL
      && url[|BASE_URL|..][..|ReleaseFor(ft, useV1Sens)|] == ReleaseFor(ft, useV1Sens)
      && |name| <= |url| && url[|url| - |name|..] == name
      && ScanOutFile(outDir, scanId, ft) == outDir + name
  {
    UrlParts(BASE_URL, ReleaseFor(ft, useV1Sens), scanId, ft);
  }

  /** The parts of a URL built the way ScanUrl builds one. */
  lemma UrlParts(base: string, release: string, scanId: string, ft: string)
    ensures var url, name := base + release + "/" + scanId + "/" + scanId + ft, "/" + scanId + ft;
      && |base| <= |url| && url[..|base|] == base
      && url[|base|..][..|release|] == release
      && |name| <= |url| && url[|url| - |name|..] == name
  {
    var name := "/" + scanId + ft;
    var rest := release + "/" + scanId + name;
    assert base + release + "/" + scanId + "/" + scanId + ft == base + rest;
    assert base + release + "/" + scanId + "/" + scanId + ft == (base + release + "/" + scanId) + name;
    ConcatParts(base, rest);
    assert rest == release + ("/" + scanId + name);
    ConcatParts(release, "/" + scanId + name);
    ConcatParts(base + release + "/" + scanId, name);
  }

  lemma ConcatParts(a: string, b: string)
    ensures |a| <= |a + b| && (a + b)[..|a|] == a && (a + b)[|a + b| - |b|..] == b
  {
  }
}
