/** Scannet.__init__'s choice of the processed file to load for a split name. */
module Splits {
  import opened Results

  /** Scannet.SPLITS: the splits that are processed and saved. */
  const SPLITS: seq<string> := ["train", "val"]

  /** The split a Scannet dataset is built with when none is given. */
  const DEFAULT_SPLIT: string := "trainval"

  /** processed_file_names: "<split>.pt" for every processed split. */
  function ProcessedFileNames(): (names: seq<string>)
  {
    seq(|SPLITS|, k requires 0 <= k < |SPLITS| => SPLITS[k] + ".pt")
  }

  /** processed_paths: the processed file names inside the processed directory. */
  function ProcessedPaths(dir: string): (paths: seq<string>)
  {
    var names := ProcessedFileNames();
    seq(|names|, k requires 0 <= k < |names| => dir + "/" + names[k])
  }

  /** The index of processed_paths that a split name selects; any other name raises
      ValueError. "test" selects index 2 although only two files are processed. */
  function SplitIndex(split: string): (r: Result<nat>)
  {
    if split == "train" then Ok(0)
    else if split == "val" then Ok(1)
    else if split == "test" then Ok(2)
    else Err(ValueError)
  }

  /** The processed file a dataset of the given split loads, or the error raised. */
  function SplitPath(split: string, paths: seq<string>): (r: Result<string>)
  {
    match SplitIndex(split)
    case Err(e) => Err(e)
    case Ok(i) => if i < |paths| then Ok(paths[i]) else Err(IndexError)
  }

  /** Only the processed splits can be loaded, each from its own "<split>.pt"; "test"
      fails with IndexError, every other name with ValueError, including the default
      "trainval". */
  lemma SplitPathSpec(split: string, dir: string)
    ensures SplitPath(split, ProcessedPaths(dir)).Ok? <==> split in SPLITS
    ensures SplitPath(split, ProcessedPaths(dir)).Ok? ==> SplitPath(split, ProcessedPaths(dir)).value == dir + "/" + split + ".pt"
    ensures split == "test" ==> SplitPath(split, ProcessedPaths(dir)) == Err(IndexError)
    ensures split !in SPLITS && split != "test" ==> SplitPath(split, ProcessedPaths(dir)) == Err(ValueError)
  {
    var paths := ProcessedPaths(dir);
    assert |paths| == 2;
    if split == "train" {
      assert paths[0] == dir + "/" + "train.pt";
      assert dir + "/" + "train.pt" == dir + "/" + split + ".pt";
    } else if split == "val" {
      assert paths[1] == dir + "/" + "val.pt";
      assert dir + "/" + "val.pt" == dir + "/" + split + ".pt";
    }
  }

  /** A dataset built with the default split raises ValueError. */
  lemma DefaultSplitFails(dir: string)
    ensures SplitPath(DEFAULT_SPLIT, ProcessedPaths(dir)) == Err(ValueError)
  {
    SplitPathSpec(DEFAULT_SPLIT, dir);
    assert DEFAULT_SPLIT != SPLITS[0] && DEFAULT_SPLIT != SPLITS[1];
  }
}
