/**
 * The submission loop of app.py lines 77-83: one conversion job per image
 * path, from `TEMP_DIR/<rel>` to `OUTPUT_DIR/<rel>`, and after each
 * submission the progress bar set to i / total.
 */
module Batch {
  import opened Paths

  /** A call `process_image(source, destination)` handed to the pool. */
  datatype Job = Job(source: Path, destination: Path)

  /** The fraction `i / total` shown by the progress bar, kept exact. */
  datatype Progress = Progress(submitted: nat, total: nat)

  predicate AllUnderTemp(paths: seq<Path>) {
    forall p | p in paths :: IsUnder(p, TempDir)
  }

  /** Lines 79-81: the job for one image path. */
  function JobFor(p: Path): (j: Job)
    requires IsUnder(p, TempDir)
    ensures j.source == p
    ensures IsUnder(j.destination, OutputDir)
    ensures RelativeTo(j.destination, OutputDir) == RelativeTo(p, TempDir)
  {
    Job(p, Reroot(p, TempDir, OutputDir))
  }

  /** The jobs submitted, in the order of the image list. */
  function Jobs(paths: seq<Path>): (jobs: seq<Job>)
    requires AllUnderTemp(paths)
    ensures |jobs| == |paths|
    ensures forall k | 0 <= k < |paths| ::
      jobs[k].source == paths[k] && RelativeTo(jobs[k].destination, OutputDir) == RelativeTo(paths[k], TempDir)
  {
    seq(|paths|, k requires 0 <= k < |paths| => JobFor(paths[k]))
  }

  /** The values the progress bar takes, one per submission. */
  function ProgressUpdates(total: nat): (u: seq<Progress>)
    ensures |u| == total
    ensures forall k | 0 <= k < total :: u[k].total == total && 0 < u[k].submitted <= total
    ensures total > 0 ==> u[total - 1].submitted == total
  {
    seq(total, k requires 0 <= k < total => Progress(k + 1, total))
  }

  /** `a < b` for the fractions a.submitted / a.total and b.submitted / b.total. */
  predicate Below(a: Progress, b: Progress) {
    a.submitted * b.total < b.submitted * a.total
  }

  lemma MulStrict(a: int, b: int, c: int)
    requires a < b && c > 0
    ensures a * c < b * c
  {
    assert (b - a) * c > 0;
  }

  /**
   * The bar only moves forward, never shows 0 nor more than 1 once the loop
   * has started, and reaches exactly 1 at the last submission. It counts
   * submissions: nothing in it depends on whether a job has finished.
   */
  lemma ProgressRises(total: nat)
    ensures forall i, j | 0 <= i < j < total :: Below(ProgressUpdates(total)[i], ProgressUpdates(total)[j])
    ensures forall k | 0 <= k < total :: 0 < ProgressUpdates(total)[k].submitted <= ProgressUpdates(total)[k].total
    ensures total > 0 ==> ProgressUpdates(total)[total - 1].submitted == total
  {
    var u := ProgressUpdates(total);
    forall i, j | 0 <= i < j < total
      ensures Below(u[i], u[j])
    {
      MulStrict(i + 1, j + 1, total);
    }
  }

  /**
   * The loop of lines 78-83, with `enumerate(image_paths, 1)`: for each path
   * the job is submitted and then the bar is set to i / total.
   */
  method SubmitAll(imagePaths: seq<Path>) returns (jobs: seq<Job>, progress: seq<Progress>)
    requires AllUnderTemp(imagePaths)
    ensures jobs == Jobs(imagePaths)
    ensures progress == ProgressUpdates(|imagePaths|)
  {
    var total := |imagePaths|;
    jobs, progress := [], [];
    var i := 1;
    while i <= total
      invariant 1 <= i <= total + 1
      invariant |jobs| == |progress| == i - 1
      invariant forall k | 0 <= k < i - 1 :: jobs[k] == JobFor(imagePaths[k])
      invariant forall k | 0 <= k < i - 1 :: progress[k] == Progress(k + 1, total)
    {
      var path := imagePaths[i - 1];
      assert path in imagePaths;
      var relative := RelativeTo(path, TempDir).value;
      var output := OutputDir + relative;
      jobs := jobs + [Job(path, output)];
      progress := progress + [Progress(i, total)];
      i := i + 1;
    }
  }

  /** Distinct image paths give distinct destinations, so no job overwrites another's output. */
  lemma DestinationsDistinct(paths: seq<Path>, i: nat, j: nat)
    requires AllUnderTemp(paths)
    requires i < |paths| && j < |paths| && paths[i] != paths[j]
    ensures Jobs(paths)[i].destination != Jobs(paths)[j].destination
  {
    var jobs := Jobs(paths);
    assert paths[i] in paths && paths[j] in paths;
    assert TempDir + RelativeTo(paths[i], TempDir).value == paths[i];
    assert TempDir + RelativeTo(paths[j], TempDir).value == paths[j];
  }
}
