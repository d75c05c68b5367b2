/**
 * One run of the script (app.py lines 35-36 and 51-98), from the widget
 * values to what the page offers: the background colour and canvas are
 * computed first, then, when there are uploads, they are staged, the image
 * paths are collected, one job per image is submitted and the output tree is
 * packed into the archive offered for download.
 *
 * What the file system answers is passed in: `inputListing` is what the
 * recursive glob of `TEMP_DIR` yields after staging or extraction, and
 * `outputWalk` is what the walk of `OUTPUT_DIR` yields after the jobs ran.
 */
module Pipeline {
  import opened Wrappers
  import opened Geometry
  import opened Color
  import opened Paths
  import opened Settings
  import opened Collector
  import opened Batch
  import opened Packager

  datatype Outcome =
    | ColorError
    | Idle
    | NoImages
    | Converted(target: Size, background: Rgb, jobs: seq<Job>, progress: seq<Progress>,
                archive: seq<Entry>, downloadName: string)

  /** The staging directory is written by the upload loop only in the flat branch. */
  predicate WritesUploads(colorHex: string, uploads: seq<Upload>) {
    ParseColor(colorHex).Some? && uploads != [] && !IsArchiveMode(uploads)
  }

  method Run(choice: string, colorHex: string, uploads: seq<Upload>,
             inputListing: seq<Path>, outputWalk: seq<WalkStep>)
    returns (outcome: Outcome, staged: map<string, seq<bv8>>)
    requires AllUnderTemp(inputListing) && Distinct(inputListing)
    requires WritesUploads(colorHex, uploads) ==> ListsStaged(inputListing, Staged(uploads))
    requires WalkUnderOutput(outputWalk)
    ensures outcome == ColorError <==> ParseColor(colorHex).None?
    ensures outcome == Idle <==> ParseColor(colorHex).Some? && uploads == []
    ensures outcome == NoImages <==> ParseColor(colorHex).Some? && uploads != [] && ImagePaths(inputListing) == []
    ensures outcome.Converted? ==>
      && outcome.target == TargetSize(choice)
      && Some(outcome.background) == ParseColor(colorHex)
      && outcome.jobs == Jobs(ImagePaths(inputListing))
      && outcome.progress == ProgressUpdates(|ImagePaths(inputListing)|)
      && outcome.archive == ArchiveEntries(outputWalk)
      && outcome.downloadName == DownloadName(choice)
    ensures staged == if WritesUploads(colorHex, uploads) then Staged(uploads) else map[]
  {
    staged := map[];
    var background := ParseColor(colorHex);
    if background.None? {
      return ColorError, staged;
    }
    var target := TargetSize(choice);
    if uploads == [] {
      return Idle, staged;
    }
    if !IsArchiveMode(uploads) {
      staged := WriteUploads(uploads);
    }
    var images := ImagePaths(inputListing);
    if |images| == 0 {
      return NoImages, staged;
    }
    var jobs, progress := SubmitAll(images);
    var archive := Package(outputWalk);
    outcome := Converted(target, background.value, jobs, progress, archive, DownloadName(choice));
  }

  /** The job for a path directly under `TEMP_DIR` writes the file of that name directly under `OUTPUT_DIR`. */
  lemma FlatJobDestination(paths: seq<Path>, k: nat)
    requires AllUnderTemp(paths) && k < |paths|
    requires |paths[k]| == 2 && paths[k][..1] == TempDir
    ensures Jobs(paths)[k].destination == OutputDir + [paths[k][1]]
  {
    assert paths[k][1..] == [paths[k][1]];
  }

  /** The images of a flat staging are all directly under `TEMP_DIR`. */
  lemma FlatImagesUnderTemp(uploads: seq<Upload>, inputListing: seq<Path>)
    requires ListsStaged(inputListing, Staged(uploads))
    ensures AllUnderTemp(ImagePaths(inputListing))
  {
  }

  /** The job for the k-th image of a flat staging writes the file of one uploaded name. */
  lemma FlatJobFromUpload(uploads: seq<Upload>, inputListing: seq<Path>, k: nat)
    requires ListsStaged(inputListing, Staged(uploads))
    requires k < |ImagePaths(inputListing)|
    ensures AllUnderTemp(ImagePaths(inputListing))
    ensures exists u | u in uploads :: Jobs(ImagePaths(inputListing))[k].destination == OutputDir + [u.name]
  {
    var images := ImagePaths(inputListing);
    FlatImagesUnderTemp(uploads, inputListing);
    assert images[k] in inputListing;
    FlatJobDestination(images, k);
    assert images[k][1] in Staged(uploads);
  }

  /** Every job of a flat upload writes the file of one uploaded name. */
  lemma FlatJobsFromUploads(uploads: seq<Upload>, inputListing: seq<Path>)
    requires ListsStaged(inputListing, Staged(uploads))
    ensures AllUnderTemp(ImagePaths(inputListing))
    ensures forall j | j in Jobs(ImagePaths(inputListing)) ::
      exists u | u in uploads :: j.destination == OutputDir + [u.name]
  {
    FlatImagesUnderTemp(uploads, inputListing);
    var jobs := Jobs(ImagePaths(inputListing));
    forall j | j in jobs
      ensures exists u | u in uploads :: j.destination == OutputDir + [u.name]
    {
      var k :| 0 <= k < |jobs| && jobs[k] == j;
      FlatJobFromUpload(uploads, inputListing, k);
    }
  }

  /** Every uploaded image name gets a job writing it under `OUTPUT_DIR`. */
  lemma FlatUploadsGetJobs(uploads: seq<Upload>, inputListing: seq<Path>)
    requires forall u | u in uploads :: IsImageName(u.name)
    requires ListsStaged(inputListing, Staged(uploads))
    ensures AllUnderTemp(ImagePaths(inputListing))
    ensures forall u | u in uploads :: exists j | j in Jobs(ImagePaths(inputListing)) ::
      j.destination == OutputDir + [u.name]
  {
    var images := ImagePaths(inputListing);
    FlatModeImages(uploads, inputListing);
    var jobs := Jobs(images);
    forall u | u in uploads
      ensures exists j | j in jobs :: j.destination == OutputDir + [u.name]
    {
      var p := TempDir + [u.name];
      assert p in images;
      var k :| 0 <= k < |images| && images[k] == p;
      FlatJobDestination(images, k);
      assert jobs[k] in jobs;
    }
  }

  /** A flat upload gets one job per distinct uploaded image name. */
  lemma FlatJobCount(uploads: seq<Upload>, inputListing: seq<Path>)
    requires ListsStaged(inputListing, Staged(uploads)) && Distinct(inputListing)
    ensures AllUnderTemp(ImagePaths(inputListing))
    ensures |Jobs(ImagePaths(inputListing))| == |ImageNames(uploads)|
  {
    FlatImagesUnderTemp(uploads, inputListing);
    FlatImageCount(uploads, inputListing);
  }

  /**
   * A flat upload of image files is never a run without images, and it
   * converts exactly those files, each into `OUTPUT_DIR/<name>`.
   */
  lemma FlatUploadsConverted(uploads: seq<Upload>, inputListing: seq<Path>)
    requires uploads != []
    requires forall u | u in uploads :: IsImageName(u.name)
    requires ListsStaged(inputListing, Staged(uploads))
    ensures ImagePaths(inputListing) != []
    ensures AllUnderTemp(ImagePaths(inputListing))
    ensures forall j | j in Jobs(ImagePaths(inputListing)) ::
      exists u | u in uploads :: j.destination == OutputDir + [u.name]
    ensures forall u | u in uploads :: exists j | j in Jobs(ImagePaths(inputListing)) ::
      j.destination == OutputDir + [u.name]
  {
    FlatJobsFromUploads(uploads, inputListing);
    FlatUploadsGetJobs(uploads, inputListing);
    assert uploads[0] in uploads;
  }
}
