/**
 * The packaging of app.py lines 85-91: every file the walk of `OUTPUT_DIR`
 * finds is written into the archive under its path relative to
 * `OUTPUT_DIR`, so the archive reproduces the folder structure of the input.
 */
module Packager {
  import opened Paths
  import opened Batch

  /** One triple of `os.walk`: a directory and the names of the files directly in it. */
  datatype WalkStep = WalkStep(root: Path, files: seq<string>)

  /** A member of the archive: its name inside the archive and the file it was read from. */
  datatype Entry = Entry(arcname: Path, file: Path)

  /** The walk starts at `OUTPUT_DIR`, so each directory it yields is that one or one below it. */
  predicate WalkUnderOutput(walk: seq<WalkStep>) {
    forall s | s in walk :: IsAtOrUnder(s.root, OutputDir)
  }

  /** `os.path.join(root, file)` for the files of one step. */
  function StepFiles(step: WalkStep): (r: seq<Path>)
    ensures |r| == |step.files|
    ensures forall k | 0 <= k < |r| ::
      |r[k]| == |step.root| + 1 && r[k][..|step.root|] == step.root && r[k][|step.root|] == step.files[k]
  {
    seq(|step.files|, k requires 0 <= k < |step.files| => step.root + [step.files[k]])
  }

  /** Every file path the walk yields, directory by directory. */
  function WalkFiles(walk: seq<WalkStep>): (r: seq<Path>)
    ensures forall s, k | s in walk && 0 <= k < |s.files| :: s.root + [s.files[k]] in r
  {
    if walk == [] then []
    else
      var last := walk[|walk| - 1];
      var earlier := walk[..|walk| - 1];
      assert walk == earlier + [last];
      assert forall k | 0 <= k < |last.files| :: last.root + [last.files[k]] == StepFiles(last)[k];
      WalkFiles(earlier) + StepFiles(last)
  }

  /** Conversely, each file path is one walked directory plus one of the names listed in it. */
  lemma {:induction false} WalkFilesFromWalk(walk: seq<WalkStep>, f: Path)
    requires f in WalkFiles(walk)
    ensures exists s | s in walk :: |f| == |s.root| + 1 && f[..|s.root|] == s.root && f[|s.root|] in s.files
  {
    var last := walk[|walk| - 1];
    var earlier := walk[..|walk| - 1];
    if f in WalkFiles(earlier) {
      WalkFilesFromWalk(earlier, f);
      var s :| s in earlier && |f| == |s.root| + 1 && f[..|s.root|] == s.root && f[|s.root|] in s.files;
      assert s in walk;
    } else {
      var k :| 0 <= k < |last.files| && StepFiles(last)[k] == f;
      assert last in walk;
    }
  }

  /** Lines 89-90: the archive member for one file, named by `os.path.relpath(filepath, OUTPUT_DIR)`. */
  function EntryFor(root: Path, file: string): (e: Entry)
    requires IsAtOrUnder(root, OutputDir)
    ensures e.file == root + [file]
    ensures OutputDir + e.arcname == e.file
    ensures e.arcname != [] && e.arcname[|e.arcname| - 1] == file
  {
    var filepath := root + [file];
    assert filepath[..|OutputDir|] == OutputDir;
    Entry(RelativeTo(filepath, OutputDir).value, filepath)
  }

  /** The members for the files of one walk step, in the order the walk lists them. */
  function StepEntries(step: WalkStep): (r: seq<Entry>)
    requires IsAtOrUnder(step.root, OutputDir)
    ensures |r| == |step.files|
    ensures forall k | 0 <= k < |r| ::
      r[k].file == StepFiles(step)[k] && OutputDir + r[k].arcname == r[k].file && r[k].arcname[|r[k].arcname| - 1] == step.files[k]
  {
    seq(|step.files|, k requires 0 <= k < |step.files| => EntryFor(step.root, step.files[k]))
  }

  /** The members of the archive, in the order the walk yields the files. */
  function ArchiveEntries(walk: seq<WalkStep>): (entries: seq<Entry>)
    requires WalkUnderOutput(walk)
    ensures |entries| == |WalkFiles(walk)|
    ensures forall k | 0 <= k < |entries| ::
      entries[k].file == WalkFiles(walk)[k] && OutputDir + entries[k].arcname == entries[k].file
  {
    if walk == [] then []
    else
      var last := walk[|walk| - 1];
      assert last in walk;
      ArchiveEntries(walk[..|walk| - 1]) + StepEntries(last)
  }

  /** The nested loop of lines 87-91. */
  method Package(walk: seq<WalkStep>) returns (entries: seq<Entry>)
    requires WalkUnderOutput(walk)
    ensures entries == ArchiveEntries(walk)
  {
    entries := [];
    for i := 0 to |walk|
      invariant entries == ArchiveEntries(walk[..i])
    {
      var step := walk[i];
      assert step in walk;
      ghost var before := entries;
      for j := 0 to |step.files|
        invariant entries == before + StepEntries(step)[..j]
      {
        var filepath := step.root + [step.files[j]];
        assert filepath[..|OutputDir|] == OutputDir;
        var arcname := RelativeTo(filepath, OutputDir).value;
        entries := entries + [Entry(arcname, filepath)];
        assert StepEntries(step)[..j + 1] == StepEntries(step)[..j] + [StepEntries(step)[j]];
      }
      assert StepEntries(step)[..|step.files|] == StepEntries(step);
      assert walk[..i + 1][..i] == walk[..i];
    }
    assert walk[..|walk|] == walk;
  }

  /** Distinct files get distinct names in the archive. */
  lemma ArcnamesDistinct(walk: seq<WalkStep>, i: nat, j: nat)
    requires WalkUnderOutput(walk)
    requires i < |WalkFiles(walk)| && j < |WalkFiles(walk)| && WalkFiles(walk)[i] != WalkFiles(walk)[j]
    ensures ArchiveEntries(walk)[i].arcname != ArchiveEntries(walk)[j].arcname
  {
    var entries := ArchiveEntries(walk);
    assert OutputDir + entries[i].arcname == WalkFiles(walk)[i];
    assert OutputDir + entries[j].arcname == WalkFiles(walk)[j];
  }

  function Destinations(jobs: seq<Job>): set<Path> {
    set j | j in jobs :: j.destination
  }

  /** The names inside the archive. */
  function Arcnames(walk: seq<WalkStep>): set<Path>
    requires WalkUnderOutput(walk)
  {
    set e | e in ArchiveEntries(walk) :: e.arcname
  }

  /** The image paths relative to `TEMP_DIR`. */
  function Relatives(paths: seq<Path>): set<Path>
    requires AllUnderTemp(paths)
  {
    set p | p in paths :: RelativeTo(p, TempDir).value
  }

  /** One archive member read from the destination of one job has that job's relative path. */
  lemma EntryOfDestination(paths: seq<Path>, e: Entry, m: nat)
    requires AllUnderTemp(paths) && m < |paths|
    requires OutputDir + e.arcname == e.file && e.file == Jobs(paths)[m].destination
    ensures e.arcname == RelativeTo(paths[m], TempDir).value
  {
    RelativeToJoin(OutputDir, e.arcname);
  }

  /**
   * End to end: when the output tree holds only files the jobs wrote, every
   * archive name is the relative path of an input image; when, in addition,
   * every job wrote its file, the archive names are exactly those relative
   * paths, so the archive mirrors the input's folders.
   */
  lemma ArchiveMirrorsInput(paths: seq<Path>, walk: seq<WalkStep>)
    requires AllUnderTemp(paths) && WalkUnderOutput(walk)
    requires forall f | f in WalkFiles(walk) :: f in Destinations(Jobs(paths))
    ensures Arcnames(walk) <= Relatives(paths)
    ensures (forall d | d in Destinations(Jobs(paths)) :: d in WalkFiles(walk)) ==> Arcnames(walk) == Relatives(paths)
  {
    var entries := ArchiveEntries(walk);
    var files := WalkFiles(walk);
    var jobs := Jobs(paths);
    forall a | a in Arcnames(walk)
      ensures a in Relatives(paths)
    {
      var k :| 0 <= k < |entries| && entries[k].arcname == a;
      assert files[k] in files;
      var m :| 0 <= m < |jobs| && jobs[m].destination == files[k];
      EntryOfDestination(paths, entries[k], m);
      assert paths[m] in paths;
    }
    if forall d | d in Destinations(jobs) :: d in files {
      forall r | r in Relatives(paths)
        ensures r in Arcnames(walk)
      {
        var m :| 0 <= m < |paths| && RelativeTo(paths[m], TempDir).value == r;
        assert jobs[m] in jobs;
        assert jobs[m].destination in files;
        var k :| 0 <= k < |files| && files[k] == jobs[m].destination;
        EntryOfDestination(paths, entries[k], m);
        assert entries[k] in entries;
      }
    }
  }
}
