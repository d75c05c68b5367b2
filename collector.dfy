/**
 * How the uploads become files under `TEMP_DIR`: the archive-mode test
 * (app.py line 58) and, in the other branch, the loop that writes every upload
 * into the staging directory under its own name (lines 63-65).
 */
module Collector {
  import opened Wrappers
  import opened Paths
  import Settings

  /** An uploaded file: the name the browser sent and its bytes. */
  datatype Upload = Upload(name: string, data: seq<bv8>)

  /** Line 58: one upload, whose lower-cased name ends in `.zip`. */
  function IsArchiveMode(uploads: seq<Upload>): (r: bool)
    ensures r ==> |uploads| == 1 && !IsImageName(uploads[0].name)
  {
    if |uploads| == 1 && EndsWith(Lower(uploads[0].name), ".zip") then
      ZipNameNotImage(uploads[0].name);
      true
    else
      false
  }

  /**
   * The staging directory after the flat branch: file name to contents. It
   * starts empty, because the directory was just removed and re-created.
   */
  function Staged(uploads: seq<Upload>): (m: map<string, seq<bv8>>)
    ensures m.Keys == set u | u in uploads :: u.name
  {
    if uploads == [] then map[]
    else
      var last := uploads[|uploads| - 1];
      var earlier := uploads[..|uploads| - 1];
      assert uploads == earlier + [last];
      Staged(earlier)[last.name := last.data]
  }

  /** Uploads with the same name overwrite each other: the last one's bytes are what is staged. */
  lemma {:induction false} LastUploadWins(uploads: seq<Upload>, k: nat)
    requires k < |uploads|
    requires forall j | k < j < |uploads| :: uploads[j].name != uploads[k].name
    ensures uploads[k].name in Staged(uploads)
    ensures Staged(uploads)[uploads[k].name] == uploads[k].data
  {
    if k < |uploads| - 1 {
      LastUploadWins(uploads[..|uploads| - 1], k);
    }
  }

  /** The loop of lines 63-65: each upload is written to `TEMP_DIR/<name>`, in upload order. */
  method WriteUploads(uploads: seq<Upload>) returns (staged: map<string, seq<bv8>>)
    ensures staged == Staged(uploads)
  {
    staged := map[];
    for i := 0 to |uploads|
      invariant staged == Staged(uploads[..i])
    {
      assert uploads[..i + 1][..i] == uploads[..i];
      staged := staged[uploads[i].name := uploads[i].data];
    }
    assert uploads[..|uploads|] == uploads;
  }

  /**
   * What the recursive glob of a flat staging directory yields: exactly the
   * paths `TEMP_DIR/<name>` of the staged names, in some order.
   */
  predicate ListsStaged(listing: seq<Path>, staged: map<string, seq<bv8>>) {
    && (forall p | p in listing :: |p| == 2 && p[..1] == TempDir && p[1] in staged)
    && (forall n | n in staged :: TempDir + [n] in listing)
  }

  /**
   * In the flat branch every image path is one uploaded name directly under
   * `TEMP_DIR`, so its relative path has no directory part, and every upload
   * whose name has an image suffix is among them.
   */
  lemma FlatModeImages(uploads: seq<Upload>, listing: seq<Path>)
    requires ListsStaged(listing, Staged(uploads))
    ensures forall p | p in ImagePaths(listing) ::
      RelativeTo(p, TempDir) == Some([p[1]]) && IsImageName(p[1]) && exists u | u in uploads :: u.name == p[1]
    ensures forall u | u in uploads && IsImageName(u.name) :: TempDir + [u.name] in ImagePaths(listing)
  {
    forall p | p in ImagePaths(listing)
      ensures RelativeTo(p, TempDir) == Some([p[1]])
    {
      assert p[1..] == [p[1]];
    }
    forall u | u in uploads && IsImageName(u.name)
      ensures TempDir + [u.name] in ImagePaths(listing)
    {
      assert u.name in Staged(uploads);
      var p := TempDir + [u.name];
      assert p[|p| - 1] == u.name;
    }
  }

  /** The distinct uploaded names that have an image suffix. */
  function ImageNames(uploads: seq<Upload>): set<string> {
    set u | u in uploads && IsImageName(u.name) :: u.name
  }

  /** Putting each name of a set under `TEMP_DIR` gives as many paths as names. */
  lemma {:induction false} StagedPathsCard(names: set<string>)
    ensures |set n | n in names :: TempDir + [n]| == |names|
  {
    if names != {} {
      var x :| x in names;
      var rest := names - {x};
      StagedPathsCard(rest);
      var all := set n | n in names :: TempDir + [n];
      var fewer := set n | n in rest :: TempDir + [n];
      assert all == fewer + {TempDir + [x]} by {
        forall q | q in all ensures q in fewer + {TempDir + [x]} {
          var n :| n in names && q == TempDir + [n];
          assert q[1] == n;
        }
      }
      assert TempDir + [x] !in fewer by {
        forall n | n in rest ensures TempDir + [n] != TempDir + [x] {
          assert (TempDir + [n])[1] == n;
        }
      }
    }
  }

  /** In the flat branch the image paths are exactly the uploaded image names under `TEMP_DIR`. */
  lemma FlatImageSet(uploads: seq<Upload>, listing: seq<Path>)
    requires ListsStaged(listing, Staged(uploads))
    ensures (set p | p in ImagePaths(listing)) == set n | n in ImageNames(uploads) :: TempDir + [n]
  {
    var staged := set n | n in ImageNames(uploads) :: TempDir + [n];
    forall p | p in ImagePaths(listing) ensures p in staged {
      assert p in listing && IsImagePath(p);
      FlatImageIsStagedName(uploads, listing, p);
    }
    forall n | n in ImageNames(uploads) ensures TempDir + [n] in ImagePaths(listing) {
      StagedNameIsImage(uploads, listing, n);
    }
  }

  lemma FlatImageIsStagedName(uploads: seq<Upload>, listing: seq<Path>, p: Path)
    requires ListsStaged(listing, Staged(uploads))
    requires p in listing && IsImagePath(p)
    ensures |p| == 2 && p[1] in ImageNames(uploads) && p == TempDir + [p[1]]
  {
    var n := p[|p| - 1];
    assert |p| == 2 && p[..1] == TempDir && p[1] in Staged(uploads);
    assert p == TempDir + [n];
    StagedImageName(uploads, n);
  }

  /** A staged name with an image suffix is one of the uploaded image names. */
  lemma StagedImageName(uploads: seq<Upload>, n: string)
    requires n in Staged(uploads) && IsImageName(n)
    ensures n in ImageNames(uploads)
  {
    var u :| u in uploads && u.name == n;
  }

  lemma StagedNameIsImage(uploads: seq<Upload>, listing: seq<Path>, n: string)
    requires ListsStaged(listing, Staged(uploads))
    requires n in ImageNames(uploads)
    ensures TempDir + [n] in ImagePaths(listing)
  {
    var u :| u in uploads && IsImageName(u.name) && u.name == n;
    assert n in Staged(uploads);
    var p := TempDir + [n];
    assert p in listing;
    assert p[|p| - 1] == n;
  }

  /**
   * In the flat branch there is one image path per distinct uploaded image
   * name: three standalone images give three paths, and a repeated name
   * counts once, its last upload having overwritten the others.
   */
  lemma FlatImageCount(uploads: seq<Upload>, listing: seq<Path>)
    requires ListsStaged(listing, Staged(uploads)) && Distinct(listing)
    ensures |ImagePaths(listing)| == |ImageNames(uploads)|
  {
    ImagePathsDistinct(listing);
    DistinctCard(ImagePaths(listing));
    FlatImageSet(uploads, listing);
    StagedPathsCard(ImageNames(uploads));
  }

  /** A name whose lower-cased form ends in `.zip` never has an image suffix. */
  lemma ZipNameNotImage(name: string)
    requires EndsWith(Lower(name), ".zip")
    ensures !IsImageName(name)
  {
    var n := |name|;
    var low := Lower(name);
    assert low[n - 4..] == ".zip";
    assert low[n - 4] == '.' && low[n - 3] == 'z' && low[n - 2] == 'i' && low[n - 1] == 'p';
    assert name[n - 4] == '.';
    assert forall j | n - 4 < j < n :: name[j] != '.' by {
      forall j | n - 4 < j < n ensures name[j] != '.' {
        assert low[j] == LowerChar(name[j]);
      }
    }
    assert LastDot(name) == n - 4;
    var suffix := Suffix(name);
    if suffix != [] {
      assert suffix == name[n - 4..];
      assert Lower(suffix) == low[n - 4..];
    }
  }

  /**
   * With several uploads the script is in the flat branch even when one of
   * them is an archive; that archive is staged as a plain file and then
   * dropped by the image filter, so it is never unpacked nor converted.
   */
  lemma ArchiveAmongSeveralIgnored(uploads: seq<Upload>, listing: seq<Path>, k: nat)
    requires |uploads| >= 2 && k < |uploads|
    requires EndsWith(Lower(uploads[k].name), ".zip")
    requires ListsStaged(listing, Staged(uploads))
    ensures !IsArchiveMode(uploads)
    ensures TempDir + [uploads[k].name] in listing
    ensures TempDir + [uploads[k].name] !in ImagePaths(listing)
  {
    ZipNameNotImage(uploads[k].name);
    assert uploads[k].name in Staged(uploads);
    var p := TempDir + [uploads[k].name];
    assert p[|p| - 1] == uploads[k].name;
  }

  /** The archive the script offers for download would, uploaded alone, be unpacked. */
  lemma DownloadIsArchive(choice: string, data: seq<bv8>)
    ensures IsArchiveMode([Upload(Settings.DownloadName(choice), data)])
  {
    var name := Settings.DownloadName(choice);
    var low := Lower(name);
    var n := |name|;
    assert name[n - 4..] == ".zip";
    assert low[n - 4..] == ".zip" by {
      forall j | n - 4 <= j < n ensures low[j] == ".zip"[j - (n - 4)] {
        assert name[j] == ".zip"[j - (n - 4)];
      }
    }
  }
}
