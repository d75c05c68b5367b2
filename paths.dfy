/**
 * Paths as the script handles them with `pathlib` and `os.path`: a path is its
 * sequence of segments, `temp_input/album/a.jpg` being
 * ["temp_input", "album", "a.jpg"]. Covers the image filter (app.py line 68)
 * and the re-rooting of an input path under the output directory and back
 * (lines 79-80 and 90).
 */
module Paths {
  import opened Wrappers

  type Path = seq<string>

  /** `TEMP_DIR`, where uploads are written or the archive is extracted. */
  const TempDir: Path := ["temp_input"]

  /** `OUTPUT_DIR`, where converted images are written. */
  const OutputDir: Path := ["output_images"]

  function LowerChar(c: char): char {
    if 'A' <= c <= 'Z' then (c as int - 'A' as int + 'a' as int) as char else c
  }

  /** `str.lower()` on ASCII letters. */
  function Lower(s: string): (r: string)
    ensures |r| == |s|
  {
    seq(|s|, i requires 0 <= i < |s| => LowerChar(s[i]))
  }

  predicate EndsWith(s: string, tail: string) {
    |tail| <= |s| && s[|s| - |tail|..] == tail
  }

  /** `str.rfind('.')`: the index of the last dot, or -1 when there is none. */
  function LastDot(s: string): (i: int)
    ensures -1 <= i < |s|
    ensures 0 <= i ==> s[i] == '.'
    ensures forall j | i < j < |s| :: s[j] != '.'
  {
    if s == [] then -1
    else if s[|s| - 1] == '.' then |s| - 1
    else LastDot(s[..|s| - 1])
  }

  /**
   * `PurePath.suffix` of a final segment: from the last dot to the end, but
   * only when that dot is neither the first nor the last character, so a
   * hidden file such as `.png` has no suffix, nor does `photo.`.
   */
  function Suffix(name: string): (r: string)
    ensures r == [] || (2 <= |r| < |name| && r[0] == '.' && EndsWith(name, r))
    ensures forall j | 1 <= j < |r| :: r[j] != '.'
  {
    var i := LastDot(name);
    if 0 < i < |name| - 1 then name[i..] else []
  }

  /** The suffix of a stem followed by an extension that has no other dot is that extension. */
  lemma SuffixOfExtension(stem: string, ext: string)
    requires stem != [] && 2 <= |ext| && ext[0] == '.'
    requires forall j | 1 <= j < |ext| :: ext[j] != '.'
    ensures Suffix(stem + ext) == ext
  {
    var name := stem + ext;
    var i := LastDot(name);
    assert name[|stem|] == '.';
    assert i >= |stem|;
    assert forall j | |stem| < j < |name| :: name[j] == ext[j - |stem|];
    assert name[i..] == ext;
  }

  const ImageSuffixes: set<string> := {".jpg", ".jpeg", ".png", ".webp"}

  /** A name is an image name when its suffix, lower-cased, is one of the four. */
  predicate IsImageName(name: string) {
    Lower(Suffix(name)) in ImageSuffixes
  }

  /** An image name has a dot that is not its first character, followed by three or four more characters. */
  lemma ImageNameShape(name: string)
    requires IsImageName(name)
    ensures 0 < LastDot(name) && 4 <= |name| - LastDot(name) <= 5
  {
    var suffix := Suffix(name);
    var i := LastDot(name);
    assert |Lower(suffix)| == |suffix|;
    ImageSuffixLength(Lower(suffix));
    assert 0 < i < |name| - 1 && suffix == name[i..];
  }

  lemma ImageSuffixLength(x: string)
    requires x in ImageSuffixes
    ensures 4 <= |x| <= 5
  {
  }

  /** The test of the list comprehension on line 68, on a path's final segment. */
  predicate IsImagePath(p: Path) {
    p != [] && IsImageName(p[|p| - 1])
  }

  /** `[p for p in listing if p.suffix.lower() in [...]]`. */
  function ImagePaths(listing: seq<Path>): (r: seq<Path>)
    ensures |r| <= |listing|
    ensures forall p :: p in r <==> p in listing && IsImagePath(p)
  {
    if listing == [] then []
    else (if IsImagePath(listing[0]) then [listing[0]] else []) + ImagePaths(listing[1..])
  }

  /** The filter keeps the original order: it distributes over concatenation. */
  lemma {:induction false} ImagePathsAppend(a: seq<Path>, b: seq<Path>)
    ensures ImagePaths(a + b) == ImagePaths(a) + ImagePaths(b)
  {
    if a == [] {
      assert a + b == b;
    } else {
      assert (a + b)[0] == a[0];
      assert (a + b)[1..] == a[1..] + b;
      ImagePathsAppend(a[1..], b);
    }
  }

  /** The filter keeps each image path as many times as it occurs, and nothing else. */
  lemma {:induction false} ImagePathsCount(listing: seq<Path>, p: Path)
    ensures multiset(ImagePaths(listing))[p] == if IsImagePath(p) then multiset(listing)[p] else 0
  {
    if listing != [] {
      ImagePathsCount(listing[1..], p);
      assert listing == [listing[0]] + listing[1..];
    }
  }

  /** A listing made only of image paths passes the filter unchanged. */
  lemma {:induction false} ImagePathsKeepsImages(listing: seq<Path>)
    requires forall p | p in listing :: IsImagePath(p)
    ensures ImagePaths(listing) == listing
  {
    if listing != [] {
      ImagePathsKeepsImages(listing[1..]);
    }
  }

  /** No path occurs twice, as in any directory listing. */
  predicate Distinct(listing: seq<Path>) {
    forall i, j | 0 <= i < j < |listing| :: listing[i] != listing[j]
  }

  /** Filtering a listing without repeats gives one without repeats. */
  lemma {:induction false} ImagePathsDistinct(listing: seq<Path>)
    requires Distinct(listing)
    ensures Distinct(ImagePaths(listing))
  {
    if listing != [] {
      var rest := listing[1..];
      assert Distinct(rest) by {
        forall i, j | 0 <= i < j < |rest| ensures rest[i] != rest[j] {
          assert rest[i] == listing[i + 1] && rest[j] == listing[j + 1];
        }
      }
      ImagePathsDistinct(rest);
      assert listing[0] !in rest;
    }
  }

  /** A listing without repeats has as many distinct paths as entries. */
  lemma {:induction false} DistinctCard(listing: seq<Path>)
    requires Distinct(listing)
    ensures |set p | p in listing| == |listing|
  {
    if listing != [] {
      var rest := listing[1..];
      assert Distinct(rest) by {
        forall i, j | 0 <= i < j < |rest| ensures rest[i] != rest[j] {
          assert rest[i] == listing[i + 1] && rest[j] == listing[j + 1];
        }
      }
      DistinctCard(rest);
      assert listing[0] !in rest;
      assert (set p | p in listing) == (set p | p in rest) + {listing[0]};
    }
  }

  /** A final segment of a stem and an image extension, in any letter case, is kept. */
  lemma ImageExtensionKept(stem: string, ext: string)
    requires stem != [] && 2 <= |ext| && ext[0] == '.'
    requires forall j | 1 <= j < |ext| :: ext[j] != '.'
    requires Lower(ext) in ImageSuffixes
    ensures IsImageName(stem + ext)
  {
    SuffixOfExtension(stem, ext);
  }

  /** A hidden file named `.png` has no suffix, so it is not taken for an image. */
  lemma HiddenPngSkipped()
    ensures !IsImageName(".png")
  {
    assert LastDot(".png") == 0 by {
      assert ".png"[0] == '.';
    }
    assert Suffix(".png") == [];
  }

  /** `base` is a leading run of segments of `p`: `p` is `base` itself or a path below it. */
  predicate IsAtOrUnder(p: Path, base: Path) {
    |base| <= |p| && p[..|base|] == base
  }

  /** Strictly below `base`, as every path the recursive glob or the walk yields is. */
  predicate IsUnder(p: Path, base: Path) {
    IsAtOrUnder(p, base) && |base| < |p|
  }

  /** `PurePath.relative_to`: the rest of `p` after `base`, or None (ValueError). */
  function RelativeTo(p: Path, base: Path): (r: Option<Path>)
    ensures r.Some? <==> IsAtOrUnder(p, base)
    ensures r.Some? ==> base + r.value == p
  {
    if IsAtOrUnder(p, base) then Some(p[|base|..]) else None
  }

  /** `Path(OUTPUT_DIR) / path.relative_to(TEMP_DIR)`. */
  function Reroot(p: Path, from: Path, to: Path): (q: Path)
    requires IsUnder(p, from)
    ensures IsUnder(q, to)
    ensures RelativeTo(q, to) == RelativeTo(p, from)
  {
    var rel := RelativeTo(p, from).value;
    assert (to + rel)[..|to|] == to;
    assert (to + rel)[|to|..] == rel;
    to + rel
  }

  /** Joining a relative path under a root and taking it back relative to that root gives it back. */
  lemma RelativeToJoin(root: Path, rel: Path)
    ensures RelativeTo(root + rel, root) == Some(rel)
  {
    assert (root + rel)[..|root|] == root;
    assert (root + rel)[|root|..] == rel;
  }

  /** Distinct inputs under one root are re-rooted to distinct outputs. */
  lemma RerootInjective(p: Path, q: Path, from: Path, to: Path)
    requires IsUnder(p, from) && IsUnder(q, from)
    requires Reroot(p, from, to) == Reroot(q, from, to)
    ensures p == q
  {
    RelativeToJoin(to, RelativeTo(p, from).value);
    RelativeToJoin(to, RelativeTo(q, from).value);
  }
}
