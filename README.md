# Image converter core, modelled in Dafny

`app.py` is a Streamlit page. It converts uploaded images to a 1080 x 1080
or 1080 x 1920 canvas. The picture keeps its proportions, is centred, and the
rest of the canvas is filled with a background colour chosen with a colour
picker. The user uploads either several images or one `.zip` archive with
folders of images. The page hands back one `.zip` with the converted images,
laid out in the same folders.

This project models the deterministic core of that script and proves
properties of it:

- `Color` (`color.dfy`): the background colour. The `#rrggbb` picker value is
  stripped of `#`, and the slices `[0:2]`, `[2:4]` and `[4:6]` are each read
  with `int(_, 16)` (line 35). Python's `str.strip`, slice clamping and
  `int(_, 16)` are written out: white space, an optional sign, hex digits,
  and ValueError as `None`.
- `Settings` (`settings.dfy`): the target canvas chosen by the resolution
  option (line 36) and the download file name (line 98).
- `Geometry` (`geometry.dfy`): the fit-and-pad geometry of `process_image`
  (lines 42-47). It covers the uniform scale `min(W/w, H/h)`, the truncated
  scaled size and the centring offsets.
- `Paths` (`paths.dfy`): paths as sequences of segments. It covers
  `PurePath.suffix`, `lower()`, the image filter (line 68), `relative_to`
  and the re-rooting under the output directory (lines 79-80, 90).
- `Collector` (`collector.dfy`): the archive-mode test (line 58) and the
  loop that writes each upload into `temp_input` (lines 63-65).
- `Batch` (`batch.dfy`): the submission loop (lines 77-83), with one job per
  image path and a progress value `i / total` after each submission.
- `Packager` (`packager.dfy`): the `os.walk` loop that names each output
  file in the archive by its path relative to `output_images` (lines 85-91).
- `Pipeline` (`pipeline.dfy`): one run of the page from the widget values
  to the outcome (lines 35-36, 51-100).

What the file system answers is a parameter: the listing the recursive glob
returns, and the triples `os.walk` yields. The requires clauses say what
holds of these when one run has the two fixed directories to itself: every
path lies under the directory that was listed, no path is listed twice, and
in the flat branch the listing is exactly the staged files.

Two behaviours one might expect are not in the code, and so not in the model:

- A scaled side can round to zero (a 1 x 10000 source, say). The script
  itself has no check for this, so the model states it as a condition
  (`Geometry.DegenerateWidth`, `Geometry.DegenerateHeight`) and invents no
  error. The image library's resize is what then fails, inside a job whose
  failure nobody observes (see "Left out").
- The progress bar advances when a job is submitted, not when it completes.

## Model

| member | source | states |
|---|---|---|
| Color.StripLeading | app.py:35 | `strip` drops a maximal prefix of characters of the class: what it drops are all in the class, and the rest does not start with one |
| Color.StripTrailing | app.py:35 | the same for the suffix |
| Color.StripEnds | app.py:35 | `strip` returns a string no longer than its input that neither starts nor ends with a character of the class, and empty when every character is in the class |
| Color.StripUnchanged | app.py:35 | a string that neither starts nor ends with a stripped character is unchanged by `strip` |
| Color.Slice | app.py:35 | `s[i:j]` never raises and is at most `j - i` characters long |
| Color.HexValue | app.py:35 | the base-16 value of n digits is below 16^n |
| Color.PairValue | app.py:35 | a two-digit hex value is at most 255 |
| Color.ParseHex | app.py:35 | `int(t, 16)` succeeds only with a value of at most `len(t)` hex digits in magnitude (its absolute value is below 16^len(t)) |
| Color.ParseHexDigits | app.py:35 | a non-empty run of hex digits parses to its base-16 value |
| Color.HexPairValue | app.py:35 | a two-digit slice parses to `16 * hi + lo` |
| Color.ParseColor | app.py:35 | when the colour parses, each component lies strictly between -256 and 256 |
| Color.StripHashPrefix | app.py:35 | `strip("#")` of `#` and hex digits is just the digits |
| Color.HashDigitsParse | app.py:35 | `#` plus five or more hex digits parses to the pair values; with exactly five, blue is the single last digit; later digits are ignored |
| Color.ShortColorRejected | app.py:35 | `#` plus four or fewer digits leaves an empty slice, so the parse fails |
| Color.PickerColorParses | app.py:22-25 | every `#rrggbb` picker value parses to the three pair values, each in 0..255 |
| Color.DefaultBackground | app.py:22-25 | the default `#f2f2f2` gives (242, 242, 242) |
| Color.FormatColor | app.py:22-25 | any byte triple written as the picker writes it is a valid picker value |
| Color.ColorRoundTrip | app.py:22-25 | parsing the picker's text for a colour gives back that colour |
| Settings.TargetSize | app.py:36 | the canvas is 1080 wide; it is square exactly for the "1080x1080" option, otherwise 1920 high |
| Settings.TargetSizeMatchesChoice | app.py:16-20 | each radio option's label is the decimal size of the canvas it selects |
| Settings.DownloadName | app.py:98 | the name is `imagens_` + choice + `.zip`, and the choice can be read back from the middle |
| Geometry.FitScale | app.py:43 | the scale is positive, fits both axes, and is exact on one of them (the minimum of the two ratios) |
| Geometry.ScaledSize | app.py:44 | each scaled side is the floor of the source side times the scale |
| Geometry.ScaledSizeUnique | app.py:44 | any size meeting that floor property is the one computed |
| Geometry.CentreOffset | app.py:47 | the offset is non-negative, leaves room for the extent, and the far padding is the near padding plus 0 or 1 |
| Geometry.Fit | app.py:42-47 | the scaled image fits the canvas, fills it on the binding axis, and sits centred with any odd pixel on the right or bottom |
| Geometry.Layout | app.py:42-47 | a source with a zero side fails with a division by zero (None); otherwise the placement is `Fit`'s: it fits, fills the binding axis and is centred |
| Geometry.DegenerateHeight | app.py:44 | the scaled height is 0 exactly when the source is more than W times wider than high |
| Geometry.DegenerateWidth | app.py:44 | the scaled width is 0 exactly when the source is more than H times higher than wide |
| Geometry.ThinSourceVanishes | app.py:43-44 | a 1 x 10000 source on the square canvas gets width 0 |
| Geometry.FitOfTargetSized | app.py:43-47 | a source already of the target size is kept at its size, at offset (0, 0) |
| Geometry.WideSourceOnSquare | app.py:43-47 | 4000 x 2000 on 1080 x 1080 becomes 1080 x 540 at (0, 270) |
| Geometry.TallSourceOnPortrait | app.py:43-47 | 500 x 1000 on 1080 x 1920 becomes 960 x 1920 at (60, 0) |
| Paths.Lower | app.py:68 | lower-casing keeps the length |
| Paths.LastDot | app.py:68 | the index of the last `.`, or -1 when there is none |
| Paths.Suffix | app.py:68 | the suffix is empty, or a `.` plus at least one more character and no other dot, ending the name and shorter than it |
| Paths.SuffixOfExtension | app.py:68 | a non-empty stem plus a single-dot extension has that extension as its suffix |
| Paths.ImageNameShape | app.py:68 | an image name has a dot that is not its first character, followed by three or four more characters |
| Paths.ImagePaths | app.py:68 | a path is kept iff it is in the listing and its lower-cased suffix is `.jpg`, `.jpeg`, `.png` or `.webp` |
| Paths.ImagePathsAppend | app.py:68 | the filter keeps order: it distributes over concatenation |
| Paths.ImagePathsCount | app.py:68 | each image path is kept as often as it occurs, and every other path is dropped |
| Paths.ImagePathsKeepsImages | app.py:68 | a listing of image paths only passes unchanged |
| Paths.ImagePathsDistinct | app.py:68 | filtering a listing without repeats gives one without repeats |
| Paths.DistinctCard | app.py:68-69 | a listing without repeats has as many distinct paths as entries, so `len` counts files |
| Paths.ImageExtensionKept | app.py:68 | an image extension in any letter case is kept |
| Paths.HiddenPngSkipped | app.py:68 | a file named `.png` has no suffix and is skipped |
| Paths.RelativeTo | app.py:79 | `relative_to` succeeds exactly when the base is a leading run of segments of the path, and gives the rest, which rejoined to the base is the path |
| Paths.Reroot | app.py:79-80 | the re-rooted path is under the output directory, with the same relative path as the input |
| Paths.RelativeToJoin | app.py:90 | taking `root / rel` relative to `root` gives back `rel` |
| Paths.RerootInjective | app.py:79-80 | distinct inputs are re-rooted to distinct outputs |
| Collector.IsArchiveMode | app.py:58 | archive mode needs exactly one upload, and its name is never an image name |
| Collector.Staged | app.py:63-65 | the staged names are exactly the uploaded names |
| Collector.LastUploadWins | app.py:63-65 | with repeated names, the last upload's bytes are staged |
| Collector.WriteUploads | app.py:63-65 | the loop leaves the staging directory as `Staged` describes |
| Collector.FlatModeImages | app.py:63-68 | in the flat branch every image path is an uploaded name directly under `temp_input`, and every upload with an image name is among them |
| Collector.StagedPathsCard | app.py:63-65 | distinct names give distinct paths under `temp_input` |
| Collector.FlatImageIsStagedName | app.py:63-68 | in the flat branch an image path is `temp_input/<n>` for an uploaded image name n |
| Collector.StagedImageName | app.py:63-68 | a staged name with an image suffix is one of the uploaded image names |
| Collector.StagedNameIsImage | app.py:63-68 | in the flat branch each uploaded image name n gives the image path `temp_input/<n>` |
| Collector.FlatImageSet | app.py:63-68 | in the flat branch the image paths are exactly the uploaded image names under `temp_input` |
| Collector.FlatImageCount | app.py:63-69 | in the flat branch `total` is the number of distinct uploaded image names |
| Collector.ZipNameNotImage | app.py:58-68 | a name ending in `.zip` in any case is never an image name |
| Collector.ArchiveAmongSeveralIgnored | app.py:58-68 | with several uploads, a `.zip` among them takes the flat branch; it is staged and then filtered out |
| Collector.DownloadIsArchive | app.py:58 | the downloaded archive, uploaded alone, is taken as an archive |
| Batch.JobFor | app.py:79-81 | a job reads its image and writes under the output directory at the same relative path |
| Batch.Jobs | app.py:78-81 | one job per image path, in order, each preserving the relative path |
| Batch.ProgressUpdates | app.py:82 | one value per image, each over the total, with 0 < i <= total, the last being total / total |
| Batch.ProgressRises | app.py:82 | the progress values strictly increase, lie in (0, 1] and end at exactly 1 |
| Batch.SubmitAll | app.py:77-83 | the loop submits `Jobs` of the paths and shows `ProgressUpdates`: value i / total after the i-th submission |
| Batch.DestinationsDistinct | app.py:79-81 | distinct image paths give distinct output files |
| Packager.StepFiles | app.py:89 | each file path is the walked directory plus one file name |
| Packager.WalkFiles | app.py:87-89 | every name the walk lists in a directory yields that directory joined with the name |
| Packager.WalkFilesFromWalk | app.py:87-89 | every file path is a walked directory joined with one of the names listed in it |
| Packager.StepEntries | app.py:88-90 | one member per file of a walk step, in order, each named by the path that rejoined under `output_images` is the file and ending in the file name |
| Packager.EntryFor | app.py:89-91 | the archive name rejoined under the output directory is the file, and it ends in the file name |
| Packager.ArchiveEntries | app.py:86-91 | one entry per walked file, in walk order, whose name rejoined under the output directory is that file |
| Packager.Package | app.py:86-91 | the nested walk loop produces `ArchiveEntries` |
| Packager.ArcnamesDistinct | app.py:90 | distinct files get distinct archive names |
| Packager.EntryOfDestination | app.py:79-90 | an entry read from a job's output is named by that job's relative input path |
| Packager.ArchiveMirrorsInput | app.py:77-91 | if the output tree holds only job outputs, the archive names are relative input paths; if every job wrote its file, they are exactly those paths |
| Pipeline.Run | app.py:35-100 | a bad colour fails first; with no uploads nothing happens; no images stops the run; otherwise the outcome is the canvas, colour, jobs, progress, archive and download name as specified, and staging happens only in the flat branch |
| Pipeline.FlatJobDestination | app.py:79-80 | a path directly under `temp_input` is written directly under `output_images` with the same name |
| Pipeline.FlatJobFromUpload | app.py:63-81 | in the flat branch each job writes the file of one uploaded name |
| Pipeline.FlatJobsFromUploads | app.py:63-81 | in the flat branch every job writes `output_images/<name>` for some upload |
| Pipeline.FlatUploadsGetJobs | app.py:63-81 | in the flat branch every uploaded image gets a job writing `output_images/<name>` |
| Pipeline.FlatJobCount | app.py:63-81 | a flat upload gets exactly one job per distinct uploaded image name (three images, three jobs) |
| Pipeline.FlatUploadsConverted | app.py:63-81 | uploading image files never stops with "no images", and converts exactly those files |

## Left out

- Streamlit UI calls are not modelled: page setup, the radio, picker and uploader widgets, messages, the status text, balloons and the download button. Widget values are parameters. The progress bar is the sequence of fractions.
- PIL is not modelled: decoding, `convert("RGB")`, the Lanczos resize, `Image.new`, `paste` and `save(quality=90)`. Only the integer geometry passed to them is modelled. What PIL does with a zero-sized resize is also not modelled.
- Zip extraction and creation, `io.BytesIO`, `os.makedirs` and `shutil.rmtree` are not modelled. Extraction is represented by the listing passed to `Pipeline.Run`. Packaging is represented by the list of archive entries.
- The thread pool (8 workers) is not modelled. Its jobs are the `Job` values. The walk of `output_images` takes place after the `with` block has waited for them. The order in which jobs complete is not modelled.
- Geometry.ScaledSize: uses the exact fraction, not the floating-point `scale`, so a float product that truncates to one below the exact value is not reproduced.
- Per-job failures (decode or write errors) are not modelled, because the script discards the futures and never observes them.
- Color.ParseHex: models ASCII white space (characters 9-13 and space, the ones `int()` skips in an ASCII string) and ASCII hex digits only. Unicode digits and spaces are not modelled. The `0x` prefix and `_` separators cannot yield a valid number in a slice of at most two characters, so they are omitted.
- Paths.Lower: lower-cases ASCII letters only.
- Paths.RelativeTo: also stands for `os.path.relpath`; they agree on the paths the walk yields, which are below the base, but the `..` and normalisation cases of `relpath` are not modelled.
- Sessions sharing the directories: `temp_input` and `output_images` are fixed names that every run deletes and refills. Streamlit serves all browser sessions from one process and working directory. Two overlapping runs can therefore remove or add each other's files. The requires of `Pipeline.Run` assume one run at a time; what happens under overlapping runs is not modelled.
- Corrupt archives: in archive mode, an upload that is not a zip makes `zipfile.ZipFile(...)` on line 59 raise `BadZipFile`, and a damaged member of a real zip makes `extractall` on line 60 raise it; either ends the run. `Pipeline.Run` has no such outcome; it takes whatever listing it is given.
- Zero scaled side: Pillow's `resize` rejects a size with a zero side by raising `ValueError`. That happens inside a submitted job whose future is discarded, so the image is just missing from the archive. The model does not capture this, and `Packager.ArchiveMirrorsInput`'s hypothesis that every job wrote its file then fails for that image.
- Uploaded file names are taken to be single path segments; a name containing a separator is not modelled.
