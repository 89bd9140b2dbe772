/** The command-line cropper of `cropper.py`: `auto_crop` (decide between
    "no foreground", "nothing to crop" and "write the cropped image", and
    name the destination), `_list_image_files` (the supported images of a
    directory, sorted), and the option rules of the `crop` command.

    Pillow, the filesystem and typer are not modelled: the decoded image and
    the directory listing are parameters, and the command yields a plan of
    crop jobs instead of running them. */
module Cropper {
  import opened Wrappers
  import opened CropperMask
  import opened AsciiCase

  const ImageExtensions: set<string> := {".jpg", ".jpeg", ".png", ".bmp", ".gif", ".tiff", ".webp"}

  /** The default of the `--tolerance` option. */
  const CliDefaultTolerance: int := 200

  const UniformImageMessage := "Unable to determine crop box - is the image entirely uniform?"
  const OutputWithSiblingsMessage := "--output cannot be used together with --include-siblings."
  const CroppedTag := "-cropped"

  // ---------------------------------------------------------------------
  // pathlib: name, stem, suffix

  /** A path as its directory and its final component. */
  datatype Path = Path(parent: string, name: string)

  /** `name.rfind('.')` */
  function LastDot(name: string): (i: int)
    ensures -1 <= i < |name|
    ensures i >= 0 ==> name[i] == '.'
    ensures forall k :: i < k < |name| ==> name[k] != '.'
  {
    if name == [] then -1
    else if name[|name| - 1] == '.' then |name| - 1
    else LastDot(name[..|name| - 1])
  }

  /** A dot that is neither the first nor the last character starts the
      suffix. */
  predicate HasSuffix(name: string) {
    0 < LastDot(name) < |name| - 1
  }

  /** `PurePath.suffix`: empty, or a dot, at least one more character, and
      no further dot, ending the name. */
  function Suffix(name: string): (suffix: string)
    ensures suffix == [] <==> !HasSuffix(name)
    ensures suffix != [] ==> |suffix| >= 2 && suffix[0] == '.' &&
                             (forall k :: 1 <= k < |suffix| ==> suffix[k] != '.') &&
                             |suffix| <= |name| && suffix == name[|name| - |suffix|..]
  {
    if HasSuffix(name) then name[LastDot(name)..] else []
  }

  /** `PurePath.stem`: the name without its suffix. */
  function Stem(name: string): (stem: string)
    ensures stem + Suffix(name) == name
    ensures HasSuffix(name) ==> stem != []
  {
    if HasSuffix(name) then name[..LastDot(name)] else name
  }

  /** `source.with_name(f"{source.stem}-cropped{source.suffix}")` */
  /** It sits beside the source and its name is longer by `-cropped`, so
      the source is never overwritten. */
  function DefaultDestination(source: Path): (dest: Path)
    ensures dest.parent == source.parent
    ensures |dest.name| == |source.name| + |CroppedTag|
  {
    assert |Stem(source.name)| + |Suffix(source.name)| == |source.name|;
    Path(source.parent, Stem(source.name) + CroppedTag + Suffix(source.name))
  }

  /** `destination or <default>`: a given destination is used as it is. */
  function Destination(source: Path, destination: Option<Path>): (dest: Path)
    ensures destination.Some? ==> dest == destination.value
    ensures destination.None? ==> dest == DefaultDestination(source)
    ensures destination.None? ==> dest.parent == source.parent && dest.name != source.name
  {
    if destination.Some? then destination.value
    else DefaultDestination(source)
  }

  lemma LastDotAt(name: string, i: nat)
    requires i < |name| && name[i] == '.'
    requires forall k :: i < k < |name| ==> name[k] != '.'
    ensures LastDot(name) == i
  {
  }

  /** A source with a suffix keeps it: the default destination has the same
      suffix and the stem gains `-cropped`. */
  lemma DefaultDestinationKeepsSuffix(source: Path)
    requires HasSuffix(source.name)
    ensures Suffix(DefaultDestination(source).name) == Suffix(source.name)
    ensures Stem(DefaultDestination(source).name) == Stem(source.name) + CroppedTag
  {
    var stem, suffix := Stem(source.name), Suffix(source.name);
    var name := DefaultDestination(source).name;
    var i := |stem| + |CroppedTag|;
    assert name == (stem + CroppedTag) + suffix;
    assert name[i] == suffix[0] == '.';
    forall k | i < k < |name| ensures name[k] != '.' {
      assert name[k] == suffix[k - i];
    }
    LastDotAt(name, i);
    assert name[i..] == suffix;
    assert name[..i] == stem + CroppedTag;
  }

  // ---------------------------------------------------------------------
  // auto_crop

  /** `img.crop(box)` for a box inside the image. */
  function Crop<P>(img: Image<P>, box: Box): (cropped: Image<P>)
    requires img.WellFormed()
    requires box.left <= box.right <= img.width && box.upper <= box.lower <= img.height
    ensures cropped.WellFormed()
    ensures cropped.width == box.right - box.left && cropped.height == box.lower - box.upper
    ensures forall y, x :: 0 <= y < cropped.height && 0 <= x < cropped.width ==>
              cropped.rows[y][x] == img.rows[box.upper + y][box.left + x]
  {
    Image(box.right - box.left, box.lower - box.upper,
          seq(box.lower - box.upper, y requires 0 <= y < box.lower - box.upper =>
            img.rows[box.upper + y][box.left..box.right]))
  }

  datatype CropOutcome<P> =
    | NothingWritten
    | Written(destination: Path, box: Box, image: Image<P>)

  /** `auto_crop(source, destination, tolerance)` on the decoded image `img`
      (`luma` is the grayscale conversion). No foreground raises
      `ValueError`; a box covering the whole image writes nothing; otherwise
      the image cropped to the box is written to the destination. */
  function AutoCrop<P>(source: Path, destination: Option<Path>, tolerance: int, img: Image<P>, luma: P -> int)
    : (result: Result<CropOutcome<P>, string>)
    requires img.WellFormed()
    ensures result.Failure? ==> result.error == UniformImageMessage
    ensures result.Success? && result.value.Written? ==>
              var box := result.value.box;
              && result.value.destination == Destination(source, destination)
              && box != Box(0, 0, img.width, img.height)
              && box.left < box.right <= img.width && box.upper < box.lower <= img.height
              && result.value.image == Crop(img, box)
    ensures var bbox := ThresholdMask(img, luma, tolerance).1;
            && (result.Failure? <==> bbox.None?)
            && (result == Success(NothingWritten) <==> bbox == Some(Box(0, 0, img.width, img.height)))
            && (result.Success? && result.value.Written? ==> bbox == Some(result.value.box))
  {
    var dest := Destination(source, destination);
    var bbox := ThresholdMask(img, luma, tolerance).1;
    if bbox.None? then Failure(UniformImageMessage)
    else if bbox.value == Box(0, 0, img.width, img.height) then Success(NothingWritten)
    else Success(Written(dest, bbox.value, Crop(img, bbox.value)))
  }

  /** `auto_crop` raises exactly when no pixel is foreground. */
  lemma AutoCropFailsIffNoForeground<P>(source: Path, destination: Option<Path>, tolerance: int, img: Image<P>, luma: P -> int)
    requires img.WellFormed()
    ensures AutoCrop(source, destination, tolerance, img, luma).Failure? <==>
              forall y, x :: 0 <= y < img.height && 0 <= x < img.width ==> !Foreground(img, luma, tolerance, x, y)
  {
    NoBoxIffNoForeground(img, luma, tolerance);
  }

  /** With tolerance 255 or more (and gray values that are never negative)
      `auto_crop` always raises. */
  lemma AutoCropMaxToleranceFails<P>(source: Path, destination: Option<Path>, tolerance: int, img: Image<P>, luma: P -> int)
    requires img.WellFormed() && tolerance >= 255
    requires forall y, x :: 0 <= y < img.height && 0 <= x < img.width ==> luma(img.rows[y][x]) >= 0
    ensures AutoCrop(source, destination, tolerance, img, luma) == Failure(UniformImageMessage)
  {
    MaxToleranceMasksNothing(img, luma, tolerance);
  }

  /** Nothing is written exactly when the foreground touches every edge, so
      there is no border to remove. */
  lemma AutoCropSkipsIffNoBorder<P>(source: Path, destination: Option<Path>, tolerance: int, img: Image<P>, luma: P -> int)
    requires img.WellFormed()
    ensures AutoCrop(source, destination, tolerance, img, luma) == Success(NothingWritten) <==>
              TouchesAllEdges(img, luma, tolerance)
  {
    FullBoxIffTouchesAllEdges(img, luma, tolerance);
  }

  /** A written crop removes only background: every pixel outside the box is
      background. */
  lemma AutoCropRemovesOnlyBackground<P>(source: Path, destination: Option<Path>, tolerance: int, img: Image<P>, luma: P -> int, x: nat, y: nat)
    requires img.WellFormed()
    requires AutoCrop(source, destination, tolerance, img, luma).Success?
    requires AutoCrop(source, destination, tolerance, img, luma).value.Written?
    requires y < img.height && x < img.width
    ensures var box := AutoCrop(source, destination, tolerance, img, luma).value.box;
            !(box.left <= x < box.right && box.upper <= y < box.lower) ==>
              !Foreground(img, luma, tolerance, x, y)
  {
    MaskIsForeground(img, luma, tolerance, x, y);
  }

  /** A written crop removes no more than that: each edge of the box touches
      foreground. */
  lemma AutoCropBoxTouchesForeground<P>(source: Path, destination: Option<Path>, tolerance: int, img: Image<P>, luma: P -> int, box: Box)
    requires img.WellFormed()
    requires AutoCrop(source, destination, tolerance, img, luma).Success?
    requires AutoCrop(source, destination, tolerance, img, luma).value.Written?
    requires AutoCrop(source, destination, tolerance, img, luma).value.box == box
    ensures RowHasForeground(img, luma, tolerance, box.upper)
    ensures RowHasForeground(img, luma, tolerance, box.lower - 1)
    ensures ColumnHasForeground(img, luma, tolerance, box.left)
    ensures ColumnHasForeground(img, luma, tolerance, box.right - 1)
  {
    assert ThresholdMask(img, luma, tolerance).1 == Some(box);
    BBoxEdgesTouchForeground(img, luma, tolerance, box);
  }

  // ---------------------------------------------------------------------
  // _list_image_files

  datatype DirEntry = DirEntry(name: string, isFile: bool)

  /** `file.is_file() and file.suffix.lower() in IMAGE_EXTENSIONS`: only a
      regular file with a suffix can qualify. */
  predicate IsImageFile(entry: DirEntry): (isImage: bool)
    ensures isImage ==> entry.isFile && HasSuffix(entry.name)
  {
    entry.isFile && ToLowerAscii(Suffix(entry.name)) in ImageExtensions
  }

  /** The qualifying entries of a directory, in listing order. */
  function ImageFilesIn(directory: string, entries: seq<DirEntry>): (files: seq<Path>)
    ensures |files| <= |entries|
    ensures forall p :: p in files <==>
              p.parent == directory && exists e :: e in entries && IsImageFile(e) && e.name == p.name
  {
    if entries == [] then []
    else
      var rest := ImageFilesIn(directory, entries[1..]);
      assert forall e :: e in entries <==> e == entries[0] || e in entries[1..];
      if IsImageFile(entries[0]) then [Path(directory, entries[0].name)] + rest else rest
  }

  /** Python's string order: code points compared left to right, a proper
      prefix first. */
  predicate NameLe(a: string, b: string) {
    if a == [] then true
    else if b == [] then false
    else if a[0] != b[0] then a[0] < b[0]
    else NameLe(a[1..], b[1..])
  }

  lemma {:induction false} NameLeTotal(a: string, b: string)
    ensures NameLe(a, b) || NameLe(b, a)
  {
    if a != [] && b != [] && a[0] == b[0] {
      NameLeTotal(a[1..], b[1..]);
    }
  }

  lemma {:induction false} NameLeTransitive(a: string, b: string, c: string)
    requires NameLe(a, b) && NameLe(b, c)
    ensures NameLe(a, c)
  {
    if a != [] && b != [] && c != [] && a[0] == b[0] == c[0] {
      NameLeTransitive(a[1..], b[1..], c[1..]);
    }
  }

  /** All paths share one directory, so sorting paths is sorting names. */
  predicate SortedByName(paths: seq<Path>) {
    forall i, j :: 0 <= i < j < |paths| ==> NameLe(paths[i].name, paths[j].name)
  }

  predicate NoneBefore(p: Path, paths: seq<Path>) {
    forall q :: q in paths ==> NameLe(p.name, q.name)
  }

  function InsertByName(p: Path, sorted: seq<Path>): (result: seq<Path>)
    requires SortedByName(sorted)
    ensures SortedByName(result)
    ensures multiset(result) == multiset(sorted) + multiset{p}
  {
    if sorted == [] then [p]
    else if NameLe(p.name, sorted[0].name) then
      assert NoneBefore(p, sorted) by {
        forall q | q in sorted ensures NameLe(p.name, q.name) {
          var k :| 0 <= k < |sorted| && sorted[k] == q;
          if k > 0 { NameLeTransitive(p.name, sorted[0].name, q.name); }
        }
      }
      [p] + sorted
    else
      var rest := InsertByName(p, sorted[1..]);
      assert sorted == [sorted[0]] + sorted[1..];
      assert NoneBefore(sorted[0], rest) by {
        forall q | q in rest ensures NameLe(sorted[0].name, q.name) {
          assert q in multiset(rest);
          if q == p {
            NameLeTotal(p.name, sorted[0].name);
          } else {
            assert q in multiset(sorted[1..]);
            var k :| 0 <= k < |sorted[1..]| && sorted[1..][k] == q;
            assert sorted[k + 1] == q;
          }
        }
      }
      [sorted[0]] + rest
  }

  /** `sorted(...)` */
  function SortByName(paths: seq<Path>): (sorted: seq<Path>)
    ensures SortedByName(sorted)
    ensures multiset(sorted) == multiset(paths)
  {
    if paths == [] then []
    else
      assert paths == [paths[0]] + paths[1..];
      InsertByName(paths[0], SortByName(paths[1..]))
  }

  /** `_list_image_files(directory)`: the supported image files of the
      listing, sorted; each exactly once per directory entry. */
  function ListImageFiles(directory: string, entries: seq<DirEntry>): (files: seq<Path>)
    ensures SortedByName(files)
    ensures multiset(files) == multiset(ImageFilesIn(directory, entries))
  {
    SortByName(ImageFilesIn(directory, entries))
  }

  /** A listed path is in the directory and names a regular file whose
      lower-cased suffix is a supported extension; every such file is
      listed. */
  lemma ListImageFilesMembership(directory: string, entries: seq<DirEntry>, p: Path)
    ensures p in ListImageFiles(directory, entries) <==>
              p.parent == directory &&
              exists e :: e in entries && e.isFile && e.name == p.name &&
                          ToLowerAscii(Suffix(e.name)) in ImageExtensions
  {
    var files := ListImageFiles(directory, entries);
    assert p in files <==> p in multiset(files);
    assert p in ImageFilesIn(directory, entries) <==> p in multiset(ImageFilesIn(directory, entries));
  }

  // ---------------------------------------------------------------------
  // The crop command's option rules

  datatype CropJob = CropJob(source: Path, destination: Option<Path>, tolerance: int)

  datatype UsageError = ToleranceOutOfRange(tolerance: int) | BadParameter(message: string)

  /** What `crop` does with its options: refuse them, exit with a code, or
      run `auto_crop` on each job in order. */
  datatype CommandPlan = Refused(error: UsageError) | Exit(code: int) | Run(jobs: seq<CropJob>)

  /** `crop_command`: the tolerance (200 when omitted) must lie in 0..255
      (typer checks this first); `--output` with `--include-siblings` is
      refused; with siblings every listed image of the source's directory is
      cropped to its default destination, and an empty listing exits with
      code 1; otherwise the source alone is cropped to `--output`. */
  function CropCommand(source: Path, includeSiblings: bool, output: Option<Path>, tolerance: Option<int>, siblings: seq<DirEntry>)
    : (plan: CommandPlan)
    ensures var t := tolerance.GetOr(CliDefaultTolerance);
            && (plan == Refused(ToleranceOutOfRange(t)) <==> !(0 <= t <= 255))
            && (plan.Refused? <==> !(0 <= t <= 255) || (includeSiblings && output.Some?))
            && (0 <= t <= 255 && includeSiblings && output.Some? ==>
                  plan == Refused(BadParameter(OutputWithSiblingsMessage)))
            && (plan.Exit? <==> 0 <= t <= 255 && includeSiblings && output.None? &&
                                ListImageFiles(source.parent, siblings) == [])
            && (plan.Exit? ==> plan.code == 1)
            && (plan.Run? ==> 0 <= t <= 255 && forall job :: job in plan.jobs ==> job.tolerance == t)
            && (plan.Run? && !includeSiblings ==> plan.jobs == [CropJob(source, output, t)])
  {
    var t := tolerance.GetOr(CliDefaultTolerance);
    if !(0 <= t <= 255) then Refused(ToleranceOutOfRange(t))
    else if includeSiblings && output.Some? then Refused(BadParameter(OutputWithSiblingsMessage))
    else if includeSiblings then
      var images := ListImageFiles(source.parent, siblings);
      if images == [] then Exit(1)
      else Run(seq(|images|, i requires 0 <= i < |images| => CropJob(images[i], None, t)))
    else Run([CropJob(source, output, t)])
  }

  /** With `--include-siblings` the jobs are the sorted supported images of
      the source's directory, each written to its default destination. */
  lemma SiblingJobsAreSortedImages(source: Path, tolerance: Option<int>, siblings: seq<DirEntry>)
    requires CropCommand(source, true, None, tolerance, siblings).Run?
    ensures var jobs := CropCommand(source, true, None, tolerance, siblings).jobs;
            var images := ListImageFiles(source.parent, siblings);
            && |jobs| == |images| > 0
            && (forall i :: 0 <= i < |jobs| ==> jobs[i].source == images[i] && jobs[i].destination.None?)
            && (forall i, j :: 0 <= i < j < |jobs| ==> NameLe(jobs[i].source.name, jobs[j].source.name))
  {
  }
}
