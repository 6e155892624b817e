/**
 * The multi-file command-line scanner: which files it treats as images,
 * how many barcodes it counts per file, and the per-directory and overall
 * statistics it prints.
 */
module CommandLine {
  import opened Wrappers
  import opened Sdk
  import ConsoleInput
  import Text

  // ---------------------------------------------------------------------------
  // isSupportedImageFile

  /** The last path component (`path::filename`), with '/' as the separator. */
  function FileName(p: string): (r: string)
    ensures |r| <= |p| && r == p[|p| - |r|..]
    ensures forall i :: 0 <= i < |r| ==> r[i] != '/'
  {
    if p == [] then []
    else if p[|p| - 1] == '/' then []
    else FileName(p[..|p| - 1]) + [p[|p| - 1]]
  }

  /** Index of the rightmost '.' at a position >= 1, if any. */
  function LastDotAfterFirst(name: string): (r: Option<nat>)
    ensures r.Some? ==> 1 <= r.value < |name| && name[r.value] == '.'
    ensures r.Some? ==> forall k :: r.value < k < |name| ==> name[k] != '.'
    ensures r.None? ==> forall k :: 1 <= k < |name| ==> name[k] != '.'
  {
    if |name| <= 1 then None
    else if name[|name| - 1] == '.' then Some(|name| - 1)
    else LastDotAfterFirst(name[..|name| - 1])
  }

  /**
   * The extension of a '/'-free file name: from its rightmost '.' to its end,
   * or empty when the name is "." or "..", has no '.', or has its only '.'
   * first (a hidden file such as ".profile").
   */
  function NameExtension(name: string): (r: string)
    ensures r == [] || r[0] == '.'
    ensures |r| <= |name| && r == name[|name| - |r|..]
  {
    if name == "." || name == ".." then ""
    else match LastDotAfterFirst(name)
      case None => ""
      case Some(i) => name[i..]
  }

  /** `path::extension`: the extension of the last path component. */
  function Extension(p: string): (r: string)
    ensures r == [] || r[0] == '.'
    ensures |r| <= |p| && r == p[|p| - |r|..]
  {
    NameExtension(FileName(p))
  }

  /** The extensions the scanner accepts, compared after lower-casing. */
  const SupportedExtensions: seq<string> := [".jpg", ".jpeg", ".png", ".bmp", ".tif", ".tiff", ".gif", ".pdf"]

  /** `isSupportedImageFile`: the lower-cased extension is one of the listed ones. */
  predicate IsSupportedImageFile(p: string)
  {
    Text.LowerAscii(Extension(p)) in SupportedExtensions
  }

  /**
   * A path is accepted exactly when its own tail, as long as its extension,
   * spells a listed extension once lower-cased.
   */
  lemma SupportedImageFileSuffix(p: string)
    ensures IsSupportedImageFile(p)
        <==> var e := Extension(p); Text.LowerAscii(p)[|p| - |e|..] in SupportedExtensions
  {
    LowerEndsWith(p, Extension(p));
  }

  /** An accepted path ends in a dot and three or four more characters. */
  lemma SupportedExtensionLength(p: string)
    ensures IsSupportedImageFile(p) ==> 4 <= |Extension(p)| <= 5 && Extension(p)[0] == '.'
  {
    if IsSupportedImageFile(p) {
      var l := Text.LowerAscii(Extension(p));
      assert |l| == |Extension(p)|;
      assert l in SupportedExtensions;
      assert forall x :: x in SupportedExtensions ==> 4 <= |x| <= 5;
    }
  }

  /** Lower-casing preserves a suffix relation. */
  lemma LowerEndsWith(p: string, e: string)
    requires |e| <= |p| && p[|p| - |e|..] == e
    ensures Text.LowerAscii(p)[|p| - |e|..] == Text.LowerAscii(e)
  {
    var lp, le := Text.LowerAscii(p), Text.LowerAscii(e);
    var d := |p| - |e|;
    forall k | 0 <= k < |le| ensures lp[d..][k] == le[k] {
      assert p[d..][k] == e[k];
    }
    assert lp[d..] == le;
  }

  /**
   * For a file name `stem.ext` (stem not empty and not ".", `ext` without '.'
   * or '/'), the file is accepted exactly when ".ext", lower-cased, is in the
   * list: the case of the extension matters not, and the directory is ignored.
   */
  lemma SupportedByExtension(dir: string, stem: string, ext: string)
    requires stem != [] && stem != "."
    requires forall k :: 0 <= k < |stem| ==> stem[k] != '/'
    requires forall k :: 0 <= k < |ext| ==> ext[k] != '.' && ext[k] != '/'
    ensures IsSupportedImageFile(dir + "/" + stem + "." + ext)
        <==> Text.LowerAscii("." + ext) in SupportedExtensions
  {
    var name := stem + "." + ext;
    NameOfStemExt(stem, ext);
    FileNameAfterSlash(dir + "/", name);
    JoinName(dir, stem, ext);
    ExtensionOfName(dir + "/", name, |stem|);
    assert Extension(dir + "/" + stem + "." + ext) == "." + ext;
  }

  /** `stem.ext` has no '/', is neither "." nor "..", and has its last '.' at `|stem|`. */
  lemma NameOfStemExt(stem: string, ext: string)
    requires stem != [] && stem != "."
    requires forall k :: 0 <= k < |stem| ==> stem[k] != '/'
    requires forall k :: 0 <= k < |ext| ==> ext[k] != '.' && ext[k] != '/'
    ensures var name := stem + "." + ext;
      && (forall k :: 0 <= k < |name| ==> name[k] != '/')
      && name != "." && name != ".."
      && name[|stem|] == '.' && (forall k :: |stem| < k < |name| ==> name[k] != '.')
      && name[|stem|..] == "." + ext
  {
    var name := stem + "." + ext;
    if |name| == 2 {
      assert |stem| == 1 && ext == [];
      assert name[0] == stem[0];
      assert stem == [stem[0]];
    }
    forall k | |stem| < k < |name| ensures name[k] != '.' {
      assert name[k] == ext[k - |stem| - 1];
    }
    forall k | 0 <= k < |name| ensures name[k] != '/' {
      if k < |stem| { assert name[k] == stem[k]; }
      else if k > |stem| { assert name[k] == ext[k - |stem| - 1]; }
    }
  }

  /** The extension of a '/'-free name whose last '.' sits at `i >= 1`. */
  lemma ExtensionOfName(dir: string, name: string, i: nat)
    requires dir == [] || dir[|dir| - 1] == '/'
    requires forall k :: 0 <= k < |name| ==> name[k] != '/'
    requires name != "." && name != ".."
    requires 1 <= i < |name| && name[i] == '.'
    requires forall k :: i < k < |name| ==> name[k] != '.'
    ensures Extension(dir + name) == name[i..]
  {
    FileNameAfterSlash(dir, name);
    NameExtensionAt(name, i);
  }

  /** A name other than "." and ".." whose last '.' sits at `i >= 1` has the extension from `i`. */
  lemma NameExtensionAt(name: string, i: nat)
    requires name != "." && name != ".."
    requires 1 <= i < |name| && name[i] == '.'
    requires forall k :: i < k < |name| ==> name[k] != '.'
    ensures NameExtension(name) == name[i..]
  {
    LastDotAt(name, i);
  }

  /** The rightmost '.' after the first character is the one at `i` when none follows it. */
  lemma LastDotAt(name: string, i: nat)
    requires 1 <= i < |name| && name[i] == '.'
    requires forall k :: i < k < |name| ==> name[k] != '.'
    ensures LastDotAfterFirst(name) == Some(i)
  {
    var d := LastDotAfterFirst(name);
    assert d.Some?;
  }

  /** A name without a '.' after its first character has no extension dot. */
  lemma NoLaterDot(name: string)
    requires forall k :: 1 <= k < |name| ==> name[k] != '.'
    ensures LastDotAfterFirst(name).None?
  {
  }

  /** The file name of `dir + name` is `name` when `name` holds no '/' and `dir` is empty or ends in '/'. */
  lemma {:induction false} FileNameAfterSlash(dir: string, name: string)
    requires dir == [] || dir[|dir| - 1] == '/'
    requires forall k :: 0 <= k < |name| ==> name[k] != '/'
    ensures FileName(dir + name) == name
    decreases |name|
  {
    if name == [] {
      assert dir + name == dir;
    } else {
      var init := name[..|name| - 1];
      InitOfConcat(dir, name);
      FileNameAfterSlash(dir, init);
      assert init + [name[|name| - 1]] == name;
    }
  }

  /** `dir/stem.ext` is the directory with its '/' followed by the name `stem.ext`. */
  lemma JoinName(dir: string, stem: string, ext: string)
    ensures dir + "/" + stem + "." + ext == (dir + "/") + (stem + "." + ext)
  {
  }

  /** Dropping the last character of `a + b`, for a non-empty `b`, drops it from `b`. */
  lemma InitOfConcat(a: string, b: string)
    requires b != []
    ensures (a + b)[..|a + b| - 1] == a + b[..|b| - 1]
    ensures (a + b)[|a + b| - 1] == b[|b| - 1]
  {
  }

  /** A hidden file `.ext` (no other '.') has no extension, so it is never accepted. */
  lemma HiddenFileRejected(dir: string, ext: string)
    requires forall k :: 0 <= k < |ext| ==> ext[k] != '.' && ext[k] != '/'
    ensures !IsSupportedImageFile(dir + "/" + "." + ext)
  {
    HiddenFileHasNoExtension(dir, ext);
    NoExtensionRejected(dir + "/" + "." + ext);
  }

  /** A path without an extension is not accepted. */
  lemma NoExtensionRejected(p: string)
    requires Extension(p) == []
    ensures !IsSupportedImageFile(p)
  {
  }

  /** `dir/.ext` has an empty extension. */
  lemma HiddenFileHasNoExtension(dir: string, ext: string)
    requires forall k :: 0 <= k < |ext| ==> ext[k] != '.' && ext[k] != '/'
    ensures Extension(dir + "/" + "." + ext) == []
  {
    var name := ['.'] + ext;
    forall k | 1 <= k < |name| ensures name[k] == ext[k - 1] { }
    FileNameAfterSlash(dir + "/", name);
    assert dir + "/" + "." + ext == (dir + "/") + name;
    NoLaterDot(name);
  }

  // ---------------------------------------------------------------------------
  // processImageFile

  /** A `Release` call made by `processImageFile`. */
  datatype Release = SubResult(page: nat) | ResultArray

  /** Whether page `p`'s barcodes are counted: page error 0 and a non-null sub-result with error 0. */
  predicate PageCounted(p: CapturedResult)
  {
    p.errorCode == 0 && p.barcodes.Some? && p.barcodes.value.errorCode == 0
  }

  /** Barcodes counted over a list of pages (reference definition). */
  function CountedItems(pages: seq<CapturedResult>): nat
  {
    if pages == [] then 0
    else CountedItems(pages[..|pages| - 1])
         + (var p := pages[|pages| - 1]; if PageCounted(p) then |p.barcodes.value.items| else 0)
  }

  /** The sub-results released: those of pages with error 0 whose sub-result is non-null. */
  function SubReleases(pages: seq<CapturedResult>, from: nat): seq<Release>
  {
    if pages == [] then []
    else SubReleases(pages[..|pages| - 1], from)
         + (var p := pages[|pages| - 1];
            if p.errorCode == 0 && p.barcodes.Some? then [SubResult(from + |pages| - 1)] else [])
  }

  /**
   * `processImageFile` over the pages `CaptureMultiPages` returned: the sum of
   * item counts over counted pages, and the `Release` calls in order (each
   * non-null sub-result of a page without error, then the result array once).
   * A page with an error is skipped before its sub-result is fetched.
   */
  method ProcessImageFile(pages: seq<CapturedResult>) returns (total: nat, released: seq<Release>)
    ensures total == CountedItems(pages)
    ensures released == SubReleases(pages, 0) + [ResultArray]
    ensures forall k :: 0 <= k < |pages| ==> !PageCounted(pages[k]) || total >= |pages[k].barcodes.value.items|
  {
    total := 0;
    released := [];
    var i := 0;
    while i < |pages|
      invariant 0 <= i <= |pages|
      invariant total == CountedItems(pages[..i])
      invariant released == SubReleases(pages[..i], 0)
    {
      var result := pages[i];
      assert pages[..i + 1][..i] == pages[..i];
      if result.errorCode != 0 {
        i := i + 1;
        continue;
      }
      var sub := result.barcodes;
      if sub.Some? && sub.value.errorCode == 0 {
        total := total + |sub.value.items|;
      }
      if sub.Some? {
        released := released + [SubResult(i)];
      }
      i := i + 1;
    }
    assert pages[..|pages|] == pages;
    released := released + [ResultArray];
    CountedBound(pages);
  }

  /** Each counted page contributes its whole item count to the total. */
  lemma {:induction false} CountedBound(pages: seq<CapturedResult>)
    ensures forall k :: 0 <= k < |pages| ==> !PageCounted(pages[k]) || CountedItems(pages) >= |pages[k].barcodes.value.items|
    decreases |pages|
  {
    if pages != [] {
      CountedBound(pages[..|pages| - 1]);
      forall k | 0 <= k < |pages| - 1 ensures pages[..|pages| - 1][k] == pages[k] { }
    }
  }

  // ---------------------------------------------------------------------------
  // ProcessingStats

  /** `ProcessingStats`. */
  datatype ProcessingStats = ProcessingStats(totalImages: nat, imagesWithBarcodes: nat, totalBarcodes: nat, failedFiles: seq<string>)

  /** A zero-initialised `ProcessingStats`. */
  const NoStats: ProcessingStats := ProcessingStats(0, 0, 0, [])

  /** What happened to one file of a directory: a barcode count, or an exception. */
  datatype FileOutcome = Counted(barcodes: nat) | Failed

  /** One file of a directory and its outcome. */
  datatype FileRun = FileRun(path: string, outcome: FileOutcome)

  /** Files that yielded at least one barcode (reference definition). */
  function WithBarcodes(files: seq<FileRun>): nat
  {
    if files == [] then 0
    else WithBarcodes(files[..|files| - 1])
         + (var o := files[|files| - 1].outcome; if o.Counted? && o.barcodes > 0 then 1 else 0)
  }

  /** Files that were processed and yielded no barcode. */
  function WithoutBarcodes(files: seq<FileRun>): nat
  {
    if files == [] then 0
    else WithoutBarcodes(files[..|files| - 1])
         + (var o := files[|files| - 1].outcome; if o.Counted? && o.barcodes == 0 then 1 else 0)
  }

  /** Sum of the barcode counts. */
  function BarcodeSum(files: seq<FileRun>): nat
  {
    if files == [] then 0
    else BarcodeSum(files[..|files| - 1])
         + (var o := files[|files| - 1].outcome; if o.Counted? then o.barcodes else 0)
  }

  /** Paths of the files whose processing threw, in order. */
  function FailedPaths(files: seq<FileRun>): seq<string>
  {
    if files == [] then []
    else FailedPaths(files[..|files| - 1])
         + (var f := files[|files| - 1]; if f.outcome.Failed? then [f.path] else [])
  }

  /**
   * The per-directory loop: every listed file counts toward `totalImages`; a
   * file counts toward `imagesWithBarcodes` only when its count is positive,
   * and `totalBarcodes` sums those counts; a file that throws is recorded in
   * `failedFiles`.
   */
  method DirectoryStats(files: seq<FileRun>) returns (stats: ProcessingStats)
    ensures stats.totalImages == |files|
    ensures stats.imagesWithBarcodes == WithBarcodes(files)
    ensures stats.totalBarcodes == BarcodeSum(files)
    ensures stats.failedFiles == FailedPaths(files)
  {
    stats := NoStats.(totalImages := |files|);
    var i := 0;
    while i < |files|
      invariant 0 <= i <= |files|
      invariant stats.totalImages == |files|
      invariant stats.imagesWithBarcodes == WithBarcodes(files[..i])
      invariant stats.totalBarcodes == BarcodeSum(files[..i])
      invariant stats.failedFiles == FailedPaths(files[..i])
    {
      assert files[..i + 1][..i] == files[..i];
      match files[i].outcome {
        case Counted(n) =>
          if n > 0 {
            stats := stats.(imagesWithBarcodes := stats.imagesWithBarcodes + 1,
                            totalBarcodes := stats.totalBarcodes + n);
          }
        case Failed =>
          stats := stats.(failedFiles := stats.failedFiles + [files[i].path]);
      }
      i := i + 1;
    }
    assert files[..|files|] == files;
  }

  /**
   * The printed "Images without barcodes" value, total - with - failed, is the
   * number of files processed without a barcode, so it is never negative.
   */
  lemma {:induction false} WithoutBarcodesCount(files: seq<FileRun>)
    ensures |files| - WithBarcodes(files) - |FailedPaths(files)| == WithoutBarcodes(files)
    decreases |files|
  {
    if files != [] {
      WithoutBarcodesCount(files[..|files| - 1]);
    }
  }

  /** One command-line argument, as classified by the file system. */
  datatype ArgRun =
    | Directory(files: seq<FileRun>)          // a directory and its supported files
    | SingleFile(path: string, outcome: FileOutcome) // a supported regular file
    | Skipped                                        // neither: a warning is printed

  /**
   * A single file whose processing throws: unlike a directory's files, it is
   * not caught, so `main` ends there and no statistics are printed.
   */
  predicate Aborts(a: ArgRun)
  {
    a.SingleFile? && a.outcome.Failed?
  }

  /** What one argument adds to the overall statistics. */
  function ArgStats(a: ArgRun): ProcessingStats
  {
    match a
    case Directory(files) =>
      ProcessingStats(|files|, WithBarcodes(files), BarcodeSum(files), FailedPaths(files))
    case SingleFile(_, Counted(n)) =>
      if n > 0 then ProcessingStats(1, 1, n, []) else ProcessingStats(1, 0, 0, [])
    case SingleFile(_, Failed) => NoStats  // never summed: the program has ended
    case Skipped => NoStats
  }

  /** Field-wise sum of statistics (`totalStats += dirStats`). */
  function AddStats(a: ProcessingStats, b: ProcessingStats): ProcessingStats
  {
    ProcessingStats(a.totalImages + b.totalImages, a.imagesWithBarcodes + b.imagesWithBarcodes,
                    a.totalBarcodes + b.totalBarcodes, a.failedFiles + b.failedFiles)
  }

  /** Overall statistics of a list of arguments (reference definition). */
  function SumStats(args: seq<ArgRun>): ProcessingStats
  {
    if args == [] then NoStats else AddStats(SumStats(args[..|args| - 1]), ArgStats(args[|args| - 1]))
  }

  /**
   * The argument loop of `main`: each directory's statistics are computed and
   * added to the totals (an empty directory is skipped, adding nothing); a
   * single file adds one image, and its count when positive. A single file
   * that throws ends the loop, and the whole program, at once.
   */
  method OverallStats(args: seq<ArgRun>) returns (total: ProcessingStats, aborted: bool)
    ensures aborted <==> exists i :: 0 <= i < |args| && Aborts(args[i])
    ensures !aborted ==> total == SumStats(args)
    ensures !aborted ==> total.imagesWithBarcodes <= total.totalImages
  {
    total := NoStats;
    aborted := false;
    var i := 0;
    while i < |args|
      invariant 0 <= i <= |args|
      invariant total == SumStats(args[..i])
      invariant forall j :: 0 <= j < i ==> !Aborts(args[j])
    {
      var added, stop := ArgumentStats(args[i]);
      if stop {
        aborted := true;
        return;
      }
      SumStatsStep(args, i);
      total := AddStats(total, added);
      i := i + 1;
    }
    assert args[..i] == args;
    StatsBounded(args);
  }

  /**
   * One argument of the loop: a non-empty directory is scanned, an empty one
   * adds nothing, a single file adds one image and its count when positive
   * or ends the program when it throws, and anything else adds nothing.
   */
  method ArgumentStats(a: ArgRun) returns (added: ProcessingStats, aborted: bool)
    ensures aborted <==> Aborts(a)
    ensures !aborted ==> added == ArgStats(a)
  {
    added := NoStats;
    aborted := false;
    match a {
      case Directory(files) =>
        if files != [] {
          added := DirectoryStats(files);
        }
      case SingleFile(_, outcome) =>
        added := added.(totalImages := 1);
        match outcome {
          case Failed =>
            aborted := true;
          case Counted(n) =>
            if n > 0 {
              added := added.(imagesWithBarcodes := 1, totalBarcodes := n);
            }
        }
      case Skipped =>
    }
  }

  /** The totals of the first `i + 1` arguments add argument `i` to those of the first `i`. */
  lemma SumStatsStep(args: seq<ArgRun>, i: nat)
    requires i < |args|
    ensures SumStats(args[..i + 1]) == AddStats(SumStats(args[..i]), ArgStats(args[i]))
  {
    assert args[..i + 1][..i] == args[..i];
  }

  /** Files with barcodes never outnumber the files processed. */
  lemma {:induction false} WithBarcodesBounded(files: seq<FileRun>)
    ensures WithBarcodes(files) + |FailedPaths(files)| <= |files|
    decreases |files|
  {
    if files != [] {
      WithBarcodesBounded(files[..|files| - 1]);
    }
  }

  /**
   * Over all arguments, images with barcodes and failed files together never
   * outnumber the images processed, so the printed "Images without barcodes"
   * difference is never negative.
   */
  lemma {:induction false} StatsBounded(args: seq<ArgRun>)
    ensures SumStats(args).imagesWithBarcodes + |SumStats(args).failedFiles| <= SumStats(args).totalImages
    decreases |args|
  {
    if args != [] {
      StatsBounded(args[..|args| - 1]);
      if args[|args| - 1].Directory? {
        WithBarcodesBounded(args[|args| - 1].files);
      }
    }
  }

  /**
   * The command-line mode of `main` over its path arguments (`argv[1..]`):
   * the arguments are processed in order until a single file throws, which
   * ends the program; otherwise the overall block is printed (`argc > 2`)
   * exactly when more than one path was given, showing the sums over every
   * argument. Its "Images without barcodes" line never underflows.
   */
  method CommandLineMode(args: seq<ArgRun>) returns (overall: Option<ProcessingStats>, aborted: bool)
    ensures aborted <==> exists i :: 0 <= i < |args| && Aborts(args[i])
    ensures overall.Some? <==> !aborted && |args| > 1
    ensures overall.Some? ==> overall.value == SumStats(args)
    ensures overall.Some? ==>
      overall.value.imagesWithBarcodes + |overall.value.failedFiles| <= overall.value.totalImages
  {
    var total;
    total, aborted := OverallStats(args);
    var argc := |args| + 1;
    if !aborted && argc > 2 {
      StatsBounded(args);
      overall := Some(total);
    } else {
      overall := None;
    }
  }

  // ---------------------------------------------------------------------------
  // getImageFilesFromDirectory

  /** One entry of the recursive directory walk, and whether it is a regular file. */
  datatype Entry = Entry(path: string, regular: bool)

  /** The test the walk applies to each entry. */
  predicate Kept(e: Entry)
  {
    e.regular && IsSupportedImageFile(e.path)
  }

  /**
   * `getImageFilesFromDirectory` over the entries the walk yields, in walk
   * order: it keeps exactly the regular files with a supported extension,
   * in the order met.
   */
  method ImageFilesFromDirectory(entries: seq<Entry>) returns (files: seq<string>)
    ensures files == KeptPaths(entries)
    ensures forall p :: p in files <==> exists e :: e in entries && Kept(e) && e.path == p
    ensures |files| <= |entries|
  {
    files := [];
    var i := 0;
    while i < |entries|
      invariant 0 <= i <= |entries|
      invariant files == KeptPaths(entries[..i])
    {
      assert entries[..i + 1][..i] == entries[..i];
      var entry := entries[i];
      if Kept(entry) {
        files := files + [entry.path];
      }
      i := i + 1;
    }
    assert entries[..|entries|] == entries;
    KeptPathsMembers(entries);
  }

  /** The kept paths of a walk (reference definition, built from the back). */
  function KeptPaths(entries: seq<Entry>): seq<string>
  {
    if entries == [] then []
    else KeptPaths(entries[..|entries| - 1])
         + (if Kept(entries[|entries| - 1]) then [entries[|entries| - 1].path] else [])
  }

  /** A path is kept exactly when a regular entry with a supported extension carries it. */
  lemma {:induction false} KeptPathsMembers(entries: seq<Entry>)
    ensures forall p :: p in KeptPaths(entries) <==> exists e :: e in entries && Kept(e) && e.path == p
    ensures |KeptPaths(entries)| <= |entries|
    decreases |entries|
  {
    if entries != [] {
      var front := entries[..|entries| - 1];
      KeptPathsMembers(front);
      assert entries == front + [entries[|entries| - 1]];
    }
  }
}
