/**
 * The Qt scanner window's deterministic parts: the drag-and-drop filter,
 * the text it appends for a batch of results, where it stores each batch,
 * and which results get an overlay.
 */
module MainWindow {
  import opened Wrappers
  import opened Sdk
  import Text
  import CommandLine
  import BarcodeWorker

  type BarcodeResult = BarcodeWorker.BarcodeResult

  // ---------------------------------------------------------------------------
  // dragEnterEvent

  /** Index of the rightmost '.' anywhere in a name. */
  function LastDot(name: string): (r: Option<nat>)
    ensures r.Some? ==> r.value < |name| && name[r.value] == '.'
    ensures r.Some? ==> forall k :: r.value < k < |name| ==> name[k] != '.'
    ensures r.None? ==> forall k :: 0 <= k < |name| ==> name[k] != '.'
  {
    if name == [] then None
    else if name[|name| - 1] == '.' then Some(|name| - 1)
    else LastDot(name[..|name| - 1])
  }

  /**
   * `QFileInfo::suffix`: what follows the last '.' of the file name, or empty
   * when it has none. Unlike `path::extension`, a leading '.' counts, so
   * ".png" has the suffix "png".
   */
  function Suffix(path: string): (r: string)
    ensures forall k :: 0 <= k < |r| ==> r[k] != '.' && r[k] != '/'
  {
    NameSuffix(CommandLine.FileName(path))
  }

  /** The suffix of a '/'-free file name: what follows its last '.', if any. */
  function NameSuffix(name: string): (r: string)
    ensures forall k :: 0 <= k < |r| ==> r[k] != '.'
    ensures |r| <= |name| && r == name[|name| - |r|..]
  {
    match LastDot(name)
    case None => ""
    case Some(i) => name[i + 1..]
  }

  /** The suffixes the drop target accepts, compared after lower-casing. */
  const DragExtensions: seq<string> := ["jpg", "jpeg", "png", "bmp", "tiff", "tif", "gif", "webp", "ico", "svg"]

  /** What `dragEnterEvent` does with a drag. */
  datatype DragOutcome =
    | Accepted
    | Ignored(message: Option<string>)  // the line appended to the results pane, if any

  /**
   * `dragEnterEvent` over the dragged URLs (as local paths): only the first
   * one is looked at; an unsupported suffix is ignored with a message naming
   * it, and a drag without URLs is ignored silently.
   */
  function DragEnter(urls: seq<string>): (r: DragOutcome)
    ensures r.Accepted? <==> |urls| > 0 && Text.LowerAscii(Suffix(urls[0])) in DragExtensions
    ensures r.Ignored? && r.message.Some? ==> |urls| > 0
    ensures r.Ignored? && r.message.None? <==> urls == []
  {
    if urls == [] then Ignored(None)
    else
      var extension := Text.LowerAscii(Suffix(urls[0]));
      if extension in DragExtensions then Accepted
      else Ignored(Some("Drag-and-drop: Unsupported file type '" + extension + "' for file: "
                        + CommandLine.FileName(urls[0])))
  }

  /** `stem.ext` has no '/' and its last '.' right after `stem`. */
  lemma StemExtName(stem: string, ext: string)
    requires forall k :: 0 <= k < |stem| ==> stem[k] != '.' && stem[k] != '/'
    requires forall k :: 0 <= k < |ext| ==> ext[k] != '.' && ext[k] != '/'
    ensures var name := stem + "." + ext;
      && (forall k :: 0 <= k < |name| ==> name[k] != '/')
      && LastDot(name) == Some(|stem|)
      && NameSuffix(name) == ext
  {
    var name := stem + "." + ext;
    forall k | 0 <= k < |name| ensures name[k] != '/' {
      if k < |stem| { assert name[k] == stem[k]; }
      else if k > |stem| { assert name[k] == ext[k - |stem| - 1]; }
    }
    forall k | |stem| < k < |name| ensures name[k] != '.' {
      assert name[k] == ext[k - |stem| - 1];
    }
    var d := LastDot(name);
    assert name[|stem|] == '.';
    assert d.Some? && d.value == |stem|;
    assert NameSuffix(name) == ext;
  }

  /** The suffix of `dir/stem.ext` is `ext` when neither part has a '.' or a '/'. */
  lemma SuffixOfStemExt(dir: string, stem: string, ext: string)
    requires forall k :: 0 <= k < |stem| ==> stem[k] != '.' && stem[k] != '/'
    requires forall k :: 0 <= k < |ext| ==> ext[k] != '.' && ext[k] != '/'
    ensures Suffix(dir + "/" + stem + "." + ext) == ext
  {
    var name := stem + "." + ext;
    StemExtName(stem, ext);
    CommandLine.FileNameAfterSlash(dir + "/", name);
    CommandLine.JoinName(dir, stem, ext);
  }

  /**
   * A dragged `dir/stem.ext` is accepted exactly when the lower-cased `ext`
   * is listed, whatever the other dragged URLs are.
   */
  lemma DragByExtension(dir: string, stem: string, ext: string, rest: seq<string>)
    requires forall k :: 0 <= k < |stem| ==> stem[k] != '.' && stem[k] != '/'
    requires forall k :: 0 <= k < |ext| ==> ext[k] != '.' && ext[k] != '/'
    ensures DragEnter([dir + "/" + stem + "." + ext] + rest).Accepted? <==> Text.LowerAscii(ext) in DragExtensions
  {
    SuffixOfStemExt(dir, stem, ext);
  }

  /**
   * The drop target and the command-line scanner disagree on hidden files:
   * `dir/.png` is accepted by a drag but never by `isSupportedImageFile`,
   * for which such a name has no extension.
   */
  lemma HiddenFileOnlyDraggable(dir: string, ext: string)
    requires forall k :: 0 <= k < |ext| ==> ext[k] != '.' && ext[k] != '/'
    requires Text.LowerAscii(ext) in DragExtensions
    ensures DragEnter([dir + "/" + "." + ext]).Accepted?
    ensures !CommandLine.IsSupportedImageFile(dir + "/" + "." + ext)
  {
    HiddenFileDraggable(dir, ext);
    CommandLine.HiddenFileRejected(dir, ext);
  }

  /** The suffix of `dir/.ext` is `ext`, so the drag is accepted when `ext` is listed. */
  lemma HiddenFileDraggable(dir: string, ext: string)
    requires forall k :: 0 <= k < |ext| ==> ext[k] != '.' && ext[k] != '/'
    requires Text.LowerAscii(ext) in DragExtensions
    ensures DragEnter([dir + "/" + "." + ext]).Accepted?
  {
    var p := dir + "/" + "." + ext;
    SuffixOfStemExt(dir, [], ext);
    assert dir + "/" + [] + "." + ext == p;
    assert Suffix(p) == ext;
  }

  // ---------------------------------------------------------------------------
  // updateResultsDisplay

  const NoBarcodesLine: string := "No barcodes detected."
  const FormatLabel: string := "  Format: "
  const TextLabel: string := "  Text: "
  const PointsLabel: string := "  Points: "

  /** "--- Detected N barcode(s) ---". */
  function CountLine(n: nat): (l: string)
    ensures l != [] && l[0] == '-'
  {
    "--- Detected " + Text.NatToString(n) + " barcode(s) ---"
  }

  /** "Barcode k:", numbering results from 1. */
  function HeadingLine(i: nat): (l: string)
    ensures l != [] && l[0] == 'B'
  {
    "Barcode " + Text.NatToString(i + 1) + ":"
  }

  /** "(x,y) " for every point, in order. */
  function PointsText(points: seq<Point>): string
  {
    if points == [] then ""
    else
      var p := points[|points| - 1];
      PointsText(points[..|points| - 1]) + "(" + Text.IntToString(p.x) + "," + Text.IntToString(p.y) + ") "
  }

  /** The lines for result `i`: heading, format, text, the points only when there are any, and a blank line. */
  function ResultBlock(i: nat, r: BarcodeResult): (b: seq<string>)
    ensures |b| == (if r.points == [] then 4 else 5)
    ensures b[0] == HeadingLine(i) && b[1] == FormatLabel + r.format && b[2] == TextLabel + r.text
    ensures b[|b| - 1] == ""
    ensures r.points != [] ==> b[3] == PointsLabel + PointsText(r.points)
  {
    [HeadingLine(i), FormatLabel + r.format, TextLabel + r.text]
    + (if r.points != [] then [PointsLabel + PointsText(r.points)] else [])
    + [""]
  }

  /** The blocks of all results in order (reference definition). */
  function Blocks(results: seq<BarcodeResult>): seq<string>
  {
    if results == [] then []
    else Blocks(results[..|results| - 1]) + ResultBlock(|results| - 1, results[|results| - 1])
  }

  /** Everything `updateResultsDisplay` appends for a batch (reference definition). */
  function ResultsDisplay(results: seq<BarcodeResult>): seq<string>
  {
    if results == [] then [NoBarcodesLine] else [CountLine(|results|)] + Blocks(results)
  }

  /** `updateResultsDisplay`: the lines appended to the results pane, in order. */
  method UpdateResultsDisplay(results: seq<BarcodeResult>) returns (lines: seq<string>)
    ensures lines == ResultsDisplay(results)
    ensures results == [] <==> lines == [NoBarcodesLine]
  {
    if results == [] {
      return [NoBarcodesLine];
    }
    var blocks := AppendBlocks(results);
    lines := [CountLine(|results|)] + blocks;
    CountLineIsNotNoBarcodes(|results|);
  }

  lemma CountLineIsNotNoBarcodes(n: nat)
    ensures CountLine(n) != NoBarcodesLine
  {
    assert CountLine(n)[0] != NoBarcodesLine[0];
  }

  /** The per-result loop of `updateResultsDisplay`. */
  method AppendBlocks(results: seq<BarcodeResult>) returns (lines: seq<string>)
    ensures lines == Blocks(results)
  {
    lines := [];
    var i := 0;
    while i < |results|
      invariant 0 <= i <= |results|
      invariant lines == Blocks(results[..i])
    {
      BlocksStep(results, i);
      lines := lines + ResultBlock(i, results[i]);
      i := i + 1;
    }
    assert results[..|results|] == results;
  }

  lemma BlocksStep(results: seq<BarcodeResult>, i: nat)
    requires i < |results|
    ensures Blocks(results[..i + 1]) == Blocks(results[..i]) + ResultBlock(i, results[i])
  {
    assert results[..i + 1][..i] == results[..i];
  }

  // ---------------------------------------------------------------------------
  // Reading the texts back

  /** The texts on the "  Text: " lines, in order. */
  function DisplayedTexts(lines: seq<string>): seq<string>
  {
    if lines == [] then []
    else DisplayedTexts(lines[..|lines| - 1])
         + (var l := lines[|lines| - 1]; if Text.StartsWith(l, TextLabel) then [l[|TextLabel|..]] else [])
  }

  /** The texts of the results, in order. */
  function ResultTexts(results: seq<BarcodeResult>): seq<string>
  {
    if results == [] then [] else ResultTexts(results[..|results| - 1]) + [results[|results| - 1].text]
  }

  lemma {:induction false} DisplayedTextsAppend(a: seq<string>, b: seq<string>)
    ensures DisplayedTexts(a + b) == DisplayedTexts(a) + DisplayedTexts(b)
    decreases |b|
  {
    if b == [] {
      assert a + b == a;
    } else {
      assert (a + b)[..|a + b| - 1] == a + b[..|b| - 1];
      DisplayedTextsAppend(a, b[..|b| - 1]);
    }
  }

  /** A line that does not start "  T" is not a text line. */
  lemma NotTextLine(l: string)
    requires l == [] || l[0] != ' ' || (|l| > 2 && l[2] != 'T')
    ensures DisplayedTexts([l]) == []
  {
    var none: seq<string> := [];
    assert [l][..0] == none;
    if |l| >= |TextLabel| {
      assert l[..|TextLabel|][0] == l[0];
      if |l| > 2 {
        assert l[..|TextLabel|][2] == l[2];
      }
    }
  }

  lemma IsTextLine(t: string)
    ensures DisplayedTexts([TextLabel + t]) == [t]
  {
    var l := TextLabel + t;
    var none: seq<string> := [];
    assert [l][..0] == none;
    assert l[..|TextLabel|] == TextLabel;
    assert l[|TextLabel|..] == t;
  }

  /** Each result block carries exactly one text line, holding the result's text. */
  lemma BlockText(i: nat, r: BarcodeResult)
    ensures DisplayedTexts(ResultBlock(i, r)) == [r.text]
  {
    var a, b, c := HeadingLine(i), FormatLabel + r.format, TextLabel + r.text;
    var mid := if r.points != [] then [PointsLabel + PointsText(r.points)] else [];
    assert ResultBlock(i, r) == [a] + [b] + [c] + mid + [""];
    DisplayedTextsAppend([a] + [b] + [c] + mid, [""]);
    DisplayedTextsAppend([a] + [b] + [c], mid);
    DisplayedTextsAppend([a] + [b], [c]);
    DisplayedTextsAppend([a], [b]);
    NotTextLine(a);
    assert b[2] == 'F';
    NotTextLine(b);
    IsTextLine(r.text);
    NotTextLine("");
    if r.points != [] {
      var p := PointsLabel + PointsText(r.points);
      assert p[2] == 'P';
      NotTextLine(p);
      assert mid == [p];
    } else {
      assert [a] + [b] + [c] + mid == [a] + [b] + [c];
    }
  }

  lemma {:induction false} BlocksTexts(results: seq<BarcodeResult>)
    ensures DisplayedTexts(Blocks(results)) == ResultTexts(results)
    decreases |results|
  {
    if results != [] {
      var n := |results|;
      BlocksTexts(results[..n - 1]);
      DisplayedTextsAppend(Blocks(results[..n - 1]), ResultBlock(n - 1, results[n - 1]));
      BlockText(n - 1, results[n - 1]);
    }
  }

  /**
   * Reading the "  Text: " lines of the pane gives back exactly the texts of
   * the batch, in order: the count, heading, format, points and blank lines
   * never pass for text lines.
   */
  lemma DisplayRecoversTexts(results: seq<BarcodeResult>)
    ensures DisplayedTexts(ResultsDisplay(results)) == ResultTexts(results)
  {
    if results == [] {
      NotTextLine(NoBarcodesLine);
    } else {
      DisplayedTextsAppend([CountLine(|results|)], Blocks(results));
      NotTextLine(CountLine(|results|));
      BlocksTexts(results);
    }
  }

  /** Every result's format and text hold no line break. */
  predicate SingleLineResults(results: seq<BarcodeResult>)
  {
    forall i :: 0 <= i < |results| ==> Text.NoNewline(results[i].format) && Text.NoNewline(results[i].text)
  }

  /** The points text stays on one line. */
  lemma {:induction false} PointsTextSingle(points: seq<Point>)
    ensures Text.NoNewline(PointsText(points))
    decreases |points|
  {
    if points != [] {
      var p := points[|points| - 1];
      var x, y := Text.IntToString(p.x), Text.IntToString(p.y);
      PointsTextSingle(points[..|points| - 1]);
      Text.NoNewlineConcat(PointsText(points[..|points| - 1]) + "(" + x + "," + y, ") ");
      Text.NoNewlineConcat(PointsText(points[..|points| - 1]) + "(" + x + ",", y);
      Text.NoNewlineConcat(PointsText(points[..|points| - 1]) + "(" + x, ",");
      Text.NoNewlineConcat(PointsText(points[..|points| - 1]) + "(", x);
      Text.NoNewlineConcat(PointsText(points[..|points| - 1]), "(");
    }
  }

  /** A result's block is made of single lines when its format and text are. */
  lemma BlockSingle(i: nat, r: BarcodeResult)
    requires Text.NoNewline(r.format) && Text.NoNewline(r.text)
    ensures forall k :: 0 <= k < |ResultBlock(i, r)| ==> Text.NoNewline(ResultBlock(i, r)[k])
  {
    var b := ResultBlock(i, r);
    forall k | 0 <= k < |b| ensures Text.NoNewline(b[k]) {
      if k == 0 {
        var digits := Text.NatToString(i + 1);
        assert Text.NoNewline(digits) && Text.NoNewline("Barcode ") && Text.NoNewline(":");
        Text.NoNewlineConcat("Barcode ", digits);
        Text.NoNewlineConcat("Barcode " + digits, ":");
      } else if k == 1 {
        assert Text.NoNewline(FormatLabel);
        Text.NoNewlineConcat(FormatLabel, r.format);
      } else if k == 2 {
        assert Text.NoNewline(TextLabel);
        Text.NoNewlineConcat(TextLabel, r.text);
      } else if k == |b| - 1 {
        assert b[k] == "";
      } else {
        assert k == 3 && r.points != [];
        PointsTextSingle(r.points);
        assert Text.NoNewline(PointsLabel);
        Text.NoNewlineConcat(PointsLabel, PointsText(r.points));
      }
    }
  }

  /** With single-line formats and texts, every line appended for a batch is a single line. */
  lemma {:induction false} BlocksSingle(results: seq<BarcodeResult>)
    requires SingleLineResults(results)
    ensures forall k :: 0 <= k < |Blocks(results)| ==> Text.NoNewline(Blocks(results)[k])
    decreases |results|
  {
    if results != [] {
      var n := |results|;
      BlocksSingle(results[..n - 1]);
      BlockSingle(n - 1, results[n - 1]);
      Text.AllNoNewlineAppend(Blocks(results[..n - 1]), ResultBlock(n - 1, results[n - 1]));
    }
  }

  /**
   * What the pane shows: with single-line formats and texts, each appended
   * string is one paragraph, so splitting the appended text at its line
   * breaks gives back the lines, and the texts read back from the paragraphs.
   */
  lemma PaneRecoversTexts(results: seq<BarcodeResult>)
    requires SingleLineResults(results)
    ensures var shown := Text.SplitLines(Text.JoinLines(ResultsDisplay(results)));
      shown == ResultsDisplay(results) && DisplayedTexts(shown) == ResultTexts(results)
  {
    DisplaySingle(results);
    Text.SplitJoinLines(ResultsDisplay(results));
    DisplayRecoversTexts(results);
  }

  /** With single-line formats and texts, no appended string holds a line break. */
  lemma DisplaySingle(results: seq<BarcodeResult>)
    requires SingleLineResults(results)
    ensures forall k :: 0 <= k < |ResultsDisplay(results)| ==> Text.NoNewline(ResultsDisplay(results)[k])
  {
    if results != [] {
      var count, digits := CountLine(|results|), Text.NatToString(|results|);
      assert Text.NoNewline(digits);
      assert Text.NoNewline("--- Detected ") && Text.NoNewline(" barcode(s) ---");
      Text.NoNewlineConcat("--- Detected ", digits);
      Text.NoNewlineConcat("--- Detected " + digits, " barcode(s) ---");
      assert Text.NoNewline(count);
      BlocksSingle(results);
      Text.AllNoNewlineAppend([count], Blocks(results));
    }
  }

  // ---------------------------------------------------------------------------
  // Where results are stored, and which are drawn

  /** The window state that decides where results go. */
  datatype View = View(tab: int, hasPixmap: bool,
                       imageResults: seq<BarcodeResult>, cameraResults: seq<BarcodeResult>,
                       pane: seq<string>)
  {
    /** Results for the image tab exist only once an image is loaded. */
    predicate Valid()
    {
      imageResults != [] ==> hasPixmap
    }
  }

  /**
   * `onBarcodeResults`: the batch is always displayed; it replaces the image
   * results on tab 0 with an image loaded, the camera results on tab 1, and
   * nothing otherwise.
   */
  function OnBarcodeResults(v: View, results: seq<BarcodeResult>): (w: View)
    requires v.Valid()
    ensures w.Valid()
    ensures w.pane == v.pane + ResultsDisplay(results)
    ensures w.tab == v.tab && w.hasPixmap == v.hasPixmap
    ensures w.imageResults == (if v.tab == 0 && v.hasPixmap then results else v.imageResults)
    ensures w.cameraResults == (if v.tab == 1 then results else v.cameraResults)
  {
    var v := v.(pane := v.pane + ResultsDisplay(results));
    if v.tab == 0 && v.hasPixmap then v.(imageResults := results)
    else if v.tab == 1 then v.(cameraResults := results)
    else v
  }

  /** `clearResults`: empties the pane and both stored lists. */
  function ClearResults(v: View): (w: View)
    ensures w.Valid()
    ensures w.pane == [] && w.imageResults == [] && w.cameraResults == []
    ensures w.tab == v.tab && w.hasPixmap == v.hasPixmap
  {
    v.(pane := [], imageResults := [], cameraResults := [])
  }

  /**
   * How `loadImageFile` fares with a file. The decoder's own progress lines
   * (the format Qt detected, the OpenCV fallback's messages) depend on the
   * image data and are given as `probe`; `via` is the load method named
   * on success.
   */
  datatype ImageLoad =
    | FileMissing
    | NotDecoded(probe: seq<string>)
    | PixmapFailed(probe: seq<string>)
    | Loaded(via: string, probe: seq<string>)

  /**
   * The lines `loadImageFile` appends to the results pane for a file, for a
   * file name holding no `QString::arg` place marker (`%1` … `%99`).
   */
  function LoadLines(path: string, fileName: string, fileSize: nat, load: ImageLoad): (lines: seq<string>)
    ensures load.FileMissing? ==> lines == ["Error: File not found - " + path]
    ensures !load.FileMissing? ==>
      && |lines| == |load.probe| + (if load.Loaded? then 3 else 2)
      && lines[0] == "Loading image: " + fileName + " (Size: " + Text.NatToString(fileSize) + " bytes)"
      && lines[1..|load.probe| + 1] == load.probe
    ensures load.NotDecoded? ==> lines[|lines| - 1] == "Error: All image loading methods failed"
    ensures load.PixmapFailed? ==> lines[|lines| - 1] == "Error: Failed to create pixmap from loaded image"
    ensures load.Loaded? ==>
      lines[|lines| - 2..] == ["Image loaded successfully via " + load.via + ": " + fileName, "Processing image for barcodes..."]
  {
    match load
    case FileMissing => ["Error: File not found - " + path]
    case _ =>
      var head := ["Loading image: " + fileName + " (Size: " + Text.NatToString(fileSize) + " bytes)"] + load.probe;
      match load
      case NotDecoded(_) => head + ["Error: All image loading methods failed"]
      case PixmapFailed(_) => head + ["Error: Failed to create pixmap from loaded image"]
      case Loaded(via, _) =>
        head + ["Image loaded successfully via " + via + ": " + fileName, "Processing image for barcodes..."]
  }

  /**
   * `loadImageFile`: the pane gets the load's lines; only a successful load
   * shows the image and drops its previous results, and every failure
   * leaves the rest of the view as it was.
   */
  function LoadImageFile(v: View, path: string, fileName: string, fileSize: nat, load: ImageLoad): (w: View)
    requires v.Valid()
    ensures w.Valid()
    ensures w.pane == v.pane + LoadLines(path, fileName, fileSize, load)
    ensures w.hasPixmap == (v.hasPixmap || load.Loaded?)
    ensures w.imageResults == (if load.Loaded? then [] else v.imageResults)
    ensures w.tab == v.tab && w.cameraResults == v.cameraResults
  {
    var v := v.(pane := v.pane + LoadLines(path, fileName, fileSize, load));
    if load.Loaded? then v.(hasPixmap := true, imageResults := []) else v
  }

  /** Which camera runs: the Qt6 camera and the OpenCV camera never run together. */
  datatype Camera = NoCamera | QtCamera | OpenCvCamera

  /**
   * `stopCamera`: the stored camera results are dropped, and the pane reports
   * which camera, if any, was stopped; nothing else in the view changes.
   */
  function StopCamera(v: View, running: Camera): (w: View)
    requires v.Valid()
    ensures w.Valid()
    ensures w.cameraResults == []
    ensures w.pane == v.pane + (match running
                                case NoCamera => []
                                case QtCamera => ["Qt6 camera stopped."]
                                case OpenCvCamera => ["OpenCV camera stopped."])
    ensures w.tab == v.tab && w.hasPixmap == v.hasPixmap && w.imageResults == v.imageResults
  {
    var v := v.(cameraResults := []);
    match running
    case NoCamera => v
    case QtCamera => v.(pane := v.pane + ["Qt6 camera stopped."])
    case OpenCvCamera => v.(pane := v.pane + ["OpenCV camera stopped."])
  }

  /**
   * The tab widget's `currentChanged` handler: the view shows tab `index`;
   * switching to the image tab drops the camera results and stops the
   * OpenCV camera when it runs (a running Qt6 camera is left running);
   * switching to any other tab changes nothing else.
   */
  function TabChanged(v: View, index: int, running: Camera): (w: View)
    requires v.Valid()
    ensures w.Valid()
    ensures w.tab == index
    ensures w.cameraResults == (if index == 0 then [] else v.cameraResults)
    ensures w.pane == v.pane + (if index == 0 && running == OpenCvCamera then ["OpenCV camera stopped."] else [])
    ensures w.hasPixmap == v.hasPixmap && w.imageResults == v.imageResults
  {
    var v := v.(tab := index);
    if index == 0 then
      var cleared := v.(cameraResults := []);
      if running == OpenCvCamera then StopCamera(cleared, OpenCvCamera) else cleared
    else v
  }

  /** Once the image tab is selected, arriving batches never reach the camera results. */
  lemma {:induction false} ImageTabKeepsCameraEmpty(v: View, running: Camera, batches: seq<seq<BarcodeResult>>)
    requires v.Valid()
    ensures ReceiveAll(TabChanged(v, 0, running), batches).cameraResults == []
    decreases |batches|
  {
    if batches != [] {
      ImageTabKeepsCameraEmpty(v, running, batches[..|batches| - 1]);
    }
  }

  /** The view after a sequence of `resultsReady` batches. */
  function ReceiveAll(v: View, batches: seq<seq<BarcodeResult>>): (w: View)
    requires v.Valid()
    ensures w.Valid() && w.tab == v.tab && w.hasPixmap == v.hasPixmap
  {
    if batches == [] then v else OnBarcodeResults(ReceiveAll(v, batches[..|batches| - 1]), batches[|batches| - 1])
  }

  /**
   * On tab 0, the batch that follows a successful load is stored as the image
   * results; after a failed load it is stored only when an earlier image is
   * still shown, and otherwise nothing is stored.
   */
  lemma LoadThenResults(v: View, path: string, fileName: string, fileSize: nat, load: ImageLoad, results: seq<BarcodeResult>)
    requires v.Valid() && v.tab == 0
    ensures OnBarcodeResults(LoadImageFile(v, path, fileName, fileSize, load), results).imageResults
         == (if load.Loaded? || v.hasPixmap then results else [])
  {
  }

  /** The results an overlay is drawn for: those with at least four points, in order. */
  function Drawn(results: seq<BarcodeResult>): (d: seq<BarcodeResult>)
    ensures |d| <= |results|
    ensures forall k :: 0 <= k < |d| ==> |d[k].points| >= 4
  {
    if results == [] then []
    else
      var last := results[|results| - 1];
      Drawn(results[..|results| - 1]) + (if |last.points| >= 4 then [last] else [])
  }

  /** A result is drawn exactly when it has at least four points. */
  lemma {:induction false} DrawnIff(results: seq<BarcodeResult>, r: BarcodeResult)
    ensures r in Drawn(results) <==> r in results && |r.points| >= 4
    decreases |results|
  {
    if results != [] {
      var n := |results|;
      DrawnIff(results[..n - 1], r);
      assert results == results[..n - 1] + [results[n - 1]];
    }
  }

  /** Every result the worker converts has four points, so every one of them gets an overlay. */
  lemma {:induction false} ConvertedAllDrawn(items: seq<Option<BarcodeItem>>)
    ensures Drawn(BarcodeWorker.Converted(items)) == BarcodeWorker.Converted(items)
    decreases |items|
  {
    if items != [] {
      var n := |items|;
      var front := BarcodeWorker.Converted(items[..n - 1]);
      ConvertedAllDrawn(items[..n - 1]);
      var tail := if items[n - 1].Some? then [BarcodeWorker.ToResult(items[n - 1].value)] else [];
      assert BarcodeWorker.Converted(items) == front + tail;
      DrawnFourPoints(tail);
      DrawnAppend(front, tail);
      assert Drawn(front + tail) == front + tail;
    }
  }

  lemma {:induction false} DrawnAppend(a: seq<BarcodeResult>, b: seq<BarcodeResult>)
    ensures Drawn(a + b) == Drawn(a) + Drawn(b)
    decreases |b|
  {
    if b == [] {
      assert a + b == a;
    } else {
      assert (a + b)[..|a + b| - 1] == a + b[..|b| - 1];
      DrawnAppend(a, b[..|b| - 1]);
    }
  }

  /** A list of at most one result with four points is drawn whole. */
  lemma DrawnFourPoints(tail: seq<BarcodeResult>)
    requires |tail| <= 1 && forall k :: 0 <= k < |tail| ==> |tail[k].points| == 4
    ensures Drawn(tail) == tail
  {
    if tail != [] {
      var none: seq<BarcodeResult> := [];
      assert tail[..0] == none;
    }
  }
}
