/**
 * The Rust command-line program: how it chooses its mode, its interactive
 * prompt loop, the lifetime of the reader instance, and what it prints for
 * the results the bridge returns.
 */
module RustCli {
  import opened Wrappers
  import opened Sdk
  import Text
  import ConsoleInput
  import Bridge
  import CaptureReport

  // ---------------------------------------------------------------------------
  // Mode dispatch

  /** Which mode `main` runs. */
  datatype Mode = Interactive | NonInteractive(paths: seq<string>)

  /**
   * `main`: with at least one argument after the program name every argument
   * is processed, in order, without prompting; otherwise the interactive
   * loop runs.
   */
  function Dispatch(args: seq<string>): (m: Mode)
    ensures m.NonInteractive? <==> |args| > 1
    ensures m.NonInteractive? ==> |m.paths| == |args| - 1 && forall i :: 0 <= i < |m.paths| ==> m.paths[i] == args[i + 1]
  {
    if |args| > 1 then NonInteractive(args[1..]) else Interactive
  }

  // ---------------------------------------------------------------------------
  // Interactive loop

  /** What one line of input led to. */
  datatype Step =
    | Blank                 // empty after normalisation: prompt again
    | NotFound              // "Please input a valid path."
    | Process(path: string) // handed to `process_image`

  /** How the loop ended: on q/Q, or because the modelled input ran out (the program would prompt forever). */
  datatype LoopEnd = Quit | InputExhausted

  /** What the loop does with one normalised, non-quit line. */
  function StepFor(input: string, pathExists: string -> bool): Step
  {
    if input == [] then Blank else if !pathExists(input) then NotFound else Process(input)
  }

  /** Each input line after `trim` and the quote/whitespace stripping. */
  function Normalized(lines: seq<string>): (r: seq<string>)
    ensures |r| == |lines| && forall i :: 0 <= i < |lines| ==> r[i] == ConsoleInput.RustNormalize(lines[i])
  {
    seq(|lines|, i requires 0 <= i < |lines| => ConsoleInput.RustNormalize(lines[i]))
  }

  /** Whether a normalised line ends the loop: it equals "q" ignoring ASCII case. */
  predicate IsQuitInput(input: string)
  {
    ConsoleInput.EqIgnoreAsciiCase(input, "q")
  }

  /** The interactive loop over the normalised input lines; `pathExists` is the file-system oracle. */
  function InteractiveLoop(inputs: seq<string>, pathExists: string -> bool): (r: (seq<Step>, LoopEnd))
    ensures |r.0| <= |inputs|
    ensures r.1 == InputExhausted ==> |r.0| == |inputs|
    ensures r.1 == Quit ==> |r.0| < |inputs|
  {
    if inputs == [] then ([], InputExhausted)
    else if IsQuitInput(inputs[0]) then ([], Quit)
    else
      var rest := InteractiveLoop(inputs[1..], pathExists);
      ([StepFor(inputs[0], pathExists)] + rest.0, rest.1)
  }

  /**
   * Every line before the end of the loop is not a quit line, and it is
   * blank (prompt again), names a missing path (a message), or names an
   * existing path, which is processed.
   */
  lemma {:induction false} InteractiveStep(inputs: seq<string>, pathExists: string -> bool, i: nat)
    requires i < |InteractiveLoop(inputs, pathExists).0|
    ensures !IsQuitInput(inputs[i])
    ensures InteractiveLoop(inputs, pathExists).0[i] == StepFor(inputs[i], pathExists)
    decreases i
  {
    if i > 0 {
      InteractiveStep(inputs[1..], pathExists, i - 1);
      assert inputs[1..][i - 1] == inputs[i];
    }
  }

  /** The loop ends with `Quit` exactly at a quit line. */
  lemma {:induction false} InteractiveQuit(inputs: seq<string>, pathExists: string -> bool)
    requires InteractiveLoop(inputs, pathExists).1 == Quit
    ensures IsQuitInput(inputs[|InteractiveLoop(inputs, pathExists).0|])
    decreases |inputs|
  {
    if !IsQuitInput(inputs[0]) {
      InteractiveQuit(inputs[1..], pathExists);
      assert inputs[1..][|InteractiveLoop(inputs[1..], pathExists).0|] == inputs[|InteractiveLoop(inputs, pathExists).0|];
    }
  }

  /** A processed line is never blank, never only whitespace and quotes, and names an existing path. */
  lemma OnlyExistingPathsProcessed(lines: seq<string>, pathExists: string -> bool, i: nat)
    requires i < |InteractiveLoop(Normalized(lines), pathExists).0|
    requires InteractiveLoop(Normalized(lines), pathExists).0[i].Process?
    ensures ConsoleInput.RustNormalize(lines[i]) != []
    ensures !ConsoleInput.All(lines[i], ConsoleInput.IsTrimChar)
    ensures pathExists(InteractiveLoop(Normalized(lines), pathExists).0[i].path)
  {
    var inputs := Normalized(lines);
    InteractiveStep(inputs, pathExists, i);
    var input := inputs[i];
    assert input == ConsoleInput.RustNormalize(lines[i]);
    assert StepFor(input, pathExists).Process?;
    assert input != [] && pathExists(input);
  }

  // ---------------------------------------------------------------------------
  // Reader lifetime

  /** What one run did with the reader: the paths handed to `process_image`, and how often the reader was destroyed. */
  datatype Lifetime = Lifetime(processed: seq<string>, destroys: nat)

  /**
   * `process_file_non_interactive`: stop on a failed license (before any
   * reader exists) or a null reader; otherwise destroy the reader on both
   * remaining paths, after processing when the file exists.
   */
  function NonInteractiveFile(path: string, licenseRet: int, reader: Option<nat>, pathExists: bool): (r: Lifetime)
    ensures r.destroys == (if licenseRet == 0 && reader.Some? then 1 else 0)
    ensures r.processed == (if licenseRet == 0 && reader.Some? && pathExists then [path] else [])
  {
    if licenseRet != 0 then Lifetime([], 0)
    else if reader.None? then Lifetime([], 0)
    else if !pathExists then Lifetime([], Bridge.DestroyInstance(reader))
    else Lifetime([path], Bridge.DestroyInstance(reader))
  }

  /** What one non-interactive path meets: its license outcome, the reader created for it, and whether it exists. */
  datatype FileRun = FileRun(path: string, licenseRet: int, reader: Option<nat>, pathExists: bool)

  /** Whether a reader was created for a path: the license succeeded and `CVR_CreateInstance` returned non-null. */
  predicate ReaderCreated(f: FileRun)
  {
    f.licenseRet == 0 && f.reader.Some?
  }

  /** The non-interactive mode of `main`: each path in turn, each with its own license call and reader. */
  function NonInteractiveRun(files: seq<FileRun>): (r: Lifetime)
    ensures |r.processed| <= |files| && r.destroys <= |files|
  {
    if files == [] then Lifetime([], 0)
    else
      var front := NonInteractiveRun(files[..|files| - 1]);
      var f := files[|files| - 1];
      var last := NonInteractiveFile(f.path, f.licenseRet, f.reader, f.pathExists);
      Lifetime(front.processed + last.processed, front.destroys + last.destroys)
  }

  /** How many readers the non-interactive mode creates (reference definition). */
  function ReadersCreated(files: seq<FileRun>): nat
  {
    if files == [] then 0
    else ReadersCreated(files[..|files| - 1]) + (if ReaderCreated(files[|files| - 1]) then 1 else 0)
  }

  /**
   * Over a whole non-interactive run every reader created is destroyed
   * exactly once, none is destroyed that was not created, and a path is
   * processed exactly when its reader was created and the path exists.
   */
  lemma {:induction false} EveryReaderDestroyedOnce(files: seq<FileRun>)
    ensures NonInteractiveRun(files).destroys == ReadersCreated(files)
    ensures forall p ::
              p in NonInteractiveRun(files).processed
              <==> exists f :: f in files && f.path == p && ReaderCreated(f) && f.pathExists
    decreases |files|
  {
    if files != [] {
      var front := files[..|files| - 1];
      EveryReaderDestroyedOnce(front);
      assert files == front + [files[|files| - 1]];
    }
  }

  /** The paths the interactive steps process, in order. */
  function ProcessedPaths(steps: seq<Step>): seq<string>
  {
    if steps == [] then []
    else (if steps[0].Process? then [steps[0].path] else []) + ProcessedPaths(steps[1..])
  }

  /**
   * `run_interactive_mode`: after a good license and a non-null reader, the
   * loop runs; the reader is destroyed once, when the user quits.
   */
  function InteractiveRun(licenseRet: int, reader: Option<nat>, lines: seq<string>, pathExists: string -> bool): (r: Lifetime)
    ensures r.destroys <= 1
    ensures r.destroys == 1 <==> licenseRet == 0 && reader.Some? && InteractiveLoop(Normalized(lines), pathExists).1 == Quit
    ensures licenseRet != 0 || reader.None? ==> r.processed == []
  {
    if licenseRet != 0 || reader.None? then Lifetime([], 0)
    else
      var loop := InteractiveLoop(Normalized(lines), pathExists);
      Lifetime(ProcessedPaths(loop.0), if loop.1 == Quit then Bridge.DestroyInstance(reader) else 0)
  }

  // ---------------------------------------------------------------------------
  // process_image

  /** The results the bridge hands back are well formed: one written slot per counted barcode. */
  predicate WellFormed(decoded: Option<Bridge.BarcodeResults>)
  {
    decoded.Some? ==> decoded.value.count == |decoded.value.slots| && Bridge.AllWritten(decoded.value)
  }

  /** "Point k: (x, y)". */
  function RustPointLine(k: string, x: int, y: int): (l: string)
    ensures l != [] && l[0] == 'P'
  {
    "Point " + k + ": (" + Text.IntToString(x) + ", " + Text.IntToString(y) + ")"
  }

  /** The lines printed for the barcode at index `i`. */
  function BarcodeLines(i: nat, b: Bridge.Barcode): (r: seq<string>)
    ensures |r| == 7
  {
    ["Result " + Text.NatToString(i + 1), "Barcode Format: " + b.barcodeType, "Barcode Text: " + b.barcodeValue]
    + RustPointLines(b)
  }

  /** The four corner lines of a barcode record, (x1, y1) first. */
  function RustPointLines(b: Bridge.Barcode): (r: seq<string>)
    ensures |r| == 4
  {
    [RustPointLine("1", b.x1, b.y1), RustPointLine("2", b.x2, b.y2),
     RustPointLine("3", b.x3, b.y3), RustPointLine("4", b.x4, b.y4)]
  }

  /** The blocks of the first `|slots|` barcodes (reference definition). */
  function SlotsLines(slots: seq<Option<Bridge.Barcode>>): (r: seq<string>)
    requires forall i :: 0 <= i < |slots| ==> slots[i].Some?
    ensures |r| == 7 * |slots|
  {
    if slots == [] then [] else SlotsLines(slots[..|slots| - 1]) + BarcodeLines(|slots| - 1, slots[|slots| - 1].value)
  }

  /** The `for (i, barcode) in barcodes.iter().enumerate()` loop. */
  method PrintBarcodes(slots: seq<Option<Bridge.Barcode>>) returns (lines: seq<string>)
    requires forall i :: 0 <= i < |slots| ==> slots[i].Some?
    ensures lines == SlotsLines(slots)
  {
    lines := [];
    var i := 0;
    while i < |slots|
      invariant 0 <= i <= |slots|
      invariant lines == SlotsLines(slots[..i])
    {
      assert slots[..i + 1][..i] == slots[..i];
      var block := BarcodeLines(i, slots[i].value);
      lines := lines + block;
      i := i + 1;
    }
    assert slots[..|slots|] == slots;
  }

  /** Index of the first NUL, if any (where `CString::new` fails). */
  function FirstNul(s: string): (r: Option<nat>)
    ensures r.Some? ==> r.value < |s| && s[r.value] == '\0' && forall k :: 0 <= k < r.value ==> s[k] != '\0'
    ensures r.None? ==> forall k :: 0 <= k < |s| ==> s[k] != '\0'
  {
    if s == [] then None
    else if s[0] == '\0' then Some(0)
    else match FirstNul(s[1..]) case None => None case Some(k) => Some(k + 1)
  }

  /** The result lines: "No barcode found." for a null pointer or a zero count, else the count line and the blocks. */
  function ResultsLines(decoded: Option<Bridge.BarcodeResults>): seq<string>
    requires WellFormed(decoded)
  {
    if decoded.None? || decoded.value.count == 0 then [CaptureReport.NotFoundLine]
    else ["Decoded " + Text.NatToString(decoded.value.count) + " barcodes"] + SlotsLines(decoded.value.slots)
  }

  /** What `process_image` printed, and whether it called `free_barcode`. */
  datatype ImageRun = ImageRun(lines: seq<string>, freed: bool)

  const NulErrorPrefix: string := "Invalid file path: nul byte found in provided data at position: "

  /**
   * `process_image`: the header line; for a path holding a NUL an error line
   * and an early return, with no decoding and no trailing blank line;
   * otherwise the result lines, `free_barcode` exactly when the pointer is
   * non-null, and a blank line. `decoded` is what the bridge returns.
   */
  function ProcessImage(path: string, decoded: Option<Bridge.BarcodeResults>): (r: ImageRun)
    requires WellFormed(decoded)
    ensures r.lines != [] && r.lines[0] == "Processing file: " + path
    ensures r.freed <==> FirstNul(path).None? && decoded.Some?
    ensures FirstNul(path).Some? ==> r.lines == ["Processing file: " + path, NulErrorPrefix + Text.NatToString(FirstNul(path).value)]
    ensures FirstNul(path).None? ==> r.lines[|r.lines| - 1] == "" && r.lines[1..|r.lines| - 1] == ResultsLines(decoded)
  {
    var header := "Processing file: " + path;
    match FirstNul(path)
    case Some(pos) => ImageRun([header, NulErrorPrefix + Text.NatToString(pos)], false)
    case None =>
      var lines := [header] + ResultsLines(decoded) + [""];
      assert lines[1..|lines| - 1] == ResultsLines(decoded);
      ImageRun(lines, decoded.Some?)
  }

  // ---------------------------------------------------------------------------
  // Agreement with the C++ report

  /** A Rust block for a flattened item is the C++ block with corners for that item. */
  lemma BlockAgrees(i: nat, item: BarcodeItem)
    requires item.format.Some? && item.text.Some?
    ensures BarcodeLines(i, Bridge.FlattenItem(item)) == CaptureReport.ItemLines(i, item, true)
  {
    PointsAgree(Bridge.FlattenItem(item), item.location);
  }

  /** A record with the same corners as a location prints the same corner lines as the C++ report. */
  lemma PointsAgree(b: Bridge.Barcode, q: Quad)
    requires b.Corners() == q.Corners()
    ensures RustPointLines(b) == CaptureReport.PointLines(q)
  {
    var c := q.Corners();
    assert c[0] == Point(b.x1, b.y1) && c[1] == Point(b.x2, b.y2);
    assert c[2] == Point(b.x3, b.y3) && c[3] == Point(b.x4, b.y4);
    assert Text.NatToString(1) == "1" && Text.NatToString(2) == "2";
    assert Text.NatToString(3) == "3" && Text.NatToString(4) == "4";
    var rust, cpp := RustPointLines(b), CaptureReport.PointLines(q);
    forall k | 0 <= k < 4 ensures rust[k] == cpp[k] {
      assert cpp[k] == CaptureReport.PointLine(k + 1, c[k]);
    }
  }

  /** Every item of a printable list becomes a written slot. */
  lemma SlotsAllWritten(items: seq<Option<BarcodeItem>>)
    requires forall i :: 0 <= i < |items| ==> items[i].Some?
    ensures forall i :: 0 <= i < |items| ==> Bridge.Slots(items)[i].Some?
  {
    Bridge.SlotsAt(items);
  }

  /** The slots of a list are the slots of its front followed by the last item's record. */
  lemma SlotsSnoc(items: seq<Option<BarcodeItem>>)
    requires items != [] && items[|items| - 1].Some?
    ensures Bridge.Slots(items)[..|items| - 1] == Bridge.Slots(items[..|items| - 1])
    ensures Bridge.Slots(items)[|items| - 1] == Some(Bridge.FlattenItem(items[|items| - 1].value))
  {
  }

  /** The Rust blocks of written slots are the C++ blocks with corners of the items they came from. */
  lemma {:induction false} SlotsAgree(items: seq<Option<BarcodeItem>>)
    requires forall i :: 0 <= i < |items| ==> items[i].Some? && items[i].value.format.Some? && items[i].value.text.Some?
    ensures forall i :: 0 <= i < |items| ==> Bridge.Slots(items)[i].Some?
    ensures SlotsLines(Bridge.Slots(items)) == CaptureReport.ItemsLines(items, true)
    decreases |items|
  {
    SlotsAllWritten(items);
    if items != [] {
      var n := |items|;
      var front := items[..n - 1];
      var item := items[n - 1].value;
      var slots := Bridge.Slots(items);
      assert forall i :: 0 <= i < |front| ==> front[i] == items[i];
      SlotsAgree(front);
      SlotsSnoc(items);
      assert SlotsLines(slots) == SlotsLines(Bridge.Slots(front)) + BarcodeLines(n - 1, Bridge.FlattenItem(item));
      BlockAgrees(n - 1, item);
    }
  }

  /**
   * For a capture without error whose items all carry a format and a text,
   * the Rust program, through the bridge, prints exactly the lines the C++
   * report prints with corners: the same "No barcode found." decision, count
   * line and per-item blocks.
   */
  lemma RustMatchesCppReport(capture: CapturedResult)
    requires capture.errorCode == 0
    requires capture.barcodes.Some? ==> CaptureReport.Printable(capture.barcodes.value)
    ensures WellFormed(Bridge.Flattened(Some(capture)))
    ensures ResultsLines(Bridge.Flattened(Some(capture))) == CaptureReport.Expected(capture, "", true)
  {
    var none: seq<string> := [];
    assert CaptureReport.ErrorLines(capture, "") == none;
    var flat := Bridge.Flattened(Some(capture));
    if CaptureReport.Found(capture) {
      var items := capture.barcodes.value.items;
      SlotsAgree(items);
      assert flat == Some(Bridge.BarcodeResults(|items|, Bridge.Slots(items)));
      var count := "Decoded " + Text.NatToString(|items|) + " barcodes";
      assert ResultsLines(flat) == [count] + SlotsLines(Bridge.Slots(items));
      assert CaptureReport.Expected(capture, "", true) == none + ([count] + CaptureReport.ItemsLines(items, true));
    } else {
      assert flat.None?;
      assert CaptureReport.Expected(capture, "", true) == none + [CaptureReport.NotFoundLine];
    }
  }
}
