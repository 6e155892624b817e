/**
 * The console report printed after each capture by the 10.x command-line
 * scanner and by the OpenCV file demo (which also prints the corners), and
 * the `Release` calls that follow it.
 */
module CaptureReport {
  import opened Wrappers
  import opened Sdk
  import Text

  /** Every item slot is non-null and has a format string and a text: the report dereferences all three. */
  predicate Printable(d: DecodedBarcodes)
  {
    forall i :: 0 <= i < |d.items| ==>
      d.items[i].Some? && d.items[i].value.format.Some? && d.items[i].value.text.Some?
  }

  /** The capture has a decoded-barcodes sub-result with at least one item. */
  predicate Found(r: CapturedResult)
  {
    r.barcodes.Some? && |r.barcodes.value.items| > 0
  }

  const TextLabel: string := "Barcode Text: "
  const FormatLabel: string := "Barcode Format: "
  const NotFoundLine: string := "No barcode found."

  /** "Point k: (x, y)" for the k-th corner. */
  function PointLine(k: nat, p: Point): (l: string)
    ensures l != [] && l[0] == 'P'
  {
    "Point " + Text.NatToString(k) + ": (" + Text.IntToString(p.x) + ", " + Text.IntToString(p.y) + ")"
  }

  /** The four corner lines of a location, `points[0]` first. */
  function PointLines(q: Quad): (r: seq<string>)
    ensures |r| == 4 && forall i :: 0 <= i < 4 ==> r[i] == PointLine(i + 1, q.Corners()[i])
  {
    var c := q.Corners();
    seq(4, i requires 0 <= i < 4 => PointLine(i + 1, c[i]))
  }

  /** "Result k", numbering items from 1. */
  function ResultLine(j: nat): (l: string)
    ensures l != [] && l[0] == 'R'
  {
    "Result " + Text.NatToString(j + 1)
  }

  /** The lines printed for item `j` (0-based); the corners only when `withPoints`. */
  function ItemLines(j: nat, item: BarcodeItem, withPoints: bool): (r: seq<string>)
    requires item.format.Some? && item.text.Some?
    ensures |r| == LinesPerItem(withPoints)
  {
    [ResultLine(j), FormatLabel + item.format.value, TextLabel + item.text.value]
    + (if withPoints then PointLines(item.location) else [])
  }

  /** Lines per item. */
  function LinesPerItem(withPoints: bool): nat
  {
    if withPoints then 7 else 3
  }

  /** The item blocks of the first `|items|` items, in order (reference definition). */
  function ItemsLines(items: seq<Option<BarcodeItem>>, withPoints: bool): (r: seq<string>)
    requires forall i :: 0 <= i < |items| ==> items[i].Some? && items[i].value.format.Some? && items[i].value.text.Some?
    ensures |r| == LinesPerItem(withPoints) * |items|
  {
    if items == [] then []
    else ItemsLines(items[..|items| - 1], withPoints) + ItemLines(|items| - 1, items[|items| - 1].value, withPoints)
  }

  /** The error line, when the capture reports an error. */
  function ErrorLines(r: CapturedResult, errorString: string): seq<string>
  {
    if r.errorCode != 0 then ["Error: " + Text.IntToString(r.errorCode) + "," + errorString] else []
  }

  /** The whole report of one capture (reference definition). */
  function Expected(r: CapturedResult, errorString: string, withPoints: bool): seq<string>
    requires r.barcodes.Some? ==> Printable(r.barcodes.value)
  {
    ErrorLines(r, errorString)
    + if !Found(r) then [NotFoundLine]
      else ["Decoded " + Text.NatToString(|r.barcodes.value.items|) + " barcodes"]
           + ItemsLines(r.barcodes.value.items, withPoints)
  }

  /**
   * The capture loop body: an error line when the capture failed (the program
   * goes on regardless), then "No barcode found." when the sub-result is null
   * or empty, or a count line and one block per item.
   */
  method PrintCaptureResult(r: CapturedResult, errorString: string, withPoints: bool) returns (lines: seq<string>)
    requires r.barcodes.Some? ==> Printable(r.barcodes.value)
    ensures lines == Expected(r, errorString, withPoints)
  {
    lines := ErrorLines(r, errorString);
    if r.barcodes.None? || |r.barcodes.value.items| == 0 {
      lines := lines + [NotFoundLine];
      return;
    }
    var items := r.barcodes.value.items;
    var blocks := PrintItems(items, withPoints);
    var body := ["Decoded " + Text.NatToString(|items|) + " barcodes"] + blocks;
    lines := lines + body;
  }

  /** The `for (j = 0; j < count; j++)` loop over the items. */
  method PrintItems(items: seq<Option<BarcodeItem>>, withPoints: bool) returns (body: seq<string>)
    requires forall i :: 0 <= i < |items| ==> items[i].Some? && items[i].value.format.Some? && items[i].value.text.Some?
    ensures body == ItemsLines(items, withPoints)
  {
    body := [];
    var j := 0;
    while j < |items|
      invariant 0 <= j <= |items|
      invariant body == ItemsLines(items[..j], withPoints)
    {
      ItemsLinesStep(items, j, withPoints);
      body := body + ItemLines(j, items[j].value, withPoints);
      j := j + 1;
    }
    assert items[..|items|] == items;
  }

  /** The blocks of the first `j + 1` items extend those of the first `j` by item `j`'s block. */
  lemma ItemsLinesStep(items: seq<Option<BarcodeItem>>, j: nat, withPoints: bool)
    requires j < |items|
    requires forall i :: 0 <= i < |items| ==> items[i].Some? && items[i].value.format.Some? && items[i].value.text.Some?
    ensures ItemsLines(items[..j + 1], withPoints) == ItemsLines(items[..j], withPoints) + ItemLines(j, items[j].value, withPoints)
  {
    var front := items[..j + 1];
    assert front[..j] == items[..j];
    assert front[j] == items[j];
  }

  // ---------------------------------------------------------------------------
  // Reading the decoded texts back from the report

  /** The texts on the "Barcode Text: " lines, in order. */
  function ReportedTexts(lines: seq<string>): seq<string>
  {
    if lines == [] then []
    else ReportedTexts(lines[..|lines| - 1])
         + (var l := lines[|lines| - 1]; if Text.StartsWith(l, TextLabel) then [l[|TextLabel|..]] else [])
  }

  /** The texts of the items, in order. */
  function ItemTexts(items: seq<Option<BarcodeItem>>): seq<string>
    requires forall i :: 0 <= i < |items| ==> items[i].Some? && items[i].value.text.Some?
  {
    if items == [] then [] else ItemTexts(items[..|items| - 1]) + [items[|items| - 1].value.text.value]
  }

  lemma {:induction false} ReportedTextsAppend(a: seq<string>, b: seq<string>)
    ensures ReportedTexts(a + b) == ReportedTexts(a) + ReportedTexts(b)
    decreases |b|
  {
    if b == [] {
      assert a + b == a;
    } else {
      assert (a + b)[..|a + b| - 1] == a + b[..|b| - 1];
      ReportedTextsAppend(a, b[..|b| - 1]);
    }
  }

  /** A line whose first character differs from the label's is not a text line. */
  lemma OtherLine(l: string)
    requires l != [] && l[0] != 'B'
    ensures ReportedTexts([l]) == []
  {
    var none: seq<string> := [];
    assert [l][..0] == none;
  }

  lemma TextLine(t: string)
    ensures ReportedTexts([TextLabel + t]) == [t]
  {
    var l := TextLabel + t;
    var none: seq<string> := [];
    assert [l][..0] == none;
    assert l[..|TextLabel|] == TextLabel;
    assert l[|TextLabel|..] == t;
  }

  lemma FormatLine(f: string)
    ensures ReportedTexts([FormatLabel + f]) == []
  {
    var l := FormatLabel + f;
    var none: seq<string> := [];
    assert [l][..0] == none;
    assert l[8] == 'F' && TextLabel[8] == 'T';
  }

  /** Each item block carries exactly one text line, holding the item's text. */
  lemma ItemBlockText(j: nat, item: BarcodeItem, withPoints: bool)
    requires item.format.Some? && item.text.Some?
    ensures ReportedTexts(ItemLines(j, item, withPoints)) == [item.text.value]
  {
    var a, b, c := ResultLine(j), FormatLabel + item.format.value, TextLabel + item.text.value;
    var tail := if withPoints then PointLines(item.location) else [];
    assert ItemLines(j, item, withPoints) == [a] + [b] + [c] + tail;
    ReportedTextsAppend([a] + [b] + [c], tail);
    ReportedTextsAppend([a] + [b], [c]);
    ReportedTextsAppend([a], [b]);
    OtherLine(a);
    FormatLine(item.format.value);
    TextLine(item.text.value);
    if withPoints {
      PointLinesSilent(item.location);
    }
  }

  lemma PointLinesSilent(q: Quad)
    ensures ReportedTexts(PointLines(q)) == []
  {
    NoTextLines(PointLines(q));
  }

  /** Lines none of which starts with the label's first letter hold no text. */
  lemma {:induction false} NoTextLines(lines: seq<string>)
    requires forall i :: 0 <= i < |lines| ==> lines[i] != [] && lines[i][0] != 'B'
    ensures ReportedTexts(lines) == []
    decreases |lines|
  {
    if lines != [] {
      var last := lines[|lines| - 1];
      NoTextLines(lines[..|lines| - 1]);
      assert !Text.StartsWith(last, TextLabel) by {
        if |TextLabel| <= |last| {
          assert last[..|TextLabel|][0] == last[0];
        }
      }
    }
  }

  /** The text lines of all item blocks are the items' texts, in order. */
  lemma {:induction false} ItemsLinesTexts(items: seq<Option<BarcodeItem>>, withPoints: bool)
    requires forall i :: 0 <= i < |items| ==> items[i].Some? && items[i].value.format.Some? && items[i].value.text.Some?
    ensures ReportedTexts(ItemsLines(items, withPoints)) == ItemTexts(items)
    decreases |items|
  {
    if items != [] {
      var n := |items|;
      ItemsLinesTexts(items[..n - 1], withPoints);
      ReportedTextsAppend(ItemsLines(items[..n - 1], withPoints), ItemLines(n - 1, items[n - 1].value, withPoints));
      ItemBlockText(n - 1, items[n - 1].value, withPoints);
    }
  }

  /**
   * Reading the "Barcode Text: " lines of a report gives back exactly the
   * decoded texts in order, and none when nothing was found: the error line,
   * count line, format lines and corner lines never pass for text lines.
   */
  lemma ReportRecoversTexts(r: CapturedResult, errorString: string, withPoints: bool)
    requires r.barcodes.Some? ==> Printable(r.barcodes.value)
    ensures ReportedTexts(Expected(r, errorString, withPoints))
         == if Found(r) then ItemTexts(r.barcodes.value.items) else []
  {
    var err := ErrorLines(r, errorString);
    if err != [] {
      OtherLine(err[0]);
    }
    if !Found(r) {
      ReportedTextsAppend(err, [NotFoundLine]);
      OtherLine(NotFoundLine);
    } else {
      var items := r.barcodes.value.items;
      var count := ["Decoded " + Text.NatToString(|items|) + " barcodes"];
      assert Expected(r, errorString, withPoints) == err + (count + ItemsLines(items, withPoints));
      ReportedTextsAppend(err, count + ItemsLines(items, withPoints));
      ReportedTextsAppend(count, ItemsLines(items, withPoints));
      OtherLine(count[0]);
      ItemsLinesTexts(items, withPoints);
    }
  }

  /** The report has one line per error, then one "not found" line or a count line and the item blocks. */
  lemma ReportLength(r: CapturedResult, errorString: string, withPoints: bool)
    requires r.barcodes.Some? ==> Printable(r.barcodes.value)
    ensures |Expected(r, errorString, withPoints)|
         == |ErrorLines(r, errorString)| + (if Found(r) then 1 + LinesPerItem(withPoints) * |r.barcodes.value.items| else 1)
  {
  }

  /** The error string and every item's format and text hold no line break. */
  predicate SingleLineStrings(r: CapturedResult, errorString: string)
    requires r.barcodes.Some? ==> Printable(r.barcodes.value)
  {
    && Text.NoNewline(errorString)
    && (r.barcodes.Some? ==>
          forall i :: 0 <= i < |r.barcodes.value.items| ==>
            && Text.NoNewline(r.barcodes.value.items[i].value.format.value)
            && Text.NoNewline(r.barcodes.value.items[i].value.text.value))
  }

  /** Every corner line stays on one line of output. */
  lemma PointLinesSingle(q: Quad)
    ensures forall k :: 0 <= k < 4 ==> Text.NoNewline(PointLines(q)[k])
  {
    forall k | 0 <= k < 4 ensures Text.NoNewline(PointLines(q)[k]) {
      var p := q.Corners()[k];
      var a, b, c := Text.NatToString(k + 1), Text.IntToString(p.x), Text.IntToString(p.y);
      assert Text.NoNewline(a) && Text.NoNewline(b) && Text.NoNewline(c);
      assert Text.NoNewline("Point ") && Text.NoNewline(": (") && Text.NoNewline(", ") && Text.NoNewline(")");
      Text.NoNewlineConcat("Point " + a + ": (" + b + ", " + c, ")");
      Text.NoNewlineConcat("Point " + a + ": (" + b + ", ", c);
      Text.NoNewlineConcat("Point " + a + ": (" + b, ", ");
      Text.NoNewlineConcat("Point " + a + ": (", b);
      Text.NoNewlineConcat("Point " + a, ": (");
      Text.NoNewlineConcat("Point ", a);
    }
  }

  /** An item's block is made of single lines when its format and text are. */
  lemma ItemLinesSingle(j: nat, item: BarcodeItem, withPoints: bool)
    requires item.format.Some? && item.text.Some?
    requires Text.NoNewline(item.format.value) && Text.NoNewline(item.text.value)
    ensures forall k :: 0 <= k < |ItemLines(j, item, withPoints)| ==> Text.NoNewline(ItemLines(j, item, withPoints)[k])
  {
    var digits := Text.NatToString(j + 1);
    assert Text.NoNewline(digits) && Text.NoNewline("Result ");
    Text.NoNewlineConcat("Result ", digits);
    assert Text.NoNewline(FormatLabel) && Text.NoNewline(TextLabel);
    Text.NoNewlineConcat(FormatLabel, item.format.value);
    Text.NoNewlineConcat(TextLabel, item.text.value);
    var head := [ResultLine(j), FormatLabel + item.format.value, TextLabel + item.text.value];
    var tail := if withPoints then PointLines(item.location) else [];
    if withPoints {
      PointLinesSingle(item.location);
    }
    Text.AllNoNewlineAppend(head, tail);
  }

  /** With single-line formats and texts, every line of the item blocks stays on one line of output. */
  lemma {:induction false} ItemsLinesSingle(items: seq<Option<BarcodeItem>>, withPoints: bool)
    requires forall i :: 0 <= i < |items| ==> items[i].Some? && items[i].value.format.Some? && items[i].value.text.Some?
    requires forall i :: 0 <= i < |items| ==>
      Text.NoNewline(items[i].value.format.value) && Text.NoNewline(items[i].value.text.value)
    ensures forall k :: 0 <= k < |ItemsLines(items, withPoints)| ==> Text.NoNewline(ItemsLines(items, withPoints)[k])
    decreases |items|
  {
    if items != [] {
      var n := |items|;
      var item := items[n - 1].value;
      ItemsLinesSingle(items[..n - 1], withPoints);
      ItemLinesSingle(n - 1, item, withPoints);
      Text.AllNoNewlineAppend(ItemsLines(items[..n - 1], withPoints), ItemLines(n - 1, item, withPoints));
    }
  }

  /** The error line stays on one line of output when the error string does. */
  lemma ErrorLinesSingle(r: CapturedResult, errorString: string)
    requires Text.NoNewline(errorString)
    ensures forall k :: 0 <= k < |ErrorLines(r, errorString)| ==> Text.NoNewline(ErrorLines(r, errorString)[k])
  {
    if r.errorCode != 0 {
      var code := Text.IntToString(r.errorCode);
      assert Text.NoNewline(code) && Text.NoNewline("Error: ") && Text.NoNewline(",");
      Text.NoNewlineConcat("Error: ", code);
      Text.NoNewlineConcat("Error: " + code, ",");
      Text.NoNewlineConcat("Error: " + code + ",", errorString);
    }
  }

  /** With single-line strings, no line the report writes holds a line break. */
  lemma ReportLinesSingle(r: CapturedResult, errorString: string, withPoints: bool)
    requires r.barcodes.Some? ==> Printable(r.barcodes.value)
    requires SingleLineStrings(r, errorString)
    ensures var lines := Expected(r, errorString, withPoints);
      forall k :: 0 <= k < |lines| ==> Text.NoNewline(lines[k])
  {
    var err := ErrorLines(r, errorString);
    ErrorLinesSingle(r, errorString);
    var rest: seq<string>;
    if Found(r) {
      var items := r.barcodes.value.items;
      var n := Text.NatToString(|items|);
      assert Text.NoNewline(n) && Text.NoNewline("Decoded ") && Text.NoNewline(" barcodes");
      Text.NoNewlineConcat("Decoded ", n);
      Text.NoNewlineConcat("Decoded " + n, " barcodes");
      ItemsLinesSingle(items, withPoints);
      rest := ["Decoded " + n + " barcodes"] + ItemsLines(items, withPoints);
      Text.AllNoNewlineAppend(["Decoded " + n + " barcodes"], ItemsLines(items, withPoints));
    } else {
      rest := [NotFoundLine];
      assert Text.NoNewline(NotFoundLine);
    }
    assert Expected(r, errorString, withPoints) == err + rest;
    Text.AllNoNewlineAppend(err, rest);
  }

  /**
   * What the console shows: with single-line strings, splitting the printed
   * output at its line breaks gives back exactly the lines written, so the
   * decoded texts read back from the output itself and the line count holds
   * for the printed lines.
   */
  lemma PrintedReportRecoversTexts(r: CapturedResult, errorString: string, withPoints: bool)
    requires r.barcodes.Some? ==> Printable(r.barcodes.value)
    requires SingleLineStrings(r, errorString)
    ensures var printed := Text.SplitLines(Text.JoinLines(Expected(r, errorString, withPoints)));
      && printed == Expected(r, errorString, withPoints)
      && ReportedTexts(printed) == (if Found(r) then ItemTexts(r.barcodes.value.items) else [])
      && |printed| == |ErrorLines(r, errorString)| + (if Found(r) then 1 + LinesPerItem(withPoints) * |r.barcodes.value.items| else 1)
  {
    ReportLinesSingle(r, errorString, withPoints);
    Text.SplitJoinLines(Expected(r, errorString, withPoints));
    ReportRecoversTexts(r, errorString, withPoints);
    ReportLength(r, errorString, withPoints);
  }

  /** "No barcode found." is printed exactly when the sub-result is null or empty. */
  lemma NotFoundLineIff(r: CapturedResult, errorString: string, withPoints: bool)
    requires r.barcodes.Some? ==> Printable(r.barcodes.value)
    ensures NotFoundLine in Expected(r, errorString, withPoints) <==> !Found(r)
  {
    var lines := Expected(r, errorString, withPoints);
    if Found(r) {
      var err := ErrorLines(r, errorString);
      var items := r.barcodes.value.items;
      var count := ["Decoded " + Text.NatToString(|items|) + " barcodes"];
      assert lines == err + count + ItemsLines(items, withPoints);
      forall k | 0 <= k < |lines| ensures lines[k] != NotFoundLine {
        if k < |err| {
          assert lines[k] == err[0];
          assert lines[k][0] == 'E';
        } else if k == |err| {
          assert lines[k] == count[0];
          assert lines[k][0] == 'D';
        } else {
          assert lines[k] == ItemsLines(items, withPoints)[k - |err| - 1];
          ItemsLinesShape(items, withPoints, k - |err| - 1);
        }
      }
    }
  }

  /** No line of an item block reads "No barcode found.". */
  lemma {:induction false} ItemsLinesShape(items: seq<Option<BarcodeItem>>, withPoints: bool, k: nat)
    requires forall i :: 0 <= i < |items| ==> items[i].Some? && items[i].value.format.Some? && items[i].value.text.Some?
    requires k < |ItemsLines(items, withPoints)|
    ensures ItemsLines(items, withPoints)[k] != NotFoundLine
    decreases |items|
  {
    var n := |items|;
    var prev := ItemsLines(items[..n - 1], withPoints);
    if k < |prev| {
      ItemsLinesShape(items[..n - 1], withPoints, k);
    } else {
      BlockLines(n - 1, items[n - 1].value, withPoints, k - |prev|);
    }
  }

  /** No line of one item block reads "No barcode found.". */
  lemma BlockLines(j: nat, item: BarcodeItem, withPoints: bool, m: nat)
    requires item.format.Some? && item.text.Some?
    requires m < |ItemLines(j, item, withPoints)|
    ensures ItemLines(j, item, withPoints)[m] != NotFoundLine
  {
    var l := ItemLines(j, item, withPoints)[m];
    if m == 1 {
      assert l[..|FormatLabel|] == FormatLabel;
      assert l[0] == 'B';
    } else if m == 2 {
      assert l[..|TextLabel|] == TextLabel;
      assert l[0] == 'B';
    } else {
      assert l[0] == 'R' || l[0] == 'P';
    }
    assert NotFoundLine[0] == 'N';
  }

  // ---------------------------------------------------------------------------
  // Releases

  /** A `Release` call after the report. */
  datatype Released = SubResultReleased | CaptureReleased

  /** The sub-result is released when non-null, then the capture result. */
  function Releases(r: CapturedResult): (rel: seq<Released>)
    ensures |rel| >= 1 && rel[|rel| - 1] == CaptureReleased
    ensures multiset(rel)[CaptureReleased] == 1
    ensures multiset(rel)[SubResultReleased] == (if r.barcodes.Some? then 1 else 0)
  {
    (if r.barcodes.Some? then [SubResultReleased] else []) + [CaptureReleased]
  }
}
