/**
 * The MRZ demo's result record: which parsed fields it keeps, the raw MRZ
 * lines it collects (three for a TD1 identity card, two otherwise, as in
 * ICAO Doc 9303 parts 5 and 4), its fixed text layout, the on-screen
 * overlay, and the frame image ids.
 */
module MrzDemo {
  import opened Wrappers
  import Text

  /** `EnumValidationStatus`. */
  datatype ValidationStatus = VsNone | VsSucceeded | VsFailed

  /** One parsed field: `GetFieldValue` (may be null) and `GetFieldValidationStatus`. */
  datatype Field = Field(value: Option<string>, status: ValidationStatus)

  /** A `CParsedResultItem`: its code type and its fields by name. */
  datatype ParsedItem = ParsedItem(codeType: string, fields: map<string, Field>)
  {
    /** A field by name; a field the item lacks reads as null. */
    function Get(name: string): (f: Field)
      ensures name !in fields ==> f.value.None?
    {
      if name in fields then fields[name] else Field(None, VsNone)
    }
  }

  /** `MRZResult`. */
  datatype MrzResult = MrzResult(
    docId: string, docType: string, nationality: string, issuer: string,
    dateOfBirth: string, dateOfExpiry: string, gender: string, surname: string, givenname: string,
    rawText: seq<string>)

  /** A default-constructed `MRZResult`: every string empty, no raw lines. */
  const Fresh: MrzResult := MrzResult("", "", "", "", "", "", "", "", "", [])

  const Td3Passport: string := "MRTD_TD3_PASSPORT"
  const Td1Id: string := "MRTD_TD1_ID"
  const FailedSuffix: string := ", Validation Failed"

  /** The value a field contributes: present only when non-null and not `VS_FAILED`. */
  function Usable(f: Field): (v: Option<string>)
    ensures v.Some? <==> f.value.Some? && f.status != VsFailed
    ensures v.Some? ==> v.value == f.value.value
  {
    if f.status != VsFailed && f.value.Some? then f.value else None
  }

  /**
   * A member after one guarded copy: the field's value when it is non-null
   * and not `VS_FAILED`, the member's earlier value otherwise.
   */
  predicate Copied(before: string, after: string, f: Field)
  {
    && (f.value.Some? && f.status != VsFailed ==> after == f.value.value)
    && (f.value.None? || f.status == VsFailed ==> after == before)
  }

  /** `if (usable) member = value;`: the member keeps its value otherwise. */
  function Assign(current: string, f: Field): string
  {
    match Usable(f)
    case Some(v) => v
    case None => current
  }

  /** The field the document id comes from: `passportNumber` for a TD3 passport, else `documentNumber`. */
  function IdField(codeType: string): string
  {
    if codeType == Td3Passport then "passportNumber" else "documentNumber"
  }

  /** The raw-line field names for a document type. */
  function LineFields(codeType: string): (names: seq<string>)
    ensures |names| == (if codeType == Td1Id then 3 else 2)
  {
    if codeType == Td1Id then ["line1", "line2", "line3"] else ["line1", "line2"]
  }

  /** One raw line: the value, with ", Validation Failed" appended when its status is `VS_FAILED`. */
  function RawLine(value: string, status: ValidationStatus): (line: string)
    ensures |value| <= |line| && line[..|value|] == value
  {
    if status == VsFailed then value + FailedSuffix else value
  }

  /** The raw lines contributed by the named fields, skipping null values, in order. */
  function RawLines(item: ParsedItem, names: seq<string>): (lines: seq<string>)
    ensures |lines| <= |names|
  {
    if names == [] then []
    else
      var f := item.Get(names[0]);
      (if f.value.Some? then [RawLine(f.value.value, f.status)] else []) + RawLines(item, names[1..])
  }

  /**
   * `FromParsedResultItem`: overwrites the document type; takes the id from
   * the field that fits the document type; appends the raw lines; copies
   * each of the other seven fields only when usable. The object's earlier
   * raw lines are kept.
   */
  function FromParsedResultItem(r: MrzResult, item: ParsedItem): (out: MrzResult)
    ensures out.docType == item.codeType
    ensures |r.rawText| <= |out.rawText| <= |r.rawText| + (if item.codeType == Td1Id then 3 else 2)
    ensures out.rawText[..|r.rawText|] == r.rawText
    ensures out.rawText == r.rawText + RawLines(item, LineFields(item.codeType))
    ensures Copied(r.docId, out.docId, item.Get(IdField(item.codeType)))
    ensures Copied(r.nationality, out.nationality, item.Get("nationality"))
    ensures Copied(r.issuer, out.issuer, item.Get("issuingState"))
    ensures Copied(r.dateOfBirth, out.dateOfBirth, item.Get("dateOfBirth"))
    ensures Copied(r.dateOfExpiry, out.dateOfExpiry, item.Get("dateOfExpiry"))
    ensures Copied(r.gender, out.gender, item.Get("sex"))
    ensures Copied(r.surname, out.surname, item.Get("primaryIdentifier"))
    ensures Copied(r.givenname, out.givenname, item.Get("secondaryIdentifier"))
  {
    MrzResult(
      docId := Assign(r.docId, item.Get(IdField(item.codeType))),
      docType := item.codeType,
      nationality := Assign(r.nationality, item.Get("nationality")),
      issuer := Assign(r.issuer, item.Get("issuingState")),
      dateOfBirth := Assign(r.dateOfBirth, item.Get("dateOfBirth")),
      dateOfExpiry := Assign(r.dateOfExpiry, item.Get("dateOfExpiry")),
      gender := Assign(r.gender, item.Get("sex")),
      surname := Assign(r.surname, item.Get("primaryIdentifier")),
      givenname := Assign(r.givenname, item.Get("secondaryIdentifier")),
      rawText := r.rawText + RawLines(item, LineFields(item.codeType)))
  }

  /**
   * A TD3 passport's id never comes from `documentNumber`, and another
   * document's never from `passportNumber`: changing the unused field leaves
   * the result unchanged.
   */
  lemma DocIdIgnoresOtherField(r: MrzResult, item: ParsedItem, f: Field)
    ensures item.codeType == Td3Passport ==>
      FromParsedResultItem(r, item.(fields := item.fields["documentNumber" := f])).docId == FromParsedResultItem(r, item).docId
    ensures item.codeType != Td3Passport ==>
      FromParsedResultItem(r, item.(fields := item.fields["passportNumber" := f])).docId == FromParsedResultItem(r, item).docId
  {
  }

  /** A field marked `VS_FAILED` never changes its member of the record, whatever its value. */
  lemma FailedFieldIgnored(r: MrzResult, item: ParsedItem)
    ensures var out := FromParsedResultItem(r, item);
      && (item.Get(IdField(item.codeType)).status == VsFailed ==> out.docId == r.docId)
      && (item.Get("nationality").status == VsFailed ==> out.nationality == r.nationality)
      && (item.Get("issuingState").status == VsFailed ==> out.issuer == r.issuer)
      && (item.Get("dateOfBirth").status == VsFailed ==> out.dateOfBirth == r.dateOfBirth)
      && (item.Get("dateOfExpiry").status == VsFailed ==> out.dateOfExpiry == r.dateOfExpiry)
      && (item.Get("sex").status == VsFailed ==> out.gender == r.gender)
      && (item.Get("primaryIdentifier").status == VsFailed ==> out.surname == r.surname)
      && (item.Get("secondaryIdentifier").status == VsFailed ==> out.givenname == r.givenname)
  {
  }

  /** Each raw line starts with its field's value; a failed one is marked exactly by the suffix. */
  lemma {:induction false} RawLinesFromValues(item: ParsedItem, names: seq<string>)
    ensures |RawLines(item, names)| == |PresentNames(item, names)|
    ensures forall k :: 0 <= k < |RawLines(item, names)| ==>
      var f := item.Get(PresentNames(item, names)[k]);
      f.value.Some? && RawLines(item, names)[k] == (if f.status == VsFailed then f.value.value + FailedSuffix else f.value.value)
    decreases |names|
  {
    if names != [] {
      RawLinesFromValues(item, names[1..]);
      var f := item.Get(names[0]);
      var head: seq<string> := if f.value.Some? then [RawLine(f.value.value, f.status)] else [];
      var headNames: seq<string> := if f.value.Some? then [names[0]] else [];
      assert RawLines(item, names) == head + RawLines(item, names[1..]);
      assert PresentNames(item, names) == headNames + PresentNames(item, names[1..]);
      forall k | 0 <= k < |RawLines(item, names)|
        ensures var g := item.Get(PresentNames(item, names)[k]);
          g.value.Some? && RawLines(item, names)[k] == (if g.status == VsFailed then g.value.value + FailedSuffix else g.value.value)
      {
        if k >= |head| {
          assert RawLines(item, names)[k] == RawLines(item, names[1..])[k - |head|];
          assert PresentNames(item, names)[k] == PresentNames(item, names[1..])[k - |head|];
        }
      }
    }
  }

  /** The named fields whose value is non-null, in order. */
  function PresentNames(item: ParsedItem, names: seq<string>): seq<string>
  {
    if names == [] then []
    else (if item.Get(names[0]).value.Some? then [names[0]] else []) + PresentNames(item, names[1..])
  }

  /** The names kept are exactly the named fields with a non-null value. */
  lemma {:induction false} PresentNamesIff(item: ParsedItem, names: seq<string>)
    ensures forall n :: n in PresentNames(item, names) <==> n in names && item.Get(n).value.Some?
    decreases |names|
  {
    if names != [] {
      PresentNamesIff(item, names[1..]);
      assert names == [names[0]] + names[1..];
    }
  }

  /**
   * The raw lines an item appends: one per line field of its document type
   * with a non-null value, in field order, each the value with the failure
   * suffix exactly when that field failed validation; the earlier lines stay.
   */
  lemma FromParsedRawText(r: MrzResult, item: ParsedItem)
    ensures var out := FromParsedResultItem(r, item);
      var names := PresentNames(item, LineFields(item.codeType));
      && (forall n :: n in names <==> n in LineFields(item.codeType) && item.Get(n).value.Some?)
      && |out.rawText| == |r.rawText| + |names|
      && out.rawText[..|r.rawText|] == r.rawText
      && forall k :: 0 <= k < |names| ==>
           var f := item.Get(names[k]);
           f.value.Some? && out.rawText[|r.rawText| + k] == (if f.status == VsFailed then f.value.value + FailedSuffix else f.value.value)
  {
    var names := LineFields(item.codeType);
    PresentNamesIff(item, names);
    RawLinesFromValues(item, names);
  }

  /**
   * With all three line fields present, a TD1 card appends exactly line1,
   * line2 and line3, in that order, each marked when it failed validation.
   */
  lemma Td1ThreeLines(r: MrzResult, item: ParsedItem)
    requires item.codeType == Td1Id
    requires item.Get("line1").value.Some? && item.Get("line2").value.Some? && item.Get("line3").value.Some?
    ensures var l1, l2, l3 := item.Get("line1"), item.Get("line2"), item.Get("line3");
      FromParsedResultItem(r, item).rawText
        == r.rawText + [RawLine(l1.value.value, l1.status), RawLine(l2.value.value, l2.status), RawLine(l3.value.value, l3.status)]
  {
    var l1, l2, l3 := item.Get("line1"), item.Get("line2"), item.Get("line3");
    var names := LineFields(item.codeType);
    assert names[1..] == ["line2", "line3"] && names[1..][1..] == ["line3"] && names[1..][1..][1..] == [];
    assert RawLines(item, names[1..][1..]) == [RawLine(l3.value.value, l3.status)];
    assert RawLines(item, names[1..]) == [RawLine(l2.value.value, l2.status), RawLine(l3.value.value, l3.status)];
  }

  /** When every named field is non-null, each contributes one raw line. */
  lemma {:induction false} RawLinesAllPresent(item: ParsedItem, names: seq<string>)
    requires forall k :: 0 <= k < |names| ==> item.Get(names[k]).value.Some?
    ensures |RawLines(item, names)| == |names|
    decreases |names|
  {
    if names != [] {
      RawLinesAllPresent(item, names[1..]);
    }
  }

  // ---------------------------------------------------------------------------
  // ToString

  /** The labels of the parsed-information lines, in print order. */
  const Labels: seq<string> := ["Document Type: ", "Document ID: ", "Surname: ", "Given Name: ", "Nationality: ",
                                "Issuing Country or Organization: ", "Gender: ", "Date of Birth(YYMMDD): ",
                                "Expiration Date(YYMMDD): "]

  /** The parsed values, in print order. */
  function Values(r: MrzResult): (v: seq<string>)
    ensures |v| == |Labels|
  {
    [r.docType, r.docId, r.surname, r.givenname, r.nationality, r.issuer, r.gender, r.dateOfBirth, r.dateOfExpiry]
  }

  /** "\tLine k: " for the raw line with 0-based index `k`. */
  function RawPrefix(k: nat): (p: string)
    ensures Text.NoNewline(p)
  {
    "\tLine " + Text.NatToString(k + 1) + ": "
  }

  /** The raw-line section, one line per raw line (reference definition). */
  function RawSection(raw: seq<string>): (lines: seq<string>)
    ensures |lines| == |raw| && forall k :: 0 <= k < |raw| ==> lines[k] == RawPrefix(k) + raw[k]
  {
    seq(|raw|, k requires 0 <= k < |raw| => RawPrefix(k) + raw[k])
  }

  /** The parsed-information section. */
  function ParsedSection(r: MrzResult): (lines: seq<string>)
    ensures |lines| == 9 && forall j :: 0 <= j < 9 ==> lines[j] == "\t" + Labels[j] + Values(r)[j]
  {
    var v := Values(r);
    seq(9, j requires 0 <= j < 9 => "\t" + Labels[j] + v[j])
  }

  /** The layout of `ToString`, one entry per line. */
  function Layout(r: MrzResult): (lines: seq<string>)
    ensures |lines| == |r.rawText| + 11
  {
    ["Raw Text:"] + RawSection(r.rawText) + ["Parsed Information:"] + ParsedSection(r)
  }

  /** `ToString`: the header, a line per raw line, the second header, and the nine labelled values. */
  method ToString(r: MrzResult) returns (msg: string)
    ensures msg == Text.JoinLines(Layout(r))
  {
    msg := "Raw Text:\n";
    var idx := 0;
    while idx < |r.rawText|
      invariant 0 <= idx <= |r.rawText|
      invariant msg == Text.JoinLines(["Raw Text:"] + RawSection(r.rawText[..idx]))
    {
      RawSectionStep(r.rawText, idx);
      msg := msg + (RawPrefix(idx) + r.rawText[idx] + "\n");
      idx := idx + 1;
    }
    assert r.rawText[..idx] == r.rawText;
    var tail := ["Parsed Information:"] + ParsedSection(r);
    Text.JoinLinesAppend(["Raw Text:"] + RawSection(r.rawText), tail);
    assert Layout(r) == (["Raw Text:"] + RawSection(r.rawText)) + tail;
    msg := msg + Text.JoinLines(tail);
  }

  /** The text of the header and the first `idx + 1` raw lines extends that of the first `idx` by one line. */
  lemma RawSectionStep(raw: seq<string>, idx: nat)
    requires idx < |raw|
    ensures Text.JoinLines(["Raw Text:"] + RawSection(raw[..idx + 1]))
         == Text.JoinLines(["Raw Text:"] + RawSection(raw[..idx])) + (RawPrefix(idx) + raw[idx] + "\n")
  {
    var line := RawPrefix(idx) + raw[idx];
    var head := ["Raw Text:"] + RawSection(raw[..idx]);
    Text.JoinLinesAppend(head, [line]);
    assert RawSection(raw[..idx + 1]) == RawSection(raw[..idx]) + [line];
    assert ["Raw Text:"] + RawSection(raw[..idx + 1]) == head + [line];
    assert Text.JoinLines([line]) == line + "\n" by {
      assert [line][1..] == [];
    }
  }

  /** `s` with the prefix `p` removed, or "" when `s` does not start with it. */
  function DropPrefix(s: string, p: string): string
  {
    if |p| <= |s| && s[..|p|] == p then s[|p|..] else ""
  }

  lemma DropPrefixOf(p: string, v: string)
    ensures DropPrefix(p + v, p) == v
  {
    assert (p + v)[..|p|] == p;
  }

  /** Reading a record back from the lines of its text. */
  function ReadLayout(lines: seq<string>): MrzResult
    requires |lines| >= 11
  {
    var n := |lines| - 11;
    MrzResult(docId := ReadField(lines, 1), docType := ReadField(lines, 0), nationality := ReadField(lines, 4),
              issuer := ReadField(lines, 5), dateOfBirth := ReadField(lines, 7), dateOfExpiry := ReadField(lines, 8),
              gender := ReadField(lines, 6), surname := ReadField(lines, 2), givenname := ReadField(lines, 3),
              rawText := ReadRaw(lines))
  }

  /** The value on the line of parsed field `j`. */
  function ReadField(lines: seq<string>, j: nat): string
    requires |lines| >= 11 && j < 9
  {
    DropPrefix(lines[|lines| - 9 + j], "\t" + Labels[j])
  }

  /** The raw lines, read from the lines between the two headers. */
  function ReadRaw(lines: seq<string>): (raw: seq<string>)
    requires |lines| >= 11
    ensures |raw| == |lines| - 11 && forall k :: 0 <= k < |raw| ==> raw[k] == DropPrefix(lines[k + 1], RawPrefix(k))
  {
    seq(|lines| - 11, k requires 0 <= k < |lines| - 11 => DropPrefix(lines[k + 1], RawPrefix(k)))
  }

  /** Where each part of the record sits in the layout. */
  lemma LayoutAt(r: MrzResult)
    ensures forall k :: 0 <= k < |r.rawText| ==> Layout(r)[k + 1] == RawPrefix(k) + r.rawText[k]
    ensures forall j :: 0 <= j < 9 ==> Layout(r)[|Layout(r)| - 9 + j] == "\t" + Labels[j] + Values(r)[j]
    ensures Layout(r)[0] == "Raw Text:" && Layout(r)[|r.rawText| + 1] == "Parsed Information:"
  {
    var head := ["Raw Text:"] + RawSection(r.rawText);
    var tail := ["Parsed Information:"] + ParsedSection(r);
    assert Layout(r) == head + tail;
    forall k | 0 <= k < |r.rawText| ensures Layout(r)[k + 1] == RawPrefix(k) + r.rawText[k] {
      assert Layout(r)[k + 1] == head[k + 1] == RawSection(r.rawText)[k];
    }
    forall j | 0 <= j < 9 ensures Layout(r)[|Layout(r)| - 9 + j] == "\t" + Labels[j] + Values(r)[j] {
      assert Layout(r)[|Layout(r)| - 9 + j] == tail[1 + j] == ParsedSection(r)[j];
    }
  }

  /** Every string of the record is free of line breaks. */
  predicate SingleLine(r: MrzResult)
  {
    (forall j :: 0 <= j < 9 ==> Text.NoNewline(Values(r)[j]))
    && forall k :: 0 <= k < |r.rawText| ==> Text.NoNewline(r.rawText[k])
  }

  /** The layout determines the record: reading it back gives the record. */
  lemma ReadLayoutRoundTrip(r: MrzResult)
    ensures ReadLayout(Layout(r)) == r
  {
    var lines := Layout(r);
    LayoutAt(r);
    forall k | 0 <= k < |r.rawText| ensures ReadRaw(lines)[k] == r.rawText[k] {
      DropPrefixOf(RawPrefix(k), r.rawText[k]);
    }
    forall j | 0 <= j < 9 ensures ReadField(lines, j) == Values(r)[j] {
      DropPrefixOf("\t" + Labels[j], Values(r)[j]);
    }
    assert ReadRaw(lines) == r.rawText;
  }

  /** Every line of the layout is free of line breaks when the record's strings are. */
  lemma LayoutSingleLines(r: MrzResult)
    requires SingleLine(r)
    ensures forall k :: 0 <= k < |Layout(r)| ==> Text.NoNewline(Layout(r)[k])
  {
    var lines := Layout(r);
    var n := |r.rawText|;
    LayoutAt(r);
    LabelsSingleLine();
    forall k | 0 <= k < |lines| ensures Text.NoNewline(lines[k]) {
      if 1 <= k <= n {
        Text.NoNewlineConcat(RawPrefix(k - 1), r.rawText[k - 1]);
      } else if k >= n + 2 {
        Text.NoNewlineConcat("\t" + Labels[k - n - 2], Values(r)[k - n - 2]);
      }
    }
  }

  lemma LabelsSingleLine()
    ensures forall j :: 0 <= j < 9 ==> Text.NoNewline("\t" + Labels[j])
  {
    forall j | 0 <= j < 9 ensures Text.NoNewline("\t" + Labels[j]) {
      LabelFree(j);
      Text.NoNewlineConcat("\t", Labels[j]);
    }
  }

  /** Label `j` holds no line break, checked label by label. */
  lemma LabelFree(j: nat)
    requires j < 9
    ensures Text.NoNewline(Labels[j])
  {
    LabelsFreeHead();
    LabelsFreeMiddle();
    LabelsFreeTail();
  }

  /** Labels 0 to 2 hold no line break. */
  lemma LabelsFreeHead()
    ensures Text.NoNewline(Labels[0]) && Text.NoNewline(Labels[1]) && Text.NoNewline(Labels[2])
  {
  }

  /** Labels 3 to 5 hold no line break. */
  lemma LabelsFreeMiddle()
    ensures Text.NoNewline(Labels[3]) && Text.NoNewline(Labels[4]) && Text.NoNewline(Labels[5])
  {
  }

  /** Labels 6 to 8 hold no line break. */
  lemma LabelsFreeTail()
    ensures Text.NoNewline(Labels[6]) && Text.NoNewline(Labels[7]) && Text.NoNewline(Labels[8])
  {
  }

  /**
   * `ToString` loses nothing: for a record whose strings hold no line break,
   * the text has `|rawText| + 11` lines and the record can be read back from it.
   */
  lemma ToStringRoundTrip(r: MrzResult)
    requires SingleLine(r)
    ensures |Text.SplitLines(Text.JoinLines(Layout(r)))| == |r.rawText| + 11
    ensures ReadLayout(Text.SplitLines(Text.JoinLines(Layout(r)))) == r
  {
    LayoutSingleLines(r);
    Text.SplitJoinLines(Layout(r));
    ReadLayoutRoundTrip(r);
  }

  // ---------------------------------------------------------------------------
  // The overlay

  /** A `DrawText` call: the text and its baseline y. */
  datatype Drawn = Drawn(text: string, y: int)

  /**
   * The overlay as written: eight `DrawText` calls 20 pixels apart from
   * y = 40; the expiry message is built but never drawn.
   */
  function OverlayAsWritten(r: MrzResult): (d: seq<Drawn>)
    ensures |d| == 8
  {
    var v := Values(r);
    seq(8, j requires 0 <= j < 8 => Drawn(Labels[j] + v[j], 40 + 20 * j))
  }

  /** The expiry date never reaches the screen: no drawn text carries its label. */
  lemma OverlayDropsExpiry(r: MrzResult)
    ensures forall j :: 0 <= j < |OverlayAsWritten(r)| ==> !StartsWithLabel(OverlayAsWritten(r)[j].text, 8)
    ensures |OverlayAsWritten(r)| < |ParsedSection(r)|
  {
    forall j | 0 <= j < 8 ensures !StartsWithLabel(OverlayAsWritten(r)[j].text, 8) {
      var t := OverlayAsWritten(r)[j].text;
      assert t == Labels[j] + Values(r)[j];
      assert t[0] == Labels[j][0] && Labels[j][0] != 'E';
    }
  }

  /** `s` starts with label `j`. */
  predicate StartsWithLabel(s: string, j: nat)
    requires j < 9
  {
    |Labels[j]| <= |s| && s[..|Labels[j]|] == Labels[j]
  }

  /** The overlay with the missing ninth call: one line per parsed field, 20 pixels apart. */
  function Overlay(r: MrzResult): (d: seq<Drawn>)
    ensures |d| == |ParsedSection(r)|
  {
    var v := Values(r);
    seq(9, j requires 0 <= j < 9 => Drawn(Labels[j] + v[j], 40 + 20 * j))
  }

  /** The corrected overlay shows exactly the parsed section of `ToString`, without the tab, top to bottom. */
  lemma OverlayMatchesToString(r: MrzResult)
    ensures forall j :: 0 <= j < |Overlay(r)| ==> "\t" + Overlay(r)[j].text == ParsedSection(r)[j]
    ensures forall j :: 0 < j < |Overlay(r)| ==> Overlay(r)[j].y == Overlay(r)[j - 1].y + 20
    ensures OverlayAsWritten(r) == Overlay(r)[..8]
  {
  }

  // ---------------------------------------------------------------------------
  // Frame ids

  const IdCycle: nat := 10000

  /** The counter after a frame: `i++; if (i == 10000) i = 0;`. */
  function NextId(i: nat): nat
  {
    if i + 1 == IdCycle then 0 else i + 1
  }

  /** The ids given to the first `n` frames, starting from 0. */
  function FrameIds(n: nat): (ids: seq<nat>)
    ensures |ids| == n
  {
    if n == 0 then [] else
      var prev := FrameIds(n - 1);
      prev + [if n == 1 then 0 else NextId(prev[n - 2])]
  }

  /** Frame k gets id k mod 10000: ids cycle through 0..9999. */
  lemma {:induction false} FrameIdsCycle(n: nat)
    ensures forall k :: 0 <= k < n ==> FrameIds(n)[k] == k % IdCycle && FrameIds(n)[k] < IdCycle
  {
    if n > 0 {
      FrameIdsCycle(n - 1);
      var prev := FrameIds(n - 1);
      var ids := FrameIds(n);
      assert ids == prev + [if n == 1 then 0 else NextId(prev[n - 2])];
      forall k | 0 <= k < n - 1 ensures ids[k] == k % IdCycle {
        assert ids[k] == prev[k];
      }
      if n > 1 {
        NextIdMod(n - 2);
      }
    }
  }

  /** Advancing the counter from `k mod 10000` gives `(k + 1) mod 10000`. */
  lemma NextIdMod(k: nat)
    ensures NextId(k % IdCycle) == (k + 1) % IdCycle
  {
  }
}
