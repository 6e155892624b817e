/**
 * The C-linkage bridge the Rust program calls: it flattens a capture into a
 * heap array of `Barcode` records and frees that array again.
 */
module Bridge {
  import opened Wrappers
  import opened Sdk

  /** A flat `Barcode` record: two owned strings and eight corner coordinates. */
  datatype Barcode = Barcode(barcodeType: string, barcodeValue: string,
                             x1: int, y1: int, x2: int, y2: int, x3: int, y3: int, x4: int, y4: int)
  {
    /** The corners in record order, (x1, y1) first. */
    function Corners(): (r: seq<Point>)
      ensures |r| == 4
    {
      [Point(x1, y1), Point(x2, y2), Point(x3, y3), Point(x4, y4)]
    }
  }

  /**
   * A `BarcodeResults` block: `count` and the slot array. A slot the bridge
   * never wrote (its item was null) is `None`: its contents are indeterminate.
   */
  datatype BarcodeResults = BarcodeResults(count: int, slots: seq<Option<Barcode>>)

  /** Every slot was written. */
  predicate AllWritten(r: BarcodeResults)
  {
    forall i :: 0 <= i < |r.slots| ==> r.slots[i].Some?
  }

  const UnknownFormat: string := "Unknown"

  /** `create_barcode`: copies of the two strings and the coordinates, field by field. */
  function CreateBarcode(barcodeType: string, barcodeValue: string, q: Quad): (b: Barcode)
    ensures b.barcodeType == barcodeType && b.barcodeValue == barcodeValue
    ensures b.Corners() == q.Corners()
  {
    Barcode(barcodeType, barcodeValue, q.p1.x, q.p1.y, q.p2.x, q.p2.y, q.p3.x, q.p3.y, q.p4.x, q.p4.y)
  }

  /** The record made for one non-null item: a null format becomes "Unknown", a null text "". */
  function FlattenItem(item: BarcodeItem): (b: Barcode)
    ensures b.barcodeType == (if item.format.Some? then item.format.value else UnknownFormat)
    ensures b.barcodeValue == (if item.text.Some? then item.text.value else "")
    ensures b.Corners() == item.location.Corners()
  {
    CreateBarcode(item.format.GetOr(UnknownFormat), item.text.GetOr(""), item.location)
  }

  /** What `decode_barcode_file` returns, and whether it released the capture result. */
  datatype Decoded = Decoded(results: Option<BarcodeResults>, releasedCapture: bool)

  /** The capture succeeded with a non-empty barcode sub-result. */
  predicate Decodable(capture: Option<CapturedResult>)
  {
    capture.Some? && capture.value.errorCode == 0
    && capture.value.barcodes.Some? && |capture.value.barcodes.value.items| > 0
  }

  /** The slots for a list of items: written for the non-null items only (reference definition). */
  function Slots(items: seq<Option<BarcodeItem>>): (r: seq<Option<Barcode>>)
    ensures |r| == |items|
  {
    if items == [] then []
    else Slots(items[..|items| - 1])
         + [if items[|items| - 1].Some? then Some(FlattenItem(items[|items| - 1].value)) else None]
  }

  /** The block `decode_barcode_file` returns for a capture (reference definition). */
  function Flattened(capture: Option<CapturedResult>): Option<BarcodeResults>
  {
    if Decodable(capture) then
      var items := capture.value.barcodes.value.items;
      Some(BarcodeResults(|items|, Slots(items)))
    else None
  }

  /**
   * `decode_barcode_file`, given what `Capture` returned: NULL unless the
   * capture is non-null with error 0, has a sub-result, and has items; then
   * one slot per item, written for the non-null items only. A non-null
   * capture result is released once, on every path.
   */
  method DecodeBarcodeFile(capture: Option<CapturedResult>) returns (d: Decoded)
    ensures d.releasedCapture <==> capture.Some?
    ensures d.results == Flattened(capture)
    ensures d.results.Some? <==> Decodable(capture)
    ensures d.results.Some? ==>
      var items := capture.value.barcodes.value.items;
      && d.results.value.count == |items| == |d.results.value.slots|
      && forall i :: 0 <= i < |items| ==>
           d.results.value.slots[i] == if items[i].Some? then Some(FlattenItem(items[i].value)) else None
  {
    var all: Option<BarcodeResults> := None;
    if capture.Some? && capture.value.errorCode == 0 {
      var sub := capture.value.barcodes;
      if sub.Some? {
        var items := sub.value.items;
        var count := |items|;
        if count > 0 {
          var slots := WriteSlots(items);
          SlotsAt(items);
          all := Some(BarcodeResults(count, slots));
        }
      }
    }
    d := Decoded(all, capture.Some?);
  }

  /** The `for` loop of `decode_barcode_file`: one `create_barcode` per non-null item. */
  method WriteSlots(items: seq<Option<BarcodeItem>>) returns (slots: seq<Option<Barcode>>)
    ensures slots == Slots(items)
  {
    slots := [];
    var i := 0;
    while i < |items|
      invariant 0 <= i <= |items|
      invariant slots == Slots(items[..i])
    {
      assert items[..i + 1][..i] == items[..i];
      var item := items[i];
      if item.Some? {
        var barcode := CreateBarcode(item.value.format.GetOr(UnknownFormat), item.value.text.GetOr(""),
                                     item.value.location);
        slots := slots + [Some(barcode)];
      } else {
        slots := slots + [None];
      }
      i := i + 1;
    }
    assert items[..|items|] == items;
  }

  /** Slot `i` holds the record of item `i` when that item is non-null, and was never written otherwise. */
  lemma {:induction false} SlotsAt(items: seq<Option<BarcodeItem>>)
    ensures forall i :: 0 <= i < |items| ==>
      Slots(items)[i] == if items[i].Some? then Some(FlattenItem(items[i].value)) else None
    decreases |items|
  {
    if items != [] {
      var n := |items|;
      SlotsAt(items[..n - 1]);
      forall i | 0 <= i < n - 1
        ensures Slots(items)[i] == Slots(items[..n - 1])[i] && items[i] == items[..n - 1][i]
      {
      }
    }
  }

  // ---------------------------------------------------------------------------
  // free_barcode

  /** One `free` call of `free_barcode`. */
  datatype Free = FreeType(slot: nat) | FreeValue(slot: nat) | FreeArray | FreeStruct

  /** The string frees of the first `n` slots, slot by slot (reference definition). */
  function SlotFrees(n: nat): seq<Free>
  {
    if n == 0 then [] else SlotFrees(n - 1) + [FreeType(n - 1), FreeValue(n - 1)]
  }

  /**
   * `free_barcode`: both strings of each of the `count` slots, then the
   * array, then the block. The slots must all have been written.
   */
  method FreeBarcode(results: BarcodeResults) returns (frees: seq<Free>)
    requires 0 <= results.count == |results.slots| && AllWritten(results)
    ensures frees == SlotFrees(results.count) + [FreeArray, FreeStruct]
  {
    frees := [];
    var i := 0;
    while i < results.count
      invariant 0 <= i <= results.count
      invariant frees == SlotFrees(i)
    {
      frees := frees + [FreeType(i), FreeValue(i)];
      i := i + 1;
    }
    frees := frees + [FreeArray, FreeStruct];
  }

  /** Slot i's strings are freed at positions 2i and 2i+1. */
  lemma {:induction false} SlotFreesShape(n: nat)
    ensures |SlotFrees(n)| == 2 * n
    ensures forall i :: 0 <= i < n ==> SlotFrees(n)[2 * i] == FreeType(i) && SlotFrees(n)[2 * i + 1] == FreeValue(i)
  {
    if n > 0 {
      SlotFreesShape(n - 1);
    }
  }

  /** How many times `f` occurs in `frees`. */
  function Occurrences(frees: seq<Free>, f: Free): nat
  {
    if frees == [] then 0
    else Occurrences(frees[..|frees| - 1], f) + (if frees[|frees| - 1] == f then 1 else 0)
  }

  lemma {:induction false} OccurrencesAppend(a: seq<Free>, b: seq<Free>, f: Free)
    ensures Occurrences(a + b, f) == Occurrences(a, f) + Occurrences(b, f)
    decreases |b|
  {
    if b == [] {
      assert a + b == a;
    } else {
      assert (a + b)[..|a + b| - 1] == a + b[..|b| - 1];
      OccurrencesAppend(a, b[..|b| - 1], f);
    }
  }

  lemma OccurrencesPair(a: Free, b: Free, f: Free)
    ensures Occurrences([a, b], f) == (if a == f then 1 else 0) + (if b == f then 1 else 0)
  {
    assert [a, b][..1] == [a];
    assert [a][..0] == [];
    assert Occurrences([a], f) == Occurrences([], f) + (if a == f then 1 else 0);
    assert Occurrences([a, b], f) == Occurrences([a], f) + (if b == f then 1 else 0);
  }

  /** Each string of each of the first `n` slots is freed exactly once, and nothing else is. */
  lemma {:induction false} SlotFreesOnce(n: nat, f: Free)
    ensures Occurrences(SlotFrees(n), f) == (if (f.FreeType? || f.FreeValue?) && f.slot < n then 1 else 0)
  {
    if n > 0 {
      SlotFreesOnce(n - 1, f);
      OccurrencesAppend(SlotFrees(n - 1), [FreeType(n - 1), FreeValue(n - 1)], f);
      OccurrencesPair(FreeType(n - 1), FreeValue(n - 1), f);
    }
  }

  /** Over the whole of `free_barcode`, every allocation is freed exactly once and nothing else is freed. */
  lemma FreedOnce(n: nat, f: Free)
    ensures Occurrences(SlotFrees(n) + [FreeArray, FreeStruct], f)
         == (if f.FreeArray? || f.FreeStruct? || f.slot < n then 1 else 0)
  {
    SlotFreesOnce(n, f);
    OccurrencesAppend(SlotFrees(n), [FreeArray, FreeStruct], f);
    OccurrencesPair(FreeArray, FreeStruct, f);
  }

  // ---------------------------------------------------------------------------
  // Reader instances

  /** `CVR_DestroyInstance`: deletes the router when the pointer is non-null, else does nothing. */
  function DestroyInstance(instance: Option<nat>): (deletes: nat)
    ensures deletes <= 1
    ensures deletes == 1 <==> instance.Some?
  {
    if instance.Some? then 1 else 0
  }
}
