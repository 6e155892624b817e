/**
 * Abstract view of the result objects of the closed-source recognition SDK.
 * Only what the surrounding programs read is kept: error codes, the item lists,
 * and per item a format string, a text and the four corners of its quadrilateral.
 */
module Sdk {
  import opened Wrappers

  /** `EC_OK`, the SDK's success code. */
  const EcOk: int := 0

  /** A `CPoint`: integer pixel coordinates. */
  datatype Point = Point(x: int, y: int)

  /** A `CQuadrilateral`: `points[0]` .. `points[3]` in the SDK's order. */
  datatype Quad = Quad(p1: Point, p2: Point, p3: Point, p4: Point)
  {
    /** The four corners as a list, `points[0]` first. */
    function Corners(): (r: seq<Point>)
      ensures |r| == 4
    {
      [p1, p2, p3, p4]
    }
  }

  /** A `CBarcodeResultItem`; `GetFormatString` and `GetText` may return null. */
  datatype BarcodeItem = BarcodeItem(format: Option<string>, text: Option<string>, location: Quad)

  /** A `CDecodedBarcodesResult`; `GetItem(i)` may return null. */
  datatype DecodedBarcodes = DecodedBarcodes(errorCode: int, items: seq<Option<BarcodeItem>>)

  /** A `CCapturedResult`; `GetDecodedBarcodesResult` may return null. */
  datatype CapturedResult = CapturedResult(errorCode: int, barcodes: Option<DecodedBarcodes>)

  /** Every item slot of a decoded result is non-null. */
  predicate ItemsPresent(d: DecodedBarcodes)
  {
    forall i :: 0 <= i < |d.items| ==> d.items[i].Some?
  }
}
