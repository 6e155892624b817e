/**
 * Drawing decisions of the OpenCV file demo: line thickness, the outline of a
 * barcode and where its text goes.
 */
module OpenCvFile {
  import opened Sdk

  const MaxHeight: int := 1080
  const MaxWidth: int := 1920

  /** Outline thickness: 6 for an image taller or wider than the display bounds, else 2. */
  function Thickness(height: int, width: int): (t: int)
    ensures t == 2 || t == 6
    ensures t == 6 <==> height > MaxHeight || width > MaxWidth
  {
    var t := 2;
    var t := if height > MaxHeight then 6 else t;
    if width > MaxWidth then 6 else t
  }

  /** The running minimum of the four corners (`minX`, `minY`). */
  function MinCorner(q: Quad): (m: Point)
    ensures forall i :: 0 <= i < 4 ==> m.x <= q.Corners()[i].x && m.y <= q.Corners()[i].y
    ensures m.x == q.p1.x || m.x == q.p2.x || m.x == q.p3.x || m.x == q.p4.x
    ensures m.y == q.p1.y || m.y == q.p2.y || m.y == q.p3.y || m.y == q.p4.y
  {
    var minX := q.p1.x;
    var minY := q.p1.y;
    var minX := if minX < q.p2.x then minX else q.p2.x;
    var minY := if minY < q.p2.y then minY else q.p2.y;
    var minX := if minX < q.p3.x then minX else q.p3.x;
    var minY := if minY < q.p3.y then minY else q.p3.y;
    var minX := if minX < q.p4.x then minX else q.p4.x;
    var minY := if minY < q.p4.y then minY else q.p4.y;
    Point(minX, minY)
  }

  /** Where the decoded text is drawn: 10 pixels above the top-left of the corners' bounding box. */
  function LabelAnchor(q: Quad): (a: Point)
    ensures a.x == MinCorner(q).x && a.y == MinCorner(q).y - 10
    ensures forall i :: 0 <= i < 4 ==> a.x <= q.Corners()[i].x && a.y < q.Corners()[i].y
  {
    var m := MinCorner(q);
    Point(m.x, m.y - 10)
  }

  /** A line segment. */
  datatype Segment = Segment(from: Point, to: Point)

  /** The four `line` calls: p1-p2, p2-p3, p3-p4, p4-p1. */
  function Outline(q: Quad): (s: seq<Segment>)
    ensures |s| == 4
    ensures forall k :: 0 <= k < 4 ==> s[k].from == q.Corners()[k]
    ensures forall k :: 0 <= k < 3 ==> s[k].to == s[k + 1].from
    ensures s[3].to == s[0].from
  {
    [Segment(q.p1, q.p2), Segment(q.p2, q.p3), Segment(q.p3, q.p4), Segment(q.p4, q.p1)]
  }
}
