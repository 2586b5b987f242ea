/** Integer points and rectangles with Qt's QRect conventions. */
module Rects {

  datatype Point = Point(x: int, y: int)

  /** A rectangle given by its top-left corner and its extent, as `QRect(x, y, w, h)`. */
  datatype Rect = Rect(x: int, y: int, w: int, h: int)

  /** Qt's `right()`: the last column inside a rectangle of width `w`. */
  function RightEdge(r: Rect): (c: int)
    ensures c + 1 == r.x + r.w
  {
    r.x + r.w - 1
  }

  /** Qt's `bottom()`: the last row inside a rectangle of height `h`. */
  function BottomEdge(r: Rect): (c: int)
    ensures c + 1 == r.y + r.h
  {
    r.y + r.h - 1
  }

  /** One axis of Qt 6's `QRect::contains(p)`. With `first == start` and
      `last == start + len - 1` (Qt's `x1` and `x2`), the span is `first .. last` when
      `len >= 0`; when `last < first - 1` the ends are swapped inward, so the span is
      `last + 1 .. first - 1`, that is `start + len .. start - 1`. */
  predicate SpanContains(start: int, len: int, v: int) {
    var last := start + len - 1;
    if last < start - 1 then last + 1 <= v <= start - 1 else start <= v <= last
  }

  /** `QRect(x, y, w, h).contains(p)` (the non-proper form). */
  predicate Contains(r: Rect, p: Point) {
    SpanContains(r.x, r.w, p.x) && SpanContains(r.y, r.h, p.y)
  }

  /** For rectangles with non-negative extent containment is the half-open box test. */
  lemma ContainsNormalised(r: Rect, p: Point)
    requires r.w >= 0 && r.h >= 0
    ensures Contains(r, p) <==> r.x <= p.x < r.x + r.w && r.y <= p.y < r.y + r.h
  {
  }

  /** A negative extent covers as many positions as its magnitude, just before `start`. */
  lemma NegativeSpan(start: int, len: int, v: int)
    requires len < 0
    ensures SpanContains(start, len, v) <==> start + len <= v < start
  {
  }

  /** An empty extent contains nothing, whatever the other axis is. */
  lemma EmptyContainsNothing(r: Rect, p: Point)
    requires r.w == 0 || r.h == 0
    ensures !Contains(r, p)
  {
  }
}
