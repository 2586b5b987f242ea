/** The nine drag zones of the crop overlay, the hit test that picks one of them for a
    pointer position, and the cursor shape shown for each. */
module Handles {
  import opened Rects

  /** Half the side of a corner box and half the thickness of an edge band, in view units. */
  const HandleSize: int := 10

  datatype Handle =
    | NoHandle
    | TopLeft | Top | TopRight | Right | BottomRight | Bottom | BottomLeft | Left
    | Move

  /** Handles that resize the rectangle (every handle but `NoHandle` and `Move`). */
  predicate IsResize(h: Handle) {
    !h.NoHandle? && !h.Move?
  }

  /** Which edges of the rectangle a handle drags. */
  predicate DragsLeft(h: Handle) { h.TopLeft? || h.BottomLeft? || h.Left? }
  predicate DragsRight(h: Handle) { h.TopRight? || h.BottomRight? || h.Right? }
  predicate DragsTop(h: Handle) { h.TopLeft? || h.TopRight? || h.Top? }
  predicate DragsBottom(h: Handle) { h.BottomLeft? || h.BottomRight? || h.Bottom? }

  /** A resize handle changes the width when it drags a vertical edge. */
  predicate ChangesWidth(h: Handle) { DragsLeft(h) || DragsRight(h) }
  predicate ChangesHeight(h: Handle) { DragsTop(h) || DragsBottom(h) }

  /** The zone a handle occupies around the view-space crop rectangle `v`:
      a `2*HandleSize` square centred on each corner, a band along each edge that is
      shortened by `HandleSize` at both ends, and the rectangle itself for `Move`. */
  function Zone(v: Rect, h: Handle): Rect
    requires !h.NoHandle?
  {
    var hs := HandleSize;
    match h
    case TopLeft => Rect(v.x - hs, v.y - hs, hs * 2, hs * 2)
    case TopRight => Rect(RightEdge(v) - hs, v.y - hs, hs * 2, hs * 2)
    case BottomRight => Rect(RightEdge(v) - hs, BottomEdge(v) - hs, hs * 2, hs * 2)
    case BottomLeft => Rect(v.x - hs, BottomEdge(v) - hs, hs * 2, hs * 2)
    case Top => Rect(v.x + hs, v.y - hs, v.w - 2 * hs, hs * 2)
    case Right => Rect(RightEdge(v) - hs, v.y + hs, hs * 2, v.h - 2 * hs)
    case Bottom => Rect(v.x + hs, BottomEdge(v) - hs, v.w - 2 * hs, hs * 2)
    case Left => Rect(v.x - hs, v.y + hs, hs * 2, v.h - 2 * hs)
    case Move => v
  }

  /** The order in which zones are tried: corners, then edges, then the interior. */
  const Priority: seq<Handle> :=
    [TopLeft, TopRight, BottomRight, BottomLeft, Top, Right, Bottom, Left, Move]

  /** Every handle other than `NoHandle` is tried exactly once. */
  lemma PriorityListsEveryHandle(h: Handle)
    ensures h in Priority <==> !h.NoHandle?
    ensures forall i, j :: 0 <= i < j < |Priority| ==> Priority[i] != Priority[j]
  {
  }

  /** The hit test: the first zone, in priority order, that contains the pointer,
      or `NoHandle` when none does. */
  function HandleAt(v: Rect, p: Point): (h: Handle)
    ensures !h.NoHandle? ==> Contains(Zone(v, h), p)
    ensures forall i, j :: 0 <= i < j < |Priority| && Priority[j] == h ==> !Contains(Zone(v, Priority[i]), p)
    ensures h.NoHandle? <==> forall i :: 0 <= i < |Priority| ==> !Contains(Zone(v, Priority[i]), p)
  {
    assert Priority[0] == TopLeft && Priority[1] == TopRight && Priority[2] == BottomRight;
    assert Priority[3] == BottomLeft && Priority[4] == Top && Priority[5] == Right;
    assert Priority[6] == Bottom && Priority[7] == Left && Priority[8] == Move;
    if Contains(Zone(v, TopLeft), p) then TopLeft
    else if Contains(Zone(v, TopRight), p) then TopRight
    else if Contains(Zone(v, BottomRight), p) then BottomRight
    else if Contains(Zone(v, BottomLeft), p) then BottomLeft
    else if Contains(Zone(v, Top), p) then Top
    else if Contains(Zone(v, Right), p) then Right
    else if Contains(Zone(v, Bottom), p) then Bottom
    else if Contains(Zone(v, Left), p) then Left
    else if Contains(v, p) then Move
    else NoHandle
  }

  /** A pointer inside the top-left corner box always grabs that corner, whatever else
      overlaps it; and the hit test reports nothing only for a pointer outside the
      rectangle and every handle zone. */
  lemma CornerWinsAndNoneMeansOutside(v: Rect, p: Point)
    ensures Contains(Zone(v, TopLeft), p) ==> HandleAt(v, p) == TopLeft
    ensures HandleAt(v, p) == NoHandle <==>
              !Contains(v, p) && forall h :: IsResize(h) ==> !Contains(Zone(v, h), p)
  {
    forall i | 0 <= i < |Priority|
      ensures Priority[i].Move? || IsResize(Priority[i])
    {
    }
    assert Zone(v, Move) == v;
  }

  /** Cursor shapes the overlay shows while hovering. */
  datatype Cursor = Arrow | SizeFDiag | SizeBDiag | SizeVer | SizeHor | SizeAll

  /** The cursor for a handle; anything without an entry gets the arrow. */
  function CursorFor(h: Handle): (c: Cursor)
    ensures c == Arrow <==> h.NoHandle?
    ensures c == SizeAll <==> h.Move?
    ensures c == SizeHor <==> IsResize(h) && ChangesWidth(h) && !ChangesHeight(h)
    ensures c == SizeVer <==> IsResize(h) && ChangesHeight(h) && !ChangesWidth(h)
    ensures c == SizeFDiag <==> (DragsLeft(h) && DragsTop(h)) || (DragsRight(h) && DragsBottom(h))
    ensures c == SizeBDiag <==> (DragsRight(h) && DragsTop(h)) || (DragsLeft(h) && DragsBottom(h))
  {
    match h
    case TopLeft => SizeFDiag
    case TopRight => SizeBDiag
    case BottomLeft => SizeBDiag
    case BottomRight => SizeFDiag
    case Top => SizeVer
    case Bottom => SizeVer
    case Left => SizeHor
    case Right => SizeHor
    case Move => SizeAll
    case NoHandle => Arrow
  }
}
