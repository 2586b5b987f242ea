/** Crop-rectangle geometry in original-image pixels: the boundary clamp, the per-event
    drag rules for the nine handles, the aspect-ratio corrections and the numeric resize.
    Every operation is a pure function from the old rectangle to the new one. */
module Crop {
  import opened Ints
  import opened Wrappers
  import opened Rects
  import opened Handles

  /** The smallest width and height a drag or clamp leaves, in image pixels. */
  const MinCropSize: int := 50

  /** Image dimensions in pixels. */
  datatype Size = Size(w: nat, h: nat)

  type Pos = n: int | n > 0 witness 1

  /** A locked aspect ratio `rw : rh` (width to height). */
  datatype Ratio = Ratio(rw: Pos, rh: Pos)

  /** Python's `int(a / b)`: the quotient truncated toward zero. */
  function TruncDiv(a: int, b: Pos): (q: int)
    ensures a >= 0 ==> q >= 0 && q * b <= a < (q + 1) * b
    ensures a < 0 ==> q <= 0 && (q - 1) * b < a <= q * b
  {
    if a >= 0 then
      DivBracket(a, b);
      a / b
    else
      var n := -a;
      var k := n / b;
      DivBracket(n, b);
      assert (-k) * b == -(k * b) && (-k - 1) * b == -(k * b) - b;
      -k
  }

  /** Euclidean division of a natural number: the quotient times the divisor is at most
      the dividend, and one more times the divisor exceeds it. */
  lemma DivBracket(n: nat, b: Pos)
    ensures n / b >= 0 && (n / b) * b <= n < (n / b + 1) * b
  {
    var k := n / b;
    assert n == k * b + n % b && 0 <= n % b < b;
    assert (k + 1) * b == k * b + b;
  }

  /** Multiplying by a non-negative factor keeps the order. */
  lemma MulMonotone(a: int, b: int, c: int)
    requires a <= b && c >= 0
    ensures a * c <= b * c
  {
    assert b * c - a * c == (b - a) * c;
  }

  /** A truncated quotient reaches a positive bound `k` exactly when the dividend
      reaches `k` times the divisor. */
  lemma QuotientAtLeast(a: int, b: Pos, k: int)
    requires k >= 1
    ensures TruncDiv(a, b) >= k <==> a >= k * b
  {
    var q := TruncDiv(a, b);
    if q >= k {
      MulMonotone(k, q, b);
    } else if a >= 0 {
      MulMonotone(q + 1, k, b);
    } else {
      MulMonotone(0, k, b);
    }
  }

  /** `c` is the value of `[lo, hi]` nearest to `v`: `v` itself when it is in range,
      otherwise the bound it overshoots. */
  predicate ClosestIn(v: int, lo: int, hi: int, c: int) {
    lo <= c <= hi && (c == v || (v < lo && c == lo) || (v > hi && c == hi))
  }

  /** The smallest side the clamp admits: the minimum crop size, or the whole image
      dimension when the image is smaller than that. */
  function LowerSide(dim: nat): (s: nat)
    ensures s <= dim && s <= MinCropSize
    ensures dim >= MinCropSize ==> s == MinCropSize
  {
    if dim < MinCropSize then dim else MinCropSize
  }

  /** The rectangle lies inside the image and has an admissible size. */
  predicate Fits(r: Rect, img: Size) {
    && LowerSide(img.w) <= r.w <= img.w
    && LowerSide(img.h) <= r.h <= img.h
    && 0 <= r.x && r.x + r.w <= img.w
    && 0 <= r.y && r.y + r.h <= img.h
  }

  /** The boundary clamp applied after every change: raise each side to the minimum,
      cap it at the image, floor the origin at 0, shift it back so the far edge is
      inside, and floor it at 0 again. */
  function Constrain(r: Rect, img: Size): (c: Rect)
    ensures Fits(c, img)
    ensures img.w >= MinCropSize && img.h >= MinCropSize ==> c.w >= MinCropSize && c.h >= MinCropSize
    ensures ClosestIn(r.w, LowerSide(img.w), img.w, c.w)
    ensures ClosestIn(r.h, LowerSide(img.h), img.h, c.h)
    ensures ClosestIn(r.x, 0, img.w - c.w, c.x)
    ensures ClosestIn(r.y, 0, img.h - c.h, c.y)
  {
    var w := Min(Max(MinCropSize, r.w), img.w);
    var h := Min(Max(MinCropSize, r.h), img.h);
    var x0 := Max(0, r.x);
    var y0 := Max(0, r.y);
    var x1 := if x0 + w > img.w then img.w - w else x0;
    var y1 := if y0 + h > img.h then img.h - h else y0;
    Rect(Max(0, x1), Max(0, y1), w, h)
  }

  /** The clamp leaves a rectangle alone exactly when it already fits. */
  lemma ConstrainFixesExactlyFits(r: Rect, img: Size)
    ensures Constrain(r, img) == r <==> Fits(r, img)
  {
  }

  /** Clamping twice is clamping once. */
  lemma ConstrainIdempotent(r: Rect, img: Size)
    ensures Constrain(Constrain(r, img), img) == Constrain(r, img)
  {
    ConstrainFixesExactlyFits(Constrain(r, img), img);
  }

  // ---------------------------------------------------------------------------
  // Drag rules

  /** A resize drag is accepted when every side it changes stays at least
      `MinCropSize` long, measured from the drag-start rectangle. */
  predicate Accepts(start: Rect, h: Handle, dx: int, dy: int) {
    && (DragsLeft(h) ==> start.w - dx >= MinCropSize)
    && (DragsRight(h) ==> start.w + dx >= MinCropSize)
    && (DragsTop(h) ==> start.h - dy >= MinCropSize)
    && (DragsBottom(h) ==> start.h + dy >= MinCropSize)
  }

  /** One pointer-move event for the active handle, before any aspect correction or
      clamp. `start` is the rectangle when the drag began, `cur` the rectangle now,
      `(dx, dy)` the pointer's image-space displacement since the drag began. A move
      translates the start rectangle; a resize handle moves the edges it grabs and
      keeps the opposite ones anchored, or, when a side would drop below the minimum,
      assigns nothing at all, so the current rectangle stays. */
  function ApplyHandle(cur: Rect, start: Rect, h: Handle, dx: int, dy: int): (r: Rect)
    ensures h.NoHandle? ==> r == cur
    ensures h.Move? ==> r == Rect(start.x + dx, start.y + dy, start.w, start.h)
    ensures IsResize(h) && !Accepts(start, h, dx, dy) ==> r == cur
    ensures IsResize(h) && Accepts(start, h, dx, dy) ==>
      && (DragsLeft(h) ==> r.x == start.x + dx && r.x + r.w == start.x + start.w)
      && (DragsRight(h) ==> r.x == cur.x && r.w == start.w + dx)
      && (!ChangesWidth(h) ==> r.x == cur.x && r.w == cur.w)
      && (DragsTop(h) ==> r.y == start.y + dy && r.y + r.h == start.y + start.h)
      && (DragsBottom(h) ==> r.y == cur.y && r.h == start.h + dy)
      && (!ChangesHeight(h) ==> r.y == cur.y && r.h == cur.h)
  {
    match h
    case NoHandle => cur
    case Move => Rect(start.x + dx, start.y + dy, start.w, start.h)
    case TopLeft =>
      var nw := start.w - dx;
      var nh := start.h - dy;
      if nw >= MinCropSize && nh >= MinCropSize then Rect(start.x + dx, start.y + dy, nw, nh) else cur
    case Top =>
      var nh := start.h - dy;
      if nh >= MinCropSize then cur.(y := start.y + dy, h := nh) else cur
    case TopRight =>
      var nw := start.w + dx;
      var nh := start.h - dy;
      if nw >= MinCropSize && nh >= MinCropSize then cur.(y := start.y + dy, w := nw, h := nh) else cur
    case Right =>
      var nw := start.w + dx;
      if nw >= MinCropSize then cur.(w := nw) else cur
    case BottomRight =>
      var nw := start.w + dx;
      var nh := start.h + dy;
      if nw >= MinCropSize && nh >= MinCropSize then cur.(w := nw, h := nh) else cur
    case Bottom =>
      var nh := start.h + dy;
      if nh >= MinCropSize then cur.(h := nh) else cur
    case BottomLeft =>
      var nw := start.w - dx;
      var nh := start.h + dy;
      if nw >= MinCropSize && nh >= MinCropSize then cur.(x := start.x + dx, w := nw, h := nh) else cur
    case Left =>
      var nw := start.w - dx;
      if nw >= MinCropSize then cur.(x := start.x + dx, w := nw) else cur
  }

  /** The cursor shown for a handle names the axes that handle can change: a
      horizontal-arrow handle never touches `y` or `h`, a vertical-arrow handle never
      touches `x` or `w`. */
  lemma CursorMatchesDragAxes(cur: Rect, start: Rect, h: Handle, dx: int, dy: int)
    ensures CursorFor(h) == SizeHor ==>
              ApplyHandle(cur, start, h, dx, dy).y == cur.y && ApplyHandle(cur, start, h, dx, dy).h == cur.h
    ensures CursorFor(h) == SizeVer ==>
              ApplyHandle(cur, start, h, dx, dy).x == cur.x && ApplyHandle(cur, start, h, dx, dy).w == cur.w
  {
  }

  // ---------------------------------------------------------------------------
  // Aspect ratio

  /** `h` is the height that width `w` gets under ratio `q`, rounded down:
      `h <= w * rh / rw < h + 1`. */
  predicate HeightFor(w: int, h: int, q: Ratio) {
    h * q.rw <= w * q.rh < (h + 1) * q.rw
  }

  /** `w` is the width that height `h` gets under ratio `q`, rounded down. */
  predicate WidthFor(h: int, w: int, q: Ratio) {
    w * q.rh <= h * q.rw < (w + 1) * q.rh
  }

  /** The aspect correction applied during a resize drag: the height follows the
      width; when that height would be below the minimum, the height becomes the
      minimum and the width follows it instead. The origin is not touched. */
  function LockRatio(r: Rect, q: Ratio): (p: Rect)
    ensures p.x == r.x && p.y == r.y
    ensures p.h >= MinCropSize
    ensures r.w * q.rh >= MinCropSize * q.rw ==> p.w == r.w && HeightFor(p.w, p.h, q)
    ensures r.w * q.rh < MinCropSize * q.rw ==> p.h == MinCropSize && WidthFor(p.h, p.w, q)
  {
    var h := TruncDiv(r.w * q.rh, q.rw);
    QuotientAtLeast(r.w * q.rh, q.rw, MinCropSize);
    if h < MinCropSize then
      r.(h := MinCropSize, w := TruncDiv(MinCropSize * q.rw, q.rh))
    else
      r.(h := h)
  }

  /** The comparison `w / h > rw / rh` of the aspect re-projection; a rectangle with no
      height counts as ratio 1. */
  predicate TooWide(r: Rect, q: Ratio) {
    if r.h > 0 then r.w * q.rh > r.h * q.rw else q.rh > q.rw
  }

  /** Cutting a too-wide rectangle: the width that height `h` gets is smaller than `w`. */
  lemma CutWidth(w: int, h: int, q: Ratio)
    ensures h > 0 && w * q.rh > h * q.rw ==>
              var nw := TruncDiv(h * q.rw, q.rh); WidthFor(h, nw, q) && nw < w
  {
    var nw := TruncDiv(h * q.rw, q.rh);
    if h > 0 && w * q.rh > h * q.rw {
      assert h * q.rw > 0;
      if nw >= w {
        MulMonotone(w, nw, q.rh);
      }
    }
  }

  /** Cutting a too-tall rectangle: the height that width `w` gets is at most `h`. */
  lemma CutHeight(w: int, h: int, q: Ratio)
    ensures h > 0 && w >= 0 && w * q.rh <= h * q.rw ==>
              var nh := TruncDiv(w * q.rh, q.rw); HeightFor(w, nh, q) && nh <= h
  {
    var nh := TruncDiv(w * q.rh, q.rw);
    if h > 0 && w >= 0 && w * q.rh <= h * q.rw {
      assert w * q.rh >= 0;
      if nh > h {
        MulMonotone(h + 1, nh, q.rw);
      }
    }
  }

  /** The re-projection applied when a ratio is chosen, before the clamp: the side that
      is too long is cut to match the other one and the rectangle keeps its centre. */
  function AspectProject(r: Rect, q: Ratio): (p: Rect)
    ensures p.x + p.w / 2 == r.x + r.w / 2 && p.y + p.h / 2 == r.y + r.h / 2
    ensures TooWide(r, q) ==> p.h == r.h
    ensures !TooWide(r, q) ==> p.w == r.w
    ensures r.h > 0 && TooWide(r, q) ==> WidthFor(p.h, p.w, q) && p.w < r.w
    ensures r.h > 0 && r.w >= 0 && !TooWide(r, q) ==> HeightFor(p.w, p.h, q) && p.h <= r.h
  {
    CutWidth(r.w, r.h, q);
    CutHeight(r.w, r.h, q);
    var cx := r.x + r.w / 2;
    var cy := r.y + r.h / 2;
    var nw := if TooWide(r, q) then TruncDiv(r.h * q.rw, q.rh) else r.w;
    var nh := if TooWide(r, q) then r.h else TruncDiv(r.w * q.rh, q.rw);
    Rect(cx - nw / 2, cy - nh / 2, nw, nh)
  }

  // ---------------------------------------------------------------------------
  // Drag step and numeric resize

  /** A whole pointer-move event: the handle rule, then (for a resize handle under a
      locked ratio) the aspect correction, then the clamp when an image is loaded.
      With no active handle the event only changes the cursor. */
  function DragStep(cur: Rect, start: Rect, h: Handle, dx: int, dy: int,
                    ratio: Option<Ratio>, img: Option<Size>): (r: Rect)
    ensures h.NoHandle? ==> r == cur
    ensures !h.NoHandle? && img.Some? ==> Fits(r, img.value)
  {
    if h.NoHandle? then cur
    else
      var moved := ApplyHandle(cur, start, h, dx, dy);
      var locked := if ratio.Some? && !h.Move? then LockRatio(moved, ratio.value) else moved;
      if img.Some? then Constrain(locked, img.value) else locked
  }

  /** A drag event that would shrink a side below the minimum changes nothing when no
      ratio is locked and the rectangle already fits the image. */
  lemma RejectedDragKeepsRect(cur: Rect, start: Rect, h: Handle, dx: int, dy: int, img: Size)
    requires IsResize(h) && !Accepts(start, h, dx, dy)
    requires Fits(cur, img)
    ensures DragStep(cur, start, h, dx, dy, None, Some(img)) == cur
  {
    ConstrainFixesExactlyFits(cur, img);
  }

  /** Moving a rectangle that fits never resizes it: the clamp only slides it back
      inside the image, to the position nearest the requested one. */
  lemma MoveKeepsSize(cur: Rect, start: Rect, dx: int, dy: int, ratio: Option<Ratio>, img: Size)
    requires Fits(start, img)
    ensures var r := DragStep(cur, start, Move, dx, dy, ratio, Some(img));
            && r.w == start.w && r.h == start.h
            && ClosestIn(start.x + dx, 0, img.w - start.w, r.x)
            && ClosestIn(start.y + dy, 0, img.h - start.h, r.y)
  {
  }

  /** The numeric-entry resize before the clamp: each requested side is capped at the
      image and raised to the minimum, and the rectangle is re-centred. For an image
      side of at least `MinCropSize` the side is the value of `[MinCropSize, dim]`
      nearest the request; for a smaller image side the minimum wins over the cap. */
  function ResizeCentred(r: Rect, img: Size, width: int, height: int): (p: Rect)
    ensures p.x + p.w / 2 == r.x + r.w / 2 && p.y + p.h / 2 == r.y + r.h / 2
    ensures p.w >= MinCropSize && p.h >= MinCropSize
    ensures img.w >= MinCropSize ==> ClosestIn(width, MinCropSize, img.w, p.w)
    ensures img.w < MinCropSize ==> p.w == MinCropSize
    ensures img.h >= MinCropSize ==> ClosestIn(height, MinCropSize, img.h, p.h)
    ensures img.h < MinCropSize ==> p.h == MinCropSize
  {
    var w := Max(MinCropSize, Min(width, img.w));
    var h := Max(MinCropSize, Min(height, img.h));
    var cx := r.x + r.w / 2;
    var cy := r.y + r.h / 2;
    Rect(cx - w / 2, cy - h / 2, w, h)
  }

  /** Setting the size from the numeric fields: each side becomes the admissible value
      nearest the request, and the centre is kept whenever the re-centred rectangle
      lies inside the image. */
  function SetCropSize(r: Rect, img: Size, width: int, height: int): (c: Rect)
    ensures Fits(c, img)
    ensures ClosestIn(width, LowerSide(img.w), img.w, c.w)
    ensures ClosestIn(height, LowerSide(img.h), img.h, c.h)
    ensures var p := ResizeCentred(r, img, width, height);
            0 <= p.x && p.x + p.w <= img.w ==> c.x + c.w / 2 == r.x + r.w / 2
    ensures var p := ResizeCentred(r, img, width, height);
            0 <= p.y && p.y + p.h <= img.h ==> c.y + c.h / 2 == r.y + r.h / 2
  {
    Constrain(ResizeCentred(r, img, width, height), img)
  }

  /** The rectangle covering the whole image, as set when an image is loaded or reset. */
  function FullImage(img: Size): (r: Rect)
    ensures Fits(r, img)
    ensures forall c :: Fits(c, img) ==> c.w <= r.w && c.h <= r.h
  {
    Rect(0, 0, img.w, img.h)
  }
}
