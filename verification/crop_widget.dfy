/** The crop widget's state and its response to each input: loading an image, choosing
    an aspect ratio, typing a size, resetting, and a press-drag-release gesture. The
    view-space rectangle and the image-space pointer displacement are inputs, because
    the float view transform that produces them is outside this model. */
module CropWidget {
  import opened Wrappers
  import opened Rects
  import opened Handles
  import opened Crop

  /** `image` is the loaded image's size (`None` before any image); `crop` the selection
      in image pixels; `ratio` the locked aspect ratio; `active` the handle being dragged;
      `cropStart` the selection when the current drag began. */
  datatype Widget = Widget(image: Option<Size>, crop: Rect, ratio: Option<Ratio>,
                           active: Handle, cropStart: Rect)

  /** A fresh widget: no image, an empty selection, no ratio, no drag. */
  function Initial(): (wd: Widget)
    ensures wd.image.None? && wd.ratio.None? && wd.active.NoHandle?
  {
    Widget(None, Rect(0, 0, 0, 0), None, NoHandle, Rect(0, 0, 0, 0))
  }

  /** Loading an image selects all of it; the locked ratio is kept but not applied. */
  function SetImage(wd: Widget, img: Size): (r: Widget)
    ensures r.image == Some(img) && Fits(r.crop, img)
    ensures r.crop.x == 0 && r.crop.y == 0 && r.crop.w == img.w && r.crop.h == img.h
    ensures r.ratio == wd.ratio && r.active == wd.active && r.cropStart == wd.cropStart
  {
    wd.(image := Some(img), crop := FullImage(img))
  }

  /** Reset selects the whole image again; without an image it does nothing. */
  function ResetCrop(wd: Widget): (r: Widget)
    ensures wd.image.None? ==> r == wd
    ensures wd.image.Some? ==> r == wd.(crop := Rect(0, 0, wd.image.value.w, wd.image.value.h))
  {
    if wd.image.Some? then wd.(crop := FullImage(wd.image.value)) else wd
  }

  /** Choosing an aspect ratio stores it and, when an image is loaded, re-projects the
      selection around its centre and clamps it. Clearing the ratio changes nothing else. */
  function SetAspectRatio(wd: Widget, ratio: Option<Ratio>): (r: Widget)
    ensures r.ratio == ratio && r.image == wd.image && r.active == wd.active && r.cropStart == wd.cropStart
    ensures ratio.None? || wd.image.None? ==> r.crop == wd.crop
    ensures ratio.Some? && wd.image.Some? ==> Fits(r.crop, wd.image.value)
  {
    var wd' := wd.(ratio := ratio);
    if ratio.Some? && wd.image.Some? then
      wd'.(crop := Constrain(AspectProject(wd.crop, ratio.value), wd.image.value))
    else
      wd'
  }

  /** Typing a size into the numeric fields; a no-op when no image is loaded. */
  function SetSize(wd: Widget, width: int, height: int): (r: Widget)
    ensures wd.image.None? ==> r == wd
    ensures wd.image.Some? ==> Fits(r.crop, wd.image.value)
    ensures r.image == wd.image && r.ratio == wd.ratio && r.active == wd.active && r.cropStart == wd.cropStart
  {
    if wd.image.Some? then wd.(crop := SetCropSize(wd.crop, wd.image.value, width, height)) else wd
  }

  /** A left-button press at view point `p`, with `view` the selection as drawn: the
      hit test picks the handle and the current selection is remembered. */
  function Press(wd: Widget, view: Rect, p: Point): (r: Widget)
    ensures r.crop == wd.crop && r.cropStart == wd.crop
    ensures r.active == HandleAt(view, p)
    ensures r.image == wd.image && r.ratio == wd.ratio
  {
    wd.(active := HandleAt(view, p), cropStart := wd.crop)
  }

  /** A pointer move whose image-space displacement since the press is `(dx, dy)`. */
  function Drag(wd: Widget, dx: int, dy: int): (r: Widget)
    ensures wd.active.NoHandle? ==> r == wd
    ensures r.image == wd.image && r.ratio == wd.ratio && r.active == wd.active && r.cropStart == wd.cropStart
  {
    wd.(crop := DragStep(wd.crop, wd.cropStart, wd.active, dx, dy, wd.ratio, wd.image))
  }

  /** A left-button release ends the drag and nothing else. */
  function Release(wd: Widget): (r: Widget)
    ensures r.active.NoHandle? && r.crop == wd.crop && r.image == wd.image
    ensures r.ratio == wd.ratio && r.cropStart == wd.cropStart
  {
    wd.(active := NoHandle)
  }

  /** Choosing a ratio whose re-projection already lies inside the image stores that
      re-projection unchanged, so the selection is exactly at the chosen ratio. */
  lemma ChosenRatioIsKept(wd: Widget, q: Ratio)
    requires wd.image.Some? && Fits(AspectProject(wd.crop, q), wd.image.value)
    ensures SetAspectRatio(wd, Some(q)).crop == AspectProject(wd.crop, q)
    ensures wd.crop.h > 0 && TooWide(wd.crop, q) ==>
              WidthFor(SetAspectRatio(wd, Some(q)).crop.h, SetAspectRatio(wd, Some(q)).crop.w, q)
    ensures wd.crop.h > 0 && wd.crop.w >= 0 && !TooWide(wd.crop, q) ==>
              HeightFor(SetAspectRatio(wd, Some(q)).crop.w, SetAspectRatio(wd, Some(q)).crop.h, q)
  {
    ConstrainFixesExactlyFits(AspectProject(wd.crop, q), wd.image.value);
  }

  datatype Event =
    | LoadImage(img: Size)
    | Reset
    | ChooseRatio(ratio: Option<Ratio>)
    | TypeSize(width: int, height: int)
    | PressAt(view: Rect, p: Point)
    | MoveBy(dx: int, dy: int)
    | ReleaseButton

  /** One input; every input keeps the selection inside a loaded image. */
  function Step(wd: Widget, e: Event): (r: Widget)
    ensures Valid(wd) ==> Valid(r)
  {
    match e
    case LoadImage(img) => SetImage(wd, img)
    case Reset => ResetCrop(wd)
    case ChooseRatio(ratio) => SetAspectRatio(wd, ratio)
    case TypeSize(width, height) => SetSize(wd, width, height)
    case PressAt(view, p) => Press(wd, view, p)
    case MoveBy(dx, dy) => Drag(wd, dx, dy)
    case ReleaseButton => Release(wd)
  }

  function Run(wd: Widget, es: seq<Event>): Widget
    decreases |es|
  {
    if |es| == 0 then wd else Run(Step(wd, es[0]), es[1..])
  }

  /** Once an image is loaded the selection lies inside it with an admissible size. */
  predicate Valid(wd: Widget) {
    wd.image.Some? ==> Fits(wd.crop, wd.image.value)
  }

  /** Any sequence of inputs, from any valid state, keeps the selection inside the image. */
  lemma {:induction false} RunKeepsValid(wd: Widget, es: seq<Event>)
    requires Valid(wd)
    ensures Valid(Run(wd, es))
    decreases |es|
  {
    if |es| > 0 {
      RunKeepsValid(Step(wd, es[0]), es[1..]);
    }
  }

  /** In particular, starting from a fresh widget. */
  lemma AnySessionStaysInside(es: seq<Event>)
    ensures Valid(Run(Initial(), es))
  {
    RunKeepsValid(Initial(), es);
  }

  /** With no ratio locked, pressing on a handle of a selection that fits and dragging so
      far that a side would drop below the minimum leaves the selection unchanged. */
  lemma CollapsingDragIsIgnored(wd: Widget, view: Rect, p: Point, dx: int, dy: int)
    requires Valid(wd) && wd.image.Some? && wd.ratio.None?
    requires IsResize(HandleAt(view, p)) && !Accepts(wd.crop, HandleAt(view, p), dx, dy)
    ensures Drag(Press(wd, view, p), dx, dy).crop == wd.crop
  {
    RejectedDragKeepsRect(wd.crop, wd.crop, HandleAt(view, p), dx, dy, wd.image.value);
  }
}
