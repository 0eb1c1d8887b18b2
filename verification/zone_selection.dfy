/** The geometry and the drag handling of the zone-selection overlay in
    src/overlay/zone_selection.rs: a drag between two screen points becomes
    bounds normalised to the screen, normalised bounds become a screen
    rectangle again, and a released drag is accepted only when it is at
    least 10 by 10 pixels. Drawing is not modelled. */
module ZoneSelection {
  import opened Wrappers
  import opened Numeric

  /** `egui::Pos2`, a point in screen pixels. */
  datatype Pos = Pos(x: real, y: real)

  /** A screen size in pixels: `(width, height)`. */
  datatype ScreenSize = ScreenSize(w: real, h: real)

  /** Bounds normalised to the screen: `(x, y, width, height)`. */
  datatype Bounds = Bounds(x: real, y: real, w: real, h: real)

  /** `egui::Rect`, by its two corners. */
  datatype Rect = Rect(min: Pos, max: Pos) {
    function Width(): real { max.x - min.x }
    function Height(): real { max.y - min.y }
  }

  /** What the overlay reports: a finished selection, or a cancellation. */
  datatype ZoneSelectionResult = Completed(bounds: Bounds) | Cancelled

  function RMin(a: real, b: real): real { if a <= b then a else b }

  function RMax(a: real, b: real): real { if a >= b then a else b }

  /** A screen the size of which normalisation can divide by. */
  predicate ValidScreen(s: ScreenSize)
  {
    s.w > 0.0 && s.h > 0.0
  }

  /** One axis of `screen_to_normalized`: the smaller coordinate and the
      extent, each divided by the screen side and clamped into [0, 1]. */
  function AxisToNormalized(a: real, b: real, side: real): (r: (real, real))
    requires side > 0.0
    ensures 0.0 <= r.0 <= 1.0 && 0.0 <= r.1 <= 1.0
  {
    (Clamp01(RMin(a, b) / side), Clamp01((RMax(a, b) - RMin(a, b)) / side))
  }

  /** `screen_to_normalized`: the corner at the smaller coordinates and the
      extent to the larger ones, divided by the screen size and clamped
      into [0, 1]. */
  function ScreenToNormalized(start: Pos, end: Pos, screen: ScreenSize): (b: Bounds)
    requires ValidScreen(screen)
    ensures 0.0 <= b.x <= 1.0 && 0.0 <= b.y <= 1.0 && 0.0 <= b.w <= 1.0 && 0.0 <= b.h <= 1.0
  {
    var (x, w) := AxisToNormalized(start.x, end.x, screen.w);
    var (y, h) := AxisToNormalized(start.y, end.y, screen.h);
    Bounds(x, y, w, h)
  }

  /** Dragging backwards selects the same zone. */
  lemma ScreenToNormalizedSymmetric(start: Pos, end: Pos, screen: ScreenSize)
    requires ValidScreen(screen)
    ensures ScreenToNormalized(start, end, screen) == ScreenToNormalized(end, start, screen)
  {
  }

  /** One axis of `normalized_to_screen`: the corner and the far edge. */
  function AxisToScreen(pos: real, len: real, side: real): (r: (real, real))
    ensures r.0 == pos * side && r.1 - r.0 == len * side
  {
    (pos * side, pos * side + len * side)
  }

  /** `normalized_to_screen`: the rectangle whose corner is the bounds'
      corner scaled to the screen and whose size is their size scaled. */
  function NormalizedToScreen(b: Bounds, screen: ScreenSize): (r: Rect)
    ensures r.min == Pos(b.x * screen.w, b.y * screen.h)
    ensures r.Width() == b.w * screen.w && r.Height() == b.h * screen.h
  {
    var (x0, x1) := AxisToScreen(b.x, b.w, screen.w);
    var (y0, y1) := AxisToScreen(b.y, b.h, screen.h);
    Rect(Pos(x0, y0), Pos(x1, y1))
  }

  predicate OnScreen(p: Pos, screen: ScreenSize)
  {
    0.0 <= p.x <= screen.w && 0.0 <= p.y <= screen.h
  }

  /** For a drag between two points on the screen, normalising and scaling
      back gives the rectangle the drag spans: its corner at the smaller
      coordinates and its size the absolute extent. */
  lemma NormalizedRoundTrip(start: Pos, end: Pos, screen: ScreenSize)
    requires ValidScreen(screen) && OnScreen(start, screen) && OnScreen(end, screen)
    ensures var r := NormalizedToScreen(ScreenToNormalized(start, end, screen), screen);
            && r.min == Pos(RMin(start.x, end.x), RMin(start.y, end.y))
            && r.max == Pos(RMax(start.x, end.x), RMax(start.y, end.y))
  {
    AxisRoundTrip(start.x, end.x, screen.w);
    AxisRoundTrip(start.y, end.y, screen.h);
  }

  /** Along one axis: the normalised corner scales back to the smaller
      coordinate, and corner plus extent to the larger one. */
  lemma AxisRoundTrip(a: real, b: real, side: real)
    requires side > 0.0 && 0.0 <= a <= side && 0.0 <= b <= side
    ensures var n := AxisToNormalized(a, b, side);
            AxisToScreen(n.0, n.1, side) == (RMin(a, b), RMax(a, b))
  {
    var lo, hi := RMin(a, b), RMax(a, b);
    DivideBack(lo, side);
    DivideBack(hi - lo, side);
    var n := AxisToNormalized(a, b, side);
    assert n.0 * side == lo;
    assert n.1 * side == hi - lo;
  }

  /** A coordinate within `[0, s]`, divided by `s`, lies in [0, 1] and
      scales back to itself. */
  lemma DivideBack(v: real, s: real)
    requires s > 0.0 && 0.0 <= v <= s
    ensures 0.0 <= v / s <= 1.0 && Clamp01(v / s) * s == v
  {
    assert v / s * s == v;
    assert (1.0 - v / s) * s == s - v;
  }

  /** The two drags of the module's tests, forwards and backwards, on a
      1000 by 1000 screen: the zone at (0.1, 0.2) of size 0.2 by 0.2, and
      back on screen the 200 by 200 pixel rectangle at (100, 200). */
  lemma ScreenToNormalizedExample()
    ensures ScreenToNormalized(Pos(100.0, 200.0), Pos(300.0, 400.0), ScreenSize(1000.0, 1000.0)) == Bounds(0.1, 0.2, 0.2, 0.2)
    ensures ScreenToNormalized(Pos(300.0, 400.0), Pos(100.0, 200.0), ScreenSize(1000.0, 1000.0)) == Bounds(0.1, 0.2, 0.2, 0.2)
    ensures NormalizedToScreen(Bounds(0.1, 0.2, 0.2, 0.2), ScreenSize(1000.0, 1000.0)) == Rect(Pos(100.0, 200.0), Pos(300.0, 400.0))
  {
  }

  // ---------------------------------------------------------------------
  // The drag
  // ---------------------------------------------------------------------

  /** `ZoneSelectionOverlayState`. */
  datatype SelectionState = SelectionState(
    startPoint: Option<Pos>, currentPoint: Option<Pos>, completedSelection: Option<Bounds>,
    existingZones: seq<(string, Bounds)>)

  /** What one frame of the overlay sees: Escape, the drag events of the
      full-screen area, and the cursor position. */
  datatype FrameInput = FrameInput(escape: bool, dragStarted: bool, dragged: bool, dragStopped: bool, cursor: Option<Pos>)

  /** The smallest zone the overlay accepts, in pixels per side. */
  const MinZonePixels: real := 10.0

  /** A zone large enough to accept. */
  predicate LargeEnough(b: Bounds, screen: ScreenSize)
  {
    b.w * screen.w >= MinZonePixels && b.h * screen.h >= MinZonePixels
  }

  /** The drag-stop step: a zone from the two points if both are known and
      it is large enough. */
  function Release(s: SelectionState, screen: ScreenSize): (r: Option<ZoneSelectionResult>)
    requires ValidScreen(screen)
    ensures r.Some? <==> s.startPoint.Some? && s.currentPoint.Some?
                         && LargeEnough(ScreenToNormalized(s.startPoint.value, s.currentPoint.value, screen), screen)
    ensures r.Some? ==> r.value == Completed(ScreenToNormalized(s.startPoint.value, s.currentPoint.value, screen))
  {
    match (s.startPoint, s.currentPoint)
    case (Some(start), Some(end)) =>
      var b := ScreenToNormalized(start, end, screen);
      if LargeEnough(b, screen) then Some(Completed(b)) else None
    case _ => None
  }

  /** `render_zone_selection`, its state changes and result: Escape
      cancels at once; otherwise a drag start records the cursor as both
      points, a drag moves the current point, and a drag stop reports the
      zone when it is large enough and clears both points either way. */
  function RenderZoneSelection(s: SelectionState, input: FrameInput, screen: ScreenSize): (r: (SelectionState, Option<ZoneSelectionResult>))
    requires ValidScreen(screen)
    ensures input.escape ==> r == (s, Some(Cancelled))
    ensures !input.escape && input.dragStopped ==> r.0.startPoint.None? && r.0.currentPoint.None?
    ensures !input.escape && !input.dragStopped ==> r.1.None?
    ensures r.1.Some? && r.1.value.Completed? ==> LargeEnough(r.1.value.bounds, screen)
    ensures r.0.completedSelection == s.completedSelection && r.0.existingZones == s.existingZones
  {
    if input.escape then (s, Some(Cancelled))
    else
      var s1 := if input.dragStarted && input.cursor.Some?
                then s.(startPoint := input.cursor, currentPoint := input.cursor) else s;
      var s2 := if input.dragged && input.cursor.Some? then s1.(currentPoint := input.cursor) else s1;
      if input.dragStopped then
        (s2.(startPoint := None, currentPoint := None), Release(s2, screen))
      else (s2, None)
  }

  /** A drag from `a` to `b` over three frames (press, move, release)
      completes exactly when the zone it spans is large enough, and leaves
      no drag points behind either way. */
  lemma DragCompletes(s: SelectionState, a: Pos, b: Pos, screen: ScreenSize)
    requires ValidScreen(screen)
    ensures var f1 := RenderZoneSelection(s, FrameInput(false, true, false, false, Some(a)), screen);
            var f2 := RenderZoneSelection(f1.0, FrameInput(false, false, true, false, Some(b)), screen);
            var f3 := RenderZoneSelection(f2.0, FrameInput(false, false, false, true, Some(b)), screen);
            && f1.1.None? && f2.1.None?
            && f3.0.startPoint.None? && f3.0.currentPoint.None?
            && (f3.1.Some? <==> LargeEnough(ScreenToNormalized(a, b, screen), screen))
            && (f3.1.Some? ==> f3.1.value == Completed(ScreenToNormalized(a, b, screen)))
  {
  }

  /** A release without a recorded start reports nothing. */
  lemma ReleaseWithoutStart(s: SelectionState, input: FrameInput, screen: ScreenSize)
    requires ValidScreen(screen) && !input.escape && !input.dragStarted && s.startPoint.None?
    ensures RenderZoneSelection(s, input, screen).1.None?
  {
  }
}
