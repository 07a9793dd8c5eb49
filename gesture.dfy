/** The canvas's gesture state machine, as pure functions.  A gesture is
    the pair (startPoint, lastPoint) of image points, both (-1, -1) when no
    gesture is under way.  Each mouse event yields the next gesture and the
    outputs of the handler in the order it produces them: pixel writes into
    the target image (an opaque `paint`) and the signals strokeStarted and
    strokeFinished.

    Canvas::mouseMoveEvent and Canvas::mouseReleaseEvent do not check that a
    gesture was started: after a press outside the image, dragging into it
    draws from (-1, -1) without strokeStarted ever being emitted, so no undo
    snapshot is taken.  OnMoveAsWritten and OnReleaseAsWritten model the
    handlers as written; OnMove and OnRelease, which the rest of the model
    uses, ignore moves and shape commits while no gesture is under way. */
module Gesture {
  import opened Wrappers
  import opened Imaging
  import opened Geometry

  /** Canvas::Tool. */
  datatype Tool = Brush | Eraser | Line | Rectangle | Circle
  {
    /** The tools that commit one primitive on release. */
    predicate IsShape()
    {
      this == Line || this == Rectangle || this == Circle
    }
  }

  datatype Button = NoButton | LeftButton | RightButton | MiddleButton

  /** A QRect given by its top-left and bottom-right corners. */
  datatype Rect = Rect(left: int, top: int, right: int, bottom: int)

  function Min(a: int, b: int): int { if a <= b then a else b }
  function Max(a: int, b: int): int { if a <= b then b else a }

  /** QRect(a, b).normalized(): the rectangle with corners `a` and `b`,
      ordered so that left <= right and top <= bottom. */
  function Normalized(a: Point, b: Point): (r: Rect)
    ensures r.left <= r.right && r.top <= r.bottom
    ensures r.left <= a.x <= r.right && r.left <= b.x <= r.right
    ensures r.top <= a.y <= r.bottom && r.top <= b.y <= r.bottom
    ensures (r.left == a.x && r.right == b.x) || (r.left == b.x && r.right == a.x)
    ensures (r.top == a.y && r.bottom == b.y) || (r.top == b.y && r.bottom == a.y)
  {
    Rect(Min(a.x, b.x), Min(a.y, b.y), Max(a.x, b.x), Max(a.y, b.y))
  }

  /** The normalised rectangle does not depend on the drag direction. */
  lemma NormalizedSymmetric(a: Point, b: Point)
    ensures Normalized(a, b) == Normalized(b, a)
  {
  }

  /** Canvas's penColor, penWidth and eraserMode. */
  datatype Pen = Pen(color: Pixel, width: int, eraserMode: bool)

  /** The QPainter calls the handlers make on the target image. */
  datatype DrawOp =
    | PaintSegment(from: Point, to: Point, color: Pixel, width: int)  // brush: drawLine, round cap and join
    | EraseSegment(from: Point, to: Point, width: int)                // drawLine with CompositionMode_Clear
    | LineShape(from: Point, to: Point, color: Pixel, width: int)     // drawLine
    | RectShape(rect: Rect, color: Pixel, width: int)                 // drawRect
    | EllipseShape(rect: Rect, color: Pixel, width: int)              // drawEllipse

  datatype Signal = StrokeStarted | StrokeFinished

  datatype Output = Write(op: DrawOp) | Emit(signal: Signal)

  datatype GestureState = GestureState(start: Point, last: Point)

  const IDLE := GestureState(UNMAPPED, UNMAPPED)

  /** A gesture is under way once a press has set startPoint. */
  predicate Active(g: GestureState)
  {
    g.start != UNMAPPED
  }

  /** startPoint and lastPoint are set and reset together. */
  predicate Coherent(g: GestureState)
  {
    (g.start == UNMAPPED) == (g.last == UNMAPPED)
  }

  /** What the handlers read besides the gesture; `target` is the size of the
      target image, None when targetImg is null. */
  datatype Context = Context(tool: Tool, pen: Pen, offset: Point, zoom: Zoom, target: Option<Size>)

  datatype MouseEvent =
    | MousePress(button: Button, pos: Point)
    | MouseMove(leftHeld: bool, pos: Point)   // leftHeld: event->buttons() & Qt::LeftButton
    | MouseRelease(button: Button, pos: Point)

  datatype Reaction = Reaction(next: GestureState, out: seq<Output>)

  function SizeOf(img: Image): Size
  {
    Size(img.width, img.height)
  }

  function TargetSize(target: Option<Image>): Option<Size>
  {
    if target.Some? then Some(SizeOf(target.value)) else None
  }

  /** The image point of widget position `pos`. */
  function MapPos(c: Context, pos: Point): Point
    requires c.target.Some?
  {
    WidgetToImage(pos, c.offset, c.zoom, c.target.value)
  }

  /** A brush or eraser segment: erasing is decided by eraserMode, not by the tool. */
  function SegmentOp(from: Point, to: Point, pen: Pen): DrawOp
  {
    if pen.eraserMode then EraseSegment(from, to, pen.width)
    else PaintSegment(from, to, pen.color, pen.width)
  }

  /** The primitive a shape tool commits from `from` to `to`. */
  function ShapeOp(tool: Tool, from: Point, to: Point, pen: Pen): DrawOp
    requires tool.IsShape()
  {
    match tool
    case Line => LineShape(from, to, pen.color, pen.width)
    case Rectangle => RectShape(Normalized(from, to), pen.color, pen.width)
    case Circle => EllipseShape(Normalized(from, to), pen.color, pen.width)
  }

  /** Canvas::mousePressEvent. */
  function OnPress(g: GestureState, c: Context, button: Button, pos: Point): (r: Reaction)
    ensures r.out == [] ==> r.next == g
    ensures r.out != [] ==> r.out == [Emit(StrokeStarted)] && Active(r.next) && r.next.start == r.next.last
  {
    if button != LeftButton || c.target.None? then Reaction(g, [])
    else
      var pt := MapPos(c, pos);
      if pt == UNMAPPED then Reaction(g, [])
      else Reaction(GestureState(pt, pt), [Emit(StrokeStarted)])
  }

  /** Canvas::mouseMoveEvent as written. */
  function OnMoveAsWritten(g: GestureState, c: Context, leftHeld: bool, pos: Point): (r: Reaction)
    ensures r.next.start == g.start
    ensures r.out == [] ==> r.next == g
    ensures r.out != [] ==> |r.out| == 2 && r.out[0].Write? && r.out[1] == Emit(StrokeFinished)
  {
    if !leftHeld || c.target.None? then Reaction(g, [])
    else
      var pt := MapPos(c, pos);
      if pt == UNMAPPED then Reaction(g, [])
      else if c.tool == Brush || c.tool == Eraser then
        Reaction(g.(last := pt), [Write(SegmentOp(g.last, pt, c.pen)), Emit(StrokeFinished)])
      else Reaction(g, [])
  }

  /** Canvas::mouseMoveEvent, ignoring moves while no gesture is under way. */
  function OnMove(g: GestureState, c: Context, leftHeld: bool, pos: Point): (r: Reaction)
    ensures !Active(g) ==> r == Reaction(g, [])
    ensures r.next.start == g.start
  {
    if !Active(g) then Reaction(g, []) else OnMoveAsWritten(g, c, leftHeld, pos)
  }

  /** Canvas::mouseReleaseEvent as written. */
  function OnReleaseAsWritten(g: GestureState, c: Context, button: Button, pos: Point): (r: Reaction)
    ensures c.target.None? || button != LeftButton ==> r == Reaction(g, [])
    ensures c.target.Some? && button == LeftButton ==>
      r.next == IDLE && |r.out| > 0 && r.out[|r.out| - 1] == Emit(StrokeFinished)
  {
    if c.target.None? || button != LeftButton then Reaction(g, [])
    else
      var pt := MapPos(c, pos);
      if pt != UNMAPPED && c.tool.IsShape() then
        Reaction(IDLE, [Write(ShapeOp(c.tool, g.start, pt, c.pen)), Emit(StrokeFinished)])
      else Reaction(IDLE, [Emit(StrokeFinished)])
  }

  /** Canvas::mouseReleaseEvent, committing a shape only for a gesture under way. */
  function OnRelease(g: GestureState, c: Context, button: Button, pos: Point): (r: Reaction)
    ensures c.target.None? || button != LeftButton ==> r == Reaction(g, [])
    ensures c.target.Some? && button == LeftButton ==>
      r.next == IDLE && |r.out| > 0 && r.out[|r.out| - 1] == Emit(StrokeFinished)
    ensures r.out != [] && r.out[0].Write? ==> Active(g)
  {
    if c.target.None? || button != LeftButton then Reaction(g, [])
    else
      var pt := MapPos(c, pos);
      if pt != UNMAPPED && c.tool.IsShape() && Active(g) then
        Reaction(IDLE, [Write(ShapeOp(c.tool, g.start, pt, c.pen)), Emit(StrokeFinished)])
      else Reaction(IDLE, [Emit(StrokeFinished)])
  }

  function React(g: GestureState, c: Context, e: MouseEvent): Reaction
  {
    match e
    case MousePress(b, p) => OnPress(g, c, b, p)
    case MouseMove(held, p) => OnMove(g, c, held, p)
    case MouseRelease(b, p) => OnRelease(g, c, b, p)
  }

  function ReactAsWritten(g: GestureState, c: Context, e: MouseEvent): Reaction
  {
    match e
    case MousePress(b, p) => OnPress(g, c, b, p)
    case MouseMove(held, p) => OnMoveAsWritten(g, c, held, p)
    case MouseRelease(b, p) => OnReleaseAsWritten(g, c, b, p)
  }

  predicate Writes(out: seq<Output>)
  {
    exists i :: 0 <= i < |out| && out[i].Write?
  }

  /** The signals among the outputs, in order. */
  function SignalsOf(out: seq<Output>): (s: seq<Signal>)
    ensures forall sig :: sig in s <==> Emit(sig) in out
  {
    if out == [] then []
    else (if out[0].Emit? then [out[0].signal] else []) + SignalsOf(out[1..])
  }

  /** The target image after the writes among the outputs, in order. */
  function Painted(paint: (Image, DrawOp) -> Image, img: Image, out: seq<Output>): (r: Image)
    ensures !Writes(out) ==> r == img
    decreases |out|
  {
    if out == [] then img
    else
      assert !Writes(out) ==> !out[0].Write?;
      assert !Writes(out) ==> !Writes(out[1..]) by {
        if !Writes(out) {
          forall i | 0 <= i < |out[1..]| ensures !out[1..][i].Write? {
            assert out[1..][i] == out[i + 1];
          }
        }
      }
      Painted(paint, if out[0].Write? then paint(img, out[0].op) else img, out[1..])
  }

  /** A press never writes.  It emits strokeStarted, and starts a gesture at
      the pressed image point, exactly when it is a left press that maps into
      the target image; any other press changes nothing. */
  lemma PressStarts(g: GestureState, c: Context, button: Button, pos: Point)
    ensures var r := OnPress(g, c, button, pos);
      && !Writes(r.out)
      && (Emit(StrokeStarted) in r.out <==>
           button == LeftButton && c.target.Some? && MapPos(c, pos) != UNMAPPED)
      && (Emit(StrokeStarted) in r.out ==>
           r.out == [Emit(StrokeStarted)] && r.next == GestureState(MapPos(c, pos), MapPos(c, pos)))
      && (Emit(StrokeStarted) !in r.out ==> r == Reaction(g, []))
  {
  }

  /** Every left release on a canvas with a target image, inside the image
      or not, ends the gesture and emits strokeFinished. */
  lemma ReleaseResets(g: GestureState, c: Context, pos: Point)
    requires c.target.Some?
    ensures React(g, c, MouseRelease(LeftButton, pos)).next == IDLE
    ensures Emit(StrokeFinished) in React(g, c, MouseRelease(LeftButton, pos)).out
  {
  }

  /** Without a target image every mouse event is ignored. */
  lemma NoTargetNoReaction(g: GestureState, c: Context, e: MouseEvent)
    requires c.target.None?
    ensures React(g, c, e) == Reaction(g, [])
  {
  }

  /** Pixel writes happen only while a gesture is under way; brush and
      eraser write only on moves, line, rectangle and circle only on release;
      and each write is followed by strokeFinished and nothing else. */
  lemma WritesInsideGesture(g: GestureState, c: Context, e: MouseEvent)
    ensures var r := React(g, c, e);
      Writes(r.out) ==>
        && Active(g)
        && (if c.tool.IsShape() then e.MouseRelease? else e.MouseMove?)
        && |r.out| == 2 && r.out[0].Write? && r.out[1] == Emit(StrokeFinished)
  {
    var r := React(g, c, e);
    if Writes(r.out) {
      var i :| 0 <= i < |r.out| && r.out[i].Write?;
    }
  }

  /** The only way from no gesture to a gesture is a press that emits strokeStarted. */
  lemma StartOnlyByPress(g: GestureState, c: Context, e: MouseEvent)
    requires !Active(g) && Active(React(g, c, e).next)
    ensures e.MousePress? && React(g, c, e).out == [Emit(StrokeStarted)]
  {
  }

  /** Every handler keeps startPoint and lastPoint set or reset together. */
  lemma CoherentPreserved(g: GestureState, c: Context, e: MouseEvent)
    requires Coherent(g)
    ensures Coherent(React(g, c, e).next)
  {
    if c.target.Some? {
      var pt := MapPos(c, e.pos);
      assert pt != UNMAPPED ==> pt.x >= 0;
    }
  }

  /** One mouse event together with the tool, pen, view and target size at its time. */
  datatype Input = Input(ctx: Context, event: MouseEvent)

  /** The gestures passed through while handling `inputs` from `g`: the
      first is `g`, and each next one is what handling the next input makes
      of the one before. */
  function States(g: GestureState, inputs: seq<Input>): (s: seq<GestureState>)
    ensures |s| == |inputs| + 1 && s[0] == g
    ensures forall k :: 0 <= k < |inputs| ==> s[k + 1] == React(s[k], inputs[k].ctx, inputs[k].event).next
    decreases |inputs|
  {
    if inputs == [] then [g]
    else [g] + States(React(g, inputs[0].ctx, inputs[0].event).next, inputs[1..])
  }

  /** The outputs of handling input `k`. */
  function OutputsAt(g: GestureState, inputs: seq<Input>, k: nat): seq<Output>
    requires k < |inputs|
  {
    var s := States(g, inputs);
    React(s[k], inputs[k].ctx, inputs[k].event).out
  }

  /** Going back from a gesture under way to an idle start, there is a last
      idle gesture, followed only by gestures under way. */
  lemma LastIdle(s: seq<GestureState>, k: nat)
    requires k < |s| && !Active(s[0]) && Active(s[k])
    ensures exists j :: 0 <= j < k && !Active(s[j]) && forall m :: j < m <= k ==> Active(s[m])
    decreases k
  {
    if Active(s[k - 1]) {
      LastIdle(s, k - 1);
      var j :| 0 <= j < k - 1 && !Active(s[j]) && forall m :: j < m <= k - 1 ==> Active(s[m]);
      assert forall m :: j < m <= k ==> Active(s[m]);
    }
  }

  /** From an idle canvas, every pixel write is preceded by a press that
      emitted strokeStarted in the same gesture: some earlier input emitted
      strokeStarted, and the gesture has been under way ever since. */
  lemma {:induction false} StrokeStartedPrecedesWrites(g: GestureState, inputs: seq<Input>, k: nat)
    requires !Active(g)
    requires k < |inputs| && Writes(OutputsAt(g, inputs, k))
    ensures exists j :: 0 <= j < k && OutputsAt(g, inputs, j) == [Emit(StrokeStarted)] &&
                        (forall m :: j < m <= k ==> Active(States(g, inputs)[m]))
  {
    var s := States(g, inputs);
    WritesInsideGesture(s[k], inputs[k].ctx, inputs[k].event);
    LastIdle(s, k);
    var j :| 0 <= j < k && !Active(s[j]) && forall m :: j < m <= k ==> Active(s[m]);
    assert Active(s[j + 1]);
    StartOnlyByPress(s[j], inputs[j].ctx, inputs[j].event);
    assert OutputsAt(g, inputs, j) == [Emit(StrokeStarted)];
  }

  /** As written, a press in the margin around a centred image (a 10x10
      image in a 210x210 widget sits at offset (100, 100)) followed by a drag
      into the image draws a brush segment from (-1, -1), and a release inside
      it commits a rectangle from (-1, -1), with no strokeStarted before
      either.  The corrected handlers write nothing for the same events. */
  lemma AsWrittenWritesWithoutStrokeStarted()
    ensures var brush := Context(Brush, Pen(BLACK, 6, false), Point(100, 100), 1.0, Some(Size(10, 10)));
      var press := MousePress(LeftButton, Point(50, 50));
      var r1 := ReactAsWritten(IDLE, brush, press);
      var r2 := ReactAsWritten(r1.next, brush, MouseMove(true, Point(103, 103)));
      && r1 == Reaction(IDLE, [])
      && r2.out == [Write(PaintSegment(UNMAPPED, Point(3, 3), BLACK, 6)), Emit(StrokeFinished)]
      && !Coherent(r2.next)
      && React(IDLE, brush, MouseMove(true, Point(103, 103))) == Reaction(IDLE, [])
    ensures var rect := Context(Rectangle, Pen(BLACK, 6, false), Point(100, 100), 1.0, Some(Size(10, 10)));
      var r1 := ReactAsWritten(IDLE, rect, MousePress(LeftButton, Point(50, 50)));
      var r2 := ReactAsWritten(r1.next, rect, MouseRelease(LeftButton, Point(103, 103)));
      && r1 == Reaction(IDLE, [])
      && r2.out == [Write(RectShape(Rect(-1, -1, 3, 3), BLACK, 6)), Emit(StrokeFinished)]
      && React(IDLE, rect, MouseRelease(LeftButton, Point(103, 103))).out == [Emit(StrokeFinished)]
  {
    assert Unzoom(50, 100, 1.0) == -50.0;
    assert Unzoom(103, 100, 1.0) == 3.0;
    assert Trunc(3.5) == 3;
  }
}
