/** The drawing widget: the composite it displays, the view (offset and
    zoom), the pen, the tool and the gesture under way.  Canvas::targetImg
    points into the active layer's image; here the handlers are given that
    image (None for a null target) and return it after drawing, and the
    window stores it back into the layer. */
module CanvasWidget {
  import opened Wrappers
  import opened Imaging
  import opened Geometry
  import opened Gesture

  /** Every field of a Canvas, as one value. */
  datatype CanvasState = CanvasState(
    composite: Image, imageOffset: Point, gesture: GestureState, pen: Pen, zoom: Zoom, tool: Tool)

  class Canvas {
    var composite: Image
    var imageOffset: Point
    var startPoint: Point
    var lastPoint: Point
    var penWidth: int
    var penColor: Pixel
    var eraserMode: bool
    var zoom: Zoom
    var currentTool: Tool
    /** The QPainter drawing of one primitive into an image. */
    const paint: (Image, DrawOp) -> Image

    function CurrentGesture(): GestureState
      reads this
    {
      GestureState(startPoint, lastPoint)
    }

    function State(): CanvasState
      reads this
    {
      CanvasState(composite, imageOffset, CurrentGesture(), Pen(penColor, penWidth, eraserMode), zoom, currentTool)
    }

    /** What the mouse handlers read, for a target image of size `target`. */
    function Ctx(target: Option<Size>): Context
      reads this
    {
      Context(currentTool, Pen(penColor, penWidth, eraserMode), imageOffset, zoom, target)
    }

    predicate Valid()
      reads this
    {
      Coherent(CurrentGesture())
    }

    /** Canvas::Canvas: a 1200x800 white composite, no gesture, a black pen of
        width 6, zoom 1 and the brush. */
    constructor (paint: (Image, DrawOp) -> Image)
      ensures Valid() && this.paint == paint
      ensures State() == CanvasState(Filled(1200, 800, WHITE), Point(0, 0), IDLE, Pen(BLACK, 6, false), 1.0, Brush)
    {
      composite := Filled(1200, 800, WHITE);
      imageOffset := Point(0, 0);
      lastPoint := UNMAPPED;
      startPoint := UNMAPPED;
      penWidth := 6;
      penColor := BLACK;
      eraserMode := false;
      zoom := 1.0;
      currentTool := Brush;
      this.paint := paint;
    }

    method SetCompositeImage(c: Image)
      modifies this
      ensures State() == old(State()).(composite := c)
    {
      composite := c;
    }

    /** Choosing a colour also leaves eraser mode. */
    method SetPenColor(c: Pixel)
      modifies this
      ensures State() == old(State()).(pen := Pen(c, old(penWidth), false))
    {
      penColor := c;
      eraserMode := false;
    }

    method SetPenWidth(w: int)
      modifies this
      ensures State() == old(State()).(pen := old(State()).pen.(width := w))
    {
      penWidth := w;
    }

    method SetEraserMode(on: bool)
      modifies this
      ensures State() == old(State()).(pen := old(State()).pen.(eraserMode := on))
    {
      eraserMode := on;
    }

    /** A zoom that is not positive is ignored, so the zoom stays positive. */
    method SetZoom(z: real)
      modifies this
      ensures z > 0.0 ==> State() == old(State()).(zoom := z)
      ensures z <= 0.0 ==> State() == old(State())
    {
      if z <= 0.0 {
        return;
      }
      zoom := z;
    }

    method SetTool(t: Tool)
      modifies this
      ensures State() == old(State()).(tool := t)
    {
      currentTool := t;
    }

    /** The offset paintEvent computes to centre the zoomed composite in a
        widget of the given size; a null (empty) composite leaves it alone. */
    method UpdateImageOffset(widgetWidth: int, widgetHeight: int)
      modifies this
      ensures old(composite.width) == 0 || old(composite.height) == 0 ==> State() == old(State())
      ensures old(composite.width) > 0 && old(composite.height) > 0 ==>
        State() == old(State()).(imageOffset := Point(CentredOffset(widgetWidth, composite.width, zoom),
                                                      CentredOffset(widgetHeight, composite.height, zoom)))
    {
      if composite.width == 0 || composite.height == 0 {
        return;
      }
      var x := CentredOffset(widgetWidth, composite.width, zoom);
      var y := CentredOffset(widgetHeight, composite.height, zoom);
      imageOffset := Point(x, y);
    }

    /** Canvas::mousePressEvent: only the gesture can change, as OnPress says;
        the signals emitted are returned.  The handler's branches are written
        out on the fields and proved equal to Gesture.OnPress. */
    method MousePressEvent(button: Button, pos: Point, target: Option<Image>) returns (signals: seq<Signal>)
      requires Valid()
      modifies this
      ensures Valid()
      ensures var r := OnPress(old(CurrentGesture()), old(Ctx(TargetSize(target))), button, pos);
        State() == old(State()).(gesture := r.next) && signals == SignalsOf(r.out)
    {
      CoherentPreserved(CurrentGesture(), Ctx(TargetSize(target)), MousePress(button, pos));
      signals := [];
      if button == LeftButton {
        if target.None? {
          return;
        }
        var imgPt := WidgetToImage(pos, imageOffset, zoom, SizeOf(target.value));
        if imgPt == UNMAPPED {
          return;
        }
        lastPoint := imgPt;
        startPoint := imgPt;
        signals := [StrokeStarted];
      }
    }

    /** Canvas::mouseMoveEvent, ignoring moves while no gesture is under
        way: the gesture changes and the target is drawn on as OnMove says.
        The branches are written out on the fields and proved equal to Gesture.OnMove. */
    method MouseMoveEvent(leftHeld: bool, pos: Point, target: Option<Image>)
      returns (updated: Option<Image>, signals: seq<Signal>)
      requires Valid()
      modifies this
      ensures Valid()
      ensures var r := OnMove(old(CurrentGesture()), old(Ctx(TargetSize(target))), leftHeld, pos);
        && State() == old(State()).(gesture := r.next) && signals == SignalsOf(r.out)
        && updated == (if target.Some? then Some(Painted(paint, target.value, r.out)) else None)
    {
      CoherentPreserved(CurrentGesture(), Ctx(TargetSize(target)), MouseMove(leftHeld, pos));
      updated := target;
      signals := [];
      if !leftHeld || target.None? {
        return;
      }
      var imgP := WidgetToImage(pos, imageOffset, zoom, SizeOf(target.value));
      if imgP == UNMAPPED || startPoint == UNMAPPED {
        return;
      }
      if currentTool == Brush || currentTool == Eraser {
        var op := SegmentOp(lastPoint, imgP, Pen(penColor, penWidth, eraserMode));
        updated := Some(paint(target.value, op));
        lastPoint := imgP;
        signals := [StrokeFinished];
        assert [Write(op), Emit(StrokeFinished)][1..] == [Emit(StrokeFinished)];
        assert [Emit(StrokeFinished)][1..] == [];
        assert SignalsOf([Write(op), Emit(StrokeFinished)]) == [StrokeFinished];
        assert Painted(paint, target.value, [Write(op), Emit(StrokeFinished)]) == paint(target.value, op);
      }
    }

    /** Canvas::mouseReleaseEvent, committing a shape only for a gesture
        under way: the gesture ends and the target is drawn on as OnRelease says.
        The branches are written out on the fields and proved equal to Gesture.OnRelease. */
    method MouseReleaseEvent(button: Button, pos: Point, target: Option<Image>)
      returns (updated: Option<Image>, signals: seq<Signal>)
      requires Valid()
      modifies this
      ensures Valid()
      ensures var r := OnRelease(old(CurrentGesture()), old(Ctx(TargetSize(target))), button, pos);
        && State() == old(State()).(gesture := r.next) && signals == SignalsOf(r.out)
        && updated == (if target.Some? then Some(Painted(paint, target.value, r.out)) else None)
    {
      CoherentPreserved(CurrentGesture(), Ctx(TargetSize(target)), MouseRelease(button, pos));
      updated := target;
      signals := [];
      if target.None? {
        return;
      }
      if button == LeftButton {
        var endPt := WidgetToImage(pos, imageOffset, zoom, SizeOf(target.value));
        if endPt == UNMAPPED {
          lastPoint := UNMAPPED;
          startPoint := UNMAPPED;
          signals := [StrokeFinished];
          return;
        }
        if currentTool.IsShape() && startPoint != UNMAPPED {
          var op := ShapeOp(currentTool, startPoint, endPt, Pen(penColor, penWidth, eraserMode));
          updated := Some(paint(target.value, op));
          assert Painted(paint, target.value, [Write(op), Emit(StrokeFinished)]) == paint(target.value, op) by {
            assert [Write(op), Emit(StrokeFinished)][1..] == [Emit(StrokeFinished)];
            assert [Emit(StrokeFinished)][1..] == [];
          }
        }
        lastPoint := UNMAPPED;
        startPoint := UNMAPPED;
        signals := [StrokeFinished];
      }
    }
  }
}
