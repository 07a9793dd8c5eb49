/** The main window: the layer stack bottom to top, the active layer, the
    brush, and the canvas showing the composite.  Slots connected to the
    canvas's signals and to the menus and toolbar are methods; the file and
    colour dialogs are replaced by their outcome, passed as an argument. */
module Window {
  import opened Wrappers
  import opened Imaging
  import opened Filters
  import opened Geometry
  import opened History
  import opened Compositing
  import opened Gesture
  import opened CanvasWidget

  predicate IsDigit(c: char)
  {
    '0' <= c <= '9'
  }

  /** The decimal numeral of `n`, as QString::arg prints it. */
  function Decimal(n: nat): (s: string)
    ensures |s| >= 1 && forall i :: 0 <= i < |s| ==> IsDigit(s[i])
    ensures |s| > 1 ==> s[0] != '0'
  {
    var d := ['0' + (n % 10) as char];
    if n < 10 then d else Decimal(n / 10) + d
  }

  /** The number a string of digits denotes. */
  function DigitsValue(s: string): nat
    requires forall i :: 0 <= i < |s| ==> IsDigit(s[i])
  {
    if s == [] then 0
    else
      assert IsDigit(s[|s| - 1]);
      DigitsValue(s[..|s| - 1]) * 10 + (s[|s| - 1] as int - '0' as int) as nat
  }

  /** Reading the numeral back gives the number. */
  lemma {:induction false} DecimalRoundTrip(n: nat)
    ensures DigitsValue(Decimal(n)) == n
  {
    var d := ['0' + (n % 10) as char];
    if n >= 10 {
      DecimalRoundTrip(n / 10);
      var s := Decimal(n);
      assert s[..|s| - 1] == Decimal(n / 10);
    }
  }

  /** The name addLayer gives the layer added to a stack of `n` layers. */
  function LayerName(n: nat): (s: string)
    ensures |s| > 6 && s[..6] == "Layer "
  {
    "Layer " + Decimal(n)
  }

  /** Layers added at different stack sizes get different names. */
  lemma LayerNameInjective(m: nat, n: nat)
    requires m != n
    ensures LayerName(m) != LayerName(n)
  {
    if LayerName(m) == LayerName(n) {
      assert Decimal(m) == LayerName(m)[6..];
      assert Decimal(n) == LayerName(n)[6..];
      DecimalRoundTrip(m);
      DecimalRoundTrip(n);
    }
  }

  /** The layer list shows the top layer first: the row of layer `index`. */
  function IndexToUiRow(count: int, index: int): int
  {
    count - 1 - index
  }

  /** The layer shown at row `uiRow` of the layer list; it names a layer
      exactly when the row is one of the list's rows. */
  function UiRowToIndex(count: int, uiRow: int): (index: int)
    ensures IndexToUiRow(count, index) == uiRow
    ensures 0 <= index < count <==> 0 <= uiRow < count
  {
    count - 1 - uiRow
  }

  /** QVector::removeAt: the element at `k` is gone and the others keep their order. */
  function RemoveAt<T>(s: seq<T>, k: nat): (r: seq<T>)
    requires k < |s|
    ensures |r| == |s| - 1
    ensures forall i :: 0 <= i < k ==> r[i] == s[i]
    ensures forall i :: k <= i < |r| ==> r[i] == s[i + 1]
    ensures multiset(r) + multiset{s[k]} == multiset(s)
  {
    assert s == s[..k] + [s[k]] + s[k + 1..];
    s[..k] + s[k + 1..]
  }

  predicate AllBounded(layers: seq<Layer>)
  {
    forall i :: 0 <= i < |layers| ==> HistoryBounded(layers[i])
  }

  class MainWindow {
    var layers: seq<Layer>
    var activeLayerIndex: int
    var brushSize: int
    var brushColor: Pixel
    const canvas: Canvas
    /** QPainter::drawImage of one layer over another. */
    const over: (Image, Image) -> Image
    /** qGray. */
    const gray: (Channel, Channel, Channel) -> Channel

    /** Everything but the composite: at least one layer, the active one
        among them, every history within its bound, a coherent gesture, and
        the canvas pen following the brush. */
    predicate Structured()
      reads this, canvas
    {
      && |layers| >= 1
      && 0 <= activeLayerIndex < |layers|
      && AllBounded(layers)
      && canvas.Valid()
      && canvas.penColor == brushColor && canvas.penWidth == brushSize
    }

    /** And the canvas shows the layers composited bottom to top. */
    predicate Valid()
      reads this, canvas
    {
      Structured() && canvas.composite == CompositeOf(layers, over)
    }

    function ActiveImage(): Image
      reads this
      requires 0 <= activeLayerIndex < |layers|
    {
      layers[activeLayerIndex].image
    }

    /** What the canvas's mouse handlers read: the canvas target is the active image. */
    function MouseContext(): Context
      reads this, canvas
      requires 0 <= activeLayerIndex < |layers|
    {
      canvas.Ctx(Some(SizeOf(ActiveImage())))
    }

    /** MainWindow::MainWindow: a white 1600x1200 background and a
        transparent "Layer 1" above it, the top one active, a black brush of
        size 6. */
    constructor (paint: (Image, DrawOp) -> Image, over: (Image, Image) -> Image,
                 gray: (Channel, Channel, Channel) -> Channel)
      ensures Valid() && fresh(canvas)
      ensures layers == [Layer("Background", Filled(1600, 1200, WHITE), [], []),
                         Layer("Layer 1", Filled(1600, 1200, TRANSPARENT), [], [])]
      ensures activeLayerIndex == 1 && brushSize == 6 && brushColor == BLACK
      ensures canvas.paint == paint && this.over == over && this.gray == gray
      ensures canvas.State() == CanvasState(CompositeOf(layers, over), Point(0, 0), IDLE, Pen(BLACK, 6, false), 1.0, Brush)
    {
      canvas := new Canvas(paint);
      this.over := over;
      this.gray := gray;
      layers := [Layer("Background", Filled(1600, 1200, WHITE), [], []),
                 Layer("Layer 1", Filled(1600, 1200, TRANSPARENT), [], [])];
      activeLayerIndex := 1;
      brushSize := 6;
      brushColor := BLACK;
      new;
      CompositeLayers();
    }

    /** MainWindow::compositeLayers: paints layers 1.. over a copy of layer 0
        and hands the result to the canvas; with no layers it does nothing. */
    method CompositeLayers()
      modifies canvas
      ensures |layers| >= 1 ==> canvas.State() == old(canvas.State()).(composite := CompositeOf(layers, over))
      ensures |layers| == 0 ==> canvas.State() == old(canvas.State())
    {
      if |layers| == 0 {
        return;
      }
      var comp := layers[0].image;
      CompositeOfOne(layers[0], over);
      assert layers[..1] == [layers[0]];
      var i := 1;
      while i < |layers|
        invariant 1 <= i <= |layers|
        invariant comp == CompositeOf(layers[..i], over)
        invariant unchanged(canvas)
      {
        CompositeStep(layers, i, over);
        comp := over(comp, layers[i].image);
        i := i + 1;
      }
      assert layers[..i] == layers;
      canvas.SetCompositeImage(comp);
    }

    /** MainWindow::pushUndoForActiveLayer: the active layer becomes PushUndo
        of itself; with no active layer nothing changes. */
    method PushUndoForActiveLayer()
      modifies this
      ensures 0 <= old(activeLayerIndex) < |old(layers)| ==>
        layers == old(layers)[old(activeLayerIndex) := PushUndo(old(layers)[old(activeLayerIndex)])]
      ensures !(0 <= old(activeLayerIndex) < |old(layers)|) ==> layers == old(layers)
      ensures activeLayerIndex == old(activeLayerIndex) && brushSize == old(brushSize) && brushColor == old(brushColor)
    {
      if activeLayerIndex < 0 || activeLayerIndex >= |layers| {
        return;
      }
      var l := layers[activeLayerIndex];
      var undo := l.undoStack + [l.image];
      if |undo| > MAX_UNDO {
        undo := undo[1..];
      }
      layers := layers[activeLayerIndex := l.(undoStack := undo)];
    }

    /** MainWindow::clearRedoForActiveLayer, proved equal to History.ClearRedo. */
    method ClearRedoForActiveLayer()
      modifies this
      ensures 0 <= old(activeLayerIndex) < |old(layers)| ==>
        layers == old(layers)[old(activeLayerIndex) := ClearRedo(old(layers)[old(activeLayerIndex)])]
      ensures !(0 <= old(activeLayerIndex) < |old(layers)|) ==> layers == old(layers)
      ensures activeLayerIndex == old(activeLayerIndex) && brushSize == old(brushSize) && brushColor == old(brushColor)
    {
      if activeLayerIndex < 0 || activeLayerIndex >= |layers| {
        return;
      }
      layers := layers[activeLayerIndex := layers[activeLayerIndex].(redoStack := [])];
    }

    /** MainWindow::onStrokeStarted: snapshot the active image and forget
        the redo history, on the active layer only. */
    method OnStrokeStarted()
      requires Valid()
      modifies this
      ensures Valid()
      ensures layers == old(layers)[old(activeLayerIndex) := BeginMutation(old(layers)[old(activeLayerIndex)])]
      ensures activeLayerIndex == old(activeLayerIndex) && brushSize == old(brushSize) && brushColor == old(brushColor)
    {
      ghost var before := layers;
      PushUndoForActiveLayer();
      ClearRedoForActiveLayer();
      HistoryBoundedPreserved(before[activeLayerIndex], ActiveImage());
      CompositeOfSameImages(before, layers, over);
    }

    /** MainWindow::onStrokeFinished: recomposite. */
    method OnStrokeFinished()
      requires Structured()
      modifies canvas
      ensures Valid()
      ensures canvas.State() == old(canvas.State()).(composite := CompositeOf(layers, over))
    {
      CompositeLayers();
    }

    /** MainWindow::undo on the active layer; an empty undo stack changes nothing.
        The stack updates are written out here and proved equal to History.Undo. */
    method Undo()
      requires Valid()
      modifies this, canvas
      ensures Valid()
      ensures layers == old(layers)[old(activeLayerIndex) := History.Undo(old(layers)[old(activeLayerIndex)])]
      ensures activeLayerIndex == old(activeLayerIndex) && brushSize == old(brushSize) && brushColor == old(brushColor)
      ensures canvas.State() == old(canvas.State()).(composite := CompositeOf(layers, over))
    {
      if activeLayerIndex < 0 || activeLayerIndex >= |layers| {
        return;
      }
      var l := layers[activeLayerIndex];
      if |l.undoStack| == 0 {
        return;
      }
      var redo := l.redoStack + [l.image];
      var prev := Last(l.undoStack);
      var undo := l.undoStack[..|l.undoStack| - 1];
      layers := layers[activeLayerIndex := Layer(l.name, prev, undo, redo)];
      HistoryBoundedPreserved(l, prev);
      CompositeLayers();
    }

    /** MainWindow::redo on the active layer; an empty redo stack changes nothing.
        The stack updates are written out here and proved equal to History.Redo. */
    method Redo()
      requires Valid()
      modifies this, canvas
      ensures Valid()
      ensures layers == old(layers)[old(activeLayerIndex) := History.Redo(old(layers)[old(activeLayerIndex)])]
      ensures activeLayerIndex == old(activeLayerIndex) && brushSize == old(brushSize) && brushColor == old(brushColor)
      ensures canvas.State() == old(canvas.State()).(composite := CompositeOf(layers, over))
    {
      if activeLayerIndex < 0 || activeLayerIndex >= |layers| {
        return;
      }
      var l := layers[activeLayerIndex];
      if |l.redoStack| == 0 {
        return;
      }
      var undo := l.undoStack + [l.image];
      var next := Last(l.redoStack);
      var redo := l.redoStack[..|l.redoStack| - 1];
      layers := layers[activeLayerIndex := Layer(l.name, next, undo, redo)];
      HistoryBoundedPreserved(l, next);
      CompositeLayers();
    }

    /** MainWindow::clearCanvas: an undoable edit of the active layer to an
        all-transparent image of the same size. */
    method ClearCanvas()
      requires Valid()
      modifies this, canvas
      ensures Valid()
      ensures var a := old(activeLayerIndex); var img := old(layers)[a].image;
        layers == old(layers)[a := Edit(old(layers)[a], Filled(img.width, img.height, TRANSPARENT))]
      ensures activeLayerIndex == old(activeLayerIndex) && brushSize == old(brushSize) && brushColor == old(brushColor)
      ensures canvas.State() == old(canvas.State()).(composite := CompositeOf(layers, over))
    {
      if activeLayerIndex < 0 || activeLayerIndex >= |layers| {
        return;
      }
      ghost var before := layers[activeLayerIndex];
      PushUndoForActiveLayer();
      var l := layers[activeLayerIndex];
      layers := layers[activeLayerIndex := l.(image := Filled(l.image.width, l.image.height, TRANSPARENT))];
      ClearRedoForActiveLayer();
      HistoryBoundedPreserved(before, ActiveImage());
      CompositeLayers();
    }

    /** MainWindow::addLayer: a transparent layer of layer 0's size, named
        after the old layer count, goes on top and becomes active; the
        composite is the old one with that layer drawn over it. */
    method AddLayer()
      requires Valid()
      modifies this, canvas
      ensures Valid()
      ensures var base := old(layers)[0].image;
        layers == old(layers) + [Layer(LayerName(|old(layers)|), Filled(base.width, base.height, TRANSPARENT), [], [])]
      ensures activeLayerIndex == |layers| - 1
      ensures brushSize == old(brushSize) && brushColor == old(brushColor)
      ensures canvas.State() == old(canvas.State()).(composite := over(old(canvas.composite), Last(layers).image))
    {
      var l := Layer(LayerName(|layers|), Filled(layers[0].image.width, layers[0].image.height, TRANSPARENT), [], []);
      CompositeOnTop(layers, l, over);
      layers := layers + [l];
      activeLayerIndex := |layers| - 1;
      CompositeLayers();
    }

    /** MainWindow::removeLayer: the last layer is never removed; otherwise
        the active layer goes, the others keep their order, and the top
        layer becomes active. */
    method RemoveLayer()
      requires Valid()
      modifies this, canvas
      ensures Valid()
      ensures |old(layers)| <= 1 ==> layers == old(layers) && activeLayerIndex == old(activeLayerIndex)
      ensures |old(layers)| > 1 ==>
        layers == RemoveAt(old(layers), old(activeLayerIndex)) && activeLayerIndex == |layers| - 1
      ensures brushSize == old(brushSize) && brushColor == old(brushColor)
      ensures canvas.State() == old(canvas.State()).(composite := CompositeOf(layers, over))
    {
      if |layers| <= 1 {
        return;
      }
      var idx := activeLayerIndex;
      layers := RemoveAt(layers, idx);
      activeLayerIndex := |layers| - 1;
      CompositeLayers();
    }

    /** MainWindow::activateLayer: the layer shown at `uiRow` becomes active;
        a row outside the list changes nothing. */
    method ActivateLayer(uiRow: int)
      requires Valid()
      modifies this
      ensures Valid()
      ensures 0 <= uiRow < |layers| ==> activeLayerIndex == UiRowToIndex(|layers|, uiRow)
      ensures !(0 <= uiRow < |layers|) ==> activeLayerIndex == old(activeLayerIndex)
      ensures layers == old(layers) && brushSize == old(brushSize) && brushColor == old(brushColor)
    {
      var idx := |layers| - 1 - uiRow;
      if idx < 0 || idx >= |layers| {
        return;
      }
      activeLayerIndex := idx;
    }

    /** MainWindow::grayscale: the active image is grayscaled sample by
        sample; no undo snapshot is taken, so both stacks stay as they are. */
    method Grayscale()
      requires Valid()
      modifies this, canvas
      ensures Valid()
      ensures var a := old(activeLayerIndex);
        layers == old(layers)[a := old(layers)[a].(image := Grayscaled(old(layers)[a].image, gray))]
      ensures activeLayerIndex == old(activeLayerIndex) && brushSize == old(brushSize) && brushColor == old(brushColor)
      ensures canvas.State() == old(canvas.State()).(composite := CompositeOf(layers, over))
    {
      if activeLayerIndex < 0 || activeLayerIndex >= |layers| {
        return;
      }
      var img := layers[activeLayerIndex].image;
      var out := ApplyPerPixel(img, p => GrayPixel(p, gray));
      SamePixels(out, Grayscaled(img, gray));
      layers := layers[activeLayerIndex := layers[activeLayerIndex].(image := out)];
      CompositeLayers();
    }

    /** MainWindow::invertColors: the active image is inverted sample by
        sample; no undo snapshot is taken. */
    method InvertColors()
      requires Valid()
      modifies this, canvas
      ensures Valid()
      ensures var a := old(activeLayerIndex);
        layers == old(layers)[a := old(layers)[a].(image := Inverted(old(layers)[a].image))]
      ensures activeLayerIndex == old(activeLayerIndex) && brushSize == old(brushSize) && brushColor == old(brushColor)
      ensures canvas.State() == old(canvas.State()).(composite := CompositeOf(layers, over))
    {
      if activeLayerIndex < 0 || activeLayerIndex >= |layers| {
        return;
      }
      var img := layers[activeLayerIndex].image;
      var out := ApplyPerPixel(img, InvertPixel);
      SamePixels(out, Inverted(img));
      layers := layers[activeLayerIndex := layers[activeLayerIndex].(image := out)];
      CompositeLayers();
    }

    /** MainWindow::flipHorizontal (mirrored(true, false)); no undo snapshot. */
    method FlipHorizontal()
      requires Valid()
      modifies this, canvas
      ensures Valid()
      ensures var a := old(activeLayerIndex);
        layers == old(layers)[a := old(layers)[a].(image := MirroredHorizontally(old(layers)[a].image))]
      ensures activeLayerIndex == old(activeLayerIndex) && brushSize == old(brushSize) && brushColor == old(brushColor)
      ensures canvas.State() == old(canvas.State()).(composite := CompositeOf(layers, over))
    {
      if activeLayerIndex < 0 || activeLayerIndex >= |layers| {
        return;
      }
      layers := layers[activeLayerIndex := layers[activeLayerIndex].(image := MirroredHorizontally(ActiveImage()))];
      CompositeLayers();
    }

    /** MainWindow::flipVertical (mirrored(false, true)); no undo snapshot. */
    method FlipVertical()
      requires Valid()
      modifies this, canvas
      ensures Valid()
      ensures var a := old(activeLayerIndex);
        layers == old(layers)[a := old(layers)[a].(image := MirroredVertically(old(layers)[a].image))]
      ensures activeLayerIndex == old(activeLayerIndex) && brushSize == old(brushSize) && brushColor == old(brushColor)
      ensures canvas.State() == old(canvas.State()).(composite := CompositeOf(layers, over))
    {
      if activeLayerIndex < 0 || activeLayerIndex >= |layers| {
        return;
      }
      layers := layers[activeLayerIndex := layers[activeLayerIndex].(image := MirroredVertically(ActiveImage()))];
      CompositeLayers();
    }

    /** MainWindow::rotateLeft (rotate(-90)); no undo snapshot. */
    method RotateLeft()
      requires Valid()
      modifies this, canvas
      ensures Valid()
      ensures var a := old(activeLayerIndex);
        layers == old(layers)[a := old(layers)[a].(image := RotatedLeft(old(layers)[a].image))]
      ensures activeLayerIndex == old(activeLayerIndex) && brushSize == old(brushSize) && brushColor == old(brushColor)
      ensures canvas.State() == old(canvas.State()).(composite := CompositeOf(layers, over))
    {
      if activeLayerIndex < 0 || activeLayerIndex >= |layers| {
        return;
      }
      layers := layers[activeLayerIndex := layers[activeLayerIndex].(image := RotatedLeft(ActiveImage()))];
      CompositeLayers();
    }

    /** MainWindow::rotateRight (rotate(90)); no undo snapshot. */
    method RotateRight()
      requires Valid()
      modifies this, canvas
      ensures Valid()
      ensures var a := old(activeLayerIndex);
        layers == old(layers)[a := old(layers)[a].(image := RotatedRight(old(layers)[a].image))]
      ensures activeLayerIndex == old(activeLayerIndex) && brushSize == old(brushSize) && brushColor == old(brushColor)
      ensures canvas.State() == old(canvas.State()).(composite := CompositeOf(layers, over))
    {
      if activeLayerIndex < 0 || activeLayerIndex >= |layers| {
        return;
      }
      layers := layers[activeLayerIndex := layers[activeLayerIndex].(image := RotatedRight(ActiveImage()))];
      CompositeLayers();
    }

    /** MainWindow::openFile, given the loaded image (None when no file was
        chosen or it could not be read): the image replaces the active
        layer's and its history is cleared. */
    method OpenFile(loaded: Option<Image>)
      requires Valid()
      modifies this, canvas
      ensures Valid()
      ensures loaded.None? ==> layers == old(layers)
      ensures loaded.Some? ==> var a := old(activeLayerIndex);
        layers == old(layers)[a := Layer(old(layers)[a].name, loaded.value, [], [])]
      ensures activeLayerIndex == old(activeLayerIndex) && brushSize == old(brushSize) && brushColor == old(brushColor)
      ensures canvas.State() == old(canvas.State()).(composite := CompositeOf(layers, over))
    {
      if loaded.None? {
        return;
      }
      layers := layers[activeLayerIndex := layers[activeLayerIndex].(image := loaded.value)];
      layers := layers[activeLayerIndex := layers[activeLayerIndex].(undoStack := [])];
      layers := layers[activeLayerIndex := layers[activeLayerIndex].(redoStack := [])];
      CompositeLayers();
    }

    /** MainWindow::saveFile: the image written is the composite of all layers. */
    method SaveFile() returns (img: Image)
      requires Valid()
      ensures img == CompositeOf(layers, over)
    {
      img := canvas.composite;
    }

    /** MainWindow::selectBrush: the brush tool with the brush colour and size, not erasing. */
    method SelectBrush()
      requires Valid()
      modifies canvas
      ensures Valid()
      ensures canvas.State() == old(canvas.State()).(pen := Pen(brushColor, brushSize, false), tool := Brush)
    {
      canvas.SetEraserMode(false);
      canvas.SetPenColor(brushColor);
      canvas.SetPenWidth(brushSize);
      canvas.SetTool(Brush);
    }

    /** MainWindow::selectEraser: the eraser tool with the brush size, erasing. */
    method SelectEraser()
      requires Valid()
      modifies canvas
      ensures Valid()
      ensures canvas.State() == old(canvas.State()).(pen := old(canvas.State()).pen.(width := brushSize, eraserMode := true), tool := Eraser)
    {
      canvas.SetEraserMode(true);
      canvas.SetPenWidth(brushSize);
      canvas.SetTool(Eraser);
    }

    /** The Line, Rectangle and Circle toolbar actions. */
    method SelectShapeTool(t: Tool)
      requires Valid() && t.IsShape()
      modifies canvas
      ensures Valid()
      ensures canvas.State() == old(canvas.State()).(tool := t)
    {
      canvas.SetTool(t);
    }

    /** MainWindow::setColorFromButton, given the button's colour (None when
        the sender or its colour property is missing or invalid). */
    method SetColorFromButton(color: Option<Pixel>)
      requires Valid()
      modifies this, canvas
      ensures Valid()
      ensures color.None? ==> brushColor == old(brushColor) && canvas.State() == old(canvas.State())
      ensures color.Some? ==>
        brushColor == color.value && canvas.State() == old(canvas.State()).(pen := Pen(color.value, brushSize, false))
      ensures layers == old(layers) && activeLayerIndex == old(activeLayerIndex) && brushSize == old(brushSize)
    {
      if color.Some? {
        brushColor := color.value;
        if activeLayerIndex >= 0 && activeLayerIndex < |layers| {
          canvas.SetPenColor(brushColor);
        }
      }
    }

    /** MainWindow::chooseColor, given the dialog's choice (None when cancelled). */
    method ChooseColor(picked: Option<Pixel>)
      requires Valid()
      modifies this, canvas
      ensures Valid()
      ensures picked.None? ==> brushColor == old(brushColor) && canvas.State() == old(canvas.State())
      ensures picked.Some? ==>
        brushColor == picked.value && canvas.State() == old(canvas.State()).(pen := Pen(picked.value, brushSize, false))
      ensures layers == old(layers) && activeLayerIndex == old(activeLayerIndex) && brushSize == old(brushSize)
    {
      if picked.Some? {
        brushColor := picked.value;
        canvas.SetPenColor(brushColor);
      }
    }

    /** MainWindow::changeBrushSize. */
    method ChangeBrushSize(v: int)
      requires Valid()
      modifies this, canvas
      ensures Valid()
      ensures brushSize == v && canvas.State() == old(canvas.State()).(pen := old(canvas.State()).pen.(width := v))
      ensures layers == old(layers) && activeLayerIndex == old(activeLayerIndex) && brushColor == old(brushColor)
    {
      brushSize := v;
      canvas.SetPenWidth(v);
    }

    /** A press on the canvas, whose target is the active image, with
        strokeStarted connected to OnStrokeStarted: the gesture moves as
        OnPress says, and the active layer takes its snapshot exactly when
        strokeStarted is emitted. */
    method HandleMousePress(button: Button, pos: Point)
      requires Valid()
      modifies this, canvas
      ensures Valid()
      ensures var r := OnPress(old(canvas.CurrentGesture()), old(MouseContext()), button, pos);
        var a := old(activeLayerIndex);
        && canvas.State() == old(canvas.State()).(gesture := r.next)
        && layers == (if Emit(StrokeStarted) in r.out then old(layers)[a := BeginMutation(old(layers)[a])] else old(layers))
      ensures activeLayerIndex == old(activeLayerIndex) && brushSize == old(brushSize) && brushColor == old(brushColor)
    {
      var signals := canvas.MousePressEvent(button, pos, Some(ActiveImage()));
      if StrokeStarted in signals {
        OnStrokeStarted();
      }
    }

    /** A move on the canvas, with strokeFinished connected to
        OnStrokeFinished: the gesture moves and the active image is drawn
        on as OnMove says, and the composite follows. */
    method HandleMouseMove(leftHeld: bool, pos: Point)
      requires Valid()
      modifies this, canvas
      ensures Valid()
      ensures var r := OnMove(old(canvas.CurrentGesture()), old(MouseContext()), leftHeld, pos);
        var a := old(activeLayerIndex);
        && canvas.State() == old(canvas.State()).(gesture := r.next, composite := canvas.composite)
        && layers == old(layers)[a := old(layers)[a].(image := Painted(canvas.paint, old(layers)[a].image, r.out))]
      ensures activeLayerIndex == old(activeLayerIndex) && brushSize == old(brushSize) && brushColor == old(brushColor)
    {
      ghost var r := OnMove(canvas.CurrentGesture(), MouseContext(), leftHeld, pos);
      WritesInsideGesture(canvas.CurrentGesture(), MouseContext(), MouseMove(leftHeld, pos));
      var a := activeLayerIndex;
      var updated, signals := canvas.MouseMoveEvent(leftHeld, pos, Some(ActiveImage()));
      ghost var before := layers;
      layers := layers[a := layers[a].(image := updated.value)];
      if StrokeFinished in signals {
        OnStrokeFinished();
      } else {
        assert !Writes(r.out);
        assert layers == before;
      }
    }

    /** A release on the canvas, with strokeFinished connected to
        OnStrokeFinished: the gesture ends and a shape is committed to the
        active image as OnRelease says, and the composite follows. */
    method HandleMouseRelease(button: Button, pos: Point)
      requires Valid()
      modifies this, canvas
      ensures Valid()
      ensures var r := OnRelease(old(canvas.CurrentGesture()), old(MouseContext()), button, pos);
        var a := old(activeLayerIndex);
        && canvas.State() == old(canvas.State()).(gesture := r.next, composite := canvas.composite)
        && layers == old(layers)[a := old(layers)[a].(image := Painted(canvas.paint, old(layers)[a].image, r.out))]
      ensures activeLayerIndex == old(activeLayerIndex) && brushSize == old(brushSize) && brushColor == old(brushColor)
    {
      ghost var r := OnRelease(canvas.CurrentGesture(), MouseContext(), button, pos);
      WritesInsideGesture(canvas.CurrentGesture(), MouseContext(), MouseRelease(button, pos));
      var a := activeLayerIndex;
      var updated, signals := canvas.MouseReleaseEvent(button, pos, Some(ActiveImage()));
      ghost var before := layers;
      layers := layers[a := layers[a].(image := updated.value)];
      if StrokeFinished in signals {
        OnStrokeFinished();
      } else {
        assert !Writes(r.out);
        assert layers == before;
      }
    }
  }
}
