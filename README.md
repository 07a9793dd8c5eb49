# Grimp: layers, undo/redo and the canvas gesture machine in Dafny

Grimp is a small Qt paint editor. Its `MainWindow` holds a stack of layers, listed bottom to top. Each layer has a name, an image and its own undo and redo stacks of image snapshots. Strokes, clears, filters, flips and rotations edit the active layer. After each change the window composites all layers into the image that the `Canvas` widget displays. The canvas turns mouse events into pixel writes on the active layer's image:

- brush and eraser segments while the mouse is dragged;
- line, rectangle or ellipse shapes on release.

It reports each gesture to the window with the signals `strokeStarted` and `strokeFinished`. `strokeStarted` makes the window take an undo snapshot. `strokeFinished` makes it recomposite.

The model:

- **Images are values** (`Imaging`), i.e. rectangular grids of RGBA samples. Copying a `QImage` takes a snapshot, so undo entries are plain values.
- **History** (`History`) is pure functions on a `Layer` value: push with eviction, clear redo, undo, redo. Lemmas relate several calls of these functions.
- **Compositing** (`Compositing`) is a left fold of an opaque `over` (drawImage) over the layers.
- **Filters** (`Filters`) are the per-pixel maps of the Filters menu. They are applied by a nested scanline loop.
- **Gestures** (`Gesture`):
  - the press, move and release handlers are pure functions from a gesture state and the handler's context to the next state and the ordered outputs (pixel writes and signals);
  - a lemma over whole event sequences shows that every write is preceded by `strokeStarted`.
- **Coordinate mapping** (`Geometry`) is widget-to-image and image-to-widget over exact reals.
- **The two classes** are `CanvasWidget.Canvas` and `Window.MainWindow`. Their fields change by imperative methods. Each method's postcondition ties the new state to the functions above. `MainWindow.Valid()` is the invariant every slot keeps:
  - at least one layer, and the active index points into the layer stack;
  - every layer has at most 20 entries in its undo and redo stacks together;
  - the gesture's two points are set and reset together;
  - the canvas pen follows the window's brush;
  - the canvas shows the composite of the current layers.

The canvas's `targetImg` pointer into the active layer is replaced by a handle. The window passes the active layer's image to each canvas mouse handler and stores the returned image back into that layer. QPainter drawing (`paint`), layer blending (`over`) and `qGray` (`gray`) are functions given to the constructors.

Where the comments in `include/mainwindow.h` and the code disagree, the model follows the code:

- `lastPoint` is kept in image coordinates, not widget coordinates.
- `strokeFinished` is emitted after every brush or eraser segment, not only on release.

## Model

| member | source | states |
|---|---|---|
| Imaging.Filled | src/mainwindow.cpp:37-38 | the filled image has the requested width and height and every sample is the fill colour |
| Imaging.MapPixels | src/mainwindow.cpp:788-797 | same size as the input; each sample is the per-pixel map of the sample at the same place |
| Imaging.MirroredHorizontally | src/mainwindow.cpp:765-771 | same size; the sample at (x, y) comes from (w-1-x, y) |
| Imaging.MirroredVertically | src/mainwindow.cpp:773-779 | same size; the sample at (x, y) comes from (x, h-1-y) |
| Imaging.RotatedRight | src/mainwindow.cpp:755-763 | width and height swap; the sample at (x, y) lands at (h-1-y, x) |
| Imaging.RotatedLeft | src/mainwindow.cpp:745-753 | width and height swap; the sample at (x, y) lands at (y, w-1-x) |
| Imaging.MirrorInvolutions | src/mainwindow.cpp:765-779 | flipping twice in the same direction gives the image back |
| Imaging.RotationsInverse | src/mainwindow.cpp:745-763 | rotating left undoes rotating right, and rotating right undoes rotating left |
| Filters.InvertPixel | src/mainwindow.cpp:812-814 | each colour channel and its inverse sum to 255; alpha is kept |
| Filters.GrayPixel | src/mainwindow.cpp:793-795 | red, green and blue all equal the grey level of the sample; alpha is kept |
| Filters.InvertPixelAsWritten | src/mainwindow.cpp:812-814 | as written, each colour channel and its inverse sum to 255 and alpha becomes 255 |
| Filters.GrayPixelAsWritten | src/mainwindow.cpp:793-795 | as written, red, green and blue all equal the grey level and alpha becomes 255 |
| Filters.Inverted | src/mainwindow.cpp:802-819 | same size; each sample has its colour channels inverted and its alpha kept |
| Filters.Grayscaled | src/mainwindow.cpp:782-800 | same size; each sample is grey at the level of the original sample, with its alpha kept |
| Filters.InvertedTwice | src/mainwindow.cpp:802-819 | inverting twice gives the image back |
| Filters.GrayscaledIsFixed | src/mainwindow.cpp:782-800 | for a grey level that maps a grey to itself, grayscaling a grayscaled image changes nothing |
| Filters.InvertAsWrittenMakesOpaque | src/mainwindow.cpp:812-814 | as written, a transparent sample becomes opaque white and inverting twice does not restore it |
| Filters.GrayAsWrittenMakesOpaque | src/mainwindow.cpp:793-795 | as written, a transparent sample becomes opaque |
| Filters.ApplyPerPixel | src/mainwindow.cpp:788-797 | the nested scanline loop yields exactly the image with the map applied to every sample |
| Geometry.Trunc | src/mainwindow.cpp:149 | the conversion to int truncates toward zero, for both signs |
| Geometry.Half | src/mainwindow.cpp:104-105 | C++ division by 2 truncates toward zero, so the remainder has the sign of the dividend |
| Geometry.Round | src/mainwindow.cpp:149 | adding one half and truncating rounds a non-negative value to the nearest integer, halves up |
| Geometry.WidgetToImage | src/mainwindow.cpp:135-150 | the result is (-1,-1) exactly when (p-offset)/zoom lies outside [0,w)x[0,h); otherwise it rounds that point half up, and its coordinates are between 0 and w or h |
| Geometry.ToWidget | src/mainwindow.cpp:118-120 | one coordinate of imageToWidget: the widget position is within one of offset + i * zoom, truncated toward zero |
| Geometry.ImageToWidget | src/mainwindow.cpp:117-121 | defined as ToWidget on each coordinate; its round trips are RoundTripWholeZoom and RoundTripWithinOne |
| Geometry.MappingCanReachWidth | src/mainwindow.cpp:146-149 | because rounding follows the bounds test, a point in the right half of the last column maps to x = width |
| Geometry.RoundTripWholeZoom | src/mainwindow.cpp:117-121 | for a whole-number zoom, mapping a pixel inside the image to the widget and back gives that pixel |
| Geometry.RoundTripWithinOne | src/mainwindow.cpp:117-121 | for a zoom of at least 1, mapping a pixel inside the image to the widget and back always maps back into the image, within one of the pixel in each coordinate |
| Geometry.ZoomOutMergesPixels | src/mainwindow.cpp:737-743 | at the smallest zoom the window allows, 0.2, pixel (4,0) with offset (0,0) maps to the widget and back as pixel (0,0), so below zoom 1 the round trip is not within one |
| Geometry.CentredOffset | src/mainwindow.cpp:99-106 | the offset is half the widget space left around the truncated zoomed extent, to within one, and when the image fits it lies inside the widget |
| History.Newest | src/mainwindow.cpp:624-626 | keeps the last n entries of a stack, in order |
| History.PushUndo | src/mainwindow.cpp:618-627 | the newest undo entry becomes the image; name, image and redo stack are unchanged (eviction in PushUndoSnapshot) |
| History.ClearRedo | src/mainwindow.cpp:629-633 | the redo stack becomes empty and nothing else changes |
| History.BeginMutation | src/mainwindow.cpp:635-640 | after onStrokeStarted the newest undo entry is the image, the redo stack is empty, and the image and name are unchanged |
| History.Edit | src/mainwindow.cpp:544-553 | an undoable edit: the newest undo entry is the old image, the redo stack is empty, and the image is the new one |
| History.Undo | src/mainwindow.cpp:648-662 | the two stacks together keep their size and the name is kept; when there is something to undo, the image becomes the newest undo entry and the old image the newest redo entry |
| History.Redo | src/mainwindow.cpp:664-677 | the two stacks together keep their size and the name is kept; when there is something to redo, the image becomes the newest redo entry and the old image the newest undo entry |
| History.PushUndoSnapshot | src/mainwindow.cpp:618-627 | after a push the newest undo entry is the image and the stack holds at most 20; at 21 entries the oldest is dropped; the image, the redo stack and the name are unchanged |
| History.EditForgetsRedo | src/mainwindow.cpp:635-640 | after a stroke start or a clear the redo stack is empty, redo does nothing, and one undo brings back the image from before the edit |
| History.UndoRedoChangeIff | src/mainwindow.cpp:648-677 | undo changes a layer exactly when its undo stack is not empty, and redo exactly when its redo stack is not empty |
| History.UndoRedoRoundTrip | src/mainwindow.cpp:648-677 | undo then redo restores the image and both stacks, and so does redo then undo |
| History.HistoryBoundedPreserved | src/mainwindow.cpp:618-677 | stroke start, clear, undo and redo all keep the undo and redo stacks together within 20 entries |
| History.NewestAppend | src/mainwindow.cpp:618-627 | evicting before more pushes gives the same stack as evicting once at the end |
| History.EditsHistory | src/mainwindow.cpp:618-640 | after a run of edits the undo stack holds the newest 20 pre-edit images in order, and the image is the last edit |
| History.UndoNTakes | src/mainwindow.cpp:648-662 | k undos pop the k newest undo entries and leave the image at the k-th newest |
| History.UndoAfterEdits | src/mainwindow.cpp:618-662 | after up to 20 edits, k undos bring back the image from k edits earlier |
| History.RedoAfterUndo | src/mainwindow.cpp:648-677 | k redos after k undos restore the layer exactly |
| Compositing.CompositeOf | src/mainwindow.cpp:606-616 | defined as the bottom layer's image with each layer above drawn over it in order; its properties are CompositeOnTop, CompositeOfOne and CompositeOfSameImages |
| Compositing.CompositeOnTop | src/mainwindow.cpp:606-616 | the composite of a stack with one more layer on top is that layer drawn over the old composite |
| Compositing.CompositeOfSameImages | src/mainwindow.cpp:606-616 | the composite depends only on the layers' images, not on their names or histories |
| Gesture.Normalized | src/mainwindow.cpp:232-236 | the normalised rectangle has ordered corners taken from the two points and contains both |
| Gesture.NormalizedSymmetric | src/mainwindow.cpp:232-236 | the normalised rectangle does not depend on the drag direction |
| Gesture.OnPress | src/mainwindow.cpp:152-167 | a press either changes nothing and emits nothing, or emits exactly strokeStarted and starts a gesture with both points at the same place |
| Gesture.OnMoveAsWritten | src/mainwindow.cpp:169-206 | as written, a move never changes the start point; it either does nothing or writes one segment followed by strokeFinished |
| Gesture.OnMove | src/mainwindow.cpp:169-206 | corrected: with no gesture under way a move does nothing; otherwise as written, and it never changes the start point |
| Gesture.OnReleaseAsWritten | src/mainwindow.cpp:208-250 | as written, without a target or for another button nothing happens; a left release always ends the gesture and ends with strokeFinished |
| Gesture.OnRelease | src/mainwindow.cpp:208-250 | corrected: as written, except that a shape is committed only while a gesture is under way |
| Gesture.React | src/mainwindow.cpp:152-250 | defined as dispatch of a press, move or release event to the corrected handlers; properties in PressStarts, WritesInsideGesture, StartOnlyByPress and CoherentPreserved |
| Gesture.ReactAsWritten | src/mainwindow.cpp:152-250 | defined as dispatch to the handlers as written; AsWrittenWritesWithoutStrokeStarted shows where it differs from React |
| Gesture.PressStarts | src/mainwindow.cpp:152-167 | a press never writes; it emits strokeStarted and starts the gesture at the mapped point exactly when it is a left press inside the target, and otherwise changes nothing |
| Gesture.ReleaseResets | src/mainwindow.cpp:208-250 | every left release with a target, inside the image or not, resets both points to (-1,-1) and emits strokeFinished |
| Gesture.NoTargetNoReaction | src/mainwindow.cpp:152-250 | without a target image every mouse event is ignored |
| Gesture.WritesInsideGesture | src/mainwindow.cpp:169-250 | with the corrected move and release handlers (see ## Findings), a write happens only during a gesture, on moves for brush and eraser and on release for shapes, and is followed by strokeFinished only |
| Gesture.StartOnlyByPress | src/mainwindow.cpp:152-167 | the gesture can start only by a press that emits exactly strokeStarted |
| Gesture.CoherentPreserved | src/mainwindow.cpp:152-250 | with the corrected move and release handlers (see ## Findings), every handler keeps startPoint and lastPoint set or reset together |
| Gesture.StrokeStartedPrecedesWrites | include/mainwindow.h:52-53 | in any sequence of mouse events from an idle canvas, every write comes after a strokeStarted of the same gesture |
| Gesture.AsWrittenWritesWithoutStrokeStarted | src/mainwindow.cpp:169-250 | as written, a press outside the image and a drag or release inside it write from (-1,-1) with no strokeStarted; the corrected handlers write nothing |
| CanvasWidget.Canvas.constructor | src/mainwindow.cpp:27-47 | a 1200x800 white composite, offset (0,0), no gesture, a black pen of width 6, not erasing, zoom 1, the brush |
| CanvasWidget.Canvas.SetCompositeImage | src/mainwindow.cpp:49-55 | only the composite changes |
| CanvasWidget.Canvas.SetPenColor | src/mainwindow.cpp:69 | the pen takes the colour and leaves eraser mode; nothing else changes |
| CanvasWidget.Canvas.SetPenWidth | src/mainwindow.cpp:70 | only the pen width changes |
| CanvasWidget.Canvas.SetEraserMode | src/mainwindow.cpp:71 | only eraser mode changes |
| CanvasWidget.Canvas.SetZoom | src/mainwindow.cpp:73-78 | a positive zoom is taken and anything else is ignored, so the zoom stays positive |
| CanvasWidget.Canvas.SetTool | src/mainwindow.cpp:80-87 | only the tool changes |
| CanvasWidget.Canvas.UpdateImageOffset | src/mainwindow.cpp:94-106 | for a non-empty composite the offset centres the zoomed image; an empty one changes nothing |
| CanvasWidget.Canvas.MousePressEvent | src/mainwindow.cpp:152-167 | only the gesture changes, as the press step says, and the signals are those of the press step |
| CanvasWidget.Canvas.MouseMoveEvent | src/mainwindow.cpp:169-206 | the gesture and the target image change as the corrected move step says, and nothing else changes |
| CanvasWidget.Canvas.MouseReleaseEvent | src/mainwindow.cpp:208-250 | the gesture and the target image change as the corrected release step says, and nothing else changes |
| Window.Decimal | src/mainwindow.cpp:558 | the layer number is written as a non-empty string of digits with no leading zero |
| Window.DecimalRoundTrip | src/mainwindow.cpp:558 | reading the numeral back gives the number |
| Window.LayerName | src/mainwindow.cpp:558 | a new layer is named "Layer " followed by the layer count in decimal |
| Window.LayerNameInjective | src/mainwindow.cpp:558 | layers added at different stack sizes get different names; names are not unique in general, since removing "Layer 1" from three layers and then adding one gives a second "Layer 2" |
| Window.UiRowToIndex | src/mainwindow.cpp:596-604 | the index maps back to the row, and it names a layer exactly when the row is one of the list's rows |
| Window.RemoveAt | src/mainwindow.cpp:582 | the element at k is gone, the others keep their order, and nothing else is lost |
| Window.MainWindow.constructor | src/mainwindow.cpp:276-353 | a white 1600x1200 background and a transparent "Layer 1" with empty histories, the top one active, a black brush of size 6, the composite shown |
| Window.MainWindow.CompositeLayers | src/mainwindow.cpp:606-616 | the loop hands the canvas the fold of `over` over all layers, bottom to top; with no layers nothing changes |
| Window.MainWindow.PushUndoForActiveLayer | src/mainwindow.cpp:618-627 | the active layer becomes its push, the others are untouched; with no active layer nothing changes |
| Window.MainWindow.ClearRedoForActiveLayer | src/mainwindow.cpp:629-633 | only the active layer's redo stack is emptied |
| Window.MainWindow.OnStrokeStarted | src/mainwindow.cpp:635-640 | the active layer takes a snapshot and forgets its redo stack; no other layer changes and the invariant is kept |
| Window.MainWindow.OnStrokeFinished | src/mainwindow.cpp:642-646 | the canvas shows the composite of the current layers |
| Window.MainWindow.Undo | src/mainwindow.cpp:648-662 | only the active layer changes, by one undo step, and the composite follows |
| Window.MainWindow.Redo | src/mainwindow.cpp:664-677 | only the active layer changes, by one redo step, and the composite follows |
| Window.MainWindow.ClearCanvas | src/mainwindow.cpp:544-553 | the active layer is edited, undoably, to an all-transparent image of its size |
| Window.MainWindow.AddLayer | src/mainwindow.cpp:555-572 | a transparent layer of layer 0's size, named after the old count, goes on top and becomes active; the new composite is that layer over the old one |
| Window.MainWindow.RemoveLayer | src/mainwindow.cpp:574-594 | with one layer nothing changes; otherwise the active layer is removed, the others keep their order, and the top layer becomes active |
| Window.MainWindow.ActivateLayer | src/mainwindow.cpp:596-604 | the layer shown at the row becomes active; a row outside the list changes nothing |
| Window.MainWindow.Grayscale | src/mainwindow.cpp:782-800 | the active image is grayscaled and both of its stacks are left as they were |
| Window.MainWindow.InvertColors | src/mainwindow.cpp:802-819 | the active image is inverted and both of its stacks are left as they were |
| Window.MainWindow.FlipHorizontal | src/mainwindow.cpp:765-771 | the active image is mirrored left to right; no undo snapshot |
| Window.MainWindow.FlipVertical | src/mainwindow.cpp:773-779 | the active image is mirrored top to bottom; no undo snapshot |
| Window.MainWindow.RotateLeft | src/mainwindow.cpp:745-753 | the active image is rotated a quarter turn left; no undo snapshot |
| Window.MainWindow.RotateRight | src/mainwindow.cpp:755-763 | the active image is rotated a quarter turn right; no undo snapshot |
| Window.MainWindow.OpenFile | src/mainwindow.cpp:507-528 | a loaded image replaces the active image and both of its stacks are cleared; no image changes nothing |
| Window.MainWindow.SaveFile | src/mainwindow.cpp:530-542 | the image saved is the composite of all layers |
| Window.MainWindow.SelectBrush | src/mainwindow.cpp:679-686 | the brush tool with the brush colour and size, not erasing |
| Window.MainWindow.SelectEraser | src/mainwindow.cpp:688-694 | the eraser tool with the brush size, erasing |
| Window.MainWindow.SelectShapeTool | src/mainwindow.cpp:434-453 | only the tool changes, to the line, rectangle or circle |
| Window.MainWindow.SetColorFromButton | src/mainwindow.cpp:696-709 | a valid colour becomes the brush and pen colour and leaves eraser mode; otherwise nothing changes |
| Window.MainWindow.ChooseColor | src/mainwindow.cpp:711-719 | a chosen colour becomes the brush and pen colour and leaves eraser mode; a cancelled dialog changes nothing |
| Window.MainWindow.ChangeBrushSize | src/mainwindow.cpp:721-726 | the brush size and the pen width both become the new size |
| Window.MainWindow.HandleMousePress | src/mainwindow.cpp:343-344 | the gesture moves as the press step says, and the active layer takes a snapshot exactly when strokeStarted is emitted |
| Window.MainWindow.HandleMouseMove | src/mainwindow.cpp:343-344 | the gesture moves and the active image is drawn on as the move step says, and the composite follows |
| Window.MainWindow.HandleMouseRelease | src/mainwindow.cpp:343-344 | the gesture ends and a shape is committed to the active image as the release step says, and the composite follows |

## Left out

- Widget construction, menus, toolbar, the layer list widget, status-label texts and cursors are user-interface wiring. `activateLayer` is modelled from the row number it receives. The list's own item bookkeeping in `addLayer` and `removeLayer` is not modelled.
- File and colour dialogs, `QImage::load`/`save` and message boxes are I/O.
  - `OpenFile` takes the loaded image, or None when no file was chosen or it could not be read.
  - `SaveFile` returns the image that would be written.
  - `ChooseColor` and `SetColorFromButton` take the colour the dialog or the button supplies.
- `paintEvent`'s drawing and its unfinished dashed preview only display things. Only the offset it computes is modelled, as `UpdateImageOffset`.
- QPainter rasterisation (lines, rectangles, ellipses, clearing with `CompositionMode_Clear`) and `drawImage` blending belong to Qt. They are the opaque functions `paint` and `over`, and anti-aliasing is not modelled. The model does not assume that `paint` keeps an image's size.
- The weights of `qGray` are not visible here. It is the opaque function `gray`, used with results in 0..255.
- `QTransform` rotation and `mirrored` belong to Qt. They are modelled as exact quarter turns and reflections of the pixel grid.
- Geometry.RoundTripWithinOne: it is stated only for a zoom of at least 1. `zoomOut` allows zooms down to 0.2, where several pixels share one widget position and the round trip can move a pixel by more than one (`Geometry.ZoomOutMergesPixels`).
- `zoomIn` and `zoomOut` step a `double` by 0.1, which is floating-point accumulation. They and the window's `zoomFactor` are not modelled. `setZoom` is.
- `ensureTargetSizeMatchesWidget`, `resizeEvent` and `setTargetImage` are not modelled. The canvas always draws into the active layer's image. The enlargement of a target smaller than the composite is not represented.
- `targetImg` is a pointer, and the model does not capture it. Each handler receives the active image and returns the drawn image, which the window stores back. Aliasing of that pointer, and the in-place update of the layer's buffer, are not modelled.
- Pixel formats are not modelled: `convertToFormat`, and premultiplied versus straight alpha. Samples are four straight channels in 0..255.
- `double` arithmetic in `widgetToImage` and `paintEvent` is modelled as exact real arithmetic. The `isfinite` test is vacuous there, since the zoom is kept positive. Results at rounding boundaries may differ from IEEE doubles.
- `int` coordinates, pen widths and brush sizes are unbounded integers. 32-bit overflow is not modelled.
- `QRect::normalized` is modelled as ordering the two corners by minimum and maximum.
- Signal-slot dispatch is not modelled. The `Handle*` methods call the connected slots directly, in emission order.
- Gesture.StrokeStartedPrecedesWrites: it proves that a strokeStarted of the same gesture comes before each write. It does not prove that the undo snapshot from that strokeStarted is still the newest undo entry at the write, because an undo or a layer switch can occur in between.

## Findings

| source | as written | input that shows it | evidently intended | confidence | as-written member | corrected member |
|---|---|---|---|---|---|---|
| src/mainwindow.cpp:169-250 | `mouseMoveEvent` and `mouseReleaseEvent` draw from `lastPoint`/`startPoint` without checking that a press set them | brush tool, zoom 1, a 10x10 target centred in a 210x210 widget, so the offset is (100,100): left press in the margin at widget (50,50), which maps to (-1,-1), then a drag to (103,103), which maps to (3,3). It draws a segment from (-1,-1) to (3,3) and never emits strokeStarted, so no undo snapshot is taken. With the rectangle tool, a release at (103,103) commits the rectangle (-1,-1)-(3,3) the same way | moves and shape commits are ignored while no gesture is under way (`Gesture.OnMove`, `Gesture.OnRelease`), so every write follows a strokeStarted | not executed | Gesture.AsWrittenWritesWithoutStrokeStarted | Gesture.StrokeStartedPrecedesWrites |
| src/mainwindow.cpp:812-814 | `QColor c(scan[x])` uses the QColor(QRgb) constructor, which ignores the stored alpha and makes the colour opaque, so `c.alpha()` is always 255 | Invert on a fully transparent sample (0,0,0,0) gives opaque white, and a second Invert gives opaque black, not the original sample | the stored alpha is kept, so Invert is an involution | not executed | Filters.InvertAsWrittenMakesOpaque | Filters.InvertedTwice |
| src/mainwindow.cpp:793-795 | the same QColor(QRgb) constructor in Grayscale | Grayscale on a fully transparent sample gives an opaque grey | the stored alpha is kept | not executed | Filters.GrayAsWrittenMakesOpaque | Filters.Grayscaled |
