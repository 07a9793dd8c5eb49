/** Points, zoom and the mapping between widget and image coordinates. */
module Geometry {

  /** A QPoint. */
  datatype Point = Point(x: int, y: int)

  /** A QSize. */
  datatype Size = Size(width: int, height: int)

  /** The sentinel QPoint(-1, -1): "no point" for the mapping and for an idle gesture. */
  const UNMAPPED := Point(-1, -1)

  /** The canvas zoom factor; Canvas::setZoom refuses anything not positive. */
  type Zoom = z: real | z > 0.0 witness 1.0

  /** C++ `int(v)` for a double: truncation toward zero. */
  function Trunc(v: real): (n: int)
    ensures v >= 0.0 ==> n as real <= v < n as real + 1.0
    ensures v < 0.0 ==> n as real - 1.0 < v <= n as real
  {
    if v >= 0.0 then v.Floor else -((-v).Floor)
  }

  /** C++ `a / 2` on int: the quotient truncated toward zero. */
  function Half(a: int): (q: int)
    ensures a >= 0 ==> 0 <= a - 2 * q <= 1
    ensures a < 0 ==> -1 <= a - 2 * q <= 0
  {
    if a >= 0 then a / 2 else -((-a) / 2)
  }

  /** The image-space coordinate, before rounding, of widget coordinate `p`. */
  function Unzoom(p: int, offset: int, zoom: Zoom): real
  {
    (p as real - offset as real) / zoom
  }

  /** `n` is the nearest integer to `v`, halves rounded up: floor(v + 0.5). */
  ghost predicate RoundsTo(v: real, n: int)
  {
    n as real - 0.5 <= v < n as real + 0.5
  }

  /** `int(v + 0.5)`: for v >= 0 the nearest integer, halves rounded up. */
  function Round(v: real): (n: int)
    ensures v >= 0.0 ==> RoundsTo(v, n)
  {
    Trunc(v + 0.5)
  }

  /** `v` falls inside [0, len). */
  predicate InRange(v: real, len: int)
  {
    0.0 <= v < len as real
  }

  /** Canvas::widgetToImage: subtract the image offset, divide by the zoom,
      refuse anything outside [0, w) x [0, h), then round half up.  The bounds
      are tested before rounding, so a coordinate can come out equal to `w` or `h`. */
  function WidgetToImage(p: Point, offset: Point, zoom: Zoom, imgSize: Size): (q: Point)
    ensures var ix, iy := Unzoom(p.x, offset.x, zoom), Unzoom(p.y, offset.y, zoom);
      && (q == UNMAPPED <==> !(InRange(ix, imgSize.width) && InRange(iy, imgSize.height)))
      && (q != UNMAPPED ==>
           RoundsTo(ix, q.x) && RoundsTo(iy, q.y) &&
           0 <= q.x <= imgSize.width && 0 <= q.y <= imgSize.height)
  {
    var ix := Unzoom(p.x, offset.x, zoom);
    var iy := Unzoom(p.y, offset.y, zoom);
    if !InRange(ix, imgSize.width) || !InRange(iy, imgSize.height) then UNMAPPED
    else Point(Round(ix), Round(iy))
  }

  /** A widget point that maps into the last pixel column's right half
      rounds to the column index `width` itself. */
  lemma MappingCanReachWidth()
    ensures WidgetToImage(Point(3, 0), Point(0, 0), 4.0, Size(1, 1)) == Point(1, 0)
  {
    assert Unzoom(3, 0, 4.0) == 0.75;
    assert Unzoom(0, 0, 4.0) == 0.0;
  }

  /** One coordinate of the imageToWidget lambda: scale, add the offset, truncate. */
  function ToWidget(i: int, offset: int, zoom: Zoom): (w: int)
    ensures -1.0 < w as real - (offset as real + i as real * zoom) < 1.0
  {
    Trunc(offset as real + i as real * zoom)
  }

  /** The imageToWidget lambda of Canvas::paintEvent. */
  function ImageToWidget(ip: Point, offset: Point, zoom: Zoom): Point
  {
    Point(ToWidget(ip.x, offset.x, zoom), ToWidget(ip.y, offset.y, zoom))
  }

  /** For a whole-number zoom, mapping an image pixel to the widget and back
      gives the same pixel. */
  lemma {:induction false} RoundTripWholeZoom(ip: Point, offset: Point, k: nat, imgSize: Size)
    requires k >= 1
    requires 0 <= ip.x < imgSize.width && 0 <= ip.y < imgSize.height
    ensures WidgetToImage(ImageToWidget(ip, offset, k as real), offset, k as real, imgSize) == ip
  {
    WholeCoordinate(ip.x, offset.x, k, imgSize.width);
    WholeCoordinate(ip.y, offset.y, k, imgSize.height);
  }

  /** One coordinate of the whole-zoom round trip. */
  lemma WholeCoordinate(i: int, offset: int, k: nat, len: int)
    requires k >= 1 && 0 <= i < len
    ensures var v := Unzoom(ToWidget(i, offset, k as real), offset, k as real);
      InRange(v, len) && Round(v) == i
  {
    assert offset as real + i as real * k as real == (offset + i * k) as real;
    assert ToWidget(i, offset, k as real) == offset + i * k;
    assert (offset + i * k) as real - offset as real == i as real * k as real;
    assert Unzoom(offset + i * k, offset, k as real) == i as real;
    assert (i as real + 0.5).Floor == i;
  }

  /** For a zoom of at least 1, mapping a pixel inside the image to the widget
      and back lands inside the image again, within one of that pixel in each
      coordinate. */
  lemma {:induction false} RoundTripWithinOne(ip: Point, offset: Point, zoom: Zoom, imgSize: Size)
    requires zoom >= 1.0
    requires 0 <= ip.x < imgSize.width && 0 <= ip.y < imgSize.height
    ensures var q := WidgetToImage(ImageToWidget(ip, offset, zoom), offset, zoom, imgSize);
      q != UNMAPPED && -1 <= q.x - ip.x <= 1 && -1 <= q.y - ip.y <= 1
  {
    CoordinateWithinOne(ip.x, offset.x, zoom, imgSize.width);
    CoordinateWithinOne(ip.y, offset.y, zoom, imgSize.height);
  }

  /** One coordinate of that round trip: truncation moves the widget position
      by less than one toward the offset side, so unscaling moves the
      coordinate by less than one and stays inside [0, len). */
  lemma CoordinateWithinOne(i: int, offset: int, zoom: Zoom, len: int)
    requires zoom >= 1.0 && 0 <= i < len
    ensures var v := Unzoom(ToWidget(i, offset, zoom), offset, zoom);
      InRange(v, len) && -1 <= Round(v) - i <= 1
  {
    var x := offset as real + i as real * zoom;
    var t := ToWidget(i, offset, zoom);
    var d := t as real - x;
    var u := Unzoom(t, offset, zoom);
    assert u == (d + i as real * zoom) / zoom;
    assert u == i as real + d / zoom;
    var e := d / zoom;
    assert e * zoom == d;
    if x >= 0.0 {
      assert -1.0 < d <= 0.0;
      assert e <= 0.0 && e * zoom <= e;
      if i == 0 {
        assert x == offset as real;
        assert d == 0.0;
      }
    } else {
      assert 0.0 <= d < 1.0;
      assert e >= 0.0 && e <= e * zoom;
    }
    assert -1.0 < e < 1.0;
    assert 0.0 <= u < len as real;
  }

  /** Below a zoom of 1 several pixels share one widget column, so the round
      trip loses them: at the smallest zoom the window allows, 0.2, pixel
      (4, 0) comes back as pixel (0, 0). */
  lemma ZoomOutMergesPixels()
    ensures WidgetToImage(ImageToWidget(Point(4, 0), Point(0, 0), 0.2), Point(0, 0), 0.2, Size(10, 10)) == Point(0, 0)
  {
    assert ToWidget(4, 0, 0.2) == 0;
    assert ToWidget(0, 0, 0.2) == 0;
    assert Unzoom(0, 0, 0.2) == 0.0;
    assert Round(0.0) == 0;
  }

  /** The centring done by Canvas::paintEvent along one axis: the displayed
      extent is `int(len * zoom)`, the offset half the space that is left. */
  function CentredOffset(widgetLen: int, imageLen: int, zoom: Zoom): (off: int)
    ensures var spare := widgetLen - Trunc(imageLen as real * zoom);
      && -1 <= spare - 2 * off <= 1
      && (spare >= 0 ==> 0 <= off && off + Trunc(imageLen as real * zoom) <= widgetLen)
  {
    Half(widgetLen - Trunc(imageLen as real * zoom))
  }
}
