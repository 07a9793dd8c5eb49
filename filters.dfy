/** The per-pixel filters of the Filters menu: Invert and Grayscale.  Both
    rewrite the active layer's buffer scanline by scanline in place.

    The loops read each stored sample through `QColor c(scan[x])`.  That
    QColor constructor takes a QRgb but ignores its alpha and makes the
    colour opaque, so the `c.alpha()` the code passes on is always 255.  The
    functions suffixed `AsWritten` model that; the model of the editor uses
    the intended per-pixel maps, which keep the stored alpha. */
module Filters {
  import opened Imaging

  /** Invert as intended: every colour channel `c` becomes `255 - c`, alpha is kept. */
  function InvertPixel(p: Pixel): (q: Pixel)
    ensures q.r + p.r == 255 && q.g + p.g == 255 && q.b + p.b == 255 && q.a == p.a
  {
    Pixel(255 - p.r, 255 - p.g, 255 - p.b, p.a)
  }

  /** Invert as written: the colour channels are inverted, alpha becomes 255. */
  function InvertPixelAsWritten(p: Pixel): (q: Pixel)
    ensures q.r + p.r == 255 && q.g + p.g == 255 && q.b + p.b == 255 && q.a == 255
  {
    Pixel(255 - p.r, 255 - p.g, 255 - p.b, 255)
  }

  /** Grayscale as intended: r, g and b all become the grey level `gray`
      (qGray, a function of the three colour channels) computes; alpha is kept. */
  function GrayPixel(p: Pixel, gray: (Channel, Channel, Channel) -> Channel): (q: Pixel)
    ensures q.r == q.g == q.b == gray(p.r, p.g, p.b) && q.a == p.a
  {
    var v := gray(p.r, p.g, p.b);
    Pixel(v, v, v, p.a)
  }

  /** Grayscale as written: alpha becomes 255. */
  function GrayPixelAsWritten(p: Pixel, gray: (Channel, Channel, Channel) -> Channel): (q: Pixel)
    ensures q.r == q.g == q.b == gray(p.r, p.g, p.b) && q.a == 255
  {
    var v := gray(p.r, p.g, p.b);
    Pixel(v, v, v, 255)
  }

  /** The inverted image. */
  function Inverted(img: Image): (out: Image)
    ensures out.width == img.width && out.height == img.height
    ensures forall y, x :: 0 <= y < img.height && 0 <= x < img.width ==>
      var p, q := img.rows[y][x], out.rows[y][x];
      q.r == 255 - p.r && q.g == 255 - p.g && q.b == 255 - p.b && q.a == p.a
  {
    MapPixels(img, InvertPixel)
  }

  /** The grayscaled image. */
  function Grayscaled(img: Image, gray: (Channel, Channel, Channel) -> Channel): (out: Image)
    ensures out.width == img.width && out.height == img.height
    ensures forall y, x :: 0 <= y < img.height && 0 <= x < img.width ==>
      var p, q := img.rows[y][x], out.rows[y][x];
      q.r == q.g == q.b == gray(p.r, p.g, p.b) && q.a == p.a
  {
    MapPixels(img, p => GrayPixel(p, gray))
  }

  /** Inverting twice gives the image back. */
  lemma {:induction false} InvertedTwice(img: Image)
    ensures Inverted(Inverted(img)) == img
  {
    SamePixels(Inverted(Inverted(img)), img);
  }

  /** A grayscaled image has no colour: applying Grayscale again with any
      grey level that maps a grey (v, v, v) to v changes nothing. */
  lemma {:induction false} GrayscaledIsFixed(img: Image, gray: (Channel, Channel, Channel) -> Channel)
    requires forall v: Channel :: gray(v, v, v) == v
    ensures Grayscaled(Grayscaled(img, gray), gray) == Grayscaled(img, gray)
  {
    var once := Grayscaled(img, gray);
    var twice := Grayscaled(once, gray);
    forall y, x | 0 <= y < img.height && 0 <= x < img.width
      ensures twice.rows[y][x] == once.rows[y][x]
    {
      var q := once.rows[y][x];
      assert gray(q.r, q.g, q.b) == gray(q.r, q.r, q.r) == q.r;
    }
    SamePixels(twice, once);
  }

  /** As written, Invert turns a fully transparent sample into opaque white,
      and inverting twice does not give the sample back. */
  lemma InvertAsWrittenMakesOpaque()
    ensures InvertPixelAsWritten(TRANSPARENT) == WHITE
    ensures InvertPixelAsWritten(InvertPixelAsWritten(TRANSPARENT)) != TRANSPARENT
  {
  }

  /** As written, Grayscale makes a fully transparent sample opaque, whatever grey level it computes. */
  lemma GrayAsWrittenMakesOpaque(gray: (Channel, Channel, Channel) -> Channel)
    ensures GrayPixelAsWritten(TRANSPARENT, gray).a == 255 != TRANSPARENT.a
  {
  }

  /** The nested y/x loop of MainWindow::grayscale and MainWindow::invertColors:
      sample `f` is applied to every sample, one scanline at a time. */
  method ApplyPerPixel(img: Image, f: Pixel -> Pixel) returns (out: Image)
    ensures out == MapPixels(img, f)
  {
    var rows := img.rows;
    var y := 0;
    while y < img.height
      invariant 0 <= y <= img.height
      invariant |rows| == img.height
      invariant forall j :: 0 <= j < img.height ==> |rows[j]| == img.width
      invariant forall j, i :: 0 <= j < y && 0 <= i < img.width ==> rows[j][i] == f(img.rows[j][i])
      invariant forall j :: y <= j < img.height ==> rows[j] == img.rows[j]
    {
      var scan := rows[y];
      var x := 0;
      while x < img.width
        invariant 0 <= x <= img.width
        invariant |scan| == img.width
        invariant forall i :: 0 <= i < x ==> scan[i] == f(img.rows[y][i])
        invariant forall i :: x <= i < img.width ==> scan[i] == img.rows[y][i]
      {
        scan := scan[x := f(scan[x])];
        x := x + 1;
      }
      rows := rows[y := scan];
      y := y + 1;
    }
    out := Raster(img.width, img.height, rows);
    SamePixels(out, MapPixels(img, f));
  }
}
