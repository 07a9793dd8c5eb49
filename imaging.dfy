/** Pixel buffers.  A QImage in Format_ARGB32_Premultiplied is a grid of
    32-bit samples, one scanline per row; the model keeps the four stored
    8-bit channels of every sample and the grid's dimensions.  Images are
    values: assigning or copying one (QImage::copy) yields an independent
    snapshot. */
module Imaging {

  /** One stored 8-bit channel. */
  type Channel = c: int | 0 <= c < 256

  /** One stored sample, channel by channel. */
  datatype Pixel = Pixel(r: Channel, g: Channel, b: Channel, a: Channel)

  const TRANSPARENT := Pixel(0, 0, 0, 0)   // Qt::transparent
  const WHITE := Pixel(255, 255, 255, 255) // Qt::white
  const BLACK := Pixel(0, 0, 0, 255)       // Qt::black

  datatype Raster = Raster(width: nat, height: nat, rows: seq<seq<Pixel>>)

  /** A raster is an image when it has `height` scanlines of `width` samples. */
  predicate Rectangular(r: Raster)
  {
    |r.rows| == r.height && forall y :: 0 <= y < |r.rows| ==> |r.rows[y]| == r.width
  }

  type Image = r: Raster | Rectangular(r) witness Raster(0, 0, [])

  /** A `w` x `h` image every sample of which is `p` (QImage(w, h) followed by fill(p)). */
  function Filled(w: nat, h: nat, p: Pixel): (img: Image)
    ensures img.width == w && img.height == h
    ensures forall y, x :: 0 <= y < h && 0 <= x < w ==> img.rows[y][x] == p
  {
    Raster(w, h, seq(h, _ => seq(w, _ => p)))
  }

  /** The image obtained by replacing every sample `p` of `img` by `f(p)`. */
  function MapPixels(img: Image, f: Pixel -> Pixel): (out: Image)
    ensures out.width == img.width && out.height == img.height
    ensures forall y, x :: 0 <= y < img.height && 0 <= x < img.width ==>
      out.rows[y][x] == f(img.rows[y][x])
  {
    Raster(img.width, img.height,
      seq(img.height, y requires 0 <= y < img.height =>
        seq(img.width, x requires 0 <= x < img.width => f(img.rows[y][x]))))
  }

  /** Two images are equal when their dimensions and all their samples agree. */
  lemma {:induction false} SamePixels(a: Image, b: Image)
    requires a.width == b.width && a.height == b.height
    requires forall y, x :: 0 <= y < a.height && 0 <= x < a.width ==> a.rows[y][x] == b.rows[y][x]
    ensures a == b
  {
    forall y | 0 <= y < a.height
      ensures a.rows[y] == b.rows[y]
    {
      assert |a.rows[y]| == |b.rows[y]| == a.width;
      forall x | 0 <= x < a.width
        ensures a.rows[y][x] == b.rows[y][x]
      {
      }
    }
    assert a.rows == b.rows;
  }

  /** QImage::mirrored(true, false): left and right are exchanged. */
  function MirroredHorizontally(img: Image): (out: Image)
    ensures out.width == img.width && out.height == img.height
    ensures forall y, x :: 0 <= y < img.height && 0 <= x < img.width ==>
      out.rows[y][x] == img.rows[y][img.width - 1 - x]
  {
    Raster(img.width, img.height,
      seq(img.height, y requires 0 <= y < img.height =>
        seq(img.width, x requires 0 <= x < img.width => img.rows[y][img.width - 1 - x])))
  }

  /** QImage::mirrored(false, true): top and bottom are exchanged. */
  function MirroredVertically(img: Image): (out: Image)
    ensures out.width == img.width && out.height == img.height
    ensures forall y, x :: 0 <= y < img.height && 0 <= x < img.width ==>
      out.rows[y][x] == img.rows[img.height - 1 - y][x]
  {
    Raster(img.width, img.height,
      seq(img.height, y requires 0 <= y < img.height =>
        seq(img.width, x requires 0 <= x < img.width => img.rows[img.height - 1 - y][x])))
  }

  /** A quarter turn clockwise on screen (QTransform::rotate(90)): the
      sample at (x, y) moves to (height - 1 - y, x), so the dimensions swap. */
  function RotatedRight(img: Image): (out: Image)
    ensures out.width == img.height && out.height == img.width
    ensures forall y, x :: 0 <= y < img.height && 0 <= x < img.width ==>
      out.rows[x][img.height - 1 - y] == img.rows[y][x]
  {
    Raster(img.height, img.width,
      seq(img.width, y requires 0 <= y < img.width =>
        seq(img.height, x requires 0 <= x < img.height => img.rows[img.height - 1 - x][y])))
  }

  /** A quarter turn anticlockwise on screen (QTransform::rotate(-90)): the
      sample at (x, y) moves to (y, width - 1 - x). */
  function RotatedLeft(img: Image): (out: Image)
    ensures out.width == img.height && out.height == img.width
    ensures forall y, x :: 0 <= y < img.height && 0 <= x < img.width ==>
      out.rows[img.width - 1 - x][y] == img.rows[y][x]
  {
    Raster(img.height, img.width,
      seq(img.width, y requires 0 <= y < img.width =>
        seq(img.height, x requires 0 <= x < img.height => img.rows[x][img.width - 1 - y])))
  }

  /** Mirroring twice in the same direction gives the image back. */
  lemma {:induction false} MirrorInvolutions(img: Image)
    ensures MirroredHorizontally(MirroredHorizontally(img)) == img
    ensures MirroredVertically(MirroredVertically(img)) == img
  {
    SamePixels(MirroredHorizontally(MirroredHorizontally(img)), img);
    SamePixels(MirroredVertically(MirroredVertically(img)), img);
  }

  /** Rotating left undoes rotating right, and the other way round. */
  lemma {:induction false} RotationsInverse(img: Image)
    ensures RotatedLeft(RotatedRight(img)) == img
    ensures RotatedRight(RotatedLeft(img)) == img
  {
    var a := RotatedLeft(RotatedRight(img));
    forall y, x | 0 <= y < img.height && 0 <= x < img.width
      ensures a.rows[y][x] == img.rows[y][x]
    {
      assert a.rows[y][x] == RotatedRight(img).rows[x][img.height - 1 - y];
    }
    SamePixels(a, img);
    var b := RotatedRight(RotatedLeft(img));
    forall y, x | 0 <= y < img.height && 0 <= x < img.width
      ensures b.rows[y][x] == img.rows[y][x]
    {
      assert b.rows[y][x] == RotatedLeft(img).rows[img.width - 1 - x][y];
    }
    SamePixels(b, img);
  }
}
