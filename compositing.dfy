/** MainWindow::compositeLayers as a fold: layer 0's image is the base and
    every higher layer is painted over the result in index order.  The
    painting itself (QPainter::drawImage with source-over) is the opaque
    function `over(below, above)`. */
module Compositing {
  import opened Imaging
  import opened History

  function CompositeOf(layers: seq<Layer>, over: (Image, Image) -> Image): Image
    requires |layers| >= 1
    decreases |layers|
  {
    if |layers| == 1 then layers[0].image
    else over(CompositeOf(layers[..|layers| - 1], over), Last(layers).image)
  }

  /** Two layer stacks show the same images in the same order. */
  predicate SameImages(a: seq<Layer>, b: seq<Layer>)
  {
    |a| == |b| && forall i :: 0 <= i < |a| ==> a[i].image == b[i].image
  }

  /** A layer added on top is painted last, over the composite of those below it. */
  lemma {:induction false} CompositeOnTop(layers: seq<Layer>, top: Layer, over: (Image, Image) -> Image)
    requires |layers| >= 1
    ensures CompositeOf(layers + [top], over) == over(CompositeOf(layers, over), top.image)
  {
    assert (layers + [top])[..|layers|] == layers;
  }

  /** The composite of one layer is its image. */
  lemma CompositeOfOne(l: Layer, over: (Image, Image) -> Image)
    ensures CompositeOf([l], over) == l.image
  {
  }

  /** The composite depends on the layers' images only: names and undo/redo
      histories play no part. */
  lemma {:induction false} CompositeOfSameImages(a: seq<Layer>, b: seq<Layer>, over: (Image, Image) -> Image)
    requires |a| >= 1 && SameImages(a, b)
    ensures CompositeOf(a, over) == CompositeOf(b, over)
    decreases |a|
  {
    if |a| > 1 {
      CompositeOfSameImages(a[..|a| - 1], b[..|b| - 1], over);
    }
  }

  /** One more turn of compositeLayers' loop paints layer `i` over the
      composite of the layers below it. */
  lemma CompositeStep(layers: seq<Layer>, i: nat, over: (Image, Image) -> Image)
    requires 1 <= i < |layers|
    ensures CompositeOf(layers[..i + 1], over) == over(CompositeOf(layers[..i], over), layers[i].image)
  {
    assert layers[..i + 1][..i] == layers[..i];
  }
}
