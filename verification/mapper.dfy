/** The generator record and the pixel-to-plane coordinate mapper
    (`fractGen`, `getNewFractGen` and `pixToCoord` in Generator.go). Plane
    coordinates are exact reals standing in for float64. */
module Mapper {
  import opened Colour

  /** The render parameters and the framebuffer. `scaler` is fixed at
      construction; `fractImg` is the width*height framebuffer in row-major
      order, pixel (x, y) at index y*width + x. */
  datatype FractGen = FractGen(
    fractImg: seq<Rgba>,
    xPos: real,
    yPos: real,
    zoom: real,
    scaler: real,
    width: int,
    height: int,
    routines: int,
    iterationCap: int)

  /** A position: in pixel space (possibly fractional) or in the plane. */
  datatype Point = Point(x: real, y: real)

  /** Number of pixels in the frame. */
  function Size(g: FractGen): int {
    g.width * g.height
  }

  /** The plane can be sampled: both divisors of the mapper are nonzero. */
  predicate Mappable(g: FractGen) {
    g.scaler != 0.0 && g.zoom != 0.0
  }

  /** Builds a generator with a blank framebuffer; the scale is the shorter of
      the two frame dimensions, the height when they are equal. */
  function NewFractGen(width: int, height: int, routines: int, iterationCap: int,
                       xPos: real, yPos: real, zoom: real): (g: FractGen)
    requires width >= 0 && height >= 0
    ensures g.width == width && g.height == height
    ensures g.routines == routines && g.iterationCap == iterationCap
    ensures g.xPos == xPos && g.yPos == yPos && g.zoom == zoom
    ensures g.scaler <= width as real && g.scaler <= height as real
    ensures g.scaler == width as real || g.scaler == height as real
    ensures |g.fractImg| == width * height
    ensures forall i :: 0 <= i < |g.fractImg| ==> g.fractImg[i] == Black
  {
    var scaler := if width < height then width as real else height as real;
    FractGen(seq(width * height, _ => Black), xPos, yPos, zoom, scaler,
             width, height, routines, iterationCap)
  }

  /** Maps a (possibly fractional) pixel position to plane coordinates. */
  function PixToCoord(g: FractGen, xPix: real, yPix: real): Point
    requires Mappable(g)
  {
    Point((xPix - g.width as real / 2.0) * ((2.0 / g.scaler) / g.zoom) + g.xPos,
          (yPix - g.height as real / 2.0) * ((2.0 / g.scaler) / g.zoom) + g.yPos)
  }

  /** The mapper reads only the frame size, the scale, the zoom and the
      centre: generators that agree on those map every pixel alike. */
  lemma PixToCoordReadsView(g: FractGen, h: FractGen, xPix: real, yPix: real)
    requires Mappable(g)
    requires h.width == g.width && h.height == g.height && h.scaler == g.scaler
    requires h.zoom == g.zoom && h.xPos == g.xPos && h.yPos == g.yPos
    ensures Mappable(h) && PixToCoord(h, xPix, yPix) == PixToCoord(g, xPix, yPix)
  {
    var k := (2.0 / g.scaler) / g.zoom;
    assert (2.0 / h.scaler) / h.zoom == k;
    var p := PixToCoord(h, xPix, yPix);
    assert p.x == (xPix - g.width as real / 2.0) * k + g.xPos;
    assert p.y == (yPix - g.height as real / 2.0) * k + g.yPos;
  }

  /** Plane distance spanned by one pixel: a 2-unit span covers `scaler`
      pixels at zoom 1, and proportionally fewer plane units as zoom grows. */
  function PixelSpan(g: FractGen): real
    requires Mappable(g)
  {
    2.0 / (g.scaler * g.zoom)
  }

  /** Inverse of the mapper: the pixel position a plane point falls on. */
  function CoordToPix(g: FractGen, x: real, y: real): Point
    requires Mappable(g)
  {
    Point((x - g.xPos) * g.scaler * g.zoom / 2.0 + g.width as real / 2.0,
          (y - g.yPos) * g.scaler * g.zoom / 2.0 + g.height as real / 2.0)
  }

  /** The frame centre maps exactly onto (xPos, yPos), whatever the zoom. */
  lemma CentreMapsToPos(g: FractGen)
    requires Mappable(g)
    ensures PixToCoord(g, g.width as real / 2.0, g.height as real / 2.0) == Point(g.xPos, g.yPos)
  {
  }

  /** The mapper's per-axis slope `(2/scaler)/zoom` is the pixel span. */
  lemma SlopeIsPixelSpan(g: FractGen)
    requires Mappable(g)
    ensures (2.0 / g.scaler) / g.zoom == PixelSpan(g)
  {
  }

  /** The mapper is affine on both axes with slope PixelSpan: moving (dx, dy)
      pixels moves (dx*span, dy*span) in the plane. */
  lemma PixToCoordAffine(g: FractGen, xPix: real, yPix: real, dx: real, dy: real)
    requires Mappable(g)
    ensures PixToCoord(g, xPix + dx, yPix + dy).x == PixToCoord(g, xPix, yPix).x + dx * PixelSpan(g)
    ensures PixToCoord(g, xPix + dx, yPix + dy).y == PixToCoord(g, xPix, yPix).y + dy * PixelSpan(g)
  {
  }

  /** Doubling the zoom halves the plane distance between the images of two
      pixels, on both axes. */
  lemma DoubleZoomHalvesDistance(g: FractGen, x1: real, y1: real, x2: real, y2: real)
    requires Mappable(g)
    ensures Mappable(g.(zoom := 2.0 * g.zoom))
    ensures var h := g.(zoom := 2.0 * g.zoom);
      && PixToCoord(h, x2, y2).x - PixToCoord(h, x1, y1).x
         == (PixToCoord(g, x2, y2).x - PixToCoord(g, x1, y1).x) / 2.0
      && PixToCoord(h, x2, y2).y - PixToCoord(h, x1, y1).y
         == (PixToCoord(g, x2, y2).y - PixToCoord(g, x1, y1).y) / 2.0
  {
  }

  /** Mapping a pixel to the plane and back returns the pixel. */
  lemma CoordToPixInvertsPixToCoord(g: FractGen, xPix: real, yPix: real)
    requires Mappable(g)
    ensures var p := PixToCoord(g, xPix, yPix); CoordToPix(g, p.x, p.y) == Point(xPix, yPix)
  {
  }

  /** Mapping a plane point to a pixel position and back returns the point,
      so the mapper is a bijection between pixel space and the plane. */
  lemma PixToCoordInvertsCoordToPix(g: FractGen, x: real, y: real)
    requires Mappable(g)
    ensures var p := CoordToPix(g, x, y); PixToCoord(g, p.x, p.y) == Point(x, y)
  {
  }
}
