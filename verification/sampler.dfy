/** The parallel sampler/reducer of Generator.go: `generate` fans the frame
    out to `routines` workers, and each worker (`genRoutine`) walks its
    stride of pixel indices, averages samples*samples point-function values
    per pixel and writes the mean into the framebuffer.

    Workers are run one after another, in any order; since they write
    disjoint pixels and each pixel's value depends only on its own index,
    the framebuffer afterwards is the same whatever the order and whatever
    the number of workers. */
module Sampler {
  import opened Colour
  import opened Mapper
  import opened Offsets
  import opened Partition

  /** The point function: plane coordinates and the iteration cap to a colour. */
  type PointFunc = (real, real, int) -> Rgba

  /** The generator can render: non-negative dimensions, a framebuffer of
      width*height pixels, and a usable mapper whenever there is a pixel. */
  predicate Renderable(g: FractGen) {
    && g.width >= 0 && g.height >= 0
    && |g.fractImg| == Size(g)
    && (g.width >= 1 && g.height >= 1 ==> Mappable(g))
  }

  /** A freshly built generator is renderable, which is what `Generate`
      needs of it once there is a worker, exactly when the zoom is nonzero
      or the frame has no pixel: the scale of a non-empty frame is at least
      one, so only the zoom can make the mapper divide by zero. With a
      non-negative worker count on top, it meets `Generate`'s requirements
      whatever the number of workers. */
  lemma NewFractGenRenderable(width: int, height: int, routines: int, iterationCap: int,
                              xPos: real, yPos: real, zoom: real)
    requires width >= 0 && height >= 0
    ensures Renderable(NewFractGen(width, height, routines, iterationCap, xPos, yPos, zoom))
            <==> zoom != 0.0 || width == 0 || height == 0
    ensures var g := NewFractGen(width, height, routines, iterationCap, xPos, yPos, zoom);
            Renderable(g) && g.routines >= 0
            <==> routines >= 0 && (zoom != 0.0 || width == 0 || height == 0)
  {
  }

  /** The point-function value for sub-sample (xs, ys) of pixel (xPix, yPix). */
  function SampleAt(g: FractGen, f: PointFunc, n: int, xPix: int, yPix: int, xs: int, ys: int): Rgba
    requires Mappable(g) && n >= 1
  {
    var p := PixToCoord(g, xPix as real + Offset(xs, n), yPix as real + Offset(ys, n));
    f(p.x, p.y, g.iterationCap)
  }

  /** All n*n samples of a pixel, x sub-sample major, as the nested loops
      take them: sample j is sub-sample (j / n, j % n). */
  function Samples(g: FractGen, f: PointFunc, n: int, xPix: int, yPix: int): seq<Rgba>
    requires Mappable(g) && n >= 0
  {
    if n == 0 then []
    else seq(n * n, j requires 0 <= j < n * n => SampleAt(g, f, n, xPix, yPix, j / n, j % n))
  }

  /** The value pixel (xPix, yPix) receives: the mean of its samples. */
  function PixelColour(g: FractGen, f: PointFunc, n: int, xPix: int, yPix: int): Rgba
    requires Mappable(g) && n >= 0
  {
    Mean(Samples(g, f, n, xPix, yPix))
  }

  /** The whole finished frame: at every index i, the colour of the pixel
      that i decodes to. It mentions neither the worker count nor any
      schedule. */
  function Image(g: FractGen, f: PointFunc, n: int): (img: seq<Rgba>)
    requires Renderable(g) && n >= 0
    ensures |img| == Size(g)
  {
    if g.width == 0 || g.height == 0 then []
    else seq(Size(g), i requires 0 <= i < Size(g) =>
               PixelColour(g, f, n, Decode(i, g.width).0, Decode(i, g.width).1))
  }

  /** Sample xs*n + ys of a pixel is sub-sample (xs, ys). */
  lemma SamplesEntry(g: FractGen, f: PointFunc, n: int, xPix: int, yPix: int, xs: int, ys: int)
    requires Mappable(g) && 0 <= xs < n && 0 <= ys < n
    ensures 0 <= xs * n + ys < n * n
    ensures Samples(g, f, n, xPix, yPix)[xs * n + ys] == SampleAt(g, f, n, xPix, yPix, xs, ys)
  {
    MulMonotone(n - 1, xs, n);
    assert (n - 1) * n == n * n - n;
    DivModUnique(xs * n + ys, n, xs, ys);
  }

  /** Adding the next sample divided by `d` to the divided sum of the
      samples before it gives the divided sum of one sample more. */
  lemma PrefixStep(cs: seq<Rgba>, j: int, d: real)
    requires 0 <= j < |cs| && d != 0.0
    ensures Add(Div(Sum(cs[..j]), d), Div(cs[j], d)) == Div(Sum(cs[..j + 1]), d)
  {
    assert cs[..j + 1] == cs[..j] + [cs[j]];
    RunningMeanStep(cs[..j], cs[j], d);
  }

  /** The colour the nested loops compute for sub-sample (xs, ys) from the
      offset table is sample xs*n + ys of the pixel. */
  lemma TableSample(g: FractGen, f: PointFunc, n: int, offsets: seq<real>,
                    xPix: int, yPix: int, xs: int, ys: int)
    requires Mappable(g) && 0 <= xs < n && 0 <= ys < n
    requires |offsets| == n && offsets[xs] == Offset(xs, n) && offsets[ys] == Offset(ys, n)
    ensures 0 <= xs * n + ys < n * n
    ensures var p := PixToCoord(g, xPix as real + offsets[xs], yPix as real + offsets[ys]);
            f(p.x, p.y, g.iterationCap) == Samples(g, f, n, xPix, yPix)[xs * n + ys]
  {
    SamplesEntry(g, f, n, xPix, yPix, xs, ys);
  }

  /** One step of the inner loop: adding the sampled colour divided by
      samples*samples to the divided sum of the first `start + ySample`
      samples gives the divided sum of one sample more. */
  lemma AccumulateStep(g: FractGen, f: PointFunc, samples: int, offsets: seq<real>,
                       xPix: int, yPix: int, xSample: int, ySample: int, start: int, acc: Rgba)
    requires Mappable(g) && 0 <= xSample < samples && 0 <= ySample < samples
    requires |offsets| == samples
    requires offsets[xSample] == Offset(xSample, samples) && offsets[ySample] == Offset(ySample, samples)
    requires start == xSample * samples && 0 <= start && start + ySample < samples * samples
    requires acc == Div(Sum(Samples(g, f, samples, xPix, yPix)[..start + ySample]), (samples * samples) as real)
    ensures var p := PixToCoord(g, xPix as real + offsets[xSample], yPix as real + offsets[ySample]);
            var d := (samples * samples) as real;
            Add(acc, Div(f(p.x, p.y, g.iterationCap), d))
            == Div(Sum(Samples(g, f, samples, xPix, yPix)[..start + ySample + 1]), d)
  {
    var cs := Samples(g, f, samples, xPix, yPix);
    TableSample(g, f, samples, offsets, xPix, yPix, xSample, ySample);
    PrefixStep(cs, start + ySample, (samples * samples) as real);
  }

  /** The inner loop of `genRoutine` for one x sub-sample: adds samples
      (xSample, 0), ..., (xSample, samples-1) of the pixel, each divided by
      samples*samples channel by channel, to the running (R, G, B, A) sum. `start` is the number of samples
      the sum already holds. */
  method SampleRow(g: FractGen, f: PointFunc, samples: int, offsets: seq<real>,
                   xPix: int, yPix: int, xSample: int, acc: Rgba, ghost start: int)
    returns (acc': Rgba)
    requires Mappable(g) && 0 <= xSample < samples
    requires |offsets| == samples
    requires forall k :: 0 <= k < samples ==> offsets[k] == Offset(k, samples)
    requires start == xSample * samples && 0 <= start && start + samples <= samples * samples
    requires acc == Div(Sum(Samples(g, f, samples, xPix, yPix)[..start]), (samples * samples) as real)
    ensures acc' == Div(Sum(Samples(g, f, samples, xPix, yPix)[..start + samples]), (samples * samples) as real)
  {
    ghost var cs := Samples(g, f, samples, xPix, yPix);
    var samplesSquared := (samples * samples) as real;
    acc' := acc;
    var ySample := 0;
    while ySample < samples
      invariant 0 <= ySample <= samples
      invariant start + ySample <= |cs|
      invariant acc' == Div(Sum(cs[..start + ySample]), samplesSquared)
    {
      var p := PixToCoord(g, xPix as real + offsets[xSample], yPix as real + offsets[ySample]);
      var col := f(p.x, p.y, g.iterationCap);
      AccumulateStep(g, f, samples, offsets, xPix, yPix, xSample, ySample, start, acc');
      acc' := Add(acc', Div(col, samplesSquared));
      ySample := ySample + 1;
    }
  }

  /** Accumulates one pixel as `genRoutine` does: a running sum of each
      sample divided by samples*samples, one row of sub-samples at a time.
      The result is the mean of the pixel's samples. */
  method SamplePixel(g: FractGen, f: PointFunc, samples: int, offsets: seq<real>,
                     xPix: int, yPix: int) returns (c: Rgba)
    requires Mappable(g) && samples >= 0
    requires |offsets| == samples
    requires forall k :: 0 <= k < samples ==> offsets[k] == Offset(k, samples)
    ensures c == PixelColour(g, f, samples, xPix, yPix)
  {
    ghost var cs := Samples(g, f, samples, xPix, yPix);
    ghost var taken := 0;
    c := Black;
    var xSample := 0;
    while xSample < samples
      invariant 0 <= xSample <= samples
      invariant taken == xSample * samples
      invariant samples == 0 ==> c == Black
      invariant samples >= 1 ==> |cs| == samples * samples && 0 <= taken <= |cs|
      invariant samples >= 1 ==> c == Div(Sum(cs[..taken]), (samples * samples) as real)
    {
      MulMonotone(samples - 1, xSample, samples);
      assert (samples - 1) * samples + samples == samples * samples;
      c := SampleRow(g, f, samples, offsets, xPix, yPix, xSample, c, taken);
      assert taken + samples == (xSample + 1) * samples;
      taken := taken + samples;
      xSample := xSample + 1;
    }
    if samples >= 1 {
      assert cs[..taken] == cs;
    } else {
      assert cs == [];
    }
  }

  /** Entry i of the image is the colour of the pixel i decodes to, and that
      pixel lies inside the frame at row-major position i. */
  lemma ImageEntry(g: FractGen, f: PointFunc, n: int, i: int)
    requires Renderable(g) && n >= 0 && 0 <= i < Size(g)
    ensures g.width >= 1 && g.height >= 1 && Mappable(g)
    ensures Encode(i % g.width, i / g.width, g.width) == i
    ensures Image(g, f, n)[i] == PixelColour(g, f, n, i % g.width, i / g.width)
  {
  }

  /** Stepping a worker's index by `routines` keeps its residue and skips no
      index of that residue. */
  lemma StrideStep(i: int, routines: int, rno: int)
    requires routines >= 1 && i % routines == rno
    ensures (i + routines) % routines == rno
    ensures forall j :: i < j < i + routines ==> j % routines != rno
  {
    ModAddDivisor(i, routines);
    forall j | i < j < i + routines
      ensures j % routines != rno
    {
      if j % routines == rno {
        SameResidueGap(j, i, routines);
      }
    }
  }

  /** One worker: builds the offset table, then walks the indices rno,
      rno+routines, ... below width*height, decodes each to (x, y) and writes
      that pixel's mean at row-major position y*width + x. Exactly the
      indices congruent to `rno` change, each to its final value. */
  method GenRoutine(g: FractGen, rno: int, samples: int, f: PointFunc, img: array<Rgba>)
    returns (ghost visited: seq<int>)
    requires Renderable(g) && g.routines >= 1 && 0 <= rno < g.routines && samples >= 0
    requires img.Length == Size(g)
    modifies img
    ensures visited == Stride(rno, g.routines, Size(g))
    ensures forall i :: 0 <= i < img.Length ==>
      img[i] == if i % g.routines == rno then Image(g, f, samples)[i] else old(img[i])
  {
    ghost var image := Image(g, f, samples);
    var offsets := OffsetTable(samples);
    var routines := g.routines;
    var size := g.width * g.height;
    var i := rno;
    visited := [];
    DivModUnique(rno, routines, 0, rno);
    forall j | 0 <= j < rno
      ensures j % routines != rno
    {
      DivModUnique(j, routines, 0, j);
    }
    while i < size
      invariant rno <= i && i % routines == rno
      invariant visited + Stride(i, routines, size) == Stride(rno, routines, size)
      invariant forall j :: 0 <= j < img.Length ==>
        img[j] == if j < i && j % routines == rno then image[j] else old(img[j])
      decreases size - i
    {
      ImageEntry(g, f, samples, i);
      var xPix := i % g.width;
      var yPix := i / g.width;
      var c := SamplePixel(g, f, samples, offsets, xPix, yPix);
      ghost var prev := img[..];
      img[Encode(xPix, yPix, g.width)] := c;
      StrideStep(i, routines, rno);
      forall j | 0 <= j < img.Length
        ensures img[j] == if j < i + routines && j % routines == rno then image[j] else old(img[j])
      {
        if j != i {
          assert img[j] == prev[j];
        }
      }
      visited := visited + [i];
      i := i + routines;
    }
  }

  /** Runs the workers named in `order`, one after another, on a copy of the
      framebuffer. A pixel whose owner ran gets its final value; every other
      pixel keeps its old one. When every worker runs at least once the
      result is the full image, whatever the order. */
  method GenerateInOrder(g: FractGen, f: PointFunc, samples: int, order: seq<int>)
    returns (g': FractGen)
    requires Renderable(g) && samples >= 0
    requires forall k :: 0 <= k < |order| ==> 0 <= order[k] < g.routines
    ensures g'.(fractImg := g.fractImg) == g
    ensures |g'.fractImg| == Size(g)
    ensures forall i :: 0 <= i < Size(g) ==>
      g'.fractImg[i] == if g.routines >= 1 && i % g.routines in order
                        then Image(g, f, samples)[i] else g.fractImg[i]
    ensures (forall r :: 0 <= r < g.routines ==> r in order) && g.routines >= 1
            ==> g'.fractImg == Image(g, f, samples)
  {
    var img := new Rgba[|g.fractImg|](i requires 0 <= i < |g.fractImg| => g.fractImg[i]);
    var k := 0;
    while k < |order|
      invariant 0 <= k <= |order|
      invariant forall i :: 0 <= i < img.Length ==>
        img[i] == if g.routines >= 1 && i % g.routines in order[..k]
                  then Image(g, f, samples)[i] else g.fractImg[i]
    {
      ghost var visited := GenRoutine(g, order[k], samples, f, img);
      assert order[..k + 1] == order[..k] + [order[k]];
      k := k + 1;
    }
    assert order[..k] == order;
    g' := g.(fractImg := img[..]);
    if g.routines >= 1 && forall r :: 0 <= r < g.routines ==> r in order {
      forall i | 0 <= i < Size(g)
        ensures g'.fractImg[i] == Image(g, f, samples)[i]
      {
        assert i % g.routines in order;
      }
    }
  }

  /** `generate`: starts workers 0, 1, ..., routines-1 and waits for all of
      them. With at least one worker the framebuffer becomes the image; with
      none no worker runs, neither the mapper nor `samples` is used, and the
      framebuffer is left as it was. */
  method Generate(g: FractGen, f: PointFunc, samples: int) returns (g': FractGen)
    requires g.routines >= 0
    requires g.routines >= 1 ==> Renderable(g) && samples >= 0
    ensures g'.(fractImg := g.fractImg) == g
    ensures g'.fractImg == if g.routines >= 1 then Image(g, f, samples) else g.fractImg
  {
    if g.routines == 0 {
      return g;
    }
    var order := seq(g.routines, r => r);
    forall r | 0 <= r < g.routines
      ensures r in order
    {
      assert order[r] == r;
    }
    g' := GenerateInOrder(g, f, samples, order);
  }

  /** The image holds pixel (x, y)'s colour at row-major index y*width + x. */
  lemma ImageAt(g: FractGen, f: PointFunc, n: int, x: int, y: int)
    requires Renderable(g) && n >= 0
    requires 0 <= x < g.width && 0 <= y < g.height
    ensures Mappable(g) && 0 <= Encode(x, y, g.width) < Size(g)
    ensures Image(g, f, n)[Encode(x, y, g.width)] == PixelColour(g, f, n, x, y)
  {
    EncodeInFrame(x, y, g.width, g.height);
    ImageEntry(g, f, n, Encode(x, y, g.width));
  }

  /** The image reads only the frame size, the scale, the zoom, the centre
      and the iteration cap: two generators that agree on these, with
      framebuffers of the right size, have the same image. */
  lemma ImageReadsView(g: FractGen, h: FractGen, f: PointFunc, n: int)
    requires Renderable(g) && n >= 0
    requires h.width == g.width && h.height == g.height && h.scaler == g.scaler
    requires h.zoom == g.zoom && h.xPos == g.xPos && h.yPos == g.yPos
    requires h.iterationCap == g.iterationCap && |h.fractImg| == Size(g)
    ensures Renderable(h) && Image(h, f, n) == Image(g, f, n)
  {
    forall i | 0 <= i < Size(g)
      ensures Image(h, f, n)[i] == Image(g, f, n)[i]
    {
      ImageEntry(g, f, n, i);
      ImageEntry(h, f, n, i);
      var x, y := i % g.width, i / g.width;
      var hs, gs := Samples(h, f, n, x, y), Samples(g, f, n, x, y);
      if n >= 1 {
        forall k | 0 <= k < n * n
          ensures hs[k] == gs[k]
        {
          PixToCoordReadsView(g, h, x as real + Offset(k / n, n), y as real + Offset(k % n, n));
          assert SampleAt(h, f, n, x, y, k / n, k % n) == SampleAt(g, f, n, x, y, k / n, k % n);
        }
      }
      assert hs == gs;
    }
  }

  /** The finished image does not depend on the number of workers. */
  lemma ImageIgnoresRoutines(g: FractGen, f: PointFunc, n: int, routines: int)
    requires Renderable(g) && n >= 0
    ensures Renderable(g.(routines := routines))
    ensures Image(g.(routines := routines), f, n) == Image(g, f, n)
  {
    ImageReadsView(g, g.(routines := routines), f, n);
  }

  /** The image does not read the framebuffer: rendering again over any
      earlier contents gives the same image, so a repeated `generate`
      overwrites the whole frame. */
  lemma ImageIgnoresFramebuffer(g: FractGen, f: PointFunc, n: int, img: seq<Rgba>)
    requires Renderable(g) && n >= 0 && |img| == Size(g)
    ensures Renderable(g.(fractImg := img))
    ensures Image(g.(fractImg := img), f, n) == Image(g, f, n)
  {
    ImageReadsView(g, g.(fractImg := img), f, n);
  }

  /** A point function that always returns the same colour yields that
      colour at every pixel, for any positive number of samples per axis. */
  lemma ConstantPointFunc(g: FractGen, f: PointFunc, n: int, xPix: int, yPix: int, c: Rgba)
    requires Mappable(g) && n >= 1
    requires forall x, y, cap :: f(x, y, cap) == c
    ensures PixelColour(g, f, n, xPix, yPix) == c
  {
    var cs := Samples(g, f, n, xPix, yPix);
    MulAtLeast(n, n);
    forall k | 0 <= k < |cs|
      ensures cs[k] == c
    {
      var p := PixToCoord(g, xPix as real + Offset(k / n, n), yPix as real + Offset(k % n, n));
      assert cs[k] == f(p.x, p.y, g.iterationCap);
    }
    MeanOfConstant(cs, c);
  }

  /** With zero samples per axis nothing is sampled and every pixel gets
      the zero colour. */
  lemma ZeroSamplesGiveBlack(g: FractGen, f: PointFunc, xPix: int, yPix: int)
    requires Mappable(g)
    ensures PixelColour(g, f, 0, xPix, yPix) == Black
  {
  }

  /** With one sample per axis the pixel is the point function evaluated at
      the pixel position itself: no anti-aliasing. */
  lemma SingleSampleIsPixelPosition(g: FractGen, f: PointFunc, xPix: int, yPix: int)
    requires Mappable(g)
    ensures var p := PixToCoord(g, xPix as real, yPix as real);
            PixelColour(g, f, 1, xPix, yPix) == f(p.x, p.y, g.iterationCap)
  {
    var cs := Samples(g, f, 1, xPix, yPix);
    assert Offset(0, 1) == 0.0;
    assert cs == [SampleAt(g, f, 1, xPix, yPix, 0, 0)];
    assert Sum(cs) == cs[0];
  }

  /** If every value of the point function has its channels in [lo, hi],
      so does every pixel of the image; for [0, 255] this is what keeps the
      byte conversion in range. */
  lemma ImageInRange(g: FractGen, f: PointFunc, n: int, lo: real, hi: real)
    requires Renderable(g) && n >= 0
    requires n >= 1 || InRange(Black, lo, hi)
    requires forall x, y, cap :: InRange(f(x, y, cap), lo, hi)
    ensures forall i :: 0 <= i < Size(g) ==> InRange(Image(g, f, n)[i], lo, hi)
  {
    forall i | 0 <= i < Size(g)
      ensures InRange(Image(g, f, n)[i], lo, hi)
    {
      ImageEntry(g, f, n, i);
      var cs := Samples(g, f, n, i % g.width, i / g.width);
      if n >= 1 {
        MulAtLeast(n, n);
        forall k | 0 <= k < |cs|
          ensures InRange(cs[k], lo, hi)
        {
          var p := PixToCoord(g, (i % g.width) as real + Offset(k / n, n),
                              (i / g.width) as real + Offset(k % n, n));
          assert cs[k] == f(p.x, p.y, g.iterationCap);
        }
        MeanInRange(cs, lo, hi);
      }
    }
  }

  /** A 4x4 frame centred on the origin at zoom 1 with one sample per axis:
      pixel (2, 2) is sampled at the plane origin and pixel (3, 3) at
      (0.5, 0.5), since one pixel spans 2/4 plane units. */
  lemma FourByFourFrame(f: PointFunc, routines: int, cap: int)
    ensures var g := NewFractGen(4, 4, routines, cap, 0.0, 0.0, 1.0);
            && Mappable(g)
            && PixToCoord(g, 2.0 + Offset(0, 1), 2.0 + Offset(0, 1)) == Point(0.0, 0.0)
            && PixToCoord(g, 3.0 + Offset(0, 1), 3.0 + Offset(0, 1)) == Point(0.5, 0.5)
            && PixelColour(g, f, 1, 2, 2) == f(0.0, 0.0, cap)
  {
    var g := NewFractGen(4, 4, routines, cap, 0.0, 0.0, 1.0);
    assert g.scaler == 4.0;
    SingleSampleIsPixelPosition(g, f, 2, 2);
  }
}
