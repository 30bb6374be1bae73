/** Colours as the rendering engine accumulates them: four channels, each an
    exact real standing in for the float64 the engine computes with. */
module Colour {

  /** One RGBA sample returned by a point function, or one framebuffer pixel
      before the byte conversion. */
  datatype Rgba = Rgba(r: real, g: real, b: real, a: real)

  /** The zero value of a framebuffer pixel, and the start of every running sum. */
  const Black := Rgba(0.0, 0.0, 0.0, 0.0)

  /** Channel-wise sum. */
  function Add(x: Rgba, y: Rgba): Rgba {
    Rgba(x.r + y.r, x.g + y.g, x.b + y.b, x.a + y.a)
  }

  /** Channel-wise division by a nonzero count. */
  function Div(x: Rgba, d: real): Rgba
    requires d != 0.0
  {
    Rgba(x.r / d, x.g / d, x.b / d, x.a / d)
  }

  /** Sum of a sequence of colours, accumulated from the front. */
  function Sum(cs: seq<Rgba>): Rgba
  {
    if |cs| == 0 then Black else Add(Sum(cs[..|cs| - 1]), cs[|cs| - 1])
  }

  /** Arithmetic mean of a sequence of samples; no samples gives the zero pixel. */
  function Mean(cs: seq<Rgba>): Rgba
  {
    if |cs| == 0 then Black else Div(Sum(cs), |cs| as real)
  }

  /** Every channel of `c` lies in the closed interval [lo, hi]. */
  predicate InRange(c: Rgba, lo: real, hi: real) {
    lo <= c.r <= hi && lo <= c.g <= hi && lo <= c.b <= hi && lo <= c.a <= hi
  }

  /** Dividing each summand by the same count is dividing the sum by it. */
  lemma DivDistributes(x: Rgba, y: Rgba, d: real)
    requires d != 0.0
    ensures Add(Div(x, d), Div(y, d)) == Div(Add(x, y), d)
  {
    assert (x.r + y.r) / d == x.r / d + y.r / d;
    assert (x.g + y.g) / d == x.g / d + y.g / d;
    assert (x.b + y.b) / d == x.b / d + y.b / d;
    assert (x.a + y.a) / d == x.a / d + y.a / d;
  }

  /** A running sum of `c / d` terms is the sum of the terms divided by `d`:
      appending one divided term extends the divided prefix sum. */
  lemma RunningMeanStep(cs: seq<Rgba>, c: Rgba, d: real)
    requires d != 0.0
    ensures Add(Div(Sum(cs), d), Div(c, d)) == Div(Sum(cs + [c]), d)
  {
    assert (cs + [c])[..|cs|] == cs;
    DivDistributes(Sum(cs), c, d);
  }

  /** `n` copies of `x` added up, written as repeated addition so that the
      bounds below stay linear. */
  function Times(n: nat, x: real): real
  {
    if n == 0 then 0.0 else Times(n - 1, x) + x
  }

  /** Repeated addition is multiplication. */
  lemma {:induction false} TimesIsProduct(n: nat, x: real)
    ensures Times(n, x) == n as real * x
  {
    if n > 0 {
      TimesIsProduct(n - 1, x);
      assert (n - 1) as real * x + x == n as real * x;
    }
  }

  /** The sum of `n` copies of one colour is `n` times that colour. */
  lemma {:induction false} SumOfConstant(cs: seq<Rgba>, c: Rgba)
    requires forall k :: 0 <= k < |cs| ==> cs[k] == c
    ensures Sum(cs) == Rgba(Times(|cs|, c.r), Times(|cs|, c.g), Times(|cs|, c.b), Times(|cs|, c.a))
  {
    if |cs| > 0 {
      SumOfConstant(cs[..|cs| - 1], c);
    }
  }

  /** The mean of identical samples is that sample. */
  lemma MeanOfConstant(cs: seq<Rgba>, c: Rgba)
    requires |cs| >= 1
    requires forall k :: 0 <= k < |cs| ==> cs[k] == c
    ensures Mean(cs) == c
  {
    SumOfConstant(cs, c);
    var n := |cs|;
    TimesIsProduct(n, c.r);
    TimesIsProduct(n, c.g);
    TimesIsProduct(n, c.b);
    TimesIsProduct(n, c.a);
    var d := n as real;
    assert d * c.r / d == c.r;
    assert d * c.g / d == c.g;
    assert d * c.b / d == c.b;
    assert d * c.a / d == c.a;
  }

  /** If every sample has its channels in [lo, hi], the sum of `n` samples has
      them in [n*lo, n*hi]. */
  lemma {:induction false} SumInRange(cs: seq<Rgba>, lo: real, hi: real)
    requires forall k :: 0 <= k < |cs| ==> InRange(cs[k], lo, hi)
    ensures InRange(Sum(cs), Times(|cs|, lo), Times(|cs|, hi))
  {
    if |cs| > 0 {
      SumInRange(cs[..|cs| - 1], lo, hi);
      assert InRange(cs[|cs| - 1], lo, hi);
    }
  }

  /** Averaging never leaves the range the samples lie in. */
  lemma MeanInRange(cs: seq<Rgba>, lo: real, hi: real)
    requires |cs| >= 1
    requires forall k :: 0 <= k < |cs| ==> InRange(cs[k], lo, hi)
    ensures InRange(Mean(cs), lo, hi)
  {
    SumInRange(cs, lo, hi);
    var s := Sum(cs);
    DivBounds(s.r, |cs|, lo, hi);
    DivBounds(s.g, |cs|, lo, hi);
    DivBounds(s.b, |cs|, lo, hi);
    DivBounds(s.a, |cs|, lo, hi);
  }

  /** Dividing a sum of `n` values in [lo, hi] by `n` lands in [lo, hi]. */
  lemma DivBounds(x: real, n: nat, lo: real, hi: real)
    requires n >= 1
    requires Times(n, lo) <= x <= Times(n, hi)
    ensures lo <= x / n as real <= hi
  {
    TimesIsProduct(n, lo);
    TimesIsProduct(n, hi);
    var d := n as real;
    assert x / d * d == x;
  }
}
