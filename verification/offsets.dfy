/** The sub-pixel offset table each worker builds before sampling
    (`genRoutine` in Generator.go). Offsets are exact reals standing in for
    float64. */
module Offsets {

  /** Offset `k` of `n`: where, relative to the pixel position, the k-th of
      `n` samples along one axis is taken. */
  function Offset(k: int, n: int): (o: real)
    requires n >= 1
    ensures 0 <= k < n ==> -0.5 <= o < 0.5
  {
    RatioBound(1 + 2 * k - n, n);
    (1 + 2 * k - n) as real / (2 * n) as real
  }

  /** A numerator strictly between -n and n over 2n gives a ratio strictly
      between -1/2 and 1/2. */
  lemma RatioBound(a: int, n: int)
    requires n >= 1
    ensures -n < a < n ==> -0.5 < a as real / (2 * n) as real < 0.5
  {
    var d := (2 * n) as real;
    var q := a as real / d;
    assert q * d == a as real;
    if q >= 0.5 {
      MulNonNegative(q - 0.5, d);
      assert (q - 0.5) * d == q * d - n as real;
    }
    if q <= -0.5 {
      MulNonNegative(-0.5 - q, d);
      assert (-0.5 - q) * d == -(n as real) - q * d;
    }
  }

  /** A product of non-negative reals is non-negative. */
  lemma MulNonNegative(x: real, y: real)
    requires x >= 0.0 && y >= 0.0
    ensures x * y >= 0.0
  {
  }

  /** Builds the table of all `samples` offsets, as each worker does. */
  method OffsetTable(samples: int) returns (offsets: seq<real>)
    requires samples >= 0
    ensures |offsets| == samples
    ensures forall k :: 0 <= k < samples ==> offsets[k] == Offset(k, samples)
  {
    var table := new real[samples];
    var sample := 0;
    while sample < samples
      invariant 0 <= sample <= samples
      invariant forall k :: 0 <= k < sample ==> table[k] == Offset(k, samples)
    {
      table[sample] := (1 + 2 * sample - samples) as real / (2 * samples) as real;
      sample := sample + 1;
    }
    offsets := table[..];
  }

  /** Offset `k` is the midpoint of the k-th of `n` equal cells that tile
      [-1/2, 1/2): the samples sit at the centres of an even subdivision of
      the pixel's extent. */
  lemma OffsetIsCellMidpoint(k: int, n: int)
    requires n >= 1 && 0 <= k < n
    ensures var lo := -0.5 + k as real / n as real;
            var hi := -0.5 + (k + 1) as real / n as real;
            Offset(k, n) == (lo + hi) / 2.0 && lo < Offset(k, n) < hi
  {
    var d := n as real;
    assert Offset(k, n) * (2.0 * d) == (1 + 2 * k - n) as real;
    assert (k as real / d) * d == k as real;
    assert ((k + 1) as real / d) * d == (k + 1) as real;
    var lo := -0.5 + k as real / d;
    var hi := -0.5 + (k + 1) as real / d;
    assert hi - lo == 1.0 / d;
    assert 1.0 / d > 0.0;
  }

  /** The table is symmetric about the pixel position. */
  lemma OffsetSymmetric(k: int, n: int)
    requires n >= 1 && 0 <= k < n
    ensures Offset(k, n) == -Offset(n - 1 - k, n)
  {
  }

  /** Consecutive offsets are exactly 1/n apart. */
  lemma OffsetSpacing(k: int, n: int)
    requires n >= 1 && 0 <= k && k + 1 < n
    ensures Offset(k + 1, n) - Offset(k, n) == 1.0 / n as real
  {
  }

  /** With one sample per axis the single offset is zero: the sample is taken
      at the pixel position itself. */
  lemma SingleOffsetIsZero()
    ensures Offset(0, 1) == 0.0
  {
  }

  /** Sum of the first `m` offsets of `n`. */
  function OffsetSum(m: nat, n: int): real
    requires n >= 1
  {
    if m == 0 then 0.0 else OffsetSum(m - 1, n) + Offset(m - 1, n)
  }

  /** Closed form of the partial sums: the first `m` offsets add up to
      (m*m - m*n) / (2n). */
  lemma {:induction false} OffsetSumClosedForm(m: nat, n: int)
    requires n >= 1
    ensures OffsetSum(m, n) == (m * m - m * n) as real / (2 * n) as real
  {
    if m > 0 {
      OffsetSumClosedForm(m - 1, n);
      var d := (2 * n) as real;
      var a := ((m - 1) * (m - 1) - (m - 1) * n) as real;
      var b := (1 + 2 * (m - 1) - n) as real;
      assert a + b == (m * m - m * n) as real;
      assert a / d + b / d == (a + b) / d;
    }
  }

  /** The whole table is centred: the offsets of `n` samples add up to zero,
      so their mean is the pixel position. */
  lemma OffsetsCentred(n: int)
    requires n >= 1
    ensures OffsetSum(n, n) == 0.0
  {
    OffsetSumClosedForm(n, n);
  }
}
