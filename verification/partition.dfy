/** How `generate` and `genRoutine` in Generator.go split the frame among
    workers: worker `rno` walks the linear pixel indices rno, rno+routines,
    rno+2*routines, ... below width*height, and decodes each index to a
    pixel as (i % width, i / width). */
module Partition {

  /** The indices a worker starting at `start` visits, in visiting order. */
  function Stride(start: int, routines: int, size: int): (s: seq<int>)
    requires routines >= 1
    ensures forall k :: 0 <= k < |s| ==> start <= s[k] < size
    ensures forall k, l :: 0 <= k < l < |s| ==> s[k] < s[l]
    decreases size - start
  {
    if start >= size then [] else [start] + Stride(start + routines, routines, size)
  }

  /** An index is visited by the walk from `start` exactly when it lies in
      [start, size) and leaves the same remainder as `start` modulo
      `routines`. */
  lemma {:induction false} StrideMembership(start: int, routines: int, size: int, i: int)
    requires routines >= 1
    ensures i in Stride(start, routines, size)
        <==> start <= i < size && i % routines == start % routines
    decreases size - start
  {
    if start < size {
      StrideMembership(start + routines, routines, size, i);
      ModAddDivisor(start, routines);
      if start < i && i % routines == start % routines {
        SameResidueGap(i, start, routines);
      }
    }
  }

  /** Worker `rno` of `routines` owns exactly the in-range indices congruent
      to `rno` modulo `routines`. */
  lemma WorkerOwns(rno: int, routines: int, size: int, i: int)
    requires 0 <= rno < routines
    ensures i in Stride(rno, routines, size) <==> 0 <= i < size && i % routines == rno
  {
    StrideMembership(rno, routines, size, i);
    DivModUnique(rno, routines, 0, rno);
    if i < rno && i % routines == rno {
      SameResidueGap(rno, i, routines);
    }
  }

  /** The strides of workers 0..routines-1 are a disjoint cover of
      [0, size): every index is visited by worker `i % routines` and by no
      other worker, and no worker visits an index outside [0, size). */
  lemma DisjointCover(routines: int, size: int)
    requires routines >= 1
    ensures forall i :: 0 <= i < size ==> i in Stride(i % routines, routines, size)
    ensures forall rno, i :: 0 <= rno < routines && i in Stride(rno, routines, size)
              ==> 0 <= i < size && rno == i % routines
  {
    forall i | 0 <= i < size
      ensures i in Stride(i % routines, routines, size)
    {
      WorkerOwns(i % routines, routines, size, i);
    }
    forall rno, i | 0 <= rno < routines && i in Stride(rno, routines, size)
      ensures 0 <= i < size && rno == i % routines
    {
      WorkerOwns(rno, routines, size, i);
    }
  }

  /** Number of visits made by the walk from `start`: ceil((size-start)/routines). */
  lemma {:induction false} StrideLength(start: int, routines: int, size: int)
    requires routines >= 1
    ensures |Stride(start, routines, size)|
            == if start >= size then 0 else (size - start - 1) / routines + 1
    decreases size - start
  {
    if start < size {
      StrideLength(start + routines, routines, size);
      var a := size - start - 1;
      if start + routines < size {
        assert (a - routines) / routines == a / routines - 1 by {
          DivSub(a, routines);
        }
      } else {
        DivModUnique(a, routines, 0, a);
      }
    }
  }

  /** Subtracting the divisor lowers the quotient by one. */
  lemma DivSub(a: int, m: int)
    requires m >= 1
    ensures (a - m) / m == a / m - 1
  {
    var q, r := a / m, a % m;
    assert a - m == (q - 1) * m + r;
    DivModUnique(a - m, m, q - 1, r);
  }

  /** The strided split balances the load: the numbers of pixels of any two
      workers differ by at most one, and earlier workers get no fewer. */
  lemma Balanced(r1: int, r2: int, routines: int, size: int)
    requires 0 <= r1 <= r2 < routines && size >= 0
    ensures |Stride(r2, routines, size)| <= |Stride(r1, routines, size)|
                                          <= |Stride(r2, routines, size)| + 1
  {
    StrideLength(r1, routines, size);
    StrideLength(r2, routines, size);
    if r2 < size {
      var a1, a2 := size - r1 - 1, size - r2 - 1;
      assert 0 <= a1 - a2 < routines;
      QuotientGap(a2, a1 - a2, routines);
    }
  }

  /** Adding less than the divisor raises the quotient by at most one. */
  lemma QuotientGap(a: int, d: int, m: int)
    requires m >= 1 && 0 <= d < m
    ensures a / m <= (a + d) / m <= a / m + 1
  {
    var q, r := a / m, a % m;
    if r + d < m {
      DivModUnique(a + d, m, q, r + d);
    } else {
      assert a + d == (q + 1) * m + (r + d - m);
      DivModUnique(a + d, m, q + 1, r + d - m);
    }
  }

  /** Pixel (x, y) of a frame `width` wide sits at row-major index y*width + x. */
  function Encode(x: int, y: int, width: int): int
  {
    y * width + x
  }

  /** The pixel a linear index denotes, as `genRoutine` decodes it. */
  function Decode(i: int, width: int): (p: (int, int))
    requires width >= 1
    ensures 0 <= i ==> 0 <= p.0 < width && 0 <= p.1
  {
    (i % width, i / width)
  }

  /** Every index of the frame decodes to a pixel inside the frame, and
      encoding that pixel gives the index back. */
  lemma DecodeInFrame(i: int, width: int, height: int)
    requires width >= 1 && 0 <= i < width * height
    ensures var p := Decode(i, width);
            0 <= p.0 < width && 0 <= p.1 < height && Encode(p.0, p.1, width) == i
  {
  }

  /** Decoding the index of an in-frame pixel gives the pixel back, so
      Decode is a bijection from [0, width*height) onto the pixel grid. */
  lemma EncodeInFrame(x: int, y: int, width: int, height: int)
    requires 0 <= x < width && 0 <= y < height
    ensures 0 <= Encode(x, y, width) < width * height
    ensures Decode(Encode(x, y, width), width) == (x, y)
  {
    var i := Encode(x, y, width);
    MulMonotone(height, y + 1, width);
    assert (y + 1) * width == y * width + width;
    DivModUnique(i, width, y, x);
  }

  /** A product of positive factors is at least either factor. */
  lemma MulAtLeast(a: int, m: int)
    requires a >= 1 && m >= 1
    ensures a * m >= m
  {
  }

  /** Multiplying by a positive factor keeps the order. */
  lemma MulMonotone(a: int, b: int, m: int)
    requires a >= b && m >= 1
    ensures a * m >= b * m
  {
  }

  /** Euclidean division is unique: q and r with i == q*m + r and 0 <= r < m
      are the quotient and remainder. */
  lemma DivModUnique(i: int, m: int, q: int, r: int)
    requires m >= 1 && 0 <= r < m && i == q * m + r
    ensures i / m == q && i % m == r
  {
    var q', r' := i / m, i % m;
    assert q' * m + r' == i;
    assert (q - q') * m == r' - r;
    if q > q' {
      MulAtLeast(q - q', m);
    } else if q < q' {
      assert (q' - q) * m == r - r';
      MulAtLeast(q' - q, m);
    }
  }

  /** Adding the divisor keeps the remainder. */
  lemma ModAddDivisor(i: int, m: int)
    requires m >= 1
    ensures (i + m) % m == i % m
  {
    var q, r := i / m, i % m;
    assert i + m == (q + 1) * m + r;
    DivModUnique(i + m, m, q + 1, r);
  }

  /** Two distinct numbers with the same remainder are at least the divisor
      apart. */
  lemma SameResidueGap(i: int, j: int, m: int)
    requires m >= 1 && j < i && i % m == j % m
    ensures i >= j + m
  {
    var qi, qj := i / m, j / m;
    assert i - j == (qi - qj) * m;
    if qi - qj < 1 {
      if qi < qj {
        assert (qj - qi) * m == -((qi - qj) * m);
        MulAtLeast(qj - qi, m);
      }
    } else {
      MulAtLeast(qi - qj, m);
    }
  }
}
