/**
 Block-average downsampling (`averageResize`, `resizeImage`). Output cell
 (x, y) takes the truncated mean of the source rectangle whose columns run
 from `floor(x * W / outW)` up to, not including, `floor((x + 1) * W / outW)`,
 and likewise for rows. The source's `float` scale factors are read as exact
 rationals.
 */
module Resize {
  import opened Floors
  import opened Planes

  /** The character aspect `num / den`; the source holds it as a `float`. */
  datatype Ratio = Ratio(num: int, den: nat)

  /** Boundary `i` when `src` cells are cut into `out` strips: `int(i * scale)` with `scale = src / out`. */
  function Edge(i: nat, src: nat, out: nat): (e: nat)
    requires out > 0
    ensures e * out <= i * src < (e + 1) * out
  {
    MulMonotone(0, i, src);
    i * src / out
  }

  /** Cell `c` lies in strip `i`. */
  predicate InStrip(c: int, i: nat, src: nat, out: nat)
    requires out > 0
  {
    Edge(i, src, out) <= c < Edge(i + 1, src, out)
  }

  /** Strip `i` is non-empty and ends inside the axis. */
  predicate StripInside(i: nat, src: nat, out: nat)
    requires out > 0
  {
    Edge(i, src, out) < Edge(i + 1, src, out) <= src
  }

  /** Some strip `i < out` holds cell `c`. */
  predicate Covered(c: int, src: nat, out: nat)
    requires out > 0
  {
    exists i: nat :: i < out && InStrip(c, i, src, out)
  }

  lemma EdgeMonotone(i: nat, j: nat, src: nat, out: nat)
    requires out > 0 && i <= j
    ensures Edge(i, src, out) <= Edge(j, src, out)
  {
    MulMonotone(i, j, src);
    DivMonotone(i * src, j * src, out);
  }

  /** When downsampling, consecutive edges differ by at least one: no strip is empty. */
  lemma EdgeStep(i: nat, src: nat, out: nat)
    requires 1 <= out <= src
    ensures Edge(i, src, out) + 1 <= Edge(i + 1, src, out)
  {
    assert (i + 1) * src == i * src + src;
    DivStep(i * src, src, out);
  }

  lemma EdgeEnds(src: nat, out: nat)
    requires out > 0
    ensures Edge(0, src, out) == 0
    ensures Edge(out, src, out) == src
  {
    assert out * src == src * out;
    DivMultiple(src, out);
  }

  lemma {:induction false} CoveredFrom(c: int, i: nat, src: nat, out: nat)
    requires 1 <= out <= src && i < out
    requires Edge(i, src, out) <= c < src
    ensures Covered(c, src, out)
    decreases out - i
  {
    if c < Edge(i + 1, src, out) {
      assert InStrip(c, i, src, out);
    } else {
      EdgeEnds(src, out);
      if i + 1 == out {
        assert false;
      }
      CoveredFrom(c, i + 1, src, out);
    }
  }

  /**
   The strips of one axis tile it: the outer edges are 0 and `src`, every
   strip is non-empty and inside [0, src), every cell lies in some strip, and
   in only one.
   */
  lemma {:induction false} StripsTile(src: nat, out: nat)
    requires 1 <= out <= src
    ensures Edge(0, src, out) == 0 && Edge(out, src, out) == src
    ensures forall i: nat :: i < out ==> StripInside(i, src, out)
    ensures forall c :: 0 <= c < src ==> Covered(c, src, out)
    ensures forall c, i: nat, j: nat ::
      i < out && j < out && InStrip(c, i, src, out) && InStrip(c, j, src, out) ==> i == j
  {
    EdgeEnds(src, out);
    forall i: nat | i < out
      ensures StripInside(i, src, out)
    {
      EdgeStep(i, src, out);
      EdgeMonotone(i + 1, out, src, out);
    }
    forall c | 0 <= c < src
      ensures Covered(c, src, out)
    {
      CoveredFrom(c, 0, src, out);
    }
    forall c, i: nat, j: nat | i < out && j < out && InStrip(c, i, src, out) && InStrip(c, j, src, out)
      ensures i == j
    {
      if i < j {
        EdgeMonotone(i + 1, j, src, out);
      } else if j < i {
        EdgeMonotone(j + 1, i, src, out);
      }
    }
  }

  /** The sub-plane of columns [x0, x1) and rows [y0, y1): `get_crop(x0, y0, x1 - 1, y1 - 1)`. */
  function Crop(p: Plane, x0: nat, x1: nat, y0: nat, y1: nat): (b: Plane)
    requires x0 <= x1 && y0 <= y1 <= |p|
    requires forall y :: y0 <= y < y1 ==> x1 <= |p[y]|
    ensures IsGrid(b, x1 - x0, y1 - y0)
    ensures forall i, j :: 0 <= i < |b| && 0 <= j < |b[i]| ==> b[i][j] == p[y0 + i][x0 + j]
  {
    seq(y1 - y0, i requires 0 <= i < y1 - y0 => p[y0 + i][x0..x1])
  }

  function RowTotal(r: Row): int
  {
    if |r| == 0 then 0 else RowTotal(r[..|r| - 1]) + r[|r| - 1]
  }

  /** The sum of all samples. */
  function Total(p: Plane): int
  {
    if |p| == 0 then 0 else Total(p[..|p| - 1]) + RowTotal(p[|p| - 1])
  }

  /** The number of samples. */
  function Size(p: Plane): nat
  {
    if |p| == 0 then 0 else Size(p[..|p| - 1]) + |p[|p| - 1]|
  }

  lemma {:induction false} GridSize(p: Plane, w: nat, h: nat)
    requires IsGrid(p, w, h)
    ensures Size(p) == w * h
  {
    if h > 0 {
      GridSize(p[..h - 1], w, h - 1);
    }
  }

  /** Every sample of row `r` lies in [lo, hi]. */
  predicate RowWithin(r: Row, lo: int, hi: int)
  {
    forall x :: 0 <= x < |r| ==> lo <= r[x] <= hi
  }

  lemma {:induction false} RowTotalBounds(r: Row, lo: int, hi: int)
    requires RowWithin(r, lo, hi)
    ensures lo * |r| <= RowTotal(r) <= hi * |r|
  {
    if |r| > 0 {
      var init := r[..|r| - 1];
      assert RowWithin(init, lo, hi) by {
        forall x | 0 <= x < |init|
          ensures lo <= init[x] <= hi
        {
          assert init[x] == r[x];
        }
      }
      RowTotalBounds(init, lo, hi);
      MulAdd(lo, |init|, 1);
      MulAdd(hi, |init|, 1);
    }
  }

  lemma WithinSplit(p: Plane, lo: int, hi: int)
    requires |p| > 0 && Within(p, lo, hi)
    ensures Within(p[..|p| - 1], lo, hi)
    ensures RowWithin(p[|p| - 1], lo, hi)
  {
    var init := p[..|p| - 1];
    forall y, x | 0 <= y < |init| && 0 <= x < |init[y]|
      ensures lo <= init[y][x] <= hi
    {
      assert init[y] == p[y];
    }
  }

  /** A plane whose samples lie in [lo, hi] sums to between `lo` and `hi` times its size. */
  lemma {:induction false} TotalBounds(p: Plane, lo: int, hi: int)
    requires Within(p, lo, hi)
    ensures lo * Size(p) <= Total(p) <= hi * Size(p)
  {
    if |p| > 0 {
      var init, last := p[..|p| - 1], p[|p| - 1];
      WithinSplit(p, lo, hi);
      RowTotalBounds(last, lo, hi);
      TotalBounds(init, lo, hi);
      var s0, n := Size(init), |last|;
      assert Size(p) == s0 + n;
      MulAdd(lo, s0, n);
      MulAdd(hi, s0, n);
    }
  }

  lemma QuotientWithin(t: int, s: int, lo: int, hi: int)
    requires s > 0 && lo * s <= t <= hi * s
    ensures lo <= t / s <= hi
  {
    DivAbove(t, lo, s);
    DivMonotone(t, hi * s, s);
    DivMultiple(hi, s);
  }

  /**
   `(unsigned char)block.mean()`: the mean of a non-empty block of 8-bit
   samples, truncated. It lies between the block's least and greatest sample.
   */
  function Mean(b: Plane): (m: int)
    requires Size(b) > 0 && Within(b, 0, 255)
    ensures m * Size(b) <= Total(b) < (m + 1) * Size(b)
    ensures forall lo, hi :: Within(b, lo, hi) ==> lo <= m <= hi
  {
    assert forall lo, hi :: Within(b, lo, hi) ==> lo <= Total(b) / Size(b) <= hi by {
      forall lo, hi | Within(b, lo, hi)
        ensures lo <= Total(b) / Size(b) <= hi
      {
        TotalBounds(b, lo, hi);
        QuotientWithin(Total(b), Size(b), lo, hi);
      }
    }
    Total(b) / Size(b)
  }

  /** The resize is a downsampling of a decoded plane. */
  predicate Downsizes(p: Plane, outW: nat, outH: nat)
  {
    WellFormed(p) && 1 <= outW <= Width(p) && 1 <= outH <= Height(p)
  }

  /**
   The source rectangle of output cell (x, y): non-empty and inside the image.
   */
  lemma BlockBounds(p: Plane, outW: nat, outH: nat, x: nat, y: nat)
    requires Downsizes(p, outW, outH) && x < outW && y < outH
    ensures 0 <= Edge(x, Width(p), outW) < Edge(x + 1, Width(p), outW) <= Width(p)
    ensures 0 <= Edge(y, Height(p), outH) < Edge(y + 1, Height(p), outH) <= Height(p)
  {
    StripsTile(Width(p), outW);
    StripsTile(Height(p), outH);
    assert StripInside(x, Width(p), outW);
    assert StripInside(y, Height(p), outH);
  }

  /**
   The samples averaged into output cell (x, y): the rectangle of columns
   from edge x up to edge x + 1 and rows from edge y up to edge y + 1
   (`get_crop(x0, y0, x1 - 1, y1 - 1)`).
   */
  function Block(p: Plane, outW: nat, outH: nat, x: nat, y: nat): (b: Plane)
    requires Downsizes(p, outW, outH) && x < outW && y < outH
    ensures Edge(y + 1, Height(p), outH) <= Height(p) && Edge(x + 1, Width(p), outW) <= Width(p)
    ensures |b| + Edge(y, Height(p), outH) == Edge(y + 1, Height(p), outH)
    ensures forall i :: 0 <= i < |b| ==> |b[i]| + Edge(x, Width(p), outW) == Edge(x + 1, Width(p), outW)
    ensures forall i, j :: 0 <= i < |b| && 0 <= j < |b[i]| ==>
      b[i][j] == p[Edge(y, Height(p), outH) + i][Edge(x, Width(p), outW) + j]
    ensures Size(b) > 0
    ensures forall lo, hi :: Within(p, lo, hi) ==> Within(b, lo, hi)
  {
    BlockBounds(p, outW, outH, x, y);
    var x0, x1 := Edge(x, Width(p), outW), Edge(x + 1, Width(p), outW);
    var y0, y1 := Edge(y, Height(p), outH), Edge(y + 1, Height(p), outH);
    var b := Crop(p, x0, x1, y0, y1);
    GridSize(b, x1 - x0, y1 - y0);
    MulMonotone(1, y1 - y0, x1 - x0);
    b
  }

  /**
   `averageResize`: an `outW` by `outH` plane whose every sample is the
   truncated mean of its source block. It never leaves the range of the
   input's samples, so a decoded plane stays decoded and a constant plane
   stays constant.
   */
  function AverageResize(p: Plane, outW: nat, outH: nat): (r: Plane)
    requires Downsizes(p, outW, outH)
    ensures IsGrid(r, outW, outH)
    ensures forall y, x :: 0 <= y < outH && 0 <= x < outW ==>
      r[y][x] * Size(Block(p, outW, outH, x, y)) <= Total(Block(p, outW, outH, x, y))
                                                 < (r[y][x] + 1) * Size(Block(p, outW, outH, x, y))
    ensures forall lo, hi :: Within(p, lo, hi) ==> Within(r, lo, hi)
    ensures WellFormed(r)
  {
    seq(outH, y requires 0 <= y < outH =>
      seq(outW, x requires 0 <= x < outW => Mean(Block(p, outW, outH, x, y))))
  }

  /** Each output sample lies between the least and greatest samples of its block. */
  lemma SampleWithinBlock(p: Plane, outW: nat, outH: nat, x: nat, y: nat, lo: int, hi: int)
    requires Downsizes(p, outW, outH) && x < outW && y < outH
    requires Within(Block(p, outW, outH, x, y), lo, hi)
    ensures lo <= AverageResize(p, outW, outH)[y][x] <= hi
  {
    var b := Block(p, outW, outH, x, y);
    assert Within(b, 0, 255);
    assert AverageResize(p, outW, outH)[y][x] == Mean(b);
  }

  lemma SingleSample(v: int)
    ensures Size([[v]]) == 1 && Total([[v]]) == v
  {
    assert [[v]][..0] == [];
    assert [v][..0] == [];
    assert RowTotal([v]) == RowTotal([]) + v;
    assert Total([[v]]) == Total([]) + RowTotal([v]);
  }

  /** At unit scale the block of cell (x, y) is the one sample at (x, y). */
  lemma UnitBlock(p: Plane, x: nat, y: nat)
    requires WellFormed(p) && x < Width(p) && y < Height(p)
    ensures Block(p, Width(p), Height(p), x, y) == [[p[y][x]]]
  {
    var w, h := Width(p), Height(p);
    DivMultiple(x, w);
    DivMultiple(x + 1, w);
    DivMultiple(y, h);
    DivMultiple(y + 1, h);
    assert Edge(x, w, w) == x && Edge(x + 1, w, w) == x + 1;
    assert Edge(y, h, h) == y && Edge(y + 1, h, h) == y + 1;
    var b := Block(p, w, h, x, y);
    assert b == Crop(p, x, x + 1, y, y + 1);
    assert |b| == 1 && b[0] == p[y][x..x + 1];
    assert p[y][x..x + 1] == [p[y][x]];
  }

  /** A plane resized to its own dimensions comes back unchanged. */
  lemma ResizeIdentity(p: Plane)
    requires WellFormed(p)
    ensures AverageResize(p, Width(p), Height(p)) == p
  {
    var w, h := Width(p), Height(p);
    var r := AverageResize(p, w, h);
    forall y | 0 <= y < h
      ensures r[y] == p[y]
    {
      forall x | 0 <= x < w
        ensures r[y][x] == p[y][x]
      {
        UnitBlock(p, x, y);
        SingleSample(p[y][x]);
      }
    }
  }

  /**
   The output height `int(outW * (H / W) * charAspect)`: the floor of the
   exact product for a non-negative aspect, and never positive otherwise.
   */
  function OutputHeight(w: nat, h: nat, outW: nat, aspect: Ratio): (outH: int)
    requires w > 0 && aspect.den > 0
    ensures aspect.num >= 0 ==>
      0 <= outH && outH * (w * aspect.den) <= outW * h * aspect.num < (outH + 1) * (w * aspect.den)
    ensures aspect.num <= 0 ==> outH <= 0
  {
    MulMonotone(1, w, aspect.den);
    if aspect.num >= 0 then
      MulMonotone(0, outW * h, aspect.num);
      TruncDiv(outW * h * aspect.num, w * aspect.den)
    else
      MulMonotone(aspect.num, 0, outW * h);
      TruncDiv(outW * h * aspect.num, w * aspect.den)
  }

  /** The resize is a downsampling at this width and aspect. */
  predicate ResizeDownsizes(p: Plane, outW: nat, aspect: Ratio)
  {
    WellFormed(p) && aspect.den > 0 && 1 <= outW <= Width(p)
    && 1 <= OutputHeight(Width(p), Height(p), outW, aspect) <= Height(p)
  }

  /**
   `resizeImage`: exactly `outW` columns, and as many rows as the floor of
   `outW * (H / W) * charAspect`, each row a block-averaged strip.
   */
  function ResizeImage(p: Plane, outW: nat, aspect: Ratio): (r: Plane)
    requires ResizeDownsizes(p, outW, aspect)
    ensures |r| > 0 && Width(r) == outW
    ensures Height(r) * (Width(p) * aspect.den) <= outW * Height(p) * aspect.num
                                                < (Height(r) + 1) * (Width(p) * aspect.den)
    ensures WellFormed(r)
    ensures forall lo, hi :: Within(p, lo, hi) ==> Within(r, lo, hi)
  {
    AverageResize(p, outW, OutputHeight(Width(p), Height(p), outW, aspect))
  }
}
