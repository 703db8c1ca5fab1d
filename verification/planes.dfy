/**
 A single-channel image plane: `p[y][x]` is the sample in row `y`, column `x`.
 The program holds it as a `CImg<unsigned char>`, so a sample of a decoded
 image lies in [0, 255].
 */
module Planes {

  type Row = seq<int>
  type Plane = seq<Row>

  /** `p` has `h` rows of `w` samples each. */
  predicate IsGrid(p: Plane, w: nat, h: nat)
  {
    |p| == h && forall y :: 0 <= y < |p| ==> |p[y]| == w
  }

  /** Every sample of `p` lies in [lo, hi]. */
  predicate Within(p: Plane, lo: int, hi: int)
  {
    forall y, x :: 0 <= y < |p| && 0 <= x < |p[y]| ==> lo <= p[y][x] <= hi
  }

  /** `v` is one of the samples of `p`. */
  predicate Occurs(p: Plane, v: int)
  {
    exists y, x :: 0 <= y < |p| && 0 <= x < |p[y]| && p[y][x] == v
  }

  /** A decoded, non-empty, rectangular plane of 8-bit samples. */
  predicate WellFormed(p: Plane)
  {
    |p| > 0 && |p[0]| > 0 && IsGrid(p, |p[0]|, |p|) && Within(p, 0, 255)
  }

  function Width(p: Plane): nat
    requires |p| > 0
  {
    |p[0]|
  }

  function Height(p: Plane): nat
  {
    |p|
  }

  /** The invert step `255 - image`. */
  function Invert(p: Plane): (q: Plane)
    ensures |q| == |p|
    ensures forall y :: 0 <= y < |p| ==> |q[y]| == |p[y]|
    ensures forall y, x :: 0 <= y < |p| && 0 <= x < |p[y]| ==> q[y][x] + p[y][x] == 255
    ensures Within(p, 0, 255) ==> Within(q, 0, 255)
    ensures forall lo, hi :: Within(p, lo, hi) ==> Within(q, 255 - hi, 255 - lo)
  {
    seq(|p|, y requires 0 <= y < |p| =>
      seq(|p[y]|, x requires 0 <= x < |p[y]| => 255 - p[y][x]))
  }

  /** Inverting twice gives back the original plane. */
  lemma InvertInvolutive(p: Plane)
    ensures Invert(Invert(p)) == p
  {
    var q := Invert(Invert(p));
    assert |q| == |p|;
    forall y | 0 <= y < |p|
      ensures q[y] == p[y]
    {
      assert |q[y]| == |p[y]|;
    }
  }

  /** Inversion keeps the shape and the [0, 255] range of a decoded plane. */
  lemma InvertWellFormed(p: Plane)
    requires WellFormed(p)
    ensures WellFormed(Invert(p))
    ensures Width(Invert(p)) == Width(p) && Height(Invert(p)) == Height(p)
  {
  }
}
