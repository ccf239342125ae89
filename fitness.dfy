/** The fitness of a candidate: the summed RGB distance of its rendering to the target. */
module Fitness {
  import opened Types

  /** The largest distance one pixel can contribute: 255 on each of R, G and B. */
  const MAX_PIXEL_DISTANCE: nat := 3 * 255

  function Abs(x: int): nat {
    if x < 0 then -x else x
  }

  /** Pixel `p` of the two buffers has the same red, green and blue bytes. */
  predicate RgbMatch(a: seq<Byte>, b: seq<Byte>, p: nat)
    requires 4 * p + 3 <= |a| && 4 * p + 3 <= |b|
  {
    a[4 * p] == b[4 * p] && a[4 * p + 1] == b[4 * p + 1] && a[4 * p + 2] == b[4 * p + 2]
  }

  /** What pixel `p` adds to the fitness; its alpha byte (offset 3) is not read. */
  function PixelDistance(target: seq<Byte>, candidate: seq<Byte>, p: nat): nat
    requires 4 * p + 3 <= |target| && 4 * p + 3 <= |candidate|
  {
    Abs(target[4 * p] as int - candidate[4 * p] as int)
    + Abs(target[4 * p + 1] as int - candidate[4 * p + 1] as int)
    + Abs(target[4 * p + 2] as int - candidate[4 * p + 2] as int)
  }

  /** Sum of the pixel distances of pixels 0 .. n-1. */
  function Distance(target: seq<Byte>, candidate: seq<Byte>, n: nat): nat
    requires 4 * n <= |target| && 4 * n <= |candidate|
  {
    if n == 0 then 0 else Distance(target, candidate, n - 1) + PixelDistance(target, candidate, n - 1)
  }

  /** Fitness of a rendered candidate against the target, over every pixel. */
  function ImageDistance(target: seq<Byte>, candidate: seq<Byte>): nat
    requires |target| == |candidate| && |target| % 4 == 0
  {
    Distance(target, candidate, |target| / 4)
  }

  lemma {:induction false} DistanceBounds(target: seq<Byte>, candidate: seq<Byte>, n: nat)
    requires 4 * n <= |target| && 4 * n <= |candidate|
    ensures Distance(target, candidate, n) <= MAX_PIXEL_DISTANCE * n
  {
    if n > 0 {
      DistanceBounds(target, candidate, n - 1);
    }
  }

  lemma {:induction false} DistanceZeroIff(target: seq<Byte>, candidate: seq<Byte>, n: nat)
    requires 4 * n <= |target| && 4 * n <= |candidate|
    ensures Distance(target, candidate, n) == 0 <==> forall p :: 0 <= p < n ==> RgbMatch(target, candidate, p)
  {
    if n > 0 {
      DistanceZeroIff(target, candidate, n - 1);
      assert PixelDistance(target, candidate, n - 1) == 0 <==> RgbMatch(target, candidate, n - 1);
    }
  }

  /** Buffers that agree on every R, G and B byte have the same distance,
      whatever their alpha bytes hold: alpha is never read. */
  lemma {:induction false} DistanceIgnoresAlpha(t1: seq<Byte>, t2: seq<Byte>, c1: seq<Byte>, c2: seq<Byte>, n: nat)
    requires 4 * n <= |t1| && 4 * n <= |t2| && 4 * n <= |c1| && 4 * n <= |c2|
    requires forall p :: 0 <= p < n ==> RgbMatch(t1, t2, p) && RgbMatch(c1, c2, p)
    ensures Distance(t1, c1, n) == Distance(t2, c2, n)
  {
    if n > 0 {
      DistanceIgnoresAlpha(t1, t2, c1, c2, n - 1);
      assert RgbMatch(t1, t2, n - 1) && RgbMatch(c1, c2, n - 1);
    }
  }

  /** The distance does not depend on which buffer is the target. */
  lemma {:induction false} DistanceSymmetric(a: seq<Byte>, b: seq<Byte>, n: nat)
    requires 4 * n <= |a| && 4 * n <= |b|
    ensures Distance(a, b, n) == Distance(b, a, n)
  {
    if n > 0 {
      DistanceSymmetric(a, b, n - 1);
    }
  }

  /** calculateFitness, after rendering: the accumulating loop over pixels. */
  method CalculateFitness(targetData: seq<Byte>, individualData: seq<Byte>) returns (diff: nat)
    requires |targetData| == |individualData| && |targetData| % 4 == 0
    ensures diff == ImageDistance(targetData, individualData)
    ensures diff <= MAX_PIXEL_DISTANCE * (|targetData| / 4)
    ensures diff == 0 <==> forall p :: 0 <= p < |targetData| / 4 ==> RgbMatch(targetData, individualData, p)
  {
    diff := 0;
    var maxIterations := |targetData| / 4;
    var i := 0;
    while i < maxIterations
      invariant 0 <= i <= maxIterations
      invariant diff == Distance(targetData, individualData, i)
    {
      diff := diff + Abs(targetData[i * 4] as int - individualData[i * 4] as int);
      diff := diff + Abs(targetData[i * 4 + 1] as int - individualData[i * 4 + 1] as int);
      diff := diff + Abs(targetData[i * 4 + 2] as int - individualData[i * 4 + 2] as int);
      i := i + 1;
    }
    DistanceBounds(targetData, individualData, maxIterations);
    DistanceZeroIff(targetData, individualData, maxIterations);
  }
}
