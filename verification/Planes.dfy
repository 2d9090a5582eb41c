/** Planes and pixels: the same samples in two orders. */
module Planes {
  import Bits

  lemma StepProduct(k: nat, n: nat, d: nat)
    requires k < n
    ensures k * d + d == (k + 1) * d <= n * d
  {
    Bits.MulStep(k + 1, n, d);
  }

  /** Sample `pixel` of every plane. */
  function Pixel<T>(data: seq<T>, planeSize: nat, planes: nat, pixel: nat): (s: seq<T>)
    requires pixel < planeSize && planes * planeSize <= |data|
    ensures |s| == planes
  {
    seq(planes, q requires 0 <= q < planes => PlaneBound(planeSize, planes, pixel, q); data[q * planeSize + pixel])
  }

  lemma PlaneBound(planeSize: nat, planes: nat, pixel: nat, q: nat)
    requires pixel < planeSize && q < planes
    ensures 0 <= q * planeSize + pixel < planes * planeSize
  {
    StepProduct(q, planes, planeSize);
  }

  /** The first `n` pixels. */
  function Interleaved<T>(data: seq<T>, planeSize: nat, planes: nat, n: nat): (s: seq<T>)
    requires n <= planeSize && planes * planeSize <= |data|
    decreases n
  {
    if n == 0 then [] else Interleaved(data, planeSize, planes, n - 1) + Pixel(data, planeSize, planes, n - 1)
  }

  /** Each output sample is the one its pixel and plane name. */
  lemma {:induction false} InterleavedAt<T>(data: seq<T>, planeSize: nat, planes: nat, n: nat, p: nat, q: nat)
    requires p < n <= planeSize && planes * planeSize <= |data| && q < planes
    ensures p * planes + q < |Interleaved(data, planeSize, planes, n)| == n * planes && q * planeSize + p < |data|
    ensures Interleaved(data, planeSize, planes, n)[p * planes + q] == data[q * planeSize + p]
    decreases n
  {
    InterleavedLength(data, planeSize, planes, n);
    InterleavedLength(data, planeSize, planes, n - 1);
    PlaneBound(planes, n, q, p);
    PlaneBound(planeSize, planes, p, q);
    if p < n - 1 {
      InterleavedAt(data, planeSize, planes, n - 1, p, q);
    }
  }

  lemma {:induction false} InterleavedLength<T>(data: seq<T>, planeSize: nat, planes: nat, n: nat)
    requires n <= planeSize && planes * planeSize <= |data|
    ensures |Interleaved(data, planeSize, planes, n)| == n * planes
    decreases n
  {
    if n > 0 {
      InterleavedLength(data, planeSize, planes, n - 1);
      StepProduct(n - 1, n, planes);
    }
  }

  /** Interleaving the pixels as if they were planes gives the planes back: a transposition is its own inverse. */
  lemma {:induction false} InterleaveTransposes<T>(data: seq<T>, planeSize: nat, planes: nat)
    requires planes * planeSize == |data|
    ensures
      var pixels := Interleaved(data, planeSize, planes, planeSize);
      |pixels| == planeSize * planes && Interleaved(pixels, planes, planeSize, planes) == data
  {
    var pixels := Interleaved(data, planeSize, planes, planeSize);
    InterleavedLength(data, planeSize, planes, planeSize);
    var back := Interleaved(pixels, planes, planeSize, planes);
    InterleavedLength(pixels, planes, planeSize, planes);
    forall i | 0 <= i < |data| ensures back[i] == data[i] {
      var p, q := SplitIndex(i, planeSize, planes);
      InterleavedAt(data, planeSize, planes, planeSize, p, q);
      InterleavedAt(pixels, planes, planeSize, planes, q, p);
    }
  }

  lemma {:induction false} SplitIndex(i: nat, planeSize: nat, planes: nat) returns (p: nat, q: nat)
    requires i < planes * planeSize
    ensures p < planeSize && q < planes && i == q * planeSize + p
  {
    if planeSize == 0 { assert false; }
    q, p := i / planeSize, i % planeSize;
    if q >= planes { Bits.MulStep(planes, q, planeSize); }
  }
}
