/** The input preparation of `imageDataToTensor` (src/recaptcha.js:26-56): the RGBA
    bitmap is split into red, green and blue planes, then scaled and normalised with
    the ImageNet means and deviations. */
module Tensor {
  import opened Arith

  /** Channel `c` of every pixel of an RGBA buffer, in pixel order. */
  function Plane(data: seq<int>, c: nat): (plane: seq<int>)
    requires |data| % 4 == 0 && c < 4
    ensures |plane| == |data| / 4
    ensures forall p :: 0 <= p < |plane| ==> plane[p] == data[4 * p + c]
  {
    seq(|data| / 4, p requires 0 <= p < |data| / 4 => data[4 * p + c])
  }

  /** The push loop over the buffer in steps of four, followed by the concatenation
      `red ++ green ++ blue`. */
  method Deinterleave(data: seq<int>) returns (planar: seq<int>)
    requires |data| % 4 == 0
    ensures planar == Plane(data, 0) + Plane(data, 1) + Plane(data, 2)
  {
    var red, green, blue := [], [], [];
    var i := 0;
    while i < |data|
      invariant 0 <= i <= |data| && i % 4 == 0
      invariant red == Plane(data, 0)[..i / 4]
      invariant green == Plane(data, 1)[..i / 4]
      invariant blue == Plane(data, 2)[..i / 4]
    {
      red := red + [data[i]];
      green := green + [data[i + 1]];
      blue := blue + [data[i + 2]];
      i := i + 4;
    }
    planar := red + green + blue;
  }

  /** Entry `c * P + p` of the planar data, `P` being the pixel count, is channel `c`
      of pixel `p`. */
  lemma PlanarLayout(data: seq<int>, c: nat, p: nat)
    requires |data| % 4 == 0 && c < 3 && p < |data| / 4
    ensures var planar := Plane(data, 0) + Plane(data, 1) + Plane(data, 2);
      |planar| == 3 * (|data| / 4) && planar[c * (|data| / 4) + p] == data[4 * p + c]
  {
    var P := |data| / 4;
    MulMono(c + 1, 3, P);
    assert (c + 1) * P == c * P + P;
  }

  /** Two buffers give the same planar data exactly when they agree on every pixel's
      red, green and blue: only the alpha channel is lost. */
  lemma DeinterleaveDropsOnlyAlpha(a: seq<int>, b: seq<int>)
    requires |a| % 4 == 0 && |a| == |b|
    ensures Plane(a, 0) + Plane(a, 1) + Plane(a, 2) == Plane(b, 0) + Plane(b, 1) + Plane(b, 2)
      <==> forall i :: 0 <= i < |a| && i % 4 != 3 ==> a[i] == b[i]
  {
    if Plane(a, 0) + Plane(a, 1) + Plane(a, 2) == Plane(b, 0) + Plane(b, 1) + Plane(b, 2) {
      SamePlanarSameColours(a, b);
    }
    if forall i :: 0 <= i < |a| && i % 4 != 3 ==> a[i] == b[i] {
      SameColoursSamePlanes(a, b, 0);
      SameColoursSamePlanes(a, b, 1);
      SameColoursSamePlanes(a, b, 2);
    }
  }

  lemma SamePlanarSameColours(a: seq<int>, b: seq<int>)
    requires |a| % 4 == 0 && |a| == |b|
    requires Plane(a, 0) + Plane(a, 1) + Plane(a, 2) == Plane(b, 0) + Plane(b, 1) + Plane(b, 2)
    ensures forall i :: 0 <= i < |a| && i % 4 != 3 ==> a[i] == b[i]
  {
    forall i | 0 <= i < |a| && i % 4 != 3 ensures a[i] == b[i] {
      var p, c := i / 4, i % 4;
      PlanarLayout(a, c, p);
      PlanarLayout(b, c, p);
    }
  }

  lemma SameColoursSamePlanes(a: seq<int>, b: seq<int>, c: nat)
    requires |a| % 4 == 0 && |a| == |b| && c < 3
    requires forall i :: 0 <= i < |a| && i % 4 != 3 ==> a[i] == b[i]
    ensures Plane(a, c) == Plane(b, c)
  {
    forall p | 0 <= p < |a| / 4 ensures Plane(a, c)[p] == Plane(b, c)[p] {
      assert (4 * p + c) % 4 == c;
    }
  }

  /** The ImageNet means and standard deviations of the source, per channel. */
  function Mean(c: nat): real
    requires c < 3
  {
    if c == 0 then 0.485 else if c == 1 then 0.456 else 0.406
  }

  function Std(c: nat): (s: real)
    requires c < 3
    ensures s > 0.0
  {
    if c == 0 then 0.229 else if c == 1 then 0.224 else 0.225
  }

  function Scale(x: int, c: nat): real
    requires c < 3
  {
    (x as real / 255.0 - Mean(c)) / Std(c)
  }

  /** The normalisation loop as written: entry `i` of the planar data is normalised
      with the statistics of channel `i % 3`. */
  function NormalizeAsWritten(planar: seq<int>): (out: seq<real>)
    ensures |out| == |planar|
    ensures forall i :: 0 <= i < |planar| ==> out[i] == Scale(planar[i], i % 3)
  {
    seq(|planar|, i requires 0 <= i < |planar| => Scale(planar[i], i % 3))
  }

  /** The `Float32Array` of `x / 255`, normalised in place by the loop over `i`. */
  method Normalize(planar: seq<int>) returns (out: array<real>)
    ensures out[..] == NormalizeAsWritten(planar)
  {
    out := new real[|planar|](i requires 0 <= i < |planar| => planar[i] as real / 255.0);
    var i := 0;
    while i < out.Length
      invariant 0 <= i <= out.Length == |planar|
      invariant forall k :: 0 <= k < i ==> out[k] == Scale(planar[k], k % 3)
      invariant forall k :: i <= k < out.Length ==> out[k] == planar[k] as real / 255.0
    {
      out[i] := (out[i] - Mean(i % 3)) / Std(i % 3);
      i := i + 1;
    }
  }

  /** Per-channel normalisation of planar data: entry `i` belongs to channel
      `i / P`, where `P` is a third of the length. */
  function NormalizeByChannel(planar: seq<int>): (out: seq<real>)
    requires |planar| % 3 == 0
    ensures |out| == |planar|
  {
    var P := |planar| / 3;
    seq(|planar|, i requires 0 <= i < |planar| => Scale(planar[i], i / P))
  }

  /** Every channel value is normalised with its own channel's statistics. */
  lemma ByChannelUsesOwnChannel(data: seq<int>, c: nat, p: nat)
    requires |data| % 4 == 0 && c < 3 && p < |data| / 4
    ensures var planar := Plane(data, 0) + Plane(data, 1) + Plane(data, 2);
      |planar| % 3 == 0
      && NormalizeByChannel(planar)[c * (|data| / 4) + p] == Scale(data[4 * p + c], c)
  {
    var P := |data| / 4;
    PlanarLayout(data, c, p);
    RowMajor(P, c, p);
    assert (3 * P) / 3 == P;
  }

  /** A two-pixel black image: its planar data is six zeros. */
  const TwoBlackPixels: seq<int> := [0, 0, 0, 255, 0, 0, 0, 255]

  /** The red value of the second pixel sits at planar index 1 and is normalised with
      the green statistics, so the as-written output differs from per-channel
      normalisation. */
  lemma NormalizeMixesChannels()
    ensures var planar := Plane(TwoBlackPixels, 0) + Plane(TwoBlackPixels, 1) + Plane(TwoBlackPixels, 2);
      && planar[1] == TwoBlackPixels[4]
      && NormalizeAsWritten(planar)[1] == Scale(0, 1)
      && NormalizeByChannel(planar)[1] == Scale(0, 0)
      && NormalizeAsWritten(planar) != NormalizeByChannel(planar)
  {
    var planar := Plane(TwoBlackPixels, 0) + Plane(TwoBlackPixels, 1) + Plane(TwoBlackPixels, 2);
    PlanarLayout(TwoBlackPixels, 0, 1);
    assert Scale(0, 1) != Scale(0, 0);
    assert NormalizeAsWritten(planar)[1] != NormalizeByChannel(planar)[1];
  }
}
