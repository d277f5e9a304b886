/** The crop rectangles that cut a background picture into the challenge grid
    (src/recaptcha.js:389-396). Only the geometry is modelled, not the pixels. */
module Tiling {
  import opened Arith

  /** A crop request `crop(x, y, w, h)`. */
  datatype Rect = Rect(x: real, y: real, w: real, h: real)

  /** `cropSize = image.bitmap.width / n`, in exact arithmetic. */
  function CropSize(width: nat, n: nat): (c: real)
    requires n > 0
    ensures 0.0 <= c
    ensures c * n as real == width as real
  {
    width as real / n as real
  }

  /** The square in row `i` and column `j`: it starts `j` squares to the right and
      `i` squares down. */
  function CropAt(width: nat, n: nat, i: nat, j: nat): Rect
    requires n > 0
  {
    var c := CropSize(width, n);
    Rect(j as real * c, i as real * c, c, c)
  }

  /** The `n * n` crops in the order the nested loops request them. */
  function Crops(width: nat, n: nat): (crops: seq<Rect>)
    requires n > 0
    ensures |crops| == n * n
  {
    seq(n * n, k requires 0 <= k < n * n => CropAt(width, n, k / n, k % n))
  }

  /** The crop with index `i * n + j` is the square in row `i` and column `j`:
      the crops come row by row, left to right. */
  lemma CropOrder(width: nat, n: nat, i: nat, j: nat)
    requires i < n && j < n
    ensures i * n + j < n * n
    ensures Crops(width, n)[i * n + j] == CropAt(width, n, i, j)
  {
    RowMajor(n, i, j);
    MulMono(i + 1, n, n);
    assert (i + 1) * n == i * n + n;
  }

  /** Every crop is a square of side `width / n` lying inside the `width` by `width`
      square at the top left of the picture. */
  lemma CropsInside(width: nat, n: nat, k: nat)
    requires n > 0 && k < n * n
    ensures var r := Crops(width, n)[k];
      && r.w == r.h == CropSize(width, n)
      && 0.0 <= r.x && r.x + r.w <= width as real
      && 0.0 <= r.y && r.y + r.h <= width as real
  {
    RowOf(n, k);
    InsideAlong(width, n, k / n);
    InsideAlong(width, n, k % n);
  }

  /** A square that starts `a < n` squares along still ends inside the picture. */
  lemma InsideAlong(width: nat, n: nat, a: nat)
    requires a < n
    ensures var c := CropSize(width, n);
      0.0 <= a as real * c && a as real * c + c <= width as real
  {
    var c := CropSize(width, n);
    assert a as real * c + c == (a + 1) as real * c;
    RealMulMono(a + 1, n, c);
  }

  lemma RealMulMono(a: nat, b: nat, c: real)
    requires a <= b && 0.0 <= c
    ensures a as real * c <= b as real * c
  {
    assert b as real * c - a as real * c == (b - a) as real * c;
  }

  /** The nested crop loops over rows `i` and columns `j`. */
  method TileCrops(width: nat, n: nat) returns (crops: seq<Rect>)
    requires n > 0
    ensures crops == Crops(width, n)
  {
    crops := [];
    var i := 0;
    while i < n
      invariant 0 <= i <= n
      invariant |crops| == i * n
      invariant forall k :: 0 <= k < |crops| ==> crops[k] == CropAt(width, n, k / n, k % n)
    {
      var j := 0;
      while j < n
        invariant 0 <= j <= n
        invariant |crops| == i * n + j
        invariant forall k :: 0 <= k < |crops| ==> crops[k] == CropAt(width, n, k / n, k % n)
      {
        RowMajor(n, i, j);
        crops := crops + [CropAt(width, n, i, j)];
        j := j + 1;
      }
      i := i + 1;
    }
  }
}
