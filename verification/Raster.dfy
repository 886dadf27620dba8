/** Row-major images: where a pixel stands in the flat array. */
module Raster {

  /** Index of pixel (x, y) in an image `w` pixels wide. */
  function At(w: int, y: int, x: int): int {
    y * w + x
  }

  lemma AtInRange(w: nat, h: nat, y: int, x: int)
    requires 0 <= y < h && 0 <= x < w
    ensures 0 <= At(w, y, x) < w * h
    ensures At(w, y, 0) <= At(w, y, x) < At(w, y + 1, 0) <= w * h
  {
    RowBounds(w, h, y);
  }

  lemma RowBounds(w: nat, h: nat, y: int)
    requires 0 <= y < h
    ensures 0 <= y * w && (y + 1) * w == y * w + w <= w * h
  {
    MultiplyMonotone(w, y + 1, h);
  }

  lemma MultiplyMonotone(w: nat, a: int, b: int)
    requires a <= b
    ensures a * w <= b * w
  {
    assert (b - a) * w >= 0;
  }

  lemma SameRow(w: int, y: int)
    ensures forall a, b :: At(w, y, a) == At(w, y, b) ==> a == b
  {
  }

  /** Pixels of an earlier row come before the row starts. */
  lemma EarlierRow(w: nat, y': int, y: int, x: int)
    requires 0 <= y' < y && 0 <= x < w
    ensures 0 <= At(w, y', x) < At(w, y, 0)
  {
    MultiplyMonotone(w, y' + 1, y);
  }

  lemma LaterRow(w: nat, y': int, y: int, x: int)
    requires 0 <= y < y' && 0 <= x < w
    ensures At(w, y', x) >= At(w, y + 1, 0)
  {
    MultiplyMonotone(w, y + 1, y');
  }

  lemma RowStarts(w: nat, a: int, b: int)
    requires a <= b
    ensures At(w, a, 0) <= At(w, b, 0)
  {
    MultiplyMonotone(w, a, b);
  }

  /** Different pixels of an image have different indices. */
  lemma AtInjective(w: nat, h: nat, y: int, x: int, y': int, x': int)
    requires 0 <= y < h && 0 <= x < w && 0 <= y' < h && 0 <= x' < w
    requires At(w, y, x) == At(w, y', x')
    ensures y == y' && x == x'
  {
    AtInRange(w, h, y, x);
    AtInRange(w, h, y', x');
    if y < y' { EarlierRow(w, y, y', x); }
    if y' < y { EarlierRow(w, y', y, x'); }
  }
}
