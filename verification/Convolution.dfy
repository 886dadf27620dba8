/** The scalar image filters of `benches/simd_vs_scalar.rs` over the reals: the
    two-pass separable convolution and the direct 3x3 Gaussian, both proved
    against one two-dimensional convolution. Images are row-major. */
module Convolution {
  import opened Prelude
  import opened Bytes
  import opened Raster

  // ------------------------------------------------------------- specification

  function Pixel(img: seq<real>, w: nat, y: int, x: int): real {
    var i := At(w, y, x);
    if 0 <= i < |img| then img[i] else 0.0
  }

  /** The first `n` terms of the weighted sum along row `y` around column `x`,
      each further multiplied by `c`. */
  function RowSum(img: seq<real>, w: nat, rk: seq<real>, c: real, y: int, x: int, n: nat): real
    requires n <= |rk|
  {
    if n == 0 then 0.0
    else RowSum(img, w, rk, c, y, x, n - 1) + Pixel(img, w, y, x + (n - 1) - |rk| / 2) * (rk[n - 1] * c)
  }

  /** The first `n` rows of the two-dimensional convolution at (x, y) with the
      outer product of the two kernels. */
  function WindowSum(img: seq<real>, w: nat, rk: seq<real>, ck: seq<real>, y: int, x: int, n: nat): real
    requires n <= |ck|
  {
    if n == 0 then 0.0
    else WindowSum(img, w, rk, ck, y, x, n - 1) + RowSum(img, w, rk, ck[n - 1], y + (n - 1) - |ck| / 2, x, |rk|)
  }

  function Convolve(img: seq<real>, w: nat, rk: seq<real>, ck: seq<real>, y: int, x: int): real {
    WindowSum(img, w, rk, ck, y, x, |ck|)
  }

  predicate InnerColumn(w: nat, rk: seq<real>, x: int) {
    |rk| / 2 <= x < w - |rk| / 2
  }

  predicate InnerRow(h: nat, ck: seq<real>, y: int) {
    |ck| / 2 <= y < h - |ck| / 2
  }

  /** What the horizontal pass leaves at (x, y). */
  function Intermediate(img: seq<real>, w: nat, rk: seq<real>, y: int, x: int): real {
    if InnerColumn(w, rk, x) then RowSum(img, w, rk, 1.0, y, x, |rk|) else 0.0
  }

  /** The first `n` terms of the vertical sum over intermediate values. */
  function ColumnSum(img: seq<real>, w: nat, rk: seq<real>, ck: seq<real>, y: int, x: int, n: nat): real
    requires n <= |ck|
  {
    if n == 0 then 0.0
    else ColumnSum(img, w, rk, ck, y, x, n - 1) + Intermediate(img, w, rk, y + (n - 1) - |ck| / 2, x) * ck[n - 1]
  }

  lemma {:induction false} RowSumScales(img: seq<real>, w: nat, rk: seq<real>, c: real, y: int, x: int, n: nat)
    requires n <= |rk|
    ensures RowSum(img, w, rk, 1.0, y, x, n) * c == RowSum(img, w, rk, c, y, x, n)
  {
    if n > 0 {
      RowSumScales(img, w, rk, c, y, x, n - 1);
      ScaleTerm(RowSum(img, w, rk, 1.0, y, x, n - 1), Pixel(img, w, y, x + (n - 1) - |rk| / 2), rk[n - 1], c);
    }
  }

  lemma ScaleTerm(s: real, p: real, k: real, c: real)
    ensures (s + p * (k * 1.0)) * c == s * c + p * (k * c)
  {
  }

  /** At an inner column the two passes add up to the two-dimensional sum; at a
      border column they add up to zero. */
  lemma {:induction false} TwoPassesAreOne(img: seq<real>, w: nat, rk: seq<real>, ck: seq<real>, y: int, x: int, n: nat)
    requires n <= |ck|
    ensures ColumnSum(img, w, rk, ck, y, x, n) ==
            if InnerColumn(w, rk, x) then WindowSum(img, w, rk, ck, y, x, n) else 0.0
  {
    if n > 0 {
      TwoPassesAreOne(img, w, rk, ck, y, x, n - 1);
      RowSumScales(img, w, rk, ck[n - 1], y + (n - 1) - |ck| / 2, x, |rk|);
      hide RowSum;
    }
  }

  // ----------------------------------------------------------- horizontal pass

  method RowDot(data: seq<real>, w: nat, h: nat, rk: seq<real>, y: nat, x: nat) returns (sum: real)
    requires y < h && |data| >= w * h && InnerColumn(w, rk, x)
    ensures sum == RowSum(data, w, rk, 1.0, y, x, |rk|)
  {
    var kr := |rk| / 2;
    sum := 0.0;
    for k := 0 to |rk|
      invariant sum == RowSum(data, w, rk, 1.0, y, x, k)
    {
      var ix := x + k - kr;
      AtInRange(w, h, y, ix);
      sum := sum + data[At(w, y, ix)] * rk[k];
    }
  }

  method HorizontalRow(data: seq<real>, tmp: array<real>, w: nat, h: nat, rk: seq<real>, y: nat)
    requires y < h && |data| >= w * h && tmp.Length == w * h
    modifies tmp
    ensures forall i :: 0 <= i < tmp.Length && !(At(w, y, 0) <= i < At(w, y + 1, 0)) ==> tmp[i] == old(tmp[i])
    ensures forall x :: 0 <= x < w ==>
                          && 0 <= At(w, y, x) < tmp.Length
                          && tmp[At(w, y, x)] ==
                             if InnerColumn(w, rk, x) then RowSum(data, w, rk, 1.0, y, x, |rk|)
                             else old(tmp[At(w, y, x)])
  {
    hide At, RowSum;
    SameRow(w, y);
    var kr := |rk| / 2;
    var stop := if w < kr then 0 else w - kr;
    var x := kr;
    forall c | 0 <= c < w ensures 0 <= At(w, y, c) < tmp.Length { AtInRange(w, h, y, c); }
    while x < stop
      invariant kr <= x
      invariant stop <= x ==> x == stop || x == kr
      invariant forall i :: 0 <= i < tmp.Length && !(At(w, y, 0) <= i < At(w, y + 1, 0)) ==> tmp[i] == old(tmp[i])
      invariant forall c :: 0 <= c < w ==>
                              tmp[At(w, y, c)] ==
                              if InnerColumn(w, rk, c) && c < x then RowSum(data, w, rk, 1.0, y, c, |rk|)
                              else old(tmp[At(w, y, c)])
    {
      var sum := RowDot(data, w, h, rk, y, x);
      AtInRange(w, h, y, x);
      tmp[At(w, y, x)] := sum;
      x := x + 1;
    }
  }

  method HorizontalPass(data: seq<real>, w: nat, h: nat, rk: seq<real>) returns (tmp: array<real>)
    requires |data| >= w * h
    ensures fresh(tmp) && tmp.Length == w * h
    ensures forall y, x :: 0 <= y < h && 0 <= x < w ==>
                             0 <= At(w, y, x) < tmp.Length && tmp[At(w, y, x)] == Intermediate(data, w, rk, y, x)
  {
    hide At, Intermediate, RowSum;
    tmp := new real[w * h](_ => 0.0);
    var y := 0;
    while y < h
      invariant 0 <= y <= h && fresh(tmp)
      invariant forall i :: 0 <= i < tmp.Length && At(w, y, 0) <= i ==> tmp[i] == 0.0
      invariant forall r, x :: 0 <= r < y && 0 <= x < w ==>
                                 0 <= At(w, r, x) < tmp.Length && tmp[At(w, r, x)] == Intermediate(data, w, rk, r, x)
    {
      ghost var before := tmp[..];
      HorizontalRow(data, tmp, w, h, rk, y);
      RowFinished(data, w, h, rk, y, before, tmp[..]);
      y := y + 1;
    }
  }

  lemma RowFinished(data: seq<real>, w: nat, h: nat, rk: seq<real>, y: nat, before: seq<real>, after: seq<real>)
    requires y < h && |before| == |after| == w * h
    requires forall i :: 0 <= i < w * h && At(w, y, 0) <= i ==> before[i] == 0.0
    requires forall i :: 0 <= i < w * h && !(At(w, y, 0) <= i < At(w, y + 1, 0)) ==> after[i] == before[i]
    requires forall x :: 0 <= x < w ==>
                           && 0 <= At(w, y, x) < w * h
                           && after[At(w, y, x)] ==
                              if InnerColumn(w, rk, x) then RowSum(data, w, rk, 1.0, y, x, |rk|)
                              else before[At(w, y, x)]
    requires forall r, x :: 0 <= r < y && 0 <= x < w ==>
                              0 <= At(w, r, x) < w * h && before[At(w, r, x)] == Intermediate(data, w, rk, r, x)
    ensures forall i :: 0 <= i < w * h && At(w, y + 1, 0) <= i ==> after[i] == 0.0
    ensures forall r, x :: 0 <= r < y + 1 && 0 <= x < w ==>
                             0 <= At(w, r, x) < w * h && after[At(w, r, x)] == Intermediate(data, w, rk, r, x)
  {
    forall i | 0 <= i < w * h && At(w, y + 1, 0) <= i ensures after[i] == 0.0 {
      if w > 0 { AtInRange(w, h, y, 0); }
    }
    forall r, x | 0 <= r < y + 1 && 0 <= x < w
      ensures 0 <= At(w, r, x) < w * h && after[At(w, r, x)] == Intermediate(data, w, rk, r, x)
    {
      AtInRange(w, h, y, x);
      if r < y { EarlierRow(w, r, y, x); }
    }
  }

  // ------------------------------------------------------------- vertical pass

  ghost predicate HoldsIntermediate(tmp: seq<real>, data: seq<real>, w: nat, h: nat, rk: seq<real>) {
    forall y, x :: 0 <= y < h && 0 <= x < w ==>
                     0 <= At(w, y, x) < |tmp| && tmp[At(w, y, x)] == Intermediate(data, w, rk, y, x)
  }

  method ColumnDot(tmp: seq<real>, ghost data: seq<real>, w: nat, h: nat, ghost rk: seq<real>, ck: seq<real>,
                   y: nat, x: nat)
    returns (sum: real)
    requires x < w && InnerRow(h, ck, y) && HoldsIntermediate(tmp, data, w, h, rk)
    ensures sum == ColumnSum(data, w, rk, ck, y, x, |ck|)
  {
    hide At, Intermediate;
    var kc := |ck| / 2;
    sum := 0.0;
    for k := 0 to |ck|
      invariant sum == ColumnSum(data, w, rk, ck, y, x, k)
    {
      var iy := y + k - kc;
      assert 0 <= iy < h;
      sum := sum + tmp[At(w, iy, x)] * ck[k];
    }
  }

  /** What a finished image row holds: the convolution inside, zero at the border. */
  ghost predicate RowConvolved(out: seq<real>, data: seq<real>, w: nat, rk: seq<real>, ck: seq<real>, y: int, n: int) {
    forall x :: 0 <= x < n ==>
                  && 0 <= At(w, y, x) < |out|
                  && out[At(w, y, x)] == if InnerColumn(w, rk, x) then Convolve(data, w, rk, ck, y, x) else 0.0
  }

  method VerticalRow(tmp: seq<real>, ghost data: seq<real>, output: array<real>, w: nat, h: nat,
                     ghost rk: seq<real>, ck: seq<real>, y: nat)
    requires InnerRow(h, ck, y) && HoldsIntermediate(tmp, data, w, h, rk) && output.Length >= w * h
    modifies output
    ensures forall i :: 0 <= i < output.Length && !(At(w, y, 0) <= i < At(w, y + 1, 0)) ==> output[i] == old(output[i])
    ensures RowConvolved(output[..], data, w, rk, ck, y, w)
  {
    hide At, ColumnSum, WindowSum, RowConvolved;
    NothingConvolved(output[..], data, w, rk, ck, y);
    for x := 0 to w
      invariant forall i :: 0 <= i < output.Length && !(At(w, y, 0) <= i < At(w, y + 1, 0)) ==>
                  output[i] == old(output[i])
      invariant RowConvolved(output[..], data, w, rk, ck, y, x)
    {
      var sum := ColumnDot(tmp, data, w, h, rk, ck, y, x);
      TwoPassesAreOne(data, w, rk, ck, y, x, |ck|);
      AtInRange(w, h, y, x);
      ghost var before := output[..];
      output[At(w, y, x)] := sum;
      RowExtend(before, output[..], data, w, rk, ck, y, x);
    }
  }

  lemma NothingConvolved(out: seq<real>, data: seq<real>, w: nat, rk: seq<real>, ck: seq<real>, y: int)
    ensures RowConvolved(out, data, w, rk, ck, y, 0)
  {
  }

  lemma RowExtend(before: seq<real>, after: seq<real>, data: seq<real>, w: nat, rk: seq<real>, ck: seq<real>, y: int,
                  x: int)
    requires 0 <= x < w && 0 <= At(w, y, x) < |before|
    requires after == before[At(w, y, x) := if InnerColumn(w, rk, x) then Convolve(data, w, rk, ck, y, x) else 0.0]
    requires RowConvolved(before, data, w, rk, ck, y, x)
    ensures RowConvolved(after, data, w, rk, ck, y, x + 1)
  {
    SameRow(w, y);
    hide At, Convolve;
  }

  ghost predicate RowKept(out: seq<real>, before: seq<real>, w: nat, y: int) {
    forall x :: 0 <= x < w ==>
                  0 <= At(w, y, x) < |out| && 0 <= At(w, y, x) < |before| && out[At(w, y, x)] == before[At(w, y, x)]
  }

  /** The contract of the whole filter, against the output it started from. */
  ghost predicate Filtered(out: seq<real>, before: seq<real>, data: seq<real>, w: nat, h: nat,
                           rk: seq<real>, ck: seq<real>, stop: int) {
    && |out| == |before|
    && (forall y :: InnerRow(h, ck, y) && y < stop ==> RowConvolved(out, data, w, rk, ck, y, w))
    && (forall i :: 0 <= i < |out| && !(At(w, |ck| / 2, 0) <= i < At(w, stop, 0)) ==> out[i] == before[i])
  }

  /** Two-pass separable convolution. At every inner pixel the output is the
      two-dimensional convolution with the outer product of the kernels; border
      columns of inner rows become zero; everything else is left alone. */
  method SeparableConvolve(data: seq<real>, output: array<real>, w: nat, h: nat, rk: seq<real>, ck: seq<real>)
    requires |data| >= w * h && output.Length >= w * h
    modifies output
    ensures forall y :: InnerRow(h, ck, y) ==> RowConvolved(output[..], data, w, rk, ck, y, w)
    ensures forall y :: 0 <= y < h && !InnerRow(h, ck, y) ==> RowKept(output[..], old(output[..]), w, y)
    ensures forall i :: w * h <= i < output.Length ==> output[i] == old(output[i])
  {
    var kc := |ck| / 2;
    var tmpArray := HorizontalPass(data, w, h, rk);
    var tmp := tmpArray[..];
    var stop := if h < kc then 0 else h - kc;
    var y := kc;
    ghost var before := output[..];
    while y < stop
      invariant kc <= y && (y <= stop || y == kc)
      invariant Filtered(output[..], before, data, w, h, rk, ck, y)
    {
      ghost var mid := output[..];
      VerticalRow(tmp, data, output, w, h, rk, ck, y);
      FilterRow(output[..], mid, before, data, w, h, rk, ck, y);
      y := y + 1;
    }
    FilterDone(output[..], before, data, w, h, rk, ck, y);
  }

  lemma FilterRow(out: seq<real>, mid: seq<real>, before: seq<real>, data: seq<real>, w: nat, h: nat,
                  rk: seq<real>, ck: seq<real>, y: nat)
    requires InnerRow(h, ck, y) && |out| == |mid| >= w * h
    requires Filtered(mid, before, data, w, h, rk, ck, y)
    requires forall i :: 0 <= i < |out| && !(At(w, y, 0) <= i < At(w, y + 1, 0)) ==> out[i] == mid[i]
    requires RowConvolved(out, data, w, rk, ck, y, w)
    ensures Filtered(out, before, data, w, h, rk, ck, y + 1)
  {
    forall r | InnerRow(h, ck, r) && r < y + 1 ensures RowConvolved(out, data, w, rk, ck, r, w) {
      if r < y {
        assert RowConvolved(mid, data, w, rk, ck, r, w);
        forall x | 0 <= x < w
          ensures && 0 <= At(w, r, x) < |out|
                  && out[At(w, r, x)] == if InnerColumn(w, rk, x) then Convolve(data, w, rk, ck, r, x) else 0.0
        {
          EarlierRow(w, r, y, x);
        }
      }
    }
    RowStarts(w, |ck| / 2, y);
    RowStarts(w, y, y + 1);
  }

  lemma FilterDone(out: seq<real>, before: seq<real>, data: seq<real>, w: nat, h: nat,
                   rk: seq<real>, ck: seq<real>, y: nat)
    requires Filtered(out, before, data, w, h, rk, ck, y) && |out| >= w * h
    requires y == (if |ck| / 2 < h - |ck| / 2 then h - |ck| / 2 else |ck| / 2)
    ensures forall r :: InnerRow(h, ck, r) ==> RowConvolved(out, data, w, rk, ck, r, w)
    ensures forall r :: 0 <= r < h && !InnerRow(h, ck, r) ==> RowKept(out, before, w, r)
    ensures forall i :: w * h <= i < |out| ==> out[i] == before[i]
  {
    hide RowConvolved;
    forall r | 0 <= r < h && !InnerRow(h, ck, r) ensures RowKept(out, before, w, r) {
      forall x | 0 <= x < w
        ensures 0 <= At(w, r, x) < |out| && out[At(w, r, x)] == before[At(w, r, x)]
      {
        AtInRange(w, h, r, x);
        if r < |ck| / 2 { EarlierRow(w, r, |ck| / 2, x); } else { LaterRow(w, r, y - 1, x); }
      }
    }
    if |ck| / 2 < h - |ck| / 2 { RowStarts(w, y, h); }
  }

  // ---------------------------------------------------- what the kernels mean

  /** The kernel that is 1 at `k` and 0 elsewhere. */
  function Unit(n: nat, k: nat): (r: seq<real>)
    ensures |r| == n
  {
    seq(n, i => if i == k then 1.0 else 0.0)
  }

  /** The kernel `a` times `r` and `b` times `s`. */
  function Mixed(a: real, r: seq<real>, b: real, s: seq<real>): (m: seq<real>)
    requires |r| == |s|
    ensures |m| == |r|
  {
    seq(|r|, i requires 0 <= i < |r| => a * r[i] + b * s[i])
  }

  lemma {:induction false} RowOfUnit(img: seq<real>, w: nat, n: nat, k: nat, c: real, y: int, x: int, t: nat)
    requires k < n && t <= n
    ensures RowSum(img, w, Unit(n, k), c, y, x, t) == if k < t then Pixel(img, w, y, x + k - n / 2) * c else 0.0
  {
    hide Pixel;
    if t > 0 { RowOfUnit(img, w, n, k, c, y, x, t - 1); }
  }

  lemma {:induction false} WindowOfUnit(img: seq<real>, w: nat, rk: seq<real>, m: nat, l: nat, y: int, x: int, t: nat)
    requires l < m && t <= m
    ensures WindowSum(img, w, rk, Unit(m, l), y, x, t) ==
            if l < t then RowSum(img, w, rk, 1.0, y + l - m / 2, x, |rk|) else 0.0
  {
    hide RowSum;
    if t > 0 {
      var c, r := Unit(m, l)[t - 1], y + (t - 1) - m / 2;
      WindowOfUnit(img, w, rk, m, l, y, x, t - 1);
      RowSumScales(img, w, rk, c, r, x, |rk|);
    }
  }

  /** With kernels that are 1 in one place, filtering picks one pixel: the one that far
      from the middle of the window. */
  lemma UnitPicksPixel(img: seq<real>, w: nat, h: nat, n: nat, k: nat, m: nat, l: nat, y: int, x: int)
    requires k < n && l < m && |img| >= w * h
    requires n / 2 <= x < w - n / 2 && m / 2 <= y < h - m / 2
    ensures 0 <= (y + l - m / 2) * w + (x + k - n / 2) < |img|
    ensures Convolve(img, w, Unit(n, k), Unit(m, l), y, x) == img[(y + l - m / 2) * w + (x + k - n / 2)]
  {
    WindowOfUnit(img, w, Unit(n, k), m, l, y, x, m);
    RowOfUnit(img, w, n, k, 1.0, y + l - m / 2, x, n);
    AtInRange(w, h, y + l - m / 2, x + k - n / 2);
  }

  lemma {:induction false} RowOfMixed(img: seq<real>, w: nat, a: real, r: seq<real>, b: real, s: seq<real>, c: real,
                                      y: int, x: int, t: nat)
    requires |r| == |s| && t <= |r|
    ensures RowSum(img, w, Mixed(a, r, b, s), c, y, x, t) ==
            a * RowSum(img, w, r, c, y, x, t) + b * RowSum(img, w, s, c, y, x, t)
  {
    hide Pixel;
    if t > 0 {
      RowOfMixed(img, w, a, r, b, s, c, y, x, t - 1);
      MixedTerm(a, RowSum(img, w, r, c, y, x, t - 1), r[t - 1], b, RowSum(img, w, s, c, y, x, t - 1), s[t - 1], c,
                Pixel(img, w, y, x + (t - 1) - |r| / 2));
    }
  }

  lemma MixedTerm(a: real, u: real, r: real, b: real, v: real, s: real, c: real, p: real)
    ensures a * u + b * v + p * ((a * r + b * s) * c) == a * (u + p * (r * c)) + b * (v + p * (s * c))
  {
  }

  lemma {:induction false} WindowOfMixedRows(img: seq<real>, w: nat, a: real, r: seq<real>, b: real, s: seq<real>,
                                             ck: seq<real>, y: int, x: int, t: nat)
    requires |r| == |s| && t <= |ck|
    ensures WindowSum(img, w, Mixed(a, r, b, s), ck, y, x, t) ==
            a * WindowSum(img, w, r, ck, y, x, t) + b * WindowSum(img, w, s, ck, y, x, t)
  {
    hide *;
    var m := Mixed(a, r, b, s);
    if t == 0 {
      NoRows(img, w, m, ck, y, x);
      NoRows(img, w, r, ck, y, x);
      NoRows(img, w, s, ck, y, x);
    } else {
      var k := t - 1;
      var q := y + k - |ck| / 2;
      WindowOfMixedRows(img, w, a, r, b, s, ck, y, x, k);
      RowOfMixed(img, w, a, r, b, s, ck[k], q, x, |r|);
      OneMoreRow(img, w, m, ck, y, x, k);
      OneMoreRow(img, w, r, ck, y, x, k);
      OneMoreRow(img, w, s, ck, y, x, k);
      MixedSum(a, WindowSum(img, w, r, ck, y, x, k), RowSum(img, w, r, ck[k], q, x, |r|),
               b, WindowSum(img, w, s, ck, y, x, k), RowSum(img, w, s, ck[k], q, x, |r|));
    }
  }

  lemma OneMoreRow(img: seq<real>, w: nat, rk: seq<real>, ck: seq<real>, y: int, x: int, k: nat)
    requires k < |ck|
    ensures WindowSum(img, w, rk, ck, y, x, k + 1) ==
            WindowSum(img, w, rk, ck, y, x, k) + RowSum(img, w, rk, ck[k], y + k - |ck| / 2, x, |rk|)
  {
    hide RowSum;
  }

  lemma MixedSum(a: real, u: real, p: real, b: real, v: real, q: real)
    ensures (a * u + b * v) + (a * p + b * q) == a * (u + p) + b * (v + q)
  {
  }

  lemma {:induction false} WindowOfMixedColumns(img: seq<real>, w: nat, rk: seq<real>, a: real, r: seq<real>,
                                                b: real, s: seq<real>, y: int, x: int, t: nat)
    requires |r| == |s| && t <= |r|
    ensures WindowSum(img, w, rk, Mixed(a, r, b, s), y, x, t) ==
            a * WindowSum(img, w, rk, r, y, x, t) + b * WindowSum(img, w, rk, s, y, x, t)
  {
    hide *;
    if t == 0 {
      NoRows(img, w, rk, Mixed(a, r, b, s), y, x);
      NoRows(img, w, rk, r, y, x);
      NoRows(img, w, rk, s, y, x);
    } else {
      var k := t - 1;
      WindowOfMixedColumns(img, w, rk, a, r, b, s, y, x, k);
      NextRow(img, w, rk, Mixed(a, r, b, s), y, x, k);
      NextRow(img, w, rk, r, y, x, k);
      NextRow(img, w, rk, s, y, x, k);
      MixedAt(a, r, b, s, k);
      MixedColumn(a, r[k], b, s[k], RowSum(img, w, rk, 1.0, y + k - |r| / 2, x, |rk|));
    }
  }

  lemma NoRows(img: seq<real>, w: nat, rk: seq<real>, ck: seq<real>, y: int, x: int)
    ensures WindowSum(img, w, rk, ck, y, x, 0) == 0.0
  {
  }

  lemma NextRow(img: seq<real>, w: nat, rk: seq<real>, ck: seq<real>, y: int, x: int, k: nat)
    requires k < |ck|
    ensures WindowSum(img, w, rk, ck, y, x, k + 1) ==
            WindowSum(img, w, rk, ck, y, x, k) + RowSum(img, w, rk, 1.0, y + k - |ck| / 2, x, |rk|) * ck[k]
  {
    RowSumScales(img, w, rk, ck[k], y + k - |ck| / 2, x, |rk|);
    hide RowSum;
  }

  lemma MixedAt(a: real, r: seq<real>, b: real, s: seq<real>, k: nat)
    requires k < |r| == |s|
    ensures |Mixed(a, r, b, s)| == |r| && Mixed(a, r, b, s)[k] == a * r[k] + b * s[k]
  {
  }

  lemma MixedColumn(a: real, r: real, b: real, s: real, sum: real)
    ensures sum * (a * r + b * s) == a * (sum * r) + b * (sum * s)
  {
  }

  /** Filtering is linear in either kernel; so the single pixels above determine it. */
  lemma ConvolveLinear(img: seq<real>, w: nat, kernel: seq<real>, a: real, r: seq<real>, b: real, s: seq<real>,
                       y: int, x: int)
    requires |r| == |s|
    ensures Convolve(img, w, Mixed(a, r, b, s), kernel, y, x) ==
            a * Convolve(img, w, r, kernel, y, x) + b * Convolve(img, w, s, kernel, y, x)
    ensures Convolve(img, w, kernel, Mixed(a, r, b, s), y, x) ==
            a * Convolve(img, w, kernel, r, y, x) + b * Convolve(img, w, kernel, s, y, x)
  {
    hide RowSum, WindowSum, Mixed;
    WindowOfMixedRows(img, w, a, r, b, s, kernel, y, x, |kernel|);
    WindowOfMixedColumns(img, w, kernel, a, r, b, s, y, x, |r|);
  }

  /** The result of the filter, pixel by pixel. */
  lemma FilteredPixels(out: seq<real>, before: seq<real>, data: seq<real>, w: nat, h: nat, rk: seq<real>, ck: seq<real>)
    requires forall y :: InnerRow(h, ck, y) ==> RowConvolved(out, data, w, rk, ck, y, w)
    requires forall y :: 0 <= y < h && !InnerRow(h, ck, y) ==> RowKept(out, before, w, y)
    ensures forall y, x | 0 <= y < h && 0 <= x < w ::
              && 0 <= At(w, y, x) == y * w + x < |out|
              && if |ck| / 2 <= y < h - |ck| / 2 then
                   out[y * w + x] == if |rk| / 2 <= x < w - |rk| / 2 then Convolve(data, w, rk, ck, y, x) else 0.0
                 else y * w + x < |before| && out[y * w + x] == before[y * w + x]
  {
    forall y, x | 0 <= y < h && 0 <= x < w
      ensures && 0 <= At(w, y, x) == y * w + x < |out|
              && if |ck| / 2 <= y < h - |ck| / 2 then
                   out[y * w + x] == if |rk| / 2 <= x < w - |rk| / 2 then Convolve(data, w, rk, ck, y, x) else 0.0
                 else y * w + x < |before| && out[y * w + x] == before[y * w + x]
    {
      if InnerRow(h, ck, y) {
        assert RowConvolved(out, data, w, rk, ck, y, w);
      } else {
        assert RowKept(out, before, w, y);
      }
      hide Convolve;
    }
  }

  // ------------------------------------------------------------------ Gaussian

  const KERNEL: seq<real> := [0.0625, 0.125, 0.0625, 0.125, 0.25, 0.125, 0.0625, 0.125, 0.0625]
  const BINOMIAL: seq<real> := [0.25, 0.5, 0.25]

  function Reals(img: seq<Byte>): seq<real> {
    seq(|img|, i requires 0 <= i < |img| => img[i] as real)
  }

  function Smoothed(img: seq<Byte>, w: nat, y: int, x: int): real {
    Convolve(Reals(img), w, BINOMIAL, BINOMIAL, y, x)
  }

  /** The nine products, written out. */
  lemma NineTerms(img: seq<real>, w: nat, y: int, x: int)
    ensures Convolve(img, w, BINOMIAL, BINOMIAL, y, x) ==
            0.0625 * Pixel(img, w, y - 1, x - 1) + 0.125 * Pixel(img, w, y - 1, x) +
            0.0625 * Pixel(img, w, y - 1, x + 1)
            + 0.125 * Pixel(img, w, y, x - 1) + 0.25 * Pixel(img, w, y, x) + 0.125 * Pixel(img, w, y, x + 1)
            + 0.0625 * Pixel(img, w, y + 1, x - 1) + 0.125 * Pixel(img, w, y + 1, x) +
            0.0625 * Pixel(img, w, y + 1, x + 1)
  {
    hide Pixel;
    RowTerms(img, w, 0.25, y - 1, x);
    RowTerms(img, w, 0.5, y, x);
    RowTerms(img, w, 0.25, y + 1, x);
    hide RowSum;
    assert WindowSum(img, w, BINOMIAL, BINOMIAL, y, x, 1) == RowSum(img, w, BINOMIAL, 0.25, y - 1, x, 3);
    assert WindowSum(img, w, BINOMIAL, BINOMIAL, y, x, 2) ==
           WindowSum(img, w, BINOMIAL, BINOMIAL, y, x, 1) + RowSum(img, w, BINOMIAL, 0.5, y, x, 3);
    assert WindowSum(img, w, BINOMIAL, BINOMIAL, y, x, 3) ==
           WindowSum(img, w, BINOMIAL, BINOMIAL, y, x, 2) + RowSum(img, w, BINOMIAL, 0.25, y + 1, x, 3);
  }

  lemma RowTerms(img: seq<real>, w: nat, c: real, y: int, x: int)
    ensures RowSum(img, w, BINOMIAL, c, y, x, 3) ==
            Pixel(img, w, y, x - 1) * (0.25 * c) + Pixel(img, w, y, x) * (0.5 * c) +
            Pixel(img, w, y, x + 1) * (0.25 * c)
  {
    hide Pixel;
    assert RowSum(img, w, BINOMIAL, c, y, x, 1) == Pixel(img, w, y, x - 1) * (0.25 * c);
    assert RowSum(img, w, BINOMIAL, c, y, x, 2) ==
           RowSum(img, w, BINOMIAL, c, y, x, 1) + Pixel(img, w, y, x) * (0.5 * c);
  }

  ghost predicate WindowWithin(img: seq<real>, w: nat, y: int, x: int, lo: real, hi: real) {
    forall r, c :: y - 1 <= r <= y + 1 && x - 1 <= c <= x + 1 ==> lo <= Pixel(img, w, r, c) <= hi
  }

  /** A weighted mean of the window lies between any bounds of the window. */
  lemma SmoothedWithin(img: seq<real>, w: nat, y: int, x: int, lo: real, hi: real)
    requires WindowWithin(img, w, y, x, lo, hi)
    ensures lo <= Convolve(img, w, BINOMIAL, BINOMIAL, y, x) <= hi
  {
    NineTerms(img, w, y, x);
    hide Pixel, Convolve;
  }

  /** So the clamp to a byte never fires, and the output byte lies between any
      whole-number bounds of its window. */
  lemma SmoothedByte(img: seq<Byte>, w: nat, y: int, x: int, lo: int, hi: int)
    requires WindowWithin(Reals(img), w, y, x, lo as real, hi as real)
    ensures lo <= Smoothed(img, w, y, x).Floor <= hi
    ensures 0.0 <= Smoothed(img, w, y, x) <= 255.0
  {
    SmoothedWithin(Reals(img), w, y, x, lo as real, hi as real);
    BytesWithin(img, w, y, x);
    SmoothedWithin(Reals(img), w, y, x, 0.0, 255.0);
  }

  lemma BytesWithin(img: seq<Byte>, w: nat, y: int, x: int)
    ensures WindowWithin(Reals(img), w, y, x, 0.0, 255.0)
  {
    forall r, c ensures 0.0 <= Pixel(Reals(img), w, r, c) <= 255.0 {
      PixelOfByte(img, w, r, c);
    }
  }

  method KernelSum(input: seq<Byte>, w: nat, h: nat, y: nat, x: nat) returns (sum: real)
    requires |input| >= w * h && 1 <= y < h - 1 && 1 <= x < w - 1
    ensures sum == Smoothed(input, w, y, x)
  {
    hide At, Pixel, RowSum, WindowSum;
    ghost var img := Reals(input);
    sum := 0.0;
    WindowStart(img, w, y, x);
    for ky := 0 to 3
      invariant sum == WindowSum(img, w, BINOMIAL, BINOMIAL, y, x, ky)
    {
      WindowNext(img, w, y, x, ky);
      for kx := 0 to 3
        invariant sum == WindowSum(img, w, BINOMIAL, BINOMIAL, y, x, ky)
                         + RowSum(img, w, BINOMIAL, BINOMIAL[ky], y + ky - 1, x, kx)
      {
        var iy, ix := y + ky - 1, x + kx - 1;
        AtInRange(w, h, iy, ix);
        PixelOfByte(input, w, iy, ix);
        RowNext(img, w, ky, y + ky - 1, x, kx);
        sum := sum + (input[At(w, iy, ix)] as real) * KERNEL[ky * 3 + kx];
      }
    }
  }

  lemma PixelOfByte(input: seq<Byte>, w: nat, y: int, x: int)
    ensures 0 <= At(w, y, x) < |input| ==> Pixel(Reals(input), w, y, x) == input[At(w, y, x)] as real
    ensures 0.0 <= Pixel(Reals(input), w, y, x) <= 255.0
  {
  }

  lemma WindowStart(img: seq<real>, w: nat, y: int, x: int)
    ensures WindowSum(img, w, BINOMIAL, BINOMIAL, y, x, 0) == 0.0
  {
  }

  lemma WindowNext(img: seq<real>, w: nat, y: int, x: int, ky: nat)
    requires ky < 3
    ensures RowSum(img, w, BINOMIAL, BINOMIAL[ky], y + ky - 1, x, 0) == 0.0
    ensures WindowSum(img, w, BINOMIAL, BINOMIAL, y, x, ky + 1) ==
            WindowSum(img, w, BINOMIAL, BINOMIAL, y, x, ky) + RowSum(img, w, BINOMIAL, BINOMIAL[ky], y + ky - 1, x, 3)
  {
  }

  lemma RowNext(img: seq<real>, w: nat, ky: nat, y: int, x: int, kx: nat)
    requires ky < 3 && kx < 3
    ensures RowSum(img, w, BINOMIAL, BINOMIAL[ky], y, x, kx + 1) ==
            RowSum(img, w, BINOMIAL, BINOMIAL[ky], y, x, kx) + Pixel(img, w, y, x + kx - 1) * KERNEL[ky * 3 + kx]
  {
    hide Pixel;
    assert BINOMIAL[kx] * BINOMIAL[ky] == KERNEL[ky * 3 + kx];
  }

  method GaussianRow(input: seq<Byte>, output: array<Byte>, w: nat, h: nat, y: nat)
    requires |input| >= w * h && output.Length >= w * h && 1 <= y < h - 1
    modifies output
    ensures forall i :: 0 <= i < output.Length && !(exists x :: 1 <= x < w - 1 && i == At(w, y, x)) ==>
              output[i] == old(output[i])
    ensures forall x :: 1 <= x < w - 1 ==>
              0 <= At(w, y, x) < output.Length && output[At(w, y, x)] == Smoothed(input, w, y, x).Floor
  {
    hide At, Smoothed;
    SameRow(w, y);
    forall x | 1 <= x < w - 1 ensures 0 <= At(w, y, x) < output.Length { AtInRange(w, h, y, x); }
    var stop := if w < 1 then 0 else w - 1;
    var x := 1;
    while x < stop
      invariant 1 <= x && (x <= stop || x == 1)
      invariant forall i :: 0 <= i < output.Length && !(exists c :: 1 <= c < x && i == At(w, y, c)) ==>
                  output[i] == old(output[i])
      invariant forall c :: 1 <= c < x ==> output[At(w, y, c)] == Smoothed(input, w, y, c).Floor
    {
      var sum := KernelSum(input, w, h, y, x);
      BytesWithin(input, w, y, x);
      SmoothedByte(input, w, y, x, 0, 255);
      output[At(w, y, x)] := Clamp(sum, 0.0, 255.0).Floor;
      x := x + 1;
    }
  }

  /** The direct 3x3 Gaussian: at every inner pixel the floor of the separable
      convolution with [1/4, 1/2, 1/4] both ways; every other pixel is left alone. */
  method GaussianBlur3x3(input: seq<Byte>, output: array<Byte>, w: nat, h: nat)
    requires |input| >= w * h && output.Length >= w * h
    modifies output
    ensures forall y, x :: 1 <= y < h - 1 && 1 <= x < w - 1 ==>
                             0 <= At(w, y, x) < output.Length && output[At(w, y, x)] == Smoothed(input, w, y, x).Floor
    ensures forall i :: 0 <= i < output.Length && !IsInner(w, h, i) ==> output[i] == old(output[i])
  {
    hide At, Smoothed;
    var stop := if h < 1 then 0 else h - 1;
    var y := 1;
    while y < stop
      invariant 1 <= y && (y <= stop || y == 1)
      invariant forall r, x :: 1 <= r < y && 1 <= x < w - 1 ==>
                                 0 <= At(w, r, x) < output.Length &&
                                 output[At(w, r, x)] == Smoothed(input, w, r, x).Floor
      invariant forall i :: 0 <= i < output.Length && !IsInner(w, h, i) ==> output[i] == old(output[i])
    {
      ghost var before := output[..];
      GaussianRow(input, output, w, h, y);
      forall r, x | 1 <= r < y && 1 <= x < w - 1
        ensures 0 <= At(w, r, x) < output.Length && output[At(w, r, x)] == before[At(w, r, x)]
      {
        EarlierRow(w, r, y, x);
        forall c | 1 <= c < w - 1 ensures At(w, y, c) != At(w, r, x) { AtInRange(w, h, y, c); }
      }
      y := y + 1;
    }
  }

  ghost predicate IsInner(w: nat, h: nat, i: int) {
    exists y, x :: 1 <= y < h - 1 && 1 <= x < w - 1 && i == At(w, y, x)
  }
}
