/** `crates/oxigeo-3d/src/classification.rs` over the reals: the closed-form
    symmetric eigenvalue solver, the dimensionality features read off the
    spectrum, and the covariance loop that feeds them. */
module Classification {
  import opened Prelude
  import opened RealFunctions
  import opened Matrix3

  /** f64::EPSILON, 2 to the power -52. */
  const EPSILON: real := 1.0 / 4503599627370496.0

  /** The sum of squares of the off-diagonal entries. */
  function OffDiagonal(m: Sym): real {
    m.d * m.d + m.e * m.e + m.f * m.f
  }

  function SortDescending(a: real, b: real, c: real): Triple {
    if a >= b then
      if b >= c then Triple(a, b, c)
      else if a >= c then Triple(a, c, b)
      else Triple(c, a, b)
    else
      if a >= c then Triple(b, a, c)
      else if b >= c then Triple(b, c, a)
      else Triple(c, b, a)
  }

  function Quotient(x: real, p: real): real
    requires p != 0.0
  {
    x / p
  }

  function Divide(m: Sym, p: real): Sym
    requires p != 0.0
  {
    Sym(Quotient(m.a, p), Quotient(m.b, p), Quotient(m.c, p), Quotient(m.d, p), Quotient(m.e, p), Quotient(m.f, p))
  }

  function Spread(m: Sym, q: real): real {
    (m.a - q) * (m.a - q) + (m.b - q) * (m.b - q) + (m.c - q) * (m.c - q) + 2.0 * OffDiagonal(m)
  }

  /** The value the solver returns, branch by branch. */
  function Eigenvalues(fns: RealFns, m: Sym): Triple {
    if OffDiagonal(m) <= EPSILON then SortDescending(m.a, m.b, m.c)
    else
      var q := Trace(m) / 3.0;
      var p := fns.sqrt(Spread(m, q) / 6.0);
      if p <= EPSILON then Triple(q, q, q)
      else
        var r := Clamp(Det(Divide(Shift(m, q), p)) / 2.0, -1.0, 1.0);
        var phi := fns.acos(r) / 3.0;
        var eig1 := q + 2.0 * p * fns.cos(phi);
        var eig3 := q + 2.0 * p * fns.cos(phi + 2.0 * fns.pi / 3.0);
        Triple(eig1, 3.0 * q - eig1 - eig3, eig3)
  }

  // ------------------------------------------------------------ the solver loop

  ghost predicate Is3x3(t: array2<real>) {
    t.Length0 == 3 && t.Length1 == 3
  }

  ghost predicate IsSymmetric(t: array2<real>)
    requires Is3x3(t)
    reads t
  {
    t[1, 0] == t[0, 1] && t[2, 0] == t[0, 2] && t[2, 1] == t[1, 2]
  }

  function View(t: array2<real>): Sym
    requires Is3x3(t)
    reads t
  {
    Sym(t[0, 0], t[1, 1], t[2, 2], t[0, 1], t[0, 2], t[1, 2])
  }

  /** B = (cov - q I) / p, filled entry by entry. */
  method Normalise(cov: array2<real>, q: real, p: real) returns (b: array2<real>)
    requires Is3x3(cov) && IsSymmetric(cov) && p != 0.0
    ensures fresh(b) && Is3x3(b) && IsSymmetric(b)
    ensures View(b) == Divide(Shift(View(cov), q), p)
  {
    hide Quotient;
    b := new real[3, 3];
    for i := 0 to 3
      invariant forall k, l :: 0 <= k < i && 0 <= l < 3 ==>
                  b[k, l] == Quotient(cov[k, l] - (if k == l then q else 0.0), p)
    {
      for j := 0 to 3
        invariant forall k, l :: 0 <= k < i && 0 <= l < 3 ==>
                    b[k, l] == Quotient(cov[k, l] - (if k == l then q else 0.0), p)
        invariant forall l :: 0 <= l < j ==> b[i, l] == Quotient(cov[i, l] - (if i == l then q else 0.0), p)
      {
        var a := cov[i, j] - (if i == j then q else 0.0);
        b[i, j] := Quotient(a, p);
      }
    }
  }

  function ArrayDet(b: array2<real>): (d: real)
    requires Is3x3(b) && IsSymmetric(b)
    reads b
    ensures d == Det(View(b))
  {
    b[0, 0] * (b[1, 1] * b[2, 2] - b[1, 2] * b[2, 1])
    - b[0, 1] * (b[1, 0] * b[2, 2] - b[1, 2] * b[2, 0])
    + b[0, 2] * (b[1, 0] * b[2, 1] - b[1, 1] * b[2, 0])
  }

  lemma SpreadOf(m: Sym, q: real, p1: real, p2: real)
    requires p1 == m.d * m.d + m.e * m.e + m.f * m.f && q == (m.a + m.b + m.c) / 3.0
    requires p2 == (m.a - q) * (m.a - q) + (m.b - q) * (m.b - q) + (m.c - q) * (m.c - q) + 2.0 * p1
    ensures p1 == OffDiagonal(m) && q == Trace(m) / 3.0 && p2 == Spread(m, q)
  {
  }

  method SymmetricEig3x3(fns: RealFns, cov: array2<real>) returns (s: Triple)
    requires Is3x3(cov) && IsSymmetric(cov)
    ensures s == Eigenvalues(fns, View(cov))
  {
    hide Divide, Spread, Clamp, Det, Trace;
    var p1 := cov[0, 1] * cov[0, 1] + cov[0, 2] * cov[0, 2] + cov[1, 2] * cov[1, 2];
    if p1 <= EPSILON {
      return SortDescending(cov[0, 0], cov[1, 1], cov[2, 2]);
    }
    var q := (cov[0, 0] + cov[1, 1] + cov[2, 2]) / 3.0;
    var p2 := (cov[0, 0] - q) * (cov[0, 0] - q) + (cov[1, 1] - q) * (cov[1, 1] - q)
              + (cov[2, 2] - q) * (cov[2, 2] - q) + 2.0 * p1;
    SpreadOf(View(cov), q, p1, p2);
    hide Divide, Spread, Trace, OffDiagonal, Clamp, Det;
    var p := fns.sqrt(p2 / 6.0);
    if p <= EPSILON {
      return Triple(q, q, q);
    }
    var b := Normalise(cov, q, p);
    var detB := ArrayDet(b);
    var r := Clamp(detB / 2.0, -1.0, 1.0);
    var phi := fns.acos(r) / 3.0;
    var eig1 := q + 2.0 * p * fns.cos(phi);
    var eig3 := q + 2.0 * p * fns.cos(phi + 2.0 * fns.pi / 3.0);
    var eig2 := 3.0 * q - eig1 - eig3;
    return Triple(eig1, eig2, eig3);
  }

  // -------------------------------------------------------- it is the spectrum

  /** With off-diagonal entries above the cutoff, p is above it too: the solver's
      second shortcut is never taken. */
  lemma ScaleAboveCutoff(fns: RealFns, m: Sym)
    requires Lawful(fns) && OffDiagonal(m) > EPSILON
    ensures var q := Trace(m) / 3.0;
            var p := fns.sqrt(Spread(m, q) / 6.0);
            p > EPSILON && 6.0 * (p * p) == Spread(m, q)
  {
    var q := Trace(m) / 3.0;
    SquareNonNegative(m.a - q);
    SquareNonNegative(m.b - q);
    SquareNonNegative(m.c - q);
    assert SqrtLaw(fns, Spread(m, q) / 6.0);
    var p := fns.sqrt(Spread(m, q) / 6.0);
    assert p * p > EPSILON / 3.0;
    LargeRoot(p);
  }

  lemma LargeRoot(p: real)
    requires p >= 0.0 && p * p > EPSILON / 3.0
    ensures p > EPSILON
  {
    assert EPSILON * EPSILON < EPSILON / 3.0;
    if p <= EPSILON { SquareMonotone(p, EPSILON); }
  }

  lemma SquareMonotone(p: real, k: real)
    requires 0.0 <= p <= k
    ensures p * p <= k * k
  {
    assert p * p <= p * k;
    assert p * k <= k * k;
  }

  /** Scaling a matrix scales its determinant by the cube. */
  ghost predicate ScalesBy(m: Sym, n: Sym, p: real) {
    Det(m) == p * (p * p) * Det(n) && Norm2(m) == p * p * Norm2(n) && Trace(m) == p * Trace(n)
  }

  lemma DivideDet(m: Sym, p: real)
    requires p > 0.0
    ensures ScalesBy(m, Divide(m, p), p)
  {
    DivideTimes(m, p);
    hide *;
    ScaledDet(m, Divide(m, p), p);
  }

  ghost predicate Multiple(m: Sym, n: Sym, p: real) {
    && m.a == p * n.a && m.b == p * n.b && m.c == p * n.c
    && m.d == p * n.d && m.e == p * n.e && m.f == p * n.f
  }

  lemma DivideTimes(m: Sym, p: real)
    requires p != 0.0
    ensures Multiple(m, Divide(m, p), p)
  {
    QuotientTimes(m.a, p);
    QuotientTimes(m.b, p);
    QuotientTimes(m.c, p);
    QuotientTimes(m.d, p);
    QuotientTimes(m.e, p);
    QuotientTimes(m.f, p);
    hide Quotient;
  }

  lemma QuotientTimes(x: real, p: real)
    requires p != 0.0
    ensures x == p * Quotient(x, p)
  {
  }

  lemma ScaledDet(m: Sym, n: Sym, p: real)
    requires Multiple(m, n, p)
    ensures ScalesBy(m, n, p)
  {
    hide DetOf, InnerOf;
    ScaledDetOf(n.a, n.b, n.c, n.d, n.e, n.f, p, m.a, m.b, m.c, m.d, m.e, m.f);
    ScaledInnerOf(n.a, n.b, n.c, n.d, n.e, n.f, p, m.a, m.b, m.c, m.d, m.e, m.f);
  }

  lemma ScaledDetOf(a: real, b: real, c: real, d: real, e: real, f: real, p: real,
                    a': real, b': real, c': real, d': real, e': real, f': real)
    requires a' == p * a && b' == p * b && c' == p * c && d' == p * d && e' == p * e && f' == p * f
    ensures DetOf(a', b', c', d', e', f') == p * (p * p) * DetOf(a, b, c, d, e, f)
  {
    hide *;
    DetIs(a', b', c', d', e', f');
    var y := a * (b * c - f * f) - d * (d * c - f * e) + e * (d * f - b * e);
    calc {
      DetOf(a', b', c', d', e', f');
      { ScaledDetPolynomial(a, b, c, d, e, f, p, a', b', c', d', e', f'); }
      p * (p * p) * y;
      { DetIs(a, b, c, d, e, f); }
      p * (p * p) * DetOf(a, b, c, d, e, f);
    }
  }

  lemma ScaledInnerOf(a: real, b: real, c: real, d: real, e: real, f: real, p: real,
                      a': real, b': real, c': real, d': real, e': real, f': real)
    requires a' == p * a && b' == p * b && c' == p * c && d' == p * d && e' == p * e && f' == p * f
    ensures InnerOf(a', b', c', d', e', f', a', b', c', d', e', f') ==
            p * p * InnerOf(a, b, c, d, e, f, a, b, c, d, e, f)
  {
    hide *;
    InnerIs(a', b', c', d', e', f', a', b', c', d', e', f');
    var y := a * a + b * b + c * c + 2.0 * (d * d + e * e + f * f);
    calc {
      InnerOf(a', b', c', d', e', f', a', b', c', d', e', f');
      { ScaledNormPolynomial(a, b, c, d, e, f, p, a', b', c', d', e', f'); }
      p * p * y;
      { InnerIs(a, b, c, d, e, f, a, b, c, d, e, f); }
      p * p * InnerOf(a, b, c, d, e, f, a, b, c, d, e, f);
    }
  }

  lemma ScaledDetPolynomial(a: real, b: real, c: real, d: real, e: real, f: real, p: real,
                            a': real, b': real, c': real, d': real, e': real, f': real)
    requires a' == p * a && b' == p * b && c' == p * c && d' == p * d && e' == p * e && f' == p * f
    ensures a' * (b' * c' - f' * f') - d' * (d' * c' - f' * e') + e' * (d' * f' - b' * e') ==
            p * (p * p) * (a * (b * c - f * f) - d * (d * c - f * e) + e * (d * f - b * e))
  {
  }

  lemma ScaledNormPolynomial(a: real, b: real, c: real, d: real, e: real, f: real, p: real,
                             a': real, b': real, c': real, d': real, e': real, f': real)
    requires a' == p * a && b' == p * b && c' == p * c && d' == p * d && e' == p * e && f' == p * f
    ensures a' * a' + b' * b' + c' * c' + 2.0 * (d' * d' + e' * e' + f' * f') ==
            p * p * (a * a + b * b + c * c + 2.0 * (d * d + e * e + f * f))
  {
  }

  /** The normalised matrix has trace 0 and norm 6, so its half determinant is
      already within [-1, 1] and the clamp changes nothing. */
  lemma ClampInactive(m: Sym, q: real, p: real)
    requires q == Trace(m) / 3.0 && p > 0.0 && 6.0 * (p * p) == Spread(m, q)
    ensures var r := Det(Divide(Shift(m, q), p)) / 2.0;
            && -1.0 <= r <= 1.0 && Clamp(r, -1.0, 1.0) == r
            && Det(Shift(m, q)) == 2.0 * (p * (p * p)) * r
  {
    var b := Divide(Shift(m, q), p);
    NormalisedMatrix(m, q, p);
    DetBound(b);
    HalfDet(p, Det(b));
  }

  lemma NormalisedMatrix(m: Sym, q: real, p: real)
    requires q == Trace(m) / 3.0 && p > 0.0 && 6.0 * (p * p) == Spread(m, q)
    ensures var b := Divide(Shift(m, q), p);
            Trace(b) == 0.0 && Norm2(b) == 6.0 && Det(Shift(m, q)) == p * (p * p) * Det(b)
  {
    hide *;
    var c := Shift(m, q);
    DivideDet(c, p);
    ShiftByMean(m, q);
    CancelScale(c, Divide(c, p), p);
  }

  lemma CancelScale(m: Sym, n: Sym, p: real)
    requires p > 0.0 && ScalesBy(m, n, p)
    requires Trace(m) == 0.0 && Norm2(m) == 6.0 * (p * p)
    ensures Trace(n) == 0.0 && Norm2(n) == 6.0 && Det(m) == p * (p * p) * Det(n)
  {
    hide Trace, Norm2, Det;
    ProductZero(p, Trace(n));
    assert p * (p * (Norm2(n) - 6.0)) == Norm2(m) - 6.0 * (p * p);
    ProductZero(p, p * (Norm2(n) - 6.0));
    ProductZero(p, Norm2(n) - 6.0);
  }

  lemma ShiftByMean(m: Sym, q: real)
    requires q == Trace(m) / 3.0
    ensures Trace(Shift(m, q)) == 0.0 && Norm2(Shift(m, q)) == Spread(m, q)
  {
  }

  lemma HalfDet(p: real, d: real)
    ensures p * (p * p) * d == 2.0 * (p * (p * p)) * (d / 2.0)
    ensures -2.0 <= d <= 2.0 ==> -1.0 <= d / 2.0 <= 1.0 && Clamp(d / 2.0, -1.0, 1.0) == d / 2.0
  {
  }

  lemma ProductZero(p: real, x: real)
    requires p > 0.0 && p * x == 0.0
    ensures x == 0.0
  {
  }

  /** Trace, minors and determinant of a matrix from those of its deviation from
      the mean diagonal. */
  lemma MinorsFromSpread(m: Sym, q: real)
    requires q == Trace(m) / 3.0
    ensures Minors(m) == 3.0 * (q * q) - Spread(m, q) / 2.0
    ensures Det(m) == Det(Shift(m, q)) + Minors(m) * q - 2.0 * (q * (q * q))
  {
    assert m.c == 3.0 * q - m.a - m.b;
    CharPolyCoefficients(m, q);
  }

  /** Roots x of 4x^3 - 3x = r, moved to q + 2 p x. */
  lemma MovedRoots(q: real, p: real, r: real, c: real, u: real, w: real, s: Triple)
    requires c + u + w == 0.0 && c * u + c * w + u * w == -0.75 && 4.0 * (c * (u * w)) == r
    requires s == Triple(q + 2.0 * p * c, q + 2.0 * p * u, q + 2.0 * p * w)
    ensures s.l1 + s.l2 + s.l3 == 3.0 * q
    ensures s.l1 * s.l2 + s.l1 * s.l3 + s.l2 * s.l3 == 3.0 * (q * q) - 3.0 * (p * p)
    ensures s.l1 * (s.l2 * s.l3) == q * (q * q) - 3.0 * (p * p) * q + 2.0 * (p * (p * p)) * r
  {
    var g := 2.0 * p;
    MovedRootsExpand(q, g, c, u, w);
    assert g * (c + u + w) == 0.0;
    assert g * g == 4.0 * (p * p);
    assert (g * g) * (c * u + c * w + u * w) == -3.0 * (p * p);
    assert (g * (g * g)) * (c * (u * w)) == 2.0 * (p * (p * p)) * r;
  }

  lemma MovedRootsExpand(q: real, g: real, c: real, u: real, w: real)
    ensures var l1, l2, l3 := q + g * c, q + g * u, q + g * w;
            && l1 + l2 + l3 == 3.0 * q + g * (c + u + w)
            && l1 * l2 + l1 * l3 + l2 * l3 ==
               3.0 * (q * q) + 2.0 * (q * (g * (c + u + w))) + (g * g) * (c * u + c * w + u * w)
            && l1 * (l2 * l3) ==
               q * (q * q) + q * q * (g * (c + u + w)) + q * ((g * g) * (c * u + c * w + u * w))
               + (g * (g * g)) * (c * (u * w))
  {
  }

  lemma EigenvaluesAbove(fns: RealFns, m: Sym, q: real, p: real, r: real, c: real, u: real, w: real)
    requires OffDiagonal(m) > EPSILON && p > EPSILON
    requires q == Trace(m) / 3.0 && p == fns.sqrt(Spread(m, q) / 6.0)
    requires r == Clamp(Det(Divide(Shift(m, q), p)) / 2.0, -1.0, 1.0)
    requires c == fns.cos(fns.acos(r) / 3.0) && w == fns.cos(fns.acos(r) / 3.0 + 2.0 * fns.pi / 3.0)
    requires c + u + w == 0.0
    ensures Eigenvalues(fns, m) == Triple(q + 2.0 * p * c, q + 2.0 * p * u, q + 2.0 * p * w)
  {
    hide Divide, Det, Spread, Shift, Trace, OffDiagonal, Clamp;
    MiddleRoot(q, p, c, u, w);
  }

  /** The general branch moves the roots of 4x^3 - 3x = r to q + 2 p x. */
  lemma GeneralShape(fns: RealFns, m: Sym) returns (q: real, p: real, r: real, c: real, u: real, w: real)
    requires Lawful(fns) && OffDiagonal(m) > EPSILON
    ensures Eigenvalues(fns, m) == Triple(q + 2.0 * p * c, q + 2.0 * p * u, q + 2.0 * p * w)
    ensures c + u + w == 0.0 && c * u + c * w + u * w == -0.75 && 4.0 * (c * (u * w)) == r && c >= u >= w
    ensures q == Trace(m) / 3.0 && p > 0.0 && 6.0 * (p * p) == Spread(m, q)
    ensures Det(Shift(m, q)) == 2.0 * (p * (p * p)) * r
  {
    q := Trace(m) / 3.0;
    p := fns.sqrt(Spread(m, q) / 6.0);
    ScaleAboveCutoff(fns, m);
    ClampInactive(m, q, p);
    hide *;
    r := Det(Divide(Shift(m, q), p)) / 2.0;
    c, u, w := ThirdAngles(fns, r);
    EigenvaluesAbove(fns, m, q, p, r, c, u, w);
  }

  lemma MiddleRoot(q: real, p: real, c: real, u: real, w: real)
    requires c + u + w == 0.0
    ensures 3.0 * q - (q + 2.0 * p * c) - (q + 2.0 * p * w) == q + 2.0 * p * u
  {
    assert u == -c - w;
  }

  /** Above the cutoff the solver returns the eigenvalues, largest first. */
  lemma GeneralBranch(fns: RealFns, m: Sym)
    requires Lawful(fns) && OffDiagonal(m) > EPSILON
    ensures IsSpectrum(m, Eigenvalues(fns, m)) && Descending(Eigenvalues(fns, m))
  {
    hide *;
    var q, p, r, c, u, w := GeneralShape(fns, m);
    MinorsFromSpread(m, q);
    var s := Eigenvalues(fns, m);
    MovedRoots(q, p, r, c, u, w, s);
    assert Minors(m) == 3.0 * (q * q) - 3.0 * (p * p);
    MeanProduct(q, p * p, Minors(m));
    SpectrumIffSymmetricFunctions(m, s);
    ScaledOrder(q, p, c, u, w, s);
  }

  lemma MeanProduct(q: real, pp: real, minors: real)
    requires minors == 3.0 * (q * q) - 3.0 * pp
    ensures minors * q - 2.0 * (q * (q * q)) == q * (q * q) - 3.0 * pp * q
  {
  }

  lemma ScaledOrder(q: real, p: real, c: real, u: real, w: real, s: Triple)
    requires p > 0.0 && c >= u >= w
    requires s == Triple(q + 2.0 * p * c, q + 2.0 * p * u, q + 2.0 * p * w)
    ensures Descending(s)
  {
    assert p * c >= p * u >= p * w;
  }

  /** At or below the cutoff the solver returns the sorted diagonal, which is the
      spectrum only when there is nothing off the diagonal. */
  lemma DiagonalBranch(fns: RealFns, m: Sym)
    requires OffDiagonal(m) <= EPSILON
    ensures Descending(Eigenvalues(fns, m))
    ensures IsSpectrum(m, Eigenvalues(fns, m)) <==> OffDiagonal(m) == 0.0
  {
    MinorsOffDiagonal(m);
    assert Trace(m) == m.a + m.b + m.c;
    assert Eigenvalues(fns, m) == SortDescending(m.a, m.b, m.c);
    hide *;
    var s := SortDescending(m.a, m.b, m.c);
    SpectrumIffSymmetricFunctions(m, s);
    SortSymmetricFunctions(m.a, m.b, m.c);
  }

  lemma MinorsOffDiagonal(m: Sym)
    ensures Minors(m) == m.a * m.b + m.a * m.c + m.b * m.c - OffDiagonal(m)
    ensures OffDiagonal(m) == 0.0 ==> Det(m) == m.a * (m.b * m.c)
  {
    if OffDiagonal(m) == 0.0 {
      NothingOffDiagonal(m);
    }
  }

  lemma NothingOffDiagonal(m: Sym)
    requires OffDiagonal(m) == 0.0
    ensures m.d == 0.0 && m.e == 0.0 && m.f == 0.0
  {
    SquareNonNegative(m.d);
    SquareNonNegative(m.e);
    SquareNonNegative(m.f);
    SquareZero(m.d);
    SquareZero(m.e);
    SquareZero(m.f);
  }

  lemma SortSymmetricFunctions(a: real, b: real, c: real)
    ensures var s := SortDescending(a, b, c);
            && Descending(s)
            && s.l1 + s.l2 + s.l3 == a + b + c
            && s.l1 * s.l2 + s.l1 * s.l3 + s.l2 * s.l3 == a * b + a * c + b * c
            && s.l1 * (s.l2 * s.l3) == a * (b * c)
  {
    Permuted(a, b, c);
    Permuted(b, a, c);
    Permuted(c, a, b);
  }

  lemma Permuted(a: real, b: real, c: real)
    ensures a * (b * c) == b * (a * c) == c * (a * b)
    ensures a * b == b * a && a * c == c * a && b * c == c * b
  {
  }

  /** The solver always returns three numbers in descending order, and they are
      the eigenvalues exactly when the off-diagonal part is zero or above the
      cutoff. */
  lemma SolverExactIff(fns: RealFns, m: Sym)
    requires Lawful(fns)
    ensures Descending(Eigenvalues(fns, m))
    ensures IsSpectrum(m, Eigenvalues(fns, m)) <==> OffDiagonal(m) == 0.0 || OffDiagonal(m) > EPSILON
  {
    if OffDiagonal(m) > EPSILON { GeneralBranch(fns, m); } else { DiagonalBranch(fns, m); }
  }

  // ------------------------------------------------------------------ features

  datatype Features = Features(linearity: real, planarity: real, sphericity: real)

  function FeaturesOf(s: Triple): Features {
    if s.l1 <= EPSILON then Features(0.0, 0.0, 0.0)
    else
      Features(Clamp((s.l1 - s.l2) / s.l1, 0.0, 1.0),
               Clamp((s.l2 - s.l3) / s.l1, 0.0, 1.0),
               Clamp(s.l3 / s.l1, 0.0, 1.0))
  }

  method DimensionalityFeatures(fns: RealFns, cov: array2<real>) returns (r: Features)
    requires Is3x3(cov) && IsSymmetric(cov)
    ensures r == FeaturesOf(Eigenvalues(fns, View(cov)))
  {
    var s := SymmetricEig3x3(fns, cov);
    r := FeaturesOf(s);
  }

  /** On a sorted, non-negative spectrum above the cutoff no clamp fires and the
      three features are a partition of 1. */
  lemma FeaturesPartition(s: Triple)
    requires Descending(s) && s.l3 >= 0.0 && s.l1 > EPSILON
    ensures FeaturesOf(s) == Features((s.l1 - s.l2) / s.l1, (s.l2 - s.l3) / s.l1, s.l3 / s.l1)
    ensures var r := FeaturesOf(s);
            && 0.0 <= r.linearity <= 1.0 && 0.0 <= r.planarity <= 1.0 && 0.0 <= r.sphericity <= 1.0
            && r.linearity + r.planarity + r.sphericity == 1.0
  {
    var l := s.l1;
    UnitQuotient(s.l1 - s.l2, l);
    UnitQuotient(s.l2 - s.l3, l);
    UnitQuotient(s.l3, l);
    QuotientSum(s.l1 - s.l2, s.l2 - s.l3, s.l3, l);
  }

  /** The features of any matrix, negative eigenvalues included: nothing if even the
      largest is negligible, otherwise the ratios cut to [0, 1]. */
  lemma FeaturesClamped(s: Triple)
    requires Descending(s)
    ensures s.l1 <= 1.0 / 4503599627370496.0 ==> FeaturesOf(s) == Features(0.0, 0.0, 0.0)
    ensures s.l1 > 1.0 / 4503599627370496.0 ==>
              FeaturesOf(s) == Features(if s.l2 < 0.0 then 1.0 else (s.l1 - s.l2) / s.l1,
                                        if s.l2 - s.l3 > s.l1 then 1.0 else (s.l2 - s.l3) / s.l1,
                                        if s.l3 < 0.0 then 0.0 else s.l3 / s.l1)
  {
    if s.l1 > EPSILON {
      RatioBounds(s.l1 - s.l2, s.l1);
      RatioBounds(s.l2 - s.l3, s.l1);
      RatioBounds(s.l3, s.l1);
    }
  }

  lemma RatioBounds(x: real, l: real)
    requires l > 0.0
    ensures x < 0.0 <==> x / l < 0.0
    ensures x > l <==> x / l > 1.0
  {
    assert (x / l) * l == x;
  }

  lemma QuotientSum(x: real, y: real, z: real, l: real)
    requires l > 0.0 && x + y + z == l
    ensures x / l + y / l + z / l == 1.0
  {
    assert (x / l) * l == x && (y / l) * l == y && (z / l) * l == z;
    assert l * (x / l + y / l + z / l - 1.0) == 0.0;
    ProductZero(l, x / l + y / l + z / l - 1.0);
  }

  lemma UnitQuotient(x: real, l: real)
    requires 0.0 <= x <= l && l > 0.0
    ensures 0.0 <= x / l <= 1.0
  {
  }

  /** For a positive semidefinite matrix the solver's result is never negative,
      in either branch. */
  lemma PsdEigenvalues(fns: RealFns, m: Sym)
    requires Lawful(fns) && PositiveSemidefinite(m)
    ensures Descending(Eigenvalues(fns, m)) && Eigenvalues(fns, m).l3 >= 0.0
  {
    SolverExactIff(fns, m);
    if OffDiagonal(m) > EPSILON {
      PsdSpectrum(m, Eigenvalues(fns, m));
    } else {
      PsdMinors(m);
    }
  }

  // ---------------------------------------------------------------- covariance

  datatype Point = Point(x: real, y: real, z: real)

  function Coord(p: Point, i: int): real {
    if i == 0 then p.x else if i == 1 then p.y else p.z
  }

  function CoordSum(ps: seq<Point>, i: int): real {
    if ps == [] then 0.0 else CoordSum(ps[..|ps| - 1], i) + Coord(ps[|ps| - 1], i)
  }

  function Centroid(ps: seq<Point>): Point
    requires ps != []
  {
    var n := |ps| as real;
    Point(CoordSum(ps, 0) / n, CoordSum(ps, 1) / n, CoordSum(ps, 2) / n)
  }

  /** The outer product of a deviation with itself. */
  function Outer(p: Point, c: Point): Sym {
    var dx, dy, dz := p.x - c.x, p.y - c.y, p.z - c.z;
    Sym(dx * dx, dy * dy, dz * dz, dx * dy, dx * dz, dy * dz)
  }

  function Plus(m: Sym, n: Sym): Sym {
    Sym(m.a + n.a, m.b + n.b, m.c + n.c, m.d + n.d, m.e + n.e, m.f + n.f)
  }

  /** Sum of the outer products of the deviations from `c`. */
  function Scatter(ps: seq<Point>, c: Point): Sym {
    if ps == [] then Sym(0.0, 0.0, 0.0, 0.0, 0.0, 0.0)
    else Plus(Scatter(ps[..|ps| - 1], c), Outer(ps[|ps| - 1], c))
  }

  function Covariance(ps: seq<Point>): Sym
    requires ps != []
  {
    Divide(Scatter(ps, Centroid(ps)), |ps| as real)
  }

  function PlanarityOf(fns: RealFns, ps: seq<Point>): real {
    if |ps| < 3 then 0.0 else FeaturesOf(Eigenvalues(fns, Covariance(ps))).planarity
  }

  method SumPoints(ps: seq<Point>) returns (sx: real, sy: real, sz: real)
    ensures sx == CoordSum(ps, 0) && sy == CoordSum(ps, 1) && sz == CoordSum(ps, 2)
  {
    sx, sy, sz := 0.0, 0.0, 0.0;
    for i := 0 to |ps|
      invariant sx == CoordSum(ps[..i], 0) && sy == CoordSum(ps[..i], 1) && sz == CoordSum(ps[..i], 2)
    {
      assert ps[..i + 1][..i] == ps[..i];
      sx, sy, sz := sx + ps[i].x, sy + ps[i].y, sz + ps[i].z;
    }
    assert ps[..|ps|] == ps;
  }

  /** One pass of the accumulation loop: the upper triangle gains one outer product. */
  method Accumulate(cov: array2<real>, p: Point, c: Point)
    requires Is3x3(cov)
    modifies cov
    ensures View(cov) == Plus(old(View(cov)), Outer(p, c))
  {
    var dx, dy, dz := p.x - c.x, p.y - c.y, p.z - c.z;
    cov[0, 0] := cov[0, 0] + dx * dx;
    cov[0, 1] := cov[0, 1] + dx * dy;
    cov[0, 2] := cov[0, 2] + dx * dz;
    cov[1, 1] := cov[1, 1] + dy * dy;
    cov[1, 2] := cov[1, 2] + dy * dz;
    cov[2, 2] := cov[2, 2] + dz * dz;
  }

  /** The loop fills the upper triangle; the lower one is then mirrored and every
      entry divided by the number of points. */
  method CovarianceOf(ps: seq<Point>, c: Point) returns (cov: array2<real>)
    requires ps != []
    ensures fresh(cov) && Is3x3(cov) && IsSymmetric(cov)
    ensures View(cov) == Divide(Scatter(ps, c), |ps| as real)
  {
    hide Outer, Plus, Divide;
    cov := new real[3, 3]((i, j) => 0.0);
    for k := 0 to |ps|
      invariant View(cov) == Scatter(ps[..k], c)
    {
      assert ps[..k + 1][..k] == ps[..k];
      Accumulate(cov, ps[k], c);
    }
    assert ps[..|ps|] == ps;
    cov[1, 0] := cov[0, 1];
    cov[2, 0] := cov[0, 2];
    cov[2, 1] := cov[1, 2];
    DivideEntries(cov, |ps| as real);
  }

  method DivideEntries(t: array2<real>, n: real)
    requires Is3x3(t) && IsSymmetric(t) && n != 0.0
    modifies t
    ensures IsSymmetric(t) && View(t) == Divide(old(View(t)), n)
  {
    hide Quotient;
    for i := 0 to 3
      invariant forall k, l :: 0 <= k < i && 0 <= l < 3 ==> t[k, l] == Quotient(old(t[k, l]), n)
      invariant forall k, l :: i <= k < 3 && 0 <= l < 3 ==> t[k, l] == old(t[k, l])
    {
      for j := 0 to 3
        invariant forall k, l :: 0 <= k < i && 0 <= l < 3 ==> t[k, l] == Quotient(old(t[k, l]), n)
        invariant forall k, l :: i < k < 3 && 0 <= l < 3 ==> t[k, l] == old(t[k, l])
        invariant forall l :: 0 <= l < j ==> t[i, l] == Quotient(old(t[i, l]), n)
        invariant forall l :: j <= l < 3 ==> t[i, l] == old(t[i, l])
      {
        t[i, j] := Quotient(t[i, j], n);
      }
    }
  }

  method CalculatePlanarity(fns: RealFns, ps: seq<Point>) returns (r: real)
    ensures r == PlanarityOf(fns, ps)
  {
    if |ps| < 3 {
      return 0.0;
    }
    var sx, sy, sz := SumPoints(ps);
    var n := |ps| as real;
    var centroid := Point(sx / n, sy / n, sz / n);
    var cov := CovarianceOf(ps, centroid);
    var f := DimensionalityFeatures(fns, cov);
    return f.planarity;
  }

  // ------------------------------------------------------ what covariance means

  lemma OuterQuad(p: Point, c: Point, x: real, y: real, z: real)
    ensures Quad(Outer(p, c), x, y, z) == Along(p, c, x, y, z) * Along(p, c, x, y, z)
  {
  }

  /** The deviation of `p` from `c` along the direction (x, y, z). */
  function Along(p: Point, c: Point, x: real, y: real, z: real): real {
    (p.x - c.x) * x + (p.y - c.y) * y + (p.z - c.z) * z
  }

  /** Sum of the squared deviations along a direction. */
  function AlongSum(ps: seq<Point>, c: Point, x: real, y: real, z: real): real {
    if ps == [] then 0.0
    else AlongSum(ps[..|ps| - 1], c, x, y, z)
         + Along(ps[|ps| - 1], c, x, y, z) * Along(ps[|ps| - 1], c, x, y, z)
  }

  lemma PlusQuad(m: Sym, n: Sym, x: real, y: real, z: real)
    ensures Quad(Plus(m, n), x, y, z) == Quad(m, x, y, z) + Quad(n, x, y, z)
  {
  }

  lemma {:induction false} ScatterQuad(ps: seq<Point>, c: Point, x: real, y: real, z: real)
    ensures Quad(Scatter(ps, c), x, y, z) == AlongSum(ps, c, x, y, z)
    ensures AlongSum(ps, c, x, y, z) >= 0.0
  {
    hide Quad, Outer, Plus, Along;
    if ps == [] {
      NoQuad(x, y, z);
    } else {
      var p := ps[|ps| - 1];
      ScatterQuad(ps[..|ps| - 1], c, x, y, z);
      OuterQuad(p, c, x, y, z);
      PlusQuad(Scatter(ps[..|ps| - 1], c), Outer(p, c), x, y, z);
      SquareNonNegative(Along(p, c, x, y, z));
    }
  }

  lemma NoQuad(x: real, y: real, z: real)
    ensures Quad(Sym(0.0, 0.0, 0.0, 0.0, 0.0, 0.0), x, y, z) == 0.0
  {
  }

  lemma DivideQuad(m: Sym, n: real, x: real, y: real, z: real)
    requires n > 0.0
    ensures Quad(m, x, y, z) == n * Quad(Divide(m, n), x, y, z)
  {
    var d := Divide(m, n);
    DivideTimes(m, n);
    hide Divide;
    ScaledQuad(d.a, d.b, d.c, d.d, d.e, d.f, n, m.a, m.b, m.c, m.d, m.e, m.f, x, y, z);
  }

  lemma ScaledQuad(a: real, b: real, c: real, d: real, e: real, f: real, p: real,
                   a': real, b': real, c': real, d': real, e': real, f': real, x: real, y: real, z: real)
    requires a' == p * a && b' == p * b && c' == p * c && d' == p * d && e' == p * e && f' == p * f
    ensures a' * (x * x) + b' * (y * y) + c' * (z * z) + 2.0 * (d' * (x * y) + e' * (x * z) + f' * (y * z)) ==
            p * (a * (x * x) + b * (y * y) + c * (z * z) + 2.0 * (d * (x * y) + e * (x * z) + f * (y * z)))
  {
  }

  /** v^T C v is the mean squared deviation along v, so it is never negative. */
  lemma CovariancePsd(ps: seq<Point>)
    requires ps != []
    ensures PositiveSemidefinite(Covariance(ps))
  {
    var n := |ps| as real;
    forall x, y, z ensures Quad(Covariance(ps), x, y, z) >= 0.0 {
      ScatterQuad(ps, Centroid(ps), x, y, z);
      DivideQuad(Scatter(ps, Centroid(ps)), n, x, y, z);
      PositiveFactor(n, Quad(Covariance(ps), x, y, z));
    }
  }

  /** Sum of the deviations along a direction. */
  function AlongTotal(ps: seq<Point>, c: Point, x: real, y: real, z: real): real {
    if ps == [] then 0.0
    else AlongTotal(ps[..|ps| - 1], c, x, y, z) + Along(ps[|ps| - 1], c, x, y, z)
  }

  lemma {:induction false} AlongTotalIs(ps: seq<Point>, c: Point, x: real, y: real, z: real)
    ensures var n := |ps| as real;
            AlongTotal(ps, c, x, y, z) ==
            (CoordSum(ps, 0) - n * c.x) * x + (CoordSum(ps, 1) - n * c.y) * y + (CoordSum(ps, 2) - n * c.z) * z
  {
    if ps != [] {
      var k := |ps| - 1;
      var p, m := ps[k], k as real;
      AlongTotalIs(ps[..k], c, x, y, z);
      assert |ps| as real == m + 1.0;
      TotalStep(CoordSum(ps[..k], 0), m, c.x, p.x, x);
      TotalStep(CoordSum(ps[..k], 1), m, c.y, p.y, y);
      TotalStep(CoordSum(ps[..k], 2), m, c.z, p.z, z);
    }
  }

  lemma TotalStep(s: real, m: real, c: real, p: real, x: real)
    ensures (s - m * c) * x + (p - c) * x == ((s + p) - (m + 1.0) * c) * x
  {
  }

  /** The deviations from the centroid cancel. */
  lemma CentroidBalances(ps: seq<Point>, x: real, y: real, z: real)
    requires ps != []
    ensures AlongTotal(ps, Centroid(ps), x, y, z) == 0.0
  {
    var n, g := |ps| as real, Centroid(ps);
    AlongTotalIs(ps, g, x, y, z);
    hide CoordSum, AlongTotal;
    assert n * g.x == CoordSum(ps, 0) && n * g.y == CoordSum(ps, 1) && n * g.z == CoordSum(ps, 2);
  }

  lemma {:induction false} AlongSumMoves(ps: seq<Point>, c: Point, g: Point, x: real, y: real, z: real)
    ensures var t, n := Along(g, c, x, y, z), |ps| as real;
            AlongSum(ps, c, x, y, z) ==
            AlongSum(ps, g, x, y, z) + 2.0 * t * AlongTotal(ps, g, x, y, z) + n * (t * t)
  {
    hide *;
    var t := Along(g, c, x, y, z);
    if ps == [] {
      NoAlong(c, x, y, z);
      NoAlong(g, x, y, z);
    } else {
      var k := |ps| - 1;
      var p, front, m := ps[k], ps[..k], k as real;
      AlongSumMoves(front, c, g, x, y, z);
      AlongStep(ps, c, x, y, z);
      AlongStep(ps, g, x, y, z);
      AlongMoves(p, c, g, x, y, z);
      SquareStep(AlongSum(front, g, x, y, z), AlongTotal(front, g, x, y, z), m, t, Along(p, g, x, y, z));
    }
  }

  lemma NoAlong(c: Point, x: real, y: real, z: real)
    ensures AlongSum([], c, x, y, z) == AlongTotal([], c, x, y, z) == 0.0
  {
  }

  lemma AlongStep(ps: seq<Point>, c: Point, x: real, y: real, z: real)
    requires ps != []
    ensures var k := |ps| - 1;
            && |ps| as real == k as real + 1.0
            && AlongSum(ps, c, x, y, z) ==
               AlongSum(ps[..k], c, x, y, z) + Along(ps[k], c, x, y, z) * Along(ps[k], c, x, y, z)
            && AlongTotal(ps, c, x, y, z) == AlongTotal(ps[..k], c, x, y, z) + Along(ps[k], c, x, y, z)
  {
    hide Along;
  }

  lemma AlongMoves(p: Point, c: Point, g: Point, x: real, y: real, z: real)
    ensures Along(p, c, x, y, z) == Along(p, g, x, y, z) + Along(g, c, x, y, z)
  {
    assert (p.x - c.x) * x == (p.x - g.x) * x + (g.x - c.x) * x;
    assert (p.y - c.y) * y == (p.y - g.y) * y + (g.y - c.y) * y;
    assert (p.z - c.z) * z == (p.z - g.z) * z + (g.z - c.z) * z;
  }

  lemma SquareStep(s: real, a: real, m: real, t: real, p: real)
    ensures s + 2.0 * t * a + m * (t * t) + (p + t) * (p + t) ==
            s + p * p + 2.0 * t * (a + p) + (m + 1.0) * (t * t)
  {
  }

  /** `v` is the least sum of squared deviations along a direction, over all centres. */
  ghost predicate LeastAlong(ps: seq<Point>, v: real, x: real, y: real, z: real) {
    (forall c :: AlongSum(ps, c, x, y, z) >= v) && exists c :: AlongSum(ps, c, x, y, z) == v
  }

  /** In every direction the form of `m` is the mean squared deviation of the points. */
  ghost predicate MeasuresSpread(ps: seq<Point>, m: Sym) {
    forall x, y, z :: MeasuresAlong(ps, m, x, y, z)
  }

  ghost predicate MeasuresAlong(ps: seq<Point>, m: Sym, x: real, y: real, z: real) {
    LeastAlong(ps, (|ps| as real) * Quad(m, x, y, z), x, y, z)
  }

  /** The covariance measures the spread of the points, and nothing else does. */
  lemma CovarianceIff(ps: seq<Point>, m: Sym)
    requires ps != []
    ensures MeasuresSpread(ps, m) <==> m == Covariance(ps)
  {
    hide *;
    var cov := Covariance(ps);
    if m == cov {
      forall x, y, z ensures MeasuresAlong(ps, m, x, y, z) {
        CovarianceLeast(ps, x, y, z);
      }
      Measures(ps, m);
    }
    if MeasuresSpread(ps, m) {
      Measures(ps, m);
      forall x, y, z ensures Quad(m, x, y, z) == Quad(cov, x, y, z) {
        CovarianceLeast(ps, x, y, z);
        OneForm(ps, m, cov, x, y, z);
      }
      QuadDetermines(m, cov);
    }
  }

  lemma Measures(ps: seq<Point>, m: Sym)
    ensures MeasuresSpread(ps, m) <==> forall x, y, z :: MeasuresAlong(ps, m, x, y, z)
  {
    hide MeasuresAlong;
  }

  lemma OneForm(ps: seq<Point>, m: Sym, n: Sym, x: real, y: real, z: real)
    requires ps != [] && MeasuresAlong(ps, m, x, y, z) && MeasuresAlong(ps, n, x, y, z)
    ensures Quad(m, x, y, z) == Quad(n, x, y, z)
  {
    var k, v, w := |ps| as real, Quad(m, x, y, z), Quad(n, x, y, z);
    hide Quad, AlongSum;
    assert k * v == k * w;
    SameFactor(k, v, w);
  }

  lemma SameFactor(n: real, a: real, b: real)
    requires n > 0.0 && n * a == n * b
    ensures a == b
  {
    ProductZero(n, a - b);
  }

  lemma CovarianceLeast(ps: seq<Point>, x: real, y: real, z: real)
    requires ps != []
    ensures MeasuresAlong(ps, Covariance(ps), x, y, z)
  {
    var n, g := |ps| as real, Centroid(ps);
    ScatterQuad(ps, g, x, y, z);
    DivideQuad(Scatter(ps, g), n, x, y, z);
    CentroidBalances(ps, x, y, z);
    hide Quad, Scatter, AlongSum, Along, AlongTotal, Centroid, Divide;
    forall c ensures AlongSum(ps, c, x, y, z) >= AlongSum(ps, g, x, y, z) {
      AlongSumMoves(ps, c, g, x, y, z);
      SquareNonNegative(Along(g, c, x, y, z));
    }
  }

  /** The planarity in terms of the points: (l2 - l3) / l1 for the eigenvalues of the one
      matrix that measures their spread, or for its sorted diagonal if there is next to
      nothing off the diagonal; zero for fewer than three points or a negligible l1. */
  lemma PlanarityMeaning(fns: RealFns, ps: seq<Point>, m: Sym, s: Triple)
    requires Lawful(fns) && MeasuresSpread(ps, m) && s.l1 >= s.l2 >= s.l3
    requires if m.d * m.d + m.e * m.e + m.f * m.f > 1.0 / 4503599627370496.0 then IsSpectrum(m, s)
             else multiset{s.l1, s.l2, s.l3} == multiset{m.a, m.b, m.c}
    ensures PlanarityOf(fns, ps) ==
            if |ps| < 3 || s.l1 <= 1.0 / 4503599627370496.0 then 0.0 else (s.l2 - s.l3) / s.l1
  {
    if |ps| >= 3 {
      CutoffIs(m);
      hide *;
      CovarianceIff(ps, m);
      CovariancePsd(ps);
      PsdEigenvalues(fns, m);
      SolverResult(fns, m, s);
      PlanarityFrom(s);
      PlanarityUnfolds(fns, ps);
    }
  }

  lemma CutoffIs(m: Sym)
    ensures OffDiagonal(m) == m.d * m.d + m.e * m.e + m.f * m.f && EPSILON == 1.0 / 4503599627370496.0
  {
  }

  lemma SolverResult(fns: RealFns, m: Sym, s: Triple)
    requires Lawful(fns) && s.l1 >= s.l2 >= s.l3
    requires if OffDiagonal(m) > EPSILON then IsSpectrum(m, s)
             else multiset{s.l1, s.l2, s.l3} == multiset{m.a, m.b, m.c}
    ensures Eigenvalues(fns, m) == s
  {
    hide Lawful, IsSpectrum, OffDiagonal, SortDescending;
    if OffDiagonal(m) > EPSILON {
      SolverExactIff(fns, m);
      SpectrumUnique(m, s, Eigenvalues(fns, m));
    } else {
      SortUnique(m.a, m.b, m.c, s);
    }
  }

  lemma PlanarityFrom(s: Triple)
    requires s.l1 >= s.l2 >= s.l3 >= 0.0
    ensures FeaturesOf(s).planarity == if s.l1 <= EPSILON then 0.0 else (s.l2 - s.l3) / s.l1
  {
    if s.l1 > EPSILON { FeaturesPartition(s); }
  }

  lemma PlanarityUnfolds(fns: RealFns, ps: seq<Point>)
    requires |ps| >= 3
    ensures PlanarityOf(fns, ps) == FeaturesOf(Eigenvalues(fns, Covariance(ps))).planarity
  {
  }

  lemma SortUnique(a: real, b: real, c: real, s: Triple)
    requires multiset{s.l1, s.l2, s.l3} == multiset{a, b, c} && Descending(s)
    ensures s == SortDescending(a, b, c)
  {
    assert a in multiset{s.l1, s.l2, s.l3} && b in multiset{s.l1, s.l2, s.l3} && c in multiset{s.l1, s.l2, s.l3};
    assert s.l1 in multiset{a, b, c} && s.l2 in multiset{a, b, c} && s.l3 in multiset{a, b, c};
    SortSymmetricFunctions(a, b, c);
    MultisetSum(a, b, c, s.l1, s.l2, s.l3);
  }

  lemma MultisetSum(a: real, b: real, c: real, p: real, q: real, r: real)
    requires multiset{a, b, c} == multiset{p, q, r}
    ensures a + b + c == p + q + r
  {
    assert a in multiset{p, q, r};
    if a == p {
      FirstRemoved(a, b, c, q, r);
    } else if a == q {
      assert multiset{p, q, r} == multiset{a, p, r};
      FirstRemoved(a, b, c, p, r);
    } else {
      assert multiset{p, q, r} == multiset{a, p, q};
      FirstRemoved(a, b, c, p, q);
    }
  }

  lemma FirstRemoved(a: real, b: real, c: real, q: real, r: real)
    requires multiset{a, b, c} == multiset{a, q, r}
    ensures b + c == q + r
  {
    assert multiset{a, b, c} - multiset{a} == multiset{b, c};
    assert multiset{a, q, r} - multiset{a} == multiset{q, r};
    PairSum(b, c, q, r);
  }

  lemma PairSum(b: real, c: real, q: real, r: real)
    requires multiset{b, c} == multiset{q, r}
    ensures b + c == q + r
  {
    assert b in multiset{q, r} && c in multiset{q, r} && q in multiset{b, c} && r in multiset{b, c};
    if b == q {
      assert multiset{b, c} - multiset{b} == multiset{c} && multiset{q, r} - multiset{q} == multiset{r};
      assert c in multiset{r};
    }
  }

  /** The planarity of any point set is a plain eigenvalue ratio in [0, 1]: no
      clamp ever fires on a covariance matrix, and the features sum to 1 unless
      the cluster is degenerate. */
  lemma PlanarityOfPoints(fns: RealFns, ps: seq<Point>)
    requires Lawful(fns) && |ps| >= 3
    ensures var s := Eigenvalues(fns, Covariance(ps));
            var r := FeaturesOf(s);
            && Descending(s) && s.l3 >= 0.0
            && 0.0 <= PlanarityOf(fns, ps) <= 1.0
            && (s.l1 > EPSILON ==>
                  && PlanarityOf(fns, ps) == (s.l2 - s.l3) / s.l1
                  && r.linearity + r.planarity + r.sphericity == 1.0)
  {
    CovariancePsd(ps);
    PsdEigenvalues(fns, Covariance(ps));
    var s := Eigenvalues(fns, Covariance(ps));
    if s.l1 > EPSILON { FeaturesPartition(s); }
  }

  function Translate(ps: seq<Point>, t: Point): seq<Point> {
    seq(|ps|, i requires 0 <= i < |ps| => Move(ps[i], t))
  }

  function Move(p: Point, t: Point): Point {
    Point(p.x + t.x, p.y + t.y, p.z + t.z)
  }

  lemma {:induction false} CoordSumTranslate(ps: seq<Point>, t: Point, i: int)
    ensures CoordSum(Translate(ps, t), i) == CoordSum(ps, i) + (|ps| as real) * Coord(t, i)
  {
    if ps != [] {
      var k := |ps| - 1;
      CoordSumTranslate(ps[..k], t, i);
      assert Translate(ps, t)[..k] == Translate(ps[..k], t);
      assert |ps| as real == k as real + 1.0;
    }
  }

  lemma {:induction false} ScatterTranslate(ps: seq<Point>, c: Point, t: Point)
    ensures Scatter(Translate(ps, t), Move(c, t)) == Scatter(ps, c)
  {
    if ps != [] {
      var k := |ps| - 1;
      ScatterTranslate(ps[..k], c, t);
      assert Translate(ps, t)[..k] == Translate(ps[..k], t);
      OuterTranslate(ps[k], c, t);
      hide Outer;
    }
  }

  lemma OuterTranslate(p: Point, c: Point, t: Point)
    ensures Outer(Move(p, t), Move(c, t)) == Outer(p, c)
  {
    assert p.x + t.x - (c.x + t.x) == p.x - c.x;
    assert p.y + t.y - (c.y + t.y) == p.y - c.y;
    assert p.z + t.z - (c.z + t.z) == p.z - c.z;
  }

  /** Moving all points together changes neither the covariance nor the planarity. */
  lemma TranslationInvariant(fns: RealFns, ps: seq<Point>, t: Point)
    ensures ps != [] ==> Covariance(Translate(ps, t)) == Covariance(ps)
    ensures PlanarityOf(fns, Translate(ps, t)) == PlanarityOf(fns, ps)
  {
    if ps != [] {
      CentroidTranslate(ps, t);
      ScatterTranslate(ps, Centroid(ps), t);
    }
  }

  lemma CentroidTranslate(ps: seq<Point>, t: Point)
    requires ps != []
    ensures Centroid(Translate(ps, t)) == Move(Centroid(ps), t)
  {
    CoordSumTranslate(ps, t, 0);
    CoordSumTranslate(ps, t, 1);
    CoordSumTranslate(ps, t, 2);
    hide CoordSum;
    var n := |ps| as real;
    MeanShift(CoordSum(ps, 0), n, t.x);
    MeanShift(CoordSum(ps, 1), n, t.y);
    MeanShift(CoordSum(ps, 2), n, t.z);
  }

  lemma MeanShift(s: real, n: real, t: real)
    requires n > 0.0
    ensures (s + n * t) / n == s / n + t
  {
  }

  /** All points lie in one plane with normal (x, y, z). */
  ghost predicate Coplanar(ps: seq<Point>, x: real, y: real, z: real)
    requires ps != []
  {
    && (x != 0.0 || y != 0.0 || z != 0.0)
    && forall p, q :: p in ps && q in ps ==> Along(p, q, x, y, z) == 0.0
  }

  /** The centroid is in that plane too. */
  lemma CentroidInPlane(ps: seq<Point>, x: real, y: real, z: real)
    requires ps != [] && Coplanar(ps, x, y, z)
    ensures forall p :: p in ps ==> Along(p, Centroid(ps), x, y, z) == 0.0
  {
    var n, g := |ps| as real, Centroid(ps);
    forall p | p in ps ensures Along(p, g, x, y, z) == 0.0 {
      CentroidBalances(ps, x, y, z);
      SameTotal(ps, p, g, x, y, z);
      hide Along, AlongTotal, Centroid;
      NonzeroFactor(n, Along(p, g, x, y, z));
    }
  }

  lemma {:induction false} SameTotal(ps: seq<Point>, p: Point, g: Point, x: real, y: real, z: real)
    requires forall q :: q in ps ==> Along(q, p, x, y, z) == 0.0
    ensures AlongTotal(ps, g, x, y, z) == (|ps| as real) * Along(p, g, x, y, z)
  {
    if ps != [] {
      var k := |ps| - 1;
      SameTotal(ps[..k], p, g, x, y, z);
      AlongMoves(ps[k], g, p, x, y, z);
      assert |ps| as real == k as real + 1.0;
      hide Along;
    }
  }

  lemma {:induction false} CoplanarAlongSum(ps: seq<Point>, c: Point, x: real, y: real, z: real)
    requires forall p :: p in ps ==> Along(p, c, x, y, z) == 0.0
    ensures AlongSum(ps, c, x, y, z) == 0.0
  {
    if ps != [] { CoplanarAlongSum(ps[..|ps| - 1], c, x, y, z); }
  }

  /** Coplanar points have a singular covariance matrix. */
  lemma CoplanarSingular(ps: seq<Point>, x: real, y: real, z: real)
    requires ps != [] && Coplanar(ps, x, y, z)
    ensures Det(Covariance(ps)) == 0.0
  {
    var n := |ps| as real;
    var m := Covariance(ps);
    CentroidInPlane(ps, x, y, z);
    CoplanarAlongSum(ps, Centroid(ps), x, y, z);
    ScatterQuad(ps, Centroid(ps), x, y, z);
    DivideQuad(Scatter(ps, Centroid(ps)), n, x, y, z);
    NonzeroFactor(n, Quad(m, x, y, z));
    CovariancePsd(ps);
    NullVectorSingular(m, x, y, z);
  }

  /** So their sphericity should be zero. Exactly when it is: the solver was exact
      enough to see it, or an entry of the diagonal is zero, or the whole diagonal is
      negligible. Linearity and planarity then make up the whole. */
  lemma CoplanarSphericityIff(fns: RealFns, ps: seq<Point>, x: real, y: real, z: real)
    requires Lawful(fns) && ps != [] && Coplanar(ps, x, y, z)
    ensures var m := Covariance(ps);
            var s := Eigenvalues(fns, m);
            var r := FeaturesOf(s);
            && (r.sphericity == 0.0 <==>
                  || OffDiagonal(m) > EPSILON
                  || m.a == 0.0 || m.b == 0.0 || m.c == 0.0
                  || (m.a <= EPSILON && m.b <= EPSILON && m.c <= EPSILON))
            && (r.sphericity == 0.0 && s.l1 > EPSILON ==> r.linearity + r.planarity == 1.0)
  {
    var m := Covariance(ps);
    CoplanarSingular(ps, x, y, z);
    CovariancePsd(ps);
    hide Covariance, Coplanar, Det, Lawful, PositiveSemidefinite;
    SingularSphericity(fns, m);
  }

  lemma SingularSphericity(fns: RealFns, m: Sym)
    requires Lawful(fns) && PositiveSemidefinite(m) && Det(m) == 0.0
    ensures var s := Eigenvalues(fns, m);
            var r := FeaturesOf(s);
            && (r.sphericity == 0.0 <==>
                  || OffDiagonal(m) > EPSILON
                  || m.a == 0.0 || m.b == 0.0 || m.c == 0.0
                  || (m.a <= EPSILON && m.b <= EPSILON && m.c <= EPSILON))
            && (r.sphericity == 0.0 && s.l1 > EPSILON ==> r.linearity + r.planarity == 1.0)
  {
    hide Lawful, PositiveSemidefinite, Det, OffDiagonal, FeaturesOf, IsSpectrum;
    var s := Eigenvalues(fns, m);
    PsdEigenvalues(fns, m);
    SphericityOf(s);
    if OffDiagonal(m) > EPSILON {
      SolverExactIff(fns, m);
      SpectrumIffSymmetricFunctions(m, s);
      SmallestIsZero(s);
    } else {
      PsdMinors(m);
      SmallestOfThree(m.a, m.b, m.c);
    }
  }

  /** On a sorted non-negative triple. */
  lemma SphericityOf(s: Triple)
    requires Descending(s) && s.l3 >= 0.0
    ensures FeaturesOf(s).sphericity == 0.0 <==> s.l1 <= EPSILON || s.l3 == 0.0
    ensures s.l1 > EPSILON && FeaturesOf(s).sphericity == 0.0 ==>
              FeaturesOf(s).linearity + FeaturesOf(s).planarity == 1.0
  {
    if s.l1 > EPSILON {
      FeaturesPartition(s);
      assert (s.l3 / s.l1) * s.l1 == s.l3;
    }
  }

  lemma SmallestOfThree(a: real, b: real, c: real)
    ensures var s := SortDescending(a, b, c);
            && (s.l1 <= EPSILON <==> a <= EPSILON && b <= EPSILON && c <= EPSILON)
            && (a >= 0.0 && b >= 0.0 && c >= 0.0 ==> (s.l3 == 0.0 <==> a == 0.0 || b == 0.0 || c == 0.0))
  {
  }

  /** In particular wherever the solver is exact. */
  lemma CoplanarHasNoSphericity(fns: RealFns, ps: seq<Point>, x: real, y: real, z: real)
    requires Lawful(fns) && ps != [] && Coplanar(ps, x, y, z)
    requires var m := Covariance(ps); OffDiagonal(m) == 0.0 || OffDiagonal(m) > EPSILON
    ensures var s := Eigenvalues(fns, Covariance(ps));
            var r := FeaturesOf(s);
            r.sphericity == 0.0 && (s.l1 > EPSILON ==> r.linearity + r.planarity == 1.0)
  {
    var m := Covariance(ps);
    CoplanarSingular(ps, x, y, z);
    MinorsOffDiagonal(m);
    CoplanarSphericityIff(fns, ps, x, y, z);
    hide *;
    if OffDiagonal(m) == 0.0 && m.a != 0.0 && m.b != 0.0 {
      NonzeroFactor(m.a, m.b * m.c);
      NonzeroFactor(m.b, m.c);
    }
  }

  lemma SmallestIsZero(s: Triple)
    requires Descending(s) && s.l3 >= 0.0 && s.l1 * (s.l2 * s.l3) == 0.0
    ensures s.l3 == 0.0
  {
    if s.l3 > 0.0 {
      NonzeroFactor(s.l1, s.l2 * s.l3);
      NonzeroFactor(s.l2, s.l3);
    }
  }
}
