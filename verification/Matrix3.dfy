/** Symmetric 3 by 3 real matrices: characteristic polynomial, spectrum,
    positive semidefiniteness, and what these say about each other. */
module Matrix3 {
  import RealFunctions

  /** A symmetric matrix: diagonal a, b, c; off-diagonal d = m01, e = m02, f = m12. */
  datatype Sym = Sym(a: real, b: real, c: real, d: real, e: real, f: real)

  function Trace(m: Sym): real { m.a + m.b + m.c }

  /** Sum of the principal 2 by 2 minors. */
  function Minors(m: Sym): real {
    (m.a * m.b - m.d * m.d) + (m.a * m.c - m.e * m.e) + (m.b * m.c - m.f * m.f)
  }

  function Det(m: Sym): real {
    DetOf(m.a, m.b, m.c, m.d, m.e, m.f)
  }

  function DetOf(a: real, b: real, c: real, d: real, e: real, f: real): real {
    a * (b * c - f * f) - d * (d * c - f * e) + e * (d * f - b * e)
  }

  function Shift(m: Sym, x: real): Sym {
    Sym(m.a - x, m.b - x, m.c - x, m.d, m.e, m.f)
  }

  /** Characteristic polynomial, det(m - x I). */
  function CharPoly(m: Sym, x: real): real {
    Det(Shift(m, x))
  }

  datatype Triple = Triple(l1: real, l2: real, l3: real)

  ghost predicate FactorsAt(m: Sym, s: Triple, x: real) {
    CharPoly(m, x) == (s.l1 - x) * ((s.l2 - x) * (s.l3 - x))
  }

  /** The three numbers are the eigenvalues of `m`, with multiplicity. */
  ghost predicate IsSpectrum(m: Sym, s: Triple) {
    forall x :: FactorsAt(m, s, x)
  }

  predicate Descending(s: Triple) {
    s.l1 >= s.l2 >= s.l3
  }

  lemma CharPolyCoefficients(m: Sym, x: real)
    ensures CharPoly(m, x) == Det(m) - Minors(m) * x + Trace(m) * (x * x) - x * (x * x)
  {
    hide DetOf;
    var a, b, c, d, e, f := m.a, m.b, m.c, m.d, m.e, m.f;
    DetIs(a - x, b - x, c - x, d, e, f);
    DetIs(a, b, c, d, e, f);
    CharPolynomial(a, b, c, d, e, f, x);
  }

  lemma CharPolynomial(a: real, b: real, c: real, d: real, e: real, f: real, x: real)
    ensures (a - x) * ((b - x) * (c - x) - f * f) - d * (d * (c - x) - f * e) + e * (d * f - (b - x) * e) ==
            (a * (b * c - f * f) - d * (d * c - f * e) + e * (d * f - b * e))
            - ((a * b - d * d) + (a * c - e * e) + (b * c - f * f)) * x + (a + b + c) * (x * x) - x * (x * x)
  {
  }

  /** Being the spectrum is the same as having the same trace, minors and
      determinant (Vieta). */
  lemma SpectrumIffSymmetricFunctions(m: Sym, s: Triple)
    ensures IsSpectrum(m, s) <==>
              && s.l1 + s.l2 + s.l3 == Trace(m)
              && s.l1 * s.l2 + s.l1 * s.l3 + s.l2 * s.l3 == Minors(m)
              && s.l1 * (s.l2 * s.l3) == Det(m)
  {
    hide Trace, Minors, Det, FactorsAt;
    if IsSpectrum(m, s) {
      assert FactorsAt(m, s, 0.0) && FactorsAt(m, s, 1.0) && FactorsAt(m, s, -1.0);
      FactorsIffAgree(m, s, 0.0);
      FactorsIffAgree(m, s, 1.0);
      FactorsIffAgree(m, s, -1.0);
    }
    if && s.l1 + s.l2 + s.l3 == Trace(m)
       && s.l1 * s.l2 + s.l1 * s.l3 + s.l2 * s.l3 == Minors(m)
       && s.l1 * (s.l2 * s.l3) == Det(m) {
      forall x ensures FactorsAt(m, s, x) {
        FactorsIffAgree(m, s, x);
      }
    }
  }

  lemma FactorsIffAgree(m: Sym, s: Triple, x: real)
    ensures var e1, e2, e3 := s.l1 + s.l2 + s.l3, s.l1 * s.l2 + s.l1 * s.l3 + s.l2 * s.l3, s.l1 * (s.l2 * s.l3);
            FactorsAt(m, s, x) <==> Det(m) - Minors(m) * x + Trace(m) * (x * x) == e3 - e2 * x + e1 * (x * x)
  {
    CharPolyCoefficients(m, x);
    Expand(s, x);
  }

  lemma Expand(s: Triple, x: real)
    ensures (s.l1 - x) * ((s.l2 - x) * (s.l3 - x)) ==
            s.l1 * (s.l2 * s.l3) - (s.l1 * s.l2 + s.l1 * s.l3 + s.l2 * s.l3) * x +
            (s.l1 + s.l2 + s.l3) * (x * x) - x * (x * x)
  {
    assert (s.l2 - x) * (s.l3 - x) == s.l2 * s.l3 - (s.l2 + s.l3) * x + x * x;
  }

  // ------------------------------------------------------------ det is bounded

  /** Frobenius norm squared. */
  function Norm2(m: Sym): real {
    InnerOf(m.a, m.b, m.c, m.d, m.e, m.f, m.a, m.b, m.c, m.d, m.e, m.f)
  }

  /** Product of a row and a column. */
  function Row(x: real, y: real, z: real, x': real, y': real, z': real): real {
    x * x' + y * y' + z * z'
  }

  /** The square of a symmetric matrix. */
  function Square(m: Sym): Sym {
    Sym(Row(m.a, m.d, m.e, m.a, m.d, m.e), Row(m.d, m.b, m.f, m.d, m.b, m.f), Row(m.e, m.f, m.c, m.e, m.f, m.c),
        Row(m.a, m.d, m.e, m.d, m.b, m.f), Row(m.a, m.d, m.e, m.e, m.f, m.c), Row(m.d, m.b, m.f, m.e, m.f, m.c))
  }

  /** Frobenius inner product. */
  function Inner(m: Sym, n: Sym): real {
    InnerOf(m.a, m.b, m.c, m.d, m.e, m.f, n.a, n.b, n.c, n.d, n.e, n.f)
  }

  function InnerOf(a: real, b: real, c: real, d: real, e: real, f: real,
                   p: real, q: real, r: real, u: real, v: real, w: real): real {
    a * p + b * q + c * r + 2.0 * (d * u + e * v + f * w)
  }

  function Combine(m: Sym, k: real, n: Sym, x: real): Sym {
    Sym(m.a - k * n.a - x, m.b - k * n.b - x, m.c - k * n.c - x, m.d - k * n.d, m.e - k * n.e, m.f - k * n.f)
  }

  // Polynomial identities are proved on plain real variables; the definitions
  // of the matrix operations are unfolded separately.

  lemma RowIs(x: real, y: real, z: real, x': real, y': real, z': real)
    ensures Row(x, y, z, x', y', z') == x * x' + y * y' + z * z'
  {
  }

  lemma InnerIs(a: real, b: real, c: real, d: real, e: real, f: real,
                p: real, q: real, r: real, u: real, v: real, w: real)
    ensures InnerOf(a, b, c, d, e, f, p, q, r, u, v, w) == a * p + b * q + c * r + 2.0 * (d * u + e * v + f * w)
  {
  }

  lemma DetIs(a: real, b: real, c: real, d: real, e: real, f: real)
    ensures DetOf(a, b, c, d, e, f) == a * (b * c - f * f) - d * (d * c - f * e) + e * (d * f - b * e)
  {
  }

  /** tr(m m^2) = 3 det m, entry by entry, for a traceless matrix. */
  lemma CubePolynomial(a: real, b: real, c: real, d: real, e: real, f: real,
                       p: real, q: real, r: real, u: real, v: real, w: real)
    requires c == -a - b
    requires p == a * a + d * d + e * e && q == d * d + b * b + f * f && r == e * e + f * f + c * c
    requires u == a * d + d * b + e * f && v == a * e + d * f + e * c && w == d * e + b * f + f * c
    ensures a * p + b * q + c * r + 2.0 * (d * u + e * v + f * w) ==
            3.0 * (a * (b * c - f * f) - d * (d * c - f * e) + e * (d * f - b * e))
  {
  }

  lemma CubeIdentity(a: real, b: real, c: real, d: real, e: real, f: real)
    requires c == -a - b
    ensures InnerOf(a, b, c, d, e, f,
                    Row(a, d, e, a, d, e), Row(d, b, f, d, b, f), Row(e, f, c, e, f, c),
                    Row(a, d, e, d, b, f), Row(a, d, e, e, f, c), Row(d, b, f, e, f, c)) ==
                      3.0 * DetOf(a, b, c, d, e, f)
  {
    hide *;
    var p, q, r := Row(a, d, e, a, d, e), Row(d, b, f, d, b, f), Row(e, f, c, e, f, c);
    var u, v, w := Row(a, d, e, d, b, f), Row(a, d, e, e, f, c), Row(d, b, f, e, f, c);
    RowIs(a, d, e, a, d, e);
    RowIs(d, b, f, d, b, f);
    RowIs(e, f, c, e, f, c);
    RowIs(a, d, e, d, b, f);
    RowIs(a, d, e, e, f, c);
    RowIs(d, b, f, e, f, c);
    InnerIs(a, b, c, d, e, f, p, q, r, u, v, w);
    DetIs(a, b, c, d, e, f);
    CubePolynomial(a, b, c, d, e, f, p, q, r, u, v, w);
  }

  lemma TracelessCube(m: Sym)
    requires Trace(m) == 0.0
    ensures Inner(m, Square(m)) == 3.0 * Det(m)
  {
    CubeIdentity(m.a, m.b, m.c, m.d, m.e, m.f);
    hide Row, InnerOf, DetOf;
  }

  /** 2 |m^2|^2 = |m|^4, entry by entry, for a traceless matrix. */
  lemma FourthPolynomial(a: real, b: real, c: real, d: real, e: real, f: real,
                         p: real, q: real, r: real, u: real, v: real, w: real)
    requires c == -a - b
    requires p == a * a + d * d + e * e && q == d * d + b * b + f * f && r == e * e + f * f + c * c
    requires u == a * d + d * b + e * f && v == a * e + d * f + e * c && w == d * e + b * f + f * c
    ensures 2.0 * (p * p + q * q + r * r + 2.0 * (u * u + v * v + w * w)) == (p + q + r) * (p + q + r)
  {
  }

  ghost predicate FourthRelation(n: real, t: real) {
    2.0 * n == t * t
  }

  lemma FourthIdentity(a: real, b: real, c: real, d: real, e: real, f: real,
                       p: real, q: real, r: real, u: real, v: real, w: real)
    requires c == -a - b
    requires p == a * a + d * d + e * e && q == d * d + b * b + f * f && r == e * e + f * f + c * c
    requires u == a * d + d * b + e * f && v == a * e + d * f + e * c && w == d * e + b * f + f * c
    ensures FourthRelation(p * p + q * q + r * r + 2.0 * (u * u + v * v + w * w), p + q + r)
  {
    FourthPolynomial(a, b, c, d, e, f, p, q, r, u, v, w);
  }

  lemma TracelessFourth(m: Sym)
    requires Trace(m) == 0.0
    ensures FourthRelation(Norm2(Square(m)), Trace(Square(m)))
  {
    hide Row, InnerOf, FourthRelation;
    var a, b, c, d, e, f := m.a, m.b, m.c, m.d, m.e, m.f;
    var s := Square(m);
    RowIs(a, d, e, a, d, e);
    RowIs(d, b, f, d, b, f);
    RowIs(e, f, c, e, f, c);
    RowIs(a, d, e, d, b, f);
    RowIs(a, d, e, e, f, c);
    RowIs(d, b, f, e, f, c);
    InnerIs(s.a, s.b, s.c, s.d, s.e, s.f, s.a, s.b, s.c, s.d, s.e, s.f);
    FourthIdentity(a, b, c, d, e, f, s.a, s.b, s.c, s.d, s.e, s.f);
  }

  /** With trace 0 and squared norm 6 the determinant is at most 2 in size: the
      squared norm of m^2 - (det/2) m - 2 I is 6 - (3/2) det^2. */
  lemma DetBound(m: Sym)
    requires Trace(m) == 0.0 && Norm2(m) == 6.0
    ensures -2.0 <= Det(m) <= 2.0
  {
    var k := Det(m) / 2.0;
    var s := Square(m);
    var n := Combine(s, k, m, 2.0);
    TracelessCube(m);
    TracelessFourth(m);
    TraceOfSquare(m);
    CombineNorm(s, k, m);
    Norm2NonNegative(n);
    hide *;
    CombineValue(k, Norm2(n), Inner(m, s), Norm2(s), Norm2(m), Trace(s), Trace(m));
    WithinOne(k);
  }

  lemma TraceOfSquare(m: Sym)
    ensures Trace(Square(m)) == Norm2(m)
  {
  }

  lemma CombineValue(k: real, n: real, i: real, sn: real, mn: real, st: real, mt: real)
    requires i == 6.0 * k && mn == 6.0 && st == 6.0 && mt == 0.0 && FourthRelation(sn, st)
    requires NormRelation(k, n, i, sn, mn, st, mt)
    ensures n == 6.0 - 6.0 * (k * k)
  {
    assert sn == 18.0;
  }

  lemma WithinOne(k: real)
    requires k * k <= 1.0
    ensures -1.0 <= k <= 1.0
  {
    assert (1.0 - k) * (1.0 + k) >= 0.0;
  }

  lemma CombineNorm(s: Sym, k: real, m: Sym)
    ensures NormRelation(k, Norm2(Combine(s, k, m, 2.0)), Inner(m, s), Norm2(s), Norm2(m), Trace(s), Trace(m))
  {
    hide InnerOf, NormRelation;
    var n := Combine(s, k, m, 2.0);
    CombineInner(m.a, m.b, m.c, m.d, m.e, m.f, s.a, s.b, s.c, s.d, s.e, s.f, k, n.a, n.b, n.c, n.d, n.e, n.f);
  }

  lemma CombineInner(a: real, b: real, c: real, d: real, e: real, f: real,
                     p: real, q: real, r: real, u: real, v: real, w: real, k: real,
                     p': real, q': real, r': real, u': real, v': real, w': real)
    requires p' == p - k * a - 2.0 && q' == q - k * b - 2.0 && r' == r - k * c - 2.0
    requires u' == u - k * d && v' == v - k * e && w' == w - k * f
    ensures NormRelation(k, InnerOf(p', q', r', u', v', w', p', q', r', u', v', w'),
                         InnerOf(a, b, c, d, e, f, p, q, r, u, v, w), InnerOf(p, q, r, u, v, w, p, q, r, u, v, w),
                         InnerOf(a, b, c, d, e, f, a, b, c, d, e, f), p + q + r, a + b + c)
  {
    hide *;
    CombineIdentity(a, b, c, d, e, f, p, q, r, u, v, w, k, p', q', r', u', v', w');
    InnerIs(p', q', r', u', v', w', p', q', r', u', v', w');
    InnerIs(a, b, c, d, e, f, p, q, r, u, v, w);
    InnerIs(p, q, r, u, v, w, p, q, r, u, v, w);
    InnerIs(a, b, c, d, e, f, a, b, c, d, e, f);
  }

  lemma CombinePolynomial(a: real, b: real, c: real, d: real, e: real, f: real,
                          p: real, q: real, r: real, u: real, v: real, w: real, k: real,
                          p': real, q': real, r': real, u': real, v': real, w': real)
    requires p' == p - k * a - 2.0 && q' == q - k * b - 2.0 && r' == r - k * c - 2.0
    requires u' == u - k * d && v' == v - k * e && w' == w - k * f
    ensures p' * p' + q' * q' + r' * r' + 2.0 * (u' * u' + v' * v' + w' * w') ==
            p * p + q * q + r * r + 2.0 * (u * u + v * v + w * w)
            + k * k * (a * a + b * b + c * c + 2.0 * (d * d + e * e + f * f)) + 12.0
            - 2.0 * (k * (a * p + b * q + c * r + 2.0 * (d * u + e * v + f * w)))
            - 4.0 * (p + q + r) + 4.0 * (k * (a + b + c))
  {
  }

  lemma NormRelationIs(k: real, n: real, i: real, sn: real, mn: real, st: real, mt: real)
    requires n == sn + k * k * mn + 12.0 - 2.0 * (k * i) - 4.0 * st + 4.0 * (k * mt)
    ensures NormRelation(k, n, i, sn, mn, st, mt)
  {
  }

  lemma CombineIdentity(a: real, b: real, c: real, d: real, e: real, f: real,
                        p: real, q: real, r: real, u: real, v: real, w: real, k: real,
                        p': real, q': real, r': real, u': real, v': real, w': real)
    requires p' == p - k * a - 2.0 && q' == q - k * b - 2.0 && r' == r - k * c - 2.0
    requires u' == u - k * d && v' == v - k * e && w' == w - k * f
    ensures NormRelation(k, p' * p' + q' * q' + r' * r' + 2.0 * (u' * u' + v' * v' + w' * w'),
                         a * p + b * q + c * r + 2.0 * (d * u + e * v + f * w),
                         p * p + q * q + r * r + 2.0 * (u * u + v * v + w * w),
                         a * a + b * b + c * c + 2.0 * (d * d + e * e + f * f), p + q + r, a + b + c)
  {
    hide *;
    CombinePolynomial(a, b, c, d, e, f, p, q, r, u, v, w, k, p', q', r', u', v', w');
    NormRelationIs(k, p' * p' + q' * q' + r' * r' + 2.0 * (u' * u' + v' * v' + w' * w'),
                   a * p + b * q + c * r + 2.0 * (d * u + e * v + f * w),
                   p * p + q * q + r * r + 2.0 * (u * u + v * v + w * w),
                   a * a + b * b + c * c + 2.0 * (d * d + e * e + f * f), p + q + r, a + b + c);
  }

  ghost predicate NormRelation(k: real, n: real, i: real, sn: real, mn: real, st: real, mt: real) {
    n == sn + k * k * mn + 12.0 - 2.0 * (k * i) - 4.0 * st + 4.0 * (k * mt)
  }

  lemma Norm2NonNegative(m: Sym)
    ensures Norm2(m) >= 0.0
  {
    SquareNonNegative(m.a);
    SquareNonNegative(m.b);
    SquareNonNegative(m.c);
    SquareNonNegative(m.d);
    SquareNonNegative(m.e);
    SquareNonNegative(m.f);
  }

  lemma SquareNonNegative(x: real)
    ensures x * x >= 0.0
  {
  }

  // ------------------------------------------------- positive semidefiniteness

  /** v^T m v */
  function Quad(m: Sym, x: real, y: real, z: real): real {
    m.a * (x * x) + m.b * (y * y) + m.c * (z * z) + 2.0 * (m.d * (x * y) + m.e * (x * z) + m.f * (y * z))
  }

  ghost predicate PositiveSemidefinite(m: Sym) {
    forall x, y, z :: Quad(m, x, y, z) >= 0.0
  }

  /** A quadratic form in two variables that is never negative has non-negative
      coefficients and discriminant. */
  lemma BinaryForm(a: real, d: real, b: real)
    requires forall s, t :: BinaryValue(a, d, b, s, t) >= 0.0
    ensures a >= 0.0 && b >= 0.0 && a * b >= d * d
  {
    assert BinaryValue(a, d, b, 1.0, 0.0) >= 0.0 && BinaryValue(a, d, b, 0.0, 1.0) >= 0.0;
    if a > 0.0 {
      assert BinaryValue(a, d, b, -d, a) >= 0.0;
      assert BinaryValue(a, d, b, -d, a) == a * (a * b - d * d);
      PositiveFactor(a, a * b - d * d);
    } else {
      if d != 0.0 { DegenerateForm(d, b); }
    }
  }

  function BinaryValue(a: real, d: real, b: real, s: real, t: real): real {
    a * (s * s) + 2.0 * (d * (s * t)) + b * (t * t)
  }

  lemma DegenerateForm(d: real, b: real)
    requires d != 0.0
    ensures BinaryValue(0.0, d, b, -(b + 1.0) / (2.0 * d), 1.0) == -1.0
  {
    var s := -(b + 1.0) / (2.0 * d);
    assert d * s == -(b + 1.0) / 2.0;
    assert BinaryValue(0.0, d, b, s, 1.0) == 2.0 * (d * s) + b;
  }

  lemma PositiveFactor(a: real, x: real)
    requires a > 0.0 && a * x >= 0.0
    ensures x >= 0.0
  {
  }

  lemma PsdMinors(m: Sym)
    requires PositiveSemidefinite(m)
    ensures m.a >= 0.0 && m.b >= 0.0 && m.c >= 0.0
    ensures m.a * m.b >= m.d * m.d && m.a * m.c >= m.e * m.e && m.b * m.c >= m.f * m.f
  {
    PsdPlaneXY(m);
    PsdPlaneXZ(m);
    PsdPlaneYZ(m);
    hide PositiveSemidefinite;
  }

  lemma PsdPlaneXY(m: Sym)
    requires PositiveSemidefinite(m)
    ensures m.a >= 0.0 && m.b >= 0.0 && m.a * m.b >= m.d * m.d
  {
    hide Quad, BinaryValue;
    forall s, t ensures BinaryValue(m.a, m.d, m.b, s, t) >= 0.0 {
      assert Quad(m, s, t, 0.0) >= 0.0;
      Restrict(m, s, t);
    }
    BinaryForm(m.a, m.d, m.b);
  }

  lemma PsdPlaneXZ(m: Sym)
    requires PositiveSemidefinite(m)
    ensures m.a >= 0.0 && m.c >= 0.0 && m.a * m.c >= m.e * m.e
  {
    hide Quad, BinaryValue;
    forall s, t ensures BinaryValue(m.a, m.e, m.c, s, t) >= 0.0 {
      assert Quad(m, s, 0.0, t) >= 0.0;
      Restrict(m, s, t);
    }
    BinaryForm(m.a, m.e, m.c);
  }

  lemma PsdPlaneYZ(m: Sym)
    requires PositiveSemidefinite(m)
    ensures m.b >= 0.0 && m.c >= 0.0 && m.b * m.c >= m.f * m.f
  {
    hide Quad, BinaryValue;
    forall s, t ensures BinaryValue(m.b, m.f, m.c, s, t) >= 0.0 {
      assert Quad(m, 0.0, s, t) >= 0.0;
      Restrict(m, s, t);
    }
    BinaryForm(m.b, m.f, m.c);
  }

  lemma Restrict(m: Sym, s: real, t: real)
    ensures Quad(m, s, t, 0.0) == BinaryValue(m.a, m.d, m.b, s, t)
    ensures Quad(m, s, 0.0, t) == BinaryValue(m.a, m.e, m.c, s, t)
    ensures Quad(m, 0.0, s, t) == BinaryValue(m.b, m.f, m.c, s, t)
  {
  }

  /** Eliminating the first variable of a positive semidefinite form leaves a
      form in two variables that is never negative. */
  lemma SchurForm(m: Sym, s: real, t: real)
    requires PositiveSemidefinite(m) && m.a > 0.0
    ensures BinaryValue(m.a * m.b - m.d * m.d, m.a * m.f - m.d * m.e, m.a * m.c - m.e * m.e, s, t) >= 0.0
  {
    var a, b, c, d, e, f := m.a, m.b, m.c, m.d, m.e, m.f;
    var x := -(d * s + e * t);
    var v := BinaryValue(a * b - d * d, a * f - d * e, a * c - e * e, s, t);
    assert Quad(m, x, a * s, a * t) >= 0.0;
    SchurIdentity(m, s, t);
    PositiveFactor(a, v);
  }

  lemma SchurIdentity(m: Sym, s: real, t: real)
    ensures Quad(m, -(m.d * s + m.e * t), m.a * s, m.a * t) ==
            m.a * BinaryValue(m.a * m.b - m.d * m.d, m.a * m.f - m.d * m.e, m.a * m.c - m.e * m.e, s, t)
  {
  }

  lemma PsdDet(m: Sym)
    requires PositiveSemidefinite(m)
    ensures Det(m) >= 0.0
  {
    PsdMinors(m);
    hide PositiveSemidefinite, Quad, BinaryValue;
    if m.a > 0.0 {
      var p, q, r := m.a * m.b - m.d * m.d, m.a * m.f - m.d * m.e, m.a * m.c - m.e * m.e;
      forall s, t ensures BinaryValue(p, q, r, s, t) >= 0.0 {
        SchurForm(m, s, t);
      }
      BinaryForm(p, q, r);
      EliminationIdentity(m);
      PositiveFactor(m.a, Det(m));
    } else {
      ZeroSquare(m.d);
      ZeroSquare(m.e);
    }
  }

  lemma ZeroSquare(x: real)
    requires x * x <= 0.0
    ensures x == 0.0
  {
    SquareNonNegative(x);
    RealFunctions.SquareZero(x);
  }

  lemma EliminationIdentity(m: Sym)
    ensures m.a * Det(m) == (m.a * m.b - m.d * m.d) * (m.a * m.c - m.e * m.e)
                            - (m.a * m.f - m.d * m.e) * (m.a * m.f - m.d * m.e)
  {
    var a, b, c, d, e, f := m.a, m.b, m.c, m.d, m.e, m.f;
    calc {
      (a * b - d * d) * (a * c - e * e) - (a * f - d * e) * (a * f - d * e);
      a * a * b * c - a * b * e * e - a * c * d * d - a * a * f * f + 2.0 * a * d * e * f;
      a * (a * b * c - b * e * e - c * d * d - a * f * f + 2.0 * d * e * f);
      { assert a * b * c - b * e * e - c * d * d - a * f * f + 2.0 * d * e * f == Det(m); }
      a * Det(m);
    }
  }

  /** The eigenvalues of a positive semidefinite matrix are not negative. */
  lemma PsdSpectrum(m: Sym, s: Triple)
    requires PositiveSemidefinite(m) && IsSpectrum(m, s)
    ensures s.l1 >= 0.0 && s.l2 >= 0.0 && s.l3 >= 0.0
  {
    SpectrumIsRoot(m, s);
    PsdRoot(m, s.l1);
    PsdRoot(m, s.l2);
    PsdRoot(m, s.l3);
  }

  lemma SpectrumIsRoot(m: Sym, s: Triple)
    requires IsSpectrum(m, s)
    ensures CharPoly(m, s.l1) == 0.0 && CharPoly(m, s.l2) == 0.0 && CharPoly(m, s.l3) == 0.0
  {
    hide CharPoly;
    assert FactorsAt(m, s, s.l1) && FactorsAt(m, s, s.l2) && FactorsAt(m, s, s.l3);
  }

  lemma PsdRoot(m: Sym, x: real)
    requires PositiveSemidefinite(m) && CharPoly(m, x) == 0.0
    ensures x >= 0.0
  {
    PsdDet(m);
    PsdTraceMinors(m);
    CharPolyCoefficients(m, x);
    hide *;
    if x < 0.0 { CubicPositive(Det(m), Minors(m), Trace(m), x); }
  }

  lemma PsdTraceMinors(m: Sym)
    requires PositiveSemidefinite(m)
    ensures Trace(m) >= 0.0 && Minors(m) >= 0.0
  {
    PsdMinors(m);
    hide PositiveSemidefinite;
  }

  lemma CubicPositive(p: real, q: real, r: real, x: real)
    requires p >= 0.0 && q >= 0.0 && r >= 0.0 && x < 0.0
    ensures p - q * x + r * (x * x) - x * (x * x) > 0.0
  {
    assert q * x <= 0.0 && x * x > 0.0;
    assert r * (x * x) >= 0.0 && x * (x * x) < 0.0;
  }

  /** m v . w */
  function Bilinear(m: Sym, x: real, y: real, z: real, u: real, v: real, w: real): real {
    (m.a * x + m.d * y + m.e * z) * u + (m.d * x + m.b * y + m.f * z) * v + (m.e * x + m.f * y + m.c * z) * w
  }

  lemma BilinearSymmetric(m: Sym, x: real, y: real, z: real, u: real, v: real, w: real)
    ensures Bilinear(m, x, y, z, u, v, w) == Bilinear(m, u, v, w, x, y, z)
    ensures Quad(m, x, y, z) == Bilinear(m, x, y, z, x, y, z)
  {
  }

  lemma BilinearLinear(m: Sym, x: real, y: real, z: real, u: real, v: real, w: real, s: real, t: real,
                       p: real, q: real, r: real)
    ensures Bilinear(m, s * x + t * u, s * y + t * v, s * z + t * w, p, q, r) ==
            s * Bilinear(m, x, y, z, p, q, r) + t * Bilinear(m, u, v, w, p, q, r)
  {
    var g0, g1, g2 := m.a * x + m.d * y + m.e * z, m.d * x + m.b * y + m.f * z, m.e * x + m.f * y + m.c * z;
    var h0, h1, h2 := m.a * u + m.d * v + m.e * w, m.d * u + m.b * v + m.f * w, m.e * u + m.f * v + m.c * w;
    assert m.a * (s * x + t * u) + m.d * (s * y + t * v) + m.e * (s * z + t * w) == s * g0 + t * h0;
    assert m.d * (s * x + t * u) + m.b * (s * y + t * v) + m.f * (s * z + t * w) == s * g1 + t * h1;
    assert m.e * (s * x + t * u) + m.f * (s * y + t * v) + m.c * (s * z + t * w) == s * g2 + t * h2;
    Distribute(s, t, g0, g1, g2, h0, h1, h2, p, q, r);
  }

  lemma Distribute(s: real, t: real, g0: real, g1: real, g2: real, h0: real, h1: real, h2: real,
                   p: real, q: real, r: real)
    ensures (s * g0 + t * h0) * p + (s * g1 + t * h1) * q + (s * g2 + t * h2) * r ==
            s * (g0 * p + g1 * q + g2 * r) + t * (h0 * p + h1 * q + h2 * r)
  {
  }

  lemma QuadOfSum(m: Sym, x: real, y: real, z: real, u: real, v: real, w: real, s: real, t: real)
    ensures Quad(m, s * x + t * u, s * y + t * v, s * z + t * w) ==
            BinaryValue(Quad(m, x, y, z), Bilinear(m, x, y, z, u, v, w), Quad(m, u, v, w), s, t)
  {
    hide Quad, Bilinear;
    var a, b, c := s * x + t * u, s * y + t * v, s * z + t * w;
    BilinearSymmetric(m, a, b, c, a, b, c);
    BilinearLinear(m, x, y, z, u, v, w, s, t, a, b, c);
    BilinearSymmetric(m, x, y, z, a, b, c);
    BilinearSymmetric(m, u, v, w, a, b, c);
    BilinearLinear(m, x, y, z, u, v, w, s, t, x, y, z);
    BilinearLinear(m, x, y, z, u, v, w, s, t, u, v, w);
    BilinearSymmetric(m, x, y, z, u, v, w);
    BilinearSymmetric(m, u, v, w, x, y, z);
    BinaryExpand(s, t, Quad(m, x, y, z), Bilinear(m, x, y, z, u, v, w), Quad(m, u, v, w));
  }

  lemma BinaryExpand(s: real, t: real, a: real, k: real, r: real)
    ensures s * (s * a + t * k) + t * (s * k + t * r) == BinaryValue(a, k, r, s, t)
  {
  }

  /** A direction with no spread is orthogonal, under m, to every direction. */
  lemma NullDirection(m: Sym, x: real, y: real, z: real, u: real, v: real, w: real)
    requires PositiveSemidefinite(m) && Quad(m, x, y, z) == 0.0
    ensures Bilinear(m, x, y, z, u, v, w) == 0.0
  {
    var k, r := Bilinear(m, x, y, z, u, v, w), Quad(m, u, v, w);
    forall s, t ensures BinaryValue(0.0, k, r, s, t) >= 0.0 {
      QuadOfSum(m, x, y, z, u, v, w, s, t);
      assert Quad(m, s * x + t * u, s * y + t * v, s * z + t * w) >= 0.0;
    }
    BinaryForm(0.0, k, r);
    ZeroSquare(k);
  }

  /** A positive semidefinite matrix with such a direction has determinant zero. */
  lemma NullVectorSingular(m: Sym, x: real, y: real, z: real)
    requires PositiveSemidefinite(m) && Quad(m, x, y, z) == 0.0
    requires x != 0.0 || y != 0.0 || z != 0.0
    ensures Det(m) == 0.0
  {
    NullDirection(m, x, y, z, 1.0, 0.0, 0.0);
    NullDirection(m, x, y, z, 0.0, 1.0, 0.0);
    NullDirection(m, x, y, z, 0.0, 0.0, 1.0);
    KernelSingular(m, x, y, z);
  }

  /** Cramer: the determinant kills every entry of a kernel vector. */
  lemma KernelSingular(m: Sym, x: real, y: real, z: real)
    requires m.a * x + m.d * y + m.e * z == 0.0
    requires m.d * x + m.b * y + m.f * z == 0.0
    requires m.e * x + m.f * y + m.c * z == 0.0
    requires x != 0.0 || y != 0.0 || z != 0.0
    ensures Det(m) == 0.0
  {
    Cramer(m, x, y, z);
    if x != 0.0 {
      RealFunctions.NonzeroFactor(x, Det(m));
    } else if y != 0.0 {
      RealFunctions.NonzeroFactor(y, Det(m));
    } else {
      RealFunctions.NonzeroFactor(z, Det(m));
    }
  }

  lemma Cramer(m: Sym, x: real, y: real, z: real)
    requires m.a * x + m.d * y + m.e * z == 0.0
    requires m.d * x + m.b * y + m.f * z == 0.0
    requires m.e * x + m.f * y + m.c * z == 0.0
    ensures x * Det(m) == 0.0 && y * Det(m) == 0.0 && z * Det(m) == 0.0
  {
    var r0, r1, r2 := m.a * x + m.d * y + m.e * z, m.d * x + m.b * y + m.f * z, m.e * x + m.f * y + m.c * z;
    assert x * Det(m) == (m.b * m.c - m.f * m.f) * r0 - (m.d * m.c - m.e * m.f) * r1 + (m.d * m.f - m.e * m.b) * r2;
    assert y * Det(m) == (m.e * m.f - m.d * m.c) * r0 + (m.a * m.c - m.e * m.e) * r1 - (m.a * m.f - m.d * m.e) * r2;
    assert z * Det(m) == (m.d * m.f - m.b * m.e) * r0 - (m.a * m.f - m.d * m.e) * r1 + (m.a * m.b - m.d * m.d) * r2;
  }

  /** (x, y, z) is not zero, and the matrix multiplies it by `l`. */
  ghost predicate Eigenvector(m: Sym, l: real, x: real, y: real, z: real) {
    && (x != 0.0 || y != 0.0 || z != 0.0)
    && m.a * x + m.d * y + m.e * z == l * x
    && m.d * x + m.b * y + m.f * z == l * y
    && m.e * x + m.f * y + m.c * z == l * z
  }

  /** The roots of the characteristic polynomial are the numbers with an eigenvector. */
  lemma EigenvectorIff(m: Sym, l: real)
    ensures CharPoly(m, l) == 0.0 <==> exists x, y, z :: Eigenvector(m, l, x, y, z)
  {
    var n := Shift(m, l);
    if x, y, z :| Eigenvector(m, l, x, y, z) {
      ShiftedProduct(m, l, x, y, z);
      KernelSingular(n, x, y, z);
    }
    if Det(n) == 0.0 {
      var x, y, z := KernelVector(n);
      ShiftedProduct(m, l, x, y, z);
      assert Eigenvector(m, l, x, y, z);
    }
  }

  lemma ShiftedProduct(m: Sym, l: real, x: real, y: real, z: real)
    ensures var n := Shift(m, l);
            && n.a * x + n.d * y + n.e * z == m.a * x + m.d * y + m.e * z - l * x
            && n.d * x + n.b * y + n.f * z == m.d * x + m.b * y + m.f * z - l * y
            && n.e * x + n.f * y + n.c * z == m.e * x + m.f * y + m.c * z - l * z
  {
  }

  /** A column of the adjugate, or a vector across the only direction there is. */
  lemma KernelVector(m: Sym) returns (x: real, y: real, z: real)
    requires Det(m) == 0.0
    ensures x != 0.0 || y != 0.0 || z != 0.0
    ensures m.a * x + m.d * y + m.e * z == 0.0
    ensures m.d * x + m.b * y + m.f * z == 0.0
    ensures m.e * x + m.f * y + m.c * z == 0.0
  {
    var p, q, r := m.b * m.c - m.f * m.f, m.e * m.f - m.d * m.c, m.d * m.f - m.b * m.e;
    var u, v, w := m.a * m.c - m.e * m.e, m.d * m.e - m.a * m.f, m.a * m.b - m.d * m.d;
    hide Det;
    Adjugate(m, p, q, r, u, v, w);
    if p != 0.0 || q != 0.0 || r != 0.0 {
      return p, q, r;
    }
    if u != 0.0 || v != 0.0 {
      return q, u, v;
    }
    if w != 0.0 {
      return r, v, w;
    }
    x, y, z := FlatKernel(m);
  }

  /** When all rows point the same way. */
  lemma FlatKernel(m: Sym) returns (x: real, y: real, z: real)
    requires m.a * m.c - m.e * m.e == 0.0 && m.d * m.e - m.a * m.f == 0.0 && m.a * m.b - m.d * m.d == 0.0
    ensures x != 0.0 || y != 0.0 || z != 0.0
    ensures m.a * x + m.d * y + m.e * z == 0.0
    ensures m.d * x + m.b * y + m.f * z == 0.0
    ensures m.e * x + m.f * y + m.c * z == 0.0
  {
    if m.a != 0.0 {
      return -m.d, m.a, 0.0;
    }
    RealFunctions.SquareZero(m.d);
    RealFunctions.SquareZero(m.e);
    return 1.0, 0.0, 0.0;
  }

  lemma Adjugate(m: Sym, p: real, q: real, r: real, u: real, v: real, w: real)
    requires Det(m) == 0.0
    requires p == m.b * m.c - m.f * m.f && q == m.e * m.f - m.d * m.c && r == m.d * m.f - m.b * m.e
    requires u == m.a * m.c - m.e * m.e && v == m.d * m.e - m.a * m.f && w == m.a * m.b - m.d * m.d
    ensures m.a * p + m.d * q + m.e * r == m.d * p + m.b * q + m.f * r == m.e * p + m.f * q + m.c * r == 0.0
    ensures m.a * q + m.d * u + m.e * v == m.d * q + m.b * u + m.f * v == m.e * q + m.f * u + m.c * v == 0.0
    ensures m.a * r + m.d * v + m.e * w == m.d * r + m.b * v + m.f * w == m.e * r + m.f * v + m.c * w == 0.0
  {
    AdjugateColumn(m.a, m.b, m.c, m.d, m.e, m.f);
    AdjugateMiddle(m.a, m.b, m.c, m.d, m.e, m.f);
    AdjugateLast(m.a, m.b, m.c, m.d, m.e, m.f);
  }

  lemma AdjugateColumn(a: real, b: real, c: real, d: real, e: real, f: real)
    ensures a * (b * c - f * f) + d * (e * f - d * c) + e * (d * f - b * e) == DetOf(a, b, c, d, e, f)
    ensures d * (b * c - f * f) + b * (e * f - d * c) + f * (d * f - b * e) == 0.0
    ensures e * (b * c - f * f) + f * (e * f - d * c) + c * (d * f - b * e) == 0.0
  {
  }

  lemma AdjugateMiddle(a: real, b: real, c: real, d: real, e: real, f: real)
    ensures a * (e * f - d * c) + d * (a * c - e * e) + e * (d * e - a * f) == 0.0
    ensures d * (e * f - d * c) + b * (a * c - e * e) + f * (d * e - a * f) == DetOf(a, b, c, d, e, f)
    ensures e * (e * f - d * c) + f * (a * c - e * e) + c * (d * e - a * f) == 0.0
  {
  }

  lemma AdjugateLast(a: real, b: real, c: real, d: real, e: real, f: real)
    ensures a * (d * f - b * e) + d * (d * e - a * f) + e * (a * b - d * d) == 0.0
    ensures d * (d * f - b * e) + b * (d * e - a * f) + f * (a * b - d * d) == 0.0
    ensures e * (d * f - b * e) + f * (d * e - a * f) + c * (a * b - d * d) == DetOf(a, b, c, d, e, f)
  {
  }

  /** The spectrum is exactly the numbers with an eigenvector. */
  lemma SpectrumHasEigenvectors(m: Sym, s: Triple, l: real)
    requires IsSpectrum(m, s)
    ensures (exists x, y, z :: Eigenvector(m, l, x, y, z)) <==> l == s.l1 || l == s.l2 || l == s.l3
  {
    hide *;
    EigenvectorIff(m, l);
    SpectrumAt(m, s, l);
    FactorZero(s.l1 - l, s.l2 - l, s.l3 - l);
  }

  lemma SpectrumAt(m: Sym, s: Triple, l: real)
    requires IsSpectrum(m, s)
    ensures CharPoly(m, l) == (s.l1 - l) * ((s.l2 - l) * (s.l3 - l))
  {
    hide CharPoly;
    assert FactorsAt(m, s, l);
  }

  lemma FactorZero(p: real, q: real, r: real)
    ensures p * (q * r) == 0.0 <==> p == 0.0 || q == 0.0 || r == 0.0
  {
    if p != 0.0 && p * (q * r) == 0.0 {
      RealFunctions.NonzeroFactor(p, q * r);
      if q != 0.0 { RealFunctions.NonzeroFactor(q, r); }
    }
  }

  /** In descending order there is only one. */
  lemma SpectrumUnique(m: Sym, s: Triple, t: Triple)
    requires IsSpectrum(m, s) && IsSpectrum(m, t) && Descending(s) && Descending(t)
    ensures s == t
  {
    AmongRoots(m, s, t, s.l1);
    AmongRoots(m, s, t, s.l3);
    AmongRoots(m, t, s, t.l1);
    AmongRoots(m, t, s, t.l3);
    SpectrumIffSymmetricFunctions(m, s);
    SpectrumIffSymmetricFunctions(m, t);
    hide IsSpectrum, Minors, Det, Trace;
  }

  lemma AmongRoots(m: Sym, s: Triple, t: Triple, l: real)
    requires IsSpectrum(m, s) && IsSpectrum(m, t) && (l == s.l1 || l == s.l2 || l == s.l3)
    ensures l == t.l1 || l == t.l2 || l == t.l3
  {
    hide *;
    SpectrumAt(m, s, l);
    SpectrumAt(m, t, l);
    FactorZero(s.l1 - l, s.l2 - l, s.l3 - l);
    FactorZero(t.l1 - l, t.l2 - l, t.l3 - l);
  }

  /** A symmetric matrix is determined by its quadratic form. */
  lemma QuadDetermines(m: Sym, n: Sym)
    requires forall x, y, z :: Quad(m, x, y, z) == Quad(n, x, y, z)
    ensures m == n
  {
    assert Quad(m, 1.0, 0.0, 0.0) == m.a && Quad(n, 1.0, 0.0, 0.0) == n.a;
    assert Quad(m, 0.0, 1.0, 0.0) == m.b && Quad(n, 0.0, 1.0, 0.0) == n.b;
    assert Quad(m, 0.0, 0.0, 1.0) == m.c && Quad(n, 0.0, 0.0, 1.0) == n.c;
    assert Quad(m, 1.0, 1.0, 0.0) == m.a + m.b + 2.0 * m.d && Quad(n, 1.0, 1.0, 0.0) == n.a + n.b + 2.0 * n.d;
    assert Quad(m, 1.0, 0.0, 1.0) == m.a + m.c + 2.0 * m.e && Quad(n, 1.0, 0.0, 1.0) == n.a + n.c + 2.0 * n.e;
    assert Quad(m, 0.0, 1.0, 1.0) == m.b + m.c + 2.0 * m.f && Quad(n, 0.0, 1.0, 1.0) == n.b + n.c + 2.0 * n.f;
  }
}
