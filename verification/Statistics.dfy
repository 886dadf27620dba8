/** The scalar statistics kernels of `benches/simd_vs_scalar.rs` over the reals:
    plain sums, the two-pass variance, Welford's one-pass variance, covariance. */
module Statistics {
  import opened Prelude
  import opened Matrix3

  function Sum(s: seq<real>): real {
    if s == [] then 0.0 else Sum(s[..|s| - 1]) + s[|s| - 1]
  }

  function Count(s: seq<real>): real {
    |s| as real
  }

  function Mean(s: seq<real>): real
    requires s != []
  {
    Sum(s) / Count(s)
  }

  function Product(x: real, y: real): real {
    x * y
  }

  /** Sum of the products of deviations from `ca` and `cb`, over the length of `a`. */
  function CrossSum(a: seq<real>, b: seq<real>, ca: real, cb: real): real
    requires |a| <= |b|
  {
    if a == [] then 0.0
    else
      var k := |a| - 1;
      CrossSum(a[..k], b[..k], ca, cb) + Product(a[k] - ca, b[k] - cb)
  }

  /** Sum of squared deviations from `c`. */
  function SquareSum(s: seq<real>, c: real): real {
    CrossSum(s, s, c, c)
  }

  function Variance(s: seq<real>): real
    requires s != []
  {
    SquareSum(s, Mean(s)) / Count(s)
  }

  function Covariance(a: seq<real>, b: seq<real>): real
    requires a != [] && |a| == |b|
  {
    CrossSum(a, b, Mean(a), Mean(b)) / Count(a)
  }

  // ------------------------------------------------------------------- kernels

  method SumOf(data: seq<real>) returns (acc: real)
    ensures acc == Sum(data)
  {
    acc := 0.0;
    for i := 0 to |data|
      invariant acc == Sum(data[..i])
    {
      assert data[..i + 1][..i] == data[..i];
      acc := acc + data[i];
    }
    assert data[..|data|] == data;
  }

  /** The two-pass variance; None stands for the NaN that 0 / 0 gives on no data. */
  method VarianceOf(data: seq<real>) returns (r: Option<real>)
    ensures r == if data == [] then None else Some(Variance(data))
  {
    if data == [] {
      return None;
    }
    var n := Count(data);
    var sum := SumOf(data);
    var mean := sum / n;
    var acc := 0.0;
    for i := 0 to |data|
      invariant acc == SquareSum(data[..i], mean)
    {
      assert data[..i + 1][..i] == data[..i];
      var d := data[i] - mean;
      acc := acc + d * d;
    }
    assert data[..|data|] == data;
    return Some(acc / n);
  }

  /** Welford's loop. The invariants are the point: after `count` values, `mean`
      is their average and `m2` their sum of squared deviations from it. */
  method WelfordVariance(data: seq<real>) returns (mean: real, variance: real)
    ensures data != [] ==> mean == Mean(data) && variance == Variance(data)
    ensures data == [] ==> mean == 0.0 && variance == 0.0
  {
    hide Mean, Variance, SquareSum, IsMean;
    mean := 0.0;
    var m2 := 0.0;
    var count := 0;
    NothingSeen();
    assert data[..0] == [];
    while count < |data|
      invariant 0 <= count <= |data|
      invariant IsMean(mean, data[..count])
      invariant m2 == SquareSum(data[..count], mean)
      invariant count == 0 ==> mean == 0.0
    {
      var v := data[count];
      ghost var before, oldMean := data[..count], mean;
      assert data[..count + 1] == before + [v];
      count := count + 1;
      var delta := v - mean;
      mean := mean + delta / (count as real);
      var delta2 := v - mean;
      WelfordStep(before, v, oldMean, mean);
      m2 := m2 + delta * delta2;
    }
    assert data[..|data|] == data;
    variance := if count > 1 then m2 / (count as real) else 0.0;
    if data != [] {
      MeanIs(data, mean);
      VarianceIs(data, m2);
    }
  }

  /** `m` is the average, in a form that also makes sense for no data. */
  ghost predicate IsMean(m: real, s: seq<real>) {
    MeanOf(m, Count(s), Sum(s))
  }

  ghost predicate MeanOf(m: real, n: real, sum: real) {
    m * n == sum
  }

  /** The running mean after one more value, `n` in all. */
  ghost predicate MeanUpdate(mean': real, mean: real, v: real, n: real)
    requires n != 0.0
  {
    mean' == mean + (v - mean) / n
  }

  /** The running sum of squares after one more value. */
  ghost predicate SquareUpdate(m2': real, m2: real, v: real, mean: real, mean': real) {
    m2' == m2 + (v - mean) * (v - mean')
  }

  lemma NothingSeen()
    ensures IsMean(0.0, []) && SquareSum([], 0.0) == 0.0
  {
  }

  lemma VarianceIs(s: seq<real>, m2: real)
    requires s != [] && m2 == SquareSum(s, Mean(s))
    ensures Variance(s) == if |s| > 1 then m2 / (|s| as real) else 0.0
  {
    if |s| == 1 { SingleVariance(s); }
  }

  /** The covariance kernel. When `b` is the longer series, all of `b` goes into its
      mean, which is divided by the length of `a`; the result is nevertheless the
      covariance with as much of `b` as there is of `a`. */
  method CovarianceOf(a: seq<real>, b: seq<real>) returns (r: Option<real>)
    requires |a| <= |b|
    ensures a == [] ==> r == None
    ensures a != [] ==> r == Some(Covariance(a, b[..|a|]))
    ensures a != [] && |a| == |b| ==> r == Some(Covariance(a, b))
  {
    if a == [] {
      return None;
    }
    hide Product;
    var n := Count(a);
    var sumA := SumOf(a);
    var meanA := sumA / n;
    var sumB := SumOf(b);
    var meanB := sumB / n;
    var acc := 0.0;
    for i := 0 to |a|
      invariant acc == CrossSum(a[..i], b[..i], meanA, meanB)
    {
      assert a[..i + 1][..i] == a[..i] && b[..i + 1][..i] == b[..i];
      acc := acc + Product(a[i] - meanA, b[i] - meanB);
    }
    assert a[..|a|] == a;
    AnyCentre(a, b[..|a|], meanB);
    assert b[..|b|] == b;
    return Some(acc / n);
  }

  // ------------------------------------------------------- one pass is two pass

  lemma MeanIs(s: seq<real>, m: real)
    requires s != [] && IsMean(m, s)
    ensures m == Mean(s)
  {
    assert m * Count(s) / Count(s) == m;
  }

  /** How a cross sum over `n` pairs with totals `sa` and `sb` changes when the
      centres move from (ca, cb) to (da, db). */
  ghost predicate Recentred(x: real, x': real, n: real, sa: real, sb: real, ca: real, cb: real, da: real, db: real) {
    x' == x + (ca - da) * (sb - n * cb) + (cb - db) * (sa - n * ca) + n * ((ca - da) * (cb - db))
  }

  lemma RecentredStep(x: real, x': real, n: real, sa: real, sb: real, ca: real, cb: real, da: real, db: real,
                      v: real, w: real)
    requires Recentred(x, x', n, sa, sb, ca, cb, da, db)
    ensures Recentred(x + Product(v - ca, w - cb), x' + Product(v - da, w - db), n + 1.0,
                      sa + v, sb + w, ca, cb, da, db)
  {
    RecentredPolynomial(n, sa, sb, ca, cb, da, db, v, w);
  }

  lemma RecentredPolynomial(n: real, sa: real, sb: real, ca: real, cb: real, da: real, db: real, v: real, w: real)
    ensures (ca - da) * (sb - n * cb) + (cb - db) * (sa - n * ca) + n * ((ca - da) * (cb - db)) + (v - da) * (w - db) ==
            (v - ca) * (w - cb) + (ca - da) * (sb + w - (n + 1.0) * cb) + (cb - db) * (sa + v - (n + 1.0) * ca)
            + (n + 1.0) * ((ca - da) * (cb - db))
  {
  }

  lemma LastTerms(a: seq<real>, b: seq<real>, k: nat, ca: real, cb: real)
    requires |a| == |b| == k + 1
    ensures CrossSum(a, b, ca, cb) == CrossSum(a[..k], b[..k], ca, cb) + Product(a[k] - ca, b[k] - cb)
    ensures Sum(a) == Sum(a[..k]) + a[k] && Sum(b) == Sum(b[..k]) + b[k]
    ensures Count(a) == Count(a[..k]) + 1.0
  {
    hide Product;
  }

  lemma NoTerms(a: seq<real>, b: seq<real>, ca: real, cb: real)
    requires a == b == []
    ensures CrossSum(a, b, ca, cb) == 0.0 && Sum(a) == 0.0 && Sum(b) == 0.0 && Count(a) == 0.0
  {
  }

  lemma RecentredStart(ca: real, cb: real, da: real, db: real)
    ensures Recentred(0.0, 0.0, 0.0, 0.0, 0.0, ca, cb, da, db)
  {
  }

  lemma {:induction false} Recentre(a: seq<real>, b: seq<real>, ca: real, cb: real, da: real, db: real)
    requires |a| == |b|
    ensures Recentred(CrossSum(a, b, ca, cb), CrossSum(a, b, da, db), Count(a), Sum(a), Sum(b), ca, cb, da, db)
  {
    hide *;
    if a == [] {
      NoTerms(a, b, ca, cb);
      NoTerms(a, b, da, db);
      RecentredStart(ca, cb, da, db);
    } else {
      var k := |a| - 1;
      Recentre(a[..k], b[..k], ca, cb, da, db);
      LastTerms(a, b, k, ca, cb);
      LastTerms(a, b, k, da, db);
      RecentredStep(CrossSum(a[..k], b[..k], ca, cb), CrossSum(a[..k], b[..k], da, db), Count(a[..k]),
                    Sum(a[..k]), Sum(b[..k]), ca, cb, da, db, a[k], b[k]);
    }
  }

  /** The deviations of `a` from its mean add up to zero, so it does not matter
      which centre is taken for `b`. */
  lemma AnyCentre(a: seq<real>, b: seq<real>, c: real)
    requires a != [] && |a| == |b|
    ensures CrossSum(a, b, Mean(a), c) == CrossSum(a, b, Mean(a), Mean(b))
  {
    Recentre(a, b, Mean(a), c, Mean(a), Mean(b));
    assert Mean(a) * Count(a) == Sum(a);
    hide CrossSum, Sum, Mean;
    NoShift(CrossSum(a, b, Mean(a), c), CrossSum(a, b, Mean(a), Mean(b)), Count(a), Sum(a), Sum(b), Mean(a), c,
            Mean(b));
  }

  lemma NoShift(x: real, x': real, n: real, sa: real, sb: real, ca: real, cb: real, db: real)
    requires ca * n == sa && Recentred(x, x', n, sa, sb, ca, cb, ca, db)
    ensures x == x'
  {
  }

  lemma WelfordStep(s: seq<real>, v: real, mean: real, mean': real)
    requires IsMean(mean, s)
    requires MeanUpdate(mean', mean, v, Count(s + [v]))
    ensures IsMean(mean', s + [v])
    ensures SquareUpdate(SquareSum(s + [v], mean'), SquareSum(s, mean), v, mean, mean')
  {
    var t := s + [v];
    assert t[..|s|] == s && t[|s|] == v;
    LastTerms(t, t, |s|, mean', mean');
    Recentre(s, s, mean, mean, mean', mean');
    hide CrossSum, Sum, Recentred, Count, Product, MeanOf, MeanUpdate, SquareUpdate;
    assert SquareSum(t, mean') == SquareSum(s, mean') + Product(v - mean', v - mean');
    WelfordAlgebra(v, mean, mean', Count(s), Sum(s), SquareSum(s, mean), SquareSum(s, mean'));
  }

  lemma WelfordAlgebra(v: real, mean: real, mean': real, k: real, sum: real, x: real, x': real)
    requires k >= 0.0 && MeanOf(mean, k, sum) && MeanUpdate(mean', mean, v, k + 1.0)
    requires Recentred(x, x', k, sum, sum, mean, mean, mean', mean')
    ensures MeanOf(mean', k + 1.0, sum + v)
    ensures SquareUpdate(x' + Product(v - mean', v - mean'), x, v, mean, mean')
  {
    var d := (v - mean) / (k + 1.0);
    assert d * (k + 1.0) == v - mean;
    RecentredAtMean(x, x', k, mean, mean');
    assert mean - mean' == -d && v - mean' == d * k;
    WelfordIdentity(d, k);
    assert v - mean == d * k + d;
    assert mean' * (k + 1.0) == mean * k + mean + d * (k + 1.0);
  }

  lemma RecentredAtMean(x: real, x': real, k: real, m: real, m': real)
    requires Recentred(x, x', k, m * k, m * k, m, m, m', m')
    ensures x' == x + k * ((m - m') * (m - m'))
  {
  }

  lemma WelfordIdentity(d: real, k: real)
    ensures k * (-d * -d) + (d * k) * (d * k) == (d * k + d) * (d * k)
  {
  }

  lemma SingleVariance(s: seq<real>)
    requires |s| == 1
    ensures Variance(s) == 0.0
  {
    assert s[..0] == [];
    assert Sum(s[..0]) == 0.0 && CrossSum(s[..0], s[..0], Mean(s), Mean(s)) == 0.0;
    assert Sum(s) == s[0];
  }

  // ------------------------------------------------------- what covariance means

  lemma CovarianceWithSelf(a: seq<real>)
    requires a != []
    ensures Covariance(a, a) == Variance(a)
    ensures Variance(a) >= 0.0
  {
    SquareSumNonNegative(a, Mean(a));
    DivideNonNegative(SquareSum(a, Mean(a)), Count(a));
  }

  lemma {:induction false} SquareSumNonNegative(s: seq<real>, c: real)
    ensures SquareSum(s, c) >= 0.0
  {
    if s != [] {
      SquareSumNonNegative(s[..|s| - 1], c);
      SquareNonNegative(s[|s| - 1] - c);
    }
  }

  lemma DivideNonNegative(x: real, n: real)
    requires x >= 0.0 && n > 0.0
    ensures x / n >= 0.0
  {
  }

  lemma {:induction false} CrossSumSymmetric(a: seq<real>, b: seq<real>, ca: real, cb: real)
    requires |a| == |b|
    ensures CrossSum(a, b, ca, cb) == CrossSum(b, a, cb, ca)
  {
    if a != [] { CrossSumSymmetric(a[..|a| - 1], b[..|a| - 1], ca, cb); }
  }

  /** The sum of squares of s * (a - ca) + t * (b - cb), which is never negative. */
  lemma {:induction false} CombinedSquares(a: seq<real>, b: seq<real>, ca: real, cb: real, s: real, t: real)
    requires |a| == |b|
    ensures BinaryValue(SquareSum(a, ca), CrossSum(a, b, ca, cb), SquareSum(b, cb), s, t) >= 0.0
  {
    if a == [] {
      assert BinaryValue(0.0, 0.0, 0.0, s, t) == 0.0;
    } else {
      var k := |a| - 1;
      CombinedSquares(a[..k], b[..k], ca, cb, s, t);
      hide BinaryValue, Product;
      CombinedStep(s, t, a[k] - ca, b[k] - cb,
                   SquareSum(a[..k], ca), CrossSum(a[..k], b[..k], ca, cb), SquareSum(b[..k], cb));
      assert b[..k] == b[..|b| - 1];
    }
  }

  lemma CombinedStep(s: real, t: real, x: real, y: real, p: real, q: real, r: real)
    requires BinaryValue(p, q, r, s, t) >= 0.0
    ensures BinaryValue(p + Product(x, x), q + Product(x, y), r + Product(y, y), s, t) >= 0.0
  {
    SquareNonNegative(s * x + t * y);
    CombinedPolynomial(s, t, x, y, p, q, r);
  }

  lemma CombinedPolynomial(s: real, t: real, x: real, y: real, p: real, q: real, r: real)
    ensures (p + x * x) * (s * s) + 2.0 * ((q + x * y) * (s * t)) + (r + y * y) * (t * t) ==
            p * (s * s) + 2.0 * (q * (s * t)) + r * (t * t) + (s * x + t * y) * (s * x + t * y)
  {
  }

  ghost predicate ProductBound(p: real, q: real, r: real) {
    p * r >= q * q
  }

  lemma NonNegativeForm(p: real, q: real, r: real)
    requires forall s, t :: BinaryValue(p, q, r, s, t) >= 0.0
    ensures ProductBound(p, q, r)
  {
    BinaryForm(p, q, r);
  }

  /** Cauchy-Schwarz for the sums. */
  lemma CauchySchwarz(a: seq<real>, b: seq<real>, ca: real, cb: real)
    requires |a| == |b|
    ensures ProductBound(SquareSum(a, ca), CrossSum(a, b, ca, cb), SquareSum(b, cb))
  {
    var p, q, r := SquareSum(a, ca), CrossSum(a, b, ca, cb), SquareSum(b, cb);
    hide *;
    forall s, t ensures BinaryValue(p, q, r, s, t) >= 0.0 {
      CombinedSquares(a, b, ca, cb, s, t);
    }
    NonNegativeForm(p, q, r);
  }

  /** Covariance squared is at most the product of the variances. */
  lemma CovarianceBound(a: seq<real>, b: seq<real>)
    requires a != [] && |a| == |b|
    ensures Covariance(a, b) * Covariance(a, b) <= Variance(a) * Variance(b)
    ensures Covariance(a, b) == Covariance(b, a)
  {
    CauchySchwarz(a, b, Mean(a), Mean(b));
    CrossSumSymmetric(a, b, Mean(a), Mean(b));
    ScaledBound(SquareSum(a, Mean(a)), CrossSum(a, b, Mean(a), Mean(b)), SquareSum(b, Mean(b)), Count(a));
  }

  lemma ScaledBound(p: real, q: real, r: real, n: real)
    requires n > 0.0 && ProductBound(p, q, r)
    ensures (q / n) * (q / n) <= (p / n) * (r / n)
  {
    var x, y, z := p / n, q / n, r / n;
    assert p == x * n && q == y * n && r == z * n;
    assert n * (n * (x * z - y * y)) == p * r - q * q;
    PositiveFactor(n, n * (x * z - y * y));
    PositiveFactor(n, x * z - y * y);
  }

  /** Two points: half their squared distance over two, and the like for two series. */
  lemma OfTwo(a: real, b: real, c: real, d: real)
    ensures Sum([a, b]) == a + b && Mean([a, b]) == (a + b) / 2.0
    ensures Variance([a, b]) == (a - b) * (a - b) / 4.0
    ensures Covariance([a, b], [c, d]) == (a - b) * (c - d) / 4.0
  {
    SumOfTwo(a, b);
    SumOfTwo(c, d);
    CrossOfTwo(a, b, a, b, (a + b) / 2.0, (a + b) / 2.0);
    CrossOfTwo(a, b, c, d, (a + b) / 2.0, (c + d) / 2.0);
    HalfDeviations(a, b, a, b);
    HalfDeviations(a, b, c, d);
    assert Count([a, b]) == Count([c, d]) == 2.0;
    hide Sum, CrossSum;
  }

  lemma SumOfTwo(a: real, b: real)
    ensures Sum([a, b]) == a + b
  {
    assert [a, b][..1] == [a] && [a][..0] == [];
    assert Sum([a]) == Sum([]) + a;
    assert Sum([a, b]) == Sum([a]) + b;
  }

  lemma CrossOfTwo(a: real, b: real, c: real, d: real, m: real, n: real)
    ensures CrossSum([a, b], [c, d], m, n) == (a - m) * (c - n) + (b - m) * (d - n)
  {
    assert [a, b][..1] == [a] && [a][..0] == [] && [c, d][..1] == [c] && [c][..0] == [];
    assert CrossSum([a], [c], m, n) == CrossSum([], [], m, n) + Product(a - m, c - n);
    assert CrossSum([a, b], [c, d], m, n) == CrossSum([a], [c], m, n) + Product(b - m, d - n);
  }

  lemma HalfDeviations(a: real, b: real, c: real, d: real)
    ensures var m, n := (a + b) / 2.0, (c + d) / 2.0;
            (a - m) * (c - n) + (b - m) * (d - n) == (a - b) * (c - d) / 2.0
  {
    var p, q := (a - b) / 2.0, (c - d) / 2.0;
    assert a - (a + b) / 2.0 == p && b - (a + b) / 2.0 == -p;
    assert c - (c + d) / 2.0 == q && d - (c + d) / 2.0 == -q;
    assert p * q + (-p) * (-q) == 2.0 * (p * q);
    assert 4.0 * (p * q) == (a - b) * (c - d);
  }
}
