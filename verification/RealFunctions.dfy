/** The elementary real functions the eigenvalue solver calls, as values whose
    textbook laws are stated and from which the identities it relies on are derived. */
module RealFunctions {

  /** `sin` is not called by the program; the laws of `cos` need it. */
  datatype RealFns = RealFns(sqrt: real -> real, cos: real -> real, sin: real -> real, acos: real -> real, pi: real)

  ghost predicate SqrtLaw(f: RealFns, x: real) {
    x >= 0.0 ==> f.sqrt(x) >= 0.0 && f.sqrt(x) * f.sqrt(x) == x
  }

  ghost predicate AdditionLaw(f: RealFns, a: real, b: real) {
    && f.cos(a + b) == f.cos(a) * f.cos(b) - f.sin(a) * f.sin(b)
    && f.sin(a + b) == f.sin(a) * f.cos(b) + f.cos(a) * f.sin(b)
  }

  ghost predicate ParityLaw(f: RealFns, a: real) {
    f.cos(-a) == f.cos(a) && f.sin(-a) == -f.sin(a)
  }

  ghost predicate DecreasingLaw(f: RealFns, a: real, b: real) {
    0.0 <= a < b <= f.pi ==> f.cos(a) > f.cos(b)
  }

  ghost predicate AcosLaw(f: RealFns, x: real) {
    -1.0 <= x <= 1.0 ==> 0.0 <= f.acos(x) <= f.pi && f.cos(f.acos(x)) == x
  }

  ghost predicate Lawful(f: RealFns) {
    && f.pi > 0.0 && f.cos(0.0) == 1.0 && f.cos(f.pi) == -1.0
    && (forall x :: SqrtLaw(f, x))
    && (forall a, b :: AdditionLaw(f, a, b))
    && (forall a :: ParityLaw(f, a))
    && (forall a, b :: DecreasingLaw(f, a, b))
    && (forall x :: AcosLaw(f, x))
  }

  lemma Pythagoras(f: RealFns, a: real)
    requires Lawful(f)
    ensures f.cos(a) * f.cos(a) + f.sin(a) * f.sin(a) == 1.0
  {
    assert AdditionLaw(f, a, -a) && ParityLaw(f, a);
    assert a + -a == 0.0;
  }

  lemma TripleAngle(f: RealFns, a: real)
    requires Lawful(f)
    ensures var c := f.cos(a); f.cos(3.0 * a) == 4.0 * c * c * c - 3.0 * c
  {
    var c, s := f.cos(a), f.sin(a);
    Pythagoras(f, a);
    assert AdditionLaw(f, a, a) && AdditionLaw(f, a + a, a);
    assert a + a + a == 3.0 * a;
    calc {
      f.cos(3.0 * a);
      (c * c - s * s) * c - (s * c + c * s) * s;
      c * c * c - 3.0 * (c * (s * s));
      { assert s * s == 1.0 - c * c; }
      c * c * c - 3.0 * (c * (1.0 - c * c));
      4.0 * c * c * c - 3.0 * c;
    }
  }

  /** cos(pi / 3) = 1 / 2 */
  lemma CosThirdOfPi(f: RealFns)
    requires Lawful(f)
    ensures f.cos(f.pi / 3.0) == 0.5
  {
    var m := f.cos(f.pi / 3.0);
    TripleAngle(f, f.pi / 3.0);
    assert 3.0 * (f.pi / 3.0) == f.pi;
    assert DecreasingLaw(f, f.pi / 3.0, f.pi);
    assert m > -1.0;
    assert (m + 1.0) * ((2.0 * m - 1.0) * (2.0 * m - 1.0)) == 4.0 * m * m * m - 3.0 * m + 1.0;
    NonzeroFactor(m + 1.0, (2.0 * m - 1.0) * (2.0 * m - 1.0));
    SquareZero(2.0 * m - 1.0);
  }

  /** cos(2 pi / 3) = -1 / 2, and the square of the matching sine is 3 / 4. */
  lemma CosTwoThirdsOfPi(f: RealFns)
    requires Lawful(f)
    ensures f.cos(2.0 * f.pi / 3.0) == -0.5
    ensures f.sin(2.0 * f.pi / 3.0) * f.sin(2.0 * f.pi / 3.0) == 0.75
  {
    var h := f.pi / 3.0;
    CosThirdOfPi(f);
    Pythagoras(f, h);
    assert AdditionLaw(f, h, h);
    assert h + h == 2.0 * f.pi / 3.0;
    Pythagoras(f, h + h);
  }

  lemma NonzeroFactor(a: real, b: real)
    requires a * b == 0.0 && a != 0.0
    ensures b == 0.0
  {
  }

  lemma SquareZero(a: real)
    requires a * a == 0.0
    ensures a == 0.0
  {
    if a != 0.0 { NonzeroFactor(a, a); }
  }

  /** With `phi` a third of the angle whose cosine is `r`, the three numbers the
      solver forms are the roots of 4x^3 - 3x = r, largest first. */
  lemma ThirdAngles(f: RealFns, r: real) returns (c: real, u: real, w: real)
    requires Lawful(f) && -1.0 <= r <= 1.0
    ensures c == f.cos(f.acos(r) / 3.0)
    ensures w == f.cos(f.acos(r) / 3.0 + 2.0 * f.pi / 3.0)
    ensures c + u + w == 0.0
    ensures c * u + c * w + u * w == -0.75
    ensures 4.0 * (c * (u * w)) == r
    ensures c >= u >= w
  {
    var phi, t := f.acos(r) / 3.0, 2.0 * f.pi / 3.0;
    assert AcosLaw(f, r) && AdditionLaw(f, phi, t);
    c, w := f.cos(phi), f.cos(phi + t);
    u := -c - w;
    CosTwoThirdsOfPi(f);
    TripleAngle(f, phi);
    Pythagoras(f, phi);
    assert 3.0 * phi == f.acos(r);
    ThirdAnglesAlgebra(c, f.sin(phi), f.sin(t), w, r);
    ThirdAnglesOrder(f, r);
  }

  lemma ThirdAnglesAlgebra(c: real, s: real, sigma: real, w: real, r: real)
    requires c * c + s * s == 1.0 && sigma * sigma == 0.75
    requires w == -0.5 * c - s * sigma
    requires r == 4.0 * c * c * c - 3.0 * c
    ensures var u := -c - w; c * u + c * w + u * w == -0.75 && 4.0 * (c * (u * w)) == r
  {
    var u := -c - w;
    var k := s * sigma;
    assert u == -0.5 * c + k;
    assert u * w == 0.25 * (c * c) - k * k;
    calc {
      k * k;
      (s * s) * (sigma * sigma);
      0.75 * (s * s);
      0.75 * (1.0 - c * c);
    }
    assert u * w == c * c - 0.75;
    assert c * u + c * w == -(c * c);
    assert c * (u * w) == c * (c * c - 0.75);
  }

  lemma ThirdAnglesOrder(f: RealFns, r: real)
    requires Lawful(f) && -1.0 <= r <= 1.0
    ensures var c, w := f.cos(f.acos(r) / 3.0), f.cos(f.acos(r) / 3.0 + 2.0 * f.pi / 3.0);
            0.5 <= c <= 1.0 && -1.0 <= w <= -0.5
  {
    var phi, t := f.acos(r) / 3.0, 2.0 * f.pi / 3.0;
    assert AcosLaw(f, r);
    CosThirdOfPi(f);
    CosTwoThirdsOfPi(f);
    assert 0.0 <= phi <= f.pi / 3.0;
    assert DecreasingLaw(f, phi, f.pi / 3.0) && DecreasingLaw(f, 0.0, phi);
    assert DecreasingLaw(f, phi + t, f.pi) && DecreasingLaw(f, t, phi + t);
  }
}
