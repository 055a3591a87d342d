/**
 * Points of the upper half-plane model and the action of a 2x2 matrix on
 * them: the Moebius map z -> (a z + b) / (c z + d) when det > 0, and
 * z -> (a conj(z) + b) / (c conj(z) + d) when det < 0, so that an
 * orientation-reversing matrix also keeps the upper half-plane.
 */
module Boundary {
  import opened Matrix2

  /**
   * A point of the closed upper half-plane: a real boundary point, the
   * boundary point at infinity, or an interior point x + i y.
   */
  datatype Point = Ideal(x: real) | Infinity | Interior(x: real, y: real)

  /** The real parts of the numerator a z + b and the denominator c z + d at z = x + i y. */
  function NumRe(m: Mat2, x: real): real { m.a * x + m.b }
  function DenRe(m: Mat2, x: real): real { m.c * x + m.d }

  /** The imaginary parts of the numerator and the denominator at z = x + i y. */
  function NumIm(m: Mat2, y: real): real { m.a * y }
  function DenIm(m: Mat2, y: real): real { m.c * y }

  /**
   * The imaginary part of the point the map is evaluated at: z itself, or
   * its conjugate when m reverses orientation. Boundary points are real, so
   * the conjugation only matters inside.
   */
  function ActedIm(m: Mat2, y: real): real
  {
    if Det(m) < 0.0 then -y else y
  }

  /** The action of m on p, with c w + d = 0 sent to infinity. */
  function Apply(m: Mat2, p: Point): Point
  {
    match p
    case Infinity => if m.c == 0.0 then Infinity else Ideal(m.a / m.c)
    case Ideal(x) =>
      if DenRe(m, x) == 0.0 then Infinity else Ideal(NumRe(m, x) / DenRe(m, x))
    case Interior(x, y) =>
      var w := ActedIm(m, y);
      Quotient(NumRe(m, x), NumIm(m, w), DenRe(m, x), DenIm(m, w))
  }

  /**
   * The action keeps the upper half-plane: the image of x + i y has
   * imaginary part y |det m| / |c w + d|^2 > 0, whatever the orientation.
   */
  lemma ApplyKeepsUpperHalfPlane(m: Mat2, x: real, y: real)
    requires Det(m) != 0.0 && y > 0.0
    ensures Apply(m, Interior(x, y)).Interior? && Apply(m, Interior(x, y)).y > 0.0
  {
    var w := ActedIm(m, y);
    ActedImTimesDet(m, y);
    ImaginaryNumerator(m, x, w);
    QuotientUpper(NumRe(m, x), NumIm(m, w), DenRe(m, x), DenIm(m, w));
  }

  /** The reflection [[-1, 0], [0, 1]], z -> -conj(z), fixes i and moves 1 + i to -1 + i. */
  lemma ApplyExampleReflection()
    ensures Apply(Mat2(-1.0, 0.0, 0.0, 1.0), Interior(0.0, 1.0)) == Interior(0.0, 1.0)
    ensures Apply(Mat2(-1.0, 0.0, 0.0, 1.0), Interior(1.0, 1.0)) == Interior(-1.0, 1.0)
  {
    var m := Mat2(-1.0, 0.0, 0.0, 1.0);
    assert Det(m) == -1.0 && ActedIm(m, 1.0) == -1.0;
    assert NumRe(m, 0.0) == 0.0 && NumIm(m, -1.0) == 1.0 && DenRe(m, 0.0) == 1.0 && DenIm(m, -1.0) == 0.0;
    assert NumRe(m, 1.0) == -1.0 && DenRe(m, 1.0) == 1.0;
  }

  /** A quotient N / D with Im(N conj(D)) > 0 is an interior point of the upper half-plane. */
  lemma QuotientUpper(nr: real, ni: real, dr: real, di: real)
    requires ni * dr - nr * di > 0.0
    ensures Quotient(nr, ni, dr, di).Interior? && Quotient(nr, ni, dr, di).y > 0.0
  {
    ZeroDenominator(nr, ni, dr, di);
    var den := dr * dr + di * di;
    SumOfSquaresPos(dr, di, den);
    QuotientPos(ni * dr - nr * di, den);
  }

  lemma ZeroDenominator(nr: real, ni: real, dr: real, di: real)
    ensures dr == 0.0 && di == 0.0 ==> ni * dr - nr * di == 0.0
  {
  }

  /** w det m > 0 for the acted-on imaginary part w of a point with y > 0. */
  lemma ActedImTimesDet(m: Mat2, y: real)
    requires Det(m) != 0.0 && y > 0.0
    ensures ActedIm(m, y) * Det(m) > 0.0
  {
    if Det(m) < 0.0 {
      ProductPos(y, -Det(m), y * -Det(m));
    } else {
      ProductPos(y, Det(m), y * Det(m));
    }
  }

  /** Im((a w + b) conj(c w + d)) = w det m, for w = x + i v read as the pair (x, v). */
  lemma ImaginaryNumerator(m: Mat2, x: real, v: real)
    ensures NumIm(m, v) * DenRe(m, x) - NumRe(m, x) * DenIm(m, v) == v * Det(m)
  {
    assert (m.a * v) * (m.c * x + m.d) == v * (m.a * m.c * x) + v * (m.a * m.d);
    assert (m.a * x + m.b) * (m.c * v) == v * (m.a * m.c * x) + v * (m.b * m.c);
  }

  lemma QuotientPos(u: real, den: real)
    requires u > 0.0 && den > 0.0
    ensures u / den > 0.0
  {
  }

  /** The complex quotient (nr + i ni) / (dr + i di), infinity when the denominator vanishes. */
  function Quotient(nr: real, ni: real, dr: real, di: real): Point
  {
    if dr == 0.0 && di == 0.0 then Infinity
    else
      var den := dr * dr + di * di;
      SumOfSquaresPos(dr, di, den);
      Interior((nr * dr + ni * di) / den, (ni * dr - nr * di) / den)
  }

  /** The real equation N = x D. */
  predicate SolvesReal(nr: real, dr: real, x: real)
  {
    nr == x * dr
  }

  /** The complex equation N = z D for z = x + i y, split into real and imaginary parts. */
  predicate SolvesComplex(nr: real, ni: real, dr: real, di: real, x: real, y: real)
  {
    nr == x * dr - y * di && ni == x * di + y * dr
  }

  /**
   * The fixed-point equation a w + b = z (c w + d), w being z or its
   * conjugate as in Apply: the action's equation with its denominator cleared.
   */
  predicate FixedBy(m: Mat2, p: Point)
  {
    match p
    case Infinity => m.c == 0.0
    case Ideal(x) => SolvesReal(NumRe(m, x), DenRe(m, x), x)
    case Interior(x, y) =>
      var w := ActedIm(m, y);
      SolvesComplex(NumRe(m, x), NumIm(m, w), DenRe(m, x), DenIm(m, w), x, y)
  }

  /** For an invertible matrix, solving the fixed-point equation is the same as being fixed by the map. */
  lemma FixedByIffApply(m: Mat2, p: Point)
    requires Det(m) != 0.0
    ensures FixedBy(m, p) <==> Apply(m, p) == p
  {
    match p
    case Infinity =>
    case Ideal(x) =>
      if DenRe(m, x) == 0.0 {
        KernelDet(m, x);
      } else {
        QuotientIffSolvesReal(NumRe(m, x), DenRe(m, x), x);
      }
    case Interior(x, y) =>
      var w := ActedIm(m, y);
      if DenRe(m, x) == 0.0 && DenIm(m, w) == 0.0 {
        KernelDet(m, x);
      } else {
        QuotientIffSolvesComplex(NumRe(m, x), NumIm(m, w), DenRe(m, x), DenIm(m, w), x, y);
      }
  }

  /** When c x + d = 0, a solution x puts (x, 1) in the kernel, so the determinant vanishes. */
  lemma KernelDet(m: Mat2, x: real)
    requires DenRe(m, x) == 0.0
    ensures NumRe(m, x) == 0.0 ==> Det(m) == 0.0
  {
    if NumRe(m, x) == 0.0 {
      assert m.b == -(m.a * x);
      assert m.d == -(m.c * x);
      assert m.a * m.d == -(m.a * (m.c * x));
      assert m.b * m.c == -((m.a * x) * m.c);
    }
  }

  lemma QuotientIffSolvesReal(nr: real, dr: real, x: real)
    requires dr != 0.0
    ensures SolvesReal(nr, dr, x) <==> nr / dr == x
  {
    if nr / dr == x {
      assert nr == (nr / dr) * dr;
    }
  }

  lemma QuotientIffSolvesComplex(nr: real, ni: real, dr: real, di: real, x: real, y: real)
    requires dr != 0.0 || di != 0.0
    ensures SolvesComplex(nr, ni, dr, di, x, y) <==> Quotient(nr, ni, dr, di) == Interior(x, y)
  {
    var den := dr * dr + di * di;
    SumOfSquaresPos(dr, di, den);
    if SolvesComplex(nr, ni, dr, di, x, y) {
      QuotientOfProduct(x, y, nr, ni, dr, di, den);
    }
    if Quotient(nr, ni, dr, di) == Interior(x, y) {
      ProductOfQuotient(x, y, nr, ni, dr, di, den);
    }
  }

  /** A product with a nonzero factor vanishes exactly when the other factor does. */
  lemma CancelFactor(k: real, e: real)
    requires k != 0.0
    ensures k * e == 0.0 <==> e == 0.0
  {
    if k * e == 0.0 {
      assert e == (k * e) / k;
    }
  }

  lemma ProductPos(u: real, v: real, w: real)
    requires u > 0.0 && v > 0.0 && w == u * v
    ensures w > 0.0
  {
  }

  lemma Square(u: real, w: real)
    requires w == u * u
    ensures w >= 0.0
    ensures u != 0.0 ==> w > 0.0
  {
    if u < 0.0 {
      ProductPos(-u, -u, w);
    } else if u > 0.0 {
      ProductPos(u, u, w);
    }
  }

  lemma SumOfSquaresPos(u: real, v: real, den: real)
    requires den == u * u + v * v
    requires u != 0.0 || v != 0.0
    ensures den > 0.0
  {
    Square(u, u * u);
    Square(v, v * v);
  }

  /** (z * D) / D = z for complex z = x + i y and D = dr + i di nonzero. */
  lemma QuotientOfProduct(x: real, y: real, nr: real, ni: real, dr: real, di: real, den: real)
    requires den > 0.0 && den == dr * dr + di * di
    requires SolvesComplex(nr, ni, dr, di, x, y)
    ensures Quotient(nr, ni, dr, di) == Interior(x, y)
  {
    assert nr * dr + ni * di == x * den;
    assert ni * dr - nr * di == y * den;
  }

  /** N / D = z forces N = z * D. */
  lemma ProductOfQuotient(x: real, y: real, nr: real, ni: real, dr: real, di: real, den: real)
    requires den > 0.0 && den == dr * dr + di * di
    requires Quotient(nr, ni, dr, di) == Interior(x, y)
    ensures SolvesComplex(nr, ni, dr, di, x, y)
  {
    var u, w := nr * dr + ni * di, ni * dr - nr * di;
    assert u / den == x && w / den == y;
    assert u == x * den;
    assert w == y * den;
    assert u * dr - w * di == nr * den;
    assert u * di + w * dr == ni * den;
    assert nr * den == (x * dr - y * di) * den;
    assert ni * den == (x * di + y * dr) * den;
  }

  /** The fixed-point equation does not see a nonzero scalar factor. */
  lemma FixedByScale(m: Mat2, k: real, p: Point)
    requires k != 0.0
    ensures FixedBy(Scale(m, k), p) <==> FixedBy(m, p)
  {
    match p
    case Infinity =>
    case Ideal(x) =>
      ScaleParts(m, k, x, 0.0);
      ScaleSolvesReal(NumRe(m, x), DenRe(m, x), x, k);
    case Interior(x, y) =>
      ScaleKeepsOrientation(m, k);
      var w := ActedIm(m, y);
      assert ActedIm(Scale(m, k), y) == w;
      ScaleParts(m, k, x, w);
      ScaleSolvesComplex(NumRe(m, x), NumIm(m, w), DenRe(m, x), DenIm(m, w), x, y, k);
  }

  /** A nonzero scalar factor does not change the sign of the determinant. */
  lemma ScaleKeepsOrientation(m: Mat2, k: real)
    requires k != 0.0
    ensures Det(Scale(m, k)) < 0.0 <==> Det(m) < 0.0
  {
    DetScale(m, k);
    Square(k, k * k);
    if Det(m) > 0.0 {
      ProductPos(k * k, Det(m), k * k * Det(m));
    } else if Det(m) < 0.0 {
      ProductPos(k * k, -Det(m), k * k * -Det(m));
    }
  }

  lemma ScaleParts(m: Mat2, k: real, x: real, y: real)
    ensures NumRe(Scale(m, k), x) == k * NumRe(m, x) && DenRe(Scale(m, k), x) == k * DenRe(m, x)
    ensures NumIm(Scale(m, k), y) == k * NumIm(m, y) && DenIm(Scale(m, k), y) == k * DenIm(m, y)
  {
  }

  lemma ScaleSolvesReal(nr: real, dr: real, x: real, k: real)
    requires k != 0.0
    ensures SolvesReal(k * nr, k * dr, x) <==> SolvesReal(nr, dr, x)
  {
    if SolvesReal(k * nr, k * dr, x) {
      assert nr == (k * nr) / k;
    }
  }

  lemma ScaleSolvesComplex(nr: real, ni: real, dr: real, di: real, x: real, y: real, k: real)
    requires k != 0.0
    ensures SolvesComplex(k * nr, k * ni, k * dr, k * di, x, y) <==> SolvesComplex(nr, ni, dr, di, x, y)
  {
    if SolvesComplex(k * nr, k * ni, k * dr, k * di, x, y) {
      assert nr == (k * nr) / k;
      assert ni == (k * ni) / k;
    }
  }

  /** The geodesic from one point to another. */
  datatype Geodesic = Geodesic(start: Point, end: Point)

  /** A column vector (p, q). */
  datatype Vec2 = Vec2(p: real, q: real)

  /** The boundary point a vector spans: p / q, or infinity when q = 0. */
  function FromVector(v: Vec2): Point
  {
    if v.q == 0.0 then Infinity else Ideal(v.p / v.q)
  }

  /** v is a nonzero eigenvector of m for the eigenvalue ev. */
  predicate IsEigenvector(m: Mat2, v: Vec2, ev: real)
  {
    && (v.p != 0.0 || v.q != 0.0)
    && m.a * v.p + m.b * v.q == ev * v.p
    && m.c * v.p + m.d * v.q == ev * v.q
  }

  /** The point an eigenvector spans is fixed: this is why the eigenvector route finds fixed points. */
  lemma EigenvectorPointFixed(m: Mat2, v: Vec2, ev: real)
    requires IsEigenvector(m, v, ev)
    ensures FixedBy(m, FromVector(v))
  {
    if v.q != 0.0 {
      var x := v.p / v.q;
      assert v.p == x * v.q;
      assert (m.a * x + m.b) * v.q == ev * x * v.q;
      assert (m.c * x + m.d) * v.q == ev * v.q;
      assert m.a * x + m.b == ev * x;
      assert m.c * x + m.d == ev;
    }
  }
}
