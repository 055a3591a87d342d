/**
 * The closed-form arithmetic of isometries of the upper half-plane model:
 * orientation, classification by trace bands, translation length, fixed
 * points and the guards on the hyperbolic-only queries.
 *
 * The host library's square root is not used: every square root the code
 * takes is passed in as a witness (s with s * s = |det m|, r with
 * r * r = |tr(N)^2 - 4|), and the eigenvectors it asks the host library for
 * are passed in as vectors.
 */
module UHP {
  import opened Wrappers
  import opened Matrix2
  import opened Boundary

  /** The numeric tolerance of every comparison. */
  const EPSILON: real := 0.000000001

  /** The six classes of isometries. */
  datatype Kind =
    | IdentityKind
    | Elliptic
    | Parabolic
    | Hyperbolic
    | Reflection
    | OrientationReversingHyperbolic

  /** The tag the source returns for each class. */
  function Tag(k: Kind): (t: string)
    ensures |t| > 0
  {
    match k
    case IdentityKind => "identity"
    case Elliptic => "elliptic"
    case Parabolic => "parabolic"
    case Hyperbolic => "hyperbolic"
    case Reflection => "reflection"
    case OrientationReversingHyperbolic => "orientation-reversing hyperbolic"
  }

  /** The exceptions the UHP queries raise. */
  datatype Error =
    | ClassificationGap       // ValueError: "something went wrong with classification"
    | IdentityFixesPlane      // ValueError: the identity fixes the entire plane
    | TranslationUndefined    // TypeError: translation length only for hyperbolic elements
    | RepellingUndefined      // ValueError: repelling fixed point only for hyperbolic isometries
    | AttractingUndefined     // ValueError: attracting fixed point only for hyperbolic isometries
    | AxisUndefined           // ValueError: the isometry is not hyperbolic
    | NoFixedGeodesic         // ValueError: isometries of this type don't fix geodesics
    | GeodesicArity           // TypeError: the geodesic constructor takes exactly two points
    | DivisionByZero          // a zero denominator in a closed-form fixed point

  // ---------------------------------------------------------------------
  // Normalisation by the square root of |det|
  // ---------------------------------------------------------------------

  /** s is the positive square root of |det m|, so m is invertible. */
  predicate IsRootAbsDet(m: Mat2, s: real)
  {
    s > 0.0 && s * s == Abs(Det(m))
  }

  /** m / sqrt(|det m|): a matrix of determinant +1 or -1. */
  function Normalize(m: Mat2, s: real): Mat2
    requires s > 0.0
  {
    Scale(m, 1.0 / s)
  }

  /** The normalised matrix has determinant 1 or -1, with the sign of det m. */
  lemma NormalizedDet(m: Mat2, s: real)
    requires IsRootAbsDet(m, s)
    ensures Det(m) != 0.0
    ensures Det(m) > 0.0 ==> Det(Normalize(m, s)) == 1.0
    ensures Det(m) < 0.0 ==> Det(Normalize(m, s)) == -1.0
  {
    var k := 1.0 / s;
    DetScale(m, k);
    InverseSquare(s, k, s * s);
    ProductPos(s, s, s * s);
  }

  lemma InverseSquare(s: real, k: real, t: real)
    requires s > 0.0 && k == 1.0 / s && t == s * s
    ensures k * k * t == 1.0
  {
    assert k * s == 1.0;
    assert k * k * t == (k * s) * (k * s);
  }

  /** Only one positive number squares to |det m|. */
  lemma RootUnique(m: Mat2, s: real, s': real)
    requires IsRootAbsDet(m, s) && IsRootAbsDet(m, s')
    ensures s == s'
  {
    PositiveRootUnique(s, s', s * s);
  }

  lemma PositiveRootUnique(u: real, v: real, t: real)
    requires u > 0.0 && v > 0.0 && t == u * u && t == v * v
    ensures u == v
  {
    var diff, sum := u - v, u + v;
    assert diff * sum == u * u - v * v;
    ProductZero(diff, sum);
  }

  lemma ProductZero(u: real, v: real)
    requires u * v == 0.0
    ensures u == 0.0 || v == 0.0
  {
    if v != 0.0 {
      assert u == (u * v) / v;
    }
  }

  // ---------------------------------------------------------------------
  // Orientation and classification
  // ---------------------------------------------------------------------

  /** An isometry preserves orientation exactly when its determinant is positive. */
  predicate OrientationPreserving(m: Mat2)
  {
    Det(m) > 0.0
  }

  /** The squared Euclidean distance of n from the identity matrix. */
  function DistSqFromIdentity(n: Mat2): real
  {
    (n.a - 1.0) * (n.a - 1.0) + n.b * n.b + n.c * n.c + (n.d - 1.0) * (n.d - 1.0)
  }

  /** The absolute trace of the normalised matrix. */
  function Tau(m: Mat2, s: real): real
    requires s > 0.0
  {
    Abs(Trace(Normalize(m, s)))
  }

  /**
   * The class of m, decided on its normalisation by trace bands of width
   * EPSILON; the orientation-preserving bands leave the two values
   * tau = 2 - EPSILON and tau = 2 + EPSILON uncovered.
   */
  function Classify(m: Mat2, s: real): Result<Kind, Error>
    requires IsRootAbsDet(m, s)
  {
    var n := Normalize(m, s);
    var tau := Tau(m, s);
    if Det(n) > 0.0 then
      if DistSqFromIdentity(n) < EPSILON then Success(IdentityKind)
      else if tau - 2.0 < -EPSILON then Success(Elliptic)
      else if tau - 2.0 > -EPSILON && tau - 2.0 < EPSILON then Success(Parabolic)
      else if tau - 2.0 > EPSILON then Success(Hyperbolic)
      else Failure(ClassificationGap)
    else if tau < EPSILON then Success(Reflection)
    else Success(OrientationReversingHyperbolic)
  }

  /** The classes that preserve orientation are exactly those of a positive determinant. */
  lemma ClassifyOrientation(m: Mat2, s: real)
    requires IsRootAbsDet(m, s)
    ensures Classify(m, s).Success? && Classify(m, s).value in {IdentityKind, Elliptic, Parabolic, Hyperbolic}
            ==> OrientationPreserving(m)
    ensures Classify(m, s).Success? && Classify(m, s).value in {Reflection, OrientationReversingHyperbolic}
            <==> !OrientationPreserving(m)
  {
    NormalizedDet(m, s);
  }

  /** The identity class: an orientation-preserving m whose normalisation is within EPSILON of I. */
  lemma ClassifyIdentity(m: Mat2, s: real)
    requires IsRootAbsDet(m, s)
    ensures Classify(m, s) == Success(IdentityKind)
            <==> OrientationPreserving(m) && DistSqFromIdentity(Normalize(m, s)) < EPSILON
  {
    NormalizedDet(m, s);
  }

  /**
   * For an orientation-preserving m that is not within EPSILON of the
   * identity, each class is one band of tau, and classification fails
   * exactly on the two band edges.
   */
  lemma ClassifyPreservingBands(m: Mat2, s: real)
    requires IsRootAbsDet(m, s) && OrientationPreserving(m)
    requires DistSqFromIdentity(Normalize(m, s)) >= EPSILON
    ensures Classify(m, s) == Success(Elliptic) <==> Tau(m, s) < 2.0 - EPSILON
    ensures Classify(m, s) == Success(Parabolic) <==> 2.0 - EPSILON < Tau(m, s) < 2.0 + EPSILON
    ensures Classify(m, s) == Success(Hyperbolic) <==> Tau(m, s) > 2.0 + EPSILON
    ensures Classify(m, s).Failure? <==> Tau(m, s) == 2.0 - EPSILON || Tau(m, s) == 2.0 + EPSILON
  {
    NormalizedDet(m, s);
  }

  /** Only an orientation-preserving isometry can make classification fail. */
  lemma ClassifyFailureIsGap(m: Mat2, s: real)
    requires IsRootAbsDet(m, s)
    ensures Classify(m, s).Failure? <==>
      && OrientationPreserving(m)
      && DistSqFromIdentity(Normalize(m, s)) >= EPSILON
      && (Tau(m, s) == 2.0 - EPSILON || Tau(m, s) == 2.0 + EPSILON)
    ensures Classify(m, s).Failure? ==> Classify(m, s).error == ClassificationGap
  {
    NormalizedDet(m, s);
  }

  /** An orientation-reversing isometry is a reflection exactly when tau < EPSILON, and never fails. */
  lemma ClassifyReversing(m: Mat2, s: real)
    requires IsRootAbsDet(m, s) && !OrientationPreserving(m)
    ensures Classify(m, s).Success?
    ensures Classify(m, s).value == Reflection <==> Tau(m, s) < EPSILON
    ensures Classify(m, s).value == OrientationReversingHyperbolic <==> Tau(m, s) >= EPSILON
  {
    NormalizedDet(m, s);
  }

  /** The gap is reachable: det 1, trace exactly 2 + EPSILON. */
  lemma ClassificationGapWitness()
    ensures IsRootAbsDet(Mat2(2.0 + EPSILON, -1.0, 1.0, 0.0), 1.0)
    ensures Classify(Mat2(2.0 + EPSILON, -1.0, 1.0, 0.0), 1.0) == Failure(ClassificationGap)
  {
    var m := Mat2(2.0 + EPSILON, -1.0, 1.0, 0.0);
    assert Normalize(m, 1.0) == m;
  }

  /** Classification does not see a positive scalar factor. */
  lemma ClassifyScaleInvariant(m: Mat2, s: real, k: real, s': real)
    requires IsRootAbsDet(m, s) && k > 0.0 && IsRootAbsDet(Scale(m, k), s')
    ensures Classify(Scale(m, k), s') == Classify(m, s)
  {
    NormalizeScale(m, s, k, s');
  }

  lemma NormalizeScale(m: Mat2, s: real, k: real, s': real)
    requires IsRootAbsDet(m, s) && k > 0.0 && IsRootAbsDet(Scale(m, k), s')
    ensures Normalize(Scale(m, k), s') == Normalize(m, s)
  {
    var ks := k * s;
    ProductPos(k, s, ks);
    DetScale(m, k);
    ScaledRoot(k, s, ks, Det(m), Det(Scale(m, k)));
    PositiveRootUnique(s', ks, s' * s');
    ScaleScale(m, k, 1.0 / s', 1.0 / s);
  }

  lemma ScaledRoot(k: real, s: real, ks: real, det: real, det': real)
    requires k > 0.0 && s > 0.0 && ks == k * s
    requires s * s == Abs(det) && det' == k * k * det
    ensures ks * ks == Abs(det')
  {
    ProductPos(k, k, k * k);
    assert ks * ks == (k * k) * (s * s);
    if det >= 0.0 {
      ProductNonneg(k * k, det, det');
    } else {
      ProductNonneg(k * k, -det, -det');
    }
  }

  lemma ProductNonneg(u: real, v: real, w: real)
    requires u > 0.0 && v >= 0.0 && w == u * v
    ensures w >= 0.0
  {
    if v > 0.0 {
      ProductPos(u, v, w);
    }
  }

  lemma ScaleScale(m: Mat2, k: real, j: real, i: real)
    requires j * k == i
    ensures Scale(Scale(m, k), j) == Scale(m, i)
  {
    assert j * (k * m.a) == i * m.a;
    assert j * (k * m.b) == i * m.b;
    assert j * (k * m.c) == i * m.c;
    assert j * (k * m.d) == i * m.d;
  }

  /** 4 I is the identity isometry: the scalar factor is normalised away. */
  lemma ClassifyExampleScalarIdentity()
    ensures IsRootAbsDet(Mat2(4.0, 0.0, 0.0, 4.0), 4.0)
    ensures Classify(Mat2(4.0, 0.0, 0.0, 4.0), 4.0) == Success(IdentityKind)
  {
    assert Normalize(Mat2(4.0, 0.0, 0.0, 4.0), 4.0) == Identity;
  }

  /** -I fails the identity test and lands in the parabolic band. */
  lemma ClassifyExampleMinusIdentity()
    ensures IsRootAbsDet(Neg(Identity), 1.0)
    ensures Classify(Neg(Identity), 1.0) == Success(Parabolic)
  {
    var n := Neg(Identity);
    assert Normalize(n, 1.0) == n;
    assert DistSqFromIdentity(n) == 8.0;
    assert Tau(n, 1.0) == 2.0;
  }

  lemma ClassifyExampleDiagonal()
    ensures IsRootAbsDet(Mat2(2.0, 0.0, 0.0, 0.5), 1.0)
    ensures Classify(Mat2(2.0, 0.0, 0.0, 0.5), 1.0) == Success(Hyperbolic)
  {
    assert Normalize(Mat2(2.0, 0.0, 0.0, 0.5), 1.0) == Mat2(2.0, 0.0, 0.0, 0.5);
  }

  lemma ClassifyExampleTraceSix()
    ensures IsRootAbsDet(Mat2(0.0, 3.0, -1.0 / 3.0, 6.0), 1.0)
    ensures Classify(Mat2(0.0, 3.0, -1.0 / 3.0, 6.0), 1.0) == Success(Hyperbolic)
  {
    assert Normalize(Mat2(0.0, 3.0, -1.0 / 3.0, 6.0), 1.0) == Mat2(0.0, 3.0, -1.0 / 3.0, 6.0);
  }

  lemma ClassifyExampleShear()
    ensures IsRootAbsDet(Mat2(1.0, 1.0, 0.0, 1.0), 1.0)
    ensures Classify(Mat2(1.0, 1.0, 0.0, 1.0), 1.0) == Success(Parabolic)
  {
    var n, k := Mat2(1.0, 1.0, 0.0, 1.0), 1.0 / 1.0;
    assert Normalize(n, 1.0) == Scale(n, k) == n;
    assert Abs(Trace(n)) == 2.0;
  }

  /** The translation z -> z + 4 is parabolic. */
  lemma ClassifyExampleTranslation()
    ensures IsRootAbsDet(Mat2(1.0, 4.0, 0.0, 1.0), 1.0)
    ensures IsRootDisc(Normalize(Mat2(1.0, 4.0, 0.0, 1.0), 1.0), 0.0)
    ensures Classify(Mat2(1.0, 4.0, 0.0, 1.0), 1.0) == Success(Parabolic)
  {
    var n, k := Mat2(1.0, 4.0, 0.0, 1.0), 1.0 / 1.0;
    assert Normalize(n, 1.0) == Scale(n, k) == n;
    assert DistSqFromIdentity(n) == 16.0;
    assert Trace(n) == 2.0;
    assert Abs(Trace(n)) == 2.0;
    assert Abs(Disc(n)) == 0.0;
  }

  lemma ClassifyExampleReflection()
    ensures IsRootAbsDet(Mat2(-1.0, 0.0, 0.0, 1.0), 1.0)
    ensures Classify(Mat2(-1.0, 0.0, 0.0, 1.0), 1.0) == Success(Reflection)
  {
    assert Normalize(Mat2(-1.0, 0.0, 0.0, 1.0), 1.0) == Mat2(-1.0, 0.0, 0.0, 1.0);
  }

  // ---------------------------------------------------------------------
  // Fixed points
  // ---------------------------------------------------------------------

  /** tr(n)^2 - 4, the quantity whose square root the fixed-point formulas take. */
  function Disc(n: Mat2): real
  {
    Trace(n) * Trace(n) - 4.0
  }

  /** r is the nonnegative square root of |tr(n)^2 - 4|. */
  predicate IsRootDisc(n: Mat2, r: real)
  {
    r >= 0.0 && r * r == Abs(Disc(n))
  }

  function Sign(x: real): (r: real)
    ensures r * x == Abs(x)
  {
    if x > 0.0 then 1.0 else if x < 0.0 then -1.0 else 0.0
  }

  /**
   * The fixed points of m, from closed forms on its normalisation n for the
   * orientation-preserving classes and from the eigenvectors eig of n
   * otherwise.
   */
  function FixedPointSet(m: Mat2, s: real, r: real, eig: (Vec2, Vec2)): Result<seq<Point>, Error>
    requires IsRootAbsDet(m, s) && IsRootDisc(Normalize(m, s), r)
  {
    var n := Normalize(m, s);
    match Classify(m, s)
    case Failure(e) => Failure(e)
    case Success(IdentityKind) => Failure(IdentityFixesPlane)
    case Success(Parabolic) =>
      if Abs(n.c) < EPSILON then Success([Infinity])
      else Success([Ideal((n.a - n.d) / (2.0 * n.c))])
    case Success(Elliptic) =>
      if n.c == 0.0 then Failure(DivisionByZero)
      else Success([Interior((n.a - n.d) / (2.0 * n.c), Sign(n.c) * r / (2.0 * n.c))])
    case Success(Hyperbolic) =>
      if n.c != 0.0 then
        Success([Ideal((n.a - n.d + r) / (2.0 * n.c)), Ideal((n.a - n.d - r) / (2.0 * n.c))])
      else if n.d - n.a == 0.0 then Failure(DivisionByZero)
      else Success([Ideal(n.b / (n.d - n.a)), Infinity])
    case Success(_) => Success([FromVector(eig.0), FromVector(eig.1)])
  }

  /** |tr| > 2 gives tr^2 > 4, and |tr| < 2 gives tr^2 < 4. */
  lemma SquareBand(n: Mat2)
    ensures Abs(Trace(n)) > 2.0 ==> Disc(n) > 0.0
    ensures Abs(Trace(n)) < 2.0 ==> Disc(n) < 0.0
  {
    var t := Trace(n);
    var u := Abs(t);
    assert t * t == u * u;
    assert u * u - 4.0 == (u - 2.0) * (u + 2.0);
    if u > 2.0 {
      ProductPos(u - 2.0, u + 2.0, (u - 2.0) * (u + 2.0));
    } else if u < 2.0 {
      ProductPos(2.0 - u, u + 2.0, (2.0 - u) * (u + 2.0));
    }
  }

  /** With determinant 1, tr^2 - 4 is the discriminant (a - d)^2 + 4 b c of the fixed-point quadratic. */
  lemma Discriminant(n: Mat2)
    requires Det(n) == 1.0
    ensures Disc(n) == (n.a - n.d) * (n.a - n.d) + 4.0 * n.b * n.c
  {
  }

  /** A determinant-1 matrix with c = 0 has tr^2 >= 4, with equality only when a = d. */
  lemma UpperTriangularTrace(n: Mat2)
    requires Det(n) == 1.0 && n.c == 0.0
    ensures Disc(n) >= 0.0
    ensures n.a == n.d ==> Disc(n) == 0.0
  {
    Discriminant(n);
    Square(n.a - n.d, (n.a - n.d) * (n.a - n.d));
  }

  /** (a - d + rr) / 2c solves c p^2 + (d - a) p - b = 0 when rr^2 is the discriminant. */
  lemma QuadraticRoot(n: Mat2, rr: real, p: real)
    requires Det(n) == 1.0 && n.c != 0.0
    requires rr * rr == Disc(n)
    requires p == (n.a - n.d + rr) / (2.0 * n.c)
    ensures FixedBy(n, Ideal(p))
  {
    var a, b, c, d := n.a, n.b, n.c, n.d;
    Discriminant(n);
    var q := 2.0 * c * p;
    assert q == a - d + rr;
    var e := a * p + b - p * (c * p + d);
    assert 4.0 * c * e == -(q * q - 2.0 * (a - d) * q - 4.0 * b * c);
    assert q * q - 2.0 * (a - d) * q == rr * rr - (a - d) * (a - d);
    CancelFactor(4.0 * c, e);
  }

  /** The elliptic point solves the fixed-point equation and lies strictly inside the half-plane. */
  lemma EllipticRoot(n: Mat2, r: real, x: real, y: real)
    requires Det(n) == 1.0 && n.c != 0.0
    requires r > 0.0 && r * r == -Disc(n)
    requires x == (n.a - n.d) / (2.0 * n.c) && y == Sign(n.c) * r / (2.0 * n.c)
    ensures FixedBy(n, Interior(x, y))
    ensures y > 0.0
  {
    var a, b, c, d := n.a, n.b, n.c, n.d;
    Discriminant(n);
    var u, w := 2.0 * c * x, 2.0 * c * y;
    assert u == a - d;
    assert w == Sign(c) * r;
    assert w * w == r * r;
    var e := a * x + b - (x * (c * x + d) - y * (c * y));
    assert 4.0 * c * e == 2.0 * (a - d) * u - u * u + 4.0 * b * c + w * w;
    CancelFactor(4.0 * c, e);
    assert a * y - (x * (c * y) + y * (c * x + d)) == y * (a - d - u);
    PositiveHalfPlane(c, r, y);
  }

  lemma PositiveHalfPlane(c: real, r: real, y: real)
    requires c != 0.0 && r > 0.0 && y == Sign(c) * r / (2.0 * c)
    ensures y > 0.0
  {
    var h := 2.0 * Abs(c);
    assert Sign(c) * (2.0 * c) == h;
    assert y * h == r;
    if y <= 0.0 {
      ProductNonneg(h, -y, -(y * h));
    }
  }

  /** A point fixed by the normalised matrix is fixed by m itself. */
  lemma FixedByNormalized(m: Mat2, s: real, p: Point)
    requires s > 0.0
    ensures FixedBy(Normalize(m, s), p) <==> FixedBy(m, p)
  {
    FixedByScale(m, 1.0 / s, p);
  }

  /**
   * A hyperbolic isometry has exactly two distinct fixed points, both on
   * the boundary and both fixed by the Moebius map of m; the zero
   * denominators of the closed forms cannot occur.
   */
  lemma FixedPointsHyperbolic(m: Mat2, s: real, r: real, eig: (Vec2, Vec2))
    requires IsRootAbsDet(m, s) && IsRootDisc(Normalize(m, s), r)
    requires Classify(m, s) == Success(Hyperbolic)
    ensures FixedPointSet(m, s, r, eig).Success?
    ensures var pts := FixedPointSet(m, s, r, eig).value;
      |pts| == 2 && pts[0] != pts[1] && !pts[0].Interior? && !pts[1].Interior?
      && FixedBy(m, pts[0]) && FixedBy(m, pts[1])
  {
    var n := Normalize(m, s);
    NormalizedDet(m, s);
    ClassifyOrientation(m, s);
    SquareBand(n);
    if n.c != 0.0 {
      HyperbolicTwoRoots(m, s, r);
    } else {
      HyperbolicFixesInfinity(m, s);
    }
  }

  lemma HyperbolicTwoRoots(m: Mat2, s: real, r: real)
    requires s > 0.0 && Det(Normalize(m, s)) == 1.0 && Normalize(m, s).c != 0.0
    requires r * r == Disc(Normalize(m, s)) && r != 0.0
    ensures var n := Normalize(m, s);
      var p1, p2 := (n.a - n.d + r) / (2.0 * n.c), (n.a - n.d - r) / (2.0 * n.c);
      p1 != p2 && FixedBy(m, Ideal(p1)) && FixedBy(m, Ideal(p2))
  {
    var n := Normalize(m, s);
    var p1, p2 := (n.a - n.d + r) / (2.0 * n.c), (n.a - n.d - r) / (2.0 * n.c);
    QuadraticRoot(n, r, p1);
    QuadraticRoot(n, -r, p2);
    FixedByNormalized(m, s, Ideal(p1));
    FixedByNormalized(m, s, Ideal(p2));
    ZeroSquare(r);
    DistinctRoots(n.a - n.d, r, 2.0 * n.c, p1, p2);
  }

  lemma HyperbolicFixesInfinity(m: Mat2, s: real)
    requires s > 0.0 && Det(Normalize(m, s)) == 1.0 && Normalize(m, s).c == 0.0
    requires Disc(Normalize(m, s)) > 0.0
    ensures var n := Normalize(m, s);
      n.d - n.a != 0.0 && FixedBy(m, Ideal(n.b / (n.d - n.a))) && FixedBy(m, Infinity)
  {
    var n := Normalize(m, s);
    UpperTriangularTrace(n);
    var p := n.b / (n.d - n.a);
    assert p * (n.d - n.a) == n.b;
    assert FixedBy(n, Ideal(p));
    FixedByNormalized(m, s, Ideal(p));
    FixedByNormalized(m, s, Infinity);
  }

  lemma ZeroSquare(r: real)
    ensures r == 0.0 ==> r * r == 0.0
  {
  }

  lemma DistinctRoots(u: real, r: real, k: real, p1: real, p2: real)
    requires k != 0.0 && r != 0.0 && p1 == (u + r) / k && p2 == (u - r) / k
    ensures p1 != p2
  {
    assert p1 * k == u + r;
    assert p2 * k == u - r;
  }

  /**
   * An elliptic isometry has exactly one fixed point, strictly inside the
   * half-plane and fixed by the Moebius map of m; c = 0 cannot occur.
   */
  lemma FixedPointsElliptic(m: Mat2, s: real, r: real, eig: (Vec2, Vec2))
    requires IsRootAbsDet(m, s) && IsRootDisc(Normalize(m, s), r)
    requires Classify(m, s) == Success(Elliptic)
    ensures FixedPointSet(m, s, r, eig).Success?
    ensures var pts := FixedPointSet(m, s, r, eig).value;
      |pts| == 1 && pts[0].Interior? && pts[0].y > 0.0 && FixedBy(m, pts[0])
  {
    var n := Normalize(m, s);
    NormalizedDet(m, s);
    ClassifyOrientation(m, s);
    SquareBand(n);
    if n.c == 0.0 {
      UpperTriangularTrace(n);
    }
    ZeroSquare(r);
    var x, y := (n.a - n.d) / (2.0 * n.c), Sign(n.c) * r / (2.0 * n.c);
    EllipticRoot(n, r, x, y);
    FixedByNormalized(m, s, Interior(x, y));
  }

  /**
   * A parabolic isometry yields a single point. It is infinity when
   * |c| < EPSILON, which is fixed when c is exactly 0; otherwise it is the
   * double root (a - d) / 2c, fixed when the trace is exactly +-2.
   */
  lemma FixedPointsParabolic(m: Mat2, s: real, r: real, eig: (Vec2, Vec2))
    requires IsRootAbsDet(m, s) && IsRootDisc(Normalize(m, s), r)
    requires Classify(m, s) == Success(Parabolic)
    ensures FixedPointSet(m, s, r, eig).Success?
    ensures var pts := FixedPointSet(m, s, r, eig).value;
      && |pts| == 1
      && (Abs(Normalize(m, s).c) < EPSILON ==> pts == [Infinity])
      && (Abs(Normalize(m, s).c) >= EPSILON
          ==> pts == [Ideal((Normalize(m, s).a - Normalize(m, s).d) / (2.0 * Normalize(m, s).c))])
      && (Normalize(m, s).c == 0.0 ==> pts[0] == Infinity && FixedBy(m, Infinity))
      && (Abs(Normalize(m, s).c) >= EPSILON && Tau(m, s) == 2.0 ==> pts[0].Ideal? && FixedBy(m, pts[0]))
  {
    var n := Normalize(m, s);
    NormalizedDet(m, s);
    ClassifyOrientation(m, s);
    FixedByNormalized(m, s, Infinity);
    if Abs(n.c) >= EPSILON && Tau(m, s) == 2.0 {
      var p := (n.a - n.d) / (2.0 * n.c);
      assert Disc(n) == 0.0;
      QuadraticRoot(n, 0.0, p);
      FixedByNormalized(m, s, Ideal(p));
    }
  }

  /**
   * The EPSILON test on c is a tolerance: with det 1, trace 2 and
   * c = EPSILON / 2, the point returned is infinity, which the map moves.
   */
  lemma ParabolicToleranceExample()
    ensures IsRootAbsDet(Mat2(2.0, -2.0 / EPSILON, EPSILON / 2.0, 0.0), 1.0)
    ensures IsRootDisc(Normalize(Mat2(2.0, -2.0 / EPSILON, EPSILON / 2.0, 0.0), 1.0), 0.0)
    ensures Classify(Mat2(2.0, -2.0 / EPSILON, EPSILON / 2.0, 0.0), 1.0) == Success(Parabolic)
    ensures FixedPointSet(Mat2(2.0, -2.0 / EPSILON, EPSILON / 2.0, 0.0), 1.0, 0.0, (Vec2(1.0, 0.0), Vec2(1.0, 0.0)))
            == Success([Infinity])
    ensures !FixedBy(Mat2(2.0, -2.0 / EPSILON, EPSILON / 2.0, 0.0), Infinity)
  {
    var m, k := Mat2(2.0, -2.0 / EPSILON, EPSILON / 2.0, 0.0), 1.0 / 1.0;
    assert Normalize(m, 1.0) == Scale(m, k) == m;
    assert Det(m) == 1.0;
    assert Abs(Trace(m)) == 2.0;
    assert DistSqFromIdentity(m) >= 1.0;
  }

  /**
   * For a reflection or an orientation-reversing hyperbolic isometry, the
   * points the eigenvectors of the normalised matrix span are fixed by m.
   */
  lemma FixedPointsReversing(m: Mat2, s: real, r: real, eig: (Vec2, Vec2), l1: real, l2: real)
    requires IsRootAbsDet(m, s) && IsRootDisc(Normalize(m, s), r)
    requires !OrientationPreserving(m)
    requires IsEigenvector(Normalize(m, s), eig.0, l1) && IsEigenvector(Normalize(m, s), eig.1, l2)
    ensures FixedPointSet(m, s, r, eig) == Success([FromVector(eig.0), FromVector(eig.1)])
    ensures FixedBy(m, FromVector(eig.0)) && FixedBy(m, FromVector(eig.1))
  {
    ClassifyReversing(m, s);
    EigenvectorPointFixed(Normalize(m, s), eig.0, l1);
    EigenvectorPointFixed(Normalize(m, s), eig.1, l2);
    FixedByNormalized(m, s, FromVector(eig.0));
    FixedByNormalized(m, s, FromVector(eig.1));
  }

  /** The fixed-point query fails exactly when classification fails or gives the identity. */
  lemma FixedPointSetFailure(m: Mat2, s: real, r: real, eig: (Vec2, Vec2))
    requires IsRootAbsDet(m, s) && IsRootDisc(Normalize(m, s), r)
    ensures FixedPointSet(m, s, r, eig).Failure? <==>
      Classify(m, s).Failure? || Classify(m, s) == Success(IdentityKind)
    ensures Classify(m, s) == Success(IdentityKind) ==> FixedPointSet(m, s, r, eig) == Failure(IdentityFixesPlane)
  {
    match Classify(m, s)
    case Success(Hyperbolic) => FixedPointsHyperbolic(m, s, r, eig);
    case Success(Elliptic) => FixedPointsElliptic(m, s, r, eig);
    case Success(_) =>
    case Failure(_) =>
  }

  /** diag(2, 1/2) fixes 0 and infinity; with c = 0 these come from the closed form b / (d - a). */
  lemma FixedPointsExampleDiagonal(eig: (Vec2, Vec2))
    ensures IsRootAbsDet(Mat2(2.0, 0.0, 0.0, 0.5), 1.0)
    ensures IsRootDisc(Normalize(Mat2(2.0, 0.0, 0.0, 0.5), 1.0), 1.5)
    ensures Classify(Mat2(2.0, 0.0, 0.0, 0.5), 1.0) == Success(Hyperbolic)
    ensures FixedPointSet(Mat2(2.0, 0.0, 0.0, 0.5), 1.0, 1.5, eig) == Success([Ideal(0.0), Infinity])
  {
    DiagonalRoots();
    ClassifyExampleDiagonal();
    FixedPointsDiagonal(Mat2(2.0, 0.0, 0.0, 0.5), 1.0, 1.5, eig);
  }

  lemma DiagonalRoots()
    ensures Normalize(Mat2(2.0, 0.0, 0.0, 0.5), 1.0) == Mat2(2.0, 0.0, 0.0, 0.5)
    ensures IsRootDisc(Normalize(Mat2(2.0, 0.0, 0.0, 0.5), 1.0), 1.5)
  {
    var m, k := Mat2(2.0, 0.0, 0.0, 0.5), 1.0 / 1.0;
    assert Normalize(m, 1.0) == Scale(m, k) == m;
    assert Trace(m) == 2.5;
    assert Disc(m) == 2.25;
  }

  /** A hyperbolic diagonal matrix fixes 0 and infinity. */
  lemma FixedPointsDiagonal(m: Mat2, s: real, r: real, eig: (Vec2, Vec2))
    requires IsRootAbsDet(m, s) && IsRootDisc(Normalize(m, s), r)
    requires Classify(m, s) == Success(Hyperbolic) && m.b == 0.0 && m.c == 0.0
    ensures FixedPointSet(m, s, r, eig) == Success([Ideal(0.0), Infinity])
  {
    var n := Normalize(m, s);
    assert n.b == 0.0 && n.c == 0.0;
    FixedPointsUpperTriangular(m, s, r, eig);
    assert n.b / (n.d - n.a) == 0.0;
  }

  lemma FixedPointsUpperTriangular(m: Mat2, s: real, r: real, eig: (Vec2, Vec2))
    requires IsRootAbsDet(m, s) && IsRootDisc(Normalize(m, s), r)
    requires Classify(m, s) == Success(Hyperbolic) && Normalize(m, s).c == 0.0
    ensures var n := Normalize(m, s);
      FixedPointSet(m, s, r, eig) == Success([Ideal(n.b / (n.d - n.a)), Infinity])
  {
    NormalizedDet(m, s);
    SquareBand(Normalize(m, s));
    HyperbolicFixesInfinity(m, s);
  }

  /** The reflection in the geodesic from -1 to 1 fixes its two ends. */
  lemma FixedPointsExampleSwap()
    ensures IsRootAbsDet(Mat2(0.0, 1.0, 1.0, 0.0), 1.0)
    ensures IsRootDisc(Normalize(Mat2(0.0, 1.0, 1.0, 0.0), 1.0), 2.0)
    ensures FixedPointSet(Mat2(0.0, 1.0, 1.0, 0.0), 1.0, 2.0, (Vec2(1.0, 1.0), Vec2(1.0, -1.0)))
            == Success([Ideal(1.0), Ideal(-1.0)])
  {
    var m, k := Mat2(0.0, 1.0, 1.0, 0.0), 1.0 / 1.0;
    assert Normalize(m, 1.0) == Scale(m, k) == m;
    assert Det(m) == -1.0;
    assert Abs(Trace(m)) == 0.0;
    assert Classify(m, 1.0) == Success(Reflection);
  }

  // ---------------------------------------------------------------------
  // Translation length and the hyperbolic-only queries
  // ---------------------------------------------------------------------

  /**
   * A translation length kept symbolic, since arccosh and arcsinh are not
   * part of this model: 2 arccosh(arg) for a hyperbolic isometry, 2
   * arcsinh(arg) for an orientation-reversing hyperbolic one.
   */
  datatype Length = TwoArccosh(arg: real) | TwoArcsinh(arg: real)

  /** The tags the hyperbolic-only queries accept. */
  const HyperbolicTags: seq<string> := ["hyperbolic", "orientation-reversing hyperbolic"]

  /** The tags translation_length accepts as written: the second one is misspelled. */
  const TranslationTagsAsWritten: seq<string> := ["hyperbolic", "oriention-reversing hyperbolic"]

  /** Which classes each tag list admits. */
  lemma TagMembership(k: Kind)
    ensures Tag(k) in HyperbolicTags <==> k == Hyperbolic || k == OrientationReversingHyperbolic
    ensures Tag(k) in TranslationTagsAsWritten <==> k == Hyperbolic
  {
    assert "hyperbolic"[0] == 'h';
    assert "oriention-reversing hyperbolic"[0] == 'o';
    assert "orientation-reversing hyperbolic"[0] == 'o';
    assert |"orientation-reversing hyperbolic"| != |"oriention-reversing hyperbolic"|;
    match k
    case IdentityKind => assert Tag(k)[0] == 'i';
    case Elliptic => assert Tag(k)[0] == 'e';
    case Parabolic => assert Tag(k)[0] == 'p';
    case Reflection => assert Tag(k)[0] == 'r';
    case Hyperbolic =>
    case OrientationReversingHyperbolic =>
  }

  /** translation_length as written: the misspelled tag never matches. */
  function TranslationLengthAsWritten(m: Mat2, s: real): Result<Length, Error>
    requires IsRootAbsDet(m, s)
  {
    match Classify(m, s)
    case Failure(e) => Failure(e)
    case Success(k) =>
      if Tag(k) in TranslationTagsAsWritten then Success(TwoArccosh(Tau(m, s) / 2.0))
      else Failure(TranslationUndefined)
  }

  /**
   * translation_length with the tag list spelled as the other hyperbolic-only
   * queries spell it. A glide reflection (normalised det -1, |trace| tau)
   * translates by 2 arcsinh(tau / 2), not 2 arccosh(tau / 2): see GlideSquare.
   */
  function TranslationLength(m: Mat2, s: real): Result<Length, Error>
    requires IsRootAbsDet(m, s)
  {
    match Classify(m, s)
    case Failure(e) => Failure(e)
    case Success(k) =>
      if Tag(k) !in HyperbolicTags then Failure(TranslationUndefined)
      else if k == OrientationReversingHyperbolic then Success(TwoArcsinh(Tau(m, s) / 2.0))
      else Success(TwoArccosh(Tau(m, s) / 2.0))
  }

  /** As written, only a hyperbolic isometry has a translation length; an orientation-reversing hyperbolic one is refused. */
  lemma TranslationLengthAsWrittenGuard(m: Mat2, s: real)
    requires IsRootAbsDet(m, s)
    ensures TranslationLengthAsWritten(m, s).Success? <==> Classify(m, s) == Success(Hyperbolic)
    ensures Classify(m, s) == Success(OrientationReversingHyperbolic)
            ==> TranslationLengthAsWritten(m, s) == Failure(TranslationUndefined)
  {
    if Classify(m, s).Success? {
      TagMembership(Classify(m, s).value);
    }
  }

  /**
   * The corrected query answers exactly for the two hyperbolic classes, with
   * 2 arccosh(tau / 2) and 2 arcsinh(tau / 2) respectively; otherwise it fails
   * with the classification's error or the TypeError.
   */
  lemma TranslationLengthGuard(m: Mat2, s: real)
    requires IsRootAbsDet(m, s)
    ensures TranslationLength(m, s).Success? <==>
            Classify(m, s) == Success(Hyperbolic) || Classify(m, s) == Success(OrientationReversingHyperbolic)
    ensures Classify(m, s) == Success(Hyperbolic) ==> TranslationLength(m, s) == Success(TwoArccosh(Tau(m, s) / 2.0))
    ensures Classify(m, s) == Success(OrientationReversingHyperbolic)
            ==> TranslationLength(m, s) == Success(TwoArcsinh(Tau(m, s) / 2.0))
    ensures Classify(m, s).Failure? ==> TranslationLength(m, s) == Failure(ClassificationGap)
    ensures Classify(m, s).Success? && TranslationLength(m, s).Failure?
            ==> TranslationLength(m, s).error == TranslationUndefined
  {
    ClassifyFailureIsGap(m, s);
    if Classify(m, s).Success? {
      TagMembership(Classify(m, s).value);
    }
  }

  /** For a hyperbolic isometry the argument exceeds 1, so arccosh of it is a positive real. */
  lemma TranslationLengthHyperbolic(m: Mat2, s: real)
    requires IsRootAbsDet(m, s) && Classify(m, s) == Success(Hyperbolic)
    ensures TranslationLength(m, s).Success? && TranslationLength(m, s).value.arg > 1.0
    ensures TranslationLength(m, s) == TranslationLengthAsWritten(m, s)
  {
    TagMembership(Hyperbolic);
  }

  /**
   * Why a glide reflection gets arcsinh: for a normalised n with det -1 and
   * |trace n| = tau, the square n n is orientation preserving with
   * |trace| / 2 = 1 + 2 (tau / 2)^2 = cosh(2 arcsinh(tau / 2)); n n translates
   * by 2 arccosh of that, which is twice 2 arcsinh(tau / 2).
   */
  lemma {:induction false} GlideSquare(n: Mat2, tau: real)
    requires Det(n) == -1.0 && tau == Abs(Trace(n))
    ensures Det(Mul(n, n)) == 1.0
    ensures Trace(Mul(n, n)) == tau * tau + 2.0
    ensures Trace(Mul(n, n)) / 2.0 == 1.0 + 2.0 * (tau / 2.0) * (tau / 2.0)
  {
    DetMul(n, n);
    assert Trace(Mul(n, n)) == n.a * n.a + 2.0 * (n.b * n.c) + n.d * n.d;
    assert Trace(n) * Trace(n) == n.a * n.a + 2.0 * (n.a * n.d) + n.d * n.d;
    assert tau * tau == Trace(n) * Trace(n);
  }

  /**
   * The corrected length of an orientation-reversing hyperbolic isometry is
   * 2 arcsinh(x) with x = tau / 2 > 0, and the square of its normalisation
   * is a hyperbolic translation whose arccosh argument is 1 + 2 x^2.
   */
  lemma TranslationLengthGlide(m: Mat2, s: real)
    requires IsRootAbsDet(m, s) && Classify(m, s) == Success(OrientationReversingHyperbolic)
    ensures TranslationLength(m, s).Success? && TranslationLength(m, s).value.TwoArcsinh?
    ensures TranslationLength(m, s).value.arg > 0.0
    ensures var n, x := Normalize(m, s), TranslationLength(m, s).value.arg;
      Det(Mul(n, n)) == 1.0 && Trace(Mul(n, n)) / 2.0 == 1.0 + 2.0 * x * x
  {
    TagMembership(OrientationReversingHyperbolic);
    NormalizedDet(m, s);
    GlideSquare(Normalize(m, s), Tau(m, s));
  }

  /** diag(2, 1/2) translates by 2 arccosh(5/4). */
  lemma TranslationLengthExample()
    ensures IsRootAbsDet(Mat2(2.0, 0.0, 0.0, 0.5), 1.0)
    ensures TranslationLength(Mat2(2.0, 0.0, 0.0, 0.5), 1.0) == Success(TwoArccosh(5.0 / 4.0))
  {
    var m, k := Mat2(2.0, 0.0, 0.0, 0.5), 1.0 / 1.0;
    assert Normalize(m, 1.0) == Scale(m, k) == m;
    assert Det(m) == 1.0;
    assert DistSqFromIdentity(m) == 1.25;
    assert Abs(Trace(m)) == 2.5;
    assert Classify(m, 1.0) == Success(Hyperbolic);
    TagMembership(Hyperbolic);
  }

  /** diag(3, -1/3) is orientation-reversing hyperbolic: refused as written, 2 arcsinh(4/3) = ln 9 once corrected. */
  lemma TranslationLengthMisspelledTag()
    ensures IsRootAbsDet(Mat2(3.0, 0.0, 0.0, -1.0 / 3.0), 1.0)
    ensures Classify(Mat2(3.0, 0.0, 0.0, -1.0 / 3.0), 1.0) == Success(OrientationReversingHyperbolic)
    ensures TranslationLengthAsWritten(Mat2(3.0, 0.0, 0.0, -1.0 / 3.0), 1.0) == Failure(TranslationUndefined)
    ensures TranslationLength(Mat2(3.0, 0.0, 0.0, -1.0 / 3.0), 1.0) == Success(TwoArcsinh(4.0 / 3.0))
  {
    var m, k := Mat2(3.0, 0.0, 0.0, -1.0 / 3.0), 1.0 / 1.0;
    assert Normalize(m, 1.0) == Scale(m, k) == m;
    assert Det(m) == -1.0;
    assert Abs(Trace(m)) == 8.0 / 3.0;
    assert Classify(m, 1.0) == Success(OrientationReversingHyperbolic);
    TagMembership(OrientationReversingHyperbolic);
  }

  /**
   * The repelling fixed point: the point spanned by v, the second column of
   * the host library's right eigenmatrix of m, for the two hyperbolic classes.
   */
  function RepellingFixedPoint(m: Mat2, s: real, v: Vec2): Result<Point, Error>
    requires IsRootAbsDet(m, s)
  {
    match Classify(m, s)
    case Failure(e) => Failure(e)
    case Success(k) =>
      if Tag(k) !in HyperbolicTags then Failure(RepellingUndefined)
      else Success(FromVector(v))
  }

  /** The attracting fixed point: as the repelling one, from the first eigenvector column. */
  function AttractingFixedPoint(m: Mat2, s: real, v: Vec2): Result<Point, Error>
    requires IsRootAbsDet(m, s)
  {
    match Classify(m, s)
    case Failure(e) => Failure(e)
    case Success(k) =>
      if Tag(k) !in HyperbolicTags then Failure(AttractingUndefined)
      else Success(FromVector(v))
  }

  /** The repelling point exists exactly for the hyperbolic classes, and an eigenvector gives a point m fixes. */
  lemma RepellingFixedPointGuard(m: Mat2, s: real, v: Vec2, ev: real)
    requires IsRootAbsDet(m, s)
    ensures RepellingFixedPoint(m, s, v).Success? <==>
            Classify(m, s) == Success(Hyperbolic) || Classify(m, s) == Success(OrientationReversingHyperbolic)
    ensures Classify(m, s).Success? && RepellingFixedPoint(m, s, v).Failure?
            ==> RepellingFixedPoint(m, s, v).error == RepellingUndefined
    ensures RepellingFixedPoint(m, s, v).Success? && IsEigenvector(m, v, ev)
            ==> FixedBy(m, RepellingFixedPoint(m, s, v).value)
  {
    if Classify(m, s).Success? {
      TagMembership(Classify(m, s).value);
    }
    if IsEigenvector(m, v, ev) {
      EigenvectorPointFixed(m, v, ev);
    }
  }

  lemma AttractingFixedPointGuard(m: Mat2, s: real, v: Vec2, ev: real)
    requires IsRootAbsDet(m, s)
    ensures AttractingFixedPoint(m, s, v).Success? <==>
            Classify(m, s) == Success(Hyperbolic) || Classify(m, s) == Success(OrientationReversingHyperbolic)
    ensures Classify(m, s).Success? && AttractingFixedPoint(m, s, v).Failure?
            ==> AttractingFixedPoint(m, s, v).error == AttractingUndefined
    ensures AttractingFixedPoint(m, s, v).Success? && IsEigenvector(m, v, ev)
            ==> FixedBy(m, AttractingFixedPoint(m, s, v).value)
  {
    if Classify(m, s).Success? {
      TagMembership(Classify(m, s).value);
    }
    if IsEigenvector(m, v, ev) {
      EigenvectorPointFixed(m, v, ev);
    }
  }

  /** The dilation z -> 16 z, as diag(4, 1/4). */
  const Dilation: Mat2 := Mat2(4.0, 0.0, 0.0, 0.25)

  /** diag(4, 1/4) repels from 0, the point its eigenvector for 1/4 spans. */
  lemma RepellingFixedPointExample()
    ensures IsRootAbsDet(Dilation, 1.0)
    ensures IsEigenvector(Dilation, Vec2(0.0, 1.0), 0.25)
    ensures RepellingFixedPoint(Dilation, 1.0, Vec2(0.0, 1.0)) == Success(Ideal(0.0))
  {
    assert FromVector(Vec2(0.0, 1.0)) == Ideal(0.0);
    ClassifyExampleDilation();
    HyperbolicEndpoints(Dilation, 1.0, Vec2(0.0, 1.0));
  }

  /** diag(4, 1/4) attracts to infinity, the point its eigenvector for 4 spans. */
  lemma AttractingFixedPointExample()
    ensures IsRootAbsDet(Dilation, 1.0)
    ensures IsEigenvector(Dilation, Vec2(1.0, 0.0), 4.0)
    ensures AttractingFixedPoint(Dilation, 1.0, Vec2(1.0, 0.0)) == Success(Infinity)
  {
    assert FromVector(Vec2(1.0, 0.0)) == Infinity;
    ClassifyExampleDilation();
    HyperbolicEndpoints(Dilation, 1.0, Vec2(1.0, 0.0));
  }

  /** For a hyperbolic matrix both end-point queries answer with the point v spans. */
  lemma HyperbolicEndpoints(m: Mat2, s: real, v: Vec2)
    requires IsRootAbsDet(m, s) && Classify(m, s) == Success(Hyperbolic)
    ensures RepellingFixedPoint(m, s, v) == Success(FromVector(v))
    ensures AttractingFixedPoint(m, s, v) == Success(FromVector(v))
  {
    TagMembership(Hyperbolic);
  }

  /** The dilation diag(4, 1/4) is hyperbolic. */
  lemma ClassifyExampleDilation()
    ensures IsRootAbsDet(Dilation, 1.0)
    ensures Classify(Dilation, 1.0) == Success(Hyperbolic)
  {
    var m, k := Dilation, 1.0 / 1.0;
    assert Normalize(m, 1.0) == Scale(m, k) == m;
    assert Det(m) == 1.0;
    assert DistSqFromIdentity(m) >= 1.0;
    assert Abs(Trace(m)) == 4.25;
  }
}
