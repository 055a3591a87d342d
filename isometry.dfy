/**
 * The model-independent operations of a hyperbolic isometry: equality up to
 * a closeness test (and up to sign in a projective model), composition with
 * isometries, points and geodesics, application, powers and inverses, and
 * the axis and fixed geodesic queries on the upper half-plane matrix.
 *
 * How a model moves a point is a parameter `act`; in the upper half-plane
 * it is `Boundary.Apply`, which conjugates the point when det < 0.
 */
module Isometries {
  import opened Wrappers
  import opened Matrix2
  import opened Boundary
  import UHP

  /** What the isometry code asks of a model: its short name and whether its isometry group is projective. */
  datatype Model = Model(name: string, projective: bool)

  /** The upper half-plane model, whose isometry group PSL(2, R) is projective. */
  const UHPModel: Model := Model("UHP", true)

  /** An isometry: its domain model and its matrix, fixed at construction. */
  datatype Isometry = Isometry(domain: Model, matrix: Mat2)

  /** The errors the base operations raise. */
  datatype Error =
    | ModelMismatch     // TypeError: the operands are not in the same model
    | NoModelName       // AttributeError: the operand has no model name
    | NotImplemented    // NotImplementedError: no product with this kind of operand
    | DomainMismatch    // TypeError: the argument is not in the isometry's model

  // ---------------------------------------------------------------------
  // Equality
  // ---------------------------------------------------------------------

  /**
   * Equality of isometries. `close` stands for the host library's test
   * "abs of this matrix is below EPSILON", with abs the host library's
   * `abs` of a matrix; the domains must be one and
   * the same model, and in a projective model M and -M are the same isometry.
   */
  predicate Equal(x: Isometry, y: Isometry, close: Mat2 -> bool)
  {
    var pos := close(Sub(x.matrix, y.matrix));
    var neg := close(Add(x.matrix, y.matrix));
    if x.domain.projective then x.domain == y.domain && (pos || neg)
    else x.domain == y.domain && pos
  }

  /** Every isometry equals itself. */
  lemma EqualReflexive(x: Isometry, close: Mat2 -> bool)
    requires close(Zero)
    ensures Equal(x, x, close)
  {
    assert Sub(x.matrix, x.matrix) == Zero;
  }

  /** In a projective model an isometry equals the one with the negated matrix. */
  lemma EqualNegated(x: Isometry, close: Mat2 -> bool)
    requires x.domain.projective && close(Zero)
    ensures Equal(x, Isometry(x.domain, Neg(x.matrix)), close)
  {
    assert Add(x.matrix, Neg(x.matrix)) == Zero;
  }

  /**
   * In a model that is not projective, with an exact closeness test, a
   * nonzero matrix and its negation give different isometries.
   */
  lemma NotEqualNegatedNonProjective(x: Isometry, close: Mat2 -> bool)
    requires !x.domain.projective && x.matrix != Zero
    requires forall z :: close(z) <==> z == Zero
    ensures !Equal(x, Isometry(x.domain, Neg(x.matrix)), close)
  {
    var d := Sub(x.matrix, Neg(x.matrix));
    assert d == Mat2(2.0 * x.matrix.a, 2.0 * x.matrix.b, 2.0 * x.matrix.c, 2.0 * x.matrix.d);
    assert d != Zero;
  }

  /** Isometries of different models are never equal. */
  lemma EqualNeedsSameDomain(x: Isometry, y: Isometry, close: Mat2 -> bool)
    requires x.domain != y.domain
    ensures !Equal(x, y, close)
  {
  }

  /** Equality is symmetric when the closeness test does not see the sign. */
  lemma EqualSymmetric(x: Isometry, y: Isometry, close: Mat2 -> bool)
    requires forall z :: close(Neg(z)) == close(z)
    ensures Equal(x, y, close) == Equal(y, x, close)
  {
    assert Sub(y.matrix, x.matrix) == Neg(Sub(x.matrix, y.matrix));
    assert Add(y.matrix, x.matrix) == Add(x.matrix, y.matrix);
  }

  /** The identity and its negation are the same isometry of the upper half-plane. */
  lemma EqualExampleMinusIdentity(close: Mat2 -> bool)
    requires close(Zero)
    ensures Equal(Isometry(UHPModel, Identity), Isometry(UHPModel, Neg(Identity)), close)
  {
    EqualNegated(Isometry(UHPModel, Identity), close);
  }

  // ---------------------------------------------------------------------
  // Composition and application
  // ---------------------------------------------------------------------

  /** The right operand of a product: something with a model name, or not. */
  datatype Operand =
    | IsometryOperand(iso: Isometry)
    | PointOperand(pointModel: string, point: Point)
    | GeodesicOperand(geodesicModel: string, geodesic: Geodesic)
    | OtherOperand(otherModel: Option<string>)

  /** The value of a product; `NoValue` is Python's None. */
  datatype Value =
    | IsometryValue(iso: Isometry)
    | PointValue(point: Point)
    | GeodesicValue(geodesic: Geodesic)
    | NoValue

  function ModelName(o: Operand): Option<string>
  {
    match o
    case IsometryOperand(y) => Some(y.domain.name)
    case PointOperand(name, _) => Some(name)
    case GeodesicOperand(name, _) => Some(name)
    case OtherOperand(name) => name
  }

  /** x * other as written: for an unsupported operand the error is built but not raised, so the value is None. */
  function ComposeAsWritten(x: Isometry, other: Operand, act: (Mat2, Point) -> Point): Result<Value, Error>
  {
    match ModelName(other)
    case None => Failure(NoModelName)
    case Some(name) =>
      if x.domain.name != name then Failure(ModelMismatch)
      else match other
        case IsometryOperand(y) => Success(IsometryValue(Isometry(x.domain, Mul(x.matrix, y.matrix))))
        case PointOperand(_, p) => Success(PointValue(act(x.matrix, p)))
        case GeodesicOperand(_, g) =>
          Success(GeodesicValue(Geodesic(act(x.matrix, g.start), act(x.matrix, g.end))))
        case OtherOperand(_) => Success(NoValue)
  }

  /** x * other with the NotImplementedError raised. */
  function Compose(x: Isometry, other: Operand, act: (Mat2, Point) -> Point): Result<Value, Error>
  {
    match ModelName(other)
    case None => Failure(NoModelName)
    case Some(name) =>
      if x.domain.name != name then Failure(ModelMismatch)
      else match other
        case IsometryOperand(y) => Success(IsometryValue(Isometry(x.domain, Mul(x.matrix, y.matrix))))
        case PointOperand(_, p) => Success(PointValue(act(x.matrix, p)))
        case GeodesicOperand(_, g) =>
          Success(GeodesicValue(Geodesic(act(x.matrix, g.start), act(x.matrix, g.end))))
        case OtherOperand(_) => Failure(NotImplemented)
  }

  /**
   * A product exists only between operands of the same model; the product
   * of two isometries is the isometry of the matrix product, in the left
   * operand's domain; and no product is ever None.
   */
  lemma ComposeContract(x: Isometry, other: Operand, act: (Mat2, Point) -> Point)
    ensures Compose(x, other, act).Success? <==> ModelName(other) == Some(x.domain.name) && !other.OtherOperand?
    ensures Compose(x, other, act).Success? ==> Compose(x, other, act).value != NoValue
    ensures ModelName(other).Some? && ModelName(other) != Some(x.domain.name)
            ==> Compose(x, other, act) == Failure(ModelMismatch)
    ensures other.IsometryOperand? && other.iso.domain.name == x.domain.name ==>
            Compose(x, other, act) == Success(IsometryValue(Isometry(x.domain, Mul(x.matrix, other.iso.matrix))))
  {
  }

  /** The two versions differ only on an unsupported operand of the same model, where the source yields None. */
  lemma ComposeAsWrittenDiffers(x: Isometry, other: Operand, act: (Mat2, Point) -> Point)
    ensures !other.OtherOperand? ==> ComposeAsWritten(x, other, act) == Compose(x, other, act)
    ensures other == OtherOperand(Some(x.domain.name)) ==>
            ComposeAsWritten(x, other, act) == Success(NoValue) && Compose(x, other, act) == Failure(NotImplemented)
  {
  }

  /** Composition of isometries of one model is associative. */
  lemma ComposeAssociative(x: Isometry, y: Isometry, z: Isometry, act: (Mat2, Point) -> Point)
    requires x.domain == y.domain == z.domain
    ensures var xy := Compose(x, IsometryOperand(y), act).value.iso;
            var yz := Compose(y, IsometryOperand(z), act).value.iso;
            Compose(xy, IsometryOperand(z), act) == Compose(x, IsometryOperand(yz), act)
  {
    MulAssoc(x.matrix, y.matrix, z.matrix);
  }

  /** B * A = [[16, 8], [7, 6]] for A = [[5, 2], [1, 2]] and B = [[3, 1], [1, 2]]. */
  lemma ComposeExampleIsometries(act: (Mat2, Point) -> Point)
    ensures Compose(Isometry(UHPModel, Mat2(3.0, 1.0, 1.0, 2.0)),
                    IsometryOperand(Isometry(UHPModel, Mat2(5.0, 2.0, 1.0, 2.0))), act)
            == Success(IsometryValue(Isometry(UHPModel, Mat2(16.0, 8.0, 7.0, 6.0))))
  {
  }

  /** A = [[5, 2], [1, 2]] moves 2 + i to 53/17 + 8/17 i. */
  lemma ComposeExamplePoint()
    ensures Compose(Isometry(UHPModel, Mat2(5.0, 2.0, 1.0, 2.0)), PointOperand("UHP", Interior(2.0, 1.0)), Apply)
            == Success(PointValue(Interior(53.0 / 17.0, 8.0 / 17.0)))
  {
    var m := Mat2(5.0, 2.0, 1.0, 2.0);
    assert Det(m) == 8.0 && ActedIm(m, 1.0) == 1.0;
    assert NumRe(m, 2.0) == 12.0 && NumIm(m, 1.0) == 5.0;
    assert DenRe(m, 2.0) == 4.0 && DenIm(m, 1.0) == 1.0;
    assert Apply(m, Interior(2.0, 1.0)) == Interior(53.0 / 17.0, 8.0 / 17.0);
  }

  /** A = [[5, 2], [1, 2]] moves the geodesic from 2 + i to 4 + i to the one from 53/17 + 8/17 i to 137/37 + 8/37 i. */
  lemma ComposeExampleGeodesic()
    ensures Compose(Isometry(UHPModel, Mat2(5.0, 2.0, 1.0, 2.0)),
                    GeodesicOperand("UHP", Geodesic(Interior(2.0, 1.0), Interior(4.0, 1.0))), Apply)
            == Success(GeodesicValue(Geodesic(Interior(53.0 / 17.0, 8.0 / 17.0), Interior(137.0 / 37.0, 8.0 / 37.0))))
  {
    var m := Mat2(5.0, 2.0, 1.0, 2.0);
    ComposeExamplePoint();
    assert Det(m) == 8.0 && ActedIm(m, 1.0) == 1.0;
    assert NumRe(m, 4.0) == 22.0 && NumIm(m, 1.0) == 5.0;
    assert DenRe(m, 4.0) == 6.0 && DenIm(m, 1.0) == 1.0;
    assert Apply(m, Interior(4.0, 1.0)) == Interior(137.0 / 37.0, 8.0 / 37.0);
  }

  /** The argument of an application: a point or a geodesic of some model. */
  datatype Argument =
    | PointArgument(pointDomain: Model, point: Point)
    | GeodesicArgument(geodesicDomain: Model, geodesic: Geodesic)

  function ArgumentDomain(arg: Argument): Model
  {
    match arg
    case PointArgument(d, _) => d
    case GeodesicArgument(d, _) => d
  }

  /** x(arg): the argument must lie in x's own domain; a geodesic is moved end by end. */
  function Call(x: Isometry, arg: Argument, act: (Mat2, Point) -> Point): Result<Value, Error>
  {
    if ArgumentDomain(arg) != x.domain then Failure(DomainMismatch)
    else match arg
      case GeodesicArgument(_, g) =>
        Success(GeodesicValue(Geodesic(act(x.matrix, g.start), act(x.matrix, g.end))))
      case PointArgument(_, p) => Success(PointValue(act(x.matrix, p)))
  }

  /**
   * Application succeeds exactly on arguments of x's own domain, and then
   * agrees with the product x * arg.
   */
  lemma CallAgreesWithCompose(x: Isometry, arg: Argument, act: (Mat2, Point) -> Point)
    ensures Call(x, arg, act).Success? <==> ArgumentDomain(arg) == x.domain
    ensures ArgumentDomain(arg) != x.domain ==> Call(x, arg, act) == Failure(DomainMismatch)
    ensures arg.PointArgument? && arg.pointDomain == x.domain ==>
            Call(x, arg, act) == Compose(x, PointOperand(x.domain.name, arg.point), act)
    ensures arg.GeodesicArgument? && arg.geodesicDomain == x.domain ==>
            Call(x, arg, act) == Compose(x, GeodesicOperand(x.domain.name, arg.geodesic), act)
  {
  }

  // ---------------------------------------------------------------------
  // Powers and inverses
  // ---------------------------------------------------------------------

  /** x ** n: the isometry of the matrix power, in x's domain. */
  function Power(x: Isometry, n: int): Isometry
    requires n >= 0 || Det(x.matrix) != 0.0
  {
    Isometry(x.domain, Pow(x.matrix, n))
  }

  /** The inverse isometry, of the inverse matrix. */
  function Invert(x: Isometry): Isometry
    requires Det(x.matrix) != 0.0
  {
    Isometry(x.domain, Inverse(x.matrix))
  }

  /** x * x.inverse() is the identity of x's model, on either side. */
  lemma InvertCancels(x: Isometry, act: (Mat2, Point) -> Point)
    requires Det(x.matrix) != 0.0
    ensures Compose(x, IsometryOperand(Invert(x)), act) == Success(IsometryValue(Isometry(x.domain, Identity)))
    ensures Compose(Invert(x), IsometryOperand(x), act) == Success(IsometryValue(Isometry(x.domain, Identity)))
  {
  }

  /** x^i * x^j = x^(i + j) for natural exponents. */
  lemma PowerAdd(x: Isometry, i: nat, j: nat, act: (Mat2, Point) -> Point)
    ensures Compose(Power(x, i), IsometryOperand(Power(x, j)), act) == Success(IsometryValue(Power(x, i + j)))
  {
    assert Pow(x.matrix, i) == PowNat(x.matrix, i);
    assert Pow(x.matrix, j) == PowNat(x.matrix, j);
    assert Pow(x.matrix, i + j) == PowNat(x.matrix, i + j);
    PowNatAdd(x.matrix, i, j);
  }

  /** x^n * x^-n is the identity. */
  lemma PowerCancels(x: Isometry, n: nat, act: (Mat2, Point) -> Point)
    requires Det(x.matrix) != 0.0
    ensures Compose(Power(x, n), IsometryOperand(Power(x, -(n as int))), act)
            == Success(IsometryValue(Isometry(x.domain, Identity)))
  {
    PowNatInverse(x.matrix, n);
  }

  /** [[3, 1], [2, 1]] ** 3 = [[41, 15], [30, 11]]. */
  lemma PowerExample()
    ensures Power(Isometry(UHPModel, Mat2(3.0, 1.0, 2.0, 1.0)), 3) == Isometry(UHPModel, Mat2(41.0, 15.0, 30.0, 11.0))
  {
    PowExampleCube();
  }

  // ---------------------------------------------------------------------
  // Axis and fixed geodesic, on the upper half-plane matrix m
  // ---------------------------------------------------------------------

  /** The axis: the geodesic through the fixed points, for the two hyperbolic classes. */
  function Axis(m: Mat2, s: real, r: real, eig: (Vec2, Vec2)): Result<Geodesic, UHP.Error>
    requires UHP.IsRootAbsDet(m, s) && UHP.IsRootDisc(UHP.Normalize(m, s), r)
  {
    match UHP.Classify(m, s)
    case Failure(e) => Failure(e)
    case Success(k) =>
      if UHP.Tag(k) !in UHP.HyperbolicTags then Failure(UHP.AxisUndefined)
      else match UHP.FixedPointSet(m, s, r, eig)
        case Failure(e) => Failure(e)
        case Success(pts) =>
          if |pts| == 2 then Success(Geodesic(pts[0], pts[1])) else Failure(UHP.GeodesicArity)
  }

  /**
   * The axis exists exactly for the two hyperbolic classes. For a hyperbolic
   * isometry it joins two distinct boundary points that m fixes; for an
   * orientation-reversing one it joins the points its eigenvectors span.
   */
  lemma AxisGuard(m: Mat2, s: real, r: real, eig: (Vec2, Vec2))
    requires UHP.IsRootAbsDet(m, s) && UHP.IsRootDisc(UHP.Normalize(m, s), r)
    ensures Axis(m, s, r, eig).Success? <==>
            UHP.Classify(m, s) == Success(UHP.Hyperbolic)
            || UHP.Classify(m, s) == Success(UHP.OrientationReversingHyperbolic)
    ensures UHP.Classify(m, s).Success? && Axis(m, s, r, eig).Failure?
            ==> Axis(m, s, r, eig).error == UHP.AxisUndefined
    ensures UHP.Classify(m, s) == Success(UHP.Hyperbolic) ==>
            var g := Axis(m, s, r, eig).value;
            g.start != g.end && !g.start.Interior? && !g.end.Interior?
            && FixedBy(m, g.start) && FixedBy(m, g.end)
    ensures UHP.Classify(m, s) == Success(UHP.OrientationReversingHyperbolic) ==>
            Axis(m, s, r, eig) == Success(Geodesic(FromVector(eig.0), FromVector(eig.1)))
  {
    match UHP.Classify(m, s)
    case Failure(_) =>
    case Success(k) =>
      UHP.TagMembership(k);
      if k == UHP.Hyperbolic {
        UHP.FixedPointsHyperbolic(m, s, r, eig);
      }
  }

  /** The axis of diag(2, 1/2) runs from 0 to infinity. */
  lemma AxisExampleDiagonal(eig: (Vec2, Vec2))
    ensures UHP.IsRootAbsDet(Mat2(2.0, 0.0, 0.0, 0.5), 1.0)
    ensures UHP.IsRootDisc(UHP.Normalize(Mat2(2.0, 0.0, 0.0, 0.5), 1.0), 1.5)
    ensures Axis(Mat2(2.0, 0.0, 0.0, 0.5), 1.0, 1.5, eig) == Success(Geodesic(Ideal(0.0), Infinity))
  {
    UHP.FixedPointsExampleDiagonal(eig);
    AxisOfHyperbolic(Mat2(2.0, 0.0, 0.0, 0.5), 1.0, 1.5, eig);
  }

  lemma AxisOfHyperbolic(m: Mat2, s: real, r: real, eig: (Vec2, Vec2))
    requires UHP.IsRootAbsDet(m, s) && UHP.IsRootDisc(UHP.Normalize(m, s), r)
    requires UHP.Classify(m, s) == Success(UHP.Hyperbolic)
    ensures UHP.FixedPointSet(m, s, r, eig).Success? && |UHP.FixedPointSet(m, s, r, eig).value| == 2
    ensures Axis(m, s, r, eig)
            == Success(Geodesic(UHP.FixedPointSet(m, s, r, eig).value[0], UHP.FixedPointSet(m, s, r, eig).value[1]))
  {
    UHP.TagMembership(UHP.Hyperbolic);
    UHP.FixedPointsHyperbolic(m, s, r, eig);
  }

  /** The parabolic [[1, 4], [0, 1]] has no axis. */
  lemma AxisExampleParabolic(eig: (Vec2, Vec2))
    ensures UHP.IsRootAbsDet(Mat2(1.0, 4.0, 0.0, 1.0), 1.0)
    ensures UHP.IsRootDisc(UHP.Normalize(Mat2(1.0, 4.0, 0.0, 1.0), 1.0), 0.0)
    ensures Axis(Mat2(1.0, 4.0, 0.0, 1.0), 1.0, 0.0, eig) == Failure(UHP.AxisUndefined)
  {
    UHP.ClassifyExampleTranslation();
    AxisOfParabolic(Mat2(1.0, 4.0, 0.0, 1.0), 1.0, 0.0, eig);
  }

  lemma AxisOfParabolic(m: Mat2, s: real, r: real, eig: (Vec2, Vec2))
    requires UHP.IsRootAbsDet(m, s) && UHP.IsRootDisc(UHP.Normalize(m, s), r)
    requires UHP.Classify(m, s) == Success(UHP.Parabolic)
    ensures Axis(m, s, r, eig) == Failure(UHP.AxisUndefined)
  {
    AxisGuard(m, s, r, eig);
  }

  /** The geodesic a reflection fixes: the one through its two fixed points. */
  function FixedGeodesic(m: Mat2, s: real, r: real, eig: (Vec2, Vec2)): Result<Geodesic, UHP.Error>
    requires UHP.IsRootAbsDet(m, s) && UHP.IsRootDisc(UHP.Normalize(m, s), r)
  {
    match UHP.FixedPointSet(m, s, r, eig)
    case Failure(e) => Failure(e)
    case Success(fps) =>
      if |fps| < 2 then Failure(UHP.NoFixedGeodesic) else Success(Geodesic(fps[0], fps[1]))
  }

  /**
   * A fixed geodesic exists exactly for the hyperbolic, reflection and
   * orientation-reversing hyperbolic classes; elliptic and parabolic
   * isometries have a single fixed point.
   */
  lemma FixedGeodesicGuard(m: Mat2, s: real, r: real, eig: (Vec2, Vec2))
    requires UHP.IsRootAbsDet(m, s) && UHP.IsRootDisc(UHP.Normalize(m, s), r)
    ensures FixedGeodesic(m, s, r, eig).Success? <==>
            UHP.Classify(m, s).Success?
            && UHP.Classify(m, s).value in {UHP.Hyperbolic, UHP.Reflection, UHP.OrientationReversingHyperbolic}
    ensures UHP.Classify(m, s) == Success(UHP.Elliptic) || UHP.Classify(m, s) == Success(UHP.Parabolic)
            ==> FixedGeodesic(m, s, r, eig) == Failure(UHP.NoFixedGeodesic)
  {
    var c := UHP.Classify(m, s);
    if c == Success(UHP.Hyperbolic) {
      UHP.FixedPointsHyperbolic(m, s, r, eig);
    } else if c == Success(UHP.Elliptic) {
      UHP.FixedPointsElliptic(m, s, r, eig);
    } else if c == Success(UHP.Parabolic) {
      UHP.FixedPointsParabolic(m, s, r, eig);
    }
  }

  /** The reflection [[0, 1], [1, 0]] fixes the geodesic from 1 to -1. */
  lemma FixedGeodesicExample()
    ensures UHP.IsRootAbsDet(Mat2(0.0, 1.0, 1.0, 0.0), 1.0)
    ensures UHP.IsRootDisc(UHP.Normalize(Mat2(0.0, 1.0, 1.0, 0.0), 1.0), 2.0)
    ensures FixedGeodesic(Mat2(0.0, 1.0, 1.0, 0.0), 1.0, 2.0, (Vec2(1.0, 1.0), Vec2(1.0, -1.0)))
            == Success(Geodesic(Ideal(1.0), Ideal(-1.0)))
  {
    UHP.FixedPointsExampleSwap();
  }
}
