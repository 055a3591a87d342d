# Hyperbolic isometries of the upper half-plane, and the Lie algebra category contract

This project models two pieces of Sage in Dafny and proves properties of them.

The first is the isometry code of the hyperbolic plane. An isometry of the upper half-plane (UHP) is a real 2x2 matrix
[[a, b], [c, d]] acting on points by the Moebius map z -> (a z + b) / (c z + d), with z replaced by its complex
conjugate when det < 0 so that an orientation-reversing matrix also keeps the upper half-plane. The model covers:

- orientation;
- the classification into identity, elliptic, parabolic, hyperbolic, reflection and orientation-reversing hyperbolic,
  decided by trace bands of width EPSILON on the matrix normalised by the square root of |det|;
- the closed-form fixed points;
- the guards of the hyperbolic-only queries (translation length, repelling and attracting fixed points, axis) and of
  the fixed geodesic;
- the model-independent operations of an isometry: equality (up to sign in a projective model), composition with
  isometries, points and geodesics, application, powers and inverses.

The second is the logic-bearing part of the category of Lie algebras:

- the bracket with coercion;
- the abelian test over a finite generator list, and the commutative alias;
- the name of the category's objects;
- the rule that a finite dimensional Lie algebra over a finite ring is a finite set;
- the Jacobi and antisymmetry test loops;
- the lift morphism, built once per algebra and cached.

Files:

- `wrappers.dfy`: `Result` and `Option`.
- `matrix.dfy` (module `Matrix2`): real 2x2 matrices, with product, inverse, power and determinant laws.
- `boundary.dfy` (module `Boundary`): points of the closed upper half-plane, the action on them, the fixed-point
  equation, geodesics and the point an eigenvector spans.
- `isometry_uhp.dfy` (module `UHP`): `HyperbolicIsometryUHP`'s orientation, classification, fixed point set,
  translation length and repelling/attracting fixed points.
- `isometry.dfy` (module `Isometries`): `HyperbolicIsometry`'s `__eq__`, `__mul__`, `_call_`, `__pow__`, `inverse`,
  `axis` and `fixed_geodesic`.
- `lie_algebras.dfy` (module `LieAlgebras`): `LieAlgebras` and its `ParentMethods`; `lift` is a class with a cache field.

Arithmetic is exact (`real`), and EPSILON is the constant 10^-9. Every square root the code takes is a witness
parameter:

- `s` with `s > 0` and `s * s == |det m|`;
- `r` with `r >= 0` and `r * r == |tr(N)^2 - 4|`, where N is the normalised matrix.

The eigenvectors the host library computes are vector parameters as well. The host library's `abs` of a matrix
used by `__eq__` is abstracted by a predicate `close`. How a model moves a point is a parameter `act`; in the upper
half-plane it is `Boundary.Apply`. A Lie algebra's addition, zero and `_bracket_` are uninterpreted functions.

## Model

Paths are relative to the repository root.

| member | source | states |
|---|---|---|
| Matrix2.Inverse | src/sage/geometry/hyperbolic_space/hyperbolic_isometry.py:289-301 | the inverse of an invertible matrix cancels it on both sides: m r = r m = I |
| Matrix2.Pow | src/sage/geometry/hyperbolic_space/hyperbolic_isometry.py:178-189 | `M**n` needs an invertible matrix for a negative n; the exponents 0, 1 and -1 give I, m and the inverse |
| Matrix2.MulAssoc | src/sage/geometry/hyperbolic_space/hyperbolic_isometry.py:224-225 | the matrix product behind composition is associative |
| Matrix2.DetMul | src/sage/geometry/hyperbolic_space/hyperbolic_isometry.py:224-225 | det(x y) = det x det y, so a product of invertible matrices stays invertible |
| Matrix2.PowNatAdd | src/sage/geometry/hyperbolic_space/hyperbolic_isometry.py:178-189 | m^(i+j) = m^i m^j, by induction on i |
| Matrix2.PowNatInverse | src/sage/geometry/hyperbolic_space/hyperbolic_isometry.py:178-189 | m^k (m^-1)^k = I for an invertible m, by induction on k |
| Matrix2.DetPowNat | src/sage/geometry/hyperbolic_space/hyperbolic_isometry.py:178-189 | a power of an invertible matrix is invertible, and a positive determinant stays positive |
| Matrix2.PowExampleCube | src/sage/geometry/hyperbolic_space/hyperbolic_isometry.py:183-188 | [[3, 1], [2, 1]]^3 = [[41, 15], [30, 11]] |
| Boundary.Apply | src/sage/geometry/hyperbolic_space/hyperbolic_isometry.py:257-264 | how an isometry moves a point of the upper half-plane: z -> (a w + b) / (c w + d) with w = z when det > 0 and w = conj(z) when det < 0, a vanishing denominator giving infinity; infinity goes to a / c, or stays when c = 0 |
| Boundary.ApplyKeepsUpperHalfPlane | src/sage/geometry/hyperbolic_space/hyperbolic_isometry.py:257-264 | for an invertible m the image of an interior point is an interior point with positive imaginary part, for either orientation |
| Boundary.ApplyExampleReflection | src/sage/geometry/hyperbolic_space/hyperbolic_isometry.py:257-264 | the reflection [[-1, 0], [0, 1]] acts as z -> -conj(z): it fixes i and sends 1 + i to -1 + i |
| Boundary.FixedByIffApply | src/sage/geometry/hyperbolic_space/hyperbolic_isometry.py:770-777 | for an invertible m, a point p solves a w + b = p (c w + d), w being p or its conjugate when det < 0 (c = 0 for infinity), exactly when the action sends it to itself |
| Boundary.FixedByScale | src/sage/geometry/hyperbolic_space/hyperbolic_isometry.py:784-785 | dividing the matrix by a nonzero scalar does not change which points it fixes |
| Boundary.EigenvectorPointFixed | src/sage/geometry/hyperbolic_space/hyperbolic_isometry.py:848-851 | the point an eigenvector (p, q) spans (infinity when q = 0, else p / q) is fixed by the matrix |
| UHP.OrientationPreserving | src/sage/geometry/hyperbolic_space/hyperbolic_isometry.py:659-674 | an isometry preserves orientation exactly when its determinant is positive (its classes are tied to this by `UHP.ClassifyOrientation`) |
| UHP.Classify | src/sage/geometry/hyperbolic_space/hyperbolic_isometry.py:676-731 | the class of m from N = m / sqrt(\|det m\|) and tau = \|tr N\|: for det > 0, identity within squared distance EPSILON of I, then elliptic, parabolic and hyperbolic for tau - 2 below -EPSILON, strictly inside (-EPSILON, EPSILON) and above EPSILON, and the ValueError on the two band edges; for det < 0, reflection when tau < EPSILON and orientation-reversing hyperbolic otherwise (its meaning is proved by the `UHP.Classify*` lemmas below) |
| UHP.NormalizedDet | src/sage/geometry/hyperbolic_space/hyperbolic_isometry.py:707-708 | the normalised matrix has determinant +1 or -1, with the sign of det m |
| UHP.RootUnique | src/sage/geometry/hyperbolic_space/hyperbolic_isometry.py:708 | the square-root witness of \|det m\| is unique, so classification does not depend on it |
| UHP.ClassifyOrientation | src/sage/geometry/hyperbolic_space/hyperbolic_isometry.py:674 | identity, elliptic, parabolic and hyperbolic only occur for det > 0; reflection and orientation-reversing hyperbolic occur exactly when det > 0 fails |
| UHP.ClassifyIdentity | src/sage/geometry/hyperbolic_space/hyperbolic_isometry.py:711-717 | classification gives the identity exactly when det m > 0 and the normalised matrix is within squared distance EPSILON of I |
| UHP.ClassifyPreservingBands | src/sage/geometry/hyperbolic_space/hyperbolic_isometry.py:711-726 | with det > 0 and N not within EPSILON of I: elliptic iff tau < 2 - EPSILON; parabolic iff 2 - EPSILON < tau < 2 + EPSILON; hyperbolic iff tau > 2 + EPSILON; failure iff tau = 2 +- EPSILON |
| UHP.ClassifyFailureIsGap | src/sage/geometry/hyperbolic_space/hyperbolic_isometry.py:711-726 | classification raises exactly on an orientation-preserving, non-identity matrix with tau on a band edge, and then with the ValueError |
| UHP.ClassifyReversing | src/sage/geometry/hyperbolic_space/hyperbolic_isometry.py:727-731 | with det < 0 classification never raises: reflection iff tau < EPSILON, orientation-reversing hyperbolic otherwise |
| UHP.ClassificationGapWitness | src/sage/geometry/hyperbolic_space/hyperbolic_isometry.py:719-726 | the gap is reachable: [[2 + EPSILON, -1], [1, 0]] has det 1, trace 2 + EPSILON, and makes classification raise |
| UHP.ClassifyScaleInvariant | src/sage/geometry/hyperbolic_space/hyperbolic_isometry.py:707-709 | multiplying the matrix by a positive scalar does not change its class |
| UHP.ClassifyExampleScalarIdentity | src/sage/geometry/hyperbolic_space/hyperbolic_isometry.py:692-693 | 4 I is classified as the identity |
| UHP.ClassifyExampleMinusIdentity | src/sage/geometry/hyperbolic_space/hyperbolic_isometry.py:711-721 | -I fails the identity test (squared distance 8 from I) and falls in the parabolic band |
| UHP.ClassifyExampleDiagonal | src/sage/geometry/hyperbolic_space/hyperbolic_isometry.py:695-696 | diag(2, 1/2) is hyperbolic |
| UHP.ClassifyExampleTraceSix | src/sage/geometry/hyperbolic_space/hyperbolic_isometry.py:698-699 | [[0, 3], [-1/3, 6]] is hyperbolic |
| UHP.ClassifyExampleShear | src/sage/geometry/hyperbolic_space/hyperbolic_isometry.py:701-702 | [[1, 1], [0, 1]] is parabolic |
| UHP.ClassifyExampleReflection | src/sage/geometry/hyperbolic_space/hyperbolic_isometry.py:704-705 | [[-1, 0], [0, 1]] is a reflection |
| UHP.ClassifyExampleTranslation | src/sage/geometry/hyperbolic_space/hyperbolic_isometry.py:507-511 | [[1, 4], [0, 1]] is parabolic, with tr^2 - 4 = 0 |
| UHP.ClassifyExampleDilation | src/sage/geometry/hyperbolic_space/hyperbolic_isometry.py:840-841 | diag(4, 1/4) is hyperbolic |
| UHP.SquareBand | src/sage/geometry/hyperbolic_space/hyperbolic_isometry.py:797-803 | \|tr\| > 2 makes tr^2 - 4 positive (real roots) and \|tr\| < 2 makes it negative (the elliptic square root is imaginary) |
| UHP.Discriminant | src/sage/geometry/hyperbolic_space/hyperbolic_isometry.py:800-805 | with det 1, tr^2 - 4 is the discriminant (a - d)^2 + 4 b c of c p^2 + (d - a) p - b = 0 |
| UHP.UpperTriangularTrace | src/sage/geometry/hyperbolic_space/hyperbolic_isometry.py:806-809 | with det 1 and c = 0, tr^2 >= 4, with equality when a = d |
| UHP.QuadraticRoot | src/sage/geometry/hyperbolic_space/hyperbolic_isometry.py:801-805 | (a - d +- sqrt(tr^2 - 4)) / 2c solves the fixed-point equation |
| UHP.EllipticRoot | src/sage/geometry/hyperbolic_space/hyperbolic_isometry.py:797-799 | the elliptic point (a - d + sign(c) i sqrt(4 - tr^2)) / 2c solves the fixed-point equation and lies strictly inside the half-plane |
| UHP.FixedByNormalized | src/sage/geometry/hyperbolic_space/hyperbolic_isometry.py:784-785 | a point is fixed by the normalised matrix exactly when it is fixed by m |
| UHP.FixedPointSet | src/sage/geometry/hyperbolic_space/hyperbolic_isometry.py:759-827 | the ValueError for the identity; for a parabolic N, [infinity] when \|c\| < EPSILON and [(a - d) / 2c] otherwise; for an elliptic N the interior root; for a hyperbolic N the two closed-form roots when c != 0 and [b / (d - a), infinity] when c = 0; for the reversing classes the points the eigenvectors span (its properties are the `UHP.FixedPoints*` lemmas) |
| UHP.FixedPointsHyperbolic | src/sage/geometry/hyperbolic_space/hyperbolic_isometry.py:800-809 | a hyperbolic isometry gets two distinct boundary points, both fixed by m, and the zero denominator b / (d - a) cannot occur |
| UHP.HyperbolicTwoRoots | src/sage/geometry/hyperbolic_space/hyperbolic_isometry.py:801-805 | for c != 0 the two closed-form points differ and are fixed by m |
| UHP.HyperbolicFixesInfinity | src/sage/geometry/hyperbolic_space/hyperbolic_isometry.py:806-809 | for c = 0, d != a, and both b / (d - a) and infinity are fixed by m |
| UHP.FixedPointsElliptic | src/sage/geometry/hyperbolic_space/hyperbolic_isometry.py:797-799 | an elliptic isometry gets one interior point, fixed by m, and c = 0 cannot occur |
| UHP.FixedPointsParabolic | src/sage/geometry/hyperbolic_space/hyperbolic_isometry.py:791-796 | a parabolic isometry gets one point: [infinity] when \|c\| < EPSILON, [(a - d) / 2c] otherwise; infinity is fixed when c = 0, and (a - d) / 2c is a fixed boundary point when tau = 2 exactly |
| UHP.ParabolicToleranceExample | src/sage/geometry/hyperbolic_space/hyperbolic_isometry.py:792-793 | the EPSILON test on c is only a tolerance: [[2, -2/EPSILON], [EPSILON/2, 0]] is parabolic, gets [infinity], and does not fix infinity |
| UHP.FixedPointsReversing | src/sage/geometry/hyperbolic_space/hyperbolic_isometry.py:810-827 | for det < 0 the points are those the eigenvectors of N span, and each is fixed by m |
| UHP.FixedPointSetFailure | src/sage/geometry/hyperbolic_space/hyperbolic_isometry.py:787-790 | the query fails exactly when classification fails or gives the identity, and the identity gives the ValueError about the entire plane |
| UHP.FixedPointsUpperTriangular | src/sage/geometry/hyperbolic_space/hyperbolic_isometry.py:806-809 | a hyperbolic matrix with c = 0 gets [b / (d - a), infinity] |
| UHP.FixedPointsDiagonal | src/sage/geometry/hyperbolic_space/hyperbolic_isometry.py:806-809 | a hyperbolic diagonal matrix gets [0, infinity] |
| UHP.FixedPointsExampleDiagonal | src/sage/geometry/hyperbolic_space/hyperbolic_isometry.py:500-502 | diag(2, 1/2) is hyperbolic and gets [0, infinity] |
| UHP.FixedPointsExampleSwap | src/sage/geometry/hyperbolic_space/hyperbolic_isometry.py:536-540 | [[0, 1], [1, 0]] gets [1, -1] from its eigenvectors |
| UHP.TranslationLengthAsWritten | src/sage/geometry/hyperbolic_space/hyperbolic_isometry.py:733-757 | translation_length as written: 2 arccosh(tau / 2) when the class's tag is in the misspelled list, the TypeError otherwise, a classification failure propagating |
| UHP.TranslationLength | src/sage/geometry/hyperbolic_space/hyperbolic_isometry.py:733-757 | translation_length corrected: 2 arccosh(tau / 2) for a hyperbolic isometry, 2 arcsinh(tau / 2) for an orientation-reversing hyperbolic one, the TypeError for the other classes (stated by `UHP.TranslationLengthGuard` and `UHP.TranslationLengthGlide`) |
| UHP.TagMembership | src/sage/geometry/hyperbolic_space/hyperbolic_isometry.py:755 | the correctly spelled tag list admits exactly the two hyperbolic classes; the misspelled list admits only `hyperbolic` |
| UHP.TranslationLengthAsWrittenGuard | src/sage/geometry/hyperbolic_space/hyperbolic_isometry.py:753-757 | as written, translation_length answers exactly for `hyperbolic` and raises the TypeError for orientation-reversing hyperbolic |
| UHP.TranslationLengthGuard | src/sage/geometry/hyperbolic_space/hyperbolic_isometry.py:753-757 | corrected, it answers exactly for the two hyperbolic classes, with 2 arccosh(tau / 2) for a hyperbolic and 2 arcsinh(tau / 2) for an orientation-reversing hyperbolic isometry; a classification failure propagates; otherwise it raises the TypeError |
| UHP.TranslationLengthHyperbolic | src/sage/geometry/hyperbolic_space/hyperbolic_isometry.py:753-756 | for a hyperbolic isometry the arccosh argument exceeds 1, and both versions agree |
| UHP.GlideSquare | src/sage/geometry/hyperbolic_space/hyperbolic_isometry.py:733-757 | a normalised matrix n with det -1 and \|tr n\| = tau squares to a det-1 matrix of trace tau^2 + 2, whose arccosh argument is 1 + 2 (tau / 2)^2 = cosh(2 arcsinh(tau / 2)) |
| UHP.TranslationLengthGlide | src/sage/geometry/hyperbolic_space/hyperbolic_isometry.py:733-757 | for an orientation-reversing hyperbolic isometry the corrected length is 2 arcsinh(x) with x = tau / 2 > 0, and the square of its normalisation is a translation of arccosh argument 1 + 2 x^2, that is twice as long |
| UHP.TranslationLengthExample | src/sage/geometry/hyperbolic_space/hyperbolic_isometry.py:741-742 | diag(2, 1/2) has translation length 2 arccosh(5/4) |
| UHP.TranslationLengthMisspelledTag | src/sage/geometry/hyperbolic_space/hyperbolic_isometry.py:755 | diag(3, -1/3) is orientation-reversing hyperbolic; it is refused as written and gets 2 arcsinh(4/3) = ln 9 once corrected |
| UHP.RepellingFixedPoint | src/sage/geometry/hyperbolic_space/hyperbolic_isometry.py:829-851 | for the two hyperbolic classes, the point the given repelling eigenvector spans (infinity when its second entry is 0); the ValueError otherwise, a classification failure propagating |
| UHP.AttractingFixedPoint | src/sage/geometry/hyperbolic_space/hyperbolic_isometry.py:853-875 | the same with the attracting eigenvector |
| UHP.RepellingFixedPointGuard | src/sage/geometry/hyperbolic_space/hyperbolic_isometry.py:844-851 | the repelling point exists exactly for the two hyperbolic classes, raises the ValueError otherwise, and an eigenvector gives a point m fixes |
| UHP.AttractingFixedPointGuard | src/sage/geometry/hyperbolic_space/hyperbolic_isometry.py:868-875 | the same for the attracting point |
| UHP.HyperbolicEndpoints | src/sage/geometry/hyperbolic_space/hyperbolic_isometry.py:844-851 | for a hyperbolic isometry both queries answer with the point the given eigenvector spans |
| UHP.RepellingFixedPointExample | src/sage/geometry/hyperbolic_space/hyperbolic_isometry.py:840-842 | diag(4, 1/4) repels from 0, spanned by its eigenvector (0, 1) |
| UHP.AttractingFixedPointExample | src/sage/geometry/hyperbolic_space/hyperbolic_isometry.py:864-866 | diag(4, 1/4) attracts to infinity, spanned by its eigenvector (1, 0) |
| Isometries.Equal | src/sage/geometry/hyperbolic_space/hyperbolic_isometry.py:159-176 | x == y for two isometries: false for a different domain; in a projective model, the matrices are close up to sign; otherwise they are close (its properties are the `Isometries.Equal*` lemmas) |
| Isometries.EqualReflexive | src/sage/geometry/hyperbolic_space/hyperbolic_isometry.py:171-176 | every isometry equals itself when the closeness test accepts the zero matrix |
| Isometries.EqualNegated | src/sage/geometry/hyperbolic_space/hyperbolic_isometry.py:172-174 | in a projective model M and -M are equal |
| Isometries.NotEqualNegatedNonProjective | src/sage/geometry/hyperbolic_space/hyperbolic_isometry.py:175-176 | in a non-projective model with an exact closeness test, a nonzero M differs from -M |
| Isometries.EqualNeedsSameDomain | src/sage/geometry/hyperbolic_space/hyperbolic_isometry.py:173-176 | isometries of different 2x2 models are never equal |
| Isometries.EqualSymmetric | src/sage/geometry/hyperbolic_space/hyperbolic_isometry.py:171-176 | equality is symmetric when the closeness test does not see the sign |
| Isometries.EqualExampleMinusIdentity | src/sage/geometry/hyperbolic_space/hyperbolic_isometry.py:166-169 | I and -I are equal isometries of the upper half-plane |
| Isometries.ComposeAsWritten | src/sage/geometry/hyperbolic_space/hyperbolic_isometry.py:191-233 | x * other as written: the AttributeError without a model name, the TypeError across models, the matrix product for an isometry, the moved point or geodesic, and None for any other operand |
| Isometries.Compose | src/sage/geometry/hyperbolic_space/hyperbolic_isometry.py:191-233 | x * other with the NotImplementedError raised for an unsupported operand, otherwise as written (stated by `Isometries.ComposeContract`) |
| Isometries.ComposeContract | src/sage/geometry/hyperbolic_space/hyperbolic_isometry.py:221-233 | a product exists exactly between operands of the same model that are isometries, points or geodesics; a name mismatch raises the TypeError; two isometries give the matrix product in the left operand's domain; the result is never None |
| Isometries.ComposeAsWrittenDiffers | src/sage/geometry/hyperbolic_space/hyperbolic_isometry.py:231-233 | as written, an unsupported operand of the same model yields None instead of the NotImplementedError; the two versions agree on every other operand |
| Isometries.ComposeAssociative | src/sage/geometry/hyperbolic_space/hyperbolic_isometry.py:224-225 | composing isometries of one model is associative |
| Isometries.ComposeExampleIsometries | src/sage/geometry/hyperbolic_space/hyperbolic_isometry.py:196-201 | B * A = [[16, 8], [7, 6]] |
| Isometries.ComposeExamplePoint | src/sage/geometry/hyperbolic_space/hyperbolic_isometry.py:202-205 | A * (2 + i) = 53/17 + 8/17 i |
| Isometries.ComposeExampleGeodesic | src/sage/geometry/hyperbolic_space/hyperbolic_isometry.py:207-209 | A moves the geodesic from 2 + i to 4 + i to the one from 53/17 + 8/17 i to 137/37 + 8/37 i |
| Isometries.Call | src/sage/geometry/hyperbolic_space/hyperbolic_isometry.py:235-264 | x(arg): the TypeError outside x's domain, the moved point, or the geodesic between the moved end points |
| Isometries.CallAgreesWithCompose | src/sage/geometry/hyperbolic_space/hyperbolic_isometry.py:257-264 | application succeeds exactly on arguments of the isometry's own domain, raises the TypeError otherwise, and agrees with the product |
| Isometries.Invert | src/sage/geometry/hyperbolic_space/hyperbolic_isometry.py:289-301 | the isometry of the inverse matrix, in the same domain |
| Isometries.InvertCancels | src/sage/geometry/hyperbolic_space/hyperbolic_isometry.py:296-301 | x * x.inverse() and x.inverse() * x are the identity isometry of x's model |
| Isometries.Power | src/sage/geometry/hyperbolic_space/hyperbolic_isometry.py:178-189 | x ** n: the isometry of the matrix power in x's domain, a negative n needing an invertible matrix |
| Isometries.PowerAdd | src/sage/geometry/hyperbolic_space/hyperbolic_isometry.py:178-189 | x^i * x^j = x^(i + j) |
| Isometries.PowerCancels | src/sage/geometry/hyperbolic_space/hyperbolic_isometry.py:178-189 | x^n * x^-n is the identity for an invertible x |
| Isometries.PowerExample | src/sage/geometry/hyperbolic_space/hyperbolic_isometry.py:183-188 | A**3 = [[41, 15], [30, 11]] for A = [[3, 1], [2, 1]] |
| Isometries.Axis | src/sage/geometry/hyperbolic_space/hyperbolic_isometry.py:492-516 | the geodesic through the two fixed points for the two hyperbolic classes, the ValueError otherwise |
| Isometries.AxisGuard | src/sage/geometry/hyperbolic_space/hyperbolic_isometry.py:513-516 | the axis exists exactly for the two hyperbolic classes, raises the ValueError otherwise; for a hyperbolic isometry it joins two distinct boundary points m fixes |
| Isometries.AxisOfHyperbolic | src/sage/geometry/hyperbolic_space/hyperbolic_isometry.py:513-516 | for a hyperbolic isometry the fixed point set has two points and the axis is the geodesic through them |
| Isometries.AxisOfParabolic | src/sage/geometry/hyperbolic_space/hyperbolic_isometry.py:513-515 | a parabolic isometry has no axis |
| Isometries.AxisExampleDiagonal | src/sage/geometry/hyperbolic_space/hyperbolic_isometry.py:500-502 | the axis of diag(2, 1/2) runs from 0 to infinity |
| Isometries.AxisExampleParabolic | src/sage/geometry/hyperbolic_space/hyperbolic_isometry.py:507-511 | [[1, 4], [0, 1]] raises the axis ValueError |
| Isometries.FixedGeodesic | src/sage/geometry/hyperbolic_space/hyperbolic_isometry.py:555-572 | the geodesic through the first two fixed points, the ValueError when there are fewer than two |
| Isometries.FixedGeodesicGuard | src/sage/geometry/hyperbolic_space/hyperbolic_isometry.py:565-570 | a fixed geodesic exists exactly for the hyperbolic, reflection and orientation-reversing hyperbolic classes; elliptic and parabolic isometries raise the ValueError |
| Isometries.FixedGeodesicExample | src/sage/geometry/hyperbolic_space/hyperbolic_isometry.py:561-563 | [[0, 1], [1, 0]] fixes the geodesic from 1 to -1 |
| LieAlgebras.Bracket | src/sage/categories/lie_algebras.py:188-204 | [lhs, rhs] is `_bracket_` applied to the two arguments after coercing both into the algebra |
| LieAlgebras.BracketWithZero | src/sage/categories/lie_algebras.py:197-204 | for a biadditive bracket, bracketing with something that coerces to 0 gives 0 on either side |
| LieAlgebras.ZeroBracketLeft | src/sage/categories/lie_algebras.py:201-202 | [0, c] = 0 from additivity in the first argument |
| LieAlgebras.ZeroBracketRight | src/sage/categories/lie_algebras.py:199-200 | [c, 0] = 0 from additivity in the second argument |
| LieAlgebras.RowBracketsZeroIff | src/sage/categories/lie_algebras.py:426 | the recursive row check holds iff every [x, y] with y in the row is zero |
| LieAlgebras.AllBracketsZeroIff | src/sage/categories/lie_algebras.py:426 | the recursive table check holds iff every [x, y] with x, y drawn from the two lists is zero |
| LieAlgebras.IsAbelian | src/sage/categories/lie_algebras.py:396-426 | the NotImplementedError without a finite generator list, otherwise whether every bracket of two generators is zero, checked row by row |
| LieAlgebras.IsAbelianIff | src/sage/categories/lie_algebras.py:422-426 | is_abelian answers for finite generators only, raises the NotImplementedError otherwise, and is true iff every ordered pair of generators, x = y included, brackets to zero |
| LieAlgebras.IsCommutative | src/sage/categories/lie_algebras.py:445 | is_commutative answers exactly when is_abelian does, with its NotImplementedError for infinite generators and the same all-pairs meaning |
| LieAlgebras.IsAbelianSingleGenerator | src/sage/categories/lie_algebras.py:426 | a single generator x is abelian iff [x, x] = 0 |
| LieAlgebras.Subalgebra | src/sage/categories/lie_algebras.py:379 | every subalgebra request raises the NotImplementedError |
| LieAlgebras.JoinLength | src/sage/categories/lie_algebras.py:116 | the joined string holds every part and one separator between each two |
| LieAlgebras.JoinStartsWithFirst | src/sage/categories/lie_algebras.py:116 | the joined string starts with the first part |
| LieAlgebras.ReprObjectNames | src/sage/categories/lie_algebras.py:113-121 | the name is "Lie algebras over " followed by the base's name, and a join's name is parenthesised |
| LieAlgebras.ReprObjectNamesJoin | src/sage/categories/lie_algebras.py:115-116 | over a join of n >= 1 categories the name has length \|prefix\| + 2 + the parts' lengths + 5 (n - 1), and the first part follows the opening parenthesis |
| LieAlgebras.ReprObjectNamesJoinExample | src/sage/categories/lie_algebras.py:110-111 | a join of flying unital blahs and fields is named "Lie algebras over (flying unital blahs and fields)" |
| LieAlgebras.ReprObjectNamesRingExample | src/sage/categories/lie_algebras.py:104-105 | over the rational field the name is "Lie algebras over Rational Field" |
| LieAlgebras.ExtraSuperCategories | src/sage/categories/lie_algebras.py:175-177 | [finite sets] iff the base ring is finite, [] iff it is not |
| LieAlgebras.TestJacobiIdentity | src/sage/categories/lie_algebras.py:499-508 | the triple loop, which skips x = y and stops at the first failing assertion, passes iff the cyclic Jacobi sum vanishes for every triple with x != y |
| LieAlgebras.TestAntisymmetry | src/sage/categories/lie_algebras.py:537-540 | the loop passes iff [x, x] = 0 for every element |
| LieAlgebras.AbelianGeneratorsAntisymmetric | src/sage/categories/lie_algebras.py:426 | generators that pass the abelian test also pass the antisymmetry test |
| LieAlgebras.AbelianElementsJacobi | src/sage/categories/lie_algebras.py:499-508 | elements whose brackets all vanish pass the Jacobi test when the bracket is biadditive |
| LieAlgebras.JacobiOfVanishingBrackets | src/sage/categories/lie_algebras.py:499-501 | the cyclic Jacobi sum is zero when the three inner brackets are |
| LieAlgebras.LieAlgebraParent.constructor | src/sage/categories/lie_algebras.py:331-332 | a new algebra has built no lift and registered no coercion |
| LieAlgebras.LieAlgebraParent.Lift | src/sage/categories/lie_algebras.py:331-353 | the first access builds the lift to the enveloping algebra and registers it as a coercion; later accesses return the same morphism and register nothing |

## Left out

- The Klein, hyperboloid and Poincare disk models (3x3 matrices and empty subclasses), `to_model` and
  `_cached_matrix`: they delegate to conversion code that is not part of this model. Every matrix here is a UHP
  matrix.
- The base-class `classification`, `orientation_preserving` and `fixed_point_set`: they delegate to method classes
  that are not part of this model. The UHP versions stand in for them, and `axis` and `fixed_geodesic` use the UHP
  fixed point set.
- `isometry_test`, the validity check at construction. Matrices are arbitrary; the operations that need an
  invertible matrix (inverse, negative powers, classification through the witness s) require it.
- The floating-point conversion `.n()` in classification and the RDF retry of the eigenvector path: arithmetic is
  exact.
- EPSILON's value, which lives in `hyperbolic_constants.py` (not part of this model). 10^-9 is used; the proofs need
  only a small positive constant.
- `sqrt`, `sign`, `arccosh` and the host library's eigenvectors. Square roots and eigenvectors are parameters. The
  translation length is the symbolic value `TwoArccosh(tau / 2)` or `TwoArcsinh(tau / 2)`.
- UHP.TranslationLength: does not prove that the symbolic lengths are the distances points move along the axis,
  because arccosh, arcsinh and the hyperbolic distance are not modelled; `UHP.TranslationLengthGlide` relates the
  arcsinh form of a glide reflection to the arccosh form of its square.
- `isometry_act_on_point` and the Moebius transform it calls, which the point action of `_call_` and `__mul__`
  delegates to, are not part of this model. `Boundary.Apply` is the standard upper-half-plane action, which
  conjugates z when det < 0.
- UHP.RepellingFixedPointGuard: does not say which eigenvector column is repelling and which is attracting; the
  column comes from the host library's eigenmatrix and is a parameter, so only the guard and fixedness are stated.
- UHP.AttractingFixedPointGuard: does not say which column is attracting, for the same reason.
- The filter `imag(k) >= 0` at the end of the eigenvector path: points spanned by real eigenvectors are on the
  boundary, so it keeps both.
- `__mul__` and `inverse` read `self._model`, which the shown code never assigns. The model uses the isometry's
  domain. Python's `is` on models is value equality of the model descriptor.
- `__eq__` with an operand that is not an isometry, or with a 3x3 isometry: the source subtracts the matrices
  before any test and raises; `Isometries.Equal` compares two isometries of the 2x2 models kept here.
- The host library's `abs` of a matrix in `__eq__` is the abstract predicate `close`. Lemmas assume of it only what they name
  (it accepts the zero matrix, or ignores the sign).
- The docstring check `A * A.inverse() == identity` for [[4, 1], [3, 2]] is covered by the general
  `Isometries.InvertCancels` rather than a worked example.
- `isometry_from_fixed_points`, `_repr_`, `_latex_` and the plotting options: they delegate to code not modelled or
  only render.
- The Lie-algebra category wiring (`super_categories`, lazy imports, `coerce_binop`, Hom and morphism classes,
  `register_as_coercion` beyond recording the morphism), `example()`, the abstract and optional methods, and
  `_test_distributivity` with its sampling helper.
- The `tester` object and `some_elements`: the element list is a parameter. A failing assertion is a `false` result
  of the test method.
- The Jacobi and antisymmetry loops call `bracket`, which coerces; the elements already belong to the algebra, so
  the model brackets them directly.

## Findings

| source | as written | input that shows it | evidently intended | confidence | as-written member | corrected member |
|---|---|---|---|---|---|---|
| src/sage/geometry/hyperbolic_space/hyperbolic_isometry.py:755 | the allowed tag is spelled 'oriention-reversing hyperbolic', which classification never returns, so an orientation-reversing hyperbolic isometry gets the TypeError | [[3, 0], [0, -1/3]]: det -1, tau 8/3, classified orientation-reversing hyperbolic | accept 'orientation-reversing hyperbolic', as `axis` and the repelling/attracting queries do, and return that class's length 2 arcsinh(tau / 2), here 2 arcsinh(4/3) = ln 9 (the formula 2 arccosh(tau / 2) on line 756 is the length only when det > 0) | not executed | UHP.TranslationLengthAsWritten, UHP.TranslationLengthMisspelledTag | UHP.TranslationLength, UHP.TranslationLengthGuard, UHP.TranslationLengthGlide |
| src/sage/geometry/hyperbolic_space/hyperbolic_isometry.py:231-233 | the NotImplementedError is constructed but not raised, so a product with an unsupported operand of the same model returns None | any operand of the same model that is not an isometry, point or geodesic | raise the NotImplementedError | not executed | Isometries.ComposeAsWritten, Isometries.ComposeAsWrittenDiffers | Isometries.Compose, Isometries.ComposeContract |
