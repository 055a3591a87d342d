/**
 * Real 2x2 matrices [[a, b], [c, d]]: the matrices of the upper half-plane
 * model, with the arithmetic the isometry code uses (product, power,
 * inverse, scaling, sum and difference).
 */
module Matrix2 {

  datatype Mat2 = Mat2(a: real, b: real, c: real, d: real)

  const Identity: Mat2 := Mat2(1.0, 0.0, 0.0, 1.0)
  const Zero: Mat2 := Mat2(0.0, 0.0, 0.0, 0.0)

  function Det(m: Mat2): real { m.a * m.d - m.b * m.c }

  function Trace(m: Mat2): real { m.a + m.d }

  function Abs(x: real): (r: real)
    ensures r >= 0.0 && (r == x || r == -x)
  {
    if x < 0.0 then -x else x
  }

  function Mul(x: Mat2, y: Mat2): Mat2 {
    Mat2(x.a * y.a + x.b * y.c, x.a * y.b + x.b * y.d,
         x.c * y.a + x.d * y.c, x.c * y.b + x.d * y.d)
  }

  function Add(x: Mat2, y: Mat2): Mat2 { Mat2(x.a + y.a, x.b + y.b, x.c + y.c, x.d + y.d) }

  function Sub(x: Mat2, y: Mat2): Mat2 { Mat2(x.a - y.a, x.b - y.b, x.c - y.c, x.d - y.d) }

  function Neg(x: Mat2): Mat2 { Mat2(-x.a, -x.b, -x.c, -x.d) }

  /** Every entry multiplied by k. */
  function Scale(x: Mat2, k: real): Mat2 { Mat2(k * x.a, k * x.b, k * x.c, k * x.d) }

  /** The matrix inverse; the host library refuses a singular matrix. */
  function Inverse(m: Mat2): (r: Mat2)
    requires Det(m) != 0.0
    ensures Mul(m, r) == Identity && Mul(r, m) == Identity
  {
    var k := 1.0 / Det(m);
    MulInverseEntries(m, k);
    Mat2(k * m.d, -k * m.b, -k * m.c, k * m.a)
  }

  lemma MulInverseEntries(m: Mat2, k: real)
    requires k * Det(m) == 1.0
    ensures Mul(m, Mat2(k * m.d, -k * m.b, -k * m.c, k * m.a)) == Identity
    ensures Mul(Mat2(k * m.d, -k * m.b, -k * m.c, k * m.a), m) == Identity
  {
    assert m.a * (k * m.d) + m.b * (-k * m.c) == k * Det(m);
    assert m.c * (-k * m.b) + m.d * (k * m.a) == k * Det(m);
    assert (k * m.d) * m.a + (-k * m.b) * m.c == k * Det(m);
    assert (-k * m.c) * m.b + (k * m.a) * m.d == k * Det(m);
  }

  /** m^n for a natural exponent n. */
  function PowNat(m: Mat2, n: nat): Mat2
  {
    if n == 0 then Identity else Mul(m, PowNat(m, n - 1))
  }

  /** m^n as the host library computes `M**n`: a negative exponent powers the inverse. */
  function Pow(m: Mat2, n: int): (r: Mat2)
    requires n >= 0 || Det(m) != 0.0
    ensures n == 0 ==> r == Identity
    ensures n == 1 ==> r == m
    ensures n == -1 ==> r == Inverse(m)
  {
    if n >= 0 then
      MulIdentity(m);
      assert n == 1 ==> PowNat(m, n) == Mul(m, PowNat(m, 0));
      PowNat(m, n)
    else
      MulIdentity(Inverse(m));
      assert n == -1 ==> PowNat(Inverse(m), -n) == Mul(Inverse(m), PowNat(Inverse(m), 0));
      PowNat(Inverse(m), -n)
  }

  lemma MulIdentity(m: Mat2)
    ensures Mul(m, Identity) == m && Mul(Identity, m) == m
  {
  }

  lemma MulAssoc(x: Mat2, y: Mat2, z: Mat2)
    ensures Mul(Mul(x, y), z) == Mul(x, Mul(y, z))
  {
    RowAssoc(x.a, x.b, y, z);
    RowAssoc(x.c, x.d, y, z);
  }

  lemma Regroup(p: real, q: real, ya: real, yb: real, yc: real, yd: real, u: real, v: real)
    ensures (p * ya + q * yc) * u + (p * yb + q * yd) * v == p * (ya * u + yb * v) + q * (yc * u + yd * v)
  {
  }

  /** Associativity for one row (p, q) of the left factor. */
  lemma RowAssoc(p: real, q: real, y: Mat2, z: Mat2)
    ensures Mul(Mul(Mat2(p, q, 0.0, 0.0), y), z).a == Mul(Mat2(p, q, 0.0, 0.0), Mul(y, z)).a
    ensures Mul(Mul(Mat2(p, q, 0.0, 0.0), y), z).b == Mul(Mat2(p, q, 0.0, 0.0), Mul(y, z)).b
  {
    Regroup(p, q, y.a, y.b, y.c, y.d, z.a, z.c);
    Regroup(p, q, y.a, y.b, y.c, y.d, z.b, z.d);
  }

  /** The determinant is multiplicative. */
  lemma DetMul(x: Mat2, y: Mat2)
    ensures Det(Mul(x, y)) == Det(x) * Det(y)
  {
  }

  lemma DetScale(m: Mat2, k: real)
    ensures Det(Scale(m, k)) == k * k * Det(m)
  {
    assert (k * m.a) * (k * m.d) == k * k * (m.a * m.d);
    assert (k * m.b) * (k * m.c) == k * k * (m.b * m.c);
  }

  /** m^(i+j) = m^i m^j. */
  lemma {:induction false} PowNatAdd(m: Mat2, i: nat, j: nat)
    ensures PowNat(m, i + j) == Mul(PowNat(m, i), PowNat(m, j))
  {
    if i == 0 {
      MulIdentity(PowNat(m, j));
    } else {
      PowNatAdd(m, i - 1, j);
      MulAssoc(m, PowNat(m, i - 1), PowNat(m, j));
    }
  }

  /** m^k (m^-1)^k = I, so a power and the opposite power cancel. */
  lemma {:induction false} PowNatInverse(m: Mat2, k: nat)
    requires Det(m) != 0.0
    ensures Mul(PowNat(m, k), PowNat(Inverse(m), k)) == Identity
  {
    if k > 0 {
      var p, q, inv := PowNat(m, k - 1), PowNat(Inverse(m), k - 1), Inverse(m);
      PowNatAdd(m, k - 1, 1);
      MulIdentity(m);
      assert PowNat(m, k) == Mul(p, m);
      PowNatInverse(m, k - 1);
      calc {
        Mul(PowNat(m, k), PowNat(inv, k));
        Mul(Mul(p, m), Mul(inv, q));
        { MulAssoc(Mul(p, m), inv, q); }
        Mul(Mul(Mul(p, m), inv), q);
        { MulAssoc(p, m, inv); }
        Mul(Mul(p, Mul(m, inv)), q);
        { MulIdentity(p); }
        Mul(p, q);
      }
    }
  }

  /** det(m^n) = det(m)^n: powers of an invertible matrix stay invertible. */
  lemma {:induction false} DetPowNat(m: Mat2, n: nat)
    ensures Det(m) != 0.0 ==> Det(PowNat(m, n)) != 0.0
    ensures Det(m) > 0.0 ==> Det(PowNat(m, n)) > 0.0
  {
    if n > 0 {
      DetPowNat(m, n - 1);
      DetMul(m, PowNat(m, n - 1));
    }
  }

  lemma PowNatStep(m: Mat2, n: nat, p: Mat2)
    requires n >= 1 && PowNat(m, n - 1) == p
    ensures PowNat(m, n) == Mul(m, p)
  {
  }

  /** A worked power: [[3, 1], [2, 1]]^3 = [[41, 15], [30, 11]]. */
  lemma PowExampleCube()
    ensures Pow(Mat2(3.0, 1.0, 2.0, 1.0), 3) == Mat2(41.0, 15.0, 30.0, 11.0)
  {
    var m, m2 := Mat2(3.0, 1.0, 2.0, 1.0), Mat2(11.0, 4.0, 8.0, 3.0);
    PowNatStep(m, 1, Identity);
    assert Mul(m, Identity) == m;
    PowNatStep(m, 2, m);
    assert Mul(m, m) == m2;
    PowNatStep(m, 3, m2);
    assert Mul(m, m2) == Mat2(41.0, 15.0, 30.0, 11.0);
  }
}
