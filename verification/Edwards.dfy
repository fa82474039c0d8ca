/** The twisted Edwards curve -x^2 + y^2 = 1 + d x^2 y^2 over the field, in projective coordinates.
    The group law is taken as a hypothesis: every result here holds for any abelian group whose
    coordinates satisfy the curve equation and the complete addition formulas. */
module Edwards {
  import opened Field
  import opened Group

  const D: nat := 0x52036cee2b6ffe738cc740797779e89800700a4d4141d8ab75eb4dca135978a3

  /** A group of curve points with affine coordinates, and a base point. */
  datatype Curve<!G> = Curve(group: Group<G>, x: G -> nat, y: G -> nat, at: (nat, nat) -> G, base: G)

  // ---- congruences ----

  ghost predicate Eq(a: int, b: int) {
    Residue(a) == Residue(b)
  }

  lemma EqAdd(a: int, a': int, b: int, b': int)
    requires Eq(a, a') && Eq(b, b')
    ensures Eq(a + b, a' + b') && Eq(a - b, a' - b')
  {
    FAddCong(a + b, a, b, 0);
    FAddCong(a' + b', a', b', 0);
    FSubCong(a - b, a, b, 0);
    FSubCong(a' - b', a', b', 0);
  }

  lemma EqMul(a: int, a': int, b: int, b': int)
    requires Eq(a, a') && Eq(b, b')
    ensures Eq(a * b, a' * b')
  {
    FMulCong(a * b, a, b, 0);
    FMulCong(a' * b', a', b', 0);
  }

  lemma EqFAdd(a: int, b: int)
    ensures Eq(FAdd(a, b), a + b)
  {
    ResidueOfResidue(a + b);
  }

  lemma EqFSub(a: int, b: int)
    ensures Eq(FSub(a, b), a - b)
  {
    ResidueOfResidue(a - b);
  }

  lemma EqFMul(a: int, b: int)
    ensures Eq(FMul(a, b), a * b)
  {
    ResidueOfResidue(a * b);
  }

  lemma {:induction false} PowEq(a: int, b: int, n: nat)
    requires Eq(a, b)
    ensures FPow(a, n) == FPow(b, n)
  {
    if n > 0 {
      PowEq(a, b, n - 1);
      EqMul(a, b, FPow(a, n - 1), FPow(a, n - 1));
    }
  }

  lemma {:induction false} PowMul(a: int, b: int, n: nat)
    ensures FPow(a * b, n) == FMul(FPow(a, n), FPow(b, n))
  {
    if n == 0 {
      FMulOne(1);
    } else {
      var u: int, v: int := FPow(a, n - 1), FPow(b, n - 1);
      PowMul(a, b, n - 1);
      EqFMul(u, v);
      EqFMul(a, u);
      EqFMul(b, v);
      EqMul(a * b, a * b, FMul(u, v), u * v);
      EqMul(FMul(a, u), a * u, FMul(b, v), b * v);
      Reorder(a, b, u, v);
    }
  }

  /** Fermat's little theorem for p, which holds as p is prime. */
  ghost predicate Fermat() {
    forall x: nat, n: nat {:trigger FPow(x, n)} :: 0 < x < P && n == P - 1 ==> FPow(x, n) == 1
  }

  /** No product of nonzero field elements is zero. */
  ghost predicate NoZeroDivisors() {
    forall a: nat, b: nat {:trigger FMul(a, b)} :: 0 < a < P && 0 < b < P ==> FMul(a, b) != 0
  }

  lemma FieldLaw()
    requires Fermat()
    ensures NoZeroDivisors()
  {
    forall a: nat, b: nat {:trigger FMul(a, b)} | 0 < a < P && 0 < b < P
      ensures FMul(a, b) != 0
    {
      FactorsOfZero(a, b, P - 1);
    }
  }

  lemma FactorsOfZero(a: nat, b: nat, n: nat)
    requires Fermat() && 0 < a < P && 0 < b < P && n == P - 1
    ensures FMul(a, b) != 0
  {
    PowMul(a, b, n);
    assert FPow(a, n) == 1 && FPow(b, n) == 1;
    FMulOne(1);
    ResidueIs(0);
    assert FPow(0, n) == FMul(0, FPow(0, n - 1)) == 0;
    if FMul(a, b) == 0 {
      PowEq(a * b, 0, n);
    }
  }

  lemma NonZero(a: int, b: int)
    requires NoZeroDivisors() && !Eq(a, 0) && !Eq(b, 0)
    ensures !Eq(a * b, 0)
  {
    FMulCong(a * b, a, b, 0);
    ResidueIs(0);
    assert FMul(Residue(a), Residue(b)) != 0;
  }

  // ---- the curve ----

  /** Names the curve constant where a product with it is computed, and nowhere else. */
  ghost predicate IsD(d: int) { d == D }

  ghost predicate IsMultipleByD(v: int, r: int) {
    forall d {:trigger IsD(d)} :: IsD(d) ==> r == d * v
  }

  /** d v */
  ghost function DTimes(v: int): int {
    assert IsMultipleByD(v, D * v);
    var r :| IsMultipleByD(v, r);
    r
  }

  lemma DTimesIs(v: int)
    ensures DTimes(v) == D * v
  {
    assert IsD(D);
    assert IsMultipleByD(v, DTimes(v));
  }

  lemma DTimesEq(a: int, b: int)
    requires Eq(a, b)
    ensures Eq(DTimes(a), DTimes(b))
  {
    DTimesIs(a);
    DTimesIs(b);
    EqMul(D, D, a, b);
  }

  ghost predicate OnCurve(x: int, y: int) {
    Eq(y * y - x * x, 1 + DTimes(x * x * (y * y)))
  }

  /** The curve equation, written out. */
  lemma OnCurveIs(x: int, y: int)
    ensures OnCurve(x, y) <==> (y * y - x * x) % P == (1 + D * (x * x * (y * y))) % P
  {
    DTimesIs(x * x * (y * y));
    ResidueIs(y * y - x * x);
    ResidueIs(1 + D * (x * x * (y * y)));
  }

  /** d = -121665 / 121666, and p and d are as in section 5.1 of RFC 8032. */
  lemma CurveParameters()
    ensures P == 0x8000000000000000000000000000000000000000000000000000000000000000 - 19
    ensures (121666 * D + 121665) % P == 0 && 0 < D < P
  {
  }

  /** (x3, y3) is the sum of (x1, y1) and (x2, y2), by the complete formulas. */
  ghost predicate Sum(x1: int, y1: int, x2: int, y2: int, x3: int, y3: int) {
    var e := DTimes(x1 * x2 * (y1 * y2));
    && !Eq(1 + e, 0) && !Eq(1 - e, 0)
    && Eq(x3 * (1 + e), x1 * y2 + x2 * y1)
    && Eq(y3 * (1 - e), y1 * y2 + x1 * x2)
  }

  /** The group is the curve's: its elements are the points (x, y) with x, y < p on the curve, and
      its operations are the complete addition formulas and the negation of x. */
  ghost predicate CurveLaws<G(!new)>(c: Curve<G>) {
    && Abelian(c.group) && Fermat()
    && c.x(c.group.zero) == 0 && c.y(c.group.zero) == 1
    && (forall p {:trigger On(p, p, p)} :: c.x(p) < P && c.y(p) < P && OnCurve(c.x(p), c.y(p)) && c.at(c.x(p), c.y(p)) == p)
    && (forall x: nat, y: nat {:trigger c.at(x, y)} :: x < P && y < P && OnCurve(x, y) ==> c.x(c.at(x, y)) == x && c.y(c.at(x, y)) == y)
    && (forall p {:trigger On(p, p, p)} :: c.x(c.group.neg(p)) == FSub(0, c.x(p)) && c.y(c.group.neg(p)) == c.y(p))
    && (forall p, q {:trigger On(p, q, q)} :: var r := c.group.add(p, q); Sum(c.x(p), c.y(p), c.x(q), c.y(q), c.x(r), c.y(r)))
  }

  /** The laws as one fact, which a call hands on whole. */
  ghost predicate EdwardsCurve<G(!new)>(c: Curve<G>) {
    CurveLaws(c) == true
  }

  lemma PointLaw<G(!new)>(c: Curve<G>, p: G)
    requires EdwardsCurve(c)
    ensures c.x(p) < P && c.y(p) < P && OnCurve(c.x(p), c.y(p))
    ensures c.at(c.x(p), c.y(p)) == p
    ensures c.x(c.group.neg(p)) == FSub(0, c.x(p)) && Eq(c.x(c.group.neg(p)), 0 - c.x(p)) && c.y(c.group.neg(p)) == c.y(p)
  {
    assert On(p, p, p);
    EqFSub(0, c.x(p));
  }

  // ---- representations ----

  /** (X : Y : Z) stands for (x, y). */
  ghost predicate Projective(X: int, Y: int, Z: int, x: int, y: int) {
    Eq(X, x * Z) && Eq(Y, y * Z) && !Eq(Z, 0)
  }

  /** Completed coordinates: x = X / Z and y = Y / T. */
  ghost predicate Completed(X: int, Y: int, Z: int, T: int, x: int, y: int) {
    Eq(X, x * Z) && Eq(Y, y * T) && !Eq(Z, 0) && !Eq(T, 0)
  }

  /** (y - x) Z, (y + x) Z and 2 d x y Z. */
  ghost predicate Niels(U: int, V: int, W: int, Z: int, x: int, y: int) {
    Eq(U, (y - x) * Z) && Eq(V, (y + x) * Z) && Eq(W, 2 * DTimes(x * y) * Z) && !Eq(Z, 0)
  }

  /** Completed to projective: three products, and the fourth gives T with X Y = Z T. */
  lemma FromCompleted(X: int, Y: int, Z: int, T: int, x: int, y: int)
    requires NoZeroDivisors() && Completed(X, Y, Z, T, x, y)
    ensures Projective(X * T, Y * Z, Z * T, x, y) && Eq(X * Y, x * y * (Z * T))
  {
    EqMul(X, x * Z, T, T);
    EqMul(Y, y * T, Z, Z);
    EqMul(X, x * Z, Y, y * T);
    NonZero(Z, T);
    assert x * Z * T == x * (Z * T) && y * T * Z == y * (Z * T) && x * Z * (y * T) == x * y * (Z * T);
  }

  lemma Reorder(a: int, b: int, u: int, v: int)
    ensures a * u * (b * v) == a * b * (u * v)
  {
  }

  /** The four intermediate values of an addition, as multiples of Z1 Z2. */
  lemma AddTerms(X1: int, Y1: int, Z1: int, T1: int, x1: int, y1: int, U: int, V: int, W: int, Z2: int, x2: int, y2: int)
    requires Projective(X1, Y1, Z1, x1, y1) && Eq(T1, x1 * y1 * Z1) && Niels(U, V, W, Z2, x2, y2)
    ensures Eq((Y1 - X1) * U, (y1 - x1) * (y2 - x2) * (Z1 * Z2))
    ensures Eq((Y1 + X1) * V, (y1 + x1) * (y2 + x2) * (Z1 * Z2))
    ensures Eq(T1 * W, x1 * y1 * (2 * DTimes(x2 * y2)) * (Z1 * Z2))
  {
    EqAdd(Y1, y1 * Z1, X1, x1 * Z1);
    assert y1 * Z1 - x1 * Z1 == (y1 - x1) * Z1 && y1 * Z1 + x1 * Z1 == (y1 + x1) * Z1;
    EqMul(Y1 - X1, (y1 - x1) * Z1, U, (y2 - x2) * Z2);
    EqMul(Y1 + X1, (y1 + x1) * Z1, V, (y2 + x2) * Z2);
    EqMul(T1, x1 * y1 * Z1, W, 2 * DTimes(x2 * y2) * Z2);
    Reorder(y1 - x1, y2 - x2, Z1, Z2);
    Reorder(y1 + x1, y2 + x2, Z1, Z2);
    Reorder(x1 * y1, 2 * DTimes(x2 * y2), Z1, Z2);
  }

  lemma AddAlgebra(x1: int, y1: int, x2: int, y2: int, k: int, e: int, a: int, b: int, d: int)
    requires e == DTimes(x1 * x2 * (y1 * y2))
    requires a == (y1 - x1) * (y2 - x2) * k && b == (y1 + x1) * (y2 + x2) * k && d == x1 * y1 * (2 * DTimes(x2 * y2)) * k
    ensures b - a == 2 * k * (x1 * y2 + x2 * y1) && b + a == 2 * k * (y1 * y2 + x1 * x2)
    ensures 2 * k + d == 2 * k * (1 + e) && 2 * k - d == 2 * k * (1 - e)
  {
    assert (y1 + x1) * (y2 + x2) == y1 * y2 + y1 * x2 + x1 * y2 + x1 * x2;
    assert (y1 - x1) * (y2 - x2) == y1 * y2 - y1 * x2 - x1 * y2 + x1 * x2;
    CrossTerm(x1, y1, x2, y2);
  }

  lemma CrossTerm(x1: int, y1: int, x2: int, y2: int)
    ensures x1 * y1 * (2 * DTimes(x2 * y2)) == 2 * DTimes(x1 * x2 * (y1 * y2))
  {
    DTimesIs(x2 * y2);
    DTimesIs(x1 * x2 * (y1 * y2));
    assert x1 * y1 * (2 * (D * (x2 * y2))) == 2 * (D * (x1 * x2 * (y1 * y2)));
  }

  /** Scaling numerator and denominator: n == x3 * q gives m n == x3 (m q). */
  lemma Scale(m: int, n: int, x3: int, q: int)
    requires Eq(x3 * q, n)
    ensures Eq(m * n, x3 * (m * q))
  {
    EqMul(m, m, x3 * q, n);
    assert m * (x3 * q) == x3 * (m * q);
  }

  /** Adding a point in Niels form gives the completed coordinates of the sum. */
  lemma UnifiedAdd(X1: int, Y1: int, Z1: int, T1: int, x1: int, y1: int, U: int, V: int, W: int, Z2: int, x2: int, y2: int, x3: int, y3: int)
    requires NoZeroDivisors() && Projective(X1, Y1, Z1, x1, y1) && Eq(T1, x1 * y1 * Z1) && Niels(U, V, W, Z2, x2, y2)
    requires Sum(x1, y1, x2, y2, x3, y3)
    ensures var A, B, C, Q := (Y1 - X1) * U, (Y1 + X1) * V, T1 * W, 2 * (Z1 * Z2);
            Completed(B - A, B + A, Q + C, Q - C, x3, y3)
  {
    var A, B, C, k, e := (Y1 - X1) * U, (Y1 + X1) * V, T1 * W, Z1 * Z2, DTimes(x1 * x2 * (y1 * y2));
    var a, b, d := (y1 - x1) * (y2 - x2) * k, (y1 + x1) * (y2 + x2) * k, x1 * y1 * (2 * DTimes(x2 * y2)) * k;
    AddTerms(X1, Y1, Z1, T1, x1, y1, U, V, W, Z2, x2, y2);
    AddAlgebra(x1, y1, x2, y2, k, e, a, b, d);
    AddValues(A, B, C, k, e, a, b, d, x1 * y2 + x2 * y1, y1 * y2 + x1 * x2, x3, y3, Z1, Z2);
  }

  lemma AddValues(A: int, B: int, C: int, k: int, e: int, a: int, b: int, d: int, n: int, m: int, x3: int, y3: int, Z1: int, Z2: int)
    requires NoZeroDivisors() && k == Z1 * Z2 && !Eq(Z1, 0) && !Eq(Z2, 0) && Eq(A, a) && Eq(B, b) && Eq(C, d)
    requires b - a == 2 * k * n && b + a == 2 * k * m && 2 * k + d == 2 * k * (1 + e) && 2 * k - d == 2 * k * (1 - e)
    requires !Eq(1 + e, 0) && !Eq(1 - e, 0) && Eq(x3 * (1 + e), n) && Eq(y3 * (1 - e), m)
    ensures Completed(B - A, B + A, 2 * k + C, 2 * k - C, x3, y3)
  {
    EqAdd(B, b, A, a);
    EqAdd(2 * k, 2 * k, C, d);
    CompleteAdd(B - A, B + A, 2 * k + C, 2 * k - C, k, e, n, m, x3, y3, Z1, Z2);
  }

  lemma CompleteAdd(X: int, Y: int, Z: int, T: int, k: int, e: int, n: int, m: int, x3: int, y3: int, Z1: int, Z2: int)
    requires NoZeroDivisors() && k == Z1 * Z2 && !Eq(Z1, 0) && !Eq(Z2, 0)
    requires Eq(X, 2 * k * n) && Eq(Y, 2 * k * m) && Eq(Z, 2 * k * (1 + e)) && Eq(T, 2 * k * (1 - e))
    requires !Eq(1 + e, 0) && !Eq(1 - e, 0) && Eq(x3 * (1 + e), n) && Eq(y3 * (1 - e), m)
    ensures Completed(X, Y, Z, T, x3, y3)
  {
    Scale(2 * k, n, x3, 1 + e);
    Scale(2 * k, m, y3, 1 - e);
    EqMul(x3, x3, Z, 2 * k * (1 + e));
    EqMul(y3, y3, T, 2 * k * (1 - e));
    NonZero(Z1, Z2);
    ResidueIs(2);
    ResidueIs(0);
    NonZero(2, k);
    NonZero(2 * k, 1 + e);
    NonZero(2 * k, 1 - e);
  }

  /** Doubling gives the completed coordinates of the double; T is not used. */
  lemma UnifiedDouble(X: int, Y: int, Z: int, x: int, y: int, x3: int, y3: int, a: int, b: int, k: int, s: int)
    requires NoZeroDivisors() && Projective(X, Y, Z, x, y) && OnCurve(x, y) && Sum(x, y, x, y, x3, y3)
    requires a == X * X && b == Y * Y && k == Z * Z && s == (X + Y) * (X + Y)
    ensures Completed(s - (b + a), b + a, b - a, 2 * k - (b - a), x3, y3)
  {
    var e := DTimes(x * x * (y * y));
    DoubleTerms(X, Y, Z, x, y, e);
    CompleteDouble(s - (b + a), b + a, b - a, 2 * k - (b - a), k, e, x * y + x * y, y * y + x * x, x3, y3, Z);
  }

  lemma DoubleTerms(X: int, Y: int, Z: int, x: int, y: int, e: int)
    requires Projective(X, Y, Z, x, y) && Eq(y * y - x * x, 1 + e)
    ensures Eq((X + Y) * (X + Y) - (Y * Y + X * X), Z * Z * (x * y + x * y))
    ensures Eq(Y * Y + X * X, Z * Z * (y * y + x * x))
    ensures Eq(Y * Y - X * X, Z * Z * (1 + e))
    ensures Eq(2 * (Z * Z) - (Y * Y - X * X), Z * Z * (1 - e))
  {
    var k := Z * Z;
    EqMul(X, x * Z, X, x * Z);
    EqMul(Y, y * Z, Y, y * Z);
    EqMul(X, x * Z, Y, y * Z);
    Reorder(x, x, Z, Z);
    Reorder(y, y, Z, Z);
    Reorder(x, y, Z, Z);
    EqAdd(Y * Y, y * y * k, X * X, x * x * k);
    EqMul(2, 2, X * Y, x * y * k);
    EqMul(k, k, y * y - x * x, 1 + e);
    DoubleAlgebra(X, Y, x, y, k, e);
    EqAdd(2 * k, 2 * k, Y * Y - X * X, k * (1 + e));
  }

  lemma DoubleAlgebra(X: int, Y: int, x: int, y: int, k: int, e: int)
    ensures (X + Y) * (X + Y) - (Y * Y + X * X) == 2 * (X * Y)
    ensures 2 * (x * y * k) == k * (x * y + x * y)
    ensures y * y * k + x * x * k == k * (y * y + x * x)
    ensures y * y * k - x * x * k == k * (y * y - x * x)
    ensures 2 * k - k * (1 + e) == k * (1 - e)
  {
  }

  lemma CompleteDouble(X: int, Y: int, Z: int, T: int, k: int, e: int, n: int, m: int, x3: int, y3: int, W: int)
    requires NoZeroDivisors() && k == W * W && !Eq(W, 0)
    requires Eq(X, k * n) && Eq(Y, k * m) && Eq(Z, k * (1 + e)) && Eq(T, k * (1 - e))
    requires !Eq(1 + e, 0) && !Eq(1 - e, 0) && Eq(x3 * (1 + e), n) && Eq(y3 * (1 - e), m)
    ensures Completed(X, Y, Z, T, x3, y3)
  {
    Scale(k, n, x3, 1 + e);
    Scale(k, m, y3, 1 - e);
    EqMul(x3, x3, Z, k * (1 + e));
    EqMul(y3, y3, T, k * (1 - e));
    NonZero(W, W);
    NonZero(k, 1 + e);
    NonZero(k, 1 - e);
  }

  lemma DTimesNeg(a: int, b: int)
    requires Eq(a, 0 - b)
    ensures Eq(DTimes(a), 0 - DTimes(b))
  {
    DTimesEq(a, 0 - b);
    DTimesIs(0 - b);
    DTimesIs(b);
  }

  lemma NegatedProduct(x: int, x': int, y: int)
    requires Eq(x', -x)
    ensures Eq(x' * y, 0 - x * y)
  {
    EqMul(x', -x, y, y);
    assert -x * y == 0 - x * y;
  }

  /** The Niels form of the negative: the first two swap, the third changes sign. */
  lemma NielsNeg(U: int, V: int, W: int, Z: int, x: int, y: int, x': int)
    requires Niels(U, V, W, Z, x, y) && Eq(x', -x)
    ensures Niels(V, U, -W, Z, x', y)
  {
    EqAdd(y, y, x', -x);
    EqMul(y - x', y + x, Z, Z);
    EqMul(y + x', y - x, Z, Z);
    NegatedProduct(x, x', y);
    DTimesNeg(x' * y, x * y);
    NegatedThird(W, DTimes(x * y), DTimes(x' * y), Z);
  }

  lemma NegatedThird(W: int, t: int, t': int, Z: int)
    requires Eq(W, 2 * t * Z) && Eq(t', 0 - t)
    ensures Eq(-W, 2 * t' * Z)
  {
    EqMul(2, 2, t', 0 - t);
    EqMul(2 * t', 2 * (0 - t), Z, Z);
    EqAdd(0, 0, W, 2 * t * Z);
    assert 2 * (0 - t) * Z == 0 - 2 * t * Z;
  }
}
