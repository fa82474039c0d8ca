/** Curve points in limb form: the coordinate systems, their conversions, and the addition formulas. */
module Points {
  import opened Field
  import opened Group
  import opened Edwards

  datatype Ge = Ge(x: Fe, y: Fe, z: Fe, t: Fe)
  datatype P1p1 = P1p1(x: Fe, y: Fe, z: Fe, t: Fe)
  datatype NielsPoint = NielsPoint(ysubx: Fe, xaddy: Fe, t2d: Fe)
  datatype PNiels = PNiels(ysubx: Fe, xaddy: Fe, z: Fe, t2d: Fe)

  const EC2D: Fe := Fe(0x00069b9426b2f159, 0x00035050762add7a, 0x0003cf44c0038052, 0x0006738cc7407977, 0x0002406d9dc56dff)
  const ECD: Fe := Fe(0x00034dca135978a3, 0x0001a8283b156ebd, 0x0005e7a26001c029, 0x000739c663a03cbb, 0x00052036cee2b6ff)
  const ZERO: Fe := Fe(0, 0, 0, 0, 0)
  const ONE: Fe := Fe(1, 0, 0, 0, 0)

  /** The stored constants are d and 2d. */
  lemma CurveConstants()
    ensures F(ECD) == D && Eq(F(EC2D), 2 * D) && Below(ECD, TWO51) && Below(EC2D, TWO51) && F(ONE) == 1 && F(ZERO) == 0
  {
    ResidueIs(Val(ECD));
    ResidueIs(Val(EC2D));
    ResidueIs(2 * D);
    ResidueOfResidue(2 * D);
    ResidueIs(1);
    ResidueIs(0);
  }

  // ---- what a limb form stands for ----
  // Each predicate is `(...) == true`, so that a call hands it on as one fact.

  /** (X : Y : Z) is p. The fourth coordinate may be stale. */
  ghost predicate Rep<G>(c: Curve<G>, r: Ge, p: G) {
    (Below(r.x, TIGHT) && Below(r.y, TIGHT) && Below(r.z, TIGHT) && Projective(F(r.x), F(r.y), F(r.z), c.x(p), c.y(p))) == true
  }

  /** Also T Z = X Y. */
  ghost predicate RepFull<G>(c: Curve<G>, r: Ge, p: G) {
    (Rep(c, r, p) && Below(r.t, TIGHT) && Eq(F(r.t), c.x(p) * c.y(p) * F(r.z))) == true
  }

  ghost predicate RepP1<G>(c: Curve<G>, r: P1p1, p: G) {
    (&& Below(r.x, TWO54) && Below(r.y, TWO54) && Below(r.z, TWO54) && Below(r.t, TWO54)
     && Completed(F(r.x), F(r.y), F(r.z), F(r.t), c.x(p), c.y(p))) == true
  }

  ghost predicate RepNiels<G>(c: Curve<G>, r: NielsPoint, p: G) {
    (&& Below(r.ysubx, TIGHT) && Below(r.xaddy, TIGHT) && Below(r.t2d, TIGHT)
     && Niels(F(r.ysubx), F(r.xaddy), F(r.t2d), 1, c.x(p), c.y(p))) == true
  }

  ghost predicate RepPNiels<G>(c: Curve<G>, r: PNiels, p: G) {
    (&& Below(r.ysubx, TWO54) && Below(r.xaddy, TWO54) && Below(r.z, TIGHT) && Below(r.t2d, TIGHT)
     && Niels(F(r.ysubx), F(r.xaddy), F(r.t2d), F(r.z), c.x(p), c.y(p))) == true
  }

  /** The stored base point. */
  const BASE_POINT: Ge := Ge(Fe(0x00062d608f25d51a, 0x000412a4b4f6592a, 0x00075b7171a4b31d, 0x0001ff60527118fe, 0x000216936d3cd6e5),
                             Fe(0x0006666666666658, 0x0004cccccccccccc, 0x0001999999999999, 0x0003333333333333, 0x0006666666666666),
                             Fe(1, 0, 0, 0, 0),
                             Fe(0x00068ab3a5b7dda3, 0x00000eea2a5eadbb, 0x0002af8df483c27e, 0x000332b375274732, 0x00067875f0fd78b7))

  /** The base point of the curve is the stored one. */
  ghost predicate StoredBase<G>(c: Curve<G>) {
    c.base == c.at(F(BASE_POINT.x), F(BASE_POINT.y))
  }

  /** The stored limbs are a point of the curve with y = 4/5, in full coordinates. */
  lemma BaseCoordinates()
    ensures OnCurve(F(BASE_POINT.x), F(BASE_POINT.y)) && Eq(5 * F(BASE_POINT.y), 4)
    ensures F(BASE_POINT.z) == 1 && Eq(F(BASE_POINT.t), F(BASE_POINT.x) * F(BASE_POINT.y))
  {
    var x: nat := 0x216936d3cd6e53fec0a4e231fdd6dc5c692cc7609525a7b2c9562d608f25d51a;
    var y: nat := 0x6666666666666666666666666666666666666666666666666666666666666658;
    var t: nat := 0x67875f0fd78b766566ea4e8e64abe37d20f09f80775152f56dde8ab3a5b7dda3;
    ResidueIs(x);
    ResidueIs(y);
    ResidueIs(t);
    ResidueIs(1);
    Congruent(5 * y, 4, 4);
    Congruent(x * y, t, 0x1aba92430abea9989a1d81c197df16b05423d2b3aa848628a111bde6d8eb10e1);
    BaseOnCurve(x, y);
  }

  lemma BaseOnCurve(x: nat, y: nat)
    requires x == 0x216936d3cd6e53fec0a4e231fdd6dc5c692cc7609525a7b2c9562d608f25d51a
    requires y == 0x6666666666666666666666666666666666666666666666666666666666666658
    ensures OnCurve(x, y)
  {
    var x2, y2, w, e := 0x39e5a76b6f33fadbc92a232fdb1c32f2ebe39c555ccb6a7d690b8a0f82e81c67, 0x51eb851eb851eb851eb851eb851eb851eb851eb851eb851eb851eb851eb851e0,
                        0x43c62db565e3d3bfdce7c49981fd913f4f49fda745a0e7fe57b577142ad1fdae, 0x1805ddb3491df0a9558e2ebbaa02855effa18262f5201aa14f4661759bd03578;
    Congruent(x * x, x2, 0x8b896c140e6001ed198b5b7b564c5e7c4cea7656ac92ed1492ba58553286991);
    Congruent(y * y, y2, 0x51eb851eb851eb851eb851eb851eb851eb851eb851eb851eb851eb851eb851e0);
    Congruent(x2 * y2, w, 0x250ddbc9e0c51b6df162a5e130120c2096f8122226e89612d296bec23f4cdefa);
    Congruent(D * w, e, 0x2b6cc59a99944230931f709dd6154114df3773c14313160c6e0001c240b8a35a);
    Congruent(y2 - x2, 1 + e, 0);
    EqMul(x * x, x2, y * y, y2);
    DTimesEq(x * x * (y * y), w);
    DTimesIs(w);
    EqAdd(y * y, y2, x * x, x2);
    EqAdd(1, 1, DTimes(x * x * (y * y)), e);
  }

  lemma BasePointShown<G(!new)>(c: Curve<G>)
    requires EdwardsCurve(c) && StoredBase(c)
    ensures RepFull(c, BASE_POINT, c.base)
  {
    BaseCoordinates();
    ResidueIs(0);
    ResidueIs(1);
  }

  /** p or its negative. */
  ghost function Signed<G>(c: Curve<G>, p: G, signbit: nat): G {
    if signbit == 0 then p else c.group.neg(p)
  }

  // ---- conversions ----

  method P1p1ToPartial<G(!new)>(p: P1p1, stale: Fe, ghost c: Curve<G>, ghost g: G) returns (r: Ge)
    requires EdwardsCurve(c) && RepP1(c, p, g)
    ensures Rep(c, r, g) && r.t == stale
  {
    var x := Mul(p.x, p.t);
    var y := Mul(p.y, p.z);
    var z := Mul(p.z, p.t);
    r := Ge(x, y, z, stale);
    FieldLaw();
    Multiplied(F(p.x), F(p.y), F(p.z), F(p.t), F(x), F(y), F(z), c.x(g), c.y(g));
  }

  method P1p1ToFull<G(!new)>(p: P1p1, ghost c: Curve<G>, ghost g: G) returns (r: Ge)
    requires EdwardsCurve(c) && RepP1(c, p, g)
    ensures RepFull(c, r, g)
  {
    var x := Mul(p.x, p.t);
    var y := Mul(p.y, p.z);
    var z := Mul(p.z, p.t);
    var t := Mul(p.x, p.y);
    r := Ge(x, y, z, t);
    FieldLaw();
    Multiplied(F(p.x), F(p.y), F(p.z), F(p.t), F(x), F(y), F(z), c.x(g), c.y(g));
  }

  lemma Multiplied(X: int, Y: int, Z: int, T: int, X3: int, Y3: int, Z3: int, x: int, y: int)
    requires NoZeroDivisors() && Completed(X, Y, Z, T, x, y) && X3 == FMul(X, T) && Y3 == FMul(Y, Z) && Z3 == FMul(Z, T)
    ensures Projective(X3, Y3, Z3, x, y) && Eq(FMul(X, Y), x * y * Z3)
  {
    EqFMul(X, T);
    EqFMul(Y, Z);
    EqFMul(Z, T);
    EqFMul(X, Y);
    EqMul(x * y, x * y, Z3, Z * T);
    FromCompleted(X, Y, Z, T, x, y);
    EqMul(x, x, Z3, Z * T);
    EqMul(y, y, Z3, Z * T);
  }

  method FullToPNiels<G(!new)>(r: Ge, ghost c: Curve<G>, ghost g: G) returns (p: PNiels)
    requires EdwardsCurve(c) && RepFull(c, r, g)
    ensures RepPNiels(c, p, g)
  {
    var ysubx := Sub(r.y, r.x, TIGHT);
    var xaddy := Add(r.y, r.x, TIGHT, TIGHT);
    CurveConstants();
    var t2d := Mul(r.t, EC2D);
    p := PNiels(ysubx, xaddy, r.z, t2d);
    EqMul(F(r.t), F(r.t), F(EC2D), 2 * D);
    EqFMul(F(r.t), F(EC2D));
    EqFSub(F(r.y), F(r.x));
    EqFAdd(F(r.y), F(r.x));
    ToNiels(F(r.x), F(r.y), F(r.z), F(r.t), F(ysubx), F(xaddy), F(t2d), c.x(g), c.y(g));
  }

  lemma ToNiels(X: int, Y: int, Z: int, T: int, U: int, V: int, W: int, x: int, y: int)
    requires Projective(X, Y, Z, x, y) && Eq(T, x * y * Z) && Eq(U, Y - X) && Eq(V, Y + X) && Eq(W, T * (2 * D))
    ensures Niels(U, V, W, Z, x, y)
  {
    EqAdd(Y, y * Z, X, x * Z);
    EqMul(T, x * y * Z, 2 * D, 2 * D);
    Reassociate(x, y, Z);
  }

  lemma Reassociate(x: int, y: int, Z: int)
    ensures y * Z - x * Z == (y - x) * Z && y * Z + x * Z == (y + x) * Z && x * y * Z * (2 * D) == 2 * DTimes(x * y) * Z
  {
    DTimesIs(x * y);
    assert x * y * Z * (2 * D) == 2 * (D * (x * y)) * Z;
  }

  // ---- addition ----

  /** (a - b) q */
  method MulDiff(a: Fe, b: Fe, q: Fe) returns (r: Fe)
    requires Below(a, TIGHT) && Below(b, TIGHT) && Below(q, TWO54)
    ensures Below(r, TIGHT) && Eq(F(r), (F(a) - F(b)) * F(q))
  {
    var d := Sub(a, b, TIGHT);
    r := Mul(d, q);
    EqFSub(F(a), F(b));
    EqFMul(F(d), F(q));
    EqMul(F(d), F(a) - F(b), F(q), F(q));
  }

  /** (a + b) q */
  method MulSum(a: Fe, b: Fe, q: Fe) returns (r: Fe)
    requires Below(a, TIGHT) && Below(b, TIGHT) && Below(q, TWO54)
    ensures Below(r, TIGHT) && Eq(F(r), (F(a) + F(b)) * F(q))
  {
    var s := Add(a, b, TIGHT, TIGHT);
    r := Mul(s, q);
    EqFAdd(F(a), F(b));
    EqFMul(F(s), F(q));
    EqMul(F(s), F(a) + F(b), F(q), F(q));
  }

  /** The completed coordinates of p + q, from the four intermediate values of the unified formulas. */
  lemma AddedPoint<G(!new)>(c: Curve<G>, X: int, Y: int, Z: int, T: int, p: G, U: int, V: int, W: int, Z2: int, q: G, A: int, B: int, C: int, Q: int)
    requires EdwardsCurve(c) && Projective(X, Y, Z, c.x(p), c.y(p)) && Eq(T, c.x(p) * c.y(p) * Z) && Niels(U, V, W, Z2, c.x(q), c.y(q))
    requires Eq(A, (Y - X) * U) && Eq(B, (Y + X) * V) && Eq(C, T * W) && Eq(Q, 2 * (Z * Z2))
    ensures var s := c.group.add(p, q); Completed(B - A, B + A, Q + C, Q - C, c.x(s), c.y(s))
  {
    var s := c.group.add(p, q);
    assert On(p, q, q);
    FieldLaw();
    UnifiedAdd(X, Y, Z, T, c.x(p), c.y(p), U, V, W, Z2, c.x(q), c.y(q), c.x(s), c.y(s));
    AddedEq((Y - X) * U, (Y + X) * V, T * W, 2 * (Z * Z2), A, B, C, Q, c.x(s), c.y(s));
  }

  lemma AddedEq(a: int, b: int, e: int, d: int, A: int, B: int, C: int, Q: int, x: int, y: int)
    requires Completed(b - a, b + a, d + e, d - e, x, y) && Eq(A, a) && Eq(B, b) && Eq(C, e) && Eq(Q, d)
    ensures Completed(B - A, B + A, Q + C, Q - C, x, y)
  {
    EqAdd(B, b, A, a);
    EqAdd(Q, d, C, e);
    CompletedEq(b - a, b + a, d + e, d - e, B - A, B + A, Q + C, Q - C, x, y);
  }

  lemma CompletedEq(X: int, Y: int, Z: int, T: int, X': int, Y': int, Z': int, T': int, x: int, y: int)
    requires Completed(X, Y, Z, T, x, y) && Eq(X', X) && Eq(Y', Y) && Eq(Z', Z) && Eq(T', T)
    ensures Completed(X', Y', Z', T', x, y)
  {
    EqMul(x, x, Z', Z);
    EqMul(y, y, T', T);
  }

  /** 2 a b, left unreduced. */
  method TwiceMul(a: Fe, b: Fe) returns (r: Fe)
    requires Below(a, TIGHT) && Below(b, TIGHT)
    ensures Below(r, 2 * TIGHT) && Eq(F(r), 2 * (F(a) * F(b)))
  {
    var m := Mul(a, b);
    r := Add(m, m, TIGHT, TIGHT);
    EqFMul(F(a), F(b));
    EqFAdd(F(m), F(m));
    EqAdd(F(m), F(a) * F(b), F(m), F(a) * F(b));
  }

  /** 2 d a b */
  method MulT(a: Fe, b: Fe) returns (r: Fe)
    requires Below(a, TWO54) && Below(b, TWO54)
    ensures Below(r, TIGHT) && Eq(F(r), F(a) * (F(b) * (2 * D)))
  {
    var m := Mul(a, b);
    CurveConstants();
    r := Mul(m, EC2D);
    EqFMul(F(a), F(b));
    EqFMul(F(m), F(EC2D));
    EqMul(F(m), F(a) * F(b), F(EC2D), 2 * D);
    assert F(a) * F(b) * (2 * D) == F(a) * (F(b) * (2 * D));
  }

  /** The last four field operations of an addition, from its four intermediate values. */
  method Assemble(a: Fe, b: Fe, e: Fe, d: Fe) returns (r: P1p1)
    requires Below(a, TIGHT) && Below(b, TIGHT) && Below(e, TIGHT) && Below(d, 2 * TIGHT)
    ensures Below(r.x, TWO54) && Below(r.y, TWO54) && Below(r.z, TWO54) && Below(r.t, TWO54)
    ensures Eq(F(r.x), F(b) - F(a)) && Eq(F(r.y), F(b) + F(a)) && Eq(F(r.z), F(d) + F(e)) && Eq(F(r.t), F(d) - F(e))
  {
    var x := Sub(b, a, TIGHT);
    var y := Add(b, a, TIGHT, TIGHT);
    var z := Add(d, e, 2 * TIGHT, TIGHT);
    var t := SubAfterBasic(d, e, 2 * TIGHT);
    r := P1p1(x, y, z, t);
    EqFSub(F(b), F(a));
    EqFAdd(F(b), F(a));
    EqFAdd(F(d), F(e));
    EqFSub(F(d), F(e));
  }

  method AddP1p1<G(!new)>(p: Ge, q: Ge, ghost c: Curve<G>, ghost g: G, ghost h: G) returns (r: P1p1)
    requires EdwardsCurve(c) && RepFull(c, p, g) && RepFull(c, q, h)
    ensures RepP1(c, r, c.group.add(g, h))
  {
    var t := Sub(q.y, q.x, TIGHT);
    var u := Add(q.y, q.x, TIGHT, TIGHT);
    EqFSub(F(q.y), F(q.x));
    EqFAdd(F(q.y), F(q.x));
    ToNiels(F(q.x), F(q.y), F(q.z), F(q.t), F(t), F(u), F(q.t) * (2 * D), c.x(h), c.y(h));
    var a := MulDiff(p.y, p.x, t);
    var b := MulSum(p.y, p.x, u);
    var e := MulT(p.t, q.t);
    var d := TwiceMul(p.z, q.z);
    r := Assemble(a, b, e, d);
    Added(c, p, g, F(t), F(u), F(q.t) * (2 * D), F(q.z), h, F(a), F(b), F(e), F(d), r);
  }

  lemma Added<G(!new)>(c: Curve<G>, p: Ge, g: G, U: int, V: int, W: int, Z2: int, h: G, A: int, B: int, C: int, Q: int, r: P1p1)
    requires EdwardsCurve(c) && RepFull(c, p, g) && Niels(U, V, W, Z2, c.x(h), c.y(h))
    requires Eq(A, (F(p.y) - F(p.x)) * U) && Eq(B, (F(p.y) + F(p.x)) * V) && Eq(C, F(p.t) * W) && Eq(Q, 2 * (F(p.z) * Z2))
    requires Eq(F(r.x), B - A) && Eq(F(r.y), B + A) && Eq(F(r.z), Q + C) && Eq(F(r.t), Q - C)
    ensures var s := c.group.add(g, h); Completed(F(r.x), F(r.y), F(r.z), F(r.t), c.x(s), c.y(s))
  {
    var s := c.group.add(g, h);
    AddedPoint(c, F(p.x), F(p.y), F(p.z), F(p.t), g, U, V, W, Z2, h, A, B, C, Q);
    CompletedEq(B - A, B + A, Q + C, Q - C, F(r.x), F(r.y), F(r.z), F(r.t), c.x(s), c.y(s));
  }

  method DoubleP1p1<G(!new)>(p: Ge, ghost c: Curve<G>, ghost g: G) returns (r: P1p1)
    requires EdwardsCurve(c) && Rep(c, p, g)
    ensures RepP1(c, r, c.group.add(g, g))
  {
    var a := Square(p.x);
    var b := Square(p.y);
    var k := Square(p.z);
    ghost var zz := k;
    k := AddReduce(k, k);
    var e := Add(p.x, p.y, TIGHT, TIGHT);
    ghost var sum := e;
    e := Square(e);
    var y := Add(b, a, TIGHT, TIGHT);
    var z := Sub(b, a, TIGHT);
    var x := SubAfterBasic(e, y, TIGHT);
    var t := SubAfterBasic(k, z, TIGHT);
    r := P1p1(x, y, z, t);
    Doubled(c, p, g, F(a), F(b), F(zz), F(k), F(sum), F(e), r);
  }

  lemma Doubled<G(!new)>(c: Curve<G>, p: Ge, g: G, a: int, b: int, zz: int, k: int, sum: int, e: int, r: P1p1)
    requires EdwardsCurve(c) && Rep(c, p, g)
    requires a == FMul(F(p.x), F(p.x)) && b == FMul(F(p.y), F(p.y)) && zz == FMul(F(p.z), F(p.z)) && k == FAdd(zz, zz)
    requires sum == FAdd(F(p.x), F(p.y)) && e == FMul(sum, sum)
    requires F(r.y) == FAdd(b, a) && F(r.z) == FSub(b, a) && F(r.x) == FSub(e, F(r.y)) && F(r.t) == FSub(k, F(r.z))
    ensures var s := c.group.add(g, g); Completed(F(r.x), F(r.y), F(r.z), F(r.t), c.x(s), c.y(s))
  {
    var s := c.group.add(g, g);
    var X: int, Y: int, Z: int := F(p.x), F(p.y), F(p.z);
    PointLaw(c, g);
    assert On(g, g, g);
    FieldLaw();
    UnifiedDouble(X, Y, Z, c.x(g), c.y(g), c.x(s), c.y(s), X * X, Y * Y, Z * Z, (X + Y) * (X + Y));
    DoubleSteps(X, Y, Z, a, b, zz, k, sum, e, F(r.x), F(r.y), F(r.z), F(r.t));
    CompletedEq((X + Y) * (X + Y) - (Y * Y + X * X), Y * Y + X * X, Y * Y - X * X, 2 * (Z * Z) - (Y * Y - X * X),
                F(r.x), F(r.y), F(r.z), F(r.t), c.x(s), c.y(s));
  }

  lemma DoubleSteps(X: int, Y: int, Z: int, a: int, b: int, zz: int, k: int, sum: int, e: int, x: int, y: int, z: int, t: int)
    requires a == FMul(X, X) && b == FMul(Y, Y) && zz == FMul(Z, Z) && k == FAdd(zz, zz) && sum == FAdd(X, Y) && e == FMul(sum, sum)
    requires y == FAdd(b, a) && z == FSub(b, a) && x == FSub(e, y) && t == FSub(k, z)
    ensures Eq(x, (X + Y) * (X + Y) - (Y * Y + X * X)) && Eq(y, Y * Y + X * X)
    ensures Eq(z, Y * Y - X * X) && Eq(t, 2 * (Z * Z) - (Y * Y - X * X))
  {
    EqFMul(X, X);
    EqFMul(Y, Y);
    EqFAdd(b, a);
    EqFSub(b, a);
    EqAdd(b, Y * Y, a, X * X);
    EqFSub(e, y);
    EqFSub(k, z);
    SquareOfSum(X, Y, sum, e);
    EqAdd(e, (X + Y) * (X + Y), y, Y * Y + X * X);
    TwiceSquare(Z, zz, k);
    EqAdd(k, 2 * (Z * Z), z, Y * Y - X * X);
  }

  lemma SquareOfSum(X: int, Y: int, sum: int, e: int)
    requires sum == FAdd(X, Y) && e == FMul(sum, sum)
    ensures Eq(e, (X + Y) * (X + Y))
  {
    EqFAdd(X, Y);
    EqFMul(sum, sum);
    EqMul(sum, X + Y, sum, X + Y);
  }

  lemma TwiceSquare(Z: int, zz: int, k: int)
    requires zz == FMul(Z, Z) && k == FAdd(zz, zz)
    ensures Eq(k, 2 * (Z * Z))
  {
    EqFMul(Z, Z);
    EqFAdd(zz, zz);
    EqAdd(zz, Z * Z, zz, Z * Z);
  }

  /** Adding or subtracting: the sign swaps the two factors, and the places of Q + C and Q - C. */
  method AssembleSigned(a: Fe, b: Fe, e: Fe, d: Fe, signbit: nat) returns (r: P1p1)
    requires Below(a, TIGHT) && Below(b, TIGHT) && Below(e, TIGHT) && Below(d, TIGHT)
    ensures Below(r.x, TWO54) && Below(r.y, TWO54) && Below(r.z, TWO54) && Below(r.t, TWO54)
    ensures var C := if signbit == 0 then F(e) else 0 - F(e);
            Eq(F(r.x), F(b) - F(a)) && Eq(F(r.y), F(b) + F(a)) && Eq(F(r.z), F(d) + C) && Eq(F(r.t), F(d) - C)
  {
    var y := Add(b, a, TIGHT, TIGHT);
    var x := Sub(b, a, TIGHT);
    var plus := Add(d, e, TIGHT, TIGHT);
    var minus := Sub(d, e, TIGHT);
    r := if signbit == 0 then P1p1(x, y, plus, minus) else P1p1(x, y, minus, plus);
    EqFSub(F(b), F(a));
    EqFAdd(F(b), F(a));
    EqFAdd(F(d), F(e));
    EqFSub(F(d), F(e));
  }

  lemma NielsSigned<G(!new)>(c: Curve<G>, U: int, V: int, W: int, Z: int, h: G, signbit: nat)
    requires EdwardsCurve(c) && Niels(U, V, W, Z, c.x(h), c.y(h))
    ensures var s := Signed(c, h, signbit);
            if signbit == 0 then Niels(U, V, W, Z, c.x(s), c.y(s)) else Niels(V, U, 0 - W, Z, c.x(s), c.y(s))
  {
    if signbit != 0 {
      PointLaw(c, h);
      NielsNeg(U, V, W, Z, c.x(h), c.y(h), c.x(c.group.neg(h)));
    }
  }

  lemma AddedSigned<G(!new)>(c: Curve<G>, p: Ge, g: G, U: int, V: int, W: int, Z2: int, h: G, signbit: nat, A: int, B: int, E: int, Q: int, r: P1p1)
    requires EdwardsCurve(c) && RepFull(c, p, g) && Niels(U, V, W, Z2, c.x(h), c.y(h))
    requires Eq(A, (F(p.y) - F(p.x)) * (if signbit == 0 then U else V)) && Eq(B, (F(p.y) + F(p.x)) * (if signbit == 0 then V else U))
    requires Eq(E, F(p.t) * W) && Eq(Q, 2 * (F(p.z) * Z2))
    requires var C := if signbit == 0 then E else 0 - E;
             Eq(F(r.x), B - A) && Eq(F(r.y), B + A) && Eq(F(r.z), Q + C) && Eq(F(r.t), Q - C)
    ensures var s := c.group.add(g, Signed(c, h, signbit)); Completed(F(r.x), F(r.y), F(r.z), F(r.t), c.x(s), c.y(s))
  {
    NielsSigned(c, U, V, W, Z2, h, signbit);
    if signbit == 0 {
      Added(c, p, g, U, V, W, Z2, h, A, B, E, Q, r);
    } else {
      EqAdd(0, 0, E, F(p.t) * W);
      assert 0 - F(p.t) * W == F(p.t) * (0 - W);
      Added(c, p, g, V, U, 0 - W, Z2, c.group.neg(h), A, B, 0 - E, Q, r);
    }
  }

  method NielsAdd2P1p1<G(!new)>(p: Ge, q: NielsPoint, signbit: nat, ghost c: Curve<G>, ghost g: G, ghost h: G) returns (r: P1p1)
    requires EdwardsCurve(c) && RepFull(c, p, g) && RepNiels(c, q, h)
    ensures RepP1(c, r, c.group.add(g, Signed(c, h, signbit)))
  {
    var a := MulDiff(p.y, p.x, if signbit == 0 then q.ysubx else q.xaddy);
    var b := MulSum(p.y, p.x, if signbit == 0 then q.xaddy else q.ysubx);
    var e := Mul(p.t, q.t2d);
    var d := AddReduce(p.z, p.z);
    r := AssembleSigned(a, b, e, d, signbit);
    EqFMul(F(p.t), F(q.t2d));
    EqFAdd(F(p.z), F(p.z));
    AddedSigned(c, p, g, F(q.ysubx), F(q.xaddy), F(q.t2d), 1, h, signbit, F(a), F(b), F(e), F(d), r);
  }

  /** 2 a b, reduced. */
  method TwiceMulReduce(a: Fe, b: Fe) returns (r: Fe)
    requires Below(a, TIGHT) && Below(b, TIGHT)
    ensures Below(r, TIGHT) && Eq(F(r), 2 * (F(a) * F(b)))
  {
    var m := Mul(a, b);
    r := AddReduce(m, m);
    EqFMul(F(a), F(b));
    EqFAdd(F(m), F(m));
    EqAdd(F(m), F(a) * F(b), F(m), F(a) * F(b));
  }

  method PNielsAddP1p1<G(!new)>(p: Ge, q: PNiels, signbit: nat, ghost c: Curve<G>, ghost g: G, ghost h: G) returns (r: P1p1)
    requires EdwardsCurve(c) && RepFull(c, p, g) && RepPNiels(c, q, h)
    ensures RepP1(c, r, c.group.add(g, Signed(c, h, signbit)))
  {
    var a := MulDiff(p.y, p.x, if signbit == 0 then q.ysubx else q.xaddy);
    var b := MulSum(p.y, p.x, if signbit == 0 then q.xaddy else q.ysubx);
    var e := Mul(p.t, q.t2d);
    var d := TwiceMulReduce(p.z, q.z);
    r := AssembleSigned(a, b, e, d, signbit);
    EqFMul(F(p.t), F(q.t2d));
    AddedSigned(c, p, g, F(q.ysubx), F(q.xaddy), F(q.t2d), F(q.z), h, signbit, F(a), F(b), F(e), F(d), r);
  }

  // ---- whole operations ----

  method Neutral<G(!new)>(ghost c: Curve<G>) returns (r: Ge)
    requires EdwardsCurve(c)
    ensures RepFull(c, r, c.group.zero)
  {
    r := Ge(ZERO, ONE, ONE, ZERO);
    CurveConstants();
    ResidueIs(0);
    ResidueIs(1);
  }

  /** 2p, leaving the fourth coordinate as it was in `stale`. */
  method DoublePartial<G(!new)>(p: Ge, stale: Fe, ghost c: Curve<G>, ghost g: G) returns (r: Ge)
    requires EdwardsCurve(c) && Rep(c, p, g)
    ensures Rep(c, r, c.group.add(g, g)) && r.t == stale
  {
    var t := DoubleP1p1(p, c, g);
    r := P1p1ToPartial(t, stale, c, c.group.add(g, g));
  }

  method Double<G(!new)>(p: Ge, ghost c: Curve<G>, ghost g: G) returns (r: Ge)
    requires EdwardsCurve(c) && Rep(c, p, g)
    ensures RepFull(c, r, c.group.add(g, g))
  {
    var t := DoubleP1p1(p, c, g);
    r := P1p1ToFull(t, c, c.group.add(g, g));
  }

  method AddPoints<G(!new)>(p: Ge, q: Ge, ghost c: Curve<G>, ghost g: G, ghost h: G) returns (r: Ge)
    requires EdwardsCurve(c) && RepFull(c, p, g) && RepFull(c, q, h)
    ensures RepFull(c, r, c.group.add(g, h))
  {
    var t := AddP1p1(p, q, c, g, h);
    r := P1p1ToFull(t, c, c.group.add(g, h));
  }

  method NielsAdd2<G(!new)>(p: Ge, q: NielsPoint, ghost c: Curve<G>, ghost g: G, ghost h: G) returns (r: Ge)
    requires EdwardsCurve(c) && RepFull(c, p, g) && RepNiels(c, q, h)
    ensures RepFull(c, r, c.group.add(g, h))
  {
    var a := MulDiff(p.y, p.x, q.ysubx);
    var b := MulSum(p.y, p.x, q.xaddy);
    var e := Mul(p.t, q.t2d);
    var d := Add(p.z, p.z, TIGHT, TIGHT);
    var t := Assemble(a, b, e, d);
    EqFMul(F(p.t), F(q.t2d));
    EqFAdd(F(p.z), F(p.z));
    Added(c, p, g, F(q.ysubx), F(q.xaddy), F(q.t2d), 1, h, F(a), F(b), F(e), F(d), t);
    r := P1p1ToFull(t, c, c.group.add(g, h));
  }

  method PNielsAdd<G(!new)>(p: Ge, q: PNiels, ghost c: Curve<G>, ghost g: G, ghost h: G) returns (r: PNiels)
    requires EdwardsCurve(c) && RepFull(c, p, g) && RepPNiels(c, q, h)
    ensures RepPNiels(c, r, c.group.add(g, h))
  {
    var a := MulDiff(p.y, p.x, q.ysubx);
    var b := MulSum(p.y, p.x, q.xaddy);
    var e := Mul(p.t, q.t2d);
    var d := TwiceMul(p.z, q.z);
    var t := Assemble(a, b, e, d);
    EqFMul(F(p.t), F(q.t2d));
    Added(c, p, g, F(q.ysubx), F(q.xaddy), F(q.t2d), F(q.z), h, F(a), F(b), F(e), F(d), t);
    var s := P1p1ToFull(t, c, c.group.add(g, h));
    r := FullToPNiels(s, c, c.group.add(g, h));
  }
}
