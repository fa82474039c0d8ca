/** Arithmetic modulo 2^255 - 19, on five limbs of 51 bits with lazy reduction. */
module Field {
  import opened Words

  const TWO51: nat := 0x8_0000_0000_0000
  const TWO52: nat := 0x10_0000_0000_0000
  const TWO53: nat := 0x20_0000_0000_0000
  const TWO54: nat := 0x40_0000_0000_0000
  const TWO102: nat := 0x40_0000_0000_0000_0000_0000_0000
  const TWO153: nat := 0x200_0000_0000_0000_0000_0000_0000_0000_0000_0000
  const TWO204: nat := 0x1000_0000_0000_0000_0000_0000_0000_0000_0000_0000_0000_0000_0000
  const P: nat := 0x7fffffffffffffffffffffffffffffffffffffffffffffffffffffffffffffed

  /** The limb bound of multiplication results. */
  const TIGHT: nat := TWO51 + 0x8000

  datatype Fe = Fe(x0: nat, x1: nat, x2: nat, x3: nat, x4: nat)

  function Val5(a0: int, a1: int, a2: int, a3: int, a4: int): int {
    a0 + a1 * TWO51 + a2 * TWO102 + a3 * TWO153 + a4 * TWO204
  }

  function Val(a: Fe): int {
    Val5(a.x0, a.x1, a.x2, a.x3, a.x4)
  }

  /** Names the modulus where the definition of a residue is used, and nowhere else. */
  ghost predicate Modulus(m: int) { m == P }

  ghost predicate IsResidue(a: int, r: int) {
    0 <= r < P && forall m {:trigger Modulus(m)} :: Modulus(m) ==> r == a % m
  }

  /** The residue of `a` modulo p. */
  ghost function Residue(a: int): (r: nat)
    ensures r < P
  {
    assert IsResidue(a, a % P);
    var r :| IsResidue(a, r);
    r
  }

  lemma ResidueIs(a: int)
    ensures Residue(a) == a % P
  {
    assert Modulus(P);
    assert IsResidue(a, Residue(a));
  }

  /** The field element a limb vector stands for. */
  ghost function F(a: Fe): (f: nat)
    ensures f < P
  {
    Residue(Val(a))
  }

  predicate Below(a: Fe, n: nat) {
    a.x0 < n && a.x1 < n && a.x2 < n && a.x3 < n && a.x4 < n
  }

  // ---- the field ----

  ghost function FAdd(a: int, b: int): (r: nat) ensures r < P { Residue(a + b) }
  ghost function FSub(a: int, b: int): (r: nat) ensures r < P { Residue(a - b) }
  ghost function FMul(a: int, b: int): (r: nat) ensures r < P { Residue(a * b) }

  /** Congruence modulo p. */
  lemma Congruent(x: int, y: int, k: int)
    requires x == y + k * P
    ensures Residue(x) == Residue(y)
  {
    DivModUnique(x, P, y / P + k, y % P);
    ResidueIs(x);
    ResidueIs(y);
  }

  /** A number is its residue and a multiple of p. */
  lemma Quotient(a: int) returns (q: int)
    ensures a == Residue(a) + q * P
  {
    ResidueIs(a);
    q := a / P;
  }

  lemma FAddCong(v: int, a: int, b: int, k: int)
    requires v == a + b + k * P
    ensures Residue(v) == FAdd(Residue(a), Residue(b))
  {
    var m := Quotient(a);
    var n := Quotient(b);
    Congruent(v, Residue(a) + Residue(b), k + m + n);
  }

  lemma FSubCong(v: int, a: int, b: int, k: int)
    requires v == a - b + k * P
    ensures Residue(v) == FSub(Residue(a), Residue(b))
  {
    var m := Quotient(a);
    var n := Quotient(b);
    Congruent(v, Residue(a) - Residue(b), k + m - n);
  }

  lemma FMulCong(v: int, a: int, b: int, k: int)
    requires v == a * b + k * P
    ensures Residue(v) == FMul(Residue(a), Residue(b))
  {
    var m := Quotient(a);
    var n := Quotient(b);
    MulExpand(Residue(a), Residue(b), m, n);
    Congruent(v, Residue(a) * Residue(b), k + m * Residue(b) + n * Residue(a) + m * n * P);
  }

  /** A residue is its own residue. */
  lemma ResidueOfResidue(a: int)
    ensures Residue(Residue(a)) == Residue(a)
  {
    ResidueIs(a);
    ResidueIs(a % P);
  }

  lemma MulExpand(x: int, y: int, m: int, n: int)
    ensures (x + m * P) * (y + n * P) == x * y + (m * y + n * x + m * n * P) * P
  {
    assert (x + m * P) * (y + n * P) == x * y + x * (n * P) + m * P * y + m * P * (n * P);
  }

  // ---- limbs ----

  /** The low 51 bits and the rest. */
  method Split51(t: nat) returns (lo: nat, c: nat)
    requires t < TWO51 * TWO64
    ensures t == lo + c * TWO51 && lo < TWO51
  {
    lo := Lo64(t) % TWO51;
    c := t / TWO51;
    DivDiv(t, TWO51, 0x2000);
  }

  /** out = a + b; the variant after basic operations is the same code. */
  method Add(a: Fe, b: Fe, ghost m: nat, ghost n: nat) returns (r: Fe)
    requires Below(a, m) && Below(b, n) && m + n <= TWO64
    ensures Below(r, m + n) && F(r) == FAdd(F(a), F(b))
  {
    r := Fe(a.x0 + b.x0, a.x1 + b.x1, a.x2 + b.x2, a.x3 + b.x3, a.x4 + b.x4);
    FAddCong(Val(r), Val(a), Val(b), 0);
  }

  /** out = a + 2p - b. */
  method Sub(a: Fe, b: Fe, ghost m: nat) returns (r: Fe)
    requires Below(a, m) && Below(b, TIGHT) && m + TWO52 <= TWO64
    ensures Below(r, m + TWO52) && F(r) == FSub(F(a), F(b))
  {
    r := Fe(a.x0 + 0xfffffffffffda - b.x0, a.x1 + 0xffffffffffffe - b.x1, a.x2 + 0xffffffffffffe - b.x2,
            a.x3 + 0xffffffffffffe - b.x3, a.x4 + 0xffffffffffffe - b.x4);
    FSubCong(Val(r), Val(a), Val(b), 2);
  }

  /** out = a + 4p - b, where b is the result of a basic operation. */
  method SubAfterBasic(a: Fe, b: Fe, ghost m: nat) returns (r: Fe)
    requires Below(a, m) && Below(b, TWO53 - 0x100) && m + TWO53 <= TWO64
    ensures Below(r, m + TWO53) && F(r) == FSub(F(a), F(b))
  {
    r := Fe(a.x0 + 0x1fffffffffffb4 - b.x0, a.x1 + 0x1ffffffffffffc - b.x1, a.x2 + 0x1ffffffffffffc - b.x2,
            a.x3 + 0x1ffffffffffffc - b.x3, a.x4 + 0x1ffffffffffffc - b.x4);
    FSubCong(Val(r), Val(a), Val(b), 4);
  }

  /** One carry pass; the carry out of the top limb comes back as 19 times itself. */
  method CarryPass(t0: nat, t1: nat, t2: nat, t3: nat, t4: nat, ghost v: int, ghost k: int) returns (r: Fe)
    requires t0 < TWO56 && t1 < TWO56 && t2 < TWO56 && t3 < TWO56 && t4 < TWO56 && Val5(t0, t1, t2, t3, t4) == v + k * P
    ensures Below(r, TIGHT) && F(r) == Residue(v)
  {
    var r0, c0 := Split51(t0);
    var r1, c1 := Split51(t1 + c0);
    var r2, c2 := Split51(t2 + c1);
    var r3, c3 := Split51(t3 + c2);
    var r4, c4 := Split51(t4 + c3);
    r := Fe(r0 + c4 * 19, r1, r2, r3, r4);
    CarryValue(t0, t1, t2, t3, t4, r0, r1, r2, r3, r4, c0, c1, c2, c3, c4);
    Congruent(Val(r), v, k - c4);
  }

  lemma CarryValue(t0: nat, t1: nat, t2: nat, t3: nat, t4: nat, r0: nat, r1: nat, r2: nat, r3: nat, r4: nat,
                   c0: nat, c1: nat, c2: nat, c3: nat, c4: nat)
    requires t0 == r0 + c0 * TWO51 && t1 + c0 == r1 + c1 * TWO51 && t2 + c1 == r2 + c2 * TWO51
    requires t3 + c2 == r3 + c3 * TWO51 && t4 + c3 == r4 + c4 * TWO51
    ensures Val5(r0 + c4 * 19, r1, r2, r3, r4) == Val5(t0, t1, t2, t3, t4) - c4 * P
  {
  }

  method AddReduce(a: Fe, b: Fe) returns (r: Fe)
    requires Below(a, TWO54) && Below(b, TWO54)
    ensures Below(r, TIGHT) && F(r) == FAdd(F(a), F(b))
  {
    FAddCong(Val(a) + Val(b), Val(a), Val(b), 0);
    r := CarryPass(a.x0 + b.x0, a.x1 + b.x1, a.x2 + b.x2, a.x3 + b.x3, a.x4 + b.x4, Val(a) + Val(b), 0);
  }

  method SubReduce(a: Fe, b: Fe) returns (r: Fe)
    requires Below(a, TWO54) && Below(b, TWO53 - 0x100)
    ensures Below(r, TIGHT) && F(r) == FSub(F(a), F(b))
  {
    FSubCong(Val(a) - Val(b), Val(a), Val(b), 0);
    r := CarryPass(a.x0 + 0x1fffffffffffb4 - b.x0, a.x1 + 0x1ffffffffffffc - b.x1, a.x2 + 0x1ffffffffffffc - b.x2,
                   a.x3 + 0x1ffffffffffffc - b.x3, a.x4 + 0x1ffffffffffffc - b.x4, Val(a) - Val(b), 4);
  }

  method Neg(a: Fe) returns (r: Fe)
    requires Below(a, TIGHT)
    ensures Below(r, TIGHT) && F(r) == FSub(0, F(a))
  {
    ResidueIs(0);
    FSubCong(-Val(a), 0, Val(a), 0);
    r := CarryPass(0xfffffffffffda - a.x0, 0xffffffffffffe - a.x1, 0xffffffffffffe - a.x2, 0xffffffffffffe - a.x3,
                   0xffffffffffffe - a.x4, -Val(a), 2);
  }

  // ---- multiplication ----

  const TWO108: nat := 0x1000_0000_0000_0000_0000_0000_0000

  lemma Distribute(x: int, y0: int, y1: int, y2: int, y3: int, y4: int)
    ensures x * (y0 + y1 * TWO51 + y2 * TWO102 + y3 * TWO153 + y4 * TWO204) ==
            x * y0 + x * y1 * TWO51 + x * y2 * TWO102 + x * y3 * TWO153 + x * y4 * TWO204
  {
  }

  lemma TimesLimb(x: int, y: int, x0: int, x1: int, x2: int, x3: int, x4: int)
    requires x == x0 + x1 * TWO51 + x2 * TWO102 + x3 * TWO153 + x4 * TWO204
    ensures x * y == x0 * y + x1 * y * TWO51 + x2 * y * TWO102 + x3 * y * TWO153 + x4 * y * TWO204
  {
    Distribute(y, x0, x1, x2, x3, x4);
  }

  lemma Columns(x: int, y: int, x0: nat, x1: nat, x2: nat, x3: nat, x4: nat, y0: nat, y1: nat, y2: nat, y3: nat, y4: nat)
    requires x == x0 + x1 * TWO51 + x2 * TWO102 + x3 * TWO153 + x4 * TWO204
    requires y == y0 + y1 * TWO51 + y2 * TWO102 + y3 * TWO153 + y4 * TWO204
    ensures x * y == x0 * y0 + (x0 * y1 + x1 * y0) * TWO51 + (x0 * y2 + x2 * y0 + x1 * y1) * TWO102
            + (x0 * y3 + x3 * y0 + x1 * y2 + x2 * y1) * TWO153
            + (x0 * y4 + x4 * y0 + x3 * y1 + x1 * y3 + x2 * y2) * TWO204
            + (x4 * y1 + x1 * y4 + x2 * y3 + x3 * y2) * (TWO51 * TWO204) + (x4 * y2 + x2 * y4 + x3 * y3) * (TWO102 * TWO204)
            + (x4 * y3 + x3 * y4) * (TWO153 * TWO204) + x4 * y4 * (TWO204 * TWO204)
  {
    Distribute(x, y0, y1, y2, y3, y4);
    TimesLimb(x, y0, x0, x1, x2, x3, x4);
    TimesLimb(x, y1, x0, x1, x2, x3, x4);
    TimesLimb(x, y2, x0, x1, x2, x3, x4);
    TimesLimb(x, y3, x0, x1, x2, x3, x4);
    TimesLimb(x, y4, x0, x1, x2, x3, x4);
  }

  /** The columns at and above 2^255 fold back with weight 19. */
  lemma Fold(s0: int, s1: int, s2: int, s3: int, s4: int, s5: int, s6: int, s7: int, s8: int)
    ensures Val5(s0 + 19 * s5, s1 + 19 * s6, s2 + 19 * s7, s3 + 19 * s8, s4) ==
            s0 + s1 * TWO51 + s2 * TWO102 + s3 * TWO153 + s4 * TWO204 + s5 * (TWO51 * TWO204) + s6 * (TWO102 * TWO204)
            + s7 * (TWO153 * TWO204) + s8 * (TWO204 * TWO204) - (s5 + s6 * TWO51 + s7 * TWO102 + s8 * TWO153) * P
  {
  }

  lemma ProductBound(a: nat, b: nat)
    requires a < TWO54 && b < TWO54
    ensures 0 <= a * b < TWO108
  {
    MulBound(a, b, TWO54 - 1, TWO54 - 1);
  }

  lemma DotBound(a0: nat, b0: nat, a1: nat, b1: nat, a2: nat, b2: nat, a3: nat, b3: nat, a4: nat, b4: nat)
    requires a0 < TWO54 && a1 < TWO54 && a2 < TWO54 && a3 < TWO54 && a4 < TWO54
    requires b0 < TWO54 && b1 < TWO54 && b2 < TWO54 && b3 < TWO54 && b4 < TWO54
    ensures 0 <= a0 * b0 < TWO108 && 0 <= a1 * b1 < TWO108 && 0 <= a2 * b2 < TWO108 && 0 <= a3 * b3 < TWO108 && 0 <= a4 * b4 < TWO108
  {
    ProductBound(a0, b0);
    ProductBound(a1, b1);
    ProductBound(a2, b2);
    ProductBound(a3, b3);
    ProductBound(a4, b4);
  }

  /** The five columns of a product, folded; they equal the product up to a multiple of p. */
  method MulColumns(a: Fe, b: Fe) returns (t0: nat, t1: nat, t2: nat, t3: nat, t4: nat, ghost k: int)
    requires Below(a, TWO54) && Below(b, TWO54)
    ensures t0 < 77 * TWO108 && t1 < 77 * TWO108 && t2 < 77 * TWO108 && t3 < 23 * TWO108 && t4 < 5 * TWO108
    ensures Val5(t0, t1, t2, t3, t4) == Val(a) * Val(b) + k * P
  {
    var r0, r1, r2, r3, r4 := b.x0, b.x1, b.x2, b.x3, b.x4;
    var s0, s1, s2, s3, s4 := a.x0, a.x1, a.x2, a.x3, a.x4;
    DotBound(r0, s0, r0, s1, r0, s2, r0, s3, r0, s4);
    DotBound(r1, s0, r1, s1, r1, s2, r1, s3, r1, s4);
    DotBound(r2, s0, r2, s1, r2, s2, r2, s3, r2, s4);
    DotBound(r3, s0, r3, s1, r3, s2, r3, s3, r3, s4);
    DotBound(r4, s0, r4, s1, r4, s2, r4, s3, r4, s4);
    t0 := r0 * s0;
    t1 := r0 * s1 + r1 * s0;
    t2 := r0 * s2 + r2 * s0 + r1 * s1;
    t3 := r0 * s3 + r3 * s0 + r1 * s2 + r2 * s1;
    t4 := r0 * s4 + r4 * s0 + r3 * s1 + r1 * s3 + r2 * s2;
    t0 := t0 + 19 * (r4 * s1) + 19 * (r1 * s4) + 19 * (r2 * s3) + 19 * (r3 * s2);
    t1 := t1 + 19 * (r4 * s2) + 19 * (r2 * s4) + 19 * (r3 * s3);
    t2 := t2 + 19 * (r4 * s3) + 19 * (r3 * s4);
    t3 := t3 + 19 * (r4 * s4);
    Columns(Val(b), Val(a), r0, r1, r2, r3, r4, s0, s1, s2, s3, s4);
    var s5, s6, s7, s8 := r4 * s1 + r1 * s4 + r2 * s3 + r3 * s2, r4 * s2 + r2 * s4 + r3 * s3, r4 * s3 + r3 * s4, r4 * s4;
    Fold(r0 * s0, r0 * s1 + r1 * s0, r0 * s2 + r2 * s0 + r1 * s1, r0 * s3 + r3 * s0 + r1 * s2 + r2 * s1,
         r0 * s4 + r4 * s0 + r3 * s1 + r1 * s3 + r2 * s2, s5, s6, s7, s8);
    k := -(s5 + s6 * TWO51 + s7 * TWO102 + s8 * TWO153);
  }

  lemma MulCarryValue(t0: nat, t1: nat, t2: nat, t3: nat, t4: nat, r0: nat, r1: nat, r2: nat, r3: nat, r4: nat,
                      c0: nat, c1: nat, c2: nat, c3: nat, c4: nat, s0: nat, c5: nat)
    requires t0 == r0 + c0 * TWO51 && t1 + c0 == r1 + c1 * TWO51 && t2 + c1 == r2 + c2 * TWO51
    requires t3 + c2 == r3 + c3 * TWO51 && t4 + c3 == r4 + c4 * TWO51 && r0 + c4 * 19 == s0 + c5 * TWO51
    ensures Val5(s0, r1 + c5, r2, r3, r4) == Val5(t0, t1, t2, t3, t4) - c4 * P
  {
  }

  /** The carries after a product: a full pass, then one step from the low limb. */
  method MulCarry(t0: nat, t1: nat, t2: nat, t3: nat, t4: nat) returns (r: Fe, ghost k: int)
    requires t0 < 77 * TWO108 && t1 < 77 * TWO108 && t2 < 77 * TWO108 && t3 < 23 * TWO108 && t4 < 5 * TWO108
    ensures Below(r, TIGHT) && Val(r) == Val5(t0, t1, t2, t3, t4) + k * P
  {
    var r0, c0 := Split51(t0);
    var r1, c1 := Split51(t1 + c0);
    var r2, c2 := Split51(t2 + c1);
    var r3, c3 := Split51(t3 + c2);
    var r4, c4 := Split51(t4 + c3);
    assert r0 + c4 * 19 < TWO64;
    var s0, c5 := Split51(r0 + c4 * 19);
    r := Fe(s0, r1 + c5, r2, r3, r4);
    k := -c4;
    MulCarryValue(t0, t1, t2, t3, t4, r0, r1, r2, r3, r4, c0, c1, c2, c3, c4, s0, c5);
  }

  method Mul(a: Fe, b: Fe) returns (r: Fe)
    requires Below(a, TWO54) && Below(b, TWO54)
    ensures Below(r, TIGHT) && F(r) == FMul(F(a), F(b))
  {
    var t0, t1, t2, t3, t4, k := MulColumns(a, b);
    ghost var c;
    r, c := MulCarry(t0, t1, t2, t3, t4);
    FMulCong(Val(r), Val(a), Val(b), k + c);
  }

  lemma Scaled(d: nat, c: nat, a: nat, b: nat)
    requires d == c * a
    ensures d * b == c * (a * b)
  {
  }

  lemma SquareTerms(r0: nat, r1: nat, r2: nat, r3: nat, r4: nat, d0: nat, d1: nat, d2: nat, d419: nat, d4: nat, d319: nat)
    requires d319 == 19 * r3 && d0 == 2 * r0 && d1 == 2 * r1 && d2 == 38 * r2 && d419 == 19 * r4 && d4 == 38 * r4
    ensures d4 * r1 == 38 * (r4 * r1) && d2 * r3 == 38 * (r2 * r3) && d0 * r1 == 2 * (r0 * r1) && d4 * r2 == 38 * (r4 * r2)
    ensures d0 * r2 == 2 * (r0 * r2) && d4 * r3 == 38 * (r4 * r3) && d0 * r3 == 2 * (r0 * r3) && d1 * r2 == 2 * (r1 * r2)
    ensures d319 * r3 == 19 * (r3 * r3) && d419 * r4 == 19 * (r4 * r4) && d0 * r4 == 2 * (r0 * r4) && d1 * r3 == 2 * (r1 * r3)
  {
    Scaled(d4, 38, r4, r1);
    Scaled(d4, 38, r4, r2);
    Scaled(d4, 38, r4, r3);
    Scaled(d2, 38, r2, r3);
    Scaled(d0, 2, r0, r1);
    Scaled(d0, 2, r0, r2);
    Scaled(d0, 2, r0, r3);
    Scaled(d0, 2, r0, r4);
    Scaled(d1, 2, r1, r2);
    Scaled(d1, 2, r1, r3);
    Scaled(d419, 19, r4, r4);
    Scaled(d319, 19, r3, r3);
  }

  /** The columns of a square, with the doubled terms the source uses. */
  method SquareColumns(a: Fe) returns (t0: nat, t1: nat, t2: nat, t3: nat, t4: nat, ghost k: int)
    requires Below(a, TWO54)
    ensures t0 < 77 * TWO108 && t1 < 77 * TWO108 && t2 < 77 * TWO108 && t3 < 23 * TWO108 && t4 < 5 * TWO108
    ensures Val5(t0, t1, t2, t3, t4) == Val(a) * Val(a) + k * P
  {
    var r0, r1, r2, r3, r4 := a.x0, a.x1, a.x2, a.x3, a.x4;
    var d0, d1, d2, d319, d419 := r0 * 2, r1 * 2, r2 * 2 * 19, r3 * 19, r4 * 19;
    var d4 := d419 * 2;
    DotBound(r0, r0, r4, r1, r2, r3, r0, r1, r4, r2);
    DotBound(r3, r3, r0, r2, r1, r1, r4, r3, r0, r3);
    DotBound(r1, r2, r4, r4, r0, r4, r1, r3, r2, r2);
    SquareTerms(r0, r1, r2, r3, r4, d0, d1, d2, d419, d4, d319);
    t0 := r0 * r0 + d4 * r1 + d2 * r3;
    t1 := d0 * r1 + d4 * r2 + d319 * r3;
    t2 := d0 * r2 + r1 * r1 + d4 * r3;
    t3 := d0 * r3 + d1 * r2 + d419 * r4;
    t4 := d0 * r4 + d1 * r3 + r2 * r2;
    k := SquareValue(a, r0, r1, r2, r3, r4);
  }

  lemma SquareValue(a: Fe, r0: nat, r1: nat, r2: nat, r3: nat, r4: nat) returns (k: int)
    requires a == Fe(r0, r1, r2, r3, r4)
    ensures Val5(r0 * r0 + 38 * (r4 * r1) + 38 * (r2 * r3), 2 * (r0 * r1) + 38 * (r4 * r2) + 19 * (r3 * r3),
                 2 * (r0 * r2) + r1 * r1 + 38 * (r4 * r3), 2 * (r0 * r3) + 2 * (r1 * r2) + 19 * (r4 * r4),
                 2 * (r0 * r4) + 2 * (r1 * r3) + r2 * r2) == Val(a) * Val(a) + k * P
  {
    Columns(Val(a), Val(a), r0, r1, r2, r3, r4, r0, r1, r2, r3, r4);
    Fold(r0 * r0, 2 * (r0 * r1), 2 * (r0 * r2) + r1 * r1, 2 * (r0 * r3) + 2 * (r1 * r2), 2 * (r0 * r4) + 2 * (r1 * r3) + r2 * r2,
         2 * (r4 * r1) + 2 * (r2 * r3), 2 * (r4 * r2) + r3 * r3, 2 * (r4 * r3), r4 * r4);
    k := -(2 * (r4 * r1) + 2 * (r2 * r3) + (2 * (r4 * r2) + r3 * r3) * TWO51 + 2 * (r4 * r3) * TWO102 + r4 * r4 * TWO153);
  }

  method Square(a: Fe) returns (r: Fe)
    requires Below(a, TWO54)
    ensures Below(r, TIGHT) && F(r) == FMul(F(a), F(a))
  {
    var t0, t1, t2, t3, t4, k := SquareColumns(a);
    ghost var c;
    r, c := MulCarry(t0, t1, t2, t3, t4);
    FMulCong(Val(r), Val(a), Val(a), k + c);
  }

  lemma SquareCarryValue(t0: nat, t1: nat, t2: nat, t3: nat, t4: nat, l0: nat, l1: nat, l2: nat, l3: nat, l4: nat,
                         h0: nat, h1: nat, h2: nat, h3: nat, h4: nat)
    requires t0 == l0 + h0 * TWO51 && t1 == l1 + h1 * TWO51 && t2 == l2 + h2 * TWO51 && t3 == l3 + h3 * TWO51 && t4 == l4 + h4 * TWO51
    ensures Val5(l0 + h4 * 19, l1 + h0, l2 + h1, l3 + h2, l4 + h3) == Val5(t0, t1, t2, t3, t4) - h4 * P
  {
  }

  /** The carries inside repeated squaring: every column's high part moves up at once, then one pass. */
  method SquareCarry(t0: nat, t1: nat, t2: nat, t3: nat, t4: nat) returns (r: Fe, ghost k: int)
    requires t0 < 77 * TWO108 && t1 < 77 * TWO108 && t2 < 77 * TWO108 && t3 < 23 * TWO108 && t4 < 5 * TWO108
    ensures Below(r, TIGHT) && Val(r) == Val5(t0, t1, t2, t3, t4) + k * P
  {
    var l0, h0 := Split51(t0);
    var l1, h1 := Split51(t1);
    var l2, h2 := Split51(t2);
    var l3, h3 := Split51(t3);
    var l4, h4 := Split51(t4);
    SquareCarryValue(t0, t1, t2, t3, t4, l0, l1, l2, l3, l4, h0, h1, h2, h3, h4);
    r, k := LastPass(l0 + h4 * 19, l1 + h0, l2 + h1, l3 + h2, l4 + h3);
    k := k - h4;
  }

  method LastPass(u0: nat, u1: nat, u2: nat, u3: nat, u4: nat) returns (r: Fe, ghost k: int)
    requires u0 < TWO64 && u1 < TWO64 - TWO16 && u2 < TWO64 - TWO16 && u3 < TWO64 - TWO16 && u4 < 24 * 0x200_0000_0000_0000
    ensures Below(r, TIGHT) && Val(r) == Val5(u0, u1, u2, u3, u4) + k * P
  {
    var r0, c0 := Split51(u0);
    var r1, c1 := Split51(u1 + c0);
    var r2, c2 := Split51(u2 + c1);
    var r3, c3 := Split51(u3 + c2);
    var r4, c4 := Split51(u4 + c3);
    CarryValue(u0, u1, u2, u3, u4, r0, r1, r2, r3, r4, c0, c1, c2, c3, c4);
    r := Fe(r0 + c4 * 19, r1, r2, r3, r4);
    k := 0;
    k := k - c4;
  }

  /** x^e in the field. */
  ghost function FPow(x: int, e: nat): (r: nat)
    ensures r < P
  {
    if e == 0 then 1 else FMul(x, FPow(x, e - 1))
  }

  lemma FMulAssoc(a: int, b: int, c: int)
    ensures FMul(FMul(a, b), c) == FMul(a, FMul(b, c)) == Residue(a * b * c)
  {
    FMulReduce(a * b, c);
    FMulReduce(b * c, a);
    assert b * c * a == a * b * c;
    assert Residue(b * c) * a == a * Residue(b * c);
  }

  lemma FMulReduce(x: int, c: int)
    ensures Residue(Residue(x) * c) == Residue(x * c)
  {
    var k := Quotient(x);
    assert (Residue(x) + k * P) * c == Residue(x) * c + k * c * P;
    Congruent(x * c, Residue(x) * c, k * c);
  }

  lemma {:induction false} FPowAdd(x: int, m: nat, n: nat)
    ensures FPow(x, m + n) == FMul(FPow(x, m), FPow(x, n))
  {
    if m == 0 {
      FMulOne(FPow(x, n));
    } else {
      FPowAdd(x, m - 1, n);
      FMulAssoc(x, FPow(x, m - 1), FPow(x, n));
    }
  }

  /** out = in^(2^count). */
  method SquareTimes(a: Fe, count: nat) returns (r: Fe)
    requires Below(a, TWO54) && count >= 1
    ensures Below(r, TIGHT) && F(r) == FPow(F(a), Power(2, count))
  {
    r := a;
    var left := count;
    ghost var e: nat := 0;
    FPowOne(F(a));
    while left > 0
      invariant e + left == count && Below(r, TWO54) && (e > 0 ==> Below(r, TIGHT)) && F(r) == FPow(F(a), Power(2, e))
    {
      var t0, t1, t2, t3, t4, k := SquareColumns(r);
      ghost var was, c := r, 0;
      r, c := SquareCarry(t0, t1, t2, t3, t4);
      FMulCong(Val(r), Val(was), Val(was), k + c);
      FPowAdd(F(a), Power(2, e), Power(2, e));
      left, e := left - 1, e + 1;
    }
  }

  lemma FMulOne(x: nat)
    requires x < P
    ensures FMul(1, x) == x && FMul(x, 1) == x
  {
    ResidueIs(x);
  }

  lemma FPowOne(x: nat)
    requires x < P
    ensures FPow(x, 1) == x
  {
    FMulOne(x);
  }

  // ---- bytes ----

  /** The low 255 bits of 32 little-endian bytes. */
  method Expand(input: seq<Byte>) returns (r: Fe)
    requires |input| == 32
    ensures Below(r, TWO51) && Val(r) == LE(input) % TWO255
  {
    var x0, x1, x2, x3 := Load4(input, 0);
    var r0 := x0 % TWO51;
    var r1 := Straddle(x0, x1, TWO51, 0x2000, 0x40_0000_0000, 0x2000);
    var r2 := Straddle(x1, x2, 0x40_0000_0000, 0x400_0000, 0x200_0000, 0x2000);
    var r3 := Straddle(x2, x3, 0x200_0000, 0x80_0000_0000, 0x1000, 0x2000);
    var r4 := x3 / 0x1000 % TWO51;
    r := Fe(r0, r1, r2, r3, r4);
    ExpandValue(x0, x1, x2, x3);
  }

  lemma ExpandValue(x0: nat, x1: nat, x2: nat, x3: nat)
    requires x0 < TWO64 && x1 < TWO64 && x2 < TWO64 && x3 < TWO64
    ensures Val5(x0 % TWO51, x0 / TWO51 + x1 % 0x40_0000_0000 * 0x2000, x1 / 0x40_0000_0000 + x2 % 0x200_0000 * 0x400_0000,
                 x2 / 0x200_0000 + x3 % 0x1000 * 0x80_0000_0000, x3 / 0x1000 % TWO51)
         == (x0 + TWO64 * x1 + TWO128 * x2 + TWO192 * x3) % TWO255
  {
    var h := x3 / 0x1000 / TWO51;
    DivModUnique(x0 + TWO64 * x1 + TWO128 * x2 + TWO192 * x3, TWO255, h,
                 x0 + TWO64 * x1 + TWO128 * x2 + TWO192 * (x3 % 0x1000 + 0x1000 * (x3 / 0x1000 % TWO51)));
  }

  /** One carry pass upward; what leaves the top limb is returned. */
  method CarryUp(t: Fe) returns (r: Fe, c: nat)
    requires Below(t, TWO64 - TWO16)
    ensures Below(r, TWO51) && Val(r) + c * TWO255 == Val(t) && c <= TWO16
  {
    var r0, c0 := Split51(t.x0);
    var r1, c1 := Split51(t.x1 + c0);
    var r2, c2 := Split51(t.x2 + c1);
    var r3, c3 := Split51(t.x3 + c2);
    var r4, c4 := Split51(t.x4 + c3);
    CarryValue(t.x0, t.x1, t.x2, t.x3, t.x4, r0, r1, r2, r3, r4, c0, c1, c2, c3, c4);
    r, c := Fe(r0, r1, r2, r3, r4), c4;
  }

  /** A pass whose carry out comes back into the low limb as 19 times itself. */
  method CarryFull(t: Fe) returns (r: Fe, ghost c: nat)
    requires Below(t, TWO64 - TWO16)
    ensures Below(Fe(0, r.x1, r.x2, r.x3, r.x4), TWO51) && r.x0 < TWO51 + 19 * TWO16 && Val(r) + c * P == Val(t)
    ensures c * TWO255 <= Val(t)
    ensures t.x0 < TWO51 + 20 * TWO16 && Below(Fe(0, t.x1, t.x2, t.x3, t.x4), TWO51) ==> Below(r, TWO51)
  {
    var s, out := CarryUp(t);
    r, c := Fe(s.x0 + 19 * out, s.x1, s.x2, s.x3, s.x4), out;
    ValBound(s);
  }

  lemma Canonical(v: nat, w: nat, c: nat)
    requires v < TWO255 && w < TWO255 && w + c * P == v + 19 && c * TWO255 <= v + 19
    ensures w >= 19 && w - 19 == Residue(v)
  {
    ResidueIs(v);
    assert c <= 1;
    DivModUnique(v, P, c, w - 19);
  }

  lemma ValBound(a: Fe)
    requires Below(a, TWO51)
    ensures 0 <= Val(a) < TWO255
  {
  }

  /** A congruent value below 2^255, with normal limbs. */
  method Normalize(input: Fe) returns (u: Fe)
    requires Below(input, TWO63)
    ensures Below(u, TWO51) && F(u) == F(input)
  {
    var t, c1 := CarryFull(input);
    ghost var c2;
    u, c2 := CarryFull(t);
    Congruent(Val(input), Val(u), c1 + c2);
  }

  /** Adding 19 and carrying tells whether the value is at least p. */
  method Offset(u: Fe) returns (w: Fe)
    requires Below(u, TWO51)
    ensures Below(w, TWO51) && Val(w) == F(u) + 19
  {
    ghost var c;
    w, c := CarryFull(u.(x0 := u.x0 + 19));
    ValBound(u);
    ValBound(w);
    Canonical(Val(u), Val(w), c);
  }

  /** Taking the offset away again, modulo 2^255. */
  method Restore(w: Fe, ghost f: nat) returns (r: Fe)
    requires Below(w, TWO51) && Val(w) == f + 19 && f < P
    ensures Below(r, TWO51) && Val(r) == f
  {
    var x := Fe(w.x0 + TWO51 - 19, w.x1 + TWO51 - 1, w.x2 + TWO51 - 1, w.x3 + TWO51 - 1, w.x4 + TWO51 - 1);
    assert Val(x) == f + TWO255;
    var c;
    r, c := CarryUp(x);
    ValBound(r);
  }

  lemma PackedValue(t0: nat, t1: nat, t2: nat, t3: nat, t4: nat)
    requires t4 < TWO51
    ensures (t0 + t1 % 0x2000 * TWO51) + TWO64 * (t1 / 0x2000 + t2 % 0x400_0000 * 0x40_0000_0000)
          + TWO128 * (t2 / 0x400_0000 + t3 % 0x80_0000_0000 * 0x200_0000)
          + TWO192 * (t3 / 0x80_0000_0000 + t4 % TWO52 * 0x1000) == Val5(t0, t1, t2, t3, t4)
  {
  }

  /** The 32 little-endian bytes of the representative in [0, p). */
  method Contract(input: Fe) returns (out: seq<Byte>)
    requires Below(input, TWO63)
    ensures |out| == 32 && LE(out) == F(input)
  {
    var u := Normalize(input);
    var w := Offset(u);
    var t := Restore(w, F(u));
    var w0 := Pack(t.x0, t.x1, 1, TWO51, 0x2000);
    var w1 := Pack(t.x1, t.x2, 0x2000, 0x40_0000_0000, 0x400_0000);
    var w2 := Pack(t.x2, t.x3, 0x400_0000, 0x200_0000, 0x80_0000_0000);
    var w3 := Pack(t.x3, t.x4, 0x80_0000_0000, 0x1000, TWO52);
    out := Store4(w0, w1, w2, w3);
    Store4Value(w0, w1, w2, w3);
    PackedValue(t.x0, t.x1, t.x2, t.x3, t.x4);
  }
}
