/** Square roots of u / v in the field, by one exponentiation: x = u v^3 (u v^7)^((p - 5) / 8). */
module Roots {
  import opened Field
  import opened Edwards

  /** The exponents used, named by variables. */
  ghost predicate Exponent(k: nat) {
    8 * k + 4 == P - 1
  }

  lemma Regroup(u: int, v: int, v3: int, w: int)
    ensures u * v3 * w * (u * v3 * w) * v == u * (u * (v3 * v3 * v) * (w * w))
  {
    var a := u * v3;
    Reorder(a, a, w, w);
    assert a * w * (a * w) == a * a * (w * w);
    Reorder(u, u, v3, v3);
    assert u * u * (v3 * v3) * (w * w) * v == u * (u * (v3 * v3 * v) * (w * w)) by {
      var s, t := v3 * v3, w * w;
      assert u * u * s * t * v == u * (u * s * t * v);
      assert u * s * t * v == u * (s * v) * t;
    }
  }

  /** x^2 v = u q, where q = (u v^7)^((p - 1) / 4). */
  lemma Candidate(u: int, v: int, v3: int, W: int, x: int, k: nat)
    requires Eq(v3, v * v * v) && Eq(W, u * (v3 * v3 * v)) && Eq(x, u * v3 * FPow(W, k))
    ensures Eq(x * x * v, u * FPow(W, 2 * k + 1))
  {
    var w := FPow(W, k);
    var c := u * v3 * w;
    EqMul(x, c, x, c);
    EqMul(x * x, c * c, v, v);
    Regroup(u, v, v3, w);
    OddPower(W, k);
    EqMul(u * (v3 * v3 * v), W, w * w, w * w);
    EqMul(u, u, u * (v3 * v3 * v) * (w * w), FPow(W, 2 * k + 1));
  }

  lemma OddPower(W: int, k: nat)
    ensures Eq(W * (FPow(W, k) * FPow(W, k)), FPow(W, 2 * k + 1))
  {
    var w := FPow(W, k);
    FPowAdd(W, k, k);
    EqFMul(w, w);
    EqMul(W, W, FPow(W, k + k), w * w);
    EqFMul(W, FPow(W, 2 * k));
  }

  /** If u / v is a square then q is 1 or -1. */
  lemma SquareClass(u: int, v: int, v3: int, W: int, x0: int, k: nat)
    requires Fermat() && Exponent(k) && Eq(v3, v * v * v) && Eq(W, u * (v3 * v3 * v)) && Eq(x0 * x0 * v, u) && !Eq(u, 0)
    ensures Eq(FPow(W, 2 * k + 1), 1) || Eq(FPow(W, 2 * k + 1), -1)
  {
    FieldLaw();
    var q := FPow(W, 2 * k + 1);
    var s := x0 * (v * v * v * v);
    IsSquare(u, v, v3, W, x0);
    RootNonZero(u, v, x0);
    FPowAdd(W, 2 * k + 1, 2 * k + 1);
    PowEq(W, s * s, 4 * k + 2);
    PowMul(s, s, 4 * k + 2);
    FPowAdd(s, 4 * k + 2, 4 * k + 2);
    UnitPower(s, 8 * k + 4);
    EqFMul(q, q);
    OneOrMinusOne(q);
  }

  lemma RootNonZero(u: int, v: int, x0: int)
    requires NoZeroDivisors() && Eq(x0 * x0 * v, u) && !Eq(u, 0)
    ensures !Eq(x0 * (v * v * v * v), 0)
  {
    assert x0 * (x0 * v) == x0 * x0 * v;
    if Eq(x0, 0) {
      EqMul(x0, 0, x0 * v, x0 * v);
    }
    if Eq(v, 0) {
      EqMul(x0 * x0, x0 * x0, v, 0);
    }
    NonZero(v, v);
    NonZero(v * v, v);
    NonZero(v * v * v, v);
    NonZero(x0, v * v * v * v);
  }

  lemma UnitPower(s: int, n: nat)
    requires Fermat() && !Eq(s, 0) && n == P - 1
    ensures FPow(s, n) == 1
  {
    ResidueIs(0);
    ResidueOfResidue(s);
    PowEq(s, Residue(s), n);
    assert FPow(Residue(s), n) == 1;
  }

  lemma IsSquare(u: int, v: int, v3: int, W: int, x0: int)
    requires Eq(v3, v * v * v) && Eq(W, u * (v3 * v3 * v)) && Eq(x0 * x0 * v, u)
    ensures var s := x0 * (v * v * v * v); Eq(W, s * s)
  {
    var c := v * v * v;
    EqMul(v3, c, v3, c);
    EqMul(v3 * v3, c * c, v, v);
    EqMul(x0 * x0 * v, u, c * c * v, v3 * v3 * v);
    var s := x0 * (c * v);
    Reorder(x0, x0, c * v, c * v);
    Reorder(c, c, v, v);
    assert x0 * x0 * v * (c * c * v) == x0 * x0 * (v * (c * c * v));
    assert v * (c * c * v) == c * c * (v * v);
  }

  lemma OneOrMinusOne(q: int)
    requires NoZeroDivisors() && Eq(q * q, 1)
    ensures Eq(q, 1) || Eq(q, -1)
  {
    EqAdd(q * q, 1, 1, 1);
    assert (q - 1) * (q + 1) == q * q - 1;
    if !Eq(q - 1, 0) && !Eq(q + 1, 0) {
      NonZero(q - 1, q + 1);
    }
    if Eq(q - 1, 0) {
      EqAdd(q - 1, 0, 1, 1);
    }
    if Eq(q + 1, 0) {
      EqAdd(q + 1, 0, 1, 1);
    }
  }

  /** Two square roots of u / v are equal or opposite. */
  lemma RootsDiffer(u: int, v: int, x: int, x0: int)
    requires NoZeroDivisors() && !Eq(v, 0) && Eq(x * x * v, u) && Eq(x0 * x0 * v, u)
    ensures Eq(x, x0) || Eq(x, -x0)
  {
    EqAdd(x * x * v, u, x0 * x0 * v, u);
    assert (x - x0) * (x + x0) * v == x * x * v - x0 * x0 * v by {
      assert (x - x0) * (x + x0) == x * x - x0 * x0;
      assert (x * x - x0 * x0) * v == x * x * v - x0 * x0 * v;
    }
    if !Eq(x - x0, 0) && !Eq(x + x0, 0) {
      NonZero(x - x0, x + x0);
      NonZero((x - x0) * (x + x0), v);
    }
    if Eq(x - x0, 0) {
      EqAdd(x - x0, 0, x0, x0);
    }
    if Eq(x + x0, 0) {
      EqAdd(x + x0, 0, x0, x0);
    }
  }
}
