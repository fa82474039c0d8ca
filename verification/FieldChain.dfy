/** The two addition chains: z^(p - 2) and z^((p - 5) / 8). */
module FieldChain {
  import opened Words
  import opened Field

  /** `r` is z^e. */
  ghost predicate IsPower(r: Fe, z: int, e: nat) {
    Below(r, TIGHT) && F(r) == FPow(z, e)
  }

  lemma {:induction false} FPowPow(x: int, m: nat, n: nat)
    ensures FPow(FPow(x, m), n) == FPow(x, m * n)
  {
    if n > 0 {
      FPowPow(x, m, n - 1);
      assert m * n == m + m * (n - 1);
      FPowAdd(x, m, m * (n - 1));
    }
  }

  method MulPower(a: Fe, b: Fe, ghost z: int, ghost m: nat, ghost n: nat) returns (r: Fe)
    requires IsPower(a, z, m) && IsPower(b, z, n)
    ensures IsPower(r, z, m + n)
  {
    r := Mul(a, b);
    FPowAdd(z, m, n);
  }

  method SquarePower(a: Fe, count: nat, ghost z: int, ghost m: nat) returns (r: Fe)
    requires IsPower(a, z, m) && count >= 1
    ensures IsPower(r, z, m * Power(2, count))
  {
    r := SquareTimes(a, count);
    FPowPow(z, m, Power(2, count));
  }

  lemma Mersenne(u: nat, v: nat)
    ensures (u - 1) * v + (v - 1) == u * v - 1
  {
  }

  /** From z^(2^m - 1) and z^(2^n - 1) to z^(2^(m + n) - 1). */
  method Extend(a: Fe, b: Fe, n: nat, ghost z: int, ghost m: nat) returns (r: Fe)
    requires n >= 1 && IsPower(a, z, Power(2, m) - 1) && IsPower(b, z, Power(2, n) - 1)
    ensures IsPower(r, z, Power(2, m + n) - 1)
  {
    var t0 := SquarePower(a, n, z, Power(2, m) - 1);
    r := MulPower(t0, b, z, (Power(2, m) - 1) * Power(2, n), Power(2, n) - 1);
    PowerAdd(2, m, n);
    Mersenne(Power(2, m), Power(2, n));
  }

  /** From z^(2^5 - 1) to z^(2^50 - 1), the first half of the source function. */
  method PowTwo50(input: Fe, ghost z: int, ghost e: nat) returns (b: Fe)
    requires e == 5 && IsPower(input, z, Power(2, e) - 1)
    ensures IsPower(b, z, Power(2, 10 * e) - 1)
  {
    b := Extend(input, input, 5, z, e);
    var c := Extend(b, b, 10, z, 2 * e);
    var t0 := Extend(c, c, 20, z, 4 * e);
    b := Extend(t0, b, 10, z, 8 * e);
  }

  /** From z^(2^50 - 1) to z^(2^250 - 1), the second half. */
  method PowFrom50(input: Fe, half: nat, full: nat, ghost z: int) returns (b: Fe)
    requires half == 50 && full == 100 && IsPower(input, z, Power(2, half) - 1)
    ensures IsPower(b, z, Power(2, full + full + half) - 1)
  {
    var c := Extend(input, input, half, z, half);
    var t0 := Extend(c, c, full, z, full);
    b := Extend(t0, input, half, z, full + full);
  }

  /** From z^(2^5 - 1) to z^(2^250 - 1). */
  method PowTwo250(input: Fe, ghost z: int, ghost e: nat) returns (b: Fe)
    requires e == 5 && IsPower(input, z, Power(2, e) - 1)
    ensures IsPower(b, z, Power(2, 50 * e) - 1)
  {
    b := PowTwo50(input, z, e);
    b := PowFrom50(b, 50, 100, z);
  }

  lemma Exponents(e: nat)
    requires e == 250
    ensures (Power(2, e) - 1) * 32 + 11 == P - 2
    ensures (Power(2, e) - 1) * 4 + 1 == (P - 5) / 8
  {
    var a, b := 5, 255;
    PowerOf2At255(b);
    assert Power(2, 5) == 32;
    PowerAdd(2, e, a);
  }

  /** z^11 and z^31. */
  method Start(z: Fe) returns (a: Fe, b: Fe)
    requires Below(z, TWO54)
    ensures IsPower(a, F(z), 11) && IsPower(b, F(z), 31)
  {
    ghost var x := F(z);
    a := SquareTimes(z, 1);
    var t0 := SquarePower(a, 2, x, 2);
    b := Mul(t0, z);
    FPowOne(x);
    FPowAdd(x, 8, 1);
    a := MulPower(b, a, x, 9, 2);
    t0 := SquarePower(a, 1, x, 11);
    b := MulPower(t0, b, x, 22, 9);
  }

  /** z^(p - 2). */
  method Recip(z: Fe) returns (r: Fe)
    requires Below(z, TWO54)
    ensures Below(r, TIGHT) && F(r) == FPow(F(z), P - 2)
  {
    var a, b := Start(z);
    b := PowTwo250(b, F(z), 5);
    ghost var e := 250;
    Exponents(e);
    b := SquarePower(b, 5, F(z), Power(2, e) - 1);
    r := MulPower(b, a, F(z), (Power(2, e) - 1) * 32, 11);
  }

  /** z^((p - 5) / 8). */
  method PowTwo252m3(z: Fe) returns (r: Fe)
    requires Below(z, TWO54)
    ensures Below(r, TIGHT) && F(r) == FPow(F(z), (P - 5) / 8)
  {
    var c, b := Start(z);
    b := PowTwo250(b, F(z), 5);
    ghost var e := 250;
    Exponents(e);
    b := SquarePower(b, 2, F(z), Power(2, e) - 1);
    r := Mul(b, z);
    FPowOne(F(z));
    FPowAdd(F(z), (Power(2, e) - 1) * 4, 1);
  }
}
