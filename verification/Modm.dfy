/** Arithmetic modulo the group order, on five limbs of 56 bits. */
module Modm {
  import opened Words

  const M: nat := 0x1000000000000000000000000000000014def9dea2f79cd65812631a5cf5d3ed
  const MU: nat := 0xfffffffffffffffffffffffffffffffeb2106215d086329a7ed9ce5a30a2c131b
  const M0: nat := 0x12631a5cf5d3ed
  const M1: nat := 0xf9dea2f79cd658
  const M2: nat := 0x14de
  const M3: nat := 0
  const M4: nat := 0x10000000
  const MU0: nat := 0x9ce5a30a2c131b
  const MU1: nat := 0x215d086329a7ed
  const MU2: nat := 0xffffffffeb2106
  const MU3: nat := 0xffffffffffffff
  const MU4: nat := 0xfffffffff

  const TWO112: nat := 0x1_0000_0000_0000_0000_0000_0000_0000
  const TWO116: nat := 0x10_0000_0000_0000_0000_0000_0000_0000
  const TWO168: nat := 0x100_0000_0000_0000_0000_0000_0000_0000_0000_0000_0000
  const TWO224: nat := 0x1_0000_0000_0000_0000_0000_0000_0000_0000_0000_0000_0000_0000_0000_0000
  const TWO264: nat := 0x100_0000_0000_0000_0000_0000_0000_0000_0000_0000_0000_0000_0000_0000_0000_0000_0000
  const TWO512: nat := 0x1_0000_0000_0000_0000_0000_0000_0000_0000_0000_0000_0000_0000_0000_0000_0000_0000_0000_0000_0000_0000_0000_0000_0000_0000_0000_0000_0000_0000_0000_0000_0000_0000

  function Value5(a0: nat, a1: nat, a2: nat, a3: nat, a4: nat): nat {
    a0 + a1 * TWO56 + a2 * TWO112 + a3 * TWO168 + a4 * TWO224
  }

  function Value(s: seq<nat>): nat
    requires |s| == 5
  {
    Value5(s[0], s[1], s[2], s[3], s[4])
  }

  /** Five limbs, the upper one below `top` and the others below 2^56. */
  /** The order of the group in section 5.1 of RFC 8032. */
  lemma GroupOrder(n: nat)
    requires n == 252
    ensures M == Power(2, n) + 27742317777372353535851937790883648493
  {
    var k := 4;
    assert Power(2, k) == 16;
    PowerOf2At248(n - k);
    PowerSum(2, n - k, k, n, TWO248, 16);
  }

  lemma PowerOf2At248(n: nat)
    requires n == 248
    ensures Power(2, n) == TWO248
  {
    var k := 7;
    assert Power(2, k) == 128;
    PowerOf2At255(n + k);
    PowerAdd(2, n, k);
  }

  predicate Limbs(s: seq<nat>, top: nat) {
    |s| == 5 && s[0] < TWO56 && s[1] < TWO56 && s[2] < TWO56 && s[3] < TWO56 && s[4] < top
  }

  predicate Reduced(s: seq<nat>) {
    Limbs(s, TWO32) && Value(s) < M
  }

  /** The weight of limb `i`. */
  function Unit(i: nat): (u: nat)
    ensures u > 0
  {
    if i == 0 then 1 else TWO56 * Unit(i - 1)
  }

  /** The value of the limbs below `i`. */
  function LimbPrefix(s: seq<nat>, i: nat): nat
    requires i <= |s|
  {
    if i == 0 then 0 else LimbPrefix(s, i - 1) + Unit(i - 1) * s[i - 1]
  }

  lemma LimbPrefixValue(s: seq<nat>)
    requires |s| == 5
    ensures LimbPrefix(s, 5) == Value(s)
  {
    assert Unit(1) == TWO56 && Unit(2) == TWO112 && Unit(3) == TWO168 && Unit(4) == TWO224;
    assert LimbPrefix(s, 1) == s[0];
    assert LimbPrefix(s, 2) == s[0] + TWO56 * s[1];
    assert LimbPrefix(s, 3) == s[0] + TWO56 * s[1] + TWO112 * s[2];
    assert LimbPrefix(s, 4) == s[0] + TWO56 * s[1] + TWO112 * s[2] + TWO168 * s[3];
  }

  /** The sign bit of a wrapped difference. */
  function LtModm(a: nat, b: nat): (r: nat)
    ensures a < TWO63 && b < TWO63 ==> r == if a < b then 1 else 0
  {
    Sub64(a, b) / TWO63
  }

  /** One limb of a borrowing subtraction: the borrow `b` of `a - pb`, and `a - pb + (b << k)`
      where `unit == 2^k`. Both differences wrap in the source. */
  method SubLimb(a: nat, pb: nat, unit: nat) returns (t: nat, b: nat)
    requires a < TWO56 && pb <= TWO56 && pb <= unit <= TWO56
    ensures b <= 1 && t == a - pb + b * unit && (unit == TWO56 ==> t < TWO56) && (b == 1 ==> a < pb)
  {
    b := LtModm(a, pb);
    t := (Sub64(a, pb) + b * unit) % TWO64;
  }

  /** A borrow chain subtracts the values, up to the borrow `top` out of the upper limb. */
  lemma SubChain(a0: nat, a1: nat, a2: nat, a3: nat, a4: nat, m0: nat, m1: nat, m2: nat, m3: nat, m4: nat,
                 t0: nat, t1: nat, t2: nat, t3: nat, t4: nat, b0: nat, b1: nat, b2: nat, b3: nat, top: nat)
    requires t0 == a0 - m0 + b0 * TWO56 && t1 == a1 - m1 - b0 + b1 * TWO56 && t2 == a2 - m2 - b1 + b2 * TWO56
    requires t3 == a3 - m3 - b2 + b3 * TWO56 && t4 == a4 - m4 - b3 + top
    ensures Value5(t0, t1, t2, t3, t4) == Value5(a0, a1, a2, a3, a4) - Value5(m0, m1, m2, m3, m4) + top * TWO224
  {
  }

  /** Value(a) - M, with the borrow out. */
  method SubModulus(r: array<nat>) returns (t0: nat, t1: nat, t2: nat, t3: nat, t4: nat, b: nat)
    requires r.Length == 5 && Limbs(r[..], TWO56)
    ensures b == if Value(r[..]) < M then 1 else 0
    ensures b == 0 ==> Value5(t0, t1, t2, t3, t4) == Value(r[..]) - M && Limbs([t0, t1, t2, t3, t4], TWO56)
  {
    var pb, b0, b1, b2, b3;
    pb := M0;
    t0, b0 := SubLimb(r[0], pb, TWO56);
    pb := U64(b0 + M1);
    t1, b1 := SubLimb(r[1], pb, TWO56);
    pb := U64(b1 + M2);
    t2, b2 := SubLimb(r[2], pb, TWO56);
    pb := U64(b2 + M3);
    t3, b3 := SubLimb(r[3], pb, TWO56);
    pb := U64(b3 + M4);
    t4, b := SubLimb(r[4], pb, TWO32);
    SubChain(r[0], r[1], r[2], r[3], r[4], M0, M1, M2, M3, M4, t0, t1, t2, t3, t4, b0, b1, b2, b3, b * TWO32);
  }

  method Reduce(r: array<nat>)
    requires r.Length == 5 && Limbs(r[..], TWO56)
    modifies r
    ensures Limbs(r[..], TWO56)
    ensures Value(r[..]) == if old(Value(r[..])) < M then old(Value(r[..])) else old(Value(r[..])) - M
  {
    var t0, t1, t2, t3, t4, b := SubModulus(r);
    if b == 0 {
      r[0], r[1], r[2], r[3], r[4] := t0, t1, t2, t3, t4;
    }
  }


  /** The carry of a product column and its low 56 bits. */
  method Column56(c: nat) returns (lo: nat, f: nat)
    requires c < TWO116
    ensures c == lo + f * TWO56 && lo < TWO56 && f < TWO60
  {
    lo := Lo64(c) % TWO56;
    f := c / TWO56;
  }

  /** A product column cut at bit 40: the low bits, 16 bits above them, and the carry. */
  method Column40(c: nat) returns (lo: nat, hi: nat, f: nat)
    requires c < TWO116
    ensures lo < TWO40 && hi < TWO16 && f < TWO60 && c == lo + hi * TWO40 + f * TWO56
  {
    lo := (Lo64(c) * TWO16) % TWO64 % TWO56 / TWO16;
    hi := (Lo64(c) / TWO40) % TWO16;
    f := c / TWO56;
    DivDiv(c, TWO40, TWO24);
    DivDiv(c / TWO40, TWO16, TWO8);
    DivDiv(c, TWO40, TWO16);
    DivDiv(Lo64(c) * TWO16, TWO56, TWO8);
    ModScale(Lo64(c), TWO40, TWO16);
  }

  /** The columns 4 to 8 of mu * q1, cut at bit 264, give the quotient up to one unit and what
      columns 0 to 2 and the rest of column 3 hold. */
  lemma QuotientBound(a0: nat, a1: nat, a2: nat, a3: nat, a4: nat, l3: nat, f3: nat, l4: nat, h4: nat, f4: nat,
                      l5: nat, h5: nat, f5: nat, l6: nat, h6: nat, f6: nat, l7: nat, h7: nat, f7: nat, l8: nat, h8: nat, f8: nat)
    requires a0 < TWO56 && a1 < TWO56 && a2 < TWO56 && l3 < TWO56 && l4 < TWO40
    requires MU0 * a3 + MU3 * a0 + MU1 * a2 + MU2 * a1 == l3 + f3 * TWO56
    requires MU0 * a4 + f3 + MU4 * a0 + MU3 * a1 + MU1 * a3 + MU2 * a2 == l4 + h4 * TWO40 + f4 * TWO56
    requires MU4 * a1 + f4 + MU1 * a4 + MU2 * a3 + MU3 * a2 == l5 + h5 * TWO40 + f5 * TWO56
    requires MU4 * a2 + f5 + MU2 * a4 + MU3 * a3 == l6 + h6 * TWO40 + f6 * TWO56
    requires MU4 * a3 + f6 + MU3 * a4 == l7 + h7 * TWO40 + f7 * TWO56
    requires MU4 * a4 + f7 == l8 + h8 * TWO40 + f8 * TWO56
    ensures var q := Value5(h4 + l5 * TWO16, h5 + l6 * TWO16, h6 + l7 * TWO16, h7 + l8 * TWO16, h8 + f8 * TWO16);
            TWO264 * q <= MU * Value5(a0, a1, a2, a3, a4) < TWO264 * q + TWO264 + TWO224 * TWO8
  {
    var q := Value5(h4 + l5 * TWO16, h5 + l6 * TWO16, h6 + l7 * TWO16, h7 + l8 * TWO16, h8 + f8 * TWO16);
    var dropped := MU0 * a0 + (MU0 * a1 + MU1 * a0) * TWO56 + (MU0 * a2 + MU1 * a1 + MU2 * a0) * TWO112 + l3 * TWO168;
    QuotientSplit(a0, a1, a2, a3, a4, l3, f3, l4, h4, f4, l5, h5, f5, l6, h6, f6, l7, h7, f7, l8, h8, f8, q, dropped);
    assert dropped < TWO224 * TWO8;
  }

  lemma QuotientSplit(a0: nat, a1: nat, a2: nat, a3: nat, a4: nat, l3: nat, f3: nat, l4: nat, h4: nat, f4: nat,
                      l5: nat, h5: nat, f5: nat, l6: nat, h6: nat, f6: nat, l7: nat, h7: nat, f7: nat, l8: nat, h8: nat, f8: nat, q: nat, dropped: nat)
    requires MU0 * a3 + MU3 * a0 + MU1 * a2 + MU2 * a1 == l3 + f3 * TWO56
    requires MU0 * a4 + f3 + MU4 * a0 + MU3 * a1 + MU1 * a3 + MU2 * a2 == l4 + h4 * TWO40 + f4 * TWO56
    requires MU4 * a1 + f4 + MU1 * a4 + MU2 * a3 + MU3 * a2 == l5 + h5 * TWO40 + f5 * TWO56
    requires MU4 * a2 + f5 + MU2 * a4 + MU3 * a3 == l6 + h6 * TWO40 + f6 * TWO56
    requires MU4 * a3 + f6 + MU3 * a4 == l7 + h7 * TWO40 + f7 * TWO56
    requires MU4 * a4 + f7 == l8 + h8 * TWO40 + f8 * TWO56
    requires q == Value5(h4 + l5 * TWO16, h5 + l6 * TWO16, h6 + l7 * TWO16, h7 + l8 * TWO16, h8 + f8 * TWO16)
    requires dropped == MU0 * a0 + (MU0 * a1 + MU1 * a0) * TWO56 + (MU0 * a2 + MU1 * a1 + MU2 * a0) * TWO112 + l3 * TWO168
    ensures MU * Value5(a0, a1, a2, a3, a4) == TWO264 * q + l4 * TWO224 + dropped
  {
  }

  /** q3 = (mu * q1) >> 264, with columns 0 to 2 of the product left out. */
  method BarrettQuotient(a0: nat, a1: nat, a2: nat, a3: nat, a4: nat) returns (q0: nat, q1: nat, q2: nat, q3: nat, q4: nat)
    requires a0 < TWO56 && a1 < TWO56 && a2 < TWO56 && a3 < TWO56 && a4 < TWO40
    ensures q0 < TWO56 && q1 < TWO56 && q2 < TWO56 && q3 < TWO56 && q4 < TWO56
    ensures var q := Value5(q0, q1, q2, q3, q4);
            TWO264 * q <= MU * Value5(a0, a1, a2, a3, a4) < TWO264 * q + TWO264 + TWO224 * TWO8
  {
    var l3, f3 := Column56(MU0 * a3 + MU3 * a0 + MU1 * a2 + MU2 * a1);
    var l4, h4, f4 := Column40(MU0 * a4 + f3 + MU4 * a0 + MU3 * a1 + MU1 * a3 + MU2 * a2);
    var l5, h5, f5 := Column40(MU4 * a1 + f4 + MU1 * a4 + MU2 * a3 + MU3 * a2);
    q0 := h4 + l5 * TWO16;
    var l6, h6, f6 := Column40(MU4 * a2 + f5 + MU2 * a4 + MU3 * a3);
    q1 := h5 + l6 * TWO16;
    var l7, h7, f7 := Column40(MU4 * a3 + f6 + MU3 * a4);
    q2 := h6 + l7 * TWO16;
    var l8, h8, f8 := Column40(MU4 * a4 + f7);
    q3 := h7 + l8 * TWO16;
    q4 := h8 + f8 * TWO16;
    QuotientBound(a0, a1, a2, a3, a4, l3, f3, l4, h4, f4, l5, h5, f5, l6, h6, f6, l7, h7, f7, l8, h8, f8);
  }

  /** The low 40 bits of the last column that is kept. */
  method Low40(c: nat) returns (lo: nat, ghost k: nat)
    ensures lo < TWO40 && c == lo + k * TWO40
  {
    lo := Lo64(c) % TWO40;
    k := c / TWO40;
    DivDiv(c, TWO40, TWO24);
  }

  /** The columns of m times a limb vector. */
  lemma LimbProduct(a0: nat, a1: nat, a2: nat, a3: nat, a4: nat)
    ensures M * Value5(a0, a1, a2, a3, a4) ==
            M0 * a0 + (M0 * a1 + M1 * a0) * TWO56 + (M0 * a2 + M2 * a0 + M1 * a1) * TWO112
            + (M0 * a3 + M3 * a0 + M1 * a2 + M2 * a1) * TWO168 + (M0 * a4 + M4 * a0 + M3 * a1 + M1 * a3 + M2 * a2) * TWO224
            + ((M4 * a1 + M1 * a4 + M2 * a3 + M3 * a2) + (M4 * a2 + M2 * a4 + M3 * a3) * TWO56
               + (M4 * a3 + M3 * a4) * TWO112 + M4 * a4 * TWO168) * TWO16 * TWO264
  {
  }

  lemma CarryColumns(c0: int, c1: int, c2: int, c3: int, c4: int, l0: nat, f0: nat, l1: nat, f1: nat, l2: nat, f2: nat,
                     l3: nat, f3: nat, l4: nat, k: nat)
    requires c0 == l0 + f0 * TWO56 && c1 + f0 == l1 + f1 * TWO56 && c2 + f1 == l2 + f2 * TWO56 && c3 + f2 == l3 + f3 * TWO56
    requires c4 + f3 == l4 + k * TWO40
    ensures c0 + c1 * TWO56 + c2 * TWO112 + c3 * TWO168 + c4 * TWO224 == Value5(l0, l1, l2, l3, l4) + k * TWO264
  {
  }

  lemma ProductBound(a0: nat, a1: nat, a2: nat, a3: nat, a4: nat, l0: nat, f0: nat, l1: nat, f1: nat, l2: nat, f2: nat,
                     l3: nat, f3: nat, l4: nat, k: nat) returns (n: nat)
    requires M0 * a0 == l0 + f0 * TWO56
    requires M0 * a1 + f0 + M1 * a0 == l1 + f1 * TWO56
    requires M0 * a2 + f1 + M2 * a0 + M1 * a1 == l2 + f2 * TWO56
    requires M0 * a3 + f2 + M3 * a0 + M1 * a2 + M2 * a1 == l3 + f3 * TWO56
    requires M0 * a4 + f3 + M4 * a0 + M3 * a1 + M1 * a3 + M2 * a2 == l4 + k * TWO40
    ensures M * Value5(a0, a1, a2, a3, a4) == Value5(l0, l1, l2, l3, l4) + n * TWO264
  {
    LimbProduct(a0, a1, a2, a3, a4);
    CarryColumns(M0 * a0, M0 * a1 + M1 * a0, M0 * a2 + M2 * a0 + M1 * a1, M0 * a3 + M3 * a0 + M1 * a2 + M2 * a1,
                 M0 * a4 + M4 * a0 + M3 * a1 + M1 * a3 + M2 * a2, l0, f0, l1, f1, l2, f2, l3, f3, l4, k);
    n := k + ((M4 * a1 + M1 * a4 + M2 * a3 + M3 * a2) + (M4 * a2 + M2 * a4 + M3 * a3) * TWO56
             + (M4 * a3 + M3 * a4) * TWO112 + M4 * a4 * TWO168) * TWO16;
  }

  /** r2 = (q3 * m) mod 2^264. */
  method BarrettProduct(a0: nat, a1: nat, a2: nat, a3: nat, a4: nat)
    returns (r0: nat, r1: nat, r2: nat, r3: nat, r4: nat, ghost n: nat)
    requires a0 < TWO56 && a1 < TWO56 && a2 < TWO56 && a3 < TWO56 && a4 < TWO56
    ensures r0 < TWO56 && r1 < TWO56 && r2 < TWO56 && r3 < TWO56 && r4 < TWO40
    ensures M * Value5(a0, a1, a2, a3, a4) == Value5(r0, r1, r2, r3, r4) + n * TWO264
  {
    var f0, f1, f2, f3;
    ghost var k;
    r0, f0 := Column56(M0 * a0);
    r1, f1 := Column56(M0 * a1 + f0 + M1 * a0);
    r2, f2 := Column56(M0 * a2 + f1 + M2 * a0 + M1 * a1);
    r3, f3 := Column56(M0 * a3 + f2 + M3 * a0 + M1 * a2 + M2 * a1);
    r4, k := Low40(M0 * a4 + f3 + M4 * a0 + M3 * a1 + M1 * a3 + M2 * a2);
    n := ProductBound(a0, a1, a2, a3, a4, r0, f0, r1, f1, r2, f2, r3, f3, r4, k);
  }

  /** The quotient estimate is at most two below the true quotient. */
  lemma BarrettError(x: nat, q1: nat, q3: nat)
    requires x < TWO512 && q1 == x / TWO248
    requires TWO264 * q3 <= MU * q1 < TWO264 * q3 + TWO264 + TWO224 * TWO8
    ensures 0 <= x - q3 * M < 3 * M
  {
    var e := x % TWO248;
    assert x == q1 * TWO248 + e;
    assert q1 < TWO264;
  }

  /** r1 - r2 modulo 2^264 is the remainder itself, since that is below 2^264. */
  lemma BarrettDifference(x: nat, q3: nat, r1: nat, r2: nat, n: nat, b: nat, r: nat)
    requires r1 == x % TWO264 && M * q3 == r2 + n * TWO264 && 0 <= x - q3 * M < 3 * M
    requires b <= 1 && r == r1 - r2 + b * TWO264 && r < TWO264
    ensures r == x - q3 * M
  {
    var k := x / TWO264;
    assert r - (x - q3 * M) == (b + n - k) * TWO264;
  }

  /** Two conditional subtractions finish the reduction. */
  lemma TwoReductions(x: nat, q: nat, v0: nat, v1: nat, v2: nat)
    requires v0 == x - q * M && v0 < 3 * M
    requires v1 == (if v0 < M then v0 else v0 - M) && v2 == (if v1 < M then v1 else v1 - M)
    ensures v2 == x % M
  {
    var k := if v0 < M then 0 else if v0 < 2 * M then 1 else 2;
    DivModUnique(x, M, q + k, v2);
  }

  lemma NormalTop(s: seq<nat>)
    requires Limbs(s, TWO56) && Value(s) < M
    ensures Reduced(s)
  {
  }

  /** r = x - y modulo 2^264, limb by limb. `r` may be the array `x`. */
  method SubLimbs(r: array<nat>, x: array<nat>, y0: nat, y1: nat, y2: nat, y3: nat, y4: nat) returns (b: nat)
    requires r.Length == 5 && x.Length == 5 && Limbs(x[..], TWO40)
    requires y0 < TWO56 && y1 < TWO56 && y2 < TWO56 && y3 < TWO56 && y4 < TWO40
    modifies r
    ensures Limbs(r[..], TWO40) && b <= 1
    ensures Value(r[..]) == old(Value(x[..])) - Value5(y0, y1, y2, y3, y4) + b * TWO264
  {
    ghost var a := x[..];
    var b0, b1, b2, b3;
    r[0], b0 := SubLimb(x[0], y0, TWO56);
    r[1], b1 := SubLimb(x[1], y1 + b0, TWO56);
    r[2], b2 := SubLimb(x[2], y2 + b1, TWO56);
    r[3], b3 := SubLimb(x[3], y3 + b2, TWO56);
    r[4], b := SubLimb(x[4], y4 + b3, TWO40);
    SubChain(a[0], a[1], a[2], a[3], a[4], y0, y1, y2, y3, y4, r[0], r[1], r[2], r[3], r[4], b0, b1, b2, b3, b * TWO40);
  }

  lemma ValueBound(s: seq<nat>)
    requires Limbs(s, TWO40)
    ensures Value(s) < TWO264
  {
  }

  /** Barrett reduction: `q1` and `r1` are the high and low parts of `x`. `r` may be the array `r1`. */
  method Barrett(r: array<nat>, q1: array<nat>, r1: array<nat>, ghost x: nat)
    requires r.Length == 5 && q1.Length == 5 && r1.Length == 5
    requires x < TWO512
    requires Limbs(q1[..], TWO40) && Value(q1[..]) == x / TWO248
    requires Limbs(r1[..], TWO40) && Value(r1[..]) == x % TWO264
    modifies r
    ensures Reduced(r[..]) && Value(r[..]) == x % M
  {
    var q30, q31, q32, q33, q34 := BarrettQuotient(q1[0], q1[1], q1[2], q1[3], q1[4]);
    ghost var q3 := Value5(q30, q31, q32, q33, q34);
    BarrettError(x, Value(q1[..]), q3);
    var r20, r21, r22, r23, r24, n := BarrettProduct(q30, q31, q32, q33, q34);
    ghost var r2 := Value5(r20, r21, r22, r23, r24);
    var b := SubLimbs(r, r1, r20, r21, r22, r23, r24);
    ghost var v0 := Value(r[..]);
    ValueBound(r[..]);
    BarrettDifference(x, q3, x % TWO264, r2, n, b, v0);
    Reduce(r);
    ghost var v1 := Value(r[..]);
    Reduce(r);
    TwoReductions(x, q3, v0, v1, Value(r[..]));
    NormalTop(r[..]);
  }

  lemma AddChain(x0: nat, x1: nat, x2: nat, x3: nat, x4: nat, y0: nat, y1: nat, y2: nat, y3: nat, y4: nat,
                 r0: nat, r1: nat, r2: nat, r3: nat, r4: nat, f0: nat, f1: nat, f2: nat, f3: nat)
    requires x0 + y0 == r0 + f0 * TWO56 && f0 + x1 + y1 == r1 + f1 * TWO56 && f1 + x2 + y2 == r2 + f2 * TWO56
    requires f2 + x3 + y3 == r3 + f3 * TWO56 && f3 + x4 + y4 == r4
    ensures Value5(r0, r1, r2, r3, r4) == Value5(x0, x1, x2, x3, x4) + Value5(y0, y1, y2, y3, y4)
  {
  }

  /** r = x + y, limb by limb. `r` may be `x`, `y` or both. */
  method AddLimbs(r: array<nat>, x: array<nat>, y: array<nat>)
    requires r.Length == 5 && x.Length == 5 && y.Length == 5
    requires Limbs(x[..], TWO32) && Limbs(y[..], TWO32)
    modifies r
    ensures Limbs(r[..], TWO40) && Value(r[..]) == old(Value(x[..]) + Value(y[..]))
  {
    ghost var a, b := x[..], y[..];
    var f0, f1, f2, f3;
    r[0], f0 := Column56(x[0] + y[0]);
    r[1], f1 := Column56(f0 + x[1] + y[1]);
    r[2], f2 := Column56(f1 + x[2] + y[2]);
    r[3], f3 := Column56(f2 + x[3] + y[3]);
    r[4] := f3 + x[4] + y[4];
    AddChain(a[0], a[1], a[2], a[3], a[4], b[0], b[1], b[2], b[3], b[4], r[0], r[1], r[2], r[3], r[4], f0, f1, f2, f3);
  }

  /** r = x + y mod m. `r` may be `x`, `y` or both. */
  method Add(r: array<nat>, x: array<nat>, y: array<nat>)
    requires r.Length == 5 && x.Length == 5 && y.Length == 5
    requires Limbs(x[..], TWO32) && Limbs(y[..], TWO32) && Value(x[..]) + Value(y[..]) < 2 * M
    modifies r
    ensures Reduced(r[..]) && Value(r[..]) == old(Value(x[..]) + Value(y[..])) % M
  {
    AddLimbs(r, x, y);
    ghost var v := Value(r[..]);
    Reduce(r);
    TwoReductions(v, 0, v, Value(r[..]), Value(r[..]));
    NormalTop(r[..]);
  }

  function Value9(s0: int, s1: int, s2: int, s3: int, s4: int, s5: int, s6: int, s7: int, s8: int): int {
    s0 + s1 * TWO56 + s2 * TWO112 + s3 * TWO168 + s4 * TWO224 + s5 * (TWO56 * TWO224) + s6 * (TWO112 * TWO224)
    + s7 * (TWO168 * TWO224) + s8 * (TWO224 * TWO224)
  }

  lemma Distribute(x: int, y0: int, y1: int, y2: int, y3: int, y4: int)
    ensures x * (y0 + y1 * TWO56 + y2 * TWO112 + y3 * TWO168 + y4 * TWO224) ==
            x * y0 + x * y1 * TWO56 + x * y2 * TWO112 + x * y3 * TWO168 + x * y4 * TWO224
  {
  }

  lemma TimesLimb(x: int, y: int, x0: int, x1: int, x2: int, x3: int, x4: int)
    requires x == x0 + x1 * TWO56 + x2 * TWO112 + x3 * TWO168 + x4 * TWO224
    ensures x * y == x0 * y + x1 * y * TWO56 + x2 * y * TWO112 + x3 * y * TWO168 + x4 * y * TWO224
  {
    Distribute(y, x0, x1, x2, x3, x4);
  }

  lemma Columns(x: nat, y: nat, x0: nat, x1: nat, x2: nat, x3: nat, x4: nat, y0: nat, y1: nat, y2: nat, y3: nat, y4: nat)
    requires x == x0 + x1 * TWO56 + x2 * TWO112 + x3 * TWO168 + x4 * TWO224
    requires y == y0 + y1 * TWO56 + y2 * TWO112 + y3 * TWO168 + y4 * TWO224
    ensures x * y == x0 * y0 + (x0 * y1 + x1 * y0) * TWO56 + (x0 * y2 + x2 * y0 + x1 * y1) * TWO112
            + (x0 * y3 + x3 * y0 + x1 * y2 + x2 * y1) * TWO168
            + (x0 * y4 + x4 * y0 + x3 * y1 + x1 * y3 + x2 * y2) * TWO224
            + (x4 * y1 + x1 * y4 + x2 * y3 + x3 * y2) * (TWO56 * TWO224) + (x4 * y2 + x2 * y4 + x3 * y3) * (TWO112 * TWO224)
            + (x4 * y3 + x3 * y4) * (TWO168 * TWO224) + x4 * y4 * (TWO224 * TWO224)
  {
    Distribute(x, y0, y1, y2, y3, y4);
    TimesLimb(x, y0, x0, x1, x2, x3, x4);
    TimesLimb(x, y1, x0, x1, x2, x3, x4);
    TimesLimb(x, y2, x0, x1, x2, x3, x4);
    TimesLimb(x, y3, x0, x1, x2, x3, x4);
    TimesLimb(x, y4, x0, x1, x2, x3, x4);
  }

  lemma MulExpand(x0: nat, x1: nat, x2: nat, x3: nat, x4: nat, y0: nat, y1: nat, y2: nat, y3: nat, y4: nat)
    ensures Value5(x0, x1, x2, x3, x4) * Value5(y0, y1, y2, y3, y4) ==
            Value9(x0 * y0, x0 * y1 + x1 * y0, x0 * y2 + x2 * y0 + x1 * y1, x0 * y3 + x3 * y0 + x1 * y2 + x2 * y1,
                   x0 * y4 + x4 * y0 + x3 * y1 + x1 * y3 + x2 * y2, x4 * y1 + x1 * y4 + x2 * y3 + x3 * y2,
                   x4 * y2 + x2 * y4 + x3 * y3, x4 * y3 + x3 * y4, x4 * y4)
  {
    Columns(Value5(x0, x1, x2, x3, x4), Value5(y0, y1, y2, y3, y4), x0, x1, x2, x3, x4, y0, y1, y2, y3, y4);
  }

  lemma ColumnBound(a0: nat, b0: nat, a1: nat, b1: nat, a2: nat, b2: nat, a3: nat, b3: nat, a4: nat, b4: nat)
    requires a0 < TWO56 && a1 < TWO56 && a2 < TWO56 && a3 < TWO56 && a4 < TWO56
    requires b0 < TWO56 && b1 < TWO56 && b2 < TWO56 && b3 < TWO56 && b4 < TWO56
    ensures 0 <= a0 * b0 + a1 * b1 + a2 * b2 + a3 * b3 + a4 * b4 < 5 * TWO112
  {
    MulBound(a0, b0, TWO56 - 1, TWO56 - 1);
    MulBound(a1, b1, TWO56 - 1, TWO56 - 1);
    MulBound(a2, b2, TWO56 - 1, TWO56 - 1);
    MulBound(a3, b3, TWO56 - 1, TWO56 - 1);
    MulBound(a4, b4, TWO56 - 1, TWO56 - 1);
  }

  /** The nine columns of a limb product. */
  method MulColumns(x0: nat, x1: nat, x2: nat, x3: nat, x4: nat, y0: nat, y1: nat, y2: nat, y3: nat, y4: nat)
    returns (s0: nat, s1: nat, s2: nat, s3: nat, s4: nat, s5: nat, s6: nat, s7: nat, s8: nat)
    requires x0 < TWO56 && x1 < TWO56 && x2 < TWO56 && x3 < TWO56 && x4 < TWO56
    requires y0 < TWO56 && y1 < TWO56 && y2 < TWO56 && y3 < TWO56 && y4 < TWO56
    ensures s0 < 5 * TWO112 && s1 < 5 * TWO112 && s2 < 5 * TWO112 && s3 < 5 * TWO112 && s4 < 5 * TWO112
    ensures s5 < 5 * TWO112 && s6 < 5 * TWO112 && s7 < 5 * TWO112 && s8 < 5 * TWO112
    ensures Value5(x0, x1, x2, x3, x4) * Value5(y0, y1, y2, y3, y4) == Value9(s0, s1, s2, s3, s4, s5, s6, s7, s8)
  {
    ColumnBound(x0, y0, 0, 0, 0, 0, 0, 0, 0, 0);
    ColumnBound(x0, y1, x1, y0, 0, 0, 0, 0, 0, 0);
    ColumnBound(x0, y2, x2, y0, x1, y1, 0, 0, 0, 0);
    ColumnBound(x0, y3, x3, y0, x1, y2, x2, y1, 0, 0);
    ColumnBound(x0, y4, x4, y0, x3, y1, x1, y3, x2, y2);
    ColumnBound(x4, y1, x1, y4, x2, y3, x3, y2, 0, 0);
    ColumnBound(x4, y2, x2, y4, x3, y3, 0, 0, 0, 0);
    ColumnBound(x4, y3, x3, y4, 0, 0, 0, 0, 0, 0);
    ColumnBound(x4, y4, 0, 0, 0, 0, 0, 0, 0, 0);
    s0 := x0 * y0;
    s1 := x0 * y1 + x1 * y0;
    s2 := x0 * y2 + x2 * y0 + x1 * y1;
    s3 := x0 * y3 + x3 * y0 + x1 * y2 + x2 * y1;
    s4 := x0 * y4 + x4 * y0 + x3 * y1 + x1 * y3 + x2 * y2;
    s5 := x4 * y1 + x1 * y4 + x2 * y3 + x3 * y2;
    s6 := x4 * y2 + x2 * y4 + x3 * y3;
    s7 := x4 * y3 + x3 * y4;
    s8 := x4 * y4;
    MulExpand(x0, x1, x2, x3, x4, y0, y1, y2, y3, y4);
  }


  /** A product column cut at bit 24: the low bits, 32 bits above them, and the carry. */
  method Column24(c: nat) returns (lo: nat, hi: nat, f: nat)
    requires c < TWO116
    ensures lo < TWO24 && hi < TWO32 && f < TWO60 && c == lo + hi * TWO24 + f * TWO56
  {
    lo := (Lo64(c) * TWO32) % TWO64 % TWO56 / TWO32;
    hi := (Lo64(c) / TWO24) % TWO32;
    f := c / TWO56;
    DivDiv(c, TWO24, TWO40);
    DivDiv(c / TWO24, TWO32, TWO8);
    DivDiv(c, TWO24, TWO32);
    DivDiv(Lo64(c) * TWO32, TWO56, TWO8);
    ModScale(Lo64(c), TWO24, TWO32);
  }

  /** The high part of a product starts at bit 248. */
  lemma HighPart(s0: nat, s1: nat, s2: nat, s3: nat, s4: nat, s5: nat, s6: nat, s7: nat, s8: nat,
                 l0: nat, f0: nat, l1: nat, f1: nat, l2: nat, f2: nat, l3: nat, f3: nat, l4: nat, h4: nat, f4: nat,
                 l5: nat, h5: nat, f5: nat, l6: nat, h6: nat, f6: nat, l7: nat, h7: nat, f7: nat, l8: nat, h8: nat, f8: nat)
    requires s0 == l0 + f0 * TWO56 && s1 + f0 == l1 + f1 * TWO56 && s2 + f1 == l2 + f2 * TWO56 && s3 + f2 == l3 + f3 * TWO56
    requires s4 + f3 == l4 + h4 * TWO24 + f4 * TWO56 && s5 + f4 == l5 + h5 * TWO24 + f5 * TWO56
    requires s6 + f5 == l6 + h6 * TWO24 + f6 * TWO56 && s7 + f6 == l7 + h7 * TWO24 + f7 * TWO56
    requires s8 + f7 == l8 + h8 * TWO24 + f8 * TWO56
    requires l0 < TWO56 && l1 < TWO56 && l2 < TWO56 && l3 < TWO56 && l4 < TWO24
    ensures Value9(s0, s1, s2, s3, s4, s5, s6, s7, s8) / TWO248 ==
            Value5(h4 + l5 * TWO32, h5 + l6 * TWO32, h6 + l7 * TWO32, h7 + l8 * TWO32, h8 + f8 * TWO32)
  {
    DivModUnique(Value9(s0, s1, s2, s3, s4, s5, s6, s7, s8), TWO248,
                 Value5(h4 + l5 * TWO32, h5 + l6 * TWO32, h6 + l7 * TWO32, h7 + l8 * TWO32, h8 + f8 * TWO32),
                 Value5(l0, l1, l2, l3, l4));
  }

  /** The low part of a product has 264 bits. */
  lemma LowPart(s0: nat, s1: nat, s2: nat, s3: nat, s4: nat, s5: nat, s6: nat, s7: nat, s8: nat,
                l0: nat, f0: nat, l1: nat, f1: nat, l2: nat, f2: nat, l3: nat, f3: nat, l4: nat, k: nat)
    requires s0 == l0 + f0 * TWO56 && s1 + f0 == l1 + f1 * TWO56 && s2 + f1 == l2 + f2 * TWO56 && s3 + f2 == l3 + f3 * TWO56
    requires s4 + f3 == l4 + k * TWO40
    requires l0 < TWO56 && l1 < TWO56 && l2 < TWO56 && l3 < TWO56 && l4 < TWO40
    ensures Value9(s0, s1, s2, s3, s4, s5, s6, s7, s8) % TWO264 == Value5(l0, l1, l2, l3, l4)
  {
    DivModUnique(Value9(s0, s1, s2, s3, s4, s5, s6, s7, s8), TWO264,
                 k + (s5 + s6 * TWO56 + s7 * TWO112 + s8 * TWO168) * TWO16, Value5(l0, l1, l2, l3, l4));
  }

  /** Carries the product columns into the low 264 bits and the bits from 248 up. */
  method SplitProduct(s0: nat, s1: nat, s2: nat, s3: nat, s4: nat, s5: nat, s6: nat, s7: nat, s8: nat)
    returns (r: array<nat>, q: array<nat>)
    requires s0 < 5 * TWO112 && s1 < 5 * TWO112 && s2 < 5 * TWO112 && s3 < 5 * TWO112 && s4 < 5 * TWO112
    requires s5 < 5 * TWO112 && s6 < 5 * TWO112 && s7 < 5 * TWO112 && s8 < 5 * TWO112
    ensures fresh(r) && fresh(q) && r != q && r.Length == 5 && q.Length == 5
    ensures Limbs(r[..], TWO40) && Limbs(q[..], TWO128)
    ensures Value(r[..]) == Value9(s0, s1, s2, s3, s4, s5, s6, s7, s8) % TWO264
    ensures Value(q[..]) == Value9(s0, s1, s2, s3, s4, s5, s6, s7, s8) / TWO248
  {
    var l0, f0 := Column56(s0);
    var l1, f1 := Column56(s1 + f0);
    var l2, f2 := Column56(s2 + f1);
    var l3, f3 := Column56(s3 + f2);
    var m4, k := Low40(s4 + f3);
    var l4, h4, f4 := Column24(s4 + f3);
    var l5, h5, f5 := Column24(s5 + f4);
    var l6, h6, f6 := Column24(s6 + f5);
    var l7, h7, f7 := Column24(s7 + f6);
    var l8, h8, f8 := Column24(s8 + f7);
    LowPart(s0, s1, s2, s3, s4, s5, s6, s7, s8, l0, f0, l1, f1, l2, f2, l3, f3, m4, k);
    HighPart(s0, s1, s2, s3, s4, s5, s6, s7, s8, l0, f0, l1, f1, l2, f2, l3, f3, l4, h4, f4,
             l5, h5, f5, l6, h6, f6, l7, h7, f7, l8, h8, f8);
    r := new nat[] [l0, l1, l2, l3, m4];
    q := new nat[] [h4 + l5 * TWO32, h5 + l6 * TWO32, h6 + l7 * TWO32, h7 + l8 * TWO32, h8 + f8 * TWO32];
  }

  lemma ValueBelow512(x: seq<nat>, y: seq<nat>)
    requires Limbs(x, TWO32) && Limbs(y, TWO32)
    ensures Value(x) * Value(y) < TWO512
  {
    MulBound(Value(x), Value(y), TWO224 * TWO32 - 1, TWO224 * TWO32 - 1);
  }

  lemma TopLimb(q: seq<nat>)
    requires Limbs(q, TWO128) && Value(q) < TWO264
    ensures Limbs(q, TWO40)
  {
  }

  /** r = x * y mod m. `r` may be `x`, `y` or both. */
  method Mul(r: array<nat>, x: array<nat>, y: array<nat>)
    requires r.Length == 5 && x.Length == 5 && y.Length == 5
    requires Limbs(x[..], TWO32) && Limbs(y[..], TWO32)
    modifies r
    ensures Reduced(r[..]) && Value(r[..]) == old(Value(x[..]) * Value(y[..])) % M
  {
    ghost var p := Value(x[..]) * Value(y[..]);
    var s0, s1, s2, s3, s4, s5, s6, s7, s8 := MulColumns(x[0], x[1], x[2], x[3], x[4], y[0], y[1], y[2], y[3], y[4]);
    var r1, q1 := SplitProduct(s0, s1, s2, s3, s4, s5, s6, s7, s8);
    ValueBelow512(x[..], y[..]);
    TopLimb(q1[..]);
    Barrett(r, q1, r1, p);
  }

  /** Eight 64-bit words, the first the least significant. */
  function Value8x64(x0: nat, x1: nat, x2: nat, x3: nat, x4: nat, x5: nat, x6: nat, x7: nat): nat {
    x0 + TWO64 * (x1 + TWO64 * (x2 + TWO64 * (x3 + TWO64 * (x4 + TWO64 * (x5 + TWO64 * (x6 + TWO64 * x7))))))
  }

  lemma LowWords(x0: nat, x1: nat, x2: nat, x3: nat, x4: nat, x5: nat, x6: nat, x7: nat)
    requires x0 < TWO64 && x1 < TWO64 && x2 < TWO64 && x3 < TWO64
    ensures Value5(x0 % TWO56, x0 / TWO56 + x1 % TWO48 * TWO8, x1 / TWO48 + x2 % TWO40 * TWO16,
                   x2 / TWO40 + x3 % TWO32 * TWO24, x3 / TWO32 + x4 % TWO8 * TWO32)
         == Value8x64(x0, x1, x2, x3, x4, x5, x6, x7) % TWO264
  {
    var k := x4 / TWO8 + TWO56 * (x5 + TWO64 * (x6 + TWO64 * x7));
    var low := x0 + TWO64 * x1 + TWO128 * x2 + TWO128 * TWO64 * x3 + TWO128 * TWO128 * (x4 % TWO8);
    DivModUnique(Value8x64(x0, x1, x2, x3, x4, x5, x6, x7), TWO264, k, low);
  }

  lemma HighWords(x0: nat, x1: nat, x2: nat, x3: nat, x4: nat, x5: nat, x6: nat, x7: nat)
    requires x0 < TWO64 && x1 < TWO64 && x2 < TWO64 && x3 < TWO64
    ensures Value5(x3 / TWO56 + x4 % TWO48 * TWO8, x4 / TWO48 + x5 % TWO40 * TWO16, x5 / TWO40 + x6 % TWO32 * TWO24,
                   x6 / TWO32 + x7 % TWO24 * TWO32, x7 / TWO24)
         == Value8x64(x0, x1, x2, x3, x4, x5, x6, x7) / TWO248
  {
    var low := x0 + TWO64 * x1 + TWO128 * x2 + TWO128 * TWO64 * (x3 % TWO56);
    var high := x3 / TWO56 + TWO8 * (x4 + TWO64 * (x5 + TWO64 * (x6 + TWO64 * x7)));
    DivModUnique(Value8x64(x0, x1, x2, x3, x4, x5, x6, x7), TWO248, high, low);
  }

  /** The bytes of `work` as words. */
  method LoadWords(work: seq<Byte>) returns (x0: nat, x1: nat, x2: nat, x3: nat, x4: nat, x5: nat, x6: nat, x7: nat)
    requires |work| == 64
    ensures x0 < TWO64 && x1 < TWO64 && x2 < TWO64 && x3 < TWO64 && x4 < TWO64 && x5 < TWO64 && x6 < TWO64 && x7 < TWO64
    ensures Value8x64(x0, x1, x2, x3, x4, x5, x6, x7) == LE(work)
  {
    x0, x1, x2, x3 := Load4(work, 0);
    x4, x5, x6, x7 := Load4(work, 32);
  }

  /** The low 264 bits of eight words, as limbs. */
  method LowLimbs(out: array<nat>, x0: nat, x1: nat, x2: nat, x3: nat, x4: nat, ghost x5: nat, ghost x6: nat, ghost x7: nat)
    requires out.Length == 5
    requires x0 < TWO64 && x1 < TWO64 && x2 < TWO64 && x3 < TWO64 && x4 < TWO64
    modifies out
    ensures Limbs(out[..], TWO40) && Value(out[..]) == Value8x64(x0, x1, x2, x3, x4, x5, x6, x7) % TWO264
  {
    out[0] := x0 % TWO56;
    out[1] := Straddle(x0, x1, TWO56, TWO8, TWO48, TWO8);
    out[2] := Straddle(x1, x2, TWO48, TWO16, TWO40, TWO8);
    out[3] := Straddle(x2, x3, TWO40, TWO24, TWO32, TWO8);
    out[4] := Straddle(x3, x4, TWO32, TWO32, TWO8, TWO24);
    LowWords(x0, x1, x2, x3, x4, x5, x6, x7);
  }

  /** The bits of eight words from 248 up, as limbs. */
  method HighLimbs(ghost x0: nat, ghost x1: nat, ghost x2: nat, x3: nat, x4: nat, x5: nat, x6: nat, x7: nat)
    returns (q: array<nat>)
    requires x0 < TWO64 && x1 < TWO64 && x2 < TWO64
    requires x3 < TWO64 && x4 < TWO64 && x5 < TWO64 && x6 < TWO64 && x7 < TWO64
    ensures fresh(q) && q.Length == 5
    ensures Limbs(q[..], TWO40) && Value(q[..]) == Value8x64(x0, x1, x2, x3, x4, x5, x6, x7) / TWO248
  {
    q := new nat[5];
    q[0] := Straddle(x3, x4, TWO56, TWO8, TWO48, TWO8);
    q[1] := Straddle(x4, x5, TWO48, TWO16, TWO40, TWO8);
    q[2] := Straddle(x5, x6, TWO40, TWO24, TWO32, TWO8);
    q[3] := Straddle(x6, x7, TWO32, TWO32, TWO24, TWO8);
    q[4] := x7 / TWO24;
    HighWords(x0, x1, x2, x3, x4, x5, x6, x7);
  }

  lemma WordsBelow512(x0: nat, x1: nat, x2: nat, x3: nat, x4: nat, x5: nat, x6: nat, x7: nat)
    requires x0 < TWO64 && x1 < TWO64 && x2 < TWO64 && x3 < TWO64 && x4 < TWO64 && x5 < TWO64 && x6 < TWO64 && x7 < TWO64
    ensures Value8x64(x0, x1, x2, x3, x4, x5, x6, x7) < TWO512
  {
  }

  lemma ShortInput(input: seq<Byte>)
    requires |input| < 32
    ensures LE(input) < TWO248 && LE(input) % TWO264 == LE(input) && LE(input) % M == LE(input)
  {
    LEBound(input, 0);
    BytePowerOf31(31);
    PowerMonotone(TWO8, |input|, 31);
  }

  /** The little-endian value of up to 64 bytes, mod m. */
  method Expand(out: array<nat>, input: seq<Byte>)
    requires out.Length == 5 && |input| <= 64
    modifies out
    ensures Reduced(out[..]) && Value(out[..]) == LE(input) % M
  {
    var zeros: seq<Byte> := seq(64 - |input|, _ => 0);
    ZeroPadding(input, zeros, 0);
    var x0, x1, x2, x3, x4, x5, x6, x7 := LoadWords(input + zeros);
    LowLimbs(out, x0, x1, x2, x3, x4, x5, x6, x7);
    if |input| < 32 {
      ShortInput(input);
      NormalTop(out[..]);
      return;
    }
    var q1 := HighLimbs(x0, x1, x2, x3, x4, x5, x6, x7);
    WordsBelow512(x0, x1, x2, x3, x4, x5, x6, x7);
    Barrett(out, q1, out, LE(input));
  }

  lemma PackedWords(a0: nat, a1: nat, a2: nat, a3: nat, a4: nat)
    requires a4 < TWO32
    ensures (a0 + a1 % TWO8 * TWO56) + TWO64 * (a1 / TWO8 + a2 % TWO16 * TWO48) + TWO128 * (a2 / TWO16 + a3 % TWO24 * TWO40)
          + TWO192 * (a3 / TWO24 + a4 % TWO32 * TWO32) == Value5(a0, a1, a2, a3, a4)
  {
  }

  /** The 32 little-endian bytes of a number below 2^256. */
  method Contract(input: array<nat>) returns (out: seq<Byte>)
    requires input.Length == 5 && Limbs(input[..], TWO32)
    ensures |out| == 32 && LE(out) == Value(input[..])
  {
    var w0 := Pack(input[0], input[1], 1, TWO56, TWO8);
    var w1 := Pack(input[1], input[2], TWO8, TWO48, TWO16);
    var w2 := Pack(input[2], input[3], TWO16, TWO40, TWO24);
    var w3 := Pack(input[3], input[4], TWO24, TWO32, TWO32);
    out := Store4(w0, w1, w2, w3);
    Store4Value(w0, w1, w2, w3);
    PackedWords(input[0], input[1], input[2], input[3], input[4]);
  }

  lemma Peel(a: nat, x: nat, b: nat, y: nat)
    requires a < TWO56 && b < TWO56 && a + x * TWO56 == b + y * TWO56
    ensures a == b && x == y
  {
  }

  /** A number has one normal limb form. */
  lemma LimbsUnique(s: seq<nat>, t: seq<nat>)
    requires Limbs(s, TWO56) && Limbs(t, TWO56) && Value(s) == Value(t)
    ensures s == t
  {
    Peel(s[0], s[1] + s[2] * TWO56 + s[3] * TWO112 + s[4] * TWO168, t[0], t[1] + t[2] * TWO56 + t[3] * TWO112 + t[4] * TWO168);
    Peel(s[1], s[2] + s[3] * TWO56 + s[4] * TWO112, t[1], t[2] + t[3] * TWO56 + t[4] * TWO112);
    Peel(s[2], s[3] + s[4] * TWO56, t[2], t[3] + t[4] * TWO56);
    Peel(s[3], s[4], t[3], t[4]);
  }

  /** Writing a reduced scalar as bytes and reading it back gives the same limbs. */
  method ContractThenExpand(input: array<nat>) returns (again: array<nat>)
    requires input.Length == 5 && Reduced(input[..])
    ensures fresh(again) && again[..] == input[..]
  {
    var bytes := Contract(input);
    again := new nat[5];
    Expand(again, bytes);
    LimbsUnique(again[..], input[..]);
  }
}
