/** Points as 32 bytes: y in the low 255 bits, the parity of x in the top bit. */
module Codec {
  import opened Words
  import opened Bits
  import opened Field
  import opened FieldChain
  import opened Edwards
  import opened Points
  import opened Roots

  const SQRTNEG1: Fe := Fe(0x00061b274a0ea0b0, 0x0000d5a5fc8f189d, 0x0007ef5e9cbd0c60, 0x00078595a6804c9e, 0x0002b8324804fc1d)

  // ---- bytes ----

  lemma {:induction false} LEInjective(s: seq<Byte>, t: seq<Byte>, i: nat)
    requires i <= |s| == |t| && LEFrom(s, i) == LEFrom(t, i)
    ensures s[i..] == t[i..]
    decreases |s| - i
  {
    if i < |s| {
      LEInjective(s, t, i + 1);
      assert s[i..] == [s[i]] + s[i + 1..] && t[i..] == [t[i]] + t[i + 1..];
    }
  }

  lemma LEEqual(s: seq<Byte>, t: seq<Byte>)
    requires |s| == |t|
    ensures s == t <==> LE(s) == LE(t)
  {
    if LE(s) == LE(t) {
      LEInjective(s, t, 0);
      assert s == s[0..] && t == t[0..];
    }
  }

  lemma {:induction false} LastByte(s: seq<Byte>, t: seq<Byte>, n: nat, i: nat, d: int)
    requires |s| == |t| == n + 1 && i <= n && (forall k | 0 <= k < n :: t[k] == s[k]) && t[n] == s[n] + d
    ensures LEFrom(t, i) == LEFrom(s, i) + Power(TWO8, n - i) * d
    decreases n - i
  {
    if i < n {
      LastByte(s, t, n, i + 1, d);
      Associate(Power(TWO8, n - i - 1), d);
    }
  }

  lemma {:induction false} LastByteBound(s: seq<Byte>, n: nat, i: nat, v: int)
    requires |s| == n + 1 && i <= n && v == s[n]
    ensures Power(TWO8, n - i) * v <= LEFrom(s, i) < Power(TWO8, n - i) * v + Power(TWO8, n - i)
    decreases n - i
  {
    if i < n {
      LastByteBound(s, n, i + 1, v);
      Associate(Power(TWO8, n - i - 1), v);
    }
  }

  lemma Associate(p: int, d: int)
    ensures TWO8 * p * d == TWO8 * (p * d)
  {
  }

  /** Changing the last of 32 bytes. */
  lemma TopByte(s: seq<Byte>, v: Byte)
    requires |s| == 32
    ensures LE(s[31 := v]) == LE(s) + TWO248 * (v - s[31])
    ensures TWO248 * s[31] <= LE(s) < TWO248 * s[31] + TWO248
  {
    LastByte(s, s[31 := v], 31, 0, v - s[31]);
    LastByteBound(s, 31, 0, s[31]);
    BytePowerOf31(31);
  }

  /** Reading 32 bytes as a field element and writing it again reduces their low 255 bits mod p. */
  method Canonicalize(p: seq<Byte>) returns (out: seq<Byte>)
    requires |p| == 32
    ensures |out| == 32 && LE(out) == LE(p) % TWO255 % P
  {
    var a := Expand(p);
    out := Contract(a);
    ResidueIs(Val(a));
  }

  /** Congruent limb vectors are written as the same bytes. */
  lemma CanonicalBytes(a: Fe, b: Fe, s: seq<Byte>, t: seq<Byte>)
    requires |s| == |t| == 32 && LE(s) == F(a) && LE(t) == F(b)
    ensures s == t <==> Val(a) % P == Val(b) % P
  {
    ResidueIs(Val(a));
    ResidueIs(Val(b));
    LEEqual(s, t);
  }

  /** Comparison without early exit: 1 if the strings are equal, else 0. */
  method Verify(x: seq<Byte>, y: seq<Byte>) returns (r: nat)
    requires |x| == |y|
    ensures r == if x == y then 1 else 0
  {
    var differentbits: nat := 0;
    var i := 0;
    while i < |x|
      invariant 0 <= i <= |x| && differentbits < 256 && (differentbits == 0 <==> x[..i] == y[..i])
    {
      var n := 8;
      assert Power(2, n) == 256;
      XorZero(x[i], y[i], n);
      OrZero(differentbits, Xor(x[i], y[i], n), n);
      differentbits := Or(differentbits, Xor(x[i], y[i], n), n);
      assert x[..i + 1] == x[..i] + [x[i]] && y[..i + 1] == y[..i] + [y[i]];
      i := i + 1;
    }
    assert x[..i] == x && y[..i] == y;
    r := Sub64(differentbits, 1) / 256 % 2;
  }

  // ---- packing ----

  /** The number a point is encoded as. */
  ghost function Encoding<G>(c: Curve<G>, g: G): nat {
    c.y(g) + TWO255 * (c.x(g) % 2)
  }

  lemma Inverse(Z: int, n: nat)
    requires Fermat() && !Eq(Z, 0) && n == P - 2
    ensures Eq(Z * FPow(Z, n), 1)
  {
    UnitPower(Z, n + 1);
    EqFMul(Z, FPow(Z, n));
  }

  /** X / Z, for X = x Z. */
  lemma Affine(X: int, Z: int, zi: int, x: nat)
    requires Eq(X, x * Z) && Eq(Z * zi, 1) && x < P
    ensures FMul(X, zi) == x
  {
    EqMul(X, x * Z, zi, zi);
    EqMul(x, x, Z * zi, 1);
    assert x * Z * zi == x * (Z * zi);
    ResidueIs(x);
  }

  /** Exclusive or with 128 times a bit. */
  function FlipTop(b: Byte, bit: nat): Byte {
    if bit == 0 then b else if b < 128 then b + 128 else b - 128
  }

  method Pack<G(!new)>(p: Ge, ghost c: Curve<G>, ghost g: G) returns (r: seq<Byte>)
    requires EdwardsCurve(c) && Rep(c, p, g)
    ensures |r| == 32 && LE(r) == Encoding(c, g)
  {
    var zi := Recip(p.z);
    var tx := Mul(p.x, zi);
    var ty := Mul(p.y, zi);
    PointLaw(c, g);
    Inverse(F(p.z), P - 2);
    Affine(F(p.x), F(p.z), F(zi), c.x(g));
    Affine(F(p.y), F(p.z), F(zi), c.y(g));
    r := PackAffine(tx, ty);
  }

  method PackAffine(tx: Fe, ty: Fe) returns (r: seq<Byte>)
    requires Below(tx, TWO54) && Below(ty, TWO54)
    ensures |r| == 32 && LE(r) == F(ty) + TWO255 * (F(tx) % 2)
  {
    r := Contract(ty);
    var parity := Contract(tx);
    var bit := parity[0] % 2;
    LowBit(parity);
    TopByte(r, FlipTop(r[31], bit));
    FlippedTop(LE(r), r[31], bit);
    r := r[31 := FlipTop(r[31], bit)];
  }

  lemma LowBit(s: seq<Byte>)
    requires |s| == 32
    ensures s[0] % 2 == LE(s) % 2
  {
    assert LE(s) == s[0] + TWO8 * LEFrom(s, 1);
  }

  lemma FlippedTop(v: nat, b: Byte, bit: nat)
    requires TWO248 * b <= v < TWO255 && bit < 2
    ensures v + TWO248 * (FlipTop(b, bit) - b) == v + TWO255 * bit
  {
  }

  // ---- unpacking ----

  method IsZero(a: Fe) returns (b: bool)
    requires Below(a, TWO54)
    ensures b <==> F(a) == 0
  {
    var check := Contract(a);
    var zero: seq<Byte> := seq(32, _ => 0);
    var v := Verify(check, zero);
    b := v == 1;
    ZeroTail([], zero, 0);
    assert [] + zero == zero;
    LEEqual(check, zero);
  }

  /** u = y^2 - 1 and v = d y^2 + 1, so that a point with this y has x^2 v = u. */
  method Equation(y: Fe) returns (num: Fe, den: Fe)
    requires Below(y, TWO51)
    ensures Below(num, TIGHT) && Below(den, TWO54)
    ensures Eq(F(num), F(y) * F(y) - 1) && Eq(F(den), D * (F(y) * F(y)) + 1)
  {
    CurveConstants();
    var yy := Square(y);
    den := Mul(yy, ECD);
    num := SubReduce(yy, ONE);
    ghost var dyy := den;
    den := Add(den, ONE, TIGHT, 2);
    EqFMul(F(y), F(y));
    EqFMul(F(yy), F(ECD));
    EqMul(F(yy), F(y) * F(y), D, D);
    EqFSub(F(yy), 1);
    EqFAdd(F(dyy), 1);
    EqAdd(F(yy), F(y) * F(y), 1, 1);
    EqAdd(F(dyy), D * (F(y) * F(y)), 1, 1);
  }

  lemma CurveRoot(x: int, y: int, u: int, v: int)
    requires Eq(u, y * y - 1) && Eq(v, D * (y * y) + 1)
    ensures OnCurve(x, y) <==> Eq(x * x * v, u)
  {
    var e := DTimes(x * x * (y * y));
    EqMul(x * x, x * x, v, D * (y * y) + 1);
    Spread(x, y, e);
    if OnCurve(x, y) {
      EqAdd(y * y - x * x, 1 + e, x * x - 1, x * x - 1);
    }
    if Eq(x * x * v, u) {
      EqAdd(e + x * x, y * y - 1, 1 - x * x, 1 - x * x);
    }
  }

  lemma Spread(x: int, y: int, e: int)
    requires e == DTimes(x * x * (y * y))
    ensures x * x * (D * (y * y) + 1) == e + x * x
  {
    DTimesIs(x * x * (y * y));
    assert x * x * (D * (y * y)) == D * (x * x * (y * y));
  }

  method RootCandidate(num: Fe, den: Fe) returns (x: Fe, ghost v3: int, ghost W: int)
    requires Below(num, TIGHT) && Below(den, TWO54)
    ensures Below(x, TIGHT) && Eq(v3, F(den) * F(den) * F(den)) && Eq(W, F(num) * (v3 * v3 * F(den)))
    ensures Eq(F(x), F(num) * v3 * FPow(W, (P - 5) / 8))
  {
    var t := Square(den);
    var d3 := Mul(t, den);
    ghost var v: int, u: int := F(den), F(num);
    v3 := F(d3);
    EqFMul(v, v);
    EqFMul(F(t), v);
    EqMul(F(t), v * v, v, v);
    x := Square(d3);
    ghost var d6 := F(x);
    x := Mul(x, den);
    ghost var d7 := F(x);
    x := Mul(x, num);
    W := F(x);
    SevenTimes(v3, v, u, d6, d7, W);
    x := PowTwo252m3(x);
    ghost var w: int := F(x);
    x := Mul(x, d3);
    ghost var w3 := F(x);
    x := Mul(x, num);
    EqFMul(w, v3);
    EqFMul(w3, u);
    EqMul(w3, w * v3, u, u);
    assert w * v3 * u == u * v3 * w;
  }

  lemma SevenTimes(v3: int, v: int, u: int, d6: int, d7: int, W: int)
    requires d6 == FMul(v3, v3) && d7 == FMul(d6, v) && W == FMul(d7, u)
    ensures Eq(W, u * (v3 * v3 * v))
  {
    EqFMul(v3, v3);
    EqFMul(d6, v);
    EqFMul(d7, u);
    EqMul(d6, v3 * v3, v, v);
    EqMul(d7, v3 * v3 * v, u, u);
  }

  lemma DiffZero(a: int, b: int)
    ensures FSub(a, b) == 0 <==> Eq(a, b)
    ensures FAdd(a, b) == 0 <==> Eq(a, 0 - b)
  {
    ResidueIs(0);
    if Eq(a, b) {
      EqAdd(a, b, b, b);
    }
    if FSub(a, b) == 0 {
      EqAdd(a - b, 0, b, b);
    }
    if Eq(a, 0 - b) {
      EqAdd(a, 0 - b, b, b);
    }
    if FAdd(a, b) == 0 {
      EqAdd(a + b, 0, b, b);
    }
  }

  lemma ImaginaryUnit()
    ensures Below(SQRTNEG1, TWO51) && Eq(F(SQRTNEG1) * F(SQRTNEG1), -1)
  {
    ResidueIs(Val(SQRTNEG1));
    ResidueIs(F(SQRTNEG1) * F(SQRTNEG1));
    ResidueIs(-1);
  }

  lemma TimesUnit(x: int, i: int, v: int, u: int, r: int)
    requires Eq(x * x * v, 0 - u) && Eq(i * i, -1) && Eq(r, x * i)
    ensures Eq(r * r * v, u)
  {
    EqMul(r, x * i, r, x * i);
    EqMul(r * r, x * i * (x * i), v, v);
    EqMul(x * x * v, 0 - u, i * i, -1);
    assert x * i * (x * i) * v == x * x * v * (i * i);
    assert (0 - u) * -1 == u;
  }

  /** The candidate if it is a root; else the candidate times the square root of -1 if that is one. */
  method FixRoot(x: Fe, num: Fe, den: Fe) returns (ok: bool, r: Fe)
    requires Below(x, TIGHT) && Below(num, TIGHT) && Below(den, TWO54)
    ensures ok ==> Below(r, TIGHT) && Eq(F(r) * F(r) * F(den), F(num))
    ensures !ok ==> !Eq(F(x) * F(x) * F(den), F(num)) && !Eq(F(x) * F(x) * F(den), 0 - F(num))
  {
    var xx := Square(x);
    var t := Mul(xx, den);
    EqFMul(F(x), F(x));
    EqFMul(F(xx), F(den));
    EqMul(F(xx), F(x) * F(x), F(den), F(den));
    var root := SubReduce(t, num);
    DiffZero(F(t), F(num));
    ok := IsZero(root);
    r := x;
    if !ok {
      t := AddReduce(t, num);
      ok := IsZero(t);
      if ok {
        ImaginaryUnit();
        r := Mul(x, SQRTNEG1);
        EqFMul(F(x), F(SQRTNEG1));
        TimesUnit(F(x), F(SQRTNEG1), F(den), F(num), F(r));
      }
    }
  }

  /** If there is any root, the candidate is one up to a factor of the square root of -1. */
  lemma CandidateWorks(u: int, v: int, v3: int, W: int, x: int, x0: int)
    requires Fermat() && Eq(v3, v * v * v) && Eq(W, u * (v3 * v3 * v)) && Eq(x, u * v3 * FPow(W, (P - 5) / 8)) && Eq(x0 * x0 * v, u)
    ensures Eq(x * x * v, u) || Eq(x * x * v, 0 - u)
  {
    var k := (P - 5) / 8;
    Candidate(u, v, v3, W, x, k);
    var q: int := FPow(W, 2 * k + 1);
    if Eq(u, 0) {
      EqMul(u, 0, q, q);
    } else {
      SquareClass(u, v, v3, W, x0, k);
      if Eq(q, 1) {
        EqMul(u, u, q, 1);
      } else {
        EqMul(u, u, q, -1);
        assert u * -1 == 0 - u;
      }
    }
  }

  /** Of x and -x, the one whose parity is not `parity`. */
  method OppositeParity(x: Fe, parity: nat) returns (r: Fe)
    requires Below(x, TIGHT) && parity < 2
    ensures Below(r, TIGHT) && (F(r) == F(x) || F(r) == FSub(0, F(x))) && (F(r) == 0 || F(r) % 2 != parity)
  {
    var check := Contract(x);
    LowBit(check);
    r := x;
    if check[0] % 2 == parity {
      r := Neg(x);
      NegParity(F(x));
    }
  }

  lemma NegParity(f: nat)
    requires f < P
    ensures FSub(0, f) == if f == 0 then 0 else P - f
  {
    ResidueIs(0 - f);
  }

  lemma ParityBit(p: seq<Byte>)
    requires |p| == 32
    ensures LE(p) / TWO255 == p[31] / 128 < 2
  {
    TopByte(p, 0);
    DivModUnique(LE(p), TWO255, p[31] / 128, LE(p) - TWO255 * (p[31] / 128));
  }

  /** `r` is on the curve, has the y of the encoding, and its x has the other parity. */
  ghost predicate Unpacked(p: seq<Byte>, r: Ge) {
    && Below(r.x, TIGHT) && Below(r.y, TIGHT) && r.z == ONE && Below(r.t, TIGHT)
    && F(r.y) == Residue(LE(p) % TWO255) && OnCurve(F(r.x), F(r.y)) && Eq(F(r.t), F(r.x) * F(r.y))
    && (F(r.x) == 0 || F(r.x) % 2 != LE(p) / TWO255)
  }

  /** Solves for x and gives the point with the parity of x opposite to the one in the top bit.
      It fails exactly when no point of the curve has this y. */
  method UnpackNegative(p: seq<Byte>) returns (ok: bool, r: Ge)
    requires |p| == 32 && Fermat()
    ensures ok <==> exists x :: OnCurve(x, LE(p) % TWO255)
    ensures ok ==> Unpacked(p, r)
  {
    var parity := p[31] / 128;
    ParityBit(p);
    var y := Expand(p);
    var num, den := Equation(y);
    var x, v3, W := RootCandidate(num, den);
    var root;
    ok, root := FixRoot(x, num, den);
    if !ok {
      r := Ge(x, y, ONE, ZERO);
      forall x0 ensures !OnCurve(x0, LE(p) % TWO255) {
        NoPoint(F(num), F(den), v3, W, F(x), x0, LE(p) % TWO255, F(y));
      }
      return;
    }
    var rx := OppositeParity(root, parity);
    var t := Mul(rx, y);
    r := Ge(rx, y, ONE, t);
    EqFMul(F(rx), F(y));
    SameRoot(F(num), F(den), F(root), F(rx), F(y));
    SamePoint(F(rx), LE(p) % TWO255, F(y));
    assert OnCurve(F(rx), LE(p) % TWO255);
  }

  lemma NoPoint(u: int, v: int, v3: int, W: int, x: int, x0: int, y: int, f: int)
    requires Fermat() && Eq(v3, v * v * v) && Eq(W, u * (v3 * v3 * v)) && Eq(x, u * v3 * FPow(W, (P - 5) / 8))
    requires Eq(u, f * f - 1) && Eq(v, D * (f * f) + 1) && f == Residue(y)
    requires !Eq(x * x * v, u) && !Eq(x * x * v, 0 - u)
    ensures !OnCurve(x0, y)
  {
    if OnCurve(x0, y) {
      SamePoint(x0, y, f);
      CurveRoot(x0, f, u, v);
      CandidateWorks(u, v, v3, W, x, x0);
    }
  }

  lemma SamePoint(x: int, y: int, f: int)
    requires f == Residue(y)
    ensures OnCurve(x, y) <==> OnCurve(x, f)
  {
    ResidueOfResidue(y);
    EqMul(f, y, f, y);
    EqAdd(f * f, y * y, x * x, x * x);
    EqMul(x * x, x * x, f * f, y * y);
    DTimesEq(x * x * (f * f), x * x * (y * y));
    EqAdd(1, 1, DTimes(x * x * (f * f)), DTimes(x * x * (y * y)));
  }

  lemma SameRoot(u: int, v: int, x: int, r: int, y: int)
    requires Eq(u, y * y - 1) && Eq(v, D * (y * y) + 1) && Eq(x * x * v, u) && (r == x || r == FSub(0, x))
    ensures OnCurve(r, y)
  {
    CurveRoot(r, y, u, v);
    EqFSub(0, x);
    if r != x {
      EqMul(r, 0 - x, r, 0 - x);
      assert (0 - x) * (0 - x) == x * x;
      EqMul(r * r, x * x, v, v);
    }
  }

  lemma UnpackedPoint<G(!new)>(c: Curve<G>, p: seq<Byte>, r: Ge)
    requires EdwardsCurve(c) && Unpacked(p, r)
    ensures RepFull(c, r, c.at(F(r.x), F(r.y)))
  {
    var g := c.at(F(r.x), F(r.y));
    CurveConstants();
    ResidueIs(0);
    ResidueIs(1);
    assert F(r.z) == 1;
  }

  // ---- packing is injective, and unpacking undoes it up to sign ----

  lemma DenominatorNonZero(x: int, y: int)
    requires OnCurve(x, y)
    ensures !Eq(D * (y * y) + 1, 0)
  {
    var v := D * (y * y) + 1;
    if Eq(v, 0) {
      CurveRoot(x, y, y * y - 1, v);
      EqMul(x * x, x * x, v, 0);
      EqAdd(y * y - 1, 0, 1, 1);
      EqMul(D, D, y * y, 1);
      EqAdd(D * (y * y), D, 1, 1);
      ResidueIs(D + 1);
      ResidueIs(0);
    }
  }

  /** Points with the same y have equal or opposite x. */
  lemma SameY(x: int, x0: int, y: int)
    requires Fermat() && OnCurve(x, y) && OnCurve(x0, y)
    ensures Eq(x, x0) || Eq(x, 0 - x0)
  {
    FieldLaw();
    var u, v := y * y - 1, D * (y * y) + 1;
    CurveRoot(x, y, u, v);
    CurveRoot(x0, y, u, v);
    DenominatorNonZero(x, y);
    RootsDiffer(u, v, x, x0);
  }

  lemma DecodeParts(y: nat, bit: nat, v: nat)
    requires y < P && v == y + TWO255 * bit
    ensures v % TWO255 == y && v / TWO255 == bit
  {
    DivModUnique(v, TWO255, bit, y);
  }

  lemma EncodingInjective<G(!new)>(c: Curve<G>, g: G, h: G)
    requires EdwardsCurve(c) && Encoding(c, g) == Encoding(c, h)
    ensures g == h
  {
    PointLaw(c, g);
    PointLaw(c, h);
    DecodeParts(c.y(g), c.x(g) % 2, Encoding(c, g));
    DecodeParts(c.y(h), c.x(h) % 2, Encoding(c, h));
    SameX(c.x(g), c.x(h), c.y(g));
  }

  /** The parity tells the two points with the same y apart. */
  lemma SameX(x: nat, x': nat, y: nat)
    requires Fermat() && x < P && x' < P && OnCurve(x, y) && OnCurve(x', y) && x % 2 == x' % 2
    ensures x == x'
  {
    SameY(x, x', y);
    Representative(x, x');
    if x == FSub(0, x') { OppositeParities(x, x'); }
  }

  lemma OppositeParities(x: nat, x': nat)
    requires x < P && x' < P && x == FSub(0, x') && x % 2 == x' % 2
    ensures x == x'
  {
    NegParity(x');
  }

  lemma Representative(x: nat, x0: nat)
    requires x < P && x0 < P
    ensures Eq(x, x0) ==> x == x0
    ensures Eq(x, 0 - x0) ==> x == FSub(0, x0)
  {
    ResidueIs(x);
    ResidueIs(x0);
  }

  /** A packed point can be unpacked, and what that gives is the negative of the point. */
  lemma UnpackOfPack<G(!new)>(c: Curve<G>, g: G, p: seq<Byte>)
    requires EdwardsCurve(c) && |p| == 32 && LE(p) == Encoding(c, g)
    ensures exists x :: OnCurve(x, LE(p) % TWO255)
    ensures forall r | Unpacked(p, r) :: c.at(F(r.x), F(r.y)) == c.group.neg(g)
  {
    PointLaw(c, g);
    DecodeParts(c.y(g), c.x(g) % 2, LE(p));
    assert OnCurve(c.x(g), LE(p) % TWO255);
    forall r | Unpacked(p, r) ensures c.at(F(r.x), F(r.y)) == c.group.neg(g) {
      UnpackedNegative(c, g, F(r.x), F(r.y));
    }
  }

  lemma UnpackedNegative<G(!new)>(c: Curve<G>, g: G, x: nat, y: nat)
    requires EdwardsCurve(c) && x < P && y == Residue(c.y(g)) && OnCurve(x, y) && (x == 0 || x % 2 != c.x(g) % 2)
    ensures c.at(x, y) == c.group.neg(g)
  {
    PointLaw(c, g);
    PointLaw(c, c.group.neg(g));
    ResidueIs(c.y(g));
    NegativeX(x, c.x(g), y);
  }

  lemma NegativeX(x: nat, x0: nat, y: nat)
    requires Fermat() && x < P && x0 < P && OnCurve(x, y) && OnCurve(x0, y) && (x == 0 || x % 2 != x0 % 2)
    ensures x == FSub(0, x0)
  {
    SameY(x, x0, y);
    Representative(x, x0);
    NegParity(x0);
  }
}
