/** Verification of many signatures at once, with one multi-scalar multiplication for up to 64 of them. */
module BatchVerify {
  import opened Basics
  import opened Words
  import Modm
  import ModmBatch
  import Field
  import opened Group
  import opened Edwards
  import opened Points
  import Codec
  import Sha512
  import opened Ed25519
  import opened BatchHeap
  import opened BosCoster
  import opened FinalStep
  import opened BatchSum

  // ---- scalars ----

  lemma ProductMod(x: nat, y: nat)
    ensures (x % M) * (y % M) % M == x * y % M
  {
    ResponseValue(x, y, 0);
    DivModUnique((x % M) * (y % M) % M, M, 0, (x % M) * (y % M) % M);
  }

  /** The product, written over the first factor. */
  method MulInto(a: array<nat>, b: array<nat>, ghost x: nat, ghost y: nat)
    requires Ed25519.Holds(a, x) && Ed25519.Holds(b, y)
    modifies a
    ensures Ed25519.Holds(a, Product(x, y))
  {
    Modm.Mul(a, a, b);
    ProductMod(x, y);
  }

  lemma SumMod(x: nat, y: nat)
    ensures (x % M + y % M) % M == (x + y) % M
  {
    DivModUnique(x + y, M, x / M + y / M + (x % M + y % M) / M, (x % M + y % M) % M);
  }

  method AddInto(a: array<nat>, b: array<nat>, ghost x: nat, ghost y: nat)
    requires Ed25519.Holds(a, x) && Ed25519.Holds(b, y)
    modifies a
    ensures Ed25519.Holds(a, x + y)
  {
    Modm.Add(a, a, b);
    SumMod(x, y);
  }

  /** The weighted second halves of the signatures, added up. */
  method SumOfParts(es: seq<Entry>, ghost ps: seq<nat>, ghost ws: seq<nat>) returns (s: array<nat>)
    requires AllSized(es) && es != [] && ps == Parts(es) && ws == Weights(es)
    ensures fresh(s) && Ed25519.Holds(s, PartSum(ps, ws, |es|))
  {
    s := WeightedPart(es[0], ps[0], ws[0]);
    ghost var total: nat := Product(ps[0], ws[0]);
    PartSumNext(ps, ws, 0);
    for i := 1 to |es|
      invariant fresh(s) && Ed25519.Holds(s, total) && total == PartSum(ps, ws, i)
    {
      AddPart(s, es[i], total, ps[i], ws[i]);
      PartSumNext(ps, ws, i);
      total := total + Product(ps[i], ws[i]);
    }
  }

  method AddPart(s: array<nat>, e: Entry, ghost total: nat, ghost x: nat, ghost w: nat)
    requires Sized(e) && x == LE(e.RS[32..]) && w == LE(e.r) && Ed25519.Holds(s, total)
    modifies s
    ensures Ed25519.Holds(s, total + Product(x, w))
  {
    var t := WeightedPart(e, x, w);
    AddInto(s, t, total, Product(x, w));
  }

  method WeightedPart(e: Entry, ghost x: nat, ghost w: nat) returns (s: array<nat>)
    requires Sized(e) && x == LE(e.RS[32..]) && w == LE(e.r)
    ensures fresh(s) && Ed25519.Holds(s, Product(x, w))
  {
    s := Ed25519.Scalar(e.RS[32..]);
    var r := Ed25519.Scalar(e.r);
    MulInto(s, r, x, w);
  }

  method WeightedHash<W(0,!new)>(p: Sha512.Parameters<W>, e: Entry, ghost h: nat, ghost w: nat) returns (s: array<nat>)
    requires Hashing(p) && Sized(e) && h == Hram(p, e.RS[..32], e.pk, e.m) && w == LE(e.r)
    ensures fresh(s) && Ed25519.Holds(s, Product(h, w))
  {
    s := HramScalar(p, e.RS[..32], e.pk, e.m);
    var r := Ed25519.Scalar(e.r);
    MulInto(s, r, h, w);
  }

  lemma WeightBelow(r: seq<Byte>)
    requires |r| == 16
    ensures LE(r) < TWO128 && LE(r) % M == LE(r)
  {
    LEBound(r, 0);
    BytePowerOf16(16);
  }

  lemma BytePowerOf16(n: nat)
    requires n == 16
    ensures Power(TWO8, n) == TWO128
  {
    var a, b, c, d := 1, 2, 4, 8;
    assert Power(TWO8, 1) == TWO8;
    PowerSum(TWO8, a, a, b, TWO8, TWO8);
    PowerSum(TWO8, b, b, c, TWO16, TWO16);
    PowerSum(TWO8, c, c, d, TWO32, TWO32);
    PowerSum(TWO8, d, d, n, TWO64, TWO64);
  }

  /** Limbs with the given value. */
  ghost predicate Limbs(s: seq<nat>, v: nat) {
    (ModmBatch.Scalar(s) && Modm.Value(s) == v) == true
  }

  method LimbsOf(a: array<nat>, ghost x: nat) returns (s: seq<nat>)
    requires Ed25519.Holds(a, x)
    ensures Limbs(s, x % M)
  {
    s := a[..];
  }

  ghost predicate AllLimbs(ss: seq<seq<nat>>, vs: seq<nat>) {
    |ss| == |vs| && forall k | 0 <= k < |ss| :: Limbs(ss[k], vs[k])
  }

  /** The scalars of the multiplication: of the base point, the keys and the R halves. */
  method AllScalarsOf<W(0,!new)>(p: Sha512.Parameters<W>, es: seq<Entry>) returns (s: seq<seq<nat>>)
    requires Hashing(p) && AllSized(es) && es != []
    ensures AllLimbs(s, Scalars(p, es))
  {
    var sum := SumOfParts(es, Parts(es), Weights(es));
    var first := LimbsOf(sum, PartSum(Parts(es), Weights(es), |es|));
    var hs, ws := EntryScalars(p, es, Hashes(p, es), Weights(es));
    Assembled(first, hs, ws, Parts(es), Hashes(p, es), Weights(es));
    ScalarsAre(p, es);
    s := [first] + hs + ws;
  }

  lemma Assembled(first: seq<nat>, hs: seq<seq<nat>>, ws: seq<seq<nat>>, s: seq<nat>, h: seq<nat>, w: seq<nat>)
    requires |s| == |h| == |w| && Limbs(first, PartSum(s, w, |s|) % M) && AllLimbs(hs, Products(h, w)) && AllLimbs(ws, w)
    ensures AllLimbs([first] + hs + ws, Coefficients(s, h, w))
  {
    LimbsAppend([first], hs, [PartSum(s, w, |s|) % M], Products(h, w));
    LimbsAppend([first] + hs, ws, [PartSum(s, w, |s|) % M] + Products(h, w), w);
  }

  lemma LimbsAppend(a: seq<seq<nat>>, b: seq<seq<nat>>, u: seq<nat>, v: seq<nat>)
    requires AllLimbs(a, u) && AllLimbs(b, v)
    ensures AllLimbs(a + b, u + v)
  {
  }

  method EntryScalars<W(0,!new)>(p: Sha512.Parameters<W>, es: seq<Entry>, ghost h: seq<nat>, ghost w: seq<nat>) returns (hs: seq<seq<nat>>, ws: seq<seq<nat>>)
    requires Hashing(p) && AllSized(es) && h == Hashes(p, es) && w == Weights(es)
    ensures AllLimbs(hs, Products(h, w)) && AllLimbs(ws, w)
  {
    hs, ws := [], [];
    for i := 0 to |es|
      invariant |hs| == |ws| == i && forall k | 0 <= k < i :: Limbs(hs[k], Products(h, w)[k]) && Limbs(ws[k], w[k])
    {
      var hash := WeightedHash(p, es[i], h[i], w[i]);
      var x := LimbsOf(hash, Product(h[i], w[i]));
      var weight := Ed25519.Scalar(es[i].r);
      var y := LimbsOf(weight, w[i]);
      WeightBelow(es[i].r);
      hs, ws := hs + [x], ws + [y];
    }
  }

  // ---- points ----

  ghost predicate Decodable(s: seq<Byte>) {
    exists x: nat :: NegatedX(s, x)
  }

  /** The limbs stand for the group elements, one by one. */
  ghost predicate AllShown<G>(c: Curve<G>, rs: seq<Ge>, gs: seq<G>) {
    (|rs| == |gs| && forall i | 0 <= i < |gs| :: RepFull(c, rs[i], gs[i])) == true
  }

  /** The negative of the point that 32 bytes encode. */
  method Decode<G(!new)>(s: seq<Byte>, ghost c: Curve<G>) returns (ok: bool, r: Ge, ghost g: G)
    requires EdwardsCurve(c) && |s| == 32
    ensures ok <==> Decodable(s)
    ensures ok ==> Negative(c, s, g) && RepFull(c, r, g)
  {
    ok, r := Codec.UnpackNegative(s);
    g := c.base;
    if ok {
      g := c.at(Field.F(r.x), Field.F(r.y));
      Codec.UnpackedPoint(c, s, r);
      assert NegatedX(s, Field.F(r.x));
    } else {
      NoPoint(s);
    }
  }

  lemma NoPoint(s: seq<Byte>)
    requires |s| == 32 && !(exists x :: OnCurve(x, LE(s) % TWO255))
    ensures !Decodable(s)
  {
    forall x: nat ensures !NegatedX(s, x) {
      Codec.SamePoint(x, LE(s) % TWO255, PointY(s));
    }
  }

  method DecodeAll<G(!new)>(ss: seq<seq<Byte>>, ghost c: Curve<G>) returns (ok: bool, rs: seq<Ge>, ghost gs: seq<G>)
    requires EdwardsCurve(c) && forall i | 0 <= i < |ss| :: |ss[i]| == 32
    ensures ok <==> forall i | 0 <= i < |ss| :: Decodable(ss[i])
    ensures ok ==> Negatives(c, ss, gs) && AllShown(c, rs, gs)
  {
    ok, rs, gs := true, [], [];
    for i := 0 to |ss|
      invariant ok && |gs| == |rs| == i
      invariant forall k | 0 <= k < i :: Negative(c, ss[k], gs[k]) && RepFull(c, rs[k], gs[k]) && Decodable(ss[k])
    {
      var r;
      ghost var g;
      ok, r, g := Decode(ss[i], c);
      if !ok {
        return;
      }
      rs, gs := rs + [r], gs + [g];
    }
  }

  /** Whether the bytes of X are zero and those of Y and Z the same: exactly for the neutral point. */
  method IsNeutral<G(!new)>(p: Ge, ghost c: Curve<G>, ghost g: G) returns (r: bool)
    requires EdwardsCurve(c) && RepFull(c, p, g)
    ensures r == (g == c.group.zero)
  {
    var zero: seq<Byte> := seq(32, _ => 0);
    var x := Field.Contract(p.x);
    var y := Field.Contract(p.y);
    var z := Field.Contract(p.z);
    r := x == zero && y == z;
    ZeroBytes(x, zero);
    Codec.LEEqual(y, z);
    NeutralCoordinates(c, g, Field.F(p.x), Field.F(p.y), Field.F(p.z));
  }

  lemma ZeroBytes(x: seq<Byte>, zero: seq<Byte>)
    requires |x| == |zero| && forall i | 0 <= i < |zero| :: zero[i] == 0
    ensures x == zero <==> LE(x) == 0
  {
    ZeroTail([], zero, 0);
    assert [] + zero == zero;
    Codec.LEEqual(x, zero);
  }

  lemma NeutralCoordinates<G(!new)>(c: Curve<G>, g: G, X: nat, Y: nat, Z: nat)
    requires EdwardsCurve(c) && Projective(X, Y, Z, c.x(g), c.y(g)) && X < Field.P && Y < Field.P && Z < Field.P
    ensures X == 0 && Y == Z <==> g == c.group.zero
  {
    PointLaw(c, g);
    PointLaw(c, c.group.zero);
    FieldLaw();
    ZeroCoordinate(X, Z, c.x(g));
    OneCoordinate(Y, Z, c.y(g));
  }

  lemma ZeroCoordinate(X: nat, Z: nat, x: nat)
    requires NoZeroDivisors() && Eq(X, x * Z) && !Eq(Z, 0) && X < Field.P && x < Field.P
    ensures X == 0 <==> x == 0
  {
    Codec.Representative(X, 0);
    Codec.Representative(x, 0);
    if X == 0 && !Eq(x, 0) { NonZero(x, Z); }
  }

  lemma OneCoordinate(Y: nat, Z: nat, y: nat)
    requires NoZeroDivisors() && Eq(Y, y * Z) && !Eq(Z, 0) && Y < Field.P && Z < Field.P && y < Field.P
    ensures Y == Z <==> y == 1
  {
    Codec.Representative(Y, Z);
    Codec.Representative(y, 1);
    if Y == Z {
      EqAdd(y * Z, Z, Z, Z);
      assert (y - 1) * Z == y * Z - Z;
      if !Eq(y - 1, 0) { NonZero(y - 1, Z); }
      EqAdd(y - 1, 0, 1, 1);
    }
  }

  // ---- one batch ----

  /** What the multiplication gives for a batch whose keys and R halves decode to the given points. */
  ghost predicate Multiplied<W(!new), G(!new)>(c: Curve<G>, p: Sha512.Parameters<W>, es: seq<Entry>, keys: seq<G>, halves: seq<G>, s: nat, q: G, x: Option<G>)
    requires Hashing(p) && AllSized(es) && |es| >= 2
  {
    (&& Negatives(c, Keys(es), keys) && Negatives(c, Halves(es), halves)
     && Computed(c.group, Scalars(p, es), AllPoints(c, keys, halves), 2 * |es| + 1, s, q, x)) == true
  }

  lemma ScalarValues(ss: seq<seq<nat>>, vs: seq<nat>)
    requires AllLimbs(ss, vs)
    ensures AllScalars(ss) && Values(ss) == vs
  {
    forall k | 0 <= k < |ss| ensures ModmBatch.Scalar(ss[k]) && Modm.Value(ss[k]) == vs[k] {
      assert Limbs(ss[k], vs[k]);
    }
  }

  ghost predicate SmallTail(vs: seq<nat>) {
    (forall k | Initial(|vs|) <= k < |vs| :: vs[k] < TWO128) == true
  }

  /** The scalars that the heap starts without are the 128-bit weights. */
  lemma TailSmall(s: seq<nat>, h: seq<nat>, w: seq<nat>)
    requires |s| == |h| == |w| >= 2 && forall i | 0 <= i < |w| :: w[i] < TWO128
    ensures SmallTail(Coefficients(s, h, w))
  {
    var vs := Coefficients(s, h, w);
    forall k | Initial(|vs|) <= k < |vs| ensures vs[k] < TWO128 {
      assert vs[k] == w[k - |s| - 1];
    }
  }

  lemma WeightsBelow(es: seq<Entry>)
    requires AllSized(es)
    ensures forall i | 0 <= i < |es| :: Weights(es)[i] < TWO128
  {
    forall i | 0 <= i < |es| ensures Weights(es)[i] < TWO128 {
      WeightBelow(es[i].r);
    }
  }

  lemma ScalarsTail<W(!new)>(p: Sha512.Parameters<W>, es: seq<Entry>)
    requires Hashing(p) && AllSized(es) && |es| >= 2
    ensures SmallTail(Scalars(p, es))
  {
    WeightsBelow(es);
    TailSmall(Parts(es), Hashes(p, es), Weights(es));
    ScalarsAre(p, es);
  }

  /** Decodes the keys and the R halves and multiplies; `keys` and `halves` are what they decode to, and `x` is the sum
      that comes out, if anything does. */
  method MultiplyBatch<W(0,!new), G(!new)>(p: Sha512.Parameters<W>, es: seq<Entry>, ghost c: Curve<G>)
    returns (decoded: bool, r: Option<Ge>, ghost keys: seq<G>, ghost halves: seq<G>, ghost s: nat, ghost q: G, ghost x: Option<G>)
    requires Hashing(p) && EdwardsCurve(c) && StoredBase(c) && AllSized(es) && |es| >= 2
    ensures decoded ==> Shows(c, r, x) && Multiplied(c, p, es, keys, halves, s, q, x)
    ensures AllDecodable(es) <==> decoded
  {
    var ss := AllScalarsOf(p, es);
    var ks, hs;
    decoded, ks, hs, keys, halves := DecodeBoth(es, c);
    r, s, q, x := None, 0, c.base, None;
    if decoded {
      r, s, q, x := MultiplyDecoded(p, es, ss, ks, hs, c, keys, halves);
    }
  }

  method MultiplyDecoded<W(!new), G(!new)>(ghost p: Sha512.Parameters<W>, ghost es: seq<Entry>, ss: seq<seq<nat>>, ks: seq<Ge>, hs: seq<Ge>,
                                           ghost c: Curve<G>, ghost keys: seq<G>, ghost halves: seq<G>)
    returns (r: Option<Ge>, ghost s: nat, ghost q: G, ghost x: Option<G>)
    requires Hashing(p) && EdwardsCurve(c) && StoredBase(c) && AllSized(es) && |es| >= 2 && AllLimbs(ss, Scalars(p, es))
    requires Negatives(c, Keys(es), keys) && Negatives(c, Halves(es), halves) && AllShown(c, ks, keys) && AllShown(c, hs, halves)
    ensures Shows(c, r, x) && Multiplied(c, p, es, keys, halves, s, q, x)
  {
    ScalarsTail(p, es);
    PointsShown(c, ks, hs, keys, halves);
    r, s, q, x := Multiply(ss, [BASE_POINT] + ks + hs, c, AllPoints(c, keys, halves), Scalars(p, es));
  }

  lemma PointsShown<G(!new)>(c: Curve<G>, ks: seq<Ge>, hs: seq<Ge>, keys: seq<G>, halves: seq<G>)
    requires EdwardsCurve(c) && StoredBase(c) && AllShown(c, ks, keys) && AllShown(c, hs, halves)
    ensures AllShown(c, [BASE_POINT] + ks + hs, AllPoints(c, keys, halves))
  {
    BasePointShown(c);
  }

  ghost predicate AllDecodable(es: seq<Entry>) {
    (AllSized(es) && forall i | 0 <= i < |es| :: Decodable(Keys(es)[i]) && Decodable(Halves(es)[i])) == true
  }

  /** The keys first, then the R halves. */
  method DecodeBoth<G(!new)>(es: seq<Entry>, ghost c: Curve<G>) returns (ok: bool, ks: seq<Ge>, hs: seq<Ge>, ghost keys: seq<G>, ghost halves: seq<G>)
    requires EdwardsCurve(c) && AllSized(es)
    ensures ok ==> Negatives(c, Keys(es), keys) && Negatives(c, Halves(es), halves) && AllShown(c, ks, keys) && AllShown(c, hs, halves)
    ensures AllDecodable(es) <==> ok
  {
    hs, halves := [], [];
    ok, ks, keys := DecodeAll(Keys(es), c);
    if ok {
      ok, hs, halves := DecodeAll(Halves(es), c);
    }
  }

  method Multiply<G(!new)>(ss: seq<seq<nat>>, rs: seq<Ge>, ghost c: Curve<G>, ghost pts: seq<G>, ghost vs: seq<nat>)
    returns (r: Option<Ge>, ghost s: nat, ghost q: G, ghost x: Option<G>)
    requires EdwardsCurve(c) && AllLimbs(ss, vs) && AllShown(c, rs, pts) && |pts| == |vs| && |vs| >= 5 && |vs| % 2 == 1 && SmallTail(vs)
    ensures Shows(c, r, x) && Computed(c.group, vs, pts, |vs|, s, q, x)
  {
    var h := NewHeap(ss, rs, c, pts, vs);
    r, x, s, q := MultiScalarMult(h, |rs|, c);
  }

  method NewHeap<G(!new)>(ss: seq<seq<nat>>, rs: seq<Ge>, ghost c: Curve<G>, ghost pts: seq<G>, ghost vs: seq<nat>) returns (h: BatchHeap<G>)
    requires AllLimbs(ss, vs) && AllShown(c, rs, pts) && |pts| == |vs|
    ensures fresh(h) && fresh(h.points) && fresh(h.scalars) && fresh(h.heap)
    ensures h.points.Length == h.scalars.Length == h.heap.Length == |h.pts| == |rs| && AllScalars(h.scalars[..])
    ensures Shown(h, c) && h.pts == pts && h.Vals() == vs
  {
    var count := |rs|;
    var points := new Ge[count](i requires 0 <= i < count => rs[i]);
    var scalars := new seq<nat>[count](i requires 0 <= i < count => ss[i]);
    assert points[..] == rs && scalars[..] == ss;
    ScalarValues(ss, vs);
    h := new BatchHeap(points, scalars, pts);
  }

  /** Each signature by itself. */
  method OpenEach<W(0,!new), G(!new)>(p: Sha512.Parameters<W>, odd: seq<NielsPoint>, es: seq<Entry>, ghost c: Curve<G>, ghost rows: seq<seq<Byte>>) returns (valid: seq<bool>)
    requires Hashing(p) && Setting(c, rows, odd) && AllSized(es)
    ensures valid == Acceptances(c, p, es)
  {
    valid := [];
    for i := 0 to |es|
      invariant |valid| == i && forall k | 0 <= k < i :: valid[k] == Accepted(c, p, es[k])
    {
      var ret := SignOpen(p, odd, es[i].m, es[i].pk, es[i].RS, c, rows);
      AcceptedIs(c, p, es[i]);
      valid := valid + [ret == 0];
    }
  }

  /** What single verification says. */
  ghost function Acceptances<W(!new), G>(c: Curve<G>, p: Sha512.Parameters<W>, es: seq<Entry>): (r: seq<bool>)
    requires Hashing(p) && AllSized(es)
    ensures |r| == |es| && forall i | 0 <= i < |es| :: r[i] == Accepted(c, p, es[i])
  {
    seq(|es|, i requires 0 <= i < |es| => Accepted(c, p, es[i]))
  }

  ghost predicate IsAcceptance<W(!new), G>(c: Curve<G>, p: Sha512.Parameters<W>, e: Entry, b: bool)
    requires Hashing(p) && Sized(e)
  {
    forall u {:trigger Unfold(u)} :: Unfold(u) ==> (b <==> Accepts(c, p, e.m, e.pk, e.RS))
  }

  /** Single verification accepts the entry; what that is shows only where `Unfold(true)` is asserted. */
  ghost predicate Accepted<W(!new), G>(c: Curve<G>, p: Sha512.Parameters<W>, e: Entry)
    requires Hashing(p) && Sized(e)
  {
    assert IsAcceptance(c, p, e, Accepts(c, p, e.m, e.pk, e.RS));
    var b :| IsAcceptance(c, p, e, b);
    b
  }

  lemma AcceptedIs<W(!new), G>(c: Curve<G>, p: Sha512.Parameters<W>, e: Entry)
    requires Hashing(p) && Sized(e)
    ensures Accepted(c, p, e) <==> Accepts(c, p, e.m, e.pk, e.RS)
  {
    assert Unfold(true);
    assert IsAcceptance(c, p, e, Accepted(c, p, e));
  }

  // ---- what a neutral result means ----

  /** The multiplication can come out neutral: the last step gives zero for the greatest common divisor of the scalars and
      a point that the entries reduce to. */
  ghost predicate Passes<W(!new), G(!new)>(c: Curve<G>, p: Sha512.Parameters<W>, es: seq<Entry>)
    requires Hashing(p) && AllSized(es) && |es| >= 2
  {
    exists keys: seq<G>, halves: seq<G>, s: nat, q: G :: Multiplied(c, p, es, keys, halves, s, q, Some(c.group.zero))
  }

  /** The keys and R halves decode to the given points, and the sum with them is zero. */
  ghost predicate SumIsZero<W(!new), G>(c: Curve<G>, p: Sha512.Parameters<W>, es: seq<Entry>, keys: seq<G>, halves: seq<G>)
    requires Hashing(p) && AllSized(es)
  {
    (&& Negatives(c, Keys(es), keys) && Negatives(c, Halves(es), halves)
     && BatchTotal(c, p, es, keys, halves) == c.group.zero) == true
  }

  /** S_1 w_1 B + ... - h_1 w_1 A_1 - ... - w_1 R_1 - ... is zero. */
  ghost predicate SumsToZero<W(!new), G(!new)>(c: Curve<G>, p: Sha512.Parameters<W>, es: seq<Entry>)
    requires Hashing(p) && AllSized(es)
  {
    exists keys: seq<G>, halves: seq<G> :: SumIsZero(c, p, es, keys, halves)
  }

  /** The points that the entries encode are multiples of the base point. */
  ghost predicate InSubgroup<G(!new)>(c: Curve<G>, keys: seq<G>, halves: seq<G>) {
    Spanned(c.group, c.base, keys) && Spanned(c.group, c.base, halves)
  }

  /** The heap is extended, and either the scalars have no common divisor, or all points are multiples of the base point. */
  ghost predicate Decisive<W(!new), G(!new)>(c: Curve<G>, p: Sha512.Parameters<W>, es: seq<Entry>)
    requires Hashing(p) && AllSized(es)
  {
    (&& Extends(Scalars(p, es), Initial(2 * |es| + 1))
     && (|| Coprime(Scalars(p, es), 2 * |es| + 1)
         || (&& TorsionFree(c.group, c.base)
             && forall keys: seq<G>, halves: seq<G> | Negatives(c, Keys(es), keys) && Negatives(c, Halves(es), halves) :: InSubgroup(c, keys, halves)))) == true
  }

  lemma LargeOrderAll<G(!new)>(c: Curve<G>, keys: seq<G>, halves: seq<G>)
    requires Abelian(c.group) && InSubgroup(c, keys, halves) && TorsionFree(c.group, c.base)
    ensures LargeOrder(c.group, AllPoints(c, keys, halves))
  {
    Law(c.group, c.base, c.base, c.base);
    assert c.base == Times(c.group, 1, c.base);
    assert Spanned(c.group, c.base, AllPoints(c, keys, halves));
  }

  lemma NegativesUnique<G(!new)>(c: Curve<G>, ss: seq<seq<Byte>>, gs: seq<G>, hs: seq<G>)
    requires EdwardsCurve(c) && Negatives(c, ss, gs) && Negatives(c, ss, hs) && forall i | 0 <= i < |ss| :: |ss[i]| == 32
    ensures gs == hs
  {
    forall i | 0 <= i < |ss| ensures gs[i] == hs[i] {
      var x: nat :| NegatedX(ss[i], x) && gs[i] == c.at(x, PointY(ss[i]));
      var x': nat :| NegatedX(ss[i], x') && hs[i] == c.at(x', PointY(ss[i]));
      NegatedUnique(ss[i], x, x');
    }
  }

  lemma SumUnique<W(!new), G(!new)>(c: Curve<G>, p: Sha512.Parameters<W>, es: seq<Entry>, keys: seq<G>, halves: seq<G>)
    requires Hashing(p) && EdwardsCurve(c) && AllSized(es) && Negatives(c, Keys(es), keys) && Negatives(c, Halves(es), halves)
    ensures SumsToZero(c, p, es) <==> BatchTotal(c, p, es, keys, halves) == c.group.zero
  {
    if SumsToZero(c, p, es) {
      var ks: seq<G>, hs: seq<G> :| SumIsZero(c, p, es, ks, hs);
      NegativesUnique(c, Keys(es), ks, keys);
      NegativesUnique(c, Halves(es), hs, halves);
    } else {
      assert !SumIsZero(c, p, es, keys, halves);
    }
  }

  lemma DecisiveCases<W(!new), G(!new)>(c: Curve<G>, p: Sha512.Parameters<W>, es: seq<Entry>, keys: seq<G>, halves: seq<G>)
    requires Hashing(p) && Abelian(c.group) && AllSized(es) && Decisive(c, p, es) && Negatives(c, Keys(es), keys) && Negatives(c, Halves(es), halves)
    ensures Extends(Scalars(p, es), Initial(2 * |es| + 1)) && (Coprime(Scalars(p, es), 2 * |es| + 1) || LargeOrder(c.group, AllPoints(c, keys, halves)))
  {
    if !Coprime(Scalars(p, es), 2 * |es| + 1) {
      assert InSubgroup(c, keys, halves);
      LargeOrderAll(c, keys, halves);
    }
  }

  /** The result is neutral exactly when the sum is zero, if the heap is extended and either the scalars have no common
      divisor or the points have large order. */
  lemma NeutralExactly<W(!new), G(!new)>(c: Curve<G>, p: Sha512.Parameters<W>, es: seq<Entry>, keys: seq<G>, halves: seq<G>, s: nat, q: G, x: Option<G>)
    requires Hashing(p) && AllSized(es) && |es| >= 2 && Multiplied(c, p, es, keys, halves, s, q, x)
    requires Extends(Scalars(p, es), Initial(2 * |es| + 1)) && (Coprime(Scalars(p, es), 2 * |es| + 1) || LargeOrder(c.group, AllPoints(c, keys, halves)))
    ensures x == Some(c.group.zero) <==> BatchTotal(c, p, es, keys, halves) == c.group.zero
  {
    ZeroExactly(c.group, Scalars(p, es), AllPoints(c, keys, halves), 2 * |es| + 1, s, q, x);
  }

  /** For a decisive batch, the result is neutral exactly when the sum is zero. */
  lemma DecisiveResult<W(!new), G(!new)>(c: Curve<G>, p: Sha512.Parameters<W>, es: seq<Entry>, keys: seq<G>, halves: seq<G>, s: nat, q: G, x: Option<G>)
    requires Hashing(p) && EdwardsCurve(c) && AllSized(es) && |es| >= 2 && Multiplied(c, p, es, keys, halves, s, q, x) && Decisive(c, p, es)
    ensures x == Some(c.group.zero) <==> SumsToZero(c, p, es)
  {
    SumUnique(c, p, es, keys, halves);
    DecisiveCases(c, p, es, keys, halves);
    NeutralExactly(c, p, es, keys, halves, s, q, x);
  }

  lemma NoSum<W(!new), G(!new)>(c: Curve<G>, p: Sha512.Parameters<W>, es: seq<Entry>)
    requires Hashing(p) && AllSized(es) && SumsToZero(c, p, es)
    ensures AllDecodable(es)
  {
    var keys: seq<G>, halves: seq<G> :| SumIsZero(c, p, es, keys, halves);
    forall i | 0 <= i < |es| ensures Decodable(Keys(es)[i]) && Decodable(Halves(es)[i]) {
      assert Negative(c, Keys(es)[i], keys[i]) && Negative(c, Halves(es)[i], halves[i]);
    }
  }

  /** What a batch that passes tells. Its points decode, and the last step gives zero for what they reduce to. If the
      scalars in the heap have no common divisor, their sum is zero; if the batch is decisive, the whole sum is. */
  lemma PassMeans<W(!new), G(!new)>(c: Curve<G>, p: Sha512.Parameters<W>, es: seq<Entry>) returns (keys: seq<G>, halves: seq<G>, s: nat, q: G)
    requires Hashing(p) && EdwardsCurve(c) && AllSized(es) && |es| >= 2 && Passes(c, p, es)
    ensures Negatives(c, Keys(es), keys) && Negatives(c, Halves(es), halves)
    ensures Survives(c.group, Scalars(p, es), AllPoints(c, keys, halves), 2 * |es| + 1, s, q) && FinalResult(c.group, s, q) == Some(c.group.zero)
    ensures s <= 1 ==> LinComb(c.group, Scalars(p, es), AllPoints(c, keys, halves), Held(Scalars(p, es), 2 * |es| + 1)) == c.group.zero
    ensures Decisive(c, p, es) ==> SumsToZero(c, p, es)
  {
    keys, halves, s, q :| Multiplied(c, p, es, keys, halves, s, q, Some(c.group.zero));
    ZeroResult(c.group, Scalars(p, es), AllPoints(c, keys, halves), 2 * |es| + 1, s, q);
    if Decisive(c, p, es) { DecisiveResult(c, p, es, keys, halves, s, q, Some(c.group.zero)); }
  }

  // ---- signatures made with their keys ----

  lemma HonestDecodable<W(!new), G(!new)>(c: Curve<G>, p: Sha512.Parameters<W>, es: seq<Entry>, sks: seq<seq<Byte>>)
    requires Hashing(p) && EdwardsCurve(c) && AllHonest(c, p, es, sks)
    ensures AllDecodable(es)
  {
    HonestEntries(c, p, es, sks);
    forall i | 0 <= i < |es| ensures Decodable(Keys(es)[i]) && Decodable(Halves(es)[i]) {
      KeyDecodes(c, Times(c.group, Secrets(p, sks)[i], c.base), Keys(es)[i]);
      KeyDecodes(c, Times(c.group, Nonces(p, es, sks)[i], c.base), Halves(es)[i]);
    }
  }

  lemma SpannedMultiples<G(!new)>(g: Group<G>, b: G, k: seq<int>, ps: seq<G>)
    requires Multiples(g, b, k, ps)
    ensures Spanned(g, b, ps)
  {
    forall i | 0 <= i < |ps| ensures IsMultiple(g, b, ps[i]) {
      assert ps[i] == Times(g, k[i], b);
    }
  }

  /** If the heap is extended, the sum of such signatures comes out neutral. */
  lemma HonestNeutral<W(!new), G(!new)>(c: Curve<G>, p: Sha512.Parameters<W>, es: seq<Entry>, sks: seq<seq<Byte>>, keys: seq<G>, halves: seq<G>, s: nat, q: G, x: Option<G>)
    requires Hashing(p) && EdwardsCurve(c) && OrderM(c.group, c.base) && AllHonest(c, p, es, sks) && AllSized(es) && |es| >= 2
    requires Multiplied(c, p, es, keys, halves, s, q, x) && Extends(Scalars(p, es), Initial(2 * |es| + 1)) && TorsionFree(c.group, c.base)
    ensures x == Some(c.group.zero)
  {
    HonestSum(c, p, es, sks, keys, halves);
    HonestMultiples(c, p, es, sks, keys, halves);
    SpannedMultiples(c.group, c.base, Negated(Secrets(p, sks)), keys);
    SpannedMultiples(c.group, c.base, Negated(Nonces(p, es, sks)), halves);
    LargeOrderAll(c, keys, halves);
    NeutralExactly(c, p, es, keys, halves, s, q, x);
  }

  /** A batch of signatures made with the secret keys, for which the heap is extended. */
  ghost predicate Smooth<W(!new), G(!new)>(c: Curve<G>, p: Sha512.Parameters<W>, es: seq<Entry>, sks: seq<seq<Byte>>)
    requires Hashing(p)
  {
    (AllHonest(c, p, es, sks) && AllSized(es) && Extends(Scalars(p, es), Initial(2 * |es| + 1)) && TorsionFree(c.group, c.base)) == true
  }

  function AllTrue(n: nat): seq<bool> {
    seq(n, _ => true)
  }

  /** What is known of a batch that came out neutral, or did not. */
  ghost predicate Outcome<W(!new), G(!new)>(c: Curve<G>, p: Sha512.Parameters<W>, es: seq<Entry>, neutral: bool)
    requires Hashing(p) && AllSized(es) && |es| >= 2
  {
    (neutral ==> AllDecodable(es) && Passes(c, p, es)) && (Decisive(c, p, es) ==> (neutral <==> SumsToZero(c, p, es)))
  }

  ghost predicate IsOutcome<W(!new), G(!new)>(c: Curve<G>, p: Sha512.Parameters<W>, es: seq<Entry>, neutral: bool, b: bool)
    requires Hashing(p) && AllSized(es) && |es| >= 2
  {
    forall u {:trigger Unfold(u)} :: Unfold(u) ==> (b <==> Outcome(c, p, es, neutral))
  }

  /** The same, shown only where `Unfold(true)` is asserted. */
  ghost predicate Settled<W(!new), G(!new)>(c: Curve<G>, p: Sha512.Parameters<W>, es: seq<Entry>, neutral: bool)
    requires Hashing(p) && AllSized(es) && |es| >= 2
  {
    assert IsOutcome(c, p, es, neutral, Outcome(c, p, es, neutral));
    var b :| IsOutcome(c, p, es, neutral, b);
    b
  }

  lemma SettledIs<W(!new), G(!new)>(c: Curve<G>, p: Sha512.Parameters<W>, es: seq<Entry>, neutral: bool)
    requires Hashing(p) && AllSized(es) && |es| >= 2
    ensures Settled(c, p, es, neutral) <==> Outcome(c, p, es, neutral)
  {
    assert Unfold(true);
    assert IsOutcome(c, p, es, neutral, Settled(c, p, es, neutral));
  }

  /** The verdicts of a batch: all valid if the sum is neutral, and otherwise those of single verification. `code` is 2 if
      the sum is not neutral. The multiplication has no result only if it never extends its heap. */
  method OpenBatch<W(0,!new), G(!new)>(p: Sha512.Parameters<W>, odd: seq<NielsPoint>, es: seq<Entry>, ghost c: Curve<G>, ghost rows: seq<seq<Byte>>, ghost sks: seq<seq<Byte>>)
    returns (done: bool, code: nat, valid: seq<bool>, ghost neutral: bool)
    requires Hashing(p) && Setting(c, rows, odd) && StoredBase(c) && AllSized(es) && |es| >= 2
    ensures !done ==> !Extends(Scalars(p, es), Initial(2 * |es| + 1))
    ensures done ==> valid == (if neutral then AllTrue(|es|) else Acceptances(c, p, es)) && Settled(c, p, es, neutral)
    ensures done ==> code == if AllDecodable(es) && !neutral then 2 else 0
    ensures Smooth(c, p, es, sks) ==> done && neutral
  {
    var decoded, r, keys, halves, s, q, x := MultiplyBatch(p, es, c);
    done, code, valid, neutral := true, 0, [], false;
    OutcomeOf(c, p, es, sks, decoded, keys, halves, s, q, x);
    if decoded {
      if r.None? {
        done := false;
        return;
      }
      var zero := IsNeutral(r.value, c, x.value);
      if zero {
        neutral := true;
        valid := AllTrue(|es|);
        return;
      }
      code := 2;
    }
    valid := OpenEach(p, odd, es, c, rows);
  }

  lemma OutcomeOf<W(!new), G(!new)>(c: Curve<G>, p: Sha512.Parameters<W>, es: seq<Entry>, sks: seq<seq<Byte>>, decoded: bool, keys: seq<G>, halves: seq<G>, s: nat, q: G, x: Option<G>)
    requires Hashing(p) && EdwardsCurve(c) && OrderM(c.group, c.base) && AllSized(es) && |es| >= 2
    requires (decoded ==> Multiplied(c, p, es, keys, halves, s, q, x)) && (AllDecodable(es) <==> decoded)
    ensures decoded && x.None? ==> !Extends(Scalars(p, es), Initial(2 * |es| + 1))
    ensures Settled(c, p, es, decoded && x == Some(c.group.zero))
    ensures Smooth(c, p, es, sks) ==> decoded && x == Some(c.group.zero)
  {
    if Smooth(c, p, es, sks) {
      HonestDecodable(c, p, es, sks);
      HonestNeutral(c, p, es, sks, keys, halves, s, q, x);
    }
    if SumsToZero(c, p, es) { NoSum(c, p, es); }
    if decoded { ResultOfExtended(c, p, es, keys, halves, s, q, x); }
    SettledIs(c, p, es, decoded && x == Some(c.group.zero));
    if decoded && Decisive(c, p, es) { DecisiveResult(c, p, es, keys, halves, s, q, x); }
  }

  lemma ResultOfExtended<W(!new), G(!new)>(c: Curve<G>, p: Sha512.Parameters<W>, es: seq<Entry>, keys: seq<G>, halves: seq<G>, s: nat, q: G, x: Option<G>)
    requires Hashing(p) && AllSized(es) && |es| >= 2 && Multiplied(c, p, es, keys, halves, s, q, x)
    ensures x.None? ==> !Extends(Scalars(p, es), Initial(2 * |es| + 1))
  {
    NoResult(c.group, Scalars(p, es), AllPoints(c, keys, halves), 2 * |es| + 1, s, q, x);
  }

  // ---- any number of signatures ----

  const MAX_BATCH: nat := 64

  /** Where the batch of signature `i` starts. */
  function BatchStart(i: nat): (lo: nat)
    ensures lo <= i < lo + MAX_BATCH
  {
    i / MAX_BATCH * MAX_BATCH
  }

  /** Batches start at the multiples of 64 and have at most 64 signatures. */
  lemma BatchesOf64(n: nat, i: nat)
    ensures BatchStart(i) == i - i % 64 && BatchEnd(n, BatchStart(i)) == if i - i % 64 + 64 < n then i - i % 64 + 64 else n
  {
  }

  lemma StartOf(k: nat, i: nat)
    requires MAX_BATCH * k <= i < MAX_BATCH * k + MAX_BATCH
    ensures BatchStart(i) == MAX_BATCH * k
  {
    DivModUnique(i, MAX_BATCH, k, i - MAX_BATCH * k);
  }

  /** Where the batch that starts at `lo` ends. */
  function BatchEnd(n: nat, lo: nat): nat {
    if lo + MAX_BATCH < n then lo + MAX_BATCH else n
  }

  /** The batch that starts at `lo`; three signatures or fewer are no batch. */
  function BatchAt(es: seq<Entry>, lo: nat): (b: seq<Entry>)
    requires lo + 3 < |es|
    ensures AllSized(es) ==> AllSized(b)
    ensures 2 <= |b| <= MAX_BATCH
  {
    es[lo..BatchEnd(|es|, lo)]
  }

  /** What is known of signature `i`: its verdict is the one of single verification, or its batch came out neutral. */
  ghost predicate Judged<W(!new), G(!new)>(c: Curve<G>, p: Sha512.Parameters<W>, es: seq<Entry>, i: nat, neutral: bool, valid: bool)
    requires Hashing(p) && AllSized(es) && i < |es|
  {
    (&& (valid <==> neutral || Accepted(c, p, es[i]))
     && if BatchStart(i) + 3 < |es| then Settled(c, p, BatchAt(es, BatchStart(i)), neutral) else !neutral) == true
  }

  ghost predicate AllJudged<W(!new), G(!new)>(c: Curve<G>, p: Sha512.Parameters<W>, es: seq<Entry>, neutral: seq<bool>, valid: seq<bool>)
    requires Hashing(p) && AllSized(es)
  {
    (|neutral| == |valid| <= |es| && forall i | 0 <= i < |valid| :: Judged(c, p, es, i, neutral[i], valid[i])) == true
  }

  /** Signature `i` is in no batch, or in one that has a key or an R half that does not decode, or in one that came out neutral. */
  ghost predicate Clear(es: seq<Entry>, i: nat, neutral: bool) {
    (BatchStart(i) + 3 < |es| && AllDecodable(BatchAt(es, BatchStart(i))) ==> neutral) == true
  }

  ghost predicate AllClear(es: seq<Entry>, neutral: seq<bool>) {
    (forall i | 0 <= i < |neutral| :: Clear(es, i, neutral[i])) == true
  }

  /** The verdicts of the batch that starts at `lo`. */
  lemma JudgeNext<W(!new), G(!new)>(c: Curve<G>, p: Sha512.Parameters<W>, es: seq<Entry>, lo: nat, k: nat, flags: seq<bool>, before: seq<bool>, vs: seq<bool>, neutral: bool)
    requires Hashing(p) && AllSized(es) && lo + 3 < |es| && lo == MAX_BATCH * k && |before| == lo && AllJudged(c, p, es, flags, before)
    requires vs == (if neutral then AllTrue(|BatchAt(es, lo)|) else Acceptances(c, p, BatchAt(es, lo))) && Settled(c, p, BatchAt(es, lo), neutral)
    ensures AllJudged(c, p, es, flags + seq(|vs|, _ => neutral), before + vs)
  {
    forall i | 0 <= i < |vs| ensures JudgedFrom(c, p, es, lo, i, neutral, vs[i]) {
      JudgeOne(c, p, es, lo, k, i, vs, neutral);
    }
    JudgedAppend(c, p, es, flags, before, seq(|vs|, _ => neutral), vs);
  }

  /** Signature `i` after the first `lo`. */
  ghost predicate JudgedFrom<W(!new), G(!new)>(c: Curve<G>, p: Sha512.Parameters<W>, es: seq<Entry>, lo: nat, i: nat, neutral: bool, valid: bool)
    requires Hashing(p) && AllSized(es)
  {
    (lo + i < |es| && Judged(c, p, es, lo + i, neutral, valid)) == true
  }

  lemma JudgedAppend<W(!new), G(!new)>(c: Curve<G>, p: Sha512.Parameters<W>, es: seq<Entry>, flags: seq<bool>, before: seq<bool>, more: seq<bool>, vs: seq<bool>)
    requires Hashing(p) && AllSized(es) && AllJudged(c, p, es, flags, before) && |more| == |vs| && |before| + |vs| <= |es|
    requires forall i | 0 <= i < |vs| :: JudgedFrom(c, p, es, |before|, i, more[i], vs[i])
    ensures AllJudged(c, p, es, flags + more, before + vs)
  {
    var fs, all, lo := flags + more, before + vs, |before|;
    forall i | 0 <= i < |all| ensures Judged(c, p, es, i, fs[i], all[i]) {
      if i >= lo {
        assert JudgedFrom(c, p, es, lo, i - lo, more[i - lo], vs[i - lo]);
      }
    }
  }

  lemma JudgeOne<W(!new), G(!new)>(c: Curve<G>, p: Sha512.Parameters<W>, es: seq<Entry>, lo: nat, k: nat, i: nat, vs: seq<bool>, neutral: bool)
    requires Hashing(p) && AllSized(es) && lo + 3 < |es| && lo == MAX_BATCH * k && i < |BatchAt(es, lo)|
    requires vs == (if neutral then AllTrue(|BatchAt(es, lo)|) else Acceptances(c, p, BatchAt(es, lo))) && Settled(c, p, BatchAt(es, lo), neutral)
    ensures JudgedFrom(c, p, es, lo, i, neutral, vs[i])
  {
    StartOf(k, lo + i);
    EntryAt(es, lo, i);
  }

  lemma EntryAt(es: seq<Entry>, lo: nat, i: nat)
    requires lo + 3 < |es| && i < |BatchAt(es, lo)|
    ensures lo + i < |es| && BatchAt(es, lo)[i] == es[lo + i]
  {
  }

  lemma ClearNext(es: seq<Entry>, lo: nat, k: nat, flags: seq<bool>, n: nat, neutral: bool)
    requires lo + 3 < |es| && lo == MAX_BATCH * k && |flags| == lo && n == |BatchAt(es, lo)|
    ensures AllClear(es, flags + seq(n, _ => neutral)) <==> AllClear(es, flags) && (AllDecodable(BatchAt(es, lo)) ==> neutral)
  {
    var fs := flags + seq(n, _ => neutral);
    StartOf(k, lo);
    assert Clear(es, lo, fs[lo]) <==> (AllDecodable(BatchAt(es, lo)) ==> neutral);
    forall i | 0 <= i < |fs| ensures if i < lo then Clear(es, i, fs[i]) == Clear(es, i, flags[i]) else Clear(es, i, fs[i]) == Clear(es, lo, fs[lo]) {
      if i >= lo { StartOf(k, i); }
    }
    if AllClear(es, fs) {
      forall i | 0 <= i < |flags| ensures Clear(es, i, flags[i]) {
        assert Clear(es, i, fs[i]);
      }
    }
  }

  /** Every batch is of the kind that passes. */
  ghost predicate AllSmooth<W(!new), G(!new)>(c: Curve<G>, p: Sha512.Parameters<W>, es: seq<Entry>, sks: seq<seq<Byte>>)
    requires Hashing(p) && |sks| == |es|
  {
    (AllHonest(c, p, es, sks) && forall k: nat | MAX_BATCH * k + 3 < |es| :: SmoothAt(c, p, es, sks, MAX_BATCH * k)) == true
  }

  ghost predicate SmoothAt<W(!new), G(!new)>(c: Curve<G>, p: Sha512.Parameters<W>, es: seq<Entry>, sks: seq<seq<Byte>>, lo: nat)
    requires Hashing(p) && |sks| == |es| && lo + 3 < |es|
  {
    Smooth(c, p, BatchAt(es, lo), sks[lo..BatchEnd(|es|, lo)])
  }

  /** Opens signatures in batches of up to 64, and the last three or fewer by themselves. A signature is found valid exactly
      if its batch came out neutral or single verification accepts it. Bit 0 of the result tells that some signature is not
      valid, bit 1 that some batch that decodes did not come out neutral. */
  method SignOpenBatch<W(0,!new), G(!new)>(p: Sha512.Parameters<W>, odd: seq<NielsPoint>, es: seq<Entry>, ghost c: Curve<G>, ghost rows: seq<seq<Byte>>, ghost sks: seq<seq<Byte>>)
    returns (done: bool, ret: nat, valid: seq<bool>, ghost neutral: seq<bool>)
    requires Hashing(p) && Setting(c, rows, odd) && StoredBase(c) && AllSized(es) && |sks| == |es|
    ensures done ==> |valid| == |es| && AllJudged(c, p, es, neutral, valid)
    ensures done ==> ret < 4 && (ret % 2 == 1 <==> false in valid) && (ret < 2 <==> AllClear(es, neutral))
    ensures AllSmooth(c, p, es, sks) ==> done && ret == 0
  {
    var lo, high := 0, 0;
    ghost var k := 0;
    done, ret, valid, neutral := true, 0, [], [];
    while |es| - lo > 3
      invariant lo <= |es| && (lo == MAX_BATCH * k || lo == |es|) && |valid| == lo && AllJudged(c, p, es, neutral, valid)
      invariant (high == 0 || high == 2) && (high == 0 <==> AllClear(es, neutral)) && (high == 2 ==> !AllSmooth(c, p, es, sks))
      invariant lo == |es| || lo == MAX_BATCH * k
      decreases |es| - lo
    {
      var code, vs := 0, [];
      ghost var flag;
      done, code, vs, flag := OpenNext(p, odd, es, lo, c, rows, sks, k, neutral, valid);
      if !done {
        return;
      }
      high := if code == 2 then 2 else high;
      valid, neutral, lo, k := valid + vs, neutral + seq(|vs|, _ => flag), BatchEnd(|es|, lo), k + 1;
    }
    valid, neutral := OpenLast(p, odd, es, valid, c, rows, neutral, k);
    ret := ReturnCode(high, valid);
    if AllSmooth(c, p, es, sks) {
      HonestValid(c, p, es, sks, rows, odd, neutral, valid);
    }
  }

  function ReturnCode(high: nat, valid: seq<bool>): (ret: nat)
    requires high == 0 || high == 2
    ensures ret < 4 && ret / 2 * 2 == high && (ret % 2 == 1 <==> false in valid)
  {
    high + if false in valid then 1 else 0
  }

  /** The batch that starts at `lo`. */
  method OpenNext<W(0,!new), G(!new)>(p: Sha512.Parameters<W>, odd: seq<NielsPoint>, es: seq<Entry>, lo: nat, ghost c: Curve<G>, ghost rows: seq<seq<Byte>>,
                                      ghost sks: seq<seq<Byte>>, ghost k: nat, ghost flags: seq<bool>, ghost before: seq<bool>)
    returns (done: bool, code: nat, vs: seq<bool>, ghost neutral: bool)
    requires Hashing(p) && Setting(c, rows, odd) && StoredBase(c) && AllSized(es) && |sks| == |es|
    requires lo + 3 < |es| && lo == MAX_BATCH * k && |before| == lo && AllJudged(c, p, es, flags, before)
    ensures done ==> lo + |vs| == BatchEnd(|es|, lo) && AllJudged(c, p, es, flags + seq(|vs|, _ => neutral), before + vs)
    ensures done ==> (code == 0 || code == 2) && (AllClear(es, flags + seq(|vs|, _ => neutral)) <==> AllClear(es, flags) && code == 0)
    ensures AllSmooth(c, p, es, sks) ==> done && code == 0
  {
    var hi := BatchEnd(|es|, lo);
    done, code, vs, neutral := OpenBatch(p, odd, BatchAt(es, lo), c, rows, sks[lo..hi]);
    assert AllSmooth(c, p, es, sks) ==> SmoothAt(c, p, es, sks, lo);
    if done {
      JudgeNext(c, p, es, lo, k, flags, before, vs, neutral);
      ClearNext(es, lo, k, flags, |vs|, neutral);
    }
  }

  /** The signatures that are left, by themselves. */
  method OpenLast<W(0,!new), G(!new)>(p: Sha512.Parameters<W>, odd: seq<NielsPoint>, es: seq<Entry>, before: seq<bool>, ghost c: Curve<G>, ghost rows: seq<seq<Byte>>, ghost flags: seq<bool>, ghost k: nat)
    returns (valid: seq<bool>, ghost neutral: seq<bool>)
    requires Hashing(p) && Setting(c, rows, odd) && AllSized(es) && AllJudged(c, p, es, flags, before)
    requires |before| == |es| || (|before| == MAX_BATCH * k && |es| <= |before| + 3)
    ensures |valid| == |es| && AllJudged(c, p, es, neutral, valid) && (AllClear(es, neutral) <==> AllClear(es, flags))
  {
    var lo := |before|;
    var last := OpenEach(p, odd, es[lo..], c, rows);
    valid, neutral := before + last, flags + seq(|last|, _ => false);
    JudgeLast(c, p, es, lo, k, flags, before, last);
  }

  lemma JudgeLast<W(!new), G(!new)>(c: Curve<G>, p: Sha512.Parameters<W>, es: seq<Entry>, lo: nat, k: nat, flags: seq<bool>, before: seq<bool>, last: seq<bool>)
    requires Hashing(p) && AllSized(es) && |before| == lo && AllJudged(c, p, es, flags, before) && (lo == |es| || (lo == MAX_BATCH * k && |es| <= lo + 3))
    requires last == Acceptances(c, p, es[lo..])
    ensures AllJudged(c, p, es, flags + seq(|last|, _ => false), before + last) && (AllClear(es, flags + seq(|last|, _ => false)) <==> AllClear(es, flags))
  {
    forall i | 0 <= i < |last| ensures JudgedFrom(c, p, es, lo, i, false, last[i]) {
      StartOf(k, lo + i);
      assert es[lo..][i] == es[lo + i];
    }
    JudgedAppend(c, p, es, flags, before, seq(|last|, _ => false), last);
    ClearLast(es, lo, k, flags, |last|);
  }

  lemma ClearLast(es: seq<Entry>, lo: nat, k: nat, flags: seq<bool>, n: nat)
    requires |flags| == lo && lo + n == |es| && (lo == |es| || (lo == MAX_BATCH * k && |es| <= lo + 3))
    ensures AllClear(es, flags + seq(n, _ => false)) <==> AllClear(es, flags)
  {
    var fs := flags + seq(n, _ => false);
    forall i | 0 <= i < |fs| ensures Clear(es, i, fs[i]) <==> (i < lo ==> Clear(es, i, flags[i])) {
      if i >= lo { StartOf(k, i); }
    }
    if AllClear(es, fs) {
      forall i | 0 <= i < |flags| ensures Clear(es, i, flags[i]) {
        assert Clear(es, i, fs[i]);
      }
    }
  }

  /** Signatures made with their keys are all found valid, whatever the weights and whatever the batches give. */
  lemma HonestValid<W(!new), G(!new)>(c: Curve<G>, p: Sha512.Parameters<W>, es: seq<Entry>, sks: seq<seq<Byte>>, rows: seq<seq<Byte>>, odd: seq<NielsPoint>, neutral: seq<bool>, valid: seq<bool>)
    requires Hashing(p) && Setting(c, rows, odd) && AllHonest(c, p, es, sks) && AllSized(es)
    requires |valid| == |es| && AllJudged(c, p, es, neutral, valid)
    ensures false !in valid
  {
    HonestAccepted(c, p, es, sks, rows, odd);
    forall i | 0 <= i < |valid| ensures valid[i] {
      assert Judged(c, p, es, i, neutral[i], valid[i]);
    }
  }

  lemma HonestAccepted<W(!new), G(!new)>(c: Curve<G>, p: Sha512.Parameters<W>, es: seq<Entry>, sks: seq<seq<Byte>>, rows: seq<seq<Byte>>, odd: seq<NielsPoint>)
    requires Hashing(p) && Setting(c, rows, odd) && AllHonest(c, p, es, sks)
    ensures AllSized(es) && forall i | 0 <= i < |es| :: Accepted(c, p, es[i])
  {
    forall i | 0 <= i < |es| ensures Sized(es[i]) && Accepted(c, p, es[i]) {
      HonestEntry(c, p, es[i], sks[i]);
      SignatureAccepted(c, p, rows, odd, es[i].m, sks[i], es[i].pk, es[i].RS);
      AcceptedIs(c, p, es[i]);
    }
  }

  /** Signing a list of messages and opening the signatures together: all of them are found valid. */
  method SignThenOpenBatch<W(0,!new), G(!new)>(p: Sha512.Parameters<W>, rows: seq<seq<Byte>>, odd: seq<NielsPoint>, ms: seq<seq<Byte>>, sks: seq<seq<Byte>>, rs: seq<seq<Byte>>, ghost c: Curve<G>)
    returns (done: bool, ret: nat, valid: seq<bool>, ghost es: seq<Entry>)
    requires Hashing(p) && Setting(c, rows, odd) && StoredBase(c) && |ms| == |sks| == |rs| && forall i | 0 <= i < |rs| :: |rs[i]| == 16
    ensures |es| == |ms| && AllHonest(c, p, es, sks)
    ensures done ==> |valid| == |ms| && false !in valid && ret % 2 == 0
    ensures AllSmooth(c, p, es, sks) ==> done && ret == 0
  {
    var entries := SignAll(p, rows, odd, ms, sks, rs, c);
    es := entries;
    done, ret, valid := OpenHonest(p, odd, entries, c, rows, sks);
  }

  /** Signatures made with their keys, whatever their weights are. */
  method OpenHonest<W(0,!new), G(!new)>(p: Sha512.Parameters<W>, odd: seq<NielsPoint>, es: seq<Entry>, ghost c: Curve<G>, ghost rows: seq<seq<Byte>>, ghost sks: seq<seq<Byte>>)
    returns (done: bool, ret: nat, valid: seq<bool>)
    requires Hashing(p) && Setting(c, rows, odd) && StoredBase(c) && AllHonest(c, p, es, sks)
    ensures done ==> |valid| == |es| && false !in valid && ret % 2 == 0
    ensures AllSmooth(c, p, es, sks) ==> done && ret == 0
  {
    HonestSized(c, p, es, sks);
    ghost var neutral;
    done, ret, valid, neutral := SignOpenBatch(p, odd, es, c, rows, sks);
    if done {
      HonestValid(c, p, es, sks, rows, odd, neutral, valid);
    }
  }

  lemma HonestSized<W(!new), G(!new)>(c: Curve<G>, p: Sha512.Parameters<W>, es: seq<Entry>, sks: seq<seq<Byte>>)
    requires Hashing(p) && AllHonest(c, p, es, sks)
    ensures AllSized(es)
  {
    HonestEntries(c, p, es, sks);
  }

  method SignAll<W(0,!new), G(!new)>(p: Sha512.Parameters<W>, rows: seq<seq<Byte>>, odd: seq<NielsPoint>, ms: seq<seq<Byte>>, sks: seq<seq<Byte>>, rs: seq<seq<Byte>>, ghost c: Curve<G>)
    returns (es: seq<Entry>)
    requires Hashing(p) && Setting(c, rows, odd) && |ms| == |sks| == |rs| && forall i | 0 <= i < |rs| :: |rs[i]| == 16
    ensures |es| == |ms| && AllHonest(c, p, es, sks)
  {
    es := [];
    for i := 0 to |ms|
      invariant AllHonest(c, p, es, sks[..i])
    {
      var e := SignOne(p, rows, odd, ms[i], sks[i], rs[i], c);
      OneMoreHonest(c, p, es, sks, i, e);
      es := es + [e];
    }
    assert sks[..|ms|] == sks;
  }

  lemma OneMoreHonest<W(!new), G(!new)>(c: Curve<G>, p: Sha512.Parameters<W>, es: seq<Entry>, sks: seq<seq<Byte>>, i: nat, e: Entry)
    requires Hashing(p) && i < |sks| && AllHonest(c, p, es, sks[..i]) && Honest(c, p, e, sks[i])
    ensures AllHonest(c, p, es + [e], sks[..i + 1])
  {
  }

  method SignOne<W(0,!new), G(!new)>(p: Sha512.Parameters<W>, rows: seq<seq<Byte>>, odd: seq<NielsPoint>, m: seq<Byte>, sk: seq<Byte>, r: seq<Byte>, ghost c: Curve<G>)
    returns (e: Entry)
    requires Hashing(p) && Setting(c, rows, odd) && |r| == 16
    ensures Honest(c, p, e, sk)
  {
    var pk := PublicKey(p, rows, sk, c, odd);
    var RS := Sign(p, rows, m, sk, pk, c, odd);
    e := Entry(m, pk, RS, r);
  }

  // ---- the order of the base point ----

  ghost predicate Prime(m: nat) {
    m > 1 && forall d: nat | 1 < d < m :: m % d != 0
  }

  /** Below a prime every positive number has an inverse. */
  lemma {:induction false} Inverse(m: nat, j: nat) returns (x: int, y: int)
    requires Prime(m) && 0 < j < m
    ensures x * j == 1 + y * m
    decreases j
  {
    if j == 1 {
      return 1, 0;
    }
    var a, r := m / j, m % j;
    var x', y' := Inverse(m, r);
    x, y := InverseStep(m, j, a, r, x', y');
  }

  lemma InverseStep(m: nat, j: nat, a: nat, r: nat, x': int, y': int) returns (x: int, y: int)
    requires m == a * j + r && x' * r == 1 + y' * m
    ensures x * j == 1 + y * m
  {
    x, y := 0 - x' * a, y' - x';
    assert x' * m == x' * (a * j) + x' * r;
    assert (0 - x' * a) * j == 0 - x' * (a * j);
    assert (y' - x') * m == y' * m - x' * m;
  }

  lemma NaturalInverse(m: nat, j: nat) returns (x: nat, y: nat)
    requires Prime(m) && 0 < j < m
    ensures x * j == 1 + y * m
  {
    var x0, y0 := Inverse(m, j);
    var t: nat := if x0 < 0 then 0 - x0 else 0;
    InverseShifted(m, j, x0, y0, t);
    var x1, y1 := x0 + t * m, y0 + t * j;
    if x0 < 0 { MulBound(t, 1, t, m); }
    if y1 < 0 { NegativeProduct(y1, m, x1, j); }
    x, y := x1, y1;
  }

  lemma InverseShifted(m: nat, j: nat, x: int, y: int, t: nat)
    requires x * j == 1 + y * m
    ensures (x + t * m) * j == 1 + (y + t * j) * m
  {
    assert (x + t * m) * j == x * j + t * m * j;
    assert (y + t * j) * m == y * m + t * j * m;
    assert t * m * j == t * j * m;
  }

  lemma NegativeProduct(y: int, m: nat, x: nat, j: nat)
    requires y < 0 && m > 1
    ensures x * j != 1 + y * m
  {
    assert y * m <= 0 - m;
    assert x * j >= 0;
  }

  /** A multiple of a point of order m has order m. */
  lemma MultipleOrder<G(!new)>(g: Group<G>, b: G, k: int, q: G)
    requires Abelian(g) && OrderM(g, b) && q == Times(g, k, b)
    ensures OrderM(g, q)
  {
    forall l: nat | l == M ensures Times(g, l, q) == g.zero {
      TimesTimes(g, l, k, b);
      MultipleOfM(g, b, k, l * k);
    }
  }

  /** If m is prime, the base point generates a group without small torsion. */
  lemma PrimeOrder<G(!new)>(g: Group<G>, b: G)
    requires Abelian(g) && OrderM(g, b) && Prime(M)
    ensures TorsionFree(g, b)
  {
    forall q: G | IsMultiple(g, b, q) && q != g.zero ensures NoSmallMultiple(g, q, 2 * Modm.TWO224) {
      var k: int :| q == Times(g, k, b);
      MultipleOrder(g, b, k, q);
      forall j: nat | 0 < j < 2 * Modm.TWO224 ensures Times(g, j, q) != g.zero {
        if Times(g, j, q) == g.zero { Vanishes(g, q, j); }
      }
    }
  }

  lemma Vanishes<G(!new)>(g: Group<G>, q: G, j: nat)
    requires Abelian(g) && OrderM(g, q) && Prime(M) && 0 < j < M && Times(g, j, q) == g.zero
    ensures q == g.zero
  {
    var x, y := NaturalInverse(M, j);
    TimesTimes(g, x, j, q);
    TimesZero(g, x);
    TimesPeriodic(g, 1, y, q);
    Law(g, q, q, q);
  }
}
