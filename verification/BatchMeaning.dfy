/** What the sum of a batch says about its signatures, one by one. */
module BatchMeaning {
  import opened Basics
  import opened Words
  import Field
  import opened Group
  import opened Edwards
  import Codec
  import Sha512
  import opened Ed25519
  import opened BosCoster
  import opened BatchSum
  import opened BatchVerify

  // ---- the sum in terms of discrete logarithms ----

  /** How far s is from n + h a. */
  function Defect(s: int, h: int, a: int, n: int): int {
    s - n - h * a
  }

  /** `d` are the defects of the entries; shown only where `Unfold(true)` is asserted. */
  ghost predicate AreDefects(s: seq<nat>, h: seq<nat>, a: seq<nat>, n: seq<nat>, d: seq<int>) {
    (&& |s| == |h| == |a| == |n| == |d|
     && forall u {:trigger Unfold(u)} :: Unfold(u) ==> forall i | 0 <= i < |d| :: d[i] == Defect(s[i], h[i], a[i], n[i])) == true
  }

  lemma DefectsOf(s: seq<nat>, h: seq<nat>, a: seq<nat>, n: seq<nat>) returns (d: seq<int>)
    requires |s| == |h| == |a| == |n|
    ensures AreDefects(s, h, a, n, d)
  {
    d := seq(|s|, i requires 0 <= i < |s| => Defect(s[i], h[i], a[i], n[i]));
  }

  lemma DefectAt(s: seq<nat>, h: seq<nat>, a: seq<nat>, n: seq<nat>, d: seq<int>, i: nat)
    requires AreDefects(s, h, a, n, d) && i < |d|
    ensures d[i] == Defect(s[i], h[i], a[i], n[i])
  {
    assert Unfold(true);
  }

  /** `hw` are the products h w less `t` times m. */
  ghost predicate Lessened(h: seq<nat>, w: seq<nat>, hw: seq<nat>, t: seq<nat>, m: nat) {
    (&& |h| == |w| == |hw| == |t|
     && forall u {:trigger Unfold(u)} :: Unfold(u) ==> forall i | 0 <= i < |h| :: hw[i] == h[i] * w[i] - t[i] * m) == true
  }

  lemma ProductsLessened(h: seq<nat>, w: seq<nat>) returns (t: seq<nat>)
    requires |h| == |w|
    ensures Lessened(h, w, Products(h, w), t, M)
  {
    t := seq(|h|, i requires 0 <= i < |h| => Product(h[i], w[i]) / M);
  }

  lemma DefectAlgebra(s: nat, h: nat, w: nat, a: nat, n: nat, t: nat, hw: nat, m: nat)
    requires hw == h * w - t * m
    ensures s * w + hw * (0 - a) + w * (0 - n) == w * (s - n - h * a) + t * a * m
  {
    assert hw * (0 - a) == 0 - h * w * a + t * m * a;
    assert w * (s - n - h * a) == w * s - w * n - w * (h * a);
    assert h * w * a == w * (h * a) && t * m * a == t * a * m && w * (0 - n) == 0 - w * n;
  }

  lemma {:induction false} DefectSums(s: seq<nat>, h: seq<nat>, w: seq<nat>, a: seq<nat>, n: seq<nat>, d: seq<int>, hw: seq<nat>, t: seq<nat>, m: nat, k: nat)
    requires AreDefects(s, h, a, n, d) && Lessened(h, w, hw, t, m) && k <= |s|
    ensures PartSum(s, w, k) + Dot(hw, Negated(a), k) + Dot(w, Negated(n), k) == Dot(w, d, k) + Dot(t, a, k) * m
  {
    if k > 0 {
      var j := k - 1;
      DefectSums(s, h, w, a, n, d, hw, t, m, j);
      DefectTerm(s, h, w, a, n, d, hw, t, m, j);
      assert (Dot(t, a, j) + t[j] * a[j]) * m == Dot(t, a, j) * m + t[j] * a[j] * m;
    }
  }

  lemma DefectTerm(s: seq<nat>, h: seq<nat>, w: seq<nat>, a: seq<nat>, n: seq<nat>, d: seq<int>, hw: seq<nat>, t: seq<nat>, m: nat, j: nat)
    requires AreDefects(s, h, a, n, d) && Lessened(h, w, hw, t, m) && j < |s|
    ensures s[j] * w[j] + hw[j] * Minus(a[j]) + w[j] * Minus(n[j]) == w[j] * d[j] + t[j] * a[j] * m
  {
    assert Unfold(true);
    DefectAlgebra(s[j], h[j], w[j], a[j], n[j], t[j], hw[j], m);
  }

  /** The first `n` products add up to `d` and `q` times m. */
  ghost predicate AddsUp(s: seq<nat>, k: seq<int>, n: nat, d: int, q: int) {
    (n <= |s| && n <= |k| && Dot(s, k, n) == d + q * M) == true
  }

  /** `total` is the weighted sum of `d`; shown only where `Unfold(true)` is asserted. */
  ghost predicate TotalsTo(w: seq<nat>, d: seq<int>, total: int) {
    (|w| == |d| && forall u {:trigger Unfold(u)} :: Unfold(u) ==> total == Dot(w, d, |d|)) == true
  }

  lemma TotalOf(w: seq<nat>, d: seq<int>) returns (total: int)
    requires |w| == |d|
    ensures TotalsTo(w, d, total) && total == Dot(w, d, |d|)
  {
    total := Dot(w, d, |d|);
  }

  /** The coefficients add up to the weighted defects, modulo m. */
  lemma CoefficientDot(s: seq<nat>, h: seq<nat>, w: seq<nat>, a: seq<nat>, n: seq<nat>, d: seq<int>, total: int) returns (q: int)
    requires AreDefects(s, h, a, n, d) && TotalsTo(w, d, total)
    ensures AddsUp(Coefficients(s, h, w), [1] + Negated(a) + Negated(n), 2 * |s| + 1, total, q)
  {
    assert total == Dot(w, d, |d|) by { assert Unfold(true); }
    var sum, hw, ka, kn := PartSum(s, w, |s|), Products(h, w), Negated(a), Negated(n);
    var t := ProductsLessened(h, w);
    DotInParts(sum % M, hw, w, ka, kn);
    DefectSums(s, h, w, a, n, d, hw, t, M, |s|);
    q := Dot(t, a, |s|) - sum / M;
    assert q * M == Dot(t, a, |s|) * M - sum / M * M;
  }

  /** The element is not zero, and its order is m, a prime. */
  ghost predicate OfPrimeOrder<G(!new)>(g: Group<G>, b: G) {
    (Abelian(g) && OrderM(g, b) && Prime(M) && b != g.zero) == true
  }

  /** A multiple of the base point is zero exactly if m divides the factor. */
  lemma ZeroMultiple<G(!new)>(g: Group<G>, b: G, d: int, q: int)
    requires OfPrimeOrder(g, b)
    ensures Times(g, d + q * M, b) == g.zero <==> d % M == 0
  {
    var r, k := d % M, d / M + q;
    assert d + q * M == r + k * M;
    ShiftByM(g, b, r, k);
    if r != 0 && Times(g, r, b) == g.zero { Vanishes(g, b, r); }
  }

  lemma ShiftByM<G(!new)>(g: Group<G>, b: G, r: int, k: int)
    requires Abelian(g) && OrderM(g, b)
    ensures Times(g, r + k * M, b) == Times(g, r, b)
  {
    if k >= 0 {
      TimesPeriodic(g, r, k, b);
    } else {
      TimesPeriodic(g, r + k * M, 0 - k, b);
      assert r + k * M + (0 - k) * M == r;
    }
  }

  lemma AllMultiples<G(!new)>(c: Curve<G>, a: seq<nat>, n: seq<nat>, keys: seq<G>, halves: seq<G>)
    requires Abelian(c.group) && Multiples(c.group, c.base, Negated(a), keys) && Multiples(c.group, c.base, Negated(n), halves)
    ensures Multiples(c.group, c.base, [1] + Negated(a) + Negated(n), AllPoints(c, keys, halves))
  {
    BaseItself(c);
    MultiplesAppend(c.group, c.base, [1], [c.base], Negated(a), keys);
    MultiplesAppend(c.group, c.base, [1] + Negated(a), [c.base] + keys, Negated(n), halves);
  }

  lemma DotDecides<G(!new)>(g: Group<G>, b: G, s: seq<nat>, k: seq<int>, ps: seq<G>, n: nat, d: int, q: int)
    requires OfPrimeOrder(g, b) && Multiples(g, b, k, ps) && AddsUp(s, k, n, d, q)
    ensures n <= |s| && n <= |ps| && (LinComb(g, s, ps, n) == g.zero <==> d % M == 0)
  {
    SumOfMultiples(g, b, s, k, ps, n);
    ZeroMultiple(g, b, d, q);
  }

  /** The sum that is behind a batch. */
  ghost function CoefficientSum<G>(c: Curve<G>, s: seq<nat>, h: seq<nat>, w: seq<nat>, keys: seq<G>, halves: seq<G>): G
    requires |s| == |h| == |w| == |keys| == |halves|
  {
    LinComb(c.group, Coefficients(s, h, w), AllPoints(c, keys, halves), 2 * |s| + 1)
  }

  /** Keys a_i B and R halves n_i B, both negated: the sum is zero exactly if m divides the weighted sum of the defects. */
  lemma ZeroSumExactly<G(!new)>(c: Curve<G>, s: seq<nat>, h: seq<nat>, w: seq<nat>, a: seq<nat>, n: seq<nat>, d: seq<int>, total: int, keys: seq<G>, halves: seq<G>)
    requires OfPrimeOrder(c.group, c.base) && AreDefects(s, h, a, n, d) && TotalsTo(w, d, total)
    requires Multiples(c.group, c.base, Negated(a), keys) && Multiples(c.group, c.base, Negated(n), halves)
    ensures |keys| == |halves| == |s| && (CoefficientSum(c, s, h, w, keys, halves) == c.group.zero <==> total % M == 0)
  {
    AllMultiples(c, a, n, keys, halves);
    var q := CoefficientDot(s, h, w, a, n, d, total);
    DotDecides(c.group, c.base, Coefficients(s, h, w), [1] + Negated(a) + Negated(n), AllPoints(c, keys, halves), 2 * |s| + 1, total, q);
  }

  // ---- one entry ----

  /** S B + h A' + R' is zero, where A' and R' are the negatives of the key and of the R half. */
  ghost predicate Balances<W(!new), G>(c: Curve<G>, p: Sha512.Parameters<W>, e: Entry, key: G, half: G)
    requires Hashing(p) && Sized(e)
  {
    c.group.add(c.group.add(Times(c.group, Hram(p, e.RS[..32], e.pk, e.m) % M, key), Times(c.group, LE(e.RS[32..]) % M, c.base)), half) == c.group.zero
  }

  lemma BalanceExactly<G(!new)>(g: Group<G>, b: G, s: nat, h: nat, a: nat, n: nat, key: G, half: G)
    requires OfPrimeOrder(g, b) && key == Times(g, Minus(a), b) && half == Times(g, Minus(n), b)
    ensures g.add(g.add(Times(g, h % M, key), Times(g, s % M, b)), half) == g.zero <==> Defect(s, h, a, n) % M == 0
  {
    var e := h % M * Minus(a);
    TimesTimes(g, h % M, Minus(a), b);
    TimesAdd(g, e, s % M, b);
    TimesAdd(g, e + s % M, Minus(n), b);
    var q := h / M * a - s / M;
    ReducedDefect(s, h, a, n, h / M, h % M);
    ZeroMultiple(g, b, Defect(s, h, a, n), q);
  }

  lemma ReducedDefect(s: nat, h: nat, a: nat, n: nat, t: nat, u: nat)
    requires h == t * M + u
    ensures u * Minus(a) + s % M + Minus(n) == Defect(s, h, a, n) + (t * a - s / M) * M
  {
    assert h * a == t * M * a + u * a;
    assert t * M * a == t * a * M && u * Minus(a) == 0 - u * a;
    assert (t * a - s / M) * M == t * a * M - s / M * M;
  }

  // ---- single verification and the sum ----

  /** y is reduced, and the sign of x = 0 is not set: the one encoding of a point that packing gives. */
  ghost predicate Canonical(s: seq<Byte>) {
    LE(s) % TWO255 < Field.P && !(NegatedX(s, 0) && LE(s) / TWO255 == 1)
  }

  lemma CanonicalExactly<G(!new)>(c: Curve<G>, s: seq<Byte>, g: G)
    requires EdwardsCurve(c) && |s| == 32 && Negative(c, s, g)
    ensures Canonical(s) <==> LE(s) == Codec.Encoding(c, c.group.neg(g))
  {
    var x: nat :| NegatedX(s, x) && g == c.at(x, PointY(s));
    PointLaw(c, g);
    if NegatedX(s, 0) { NegatedUnique(s, x, 0); }
    Codec.ParityBit(s);
    Field.ResidueIs(LE(s) % TWO255);
    CanonicalParts(LE(s) % TWO255, LE(s) / TWO255, PointY(s), x, c.x(c.group.neg(g)));
  }

  lemma CanonicalParts(y: nat, bit: nat, r: nat, x: nat, x': nat)
    requires y < TWO255 && bit < 2 && r == y % Field.P && x < Field.P && x' == Field.FSub(0, x) && (x == 0 || x % 2 != bit)
    ensures y < Field.P && !(x == 0 && bit == 1) <==> y + TWO255 * bit == r + TWO255 * (x' % 2)
  {
    Codec.NegParity(x);
  }

  /** Single verification accepts exactly the entries that balance, whose R half is encoded canonically and the top three bits of whose second half are clear. */
  lemma AcceptedExactly<W(!new), G(!new)>(c: Curve<G>, p: Sha512.Parameters<W>, e: Entry, key: G, half: G)
    requires Hashing(p) && EdwardsCurve(c) && Sized(e) && Negative(c, e.pk, key) && Negative(c, e.RS[..32], half)
    ensures Accepted(c, p, e) <==> e.RS[63] < 32 && Canonical(e.RS[..32]) && Balances(c, p, e, key, half)
    ensures Balances(c, p, e, key, half) <==>
            var h, S := LE(Sha512.Hash(p, e.RS[..32] + e.pk + e.m)), LE(e.RS[32..]);
            c.group.add(c.group.add(Times(c.group, h % M, key), Times(c.group, S % M, c.base)), half) == c.group.zero
  {
    AcceptedIs(c, p, e);
    CanonicalExactly(c, e.RS[..32], half);
    if e.RS[63] < 32 {
      var x: nat :| NegatedX(e.pk, x) && key == c.at(x, PointY(e.pk));
      DecodedAccepts(c, p, e.m, e.pk, e.RS, x);
      EncodesNegative(c, e.RS[..32], half, c.group.add(Times(c.group, Hram(p, e.RS[..32], e.pk, e.m) % M, key), Times(c.group, LE(e.RS[32..]) % M, c.base)));
    }
  }

  /** A canonical encoding of the negative of `half` encodes `sum` exactly if the two cancel. */
  lemma EncodesNegative<G(!new)>(c: Curve<G>, s: seq<Byte>, half: G, sum: G)
    requires EdwardsCurve(c) && |s| == 32 && Negative(c, s, half)
    ensures LE(s) == Codec.Encoding(c, sum) <==> Canonical(s) && c.group.add(sum, half) == c.group.zero
  {
    CanonicalExactly(c, s, half);
    Law(c.group, half, sum, sum);
    if LE(s) == Codec.Encoding(c, sum) {
      NegativeIs(c, s, half, sum);
      Law(c.group, sum, sum, sum);
    }
    if c.group.add(sum, half) == c.group.zero { NegUnique(c.group, half, sum); }
  }

  lemma NegativeIs<G(!new)>(c: Curve<G>, s: seq<Byte>, g: G, A: G)
    requires EdwardsCurve(c) && |s| == 32 && Negative(c, s, g) && LE(s) == Codec.Encoding(c, A)
    ensures g == c.group.neg(A) && c.group.neg(g) == A
  {
    KeyDecodes(c, A, s);
    var x: nat :| NegatedX(s, x) && g == c.at(x, PointY(s));
    NegatedUnique(s, x, c.x(c.group.neg(A)));
    Law(c.group, A, A, A);
    NegUnique(c.group, g, A);
  }

  // ---- batches of points in the subgroup of the base point ----

  /** The order m of the base point is prime. */
  ghost predicate PrimeBase<G(!new)>(c: Curve<G>) {
    (EdwardsCurve(c) && OfPrimeOrder(c.group, c.base)) == true
  }

  lemma Logarithm<G(!new)>(c: Curve<G>, q: G) returns (a: nat)
    requires PrimeBase(c) && IsMultiple(c.group, c.base, q)
    ensures q == Times(c.group, Minus(a), c.base)
  {
    var k: int :| q == Times(c.group, k, c.base);
    a := (0 - k) % M;
    ShiftByM(c.group, c.base, k, (0 - k) / M);
    assert Minus(a) == k + (0 - k) / M * M;
  }

  lemma Logarithms<G(!new)>(c: Curve<G>, gs: seq<G>) returns (a: seq<nat>)
    requires PrimeBase(c) && Spanned(c.group, c.base, gs)
    ensures Multiples(c.group, c.base, Negated(a), gs)
  {
    a := [];
    for i := 0 to |gs|
      invariant |a| == i && forall k | 0 <= k < i :: gs[k] == Times(c.group, Minus(a[k]), c.base)
    {
      assert IsMultiple(c.group, c.base, gs[i]);
      var x := Logarithm(c, gs[i]);
      a := a + [x];
    }
  }

  lemma TotalIs<W(!new), G(!new)>(c: Curve<G>, p: Sha512.Parameters<W>, es: seq<Entry>, keys: seq<G>, halves: seq<G>, s: seq<nat>, h: seq<nat>, w: seq<nat>)
    requires Hashing(p) && AllSized(es) && |keys| == |halves| == |es| && s == Parts(es) && h == Hashes(p, es) && w == Weights(es)
    ensures BatchTotal(c, p, es, keys, halves) == CoefficientSum(c, s, h, w, keys, halves)
  {
    ScalarsAre(p, es);
  }

  lemma TotalExactly<W(!new), G(!new)>(c: Curve<G>, p: Sha512.Parameters<W>, es: seq<Entry>, a: seq<nat>, n: seq<nat>, keys: seq<G>, halves: seq<G>,
                                       s: seq<nat>, h: seq<nat>, w: seq<nat>, d: seq<int>, total: int)
    requires Hashing(p) && PrimeBase(c) && AllSized(es) && s == Parts(es) && h == Hashes(p, es) && w == Weights(es) && AreDefects(s, h, a, n, d) && TotalsTo(w, d, total)
    requires Multiples(c.group, c.base, Negated(a), keys) && Multiples(c.group, c.base, Negated(n), halves)
    ensures BatchTotal(c, p, es, keys, halves) == c.group.zero <==> total % M == 0
  {
    TotalIs(c, p, es, keys, halves, s, h, w);
    ZeroSumExactly(c, s, h, w, a, n, d, total, keys, halves);
  }

  /** m divides each of the numbers except possibly number `i`. */
  predicate OthersVanish(d: seq<int>, i: nat) {
    forall j | 0 <= j < |d| && j != i :: d[j] % M == 0
  }

  lemma {:induction false} OnlyWeighted(w: seq<nat>, d: seq<int>, i: nat, k: nat) returns (q: int)
    requires |w| == |d| && OthersVanish(d, i) && k <= |d|
    ensures Dot(w, d, k) == (if i < k then w[i] * d[i] else 0) + q * M
  {
    q := 0;
    if k > 0 {
      var j := k - 1;
      q := OnlyWeighted(w, d, i, j);
      if j != i {
        MultipleTimes(w[j], d[j]);
        q := q + w[j] * (d[j] / M);
      }
    }
  }

  lemma MultipleTimes(w: nat, d: int)
    requires d % M == 0
    ensures w * d == w * (d / M) * M
  {
    assert d == d / M * M;
    MulAssociative(w, d / M, M);
  }

  /** A prime divides a product only if it divides a factor. */
  lemma PrimeProduct(w: nat, d: int)
    requires Prime(M) && 0 < w < M && w * d % M == 0
    ensures d % M == 0
  {
    var x, y := NaturalInverse(M, w);
    var k := w * d / M;
    assert w * d == k * M;
    assert d == (x * k - y * d) * M by {
      assert x * w * d == (1 + y * M) * d;
      assert x * w * d == x * (w * d) && x * (k * M) == x * k * M;
      assert (1 + y * M) * d == d + y * d * M;
      assert (x * k - y * d) * M == x * k * M - y * d * M;
    }
    DivModUnique(d, M, x * k - y * d, 0);
  }

  lemma ProductDecides(total: int, w: nat, d: int, q: int)
    requires Prime(M) && 0 < w < M && total == w * d + q * M
    ensures total % M == 0 <==> d % M == 0
  {
    DivModUnique(total, M, w * d / M + q, w * d % M);
    if w * d % M == 0 { PrimeProduct(w, d); }
    if d % M == 0 {
      MultipleTimes(w, d);
      DivModUnique(w * d, M, w * (d / M), 0);
    }
  }

  /** If m divides all the numbers but one, it divides the weighted sum exactly if it divides that one. */
  lemma TermDecides(w: seq<nat>, d: seq<int>, i: nat)
    requires |w| == |d| && OthersVanish(d, i) && i < |d| && 0 < w[i] < M && Prime(M)
    ensures Dot(w, d, |d|) % M == 0 <==> d[i] % M == 0
  {
    var q := OnlyWeighted(w, d, i, |d|);
    ProductDecides(Dot(w, d, |d|), w[i], d[i], q);
  }

  lemma EntryDefect<W(!new), G(!new)>(c: Curve<G>, p: Sha512.Parameters<W>, es: seq<Entry>, a: seq<nat>, n: seq<nat>, d: seq<int>, keys: seq<G>, halves: seq<G>, i: nat)
    requires Hashing(p) && PrimeBase(c) && AllSized(es) && AreDefects(Parts(es), Hashes(p, es), a, n, d) && i < |es|
    requires Multiples(c.group, c.base, Negated(a), keys) && Multiples(c.group, c.base, Negated(n), halves)
    ensures Balances(c, p, es[i], keys[i], halves[i]) <==> d[i] % M == 0
  {
    DefectAt(Parts(es), Hashes(p, es), a, n, d, i);
    BalanceExactly(c.group, c.base, Parts(es)[i], Hashes(p, es)[i], a[i], n[i], keys[i], halves[i]);
  }

  /** The points of the batch, in the subgroup of the base point. */
  ghost predicate Inside<G(!new)>(c: Curve<G>, es: seq<Entry>, keys: seq<G>, halves: seq<G>) {
    (AllSized(es) && Negatives(c, Keys(es), keys) && Negatives(c, Halves(es), halves) && InSubgroup(c, keys, halves)) == true
  }

  /** If all entries but entry `i` balance, and its weight is not zero, the sum is zero exactly if entry `i` balances too. */
  lemma OneDecides<W(!new), G(!new)>(c: Curve<G>, p: Sha512.Parameters<W>, es: seq<Entry>, keys: seq<G>, halves: seq<G>, i: nat)
    requires Hashing(p) && PrimeBase(c) && Inside(c, es, keys, halves) && i < |es| && LE(es[i].r) != 0
    requires forall j | 0 <= j < |es| && j != i :: Balances(c, p, es[j], keys[j], halves[j])
    ensures BatchTotal(c, p, es, keys, halves) == c.group.zero <==> Balances(c, p, es[i], keys[i], halves[i])
  {
    var a := Logarithms(c, keys);
    var n := Logarithms(c, halves);
    var d := DefectsOf(Parts(es), Hashes(p, es), a, n);
    var total := TotalOf(Weights(es), d);
    TotalExactly(c, p, es, a, n, keys, halves, Parts(es), Hashes(p, es), Weights(es), d, total);
    forall j | 0 <= j < |es| ensures Balances(c, p, es[j], keys[j], halves[j]) <==> d[j] % M == 0 {
      EntryDefect(c, p, es, a, n, d, keys, halves, j);
    }
    WeightBelow(es[i].r);
    TermDecides(Weights(es), d, i);
  }

  /** If single verification accepts all signatures but one, and rejects that one although it is well formed and its weight
      is not zero, the sum is not zero. */
  lemma OneRejected<W(!new), G(!new)>(c: Curve<G>, p: Sha512.Parameters<W>, es: seq<Entry>, keys: seq<G>, halves: seq<G>, i: nat)
    requires Hashing(p) && PrimeBase(c) && Inside(c, es, keys, halves) && i < |es| && LE(es[i].r) != 0
    requires !Accepted(c, p, es[i]) && es[i].RS[63] < 32 && Canonical(es[i].RS[..32])
    requires forall j | 0 <= j < |es| && j != i :: Accepted(c, p, es[j])
    ensures !SumsToZero(c, p, es)
  {
    forall j | 0 <= j < |es| ensures Balances(c, p, es[j], keys[j], halves[j]) <==> j != i {
      AcceptedExactly(c, p, es[j], keys[j], halves[j]);
    }
    OneDecides(c, p, es, keys, halves, i);
    SumUnique(c, p, es, keys, halves);
  }

  /** If single verification accepts all signatures, the sum is zero, whatever the weights are. */
  lemma AllAccepted<W(!new), G(!new)>(c: Curve<G>, p: Sha512.Parameters<W>, es: seq<Entry>, keys: seq<G>, halves: seq<G>)
    requires Hashing(p) && PrimeBase(c) && Inside(c, es, keys, halves) && forall j | 0 <= j < |es| :: Accepted(c, p, es[j])
    ensures SumsToZero(c, p, es)
  {
    var a := Logarithms(c, keys);
    var n := Logarithms(c, halves);
    var d := DefectsOf(Parts(es), Hashes(p, es), a, n);
    forall j | 0 <= j < |es| ensures d[j] % M == 0 {
      AcceptedExactly(c, p, es[j], keys[j], halves[j]);
      EntryDefect(c, p, es, a, n, d, keys, halves, j);
    }
    var q := OnlyWeighted(Weights(es), d, |es|, |es|);
    DivModUnique(q * M, M, q, 0);
    var total := TotalOf(Weights(es), d);
    TotalExactly(c, p, es, a, n, keys, halves, Parts(es), Hashes(p, es), Weights(es), d, total);
    SumUnique(c, p, es, keys, halves);
  }

  /** A batch whose sum decides: such a signature is not found valid. */
  lemma RejectedInBatch<W(!new), G(!new)>(c: Curve<G>, p: Sha512.Parameters<W>, es: seq<Entry>, keys: seq<G>, halves: seq<G>, i: nat, neutral: bool)
    requires Hashing(p) && PrimeBase(c) && Inside(c, es, keys, halves) && |es| >= 2 && i < |es| && LE(es[i].r) != 0
    requires !Accepted(c, p, es[i]) && es[i].RS[63] < 32 && Canonical(es[i].RS[..32])
    requires forall j | 0 <= j < |es| && j != i :: Accepted(c, p, es[j])
    requires Decisive(c, p, es) && Outcome(c, p, es, neutral)
    ensures !neutral
  {
    OneRejected(c, p, es, keys, halves, i);
  }

  // ---- the second halves count modulo m ----

  /** The same entries, up to multiples of m in the second halves of the signatures. */
  ghost predicate SameResidues(es: seq<Entry>, fs: seq<Entry>) {
    && AllSized(es) && AllSized(fs) && |es| == |fs|
    && forall i | 0 <= i < |es| ::
        && es[i].m == fs[i].m && es[i].pk == fs[i].pk && es[i].r == fs[i].r && es[i].RS[..32] == fs[i].RS[..32]
        && LE(es[i].RS[32..]) % M == LE(fs[i].RS[32..]) % M
  }

  lemma {:induction false} PartSumResidue(s: seq<nat>, t: seq<nat>, w: seq<nat>, k: nat)
    requires |s| == |t| == |w| && k <= |s| && forall i | 0 <= i < |s| :: s[i] % M == t[i] % M
    ensures PartSum(s, w, k) % M == PartSum(t, w, k) % M
  {
    if k > 0 {
      PartSumResidue(s, t, w, k - 1);
      ProductMod(s[k - 1], w[k - 1]);
      ProductMod(t[k - 1], w[k - 1]);
      SumMod(PartSum(s, w, k - 1), Product(s[k - 1], w[k - 1]));
      SumMod(PartSum(t, w, k - 1), Product(t[k - 1], w[k - 1]));
    }
  }

  lemma SameScalars<W(!new)>(p: Sha512.Parameters<W>, es: seq<Entry>, fs: seq<Entry>)
    requires Hashing(p) && SameResidues(es, fs)
    ensures Scalars(p, es) == Scalars(p, fs)
  {
    ScalarsAre(p, es);
    ScalarsAre(p, fs);
    PartSumResidue(Parts(es), Parts(fs), Weights(es), |es|);
    assert Hashes(p, es) == Hashes(p, fs) && Weights(es) == Weights(fs);
  }

  /** Batch verification treats entries alike whose second halves agree modulo m; single verification also wants the top three
      bits to be clear. */
  lemma ResiduesDecide<W(!new), G(!new)>(c: Curve<G>, p: Sha512.Parameters<W>, es: seq<Entry>, fs: seq<Entry>)
    requires Hashing(p) && SameResidues(es, fs)
    ensures Scalars(p, es) == Scalars(p, fs) && Keys(es) == Keys(fs) && Halves(es) == Halves(fs)
    ensures SumsToZero(c, p, es) <==> SumsToZero(c, p, fs)
    ensures |es| >= 2 ==> (Passes(c, p, es) <==> Passes(c, p, fs))
  {
    SameScalars(p, es, fs);
    SamePoints(es, fs);
    SameSums(c, p, es, fs);
    SameSums(c, p, fs, es);
  }

  lemma SamePoints(es: seq<Entry>, fs: seq<Entry>)
    requires SameResidues(es, fs)
    ensures Keys(es) == Keys(fs) && Halves(es) == Halves(fs)
  {
  }

  lemma SameSums<W(!new), G(!new)>(c: Curve<G>, p: Sha512.Parameters<W>, es: seq<Entry>, fs: seq<Entry>)
    requires Hashing(p) && AllSized(es) && AllSized(fs) && |es| == |fs|
    requires Scalars(p, es) == Scalars(p, fs) && Keys(es) == Keys(fs) && Halves(es) == Halves(fs)
    ensures SumsToZero(c, p, es) ==> SumsToZero(c, p, fs)
    ensures |es| >= 2 && Passes(c, p, es) ==> Passes(c, p, fs)
  {
    if SumsToZero(c, p, es) { SameSum(c, p, es, fs); }
    if |es| >= 2 && Passes(c, p, es) { SamePass(c, p, es, fs); }
  }

  lemma SameSum<W(!new), G(!new)>(c: Curve<G>, p: Sha512.Parameters<W>, es: seq<Entry>, fs: seq<Entry>)
    requires Hashing(p) && AllSized(es) && AllSized(fs) && |es| == |fs| && SumsToZero(c, p, es)
    requires Scalars(p, es) == Scalars(p, fs) && Keys(es) == Keys(fs) && Halves(es) == Halves(fs)
    ensures SumsToZero(c, p, fs)
  {
    var keys: seq<G>, halves: seq<G> :| SumIsZero(c, p, es, keys, halves);
    assert SumIsZero(c, p, fs, keys, halves);
  }

  lemma SamePass<W(!new), G(!new)>(c: Curve<G>, p: Sha512.Parameters<W>, es: seq<Entry>, fs: seq<Entry>)
    requires Hashing(p) && AllSized(es) && AllSized(fs) && |es| == |fs| >= 2 && Passes(c, p, es)
    requires Scalars(p, es) == Scalars(p, fs) && Keys(es) == Keys(fs) && Halves(es) == Halves(fs)
    ensures Passes(c, p, fs)
  {
    var keys: seq<G>, halves: seq<G>, s: nat, q: G :| Multiplied(c, p, es, keys, halves, s, q, Some(c.group.zero));
    assert Multiplied(c, p, fs, keys, halves, s, q, Some(c.group.zero));
  }

  /** Where the two differ: with accepted signatures, adding a multiple of m to a second half keeps the sum zero, but single
      verification rejects the entry if that sets one of the top three bits. */
  lemma UnreducedPart<W(!new), G(!new)>(c: Curve<G>, p: Sha512.Parameters<W>, es: seq<Entry>, fs: seq<Entry>, keys: seq<G>, halves: seq<G>, i: nat)
    requires Hashing(p) && PrimeBase(c) && Inside(c, es, keys, halves) && forall j | 0 <= j < |es| :: Accepted(c, p, es[j])
    requires SameResidues(es, fs) && i < |fs| && fs[i].RS[63] >= 32
    ensures SumsToZero(c, p, fs) && !Accepted(c, p, fs[i])
  {
    AllAccepted(c, p, es, keys, halves);
    ResiduesDecide(c, p, es, fs);
    AcceptedIs(c, p, fs[i]);
  }
}
