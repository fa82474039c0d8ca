/** The sum that batch verification looks at, and its value for signatures that were made with their keys. */
module BatchSum {
  import opened Basics
  import opened Words
  import opened Group
  import opened Edwards
  import opened Ed25519
  import Sha512

  // ---- the scalars ----

  function Product(x: nat, y: nat): nat {
    x * y
  }

  /** s_1 w_1 + s_2 w_2 + ... */
  ghost function PartSum(s: seq<nat>, w: seq<nat>, n: nat): nat
    requires n <= |s| && n <= |w|
  {
    if n == 0 then 0 else PartSum(s, w, n - 1) + Product(s[n - 1], w[n - 1])
  }

  lemma PartSumNext(s: seq<nat>, w: seq<nat>, n: nat)
    requires n < |s| && n < |w|
    ensures PartSum(s, w, n + 1) == PartSum(s, w, n) + Product(s[n], w[n]) && (n == 0 ==> PartSum(s, w, n + 1) == Product(s[n], w[n]))
  {
  }

  ghost function Products(h: seq<nat>, w: seq<nat>): (r: seq<nat>)
    requires |h| == |w|
    ensures |r| == |h| && forall i | 0 <= i < |h| :: r[i] == Product(h[i], w[i]) % M
  {
    seq(|h|, i requires 0 <= i < |h| => Product(h[i], w[i]) % M)
  }

  /** The scalars of the base point, of the keys and of the R halves. */
  ghost function Coefficients(s: seq<nat>, h: seq<nat>, w: seq<nat>): (r: seq<nat>)
    requires |s| == |h| == |w|
    ensures |r| == 2 * |s| + 1
  {
    [PartSum(s, w, |s|) % M] + Products(h, w) + w
  }

  // ---- sums of multiples of the base point ----

  function Dot(s: seq<nat>, k: seq<int>, n: nat): int
    requires n <= |s| && n <= |k|
  {
    if n == 0 then 0 else Dot(s, k, n - 1) + s[n - 1] * k[n - 1]
  }

  ghost predicate Multiples<G>(g: Group<G>, b: G, k: seq<int>, p: seq<G>) {
    (|p| == |k| && forall i | 0 <= i < |k| :: p[i] == Times(g, k[i], b)) == true
  }

  lemma {:induction false} SumOfMultiples<G(!new)>(g: Group<G>, b: G, s: seq<nat>, k: seq<int>, p: seq<G>, n: nat)
    requires Abelian(g) && Multiples(g, b, k, p) && n <= |s| && n <= |k|
    ensures LinComb(g, s, p, n) == Times(g, Dot(s, k, n), b)
  {
    if n > 0 {
      SumOfMultiples(g, b, s, k, p, n - 1);
      TimesTimes(g, s[n - 1], k[n - 1], b);
      TimesAdd(g, Dot(s, k, n - 1), s[n - 1] * k[n - 1], b);
    }
  }

  lemma MultiplesAppend<G>(g: Group<G>, b: G, k: seq<int>, p: seq<G>, k': seq<int>, p': seq<G>)
    requires Multiples(g, b, k, p) && Multiples(g, b, k', p')
    ensures Multiples(g, b, k + k', p + p')
  {
  }

  lemma {:induction false} DotPrefix(s: seq<nat>, k: seq<int>, s': seq<nat>, k': seq<int>, n: nat)
    requires |s| == |k| && n <= |s|
    ensures Dot(s + s', k + k', n) == Dot(s, k, n)
  {
    if n > 0 {
      DotPrefix(s, k, s', k', n - 1);
    }
  }

  lemma {:induction false} DotAppend(s: seq<nat>, k: seq<int>, s': seq<nat>, k': seq<int>, n: nat)
    requires |s| == |k| && n <= |s'| && n <= |k'|
    ensures Dot(s + s', k + k', |s| + n) == Dot(s, k, |s|) + Dot(s', k', n)
  {
    if n == 0 {
      DotPrefix(s, k, s', k', |s|);
    } else {
      DotAppend(s, k, s', k', n - 1);
    }
  }

  function Minus(x: int): int {
    0 - x
  }

  function Negated(a: seq<nat>): (k: seq<int>)
    ensures |k| == |a| && forall i | 0 <= i < |a| :: k[i] == Minus(a[i])
  {
    seq(|a|, i requires 0 <= i < |a| => Minus(a[i]))
  }

  /** s = n + h a mod m, entry by entry. */
  ghost predicate Balanced(s: seq<nat>, h: seq<nat>, a: seq<nat>, n: seq<nat>) {
    |s| == |h| == |a| == |n| && forall i | 0 <= i < |s| :: Responds(s[i], n[i], h[i], a[i])
  }

  /** One signature contributes a multiple of m. */
  lemma Residual(s: nat, h: nat, w: nat, a: nat, n: nat) returns (q: int)
    requires Responds(s, n, h, a)
    ensures s * w + h * w % M * (0 - a) + w * (0 - n) == q * M
  {
    assert Unfold(true);
    q := ResidualOf(s, h, w, a, n, h * w / M, (n + h * a) / M, h * w % M);
  }

  lemma ResidualOf(s: nat, h: nat, w: nat, a: nat, n: nat, t: nat, u: nat, hw: nat) returns (q: int)
    requires hw == h * w - t * M && s == n + h * a - u * M
    ensures s * w + hw * (0 - a) + w * (0 - n) == q * M
  {
    q := t * a - w * u;
    assert hw * (0 - a) == 0 - h * w * a + t * M * a;
    assert s * w == n * w + h * a * w - u * M * w;
    assert h * a * w == h * w * a && t * M * a == t * a * M && u * M * w == w * u * M;
  }

  lemma {:induction false} ResidualSum(s: seq<nat>, h: seq<nat>, w: seq<nat>, a: seq<nat>, n: seq<nat>, k: nat) returns (q: int)
    requires Balanced(s, h, a, n) && |w| == |s| && k <= |s|
    ensures PartSum(s, w, k) + Dot(Products(h, w), Negated(a), k) + Dot(w, Negated(n), k) == q * M
  {
    q := 0;
    if k > 0 {
      var q0 := ResidualSum(s, h, w, a, n, k - 1);
      var q1 := Residual(s[k - 1], h[k - 1], w[k - 1], a[k - 1], n[k - 1]);
      q := q0 + q1;
    }
  }

  lemma LessMultiple(s: nat, d: int, q: int)
    requires s + d == q * M
    ensures s % M + d == (q - s / M) * M
  {
  }

  lemma DotOfOne(x: nat, n: nat)
    requires n == 1
    ensures Dot([x], [1], n) == x
  {
    assert Dot([x], [1], n - 1) == 0;
  }

  lemma DotHead(x: nat, s: seq<nat>, k: seq<int>)
    requires |s| == |k|
    ensures Dot([x] + s, [1] + k, 1 + |s|) == x + Dot(s, k, |s|)
  {
    DotOfOne(x, 1);
    DotAppend([x], [1], s, k, |s|);
  }

  lemma DotInParts(x: nat, hw: seq<nat>, w: seq<nat>, ka: seq<int>, kn: seq<int>)
    requires |hw| == |w| == |ka| == |kn|
    ensures Dot([x] + hw + w, [1] + ka + kn, 2 * |w| + 1) == x + Dot(hw, ka, |w|) + Dot(w, kn, |w|)
  {
    DotHead(x, hw, ka);
    DotAppend([x] + hw, [1] + ka, w, kn, |w|);
  }

  /** For balanced entries the coefficients add up to a multiple of m. */
  lemma BalancedDot(s: seq<nat>, h: seq<nat>, w: seq<nat>, a: seq<nat>, n: seq<nat>) returns (q: int)
    requires Balanced(s, h, a, n) && |w| == |s|
    ensures Dot(Coefficients(s, h, w), [1] + Negated(a) + Negated(n), 2 * |s| + 1) == q * M
  {
    var sum, hw, ka, kn := PartSum(s, w, |s|), Products(h, w), Negated(a), Negated(n);
    DotInParts(sum % M, hw, w, ka, kn);
    var q0 := ResidualSum(s, h, w, a, n, |s|);
    LessMultiple(sum, Dot(hw, ka, |s|) + Dot(w, kn, |s|), q0);
    q := q0 - sum / M;
  }

  lemma MultipleOfM<G(!new)>(g: Group<G>, b: G, q: int, n: int)
    requires Abelian(g) && OrderM(g, b) && n == q * M
    ensures Times(g, n, b) == g.zero
  {
    if q >= 0 {
      TimesPeriodic(g, 0, q, b);
    } else {
      assert n + (0 - q) * M == 0;
      TimesPeriodic(g, n, 0 - q, b);
    }
  }

  /** If the keys are a_i B and the R halves n_i B, both negated, balanced entries make the sum neutral. */
  lemma BalancedSum<G(!new)>(c: Curve<G>, s: seq<nat>, h: seq<nat>, w: seq<nat>, a: seq<nat>, n: seq<nat>, keys: seq<G>, halves: seq<G>)
    requires Abelian(c.group) && OrderM(c.group, c.base) && Balanced(s, h, a, n) && |w| == |s|
    requires Multiples(c.group, c.base, Negated(a), keys) && Multiples(c.group, c.base, Negated(n), halves)
    ensures LinComb(c.group, Coefficients(s, h, w), [c.base] + keys + halves, 2 * |s| + 1) == c.group.zero
  {
    BaseItself(c);
    MultiplesAppend(c.group, c.base, [1], [c.base], Negated(a), keys);
    MultiplesAppend(c.group, c.base, [1] + Negated(a), [c.base] + keys, Negated(n), halves);
    var ks := [1] + Negated(a) + Negated(n);
    SumOfMultiples(c.group, c.base, Coefficients(s, h, w), ks, [c.base] + keys + halves, 2 * |s| + 1);
    var q := BalancedDot(s, h, w, a, n);
    MultipleOfM(c.group, c.base, q, Dot(Coefficients(s, h, w), ks, 2 * |s| + 1));
  }

  lemma BaseItself<G(!new)>(c: Curve<G>)
    requires Abelian(c.group)
    ensures Multiples(c.group, c.base, [1], [c.base])
  {
    Law(c.group, c.base, c.base, c.base);
  }

  // ---- signatures ----

  /** A message, its public key and signature, and the sixteen random bytes the signature is weighted with. */
  datatype Entry = Entry(m: seq<Byte>, pk: seq<Byte>, RS: seq<Byte>, r: seq<Byte>)

  predicate Sized(e: Entry) {
    |e.pk| == 32 && |e.RS| == 64 && |e.r| == 16
  }

  predicate AllSized(es: seq<Entry>) {
    forall i | 0 <= i < |es| :: Sized(es[i])
  }

  ghost function Parts(es: seq<Entry>): (s: seq<nat>)
    requires AllSized(es)
    ensures |s| == |es| && forall i | 0 <= i < |es| :: s[i] == LE(es[i].RS[32..])
  {
    seq(|es|, i requires 0 <= i < |es| => LE(es[i].RS[32..]))
  }

  ghost function Hashes<W(!new)>(p: Sha512.Parameters<W>, es: seq<Entry>): (s: seq<nat>)
    requires Hashing(p) && AllSized(es)
    ensures |s| == |es| && forall i | 0 <= i < |es| :: s[i] == Hram(p, es[i].RS[..32], es[i].pk, es[i].m)
  {
    seq(|es|, i requires 0 <= i < |es| => Hram(p, es[i].RS[..32], es[i].pk, es[i].m))
  }

  ghost function Weights(es: seq<Entry>): (s: seq<nat>)
    ensures |s| == |es| && forall i | 0 <= i < |es| :: s[i] == LE(es[i].r)
  {
    seq(|es|, i requires 0 <= i < |es| => LE(es[i].r))
  }

  /** The coefficients of a batch; what they are shows only where `Unfold(true)` is asserted. */
  ghost predicate AreScalars<W(!new)>(p: Sha512.Parameters<W>, es: seq<Entry>, r: seq<nat>)
    requires Hashing(p) && AllSized(es)
  {
    |r| == 2 * |es| + 1 && forall u {:trigger Unfold(u)} :: Unfold(u) ==> r == Coefficients(Parts(es), Hashes(p, es), Weights(es))
  }

  ghost function Scalars<W(!new)>(p: Sha512.Parameters<W>, es: seq<Entry>): (r: seq<nat>)
    requires Hashing(p) && AllSized(es)
    ensures |r| == 2 * |es| + 1
  {
    assert AreScalars(p, es, Coefficients(Parts(es), Hashes(p, es), Weights(es)));
    var r :| AreScalars(p, es, r);
    r
  }

  lemma ScalarsAre<W(!new)>(p: Sha512.Parameters<W>, es: seq<Entry>)
    requires Hashing(p) && AllSized(es)
    ensures Scalars(p, es) == Coefficients(Parts(es), Hashes(p, es), Weights(es))
  {
    assert Unfold(true);
    assert AreScalars(p, es, Scalars(p, es));
  }

  /** `g` is the negative of the point that the bytes encode. */
  ghost predicate Negative<G>(c: Curve<G>, s: seq<Byte>, g: G) {
    exists x: nat :: NegatedX(s, x) && g == c.at(x, PointY(s))
  }

  ghost predicate Negatives<G>(c: Curve<G>, ss: seq<seq<Byte>>, gs: seq<G>) {
    |gs| == |ss| && forall i | 0 <= i < |ss| :: Negative(c, ss[i], gs[i])
  }

  function Keys(es: seq<Entry>): (s: seq<seq<Byte>>)
    ensures |s| == |es| && forall i | 0 <= i < |es| :: s[i] == es[i].pk
  {
    seq(|es|, i requires 0 <= i < |es| => es[i].pk)
  }

  function Halves(es: seq<Entry>): (s: seq<seq<Byte>>)
    requires AllSized(es)
    ensures |s| == |es| && forall i | 0 <= i < |es| :: s[i] == es[i].RS[..32]
  {
    seq(|es|, i requires 0 <= i < |es| => es[i].RS[..32])
  }

  /** The base point, the keys and the R halves. */
  ghost function AllPoints<G>(c: Curve<G>, keys: seq<G>, halves: seq<G>): (r: seq<G>)
    ensures |r| == |keys| + |halves| + 1
  {
    [c.base] + keys + halves
  }

  /** S_1 w_1 B + ... - h_1 w_1 A_1 - ... - w_1 R_1 - ..., for the negatives of the keys and of the R halves. */
  ghost function BatchTotal<W(!new), G>(c: Curve<G>, p: Sha512.Parameters<W>, es: seq<Entry>, keys: seq<G>, halves: seq<G>): G
    requires Hashing(p) && AllSized(es) && |keys| == |halves| == |es|
  {
    LinComb(c.group, Scalars(p, es), AllPoints(c, keys, halves), 2 * |es| + 1)
  }

  /** The entry's key belongs to the secret key, and its signature was made with it. */
  ghost predicate Honest<W(!new), G>(c: Curve<G>, p: Sha512.Parameters<W>, e: Entry, sk: seq<Byte>)
    requires Hashing(p)
  {
    (Sized(e) && Encodes(c, e.pk, Secret(p, sk)) && Signature(c, p, e.m, sk, e.pk, e.RS)) == true
  }

  ghost predicate AllHonest<W(!new), G>(c: Curve<G>, p: Sha512.Parameters<W>, es: seq<Entry>, sks: seq<seq<Byte>>)
    requires Hashing(p)
  {
    |sks| == |es| && forall i | 0 <= i < |es| :: Honest(c, p, es[i], sks[i])
  }

  ghost function Secrets<W(!new)>(p: Sha512.Parameters<W>, sks: seq<seq<Byte>>): (a: seq<nat>)
    requires Hashing(p)
    ensures |a| == |sks| && forall i | 0 <= i < |sks| :: a[i] == Secret(p, sks[i])
  {
    seq(|sks|, i requires 0 <= i < |sks| => Secret(p, sks[i]))
  }

  ghost function Nonces<W(!new)>(p: Sha512.Parameters<W>, es: seq<Entry>, sks: seq<seq<Byte>>): (n: seq<nat>)
    requires Hashing(p) && |es| == |sks|
    ensures |n| == |es| && forall i | 0 <= i < |es| :: n[i] == Nonce(p, sks[i], es[i].m)
  {
    seq(|es|, i requires 0 <= i < |es| => Nonce(p, sks[i], es[i].m))
  }

  lemma TimesNeg<G(!new)>(g: Group<G>, n: int, b: G)
    requires Abelian(g)
    ensures g.neg(Times(g, n, b)) == Times(g, 0 - n, b)
  {
    TimesAdd(g, n, 0 - n, b);
    NegUnique(g, Times(g, n, b), Times(g, 0 - n, b));
  }

  /** The negative of an encoded multiple of the base point. */
  lemma NegativeOf<G(!new)>(c: Curve<G>, s: seq<Byte>, n: int, g: G)
    requires EdwardsCurve(c) && Encodes(c, s, n) && Negative(c, s, g)
    ensures g == Times(c.group, 0 - n, c.base)
  {
    var A := Times(c.group, n, c.base);
    KeyDecodes(c, A, s);
    var x: nat :| NegatedX(s, x) && g == c.at(x, PointY(s));
    NegatedUnique(s, x, c.x(c.group.neg(A)));
    TimesNeg(c.group, n, c.base);
  }

  lemma NegativesOf<G(!new)>(c: Curve<G>, ss: seq<seq<Byte>>, ns: seq<nat>, gs: seq<G>)
    requires EdwardsCurve(c) && Negatives(c, ss, gs) && |ns| == |ss| && forall i | 0 <= i < |ss| :: Encodes(c, ss[i], ns[i])
    ensures Multiples(c.group, c.base, Negated(ns), gs)
  {
    forall i | 0 <= i < |ss| ensures gs[i] == Times(c.group, Negated(ns)[i], c.base) {
      NegativeOf(c, ss[i], ns[i], gs[i]);
    }
  }

  lemma HonestEntry<W(!new), G(!new)>(c: Curve<G>, p: Sha512.Parameters<W>, e: Entry, sk: seq<Byte>)
    requires Hashing(p) && Honest(c, p, e, sk)
    ensures Sized(e) && Encodes(c, e.pk, Secret(p, sk)) && Encodes(c, e.RS[..32], Nonce(p, sk, e.m))
    ensures Responds(LE(e.RS[32..]), Nonce(p, sk, e.m), Hram(p, e.RS[..32], e.pk, e.m), Secret(p, sk))
  {
  }

  lemma HonestEntries<W(!new), G(!new)>(c: Curve<G>, p: Sha512.Parameters<W>, es: seq<Entry>, sks: seq<seq<Byte>>)
    requires Hashing(p) && AllHonest(c, p, es, sks)
    ensures AllSized(es) && Balanced(Parts(es), Hashes(p, es), Secrets(p, sks), Nonces(p, es, sks))
    ensures forall i | 0 <= i < |es| :: Encodes(c, Keys(es)[i], Secrets(p, sks)[i]) && Encodes(c, Halves(es)[i], Nonces(p, es, sks)[i])
  {
    forall i | 0 <= i < |es|
      ensures Sized(es[i]) && Encodes(c, es[i].pk, Secret(p, sks[i])) && Encodes(c, es[i].RS[..32], Nonce(p, sks[i], es[i].m))
      ensures Responds(LE(es[i].RS[32..]), Nonce(p, sks[i], es[i].m), Hram(p, es[i].RS[..32], es[i].pk, es[i].m), Secret(p, sks[i]))
    {
      HonestEntry(c, p, es[i], sks[i]);
    }
  }

  lemma HonestMultiples<W(!new), G(!new)>(c: Curve<G>, p: Sha512.Parameters<W>, es: seq<Entry>, sks: seq<seq<Byte>>, keys: seq<G>, halves: seq<G>)
    requires Hashing(p) && EdwardsCurve(c) && AllHonest(c, p, es, sks)
    requires AllSized(es) && Negatives(c, Keys(es), keys) && Negatives(c, Halves(es), halves)
    ensures Multiples(c.group, c.base, Negated(Secrets(p, sks)), keys) && Multiples(c.group, c.base, Negated(Nonces(p, es, sks)), halves)
    ensures Balanced(Parts(es), Hashes(p, es), Secrets(p, sks), Nonces(p, es, sks))
  {
    HonestEntries(c, p, es, sks);
    NegativesOf(c, Keys(es), Secrets(p, sks), keys);
    NegativesOf(c, Halves(es), Nonces(p, es, sks), halves);
  }

  /** Whatever the weights are, the sum is neutral for signatures that were made with their keys. */
  lemma HonestSum<W(!new), G(!new)>(c: Curve<G>, p: Sha512.Parameters<W>, es: seq<Entry>, sks: seq<seq<Byte>>, keys: seq<G>, halves: seq<G>)
    requires Hashing(p) && EdwardsCurve(c) && OrderM(c.group, c.base)
    requires AllHonest(c, p, es, sks) && AllSized(es) && Negatives(c, Keys(es), keys) && Negatives(c, Halves(es), halves)
    ensures BatchTotal(c, p, es, keys, halves) == c.group.zero
  {
    HonestMultiples(c, p, es, sks, keys, halves);
    BalancedScalars(c, p, es, Secrets(p, sks), Nonces(p, es, sks), keys, halves);
  }

  lemma BalancedScalars<W(!new), G(!new)>(c: Curve<G>, p: Sha512.Parameters<W>, es: seq<Entry>, a: seq<nat>, n: seq<nat>, keys: seq<G>, halves: seq<G>)
    requires Hashing(p) && Abelian(c.group) && OrderM(c.group, c.base) && AllSized(es) && Balanced(Parts(es), Hashes(p, es), a, n)
    requires Multiples(c.group, c.base, Negated(a), keys) && Multiples(c.group, c.base, Negated(n), halves)
    ensures |keys| == |halves| == |es| && BatchTotal(c, p, es, keys, halves) == c.group.zero
  {
    ScalarsAre(p, es);
    BalancedSum(c, Parts(es), Hashes(p, es), Weights(es), a, n, keys, halves);
  }
}
