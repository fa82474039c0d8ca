/** Abelian groups given by their operations, and scalar multiples in them. */
module Group {
  datatype Group<!G> = Group(zero: G, add: (G, G) -> G, neg: G -> G)

  /** Names the elements a group law is used on, so that laws are applied one instance at a time. */
  ghost predicate On<G>(a: G, b: G, c: G) { true }

  /** The laws as one fact (`== true`), which a call hands on whole. */
  ghost predicate Abelian<G(!new)>(g: Group<G>) {
    (&& (forall a, b, c {:trigger On(a, b, c)} :: g.add(g.add(a, b), c) == g.add(a, g.add(b, c)))
     && (forall a, b, c {:trigger On(a, b, c)} :: g.add(a, b) == g.add(b, a) && g.add(a, c) == g.add(c, a))
     && (forall a, b, c {:trigger On(a, b, c)} :: g.add(a, g.zero) == a && g.add(a, g.neg(a)) == g.zero)) == true
  }

  lemma Law<G(!new)>(g: Group<G>, a: G, b: G, c: G)
    requires Abelian(g)
    ensures g.add(g.add(a, b), c) == g.add(a, g.add(b, c))
    ensures g.add(a, b) == g.add(b, a) && g.add(a, c) == g.add(c, a) && g.add(b, c) == g.add(c, b)
    ensures g.add(a, g.zero) == a && g.add(g.zero, a) == a
    ensures g.add(a, g.neg(a)) == g.zero && g.add(g.neg(a), a) == g.zero
  {
    assert On(a, b, c);
    assert On(b, c, c);
    assert On(a, g.zero, g.neg(a));
  }

  /** (a + b) + (c + d) == (a + c) + (b + d) */
  lemma Shuffle<G(!new)>(g: Group<G>, a: G, b: G, c: G, d: G)
    requires Abelian(g)
    ensures g.add(g.add(a, b), g.add(c, d)) == g.add(g.add(a, c), g.add(b, d))
  {
    Law(g, a, b, g.add(c, d));
    Law(g, b, c, d);
    Law(g, c, b, d);
    Law(g, a, c, g.add(b, d));
  }

  lemma NegUnique<G(!new)>(g: Group<G>, a: G, b: G)
    requires Abelian(g) && g.add(a, b) == g.zero
    ensures b == g.neg(a)
  {
    Law(g, g.neg(a), a, b);
    Law(g, b, a, b);
    Law(g, a, b, b);
  }

  /** The integer multiple of a group element. */
  function Times<G>(g: Group<G>, n: int, p: G): G
    decreases if n < 0 then 1 else 0, if n < 0 then -n else n
  {
    if n == 0 then g.zero
    else if n > 0 then g.add(Times(g, n - 1, p), p)
    else g.neg(Times(g, -n, p))
  }

  lemma {:induction false} TimesStep<G(!new)>(g: Group<G>, n: int, p: G)
    requires Abelian(g)
    ensures Times(g, n + 1, p) == g.add(Times(g, n, p), p)
  {
    if n < 0 {
      var k := Times(g, -n - 1, p);
      assert Times(g, -n, p) == g.add(k, p);
      // neg(k + p) + p == neg(k)
      var m := g.neg(g.add(k, p));
      Law(g, k, p, m);
      Law(g, k, g.add(p, m), m);
      Law(g, p, m, m);
      Law(g, g.add(k, p), m, m);
      NegUnique(g, k, g.add(p, m));
      if n == -1 {
        NegUnique(g, g.zero, g.zero);
        Law(g, g.zero, g.zero, g.zero);
      }
    }
  }

  lemma {:induction false} TimesAdd<G(!new)>(g: Group<G>, m: int, n: int, p: G)
    requires Abelian(g)
    ensures Times(g, m + n, p) == g.add(Times(g, m, p), Times(g, n, p))
    decreases if n < 0 then -n else n
  {
    if n == 0 {
      Law(g, Times(g, m, p), p, p);
    } else if n > 0 {
      TimesAdd(g, m, n - 1, p);
      TimesStep(g, m + n - 1, p);
      Law(g, Times(g, m, p), Times(g, n - 1, p), p);
    } else {
      TimesAdd(g, m, n + 1, p);
      TimesStep(g, m + n, p);
      TimesStep(g, n, p);
      Law(g, Times(g, m, p), Times(g, n, p), p);
      Cancel(g, Times(g, m + n, p), g.add(Times(g, m, p), Times(g, n, p)), p);
    }
  }

  lemma Cancel<G(!new)>(g: Group<G>, a: G, b: G, p: G)
    requires Abelian(g) && g.add(a, p) == g.add(b, p)
    ensures a == b
  {
    Law(g, a, p, g.neg(p));
    Law(g, b, p, g.neg(p));
    Law(g, p, p, p);
  }

  lemma {:induction false} TimesSum<G(!new)>(g: Group<G>, n: nat, p: G, q: G)
    requires Abelian(g)
    ensures Times(g, n, g.add(p, q)) == g.add(Times(g, n, p), Times(g, n, q))
  {
    if n == 0 {
      Law(g, g.zero, p, q);
    } else {
      TimesSum(g, n - 1, p, q);
      Shuffle(g, Times(g, n - 1, p), Times(g, n - 1, q), p, q);
    }
  }

  lemma {:induction false} TimesZero<G(!new)>(g: Group<G>, n: nat)
    requires Abelian(g)
    ensures Times(g, n, g.zero) == g.zero
  {
    if n > 0 {
      TimesZero(g, n - 1);
      Law(g, g.zero, g.zero, g.zero);
    }
  }

  lemma {:induction false} TimesTimes<G(!new)>(g: Group<G>, m: nat, n: int, p: G)
    requires Abelian(g)
    ensures Times(g, m, Times(g, n, p)) == Times(g, m * n, p)
  {
    if m > 0 {
      TimesTimes(g, m - 1, n, p);
      assert m * n == (m - 1) * n + n;
      TimesAdd(g, (m - 1) * n, n, p);
    }
  }

  /** The sum of s[i] * p[i] over the first `n` entries. */
  function LinComb<G>(g: Group<G>, s: seq<nat>, p: seq<G>, n: nat): G
    requires n <= |s| && n <= |p|
  {
    if n == 0 then g.zero else g.add(LinComb(g, s, p, n - 1), Times(g, s[n - 1], p[n - 1]))
  }

  lemma {:induction false} LinCombSame<G>(g: Group<G>, s: seq<nat>, p: seq<G>, s': seq<nat>, p': seq<G>, n: nat)
    requires n <= |s| && n <= |p| && n <= |s'| && n <= |p'|
    requires forall k | 0 <= k < n :: s[k] == s'[k] && p[k] == p'[k]
    ensures LinComb(g, s, p, n) == LinComb(g, s', p', n)
  {
    if n > 0 {
      LinCombSame(g, s, p, s', p', n - 1);
    }
  }

  /** Replacing the term at `i` by one that is larger by `d` raises the sum by `d`. */
  lemma {:induction false} LinCombUpdate<G(!new)>(g: Group<G>, s: seq<nat>, p: seq<G>, s': seq<nat>, p': seq<G>, n: nat, i: nat, d: G)
    requires Abelian(g)
    requires i < n && n <= |s| && n <= |p| && n <= |s'| && n <= |p'|
    requires forall k | 0 <= k < n && k != i :: s[k] == s'[k] && p[k] == p'[k]
    requires Times(g, s'[i], p'[i]) == g.add(Times(g, s[i], p[i]), d)
    ensures LinComb(g, s', p', n) == g.add(LinComb(g, s, p, n), d)
  {
    if i == n - 1 {
      LinCombSame(g, s, p, s', p', i);
      Law(g, LinComb(g, s, p, i), Times(g, s[i], p[i]), d);
    } else {
      LinCombUpdate(g, s, p, s', p', n - 1, i, d);
      var a, t := LinComb(g, s, p, n - 1), Times(g, s[n - 1], p[n - 1]);
      Law(g, a, d, t);
      Law(g, a, t, d);
      Law(g, d, t, t);
    }
  }
}
