/** [s1]P + [s2]B by interleaved sliding windows. */
module ScalarMult {
  import opened Words
  import opened Modm
  import opened Recode
  import opened Sliding
  import opened Field
  import opened Group
  import opened Edwards
  import opened Points

  // ---- Horner's rule ----

  /** The value of the digits from `i` on, least significant first. */
  function Horner(d: seq<int>, i: nat): int
    requires i <= |d|
    decreases |d| - i
  {
    if i == |d| then 0 else d[i] + 2 * Horner(d, i + 1)
  }

  lemma HornerStep(x: int, p: nat, h: int)
    ensures x * p + 2 * p * h == p * (x + 2 * h)
  {
    assert p * (x + 2 * h) == p * x + p * (2 * h);
  }

  lemma {:induction false} HornerWeighted(d: seq<int>, r: nat, n: nat)
    requires n <= |d| && r == 2
    ensures Weighted(d, r, n) + Power(r, n) * Horner(d, n) == Horner(d, 0)
  {
    if n > 0 {
      HornerWeighted(d, r, n - 1);
      HornerStep(d[n - 1], Power(r, n - 1), Horner(d, n));
    }
  }

  // ---- a g + b B ----

  ghost function Pair<G>(c: Curve<G>, g: G, a: int, b: int): G {
    c.group.add(Times(c.group, a, g), Times(c.group, b, c.base))
  }

  lemma PairDouble<G(!new)>(c: Curve<G>, g: G, a: int, b: int)
    requires Abelian(c.group)
    ensures c.group.add(Pair(c, g, a, b), Pair(c, g, a, b)) == Pair(c, g, 2 * a, 2 * b)
  {
    Shuffle(c.group, Times(c.group, a, g), Times(c.group, b, c.base), Times(c.group, a, g), Times(c.group, b, c.base));
    TimesAdd(c.group, a, a, g);
    TimesAdd(c.group, b, b, c.base);
  }

  lemma PairAdd<G(!new)>(c: Curve<G>, g: G, a: int, b: int, d: int)
    requires Abelian(c.group)
    ensures c.group.add(Pair(c, g, a, b), Times(c.group, d, g)) == Pair(c, g, a + d, b)
    ensures c.group.add(Pair(c, g, a, b), Times(c.group, d, c.base)) == Pair(c, g, a, b + d)
  {
    var p, q := Times(c.group, a, g), Times(c.group, b, c.base);
    Law(c.group, p, q, Times(c.group, d, g));
    Law(c.group, p, Times(c.group, d, g), q);
    TimesAdd(c.group, a, d, g);
    Law(c.group, p, q, Times(c.group, d, c.base));
    TimesAdd(c.group, b, d, c.base);
  }

  /** The table entry at |d| / 2, with the sign of d, is d times the point. */
  lemma TableEntry<G(!new)>(c: Curve<G>, p: G, d: int)
    requires Abelian(c.group) && d % 2 == 1
    ensures var m := (if d < 0 then -d else d) / 2;
            Signed(c, Times(c.group, 2 * m + 1, p), if d < 0 then 1 else 0) == Times(c.group, d, p)
  {
  }

  /** Entry k is 2k + 1 times the point. */
  ghost predicate OddMultiples<G>(c: Curve<G>, table: seq<PNiels>, n: nat, g: G) {
    n <= |table| && forall k | 0 <= k < n :: RepPNiels(c, table[k], Times(c.group, 2 * k + 1, g))
  }

  ghost predicate OddBaseMultiples<G>(c: Curve<G>, table: seq<NielsPoint>) {
    |table| == 32 && forall k | 0 <= k < 32 :: RepNiels(c, table[k], Times(c.group, 2 * k + 1, c.base))
  }

  method BuildTable<G(!new)>(p1: Ge, ghost c: Curve<G>, ghost g: G) returns (pre1: seq<PNiels>)
    requires EdwardsCurve(c) && RepFull(c, p1, g)
    ensures |pre1| == 8 && OddMultiples(c, pre1, 8, g)
  {
    var d1 := Double(p1, c, g);
    SmallMultiples(c, g);
    var first := FullToPNiels(p1, c, g);
    pre1 := [first];
    for i := 0 to 7
      invariant |pre1| == i + 1 && OddMultiples(c, pre1, i + 1, g)
    {
      var next := NextOdd(d1, pre1[i], i, c, g);
      pre1 := pre1 + [next];
    }
  }

  lemma SmallMultiples<G(!new)>(c: Curve<G>, g: G)
    requires Abelian(c.group)
    ensures Times(c.group, 1, g) == g && Times(c.group, 2, g) == c.group.add(g, g)
  {
    Law(c.group, g, g, g);
    assert Times(c.group, 1, g) == g;
  }

  method NextOdd<G(!new)>(d1: Ge, p: PNiels, i: nat, ghost c: Curve<G>, ghost g: G) returns (next: PNiels)
    requires EdwardsCurve(c) && RepFull(c, d1, Times(c.group, 2, g)) && RepPNiels(c, p, Times(c.group, 2 * i + 1, g))
    ensures RepPNiels(c, next, Times(c.group, 2 * (i + 1) + 1, g))
  {
    next := PNielsAdd(d1, p, c, Times(c.group, 2, g), Times(c.group, 2 * i + 1, g));
    TimesAdd(c.group, 2, 2 * i + 1, g);
  }

  /** 2h + d1 g + d2 B. */
  ghost function Next<G>(c: Curve<G>, g: G, h: G, d1: int, d2: int): G {
    c.group.add(c.group.add(c.group.add(h, h), Times(c.group, d1, g)), Times(c.group, d2, c.base))
  }

  lemma NextPair<G(!new)>(c: Curve<G>, g: G, a: int, b: int, d1: int, d2: int)
    requires Abelian(c.group)
    ensures Next(c, g, Pair(c, g, a, b), d1, d2) == Pair(c, g, 2 * a + d1, 2 * b + d2)
  {
    NextHalf(c, g, a, b, d1);
    PairAdd(c, g, 2 * a + d1, 2 * b, d2);
  }

  lemma NextHalf<G(!new)>(c: Curve<G>, g: G, a: int, b: int, d1: int)
    requires Abelian(c.group)
    ensures c.group.add(c.group.add(Pair(c, g, a, b), Pair(c, g, a, b)), Times(c.group, d1, g)) == Pair(c, g, 2 * a + d1, 2 * b)
  {
    PairDouble(c, g, a, b);
    PairAdd(c, g, 2 * a, 2 * b, d1);
  }

  /** One digit of each scalar. The fourth coordinate of r is not used. */
  method Step<G(!new)>(r: Ge, pre1: seq<PNiels>, table: seq<NielsPoint>, d1: int, d2: int, ghost c: Curve<G>, ghost g: G, ghost h: G) returns (r': Ge)
    requires EdwardsCurve(c) && OddMultiples(c, pre1, 8, g) && OddBaseMultiples(c, table)
    requires Rep(c, r, h) && SmallDigit(d1, 16) && SmallDigit(d2, 64)
    ensures Rep(c, r', Next(c, g, h, d1, d2))
  {
    var t := DoubleP1p1(r, c, h);
    var stale := r.t;
    ghost var h2 := c.group.add(h, h);
    t, stale := AddDigit1(t, stale, pre1, d1, c, g, h2);
    ghost var h3 := c.group.add(h2, Times(c.group, d1, g));
    t, stale := AddDigit2(t, stale, table, d2, c, h3);
    r' := P1p1ToPartial(t, stale, c, Next(c, g, h, d1, d2));
  }

  predicate SmallDigit(d: int, n: nat) {
    d == 0 || (d % 2 == 1 && -d < n && d < n)
  }

  method AddDigit1<G(!new)>(p: P1p1, stale: Fe, pre1: seq<PNiels>, d: int, ghost c: Curve<G>, ghost g: G, ghost h: G)
    returns (t: P1p1, last: Fe)
    requires EdwardsCurve(c) && OddMultiples(c, pre1, 8, g) && RepP1(c, p, h) && SmallDigit(d, 16)
    ensures RepP1(c, t, c.group.add(h, Times(c.group, d, g)))
  {
    if d == 0 {
      Law(c.group, h, h, h);
      return p, stale;
    }
    var s := P1p1ToFull(p, c, h);
    var m: nat := (if d < 0 then -d else d) / 2;
    var signbit: nat := if d < 0 then 1 else 0;
    t := PNielsAddP1p1(s, pre1[m], signbit, c, h, Times(c.group, 2 * m + 1, g));
    TableEntry(c, g, d);
    last := s.t;
  }

  method AddDigit2<G(!new)>(p: P1p1, stale: Fe, table: seq<NielsPoint>, d: int, ghost c: Curve<G>, ghost h: G)
    returns (t: P1p1, last: Fe)
    requires EdwardsCurve(c) && OddBaseMultiples(c, table) && RepP1(c, p, h) && SmallDigit(d, 64)
    ensures RepP1(c, t, c.group.add(h, Times(c.group, d, c.base)))
  {
    if d == 0 {
      Law(c.group, h, h, h);
      return p, stale;
    }
    var s := P1p1ToFull(p, c, h);
    var m: nat := (if d < 0 then -d else d) / 2;
    var signbit: nat := if d < 0 then 1 else 0;
    t := NielsAdd2P1p1(s, table[m], signbit, c, h, Times(c.group, 2 * m + 1, c.base));
    TableEntry(c, c.base, d);
    last := s.t;
  }

  method DoubleScalarMult<G(!new)>(p1: Ge, s1: array<nat>, s2: array<nat>, table: seq<NielsPoint>, ghost c: Curve<G>, ghost g: G) returns (r: Ge)
    requires EdwardsCurve(c) && RepFull(c, p1, g) && OddBaseMultiples(c, table)
    requires s1.Length == 5 && Limbs(s1[..], 0x8000_0000) && s2.Length == 5 && Limbs(s2[..], 0x8000_0000)
    ensures Rep(c, r, c.group.add(Times(c.group, Value(s1[..]), g), Times(c.group, Value(s2[..]), c.base)))
  {
    var slide1, slide2 := RecodeBoth(s1, s2);
    var pre1 := BuildTable(p1, c, g);
    r := Interleave(slide1, slide2, pre1, table, c, g);
  }

  method RecodeBoth(s1: array<nat>, s2: array<nat>) returns (d1: seq<int>, d2: seq<int>)
    requires s1.Length == 5 && Limbs(s1[..], 0x8000_0000) && s2.Length == 5 && Limbs(s2[..], 0x8000_0000)
    ensures |d1| == |d2| == 256 && Horner(d1, 0) == Value(s1[..]) && Horner(d2, 0) == Value(s2[..])
    ensures forall k | 0 <= k < 256 :: SmallDigit(d1[k], 16) && SmallDigit(d2[k], 64)
  {
    var slide1, slide2 := new int[256], new int[256];
    SlidingWindow(slide1, s1, 5);
    SlidingWindow(slide2, s2, 7);
    d1, d2 := slide1[..], slide2[..];
    Digits(d1, 5);
    Digits(d2, 7);
    HornerWeighted(d1, 2, 256);
    HornerWeighted(d2, 2, 256);
  }

  /** Both digit strings from position `i` on. */
  ghost function Partial<G>(c: Curve<G>, g: G, slide1: seq<int>, slide2: seq<int>, i: nat): G
    requires i <= |slide1| && i <= |slide2|
  {
    Pair(c, g, Horner(slide1, i), Horner(slide2, i))
  }

  lemma PartialStep<G(!new)>(c: Curve<G>, g: G, slide1: seq<int>, slide2: seq<int>, i: nat)
    requires Abelian(c.group) && i < |slide1| && i < |slide2|
    ensures Next(c, g, Partial(c, g, slide1, slide2, i + 1), slide1[i], slide2[i]) == Partial(c, g, slide1, slide2, i)
  {
    NextPair(c, g, Horner(slide1, i + 1), Horner(slide2, i + 1), slide1[i], slide2[i]);
  }

  lemma PartialZero<G(!new)>(c: Curve<G>, g: G, slide1: seq<int>, slide2: seq<int>, i: nat)
    requires Abelian(c.group) && i <= |slide1| && i <= |slide2| && Horner(slide1, i) == Horner(slide2, i) == 0
    ensures Partial(c, g, slide1, slide2, i) == c.group.zero
  {
    Law(c.group, c.group.zero, g, g);
  }

  method Interleave<G(!new)>(slide1: seq<int>, slide2: seq<int>, pre1: seq<PNiels>, table: seq<NielsPoint>, ghost c: Curve<G>, ghost g: G) returns (r: Ge)
    requires EdwardsCurve(c) && OddMultiples(c, pre1, 8, g) && OddBaseMultiples(c, table) && |slide1| == |slide2| == 256
    requires forall k | 0 <= k < 256 :: SmallDigit(slide1[k], 16) && SmallDigit(slide2[k], 64)
    ensures Rep(c, r, Partial(c, g, slide1, slide2, 0))
  {
    r := Neutral(c);
    var i := SkipZeros(slide1, slide2);
    PartialZero(c, g, slide1, slide2, i);
    while i > 0
      invariant 0 <= i <= 256
      invariant Rep(c, r, Partial(c, g, slide1, slide2, i))
    {
      i := i - 1;
      r := Step(r, pre1, table, slide1[i], slide2[i], c, g, Partial(c, g, slide1, slide2, i + 1));
      PartialStep(c, g, slide1, slide2, i);
    }
  }

  lemma Digits(d: seq<int>, w: nat)
    requires |d| == 256 && w > 0 && forall k | 0 <= k < 256 :: Digit(d[k], w)
    ensures w == 5 ==> forall k | 0 <= k < 256 :: SmallDigit(d[k], 16)
    ensures w == 7 ==> forall k | 0 <= k < 256 :: SmallDigit(d[k], 64)
  {
    assert Power(2, 4) == 16 && Power(2, 6) == 64;
  }

  /** The number of digits up to the last position where either is nonzero. */
  method SkipZeros(slide1: seq<int>, slide2: seq<int>) returns (i: nat)
    requires |slide1| == |slide2| == 256
    ensures i <= 256 && Horner(slide1, i) == 0 && Horner(slide2, i) == 0
    ensures i > 0 ==> slide1[i - 1] != 0 || slide2[i - 1] != 0
  {
    i := 256;
    while i > 0 && slide1[i - 1] == 0 && slide2[i - 1] == 0
      invariant i <= 256 && Horner(slide1, i) == 0 && Horner(slide2, i) == 0
    {
      i := i - 1;
    }
  }
}
