/** The last step of the multi-scalar multiplication: one scalar and its point are left. */
module FinalStep {
  import opened Basics
  import opened Words
  import opened Modm
  import opened ModmBatch
  import opened Group
  import Edwards
  import Points

  /** The least power of two above `v`. */
  function NextPower(v: nat): (h: nat)
    ensures h > v
  {
    if v == 0 then 1 else 2 * NextPower(v / 2)
  }

  lemma {:induction false} NextPowerUnique(v: nat, n: nat)
    requires Power(2, n) <= 2 * v + 1 && v < Power(2, n)
    ensures NextPower(v) == Power(2, n)
  {
    if v > 0 {
      NextPowerUnique(v / 2, n - 1);
    }
  }

  /** What double-and-add has processed and what is left of the scalar below weight `p` of limb `limb`. */
  ghost predicate Processed(scalar: seq<nat>, limb: nat, p: nat, c: nat, total: nat)
    requires |scalar| == 5 && limb < 5 && p > 0
  {
    forall u {:trigger Unfold(u)} :: Unfold(u) ==> c * (Unit(limb) * p) + LimbPrefix(scalar, limb) + Unit(limb) * (scalar[limb] % p) == total
  }

  /** Processing the bit of weight `flag`. */
  lemma BitStep(scalar: seq<nat>, limb: nat, flag: nat, c: nat, total: nat)
    requires Five(scalar) && limb < 5 && flag > 0 && Processed(scalar, limb, 2 * flag, c, total)
    ensures Processed(scalar, limb, flag, 2 * c + scalar[limb] / flag % 2, total)
  {
    var x := scalar[limb];
    DivDiv(x, flag, 2);
    assert flag * 2 == 2 * flag;
    BitAlgebra(c, Unit(limb), flag, x / flag % 2, x % flag);
  }

  lemma BitAlgebra(c: nat, u: nat, p: nat, b: nat, r: nat)
    ensures c * (u * (2 * p)) + u * (r + p * b) == (2 * c + b) * (u * p) + u * r
  {
    assert u * (r + p * b) == u * r + b * (u * p);
    assert c * (u * (2 * p)) == 2 * c * (u * p);
  }

  /** Moving to the next lower limb. */
  lemma LimbStep(scalar: seq<nat>, limb: nat, c: nat, total: nat)
    requires Five(scalar) && 0 < limb < 5 && Processed(scalar, limb, 1, c, total)
    ensures Processed(scalar, limb - 1, TWO56, c, total)
  {
  }

  lemma {:induction false} UnitPower(i: nat)
    ensures Unit(i) == Power(2, 56 * i)
  {
    if i > 0 {
      UnitPower(i - 1);
      PowersOf2(32, 56);
      PowerAdd(2, 56, 56 * (i - 1));
    }
  }

  /** The first set bit of a scalar: the power of two above it. */
  lemma TopBit(scalar: seq<nat>, limb: nat, bit: nat)
    requires Scalar(scalar) && limb < 5 && bit > 0 && Power(2, bit - 1) <= scalar[limb] < Power(2, bit)
    ensures NextPower(LimbPrefix(scalar, limb + 1)) == Unit(limb) * Power(2, bit)
  {
    var u, x, low, p := Unit(limb), scalar[limb], LimbPrefix(scalar, limb), Power(2, bit - 1);
    LowBound(scalar, limb);
    TopBitBounds(u, x, low, p);
    UnitPower(limb);
    PowerAdd(2, 56 * limb, bit);
    NextPowerUnique(low + u * x, 56 * limb + bit);
  }

  lemma TopBitBounds(u: nat, x: nat, low: nat, p: nat)
    requires p <= x < 2 * p && low < u
    ensures low + u * x < u * (2 * p) <= 2 * (low + u * x) + 1
  {
    MulBound(u, x + 1, u, 2 * p);
    MulBound(u, p, u, x);
    assert u * (x + 1) == u * x + u && u * (2 * p) == 2 * (u * p);
  }

  const TOP_BIT: nat := 0x80_0000_0000_0000

  /** The limbs stand for `point` of the curve. */
  ghost predicate StandsFor<G(!new)>(c: Edwards.Curve<G>, pt: Points.Ge, point: G) {
    (Edwards.EdwardsCurve(c) && Points.RepFull(c, pt, point)) == true
  }

  predicate Five(s: seq<nat>) {
    Scalar(s) == true
  }

  /** The limbs stand for the multiple `n` of `point`. */
  ghost predicate ShowsMultiple<G>(c: Edwards.Curve<G>, r: Points.Ge, n: nat, point: G) {
    Points.RepFull(c, r, Times(c.group, n, point)) == true
  }

  method ProcessBit<G(!new)>(pt: Points.Ge, scalar: seq<nat>, limb: nat, flag: nat, r: Points.Ge,
                             ghost c: Edwards.Curve<G>, ghost point: G, ghost n: nat, ghost total: nat)
    returns (r': Points.Ge, ghost n': nat)
    requires StandsFor(c, pt, point) && Five(scalar) && limb < 5 && flag > 0 && Processed(scalar, limb, 2 * flag, n, total)
    requires ShowsMultiple(c, r, n, point)
    ensures Processed(scalar, limb, flag, n', total) && ShowsMultiple(c, r', n', point)
  {
    BitStep(scalar, limb, flag, n, total);
    var bit := BitOf(scalar[limb], flag);
    n' := 2 * n + bit;
    r' := DoubleAndAdd(r, pt, bit, c, point, n);
  }

  function BitOf(x: nat, flag: nat): (bit: nat)
    requires flag > 0
    ensures bit == x / flag % 2 < 2
  {
    x / flag % 2
  }

  /** Doubles, and adds the point if the bit is set. */
  method DoubleAndAdd<G(!new)>(r: Points.Ge, pt: Points.Ge, bit: nat, ghost c: Edwards.Curve<G>, ghost point: G, ghost n: nat) returns (r': Points.Ge)
    requires StandsFor(c, pt, point) && ShowsMultiple(c, r, n, point) && bit < 2
    ensures ShowsMultiple(c, r', 2 * n + bit, point)
  {
    r' := DoubleMultiple(r, c, point, n);
    if bit == 1 {
      r' := AddMultiple(r', pt, c, point, 2 * n);
    }
  }

  lemma TwiceIs<G(!new)>(g: Group<G>, n: nat, m: nat, point: G)
    requires Abelian(g) && m == 2 * n
    ensures g.add(Times(g, n, point), Times(g, n, point)) == Times(g, m, point)
  {
    TimesAdd(g, n, n, point);
  }

  method DoubleMultiple<G(!new)>(r: Points.Ge, ghost c: Edwards.Curve<G>, ghost point: G, ghost n: nat) returns (r': Points.Ge)
    requires Edwards.EdwardsCurve(c) && ShowsMultiple(c, r, n, point)
    ensures ShowsMultiple(c, r', 2 * n, point)
  {
    ghost var x := Times(c.group, n, point);
    r' := Points.Double(r, c, x);
    TwiceIs(c.group, n, 2 * n, point);
  }

  method AddMultiple<G(!new)>(r: Points.Ge, pt: Points.Ge, ghost c: Edwards.Curve<G>, ghost point: G, ghost n: nat) returns (r': Points.Ge)
    requires StandsFor(c, pt, point) && ShowsMultiple(c, r, n, point)
    ensures ShowsMultiple(c, r', n + 1, point)
  {
    r' := Points.AddPoints(r, pt, c, Times(c.group, n, point), point);
  }

  lemma LastBit(scalar: seq<nat>, c: nat, total: nat)
    requires Five(scalar) && Processed(scalar, 0, 1, c, total)
    ensures c == total
  {
    assert Unfold(true);
  }

  lemma HalfPower(flag: nat, k: nat)
    requires flag == Power(2, k)
    ensures if k == 0 then flag / 2 == 0 else flag / 2 == Power(2, k - 1) > 0 && flag == 2 * (flag / 2)
  {
  }

  lemma PointItself<G(!new)>(c: Edwards.Curve<G>, pt: Points.Ge, point: G)
    requires StandsFor(c, pt, point)
    ensures ShowsMultiple(c, pt, 1, point) && Times(c.group, 1, point) == point
  {
    Law(c.group, point, point, point);
  }

  /** Double-and-add from the first set bit on. */
  method DoubleAdd<G(!new)>(pt: Points.Ge, scalar: seq<nat>, topLimb: nat, topFlag: nat, ghost c: Edwards.Curve<G>, ghost point: G, ghost bit: nat, ghost total: nat)
    returns (r: Points.Ge)
    requires StandsFor(c, pt, point) && Five(scalar) && topLimb < 5 && topFlag == Power(2, bit)
    requires Processed(scalar, topLimb, 2 * topFlag, 1, total)
    ensures ShowsMultiple(c, r, total, point)
  {
    r := pt;
    var limb: nat, flag: nat := topLimb, topFlag;
    ghost var n: nat, k: nat := 1, bit;
    PointItself(c, pt, point);
    PowersOf2(32, 56);
    while true
      invariant limb < 5 && flag == Power(2, k) && Processed(scalar, limb, 2 * flag, n, total) && ShowsMultiple(c, r, n, point)
      decreases limb, flag
    {
      r, n := ProcessBit(pt, scalar, limb, flag, r, c, point, n, total);
      HalfPower(flag, k);
      flag := flag / 2;
      if flag == 0 {
        if limb == 0 {
          LastBit(scalar, n, total);
          break;
        }
        LimbStep(scalar, limb, n, total);
        limb, flag, k := limb - 1, TOP_BIT, 55;
      } else {
        k := k - 1;
      }
    }
  }

  /** The first set bit of a nonzero limb. */
  method FirstBit(x: nat) returns (flag: nat, ghost bit: nat)
    requires 0 < x < TWO56
    ensures flag == Power(2, bit) && flag <= x < 2 * flag
  {
    PowersOf2(32, 56);
    flag, bit := TOP_BIT, 55;
    while x / flag % 2 == 0
      invariant flag == Power(2, bit) && x < 2 * flag
      decreases flag
    {
      BitClear(x, flag);
      flag := flag / 2;
      bit := bit - 1;
    }
    BitSet(x, flag);
  }

  lemma BitClear(x: nat, flag: nat)
    requires 0 < x < 2 * flag && x / flag % 2 == 0
    ensures x < flag && flag > 1
  {
    if x >= flag {
      DivModUnique(x, flag, 1, x - flag);
    }
  }

  lemma BitSet(x: nat, flag: nat)
    requires flag > 0 && x / flag % 2 == 1
    ensures x >= flag
  {
    if x < flag {
      DivModUnique(x, flag, 0, x);
    }
  }

  lemma StartProcessed(scalar: seq<nat>, limb: nat, flag: nat)
    requires Scalar(scalar) && limb < 5 && flag <= scalar[limb] < 2 * flag
    ensures Processed(scalar, limb, 2 * flag, 1, LimbPrefix(scalar, limb + 1) + Unit(limb) * (2 * flag))
  {
    DivModUnique(scalar[limb], 2 * flag, 0, scalar[limb]);
  }

  /** What `Final` makes of the surviving scalar `s` and its point. */
  function FinalResult<G>(g: Group<G>, s: nat, p: G): Option<G> {
    FinalFrom(g, s, s % TWO224, NextPower(s % TWO224), p)
  }

  /** `v` is what the low four limbs of `s` hold, and `h` the power of two above it. */
  function FinalFrom<G>(g: Group<G>, s: nat, v: nat, h: nat, p: G): Option<G> {
    if s <= 1 then Some(Times(g, s, p)) else if v == 0 then None else Some(Times(g, v + h, p))
  }

  lemma LowFourLimbs(scalar: seq<nat>)
    requires Scalar(scalar)
    ensures LimbPrefix(scalar, 4) == Value(scalar) % TWO224
  {
    LowLimbsValueAt4(scalar);
    DivModUnique(Value(scalar), TWO224, scalar[4], Value(scalar) - scalar[4] * TWO224);
  }

  lemma LowLimbsValueAt4(s: seq<nat>)
    requires Scalar(s)
    ensures LimbPrefix(s, 4) == s[0] + s[1] * TWO56 + s[2] * TWO112 + s[3] * TWO168
  {
    assert Unit(1) == TWO56 && Unit(2) == TWO112 && Unit(3) == TWO168;
    assert LimbPrefix(s, 1) == s[0];
    assert LimbPrefix(s, 2) == s[0] + TWO56 * s[1];
    assert LimbPrefix(s, 3) == s[0] + TWO56 * s[1] + TWO112 * s[2];
  }

  /** There is a result exactly if there is a group element, and its limbs stand for that. */
  ghost predicate Shows<G>(c: Edwards.Curve<G>, r: Option<Points.Ge>, x: Option<G>) {
    ((r.Some? <==> x.Some?) && (r.Some? ==> Points.RepFull(c, r.value, x.value))) == true
  }

  lemma FinalOfOne<G(!new)>(c: Edwards.Curve<G>, pt: Points.Ge, point: G)
    requires StandsFor(c, pt, point)
    ensures Shows(c, Some(pt), FinalResult(c.group, 1, point))
  {
    PointItself(c, pt, point);
  }

  lemma FinalOfZero<G(!new)>(c: Edwards.Curve<G>, neutral: Points.Ge, point: G)
    requires Points.RepFull(c, neutral, c.group.zero)
    ensures Shows(c, Some(neutral), FinalResult(c.group, 0, point))
  {
  }

  lemma FinalOfOthers<G(!new)>(c: Edwards.Curve<G>, r: Option<Points.Ge>, scalar: seq<nat>, point: G)
    requires Five(scalar) && Value(scalar) > 1 && Raised(c, r, LimbPrefix(scalar, 4), point)
    ensures Shows(c, r, FinalResult(c.group, Value(scalar), point))
  {
    LowFourLimbs(scalar);
  }

  /** [scalar]point as the source computes it: exact for 0 and 1; otherwise, from the low four limbs
      `v`, it is [v + 2^k]point where 2^k is the power of two above `v`, and there is no result
      when those limbs are all zero. */
  method Final<G(!new)>(pt: Points.Ge, scalar: seq<nat>, ghost c: Edwards.Curve<G>, ghost point: G) returns (r: Option<Points.Ge>)
    requires StandsFor(c, pt, point) && Five(scalar)
    ensures Shows(c, r, FinalResult(c.group, Value(scalar), point))
  {
    var one := IsOne(scalar);
    if one {
      FinalOfOne(c, pt, point);
      return Some(pt);
    }
    var zero := IsZero(scalar);
    if zero {
      var neutral := Points.Neutral(c);
      FinalOfZero(c, neutral, point);
      return Some(neutral);
    }
    r := Exponentiate(pt, scalar, c, point, LimbPrefix(scalar, 4));
    FinalOfOthers(c, r, scalar, point);
  }

  /** [v + 2^k]point, where 2^k is the power of two above `v`; nothing for `v == 0`. */
  ghost predicate Raised<G>(c: Edwards.Curve<G>, r: Option<Points.Ge>, v: nat, point: G) {
    Shows(c, r, if v == 0 then None else Some(Times(c.group, v + NextPower(v), point))) == true
  }

  lemma RaisedMultiple<G>(c: Edwards.Curve<G>, q: Points.Ge, v: nat, point: G)
    requires v > 0 && ShowsMultiple(c, q, v + NextPower(v), point)
    ensures Raised(c, Some(q), v, point)
  {
  }

  method Exponentiate<G(!new)>(pt: Points.Ge, scalar: seq<nat>, ghost c: Edwards.Curve<G>, ghost point: G, ghost v: nat) returns (r: Option<Points.Ge>)
    requires StandsFor(c, pt, point) && Five(scalar) && v == LimbPrefix(scalar, 4)
    ensures Raised(c, r, v, point)
  {
    var limb := TopLimb(scalar);
    if limb.None? {
      return None;
    }
    var q := FromTopLimb(pt, scalar, limb.value, c, point, v);
    RaisedMultiple(c, q, v, point);
    r := Some(q);
  }

  /** The highest of the low four limbs that is not zero. */
  method TopLimb(scalar: seq<nat>) returns (r: Option<nat>)
    requires Five(scalar)
    ensures r.None? ==> LimbPrefix(scalar, 4) == 0
    ensures r.Some? ==> r.value < 4 && scalar[r.value] > 0 && 0 < LimbPrefix(scalar, 4) == LimbPrefix(scalar, r.value + 1)
  {
    var limb: nat := 3;
    while scalar[limb] == 0
      invariant limb < 4 && LimbPrefix(scalar, 4) == LimbPrefix(scalar, limb + 1)
      decreases limb
    {
      if limb == 0 {
        return None;
      }
      limb := limb - 1;
    }
    PrefixPositive(scalar, limb);
    return Some(limb);
  }

  method FromTopLimb<G(!new)>(pt: Points.Ge, scalar: seq<nat>, limb: nat, ghost c: Edwards.Curve<G>, ghost point: G, ghost v: nat) returns (r: Points.Ge)
    requires StandsFor(c, pt, point) && Five(scalar) && limb < 4 && scalar[limb] > 0 && v == LimbPrefix(scalar, limb + 1)
    ensures ShowsMultiple(c, r, v + NextPower(v), point)
  {
    var flag, bit := FirstBit(scalar[limb]);
    ghost var total := StartTotal(scalar, limb, flag, bit);
    r := DoubleAdd(pt, scalar, limb, flag, c, point, bit, total);
  }

  lemma StartTotal(scalar: seq<nat>, limb: nat, flag: nat, bit: nat) returns (total: nat)
    requires Five(scalar) && limb < 4 && flag == Power(2, bit) && flag <= scalar[limb] < 2 * flag
    ensures Processed(scalar, limb, 2 * flag, 1, total) && total == LimbPrefix(scalar, limb + 1) + NextPower(LimbPrefix(scalar, limb + 1))
  {
    TopBit(scalar, limb, bit + 1);
    StartProcessed(scalar, limb, flag);
    total := LimbPrefix(scalar, limb + 1) + Unit(limb) * (2 * flag);
  }

  lemma PrefixPositive(scalar: seq<nat>, limb: nat)
    requires |scalar| == 5 && limb < 5 && scalar[limb] > 0
    ensures LimbPrefix(scalar, limb + 1) > 0
  {
    MulBound(Unit(limb), 1, Unit(limb), scalar[limb]);
  }

  // ---- when the result is the multiple asked for ----

  lemma SameShift<G(!new)>(g: Group<G>, v: nat, m: nat, n: nat, p: G)
    requires Abelian(g)
    ensures Times(g, v + m, p) == Times(g, v + n, p) <==> Times(g, m, p) == Times(g, n, p)
  {
    var a, b, c := Times(g, v, p), Times(g, m, p), Times(g, n, p);
    TimesAdd(g, v, m, p);
    TimesAdd(g, v, n, p);
    Law(g, a, b, c);
    if g.add(a, b) == g.add(a, c) {
      Cancel(g, b, c, a);
    }
  }

  /** The power of two that is added must replace the limb that is dropped. */
  lemma ExactResult<G(!new)>(g: Group<G>, s: nat, v: nat, h: nat, dropped: nat, p: G)
    requires Abelian(g) && s == v + dropped
    ensures FinalFrom(g, s, v, h, p) == Some(Times(g, s, p)) <==> s <= 1 || (v != 0 && Times(g, h, p) == Times(g, dropped, p))
  {
    SameShift(g, v, h, dropped, p);
  }

  /** `p` has order `o`. */
  ghost predicate Order<G(!new)>(g: Group<G>, p: G, o: nat) {
    o > 0 && forall u {:trigger Unfold(u)} :: Unfold(u) ==> forall k: nat :: Times(g, k, p) == g.zero <==> k % o == 0
  }

  lemma SameMultiple<G(!new)>(g: Group<G>, p: G, o: nat, m: nat, n: nat)
    requires Abelian(g) && Order(g, p, o) && m <= n
    ensures Times(g, m, p) == Times(g, n, p) <==> (n - m) % o == 0
  {
    assert Unfold(true);
    SameShift(g, m, 0, n - m, p);
  }

  /** How far the last step is off: from the scalar it was given to the one it multiplies by. */
  function Excess(s: nat): int {
    s % TWO224 + NextPower(s % TWO224) - s
  }

  /** For a point of finite order, exactly when the last step returns the multiple asked for. */
  lemma ExactForOrder<G(!new)>(g: Group<G>, s: nat, p: G, o: nat)
    requires Abelian(g) && Order(g, p, o)
    ensures FinalResult(g, s, p) == Some(Times(g, s, p)) <==> s <= 1 || (s % TWO224 != 0 && Excess(s) % o == 0)
  {
    OrderFrom(g, s, s % TWO224, NextPower(s % TWO224), p, o, Excess(s));
  }

  lemma OrderFrom<G(!new)>(g: Group<G>, s: nat, v: nat, h: nat, p: G, o: nat, excess: int)
    requires Abelian(g) && Order(g, p, o) && excess == v + h - s
    ensures FinalFrom(g, s, v, h, p) == Some(Times(g, s, p)) <==> s <= 1 || (v != 0 && excess % o == 0)
  {
    MultiplesDiffer(g, p, o, s, v + h);
  }

  lemma MultiplesDiffer<G(!new)>(g: Group<G>, p: G, o: nat, s: nat, a: nat)
    requires Abelian(g) && Order(g, p, o)
    ensures Times(g, a, p) == Times(g, s, p) <==> (a - s) % o == 0
  {
    if a <= s {
      SameMultiple(g, p, o, a, s);
      NegatedMultiple(s - a, o);
    } else {
      SameMultiple(g, p, o, s, a);
    }
  }

  lemma NegatedMultiple(a: int, o: nat)
    requires o > 0
    ensures (0 - a) % o == 0 <==> a % o == 0
  {
    if a % o == 0 {
      MultipleNegated(a, a / o, o);
    }
    if (0 - a) % o == 0 {
      MultipleNegated(0 - a, (0 - a) / o, o);
    }
  }

  lemma MultipleNegated(a: int, q: int, o: nat)
    requires o > 0 && a == o * q
    ensures (0 - a) % o == 0
  {
    assert 0 - a == (0 - q) * o;
    DivModUnique(0 - a, o, 0 - q, 0);
  }

  /** No positive multiple of `p` below the bound is zero. */
  ghost predicate NoSmallMultiple<G(!new)>(g: Group<G>, p: G, bound: nat) {
    forall u {:trigger Unfold(u)} :: Unfold(u) ==> forall k: nat | 0 < k < bound :: Times(g, k, p) != g.zero
  }

  lemma SmallDistinct<G(!new)>(g: Group<G>, p: G, bound: nat, m: nat, n: nat)
    requires Abelian(g) && NoSmallMultiple(g, p, bound) && m < bound && n < bound
    ensures Times(g, m, p) == Times(g, n, p) <==> m == n
  {
    assert Unfold(true);
    if m < n {
      SameShift(g, m, 0, n - m, p);
    } else if n < m {
      SameShift(g, n, 0, m - n, p);
    }
  }

  /** The power of two above a number of at most `n` bits, and when it is the largest one possible. */
  lemma {:induction false} NextPowerBelow(v: nat, n: nat)
    requires v < Power(2, n)
    ensures NextPower(v) <= Power(2, n) && (NextPower(v) == Power(2, n) <==> n == 0 || v >= Power(2, n - 1))
  {
    if v > 0 {
      NextPowerBelow(v / 2, n - 1);
    }
  }

  const TWO223: nat := TWO224 / 2

  lemma NextPowerOfLow(v: nat, n: nat)
    requires v < TWO224 && n == 224
    ensures NextPower(v) <= TWO224 && (NextPower(v) == TWO224 <==> v >= TWO223)
  {
    UnitPower(4);
    NextPowerBelow(v, n);
  }

  lemma SplitAt224(s: nat, t: nat, v: nat, h: nat)
    requires s == t * TWO224 + v && v < TWO224 && 0 < h <= TWO224 && (h == TWO224 <==> v >= TWO223)
    ensures v != 0 && h == s - v <==> 3 * TWO223 <= s < 2 * TWO224
  {
  }

  /** For a point without small multiples that vanish, only 0, 1 and the scalars from 3 * 2^223 to 2^225 come out right. */
  lemma ExactForLargeOrder<G(!new)>(g: Group<G>, s: nat, p: G, bound: nat)
    requires Abelian(g) && NoSmallMultiple(g, p, bound) && s < bound && TWO224 < bound
    ensures FinalResult(g, s, p) == Some(Times(g, s, p)) <==> s <= 1 || 3 * TWO223 <= s < 2 * TWO224
  {
    var t, v := s / TWO224, s % TWO224;
    var h := NextPower(v);
    NextPowerOfLow(v, 224);
    SplitAt224(s, t, v, h);
    LargeFrom(g, s, v, h, p, bound);
  }

  lemma LargeFrom<G(!new)>(g: Group<G>, s: nat, v: nat, h: nat, p: G, bound: nat)
    requires Abelian(g) && NoSmallMultiple(g, p, bound) && v <= s < bound && h < bound
    ensures FinalFrom(g, s, v, h, p) == Some(Times(g, s, p)) <==> s <= 1 || (v != 0 && h == s - v)
  {
    ExactResult(g, s, v, h, s - v, p);
    SmallDistinct(g, p, bound, h, s - v);
  }

  function Integers(): Group<int> {
    Group(0, (a: int, b: int) => a + b, (a: int) => -a)
  }

  /** Twice a generator comes out as six times it. */
  lemma FinalOvershoots()
    ensures Abelian(Integers()) && FinalResult(Integers(), 2, 1) == Some(6) && Times(Integers(), 2, 1) == 2
  {
    var g := Integers();
    assert NextPower(2) == 4;
    assert Times(g, 2, 1) == 2 && Times(g, 4, 1) == 4 && Times(g, 6, 1) == 6;
  }
}
