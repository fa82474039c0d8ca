/** Bos-Coster multi-scalar multiplication of curve points. */
module BosCoster {
  import opened Basics
  import opened Words
  import opened Modm
  import opened ModmBatch
  import opened HeapOrder
  import opened Group
  import opened BatchHeap
  import opened FinalStep
  import Edwards
  import Points

  // ---- the quantities every step keeps ----

  /** Subtracting one scalar from another and adding the points the other way keeps the sum. */
  lemma CombineKeepsSum<G(!new)>(g: Group<G>, s: seq<nat>, p: seq<G>, s': seq<nat>, p': seq<G>, n: nat, a: nat, b: nat)
    requires Abelian(g) && n <= |s| == |s'| && n <= |p| == |p'| && a < n && b < n && a != b && s[a] >= s[b]
    requires s' == s[a := s[a] - s[b]] && p' == p[b := g.add(p[b], p[a])]
    ensures LinComb(g, s', p', n) == LinComb(g, s, p, n)
  {
    var moved := Times(g, s[b], p[a]);
    TimesAdd(g, s[a] - s[b], s[b], p[a]);
    var rest, whole := Times(g, s[a] - s[b], p[a]), Times(g, s[a], p[a]);
    Law(g, rest, moved, g.neg(moved));
    Law(g, moved, moved, moved);
    Law(g, rest, rest, rest);
    LinCombUpdate(g, s, p, s', p, n, a, g.neg(moved));
    TimesSum(g, s[b], p[b], p[a]);
    LinCombUpdate(g, s', p, s', p', n, b, moved);
    var sum := LinComb(g, s, p, n);
    Law(g, sum, g.neg(moved), moved);
    Law(g, moved, moved, moved);
    Law(g, sum, sum, sum);
  }

  /** Sums that agree on the first `n` entries agree further on if the entries do. */
  lemma {:induction false} TailKeepsSum<G>(g: Group<G>, s: seq<nat>, p: seq<G>, s': seq<nat>, p': seq<G>, n: nat, m: nat)
    requires n <= m && m <= |s| && m <= |s'| && m <= |p| && m <= |p'|
    requires LinComb(g, s, p, n) == LinComb(g, s', p', n)
    requires forall k | n <= k < m :: s[k] == s'[k] && p[k] == p'[k]
    ensures LinComb(g, s, p, m) == LinComb(g, s', p', m)
  {
    if n < m {
      TailKeepsSum(g, s, p, s', p', n, m - 1);
    }
  }

  /** `d` divides each of the first `n` numbers. */
  ghost predicate Divides(d: nat, s: seq<nat>, n: nat)
    requires d > 0 && n <= |s|
  {
    forall k | 0 <= k < n :: s[k] % d == 0
  }

  lemma DivisibleSum(a: nat, b: nat, d: nat)
    requires d > 0 && a >= b && b % d == 0
    ensures a % d == 0 <==> (a - b) % d == 0
  {
    var q, r := b / d, (a - b) % d;
    assert b == d * q;
    assert a == ((a - b) / d + q) * d + r by {
      assert a - b == d * ((a - b) / d) + r;
      assert ((a - b) / d + q) * d == d * ((a - b) / d) + d * q;
    }
    DivModUnique(a, d, (a - b) / d + q, r);
  }

  lemma CombineKeepsDivisors(d: nat, s: seq<nat>, s': seq<nat>, n: nat, a: nat, b: nat)
    requires d > 0 && n <= |s| && a < n && b < n && a != b && s[a] >= s[b] && s' == s[a := s[a] - s[b]]
    ensures Divides(d, s, n) <==> Divides(d, s', n)
  {
    if Divides(d, s, n) || Divides(d, s', n) {
      assert s'[b] == s[b] && s'[b] % d == 0;
      DivisibleSum(s[a], s[b], d);
      assert s'[a] % d == 0 <==> s[a] % d == 0;
      assert s[a] % d == 0 && s'[a] % d == 0;
      forall k | 0 <= k < n ensures s[k] % d == 0 && s'[k] % d == 0 {
        if k != a { assert s[k] == s'[k]; }
      }
    }
  }

  function Sum(s: seq<nat>, n: nat): nat
    requires n <= |s|
  {
    if n == 0 then 0 else Sum(s, n - 1) + s[n - 1]
  }

  lemma {:induction false} SumUpdate(s: seq<nat>, n: nat, a: nat, x: nat)
    requires a < n <= |s|
    ensures Sum(s[a := x], n) == Sum(s, n) - s[a] + x
  {
    if a == n - 1 {
      SumSame(s, s[a := x], a);
    } else {
      SumUpdate(s, n - 1, a, x);
    }
  }

  lemma {:induction false} SumSame(s: seq<nat>, t: seq<nat>, n: nat)
    requires n <= |s| && n <= |t| && forall k | 0 <= k < n :: s[k] == t[k]
    ensures Sum(s, n) == Sum(t, n)
  {
    if n > 0 {
      SumSame(s, t, n - 1);
    }
  }

  /** With a single nonzero scalar left, the sum is its term. */
  lemma {:induction false} OnlyTerm<G(!new)>(g: Group<G>, s: seq<nat>, p: seq<G>, n: nat, a: nat)
    requires Abelian(g) && n <= |s| && n <= |p| && a < |s| && a < |p|
    requires forall k | 0 <= k < n && k != a :: s[k] == 0
    ensures LinComb(g, s, p, n) == if a < n then Times(g, s[a], p[a]) else g.zero
  {
    if n > 0 {
      OnlyTerm(g, s, p, n - 1, a);
      var t := LinComb(g, s, p, n - 1);
      Law(g, t, t, t);
      Law(g, Times(g, s[n - 1], p[n - 1]), t, t);
    }
  }

  // ---- the run ----

  /** `((count + 1) / 2) | 1`: how many scalars the heap starts with. */
  function Initial(count: nat): (n: nat)
    ensures n % 2 == 1 && (count >= 5 && count % 2 == 1 ==> 3 <= n <= count)
  {
    var m := (count + 1) / 2;
    if m % 2 == 0 then m + 1 else m
  }

  /** With the base point, `n` keys and `n` R halves: the base point, all the keys, and for odd `n` one of the R halves. */
  lemma InitialOf(n: nat)
    ensures Initial(2 * n + 1) == if n % 2 == 0 then n + 1 else n + 2
  {
  }

  /** The limbs of every point stand for its group element. */
  ghost predicate Shown<G>(h: BatchHeap<G>, c: Edwards.Curve<G>)
    reads h, h.points
  {
    (h.points.Length == |h.pts| && forall k | 0 <= k < |h.pts| :: Points.RepFull(c, h.points[k], h.pts[k])) == true
  }

  ghost predicate CurveGroup<G(!new)>(c: Edwards.Curve<G>, g: Group<G>) {
    (Edwards.EdwardsCurve(c) && g == c.group && Abelian(g)) == true
  }

  /** The state has the same sum over the heap's entries, the same common divisors and the same
      remaining entries as at the start. */
  ghost predicate Kept<G(!new)>(h: BatchHeap<G>, g: Group<G>, vals: seq<nat>, pts: seq<G>)
    requires h.Valid()
    reads h, h.scalars, h.heap
  {
    |vals| == |pts| == h.heap.Length && Same(g, h.Vals(), h.pts, vals, pts, h.size)
  }

  ghost predicate Same<G(!new)>(g: Group<G>, s: seq<nat>, p: seq<G>, vals: seq<nat>, pts: seq<G>, n: nat) {
    n <= |s| == |p| == |vals| == |pts| && forall u {:trigger Unfold(u)} :: Unfold(u) ==>
      && LinComb(g, s, p, n) == LinComb(g, vals, pts, n)
      && (forall d: nat | d > 0 :: Divides(d, s, n) <==> Divides(d, vals, n))
      && (forall k | n <= k < |s| :: s[k] == vals[k] && p[k] == pts[k])
      && (forall b: G :: Spanned(g, b, pts) ==> Spanned(g, b, p))
  }

  ghost predicate IsMultiple<G>(g: Group<G>, b: G, q: G) {
    exists k: int :: q == Times(g, k, b)
  }

  /** All the points are multiples of `b`. */
  ghost predicate Spanned<G>(g: Group<G>, b: G, p: seq<G>) {
    forall k | 0 <= k < |p| :: IsMultiple(g, b, p[k])
  }

  lemma SpannedStep<G(!new)>(g: Group<G>, b: G, p: seq<G>, i: nat, j: nat)
    requires Abelian(g) && Spanned(g, b, p) && i < |p| && j < |p|
    ensures Spanned(g, b, p[i := g.add(p[i], p[j])])
  {
    var m: int :| p[i] == Times(g, m, b);
    var n: int :| p[j] == Times(g, n, b);
    TimesAdd(g, m, n, b);
  }

  lemma SpanKept<G(!new)>(g: Group<G>, pts: seq<G>, p: seq<G>, i: nat, j: nat)
    requires Abelian(g) && i < |p| && j < |p| && forall b: G :: Spanned(g, b, pts) ==> Spanned(g, b, p)
    ensures forall b: G :: Spanned(g, b, pts) ==> Spanned(g, b, p[i := g.add(p[i], p[j])])
  {
    forall b: G | Spanned(g, b, pts) ensures Spanned(g, b, p[i := g.add(p[i], p[j])]) {
      SpannedStep(g, b, p, i, j);
    }
  }

  const TWO127: nat := 0x8000_0000_0000_0000_0000_0000_0000_0000

  ghost predicate Running<G>(h: BatchHeap<G>, count: nat, extended: bool, limbsize: nat)
    reads h, h.scalars, h.heap
  {
    (&& h.Valid() && count <= h.heap.Length && count % 2 == 1 && count >= 5
     && h.size == (if extended then count else Initial(count))
     && Heap(h.Keys(h.size))
     && limbsize < 5 && h.Window(h.size, limbsize)
     && (!extended ==> limbsize >= 2 && (limbsize == 2 ==> h.Keys(h.size)[0] >= TWO127))) == true
  }

  /** The values of the scalars are those listed. */
  ghost predicate HasVals<G>(h: BatchHeap<G>, s: seq<nat>)
    reads h.scalars
  {
    (AllScalars(h.scalars[..]) && h.Vals() == s) == true
  }

  /** Replaces the largest scalar by its difference with the second largest. */
  method SubtractScalars<G(!new)>(h: BatchHeap<G>, max1: nat, max2: nat, limbsize: nat, ghost s: seq<nat>)
    requires h.Valid() && h.size > 0 && limbsize < 5 && Heap(h.Keys(h.size)) && h.Window(h.size, limbsize)
    requires s == h.Vals() && max1 < h.size && max2 < h.size && max1 != max2 && max1 == h.heap[0] && s[max2] <= s[max1]
    modifies h.scalars
    ensures h.Valid() && DownHole(h.Keys(h.size), 0) && h.Window(h.size, limbsize) && HasVals(h, s[max1 := s[max1] - s[max2]])
  {
    ghost var ks := h.Keys(h.size);
    var d := Sub(h.scalars[max1], h.scalars[max2], limbsize);
    h.scalars[max1] := d;
    assert h.Vals() == s[max1 := s[max1] - s[max2]];
    RootKey(s, h.heap[..h.size], h.pos, s[max1] - s[max2]);
    RootChanged(ks, s[max1] - s[max2]);
  }

  /** Adds the point at `max1` to the one at `max2`. */
  method AddToPoint<G(!new)>(h: BatchHeap<G>, max1: nat, max2: nat, ghost c: Edwards.Curve<G>)
    requires Edwards.EdwardsCurve(c) && Shown(h, c) && max1 < h.points.Length && max2 < h.points.Length
    modifies h`pts, h.points
    ensures Shown(h, c) && h.pts == old(h.pts[max2 := c.group.add(h.pts[max2], h.pts[max1])])
  {
    var sum := Points.AddPoints(h.points[max2], h.points[max1], c, h.pts[max2], h.pts[max1]);
    h.points[max2] := sum;
    h.pts := h.pts[max2 := c.group.add(h.pts[max2], h.pts[max1])];
  }

  /** Subtracts the second largest scalar from the largest, and adds the largest one's point to the
      other's. */
  method Combine<G(!new)>(h: BatchHeap<G>, max1: nat, max2: nat, limbsize: nat, ghost c: Edwards.Curve<G>, ghost g: Group<G>, ghost s: seq<nat>, ghost p: seq<G>)
    requires CurveGroup(c, g) && Shown(h, c) && h.Valid() && h.size >= 3 && h.size % 2 == 1 && limbsize < 5
    requires Heap(h.Keys(h.size)) && h.Window(h.size, limbsize)
    requires s == h.Vals() && p == h.pts && max1 < h.size && max2 < h.size && max1 != max2 && max1 == h.heap[0] && s[max2] <= s[max1]
    modifies h, h.points, h.scalars, h.heap
    ensures Shown(h, c) && h.Valid() && Heap(h.Keys(h.size)) && h.Window(h.size, limbsize) && h.size == old(h.size)
    ensures HasVals(h, s[max1 := s[max1] - s[max2]]) && h.pts == p[max2 := g.add(p[max2], p[max1])]
  {
    SubtractScalars(h, max1, max2, limbsize, s);
    AddToPoint(h, max1, max2, c);
    FrontOfOdd(h.Keys(h.size));
    h.UpdatedRoot(limbsize);
    FrontOfOdd(h.Keys(h.size));
  }

  /** Changing the scalar of the root's index changes the root's key only. */
  lemma RootKey(vals: seq<nat>, heap: seq<nat>, pos: seq<nat>, x: nat)
    requires Permutation(heap, pos) && |heap| > 0 && |heap| <= |vals|
    ensures KeysOf(vals[heap[0] := x], heap) == KeysOf(vals, heap)[0 := x]
  {
    forall i | 0 < i < |heap| ensures heap[i] != heap[0] {
      assert pos[heap[i]] == i;
    }
  }

  /** If limb `l` of the largest scalar is zero, so is that limb of every smaller one. */
  lemma LimbExhausted(s: seq<nat>, t: seq<nat>, l: nat)
    requires Scalar(s) && Scalar(t) && l < 5 && Fits(s, l) && Fits(t, l) && Value(s) <= Value(t) && t[l] == 0
    ensures s[l] == 0 && (l == 0 ==> Value(t) == 0)
  {
    FitsValue(s, l);
    FitsValue(t, l);
    LowBound(t, l);
    if s[l] > 0 {
      MulBound(Unit(l), 1, Unit(l), s[l]);
    }
  }

  lemma WidthOf128(s: seq<nat>)
    requires Scalar(s)
    ensures Value(s) < TWO128 ==> Fits(s, 2)
    ensures Fits(s, 2) && Value(s) >= TWO127 ==> s[2] != 0
  {
  }

  /** The limb window shrinks by one limb when the largest scalar has exhausted it. */
  lemma Shrink<G>(h: BatchHeap<G>, max1: nat, limbsize: nat)
    requires h.Valid() && max1 < h.size && limbsize < 5 && h.Window(h.size, limbsize)
    requires forall k | 0 <= k < h.size :: h.Vals()[k] <= h.Vals()[max1]
    requires h.Vals()[max1] > 0 && h.scalars[max1][limbsize] == 0
    ensures limbsize > 0 && h.Window(h.size, limbsize - 1)
  {
    LimbExhausted(h.scalars[max1], h.scalars[max1], limbsize);
    forall k {:trigger h.scalars[k]} | 0 <= k < h.size ensures Fits(h.scalars[k], limbsize - 1) {
      LimbExhausted(h.scalars[k], h.scalars[max1], limbsize);
    }
  }

  lemma DivisorsKept<G(!new)>(h: BatchHeap<G>, before: seq<nat>, vals: seq<nat>, n: nat, a: nat, b: nat)
    requires h.Valid() && n == h.size && |before| == h.heap.Length && n <= |vals|
    requires a < n && b < n && a != b && before[a] >= before[b] && h.Vals() == before[a := before[a] - before[b]]
    requires forall d: nat | d > 0 :: Divides(d, before, n) <==> Divides(d, vals, n)
    ensures forall d: nat | d > 0 :: Divides(d, h.Vals(), n) <==> Divides(d, vals, n)
  {
    forall d: nat | d > 0 ensures Divides(d, h.Vals(), n) <==> Divides(d, vals, n) {
      CombineKeepsDivisors(d, before, h.Vals(), n, a, b);
    }
  }

  /** Adds the remaining scalars, which have at most 128 bits, to the heap. */
  method ExtendHeap<G(!new)>(h: BatchHeap<G>, count: nat, limbsize: nat, ghost g: Group<G>, ghost vals: seq<nat>, ghost pts: seq<G>)
    requires h.Valid() && Heap(h.Keys(h.size)) && h.size <= count <= h.heap.Length
    requires 2 <= limbsize < 5 && h.Window(h.size, limbsize) && Kept(h, g, vals, pts)
    requires forall k | h.size <= k < count :: vals[k] < TWO128
    modifies h, h.heap
    ensures h.Valid() && Heap(h.Keys(h.size)) && h.size == count && h.Window(h.size, limbsize) && Kept(h, g, vals, pts)
    ensures h.Vals() == old(h.Vals()) && h.pts == old(h.pts)
  {
    ghost var n, cur, p := h.size, h.Vals(), h.pts;
    h.Extend(count);
    assert h.Vals() == cur && h.pts == p;
    SameExtended(g, cur, p, vals, pts, n, count);
    forall k {:trigger h.scalars[k]} | 0 <= k < count ensures Fits(h.scalars[k], limbsize) {
      WidthOf128(h.scalars[k]);
    }
  }

  lemma SameExtended<G(!new)>(g: Group<G>, s: seq<nat>, p: seq<G>, vals: seq<nat>, pts: seq<G>, n: nat, m: nat)
    requires Same(g, s, p, vals, pts, n) && n <= m <= |s|
    ensures Same(g, s, p, vals, pts, m) && forall k | n <= k < |s| :: s[k] == vals[k]
  {
    assert Unfold(true);
    TailKeepsSum(g, s, p, vals, pts, n, m);
    forall d: nat | d > 0 ensures Divides(d, s, m) <==> Divides(d, vals, m) {
      TailKeepsDivisors(d, s, vals, n, m);
    }
  }

  lemma TailKeepsDivisors(d: nat, s: seq<nat>, t: seq<nat>, n: nat, m: nat)
    requires d > 0 && n <= m <= |s| && m <= |t| && (Divides(d, s, n) <==> Divides(d, t, n))
    requires forall k | n <= k < m :: s[k] == t[k]
    ensures Divides(d, s, m) <==> Divides(d, t, m)
  {
    assert Divides(d, s, m) ==> Divides(d, s, n);
    assert Divides(d, t, m) ==> Divides(d, t, n);
  }

  // ---- one iteration ----

  lemma RootAbove<G>(h: BatchHeap<G>, k: nat)
    requires h.Valid() && Heap(h.Keys(h.size)) && k < h.size
    ensures h.Keys(h.size)[0] >= h.Vals()[k]
  {
    RootIsMax(h.Keys(h.size), h.pos[k]);
  }

  /** Half of the largest scalar stays in the heap. */
  lemma HalfStays<G>(h: BatchHeap<G>, before: seq<nat>, a: nat, b: nat)
    requires h.Valid() && Heap(h.Keys(h.size)) && a < h.size && b < h.size && a != b
    requires |before| == h.heap.Length && before[b] <= before[a] && h.Vals() == before[a := before[a] - before[b]]
    ensures 2 * h.Keys(h.size)[0] >= before[a]
  {
    RootAbove(h, a);
    RootAbove(h, b);
  }

  /** One combination keeps what every step must keep, and makes the scalars' sum smaller. */
  method CombineKept<G(!new)>(h: BatchHeap<G>, max1: nat, max2: nat, limbsize: nat, ghost c: Edwards.Curve<G>, ghost g: Group<G>, ghost vals: seq<nat>, ghost pts: seq<G>)
    requires CurveGroup(c, g) && Shown(h, c) && h.Valid() && h.size >= 3 && h.size % 2 == 1 && limbsize < 5
    requires Heap(h.Keys(h.size)) && h.Window(h.size, limbsize) && Kept(h, g, vals, pts)
    requires max1 < h.size && max2 < h.size && max1 != max2 && max1 == h.heap[0] && h.Vals()[max2] <= h.Vals()[max1]
    modifies h, h.points, h.scalars, h.heap
    ensures Shown(h, c) && h.Valid() && Heap(h.Keys(h.size)) && h.Window(h.size, limbsize) && h.size == old(h.size) && Kept(h, g, vals, pts)
    ensures 2 * h.Keys(h.size)[0] >= old(h.Vals()[max1]) && Sum(h.Vals(), h.size) == old(Sum(h.Vals(), h.size) - h.Vals()[max2])
    ensures h.Vals()[max2] == old(h.Vals()[max2]) && h.Vals()[max1] == old(h.Vals()[max1]) - old(h.Vals()[max2])
  {
    ghost var s, p, n := h.Vals(), h.pts, h.size;
    Combine(h, max1, max2, limbsize, c, g, s, p);
    AfterCombine(h, g, s, p, max1, max2, vals, pts);
    SumLess(s, h.Vals(), n, max1, max2);
  }

  lemma AfterCombine<G(!new)>(h: BatchHeap<G>, g: Group<G>, s: seq<nat>, p: seq<G>, max1: nat, max2: nat, vals: seq<nat>, pts: seq<G>)
    requires Abelian(g) && h.Valid() && Heap(h.Keys(h.size)) && max1 < h.size && max2 < h.size && max1 != max2
    requires |s| == |p| == |vals| == |pts| == h.heap.Length && s[max2] <= s[max1] && Same(g, s, p, vals, pts, h.size)
    requires h.Vals() == s[max1 := s[max1] - s[max2]] && h.pts == p[max2 := g.add(p[max2], p[max1])]
    ensures Kept(h, g, vals, pts) && 2 * h.Keys(h.size)[0] >= s[max1]
  {
    assert Unfold(true);
    CombineKeepsSum(g, s, p, h.Vals(), h.pts, h.size, max1, max2);
    DivisorsKept(h, s, vals, h.size, max1, max2);
    SpanKept(g, pts, p, max2, max1);
    HalfStays(h, s, max1, max2);
  }

  lemma SumLess(s: seq<nat>, t: seq<nat>, n: nat, a: nat, b: nat)
    requires n <= |s| && a < n && b < n && s[a] >= s[b] && t == s[a := s[a] - s[b]]
    ensures Sum(t, n) == Sum(s, n) - s[b]
  {
    SumUpdate(s, n, a, s[a] - s[b]);
  }

  /** The heap is extended as soon as the largest scalar fits in 128 bits. */
  method MaybeExtend<G(!new)>(h: BatchHeap<G>, count: nat, extended: bool, limbsize: nat, top1: nat, top2: nat,
                              ghost g: Group<G>, ghost vals: seq<nat>, ghost pts: seq<G>)
    returns (max1: nat, max2: nat, now: bool)
    requires h.Valid() && Heap(h.Keys(h.size)) && 3 <= h.size <= count <= h.heap.Length
    requires limbsize < 5 && h.Window(h.size, limbsize) && Kept(h, g, vals, pts)
    requires !extended ==> limbsize >= 2 && forall k | h.size <= k < count :: vals[k] < TWO128
    requires top1 < h.size && top2 < h.size && top1 != top2 && top1 == h.heap[0]
    requires 0 < h.Vals()[top2] <= h.Vals()[top1]
    modifies h, h.heap
    ensures h.Valid() && Heap(h.Keys(h.size)) && h.Window(h.size, limbsize) && Kept(h, g, vals, pts)
    ensures h.Vals() == old(h.Vals()) && h.pts == old(h.pts) && h.size == (if now && !extended then count else old(h.size))
    ensures max1 < h.size && max2 < h.size && max1 != max2 && max1 == h.heap[0] && 0 < h.Vals()[max2] <= h.Vals()[max1]
    ensures extended ==> now
    ensures !now ==> h.Vals()[max1] >= TWO128 && max1 == top1 && max2 == top2
    ensures now && !extended ==> h.Vals()[top1] < TWO128
  {
    max1, max2, now := top1, top2, extended;
    if !extended {
      var fits := AtMost128(h.scalars[max1]);
      if fits {
        ExtendHeap(h, count, limbsize, g, vals, pts);
        max1, max2 := h.GetTop2(limbsize);
        now := true;
      }
    }
  }

  /** One iteration of the main loop, after the two largest scalars are known. */
  method Iterate<G(!new)>(h: BatchHeap<G>, count: nat, extended: bool, limbsize: nat, top1: nat, top2: nat,
                          ghost c: Edwards.Curve<G>, ghost g: Group<G>, ghost vals: seq<nat>, ghost pts: seq<G>)
    returns (now: bool, limbs: nat)
    requires CurveGroup(c, g) && Shown(h, c) && Running(h, count, extended, limbsize) && Kept(h, g, vals, pts)
    requires !extended ==> forall k | h.size <= k < count :: vals[k] < TWO128
    requires top1 < h.size && top2 < h.size && top1 != top2 && top1 == h.heap[0] && 0 < h.Vals()[top2]
    requires forall k | 0 <= k < h.size :: h.Vals()[k] <= h.Vals()[top1]
    modifies h, h.points, h.scalars, h.heap
    ensures Shown(h, c) && Running(h, count, now, limbs) && Kept(h, g, vals, pts)
    ensures extended ==> now
    ensures extended == now ==> Sum(h.Vals(), h.size) < old(Sum(h.Vals(), h.size))
    ensures now && !extended ==> old(h.Vals()[top1]) < TWO128
    ensures !now ==> h.Vals()[top2] > 0 && h.Vals()[top1] + h.Vals()[top2] >= TWO128
  {
    limbs := limbsize;
    if h.scalars[top1][limbsize] == 0 {
      h.Entry(0, h.size);
      WidthOf128(h.scalars[top1]);
      Shrink(h, top1, limbsize);
      limbs := limbsize - 1;
    }
    var max1, max2;
    max1, max2, now := MaybeExtend(h, count, extended, limbs, top1, top2, g, vals, pts);
    CombineKept(h, max1, max2, limbs, c, g, vals, pts);
  }

  lemma SurvivorDivides(vals: seq<nat>, n: nat, a: nat, d: nat)
    requires n <= |vals| && a < n && d > 0 && forall k | 0 <= k < n && k != a :: vals[k] == 0
    ensures Divides(d, vals, n) <==> vals[a] % d == 0
  {
    DivModUnique(0, d, 0, 0);
  }

  /** Whatever the points are multiples of, `q` is a multiple of too. */
  ghost predicate Spans<G(!new)>(g: Group<G>, pts: seq<G>, q: G) {
    forall b: G :: Spanned(g, b, pts) ==> IsMultiple(g, b, q)
  }

  /** When the second largest scalar is zero, the sum over the heap's entries is the survivor's term. */
  lemma Survivor<G(!new)>(h: BatchHeap<G>, g: Group<G>, vals: seq<nat>, pts: seq<G>, max1: nat)
    requires Abelian(g) && h.Valid() && Kept(h, g, vals, pts) && max1 < h.size
    requires forall k | 0 <= k < h.size && k != max1 :: h.Vals()[k] == 0
    ensures Times(g, h.Vals()[max1], h.pts[max1]) == LinComb(g, vals, pts, h.size)
    ensures IsGcd(h.Vals()[max1], vals, h.size) && Spans(g, pts, h.pts[max1])
  {
    assert Unfold(true);
    OnlyTerm(g, h.Vals(), h.pts, h.size, max1);
    forall d: nat | d > 0 ensures h.Vals()[max1] % d == 0 <==> Divides(d, vals, h.size) {
      SurvivorDivides(h.Vals(), h.size, max1, d);
    }
  }

  /** The loop's invariant. `moved` tells whether an iteration has happened, on scalars `a` and `b` last. */
  ghost predicate Looping<G(!new)>(h: BatchHeap<G>, g: Group<G>, count: nat, extended: bool, limbsize: nat, vals: seq<nat>, pts: seq<G>,
                                   moved: bool, a: nat, b: nat)
    reads h, h.scalars, h.heap
  {
    (&& Running(h, count, extended, limbsize) && Kept(h, g, vals, pts)
     && (moved ==> TwoNonZero(vals, Initial(count)))
     && (if extended then Extends(vals, Initial(count)) else if moved then Wide(h.Vals(), h.size, a, b) else h.Vals() == vals)) == true
  }

  /** The main loop: runs until a single scalar is left in the heap. */
  method Reduce<G(!new)>(h: BatchHeap<G>, count: nat, ghost c: Edwards.Curve<G>, ghost g: Group<G>, ghost vals: seq<nat>, ghost pts: seq<G>) returns (max1: nat, extended: bool)
    requires CurveGroup(c, g) && Shown(h, c) && Running(h, count, false, 4) && Kept(h, g, vals, pts)
    requires h.Vals() == vals && forall k | Initial(count) <= k < count :: vals[k] < TWO128
    modifies h, h.points, h.scalars, h.heap
    ensures Shown(h, c) && h.Valid() && h.size == (if extended then count else Initial(count)) && Kept(h, g, vals, pts) && max1 < h.size
    ensures forall k | 0 <= k < h.size && k != max1 :: h.Vals()[k] == 0
    ensures extended <==> Extends(vals, Initial(count))
  {
    var limbsize, max2, done := 4, 0, false;
    extended := false;
    ghost var moved, a, b := false, 0, 0;
    while true
      invariant Shown(h, c) && Looping(h, g, count, extended, limbsize, vals, pts, moved, a, b)
      decreases !extended, Sum(h.Vals(), h.size)
    {
      max1, max2, done := TopTwo(h, count, extended, limbsize, g, vals, pts, moved, a, b);
      if done {
        break;
      }
      extended, limbsize := NextState(h, count, extended, limbsize, max1, max2, c, g, vals, pts, moved, a, b);
      moved, a, b := true, max1, max2;
    }
  }

  /** The two largest scalars; the run is over when the second is zero. */
  method TopTwo<G(!new)>(h: BatchHeap<G>, count: nat, extended: bool, limbsize: nat, ghost g: Group<G>, ghost vals: seq<nat>, ghost pts: seq<G>,
                         ghost moved: bool, ghost a: nat, ghost b: nat) returns (max1: nat, max2: nat, done: bool)
    requires Looping(h, g, count, extended, limbsize, vals, pts, moved, a, b)
    ensures max1 < h.size && max2 < h.size && max1 != max2 && max1 == h.heap[0]
    ensures forall k | 0 <= k < h.size :: h.Vals()[k] <= h.Vals()[max1]
    ensures done ==> forall k | 0 <= k < h.size && k != max1 :: h.Vals()[k] == 0
    ensures done ==> (extended <==> Extends(vals, Initial(count)))
    ensures !done ==> h.Vals()[max2] > 0
  {
    max1, max2 := h.GetTop2(limbsize);
    done := IsZero(h.scalars[max2]);
    if done && !extended {
      NotExtended(h, g, vals, pts, max1, moved, a, b);
    }
  }

  method NextState<G(!new)>(h: BatchHeap<G>, count: nat, extended: bool, limbsize: nat, max1: nat, max2: nat,
                            ghost c: Edwards.Curve<G>, ghost g: Group<G>, ghost vals: seq<nat>, ghost pts: seq<G>, ghost moved: bool, ghost a: nat, ghost b: nat) returns (now: bool, limbs: nat)
    requires CurveGroup(c, g) && Shown(h, c) && Looping(h, g, count, extended, limbsize, vals, pts, moved, a, b)
    requires forall k | Initial(count) <= k < count :: vals[k] < TWO128
    requires max1 < h.size && max2 < h.size && max1 != max2 && max1 == h.heap[0] && h.Vals()[max2] > 0
    requires forall k | 0 <= k < h.size :: h.Vals()[k] <= h.Vals()[max1]
    modifies h, h.points, h.scalars, h.heap
    ensures Shown(h, c) && Looping(h, g, count, now, limbs, vals, pts, true, max1, max2)
    ensures extended ==> now
    ensures extended == now ==> Sum(h.Vals(), h.size) < old(Sum(h.Vals(), h.size))
  {
    if !extended {
      SmallDivisors(h, g, vals, pts, max1, max2, moved);
    }
    now, limbs := Iterate(h, count, extended, limbsize, max1, max2, c, g, vals, pts);
  }

  /** Before the heap is extended: a top scalar below 2^128 bounds the common divisors. */
  lemma SmallDivisors<G(!new)>(h: BatchHeap<G>, g: Group<G>, vals: seq<nat>, pts: seq<G>, max1: nat, max2: nat, moved: bool)
    requires h.Valid() && Kept(h, g, vals, pts) && max1 < h.size && max2 < h.size && max1 != max2 && 0 < h.Vals()[max2] <= h.Vals()[max1]
    requires if moved then TwoNonZero(vals, h.size) else h.Vals() == vals
    ensures TwoNonZero(vals, h.size) && (h.Vals()[max1] < TWO128 ==> Extends(vals, h.size))
  {
    assert Unfold(true);
    forall d: nat | d >= TWO128 && h.Vals()[max1] < TWO128 ensures !Divides(d, vals, h.size) {
      DivModUnique(h.Vals()[max2], d, 0, h.Vals()[max2]);
      assert !Divides(d, h.Vals(), h.size);
    }
  }

  /** A run that ends before the heap is extended had one nonzero scalar, or a large common divisor. */
  lemma NotExtended<G(!new)>(h: BatchHeap<G>, g: Group<G>, vals: seq<nat>, pts: seq<G>, max1: nat, moved: bool, a: nat, b: nat)
    requires h.Valid() && Kept(h, g, vals, pts) && max1 < h.size && forall k | 0 <= k < h.size && k != max1 :: h.Vals()[k] == 0
    requires if moved then Wide(h.Vals(), h.size, a, b) else h.Vals() == vals
    ensures !Extends(vals, h.size)
  {
    assert Unfold(true);
    if moved {
      var s := h.Vals()[b];
      SurvivorDivides(h.Vals(), h.size, max1, s);
      DivModUnique(s, s, 1, 0);
      assert Divides(s, vals, h.size);
    }
  }

  /** At least two of the first `n` scalars are not zero. */
  ghost predicate TwoNonZero(vals: seq<nat>, n: nat)
    requires n <= |vals|
  {
    exists i, j :: 0 <= i < n && 0 <= j < n && i != j && vals[i] > 0 && vals[j] > 0
  }

  /** Two of the first `n` scalars are not zero, and their common divisors are below 2^128. */
  ghost predicate Extends(vals: seq<nat>, n: nat)
    requires n <= |vals|
  {
    (TwoNonZero(vals, n) && forall d: nat | d >= TWO128 :: !Divides(d, vals, n)) == true
  }

  /** Scalar `b` is not zero, and with scalar `a` it makes more than 128 bits. */
  ghost predicate Wide(s: seq<nat>, n: nat, a: nat, b: nat) {
    n <= |s| && a < n && b < n && a != b && s[b] > 0 && s[a] + s[b] >= TWO128
  }

  // ---- the answer, in terms of the input ----

  /** `s` is the greatest common divisor of the first `n` scalars (0 if they are all zero). */
  ghost predicate IsGcd(s: nat, vals: seq<nat>, n: nat)
    requires n <= |vals|
  {
    forall d: nat | d > 0 :: s % d == 0 <==> Divides(d, vals, n)
  }

  /** The first `n` scalars have no common divisor but 1. */
  ghost predicate Coprime(vals: seq<nat>, n: nat)
    requires n <= |vals|
  {
    IsGcd(1, vals, n) == true
  }

  lemma GcdUnique(s: nat, t: nat, vals: seq<nat>, n: nat)
    requires n <= |vals| && IsGcd(s, vals, n) && IsGcd(t, vals, n)
    ensures s == t
  {
    GcdAtMost(s, t, vals, n);
    GcdAtMost(t, s, vals, n);
  }

  lemma GcdAtMost(s: nat, t: nat, vals: seq<nat>, n: nat)
    requires n <= |vals| && IsGcd(s, vals, n) && IsGcd(t, vals, n)
    ensures s == 0 ==> t == 0
    ensures t > 0 ==> s <= t
  {
    if s > 0 && t > 0 {
      DivModUnique(s, s, 1, 0);
      assert Divides(s, vals, n);
      if t < s { DivModUnique(t, s, 0, t); }
    } else if t > 0 {
      var d := t + 1;
      DivModUnique(0, d, 0, 0);
      assert Divides(d, vals, n);
      DivModUnique(t, d, 0, t);
    }
  }

  /** The heap is only extended when what is left is a positive number below 2^128. */
  lemma GcdOfExtended(s: nat, vals: seq<nat>, n: nat, count: nat)
    requires n <= count <= |vals| && Extends(vals, n) && IsGcd(s, vals, count)
    ensures 0 < s < TWO128
  {
    var d := if s == 0 then TWO128 else s;
    if s == 0 { DivModUnique(0, d, 0, 0); } else { DivModUnique(d, d, 1, 0); }
    assert Divides(d, vals, count);
    assert Divides(d, vals, n);
  }

  /** Among the multiples of `b`, only zero has small multiples that vanish, as in a group of large prime order. */
  ghost predicate TorsionFree<G(!new)>(g: Group<G>, b: G) {
    forall q: G | IsMultiple(g, b, q) && q != g.zero :: NoSmallMultiple(g, q, 2 * TWO224)
  }

  /** The points lie in a cyclic group of this kind. */
  ghost predicate LargeOrder<G(!new)>(g: Group<G>, pts: seq<G>) {
    exists b: G :: Spanned(g, b, pts) && TorsionFree(g, b)
  }

  lemma SurvivorOrder<G(!new)>(g: Group<G>, pts: seq<G>, q: G)
    requires LargeOrder(g, pts) && Spans(g, pts, q)
    ensures q == g.zero || NoSmallMultiple(g, q, 2 * TWO224)
  {
    var b: G :| Spanned(g, b, pts) && TorsionFree(g, b);
    assert IsMultiple(g, b, q);
  }

  /** The part of the sum that the heap starts without. */
  ghost function TailSum<G>(g: Group<G>, vals: seq<nat>, pts: seq<G>, n: nat, count: nat): G
    requires n <= count && count <= |vals| && count <= |pts|
  {
    LinComb(g, vals[n..], pts[n..], count - n)
  }

  lemma {:induction false} SumInParts<G(!new)>(g: Group<G>, vals: seq<nat>, pts: seq<G>, n: nat, count: nat)
    requires Abelian(g) && n <= count && count <= |vals| && count <= |pts|
    ensures LinComb(g, vals, pts, count) == g.add(LinComb(g, vals, pts, n), TailSum(g, vals, pts, n, count))
    decreases count
  {
    var head := LinComb(g, vals, pts, n);
    Law(g, head, head, head);
    if n < count {
      SumInParts(g, vals, pts, n, count - 1);
      Law(g, head, TailSum(g, vals, pts, n, count - 1), Times(g, vals[count - 1], pts[count - 1]));
    }
  }

  /** Scalars for which the last step is exact at points without small torsion. */
  predicate InWindow(s: nat) {
    3 * TWO223 <= s < 2 * TWO224
  }

  /** How many entries the heap holds in the end. */
  ghost function Held(vals: seq<nat>, count: nat): (n: nat)
    requires Initial(count) <= count <= |vals|
    ensures n <= count
  {
    if Extends(vals, Initial(count)) then count else Initial(count)
  }

  /** `s` and `q` are what the entries of the heap are reduced to: the greatest common divisor of their scalars, and a point
      of which their sum is the multiple. */
  ghost predicate Survives<G(!new)>(g: Group<G>, vals: seq<nat>, pts: seq<G>, count: nat, s: nat, q: G)
    requires Initial(count) <= count <= |vals| && count <= |pts|
  {
    IsGcd(s, vals, Held(vals, count)) && Times(g, s, q) == LinComb(g, vals, pts, Held(vals, count)) && Spans(g, pts, q)
  }

  /** What the result has to do with the sum over all entries. */
  ghost predicate Answers<G(!new)>(g: Group<G>, vals: seq<nat>, pts: seq<G>, count: nat, s: nat, q: G, x: Option<G>)
    requires Initial(count) <= count <= |vals| && count <= |pts|
  {
    var all, tail := LinComb(g, vals, pts, count), TailSum(g, vals, pts, Initial(count), count);
    (if Extends(vals, Initial(count)) then
      && x.Some? && (x == Some(all) <==> s == 1 || Times(g, Excess(s), q) == g.zero)
      && (LargeOrder(g, pts) ==> (x == Some(all) <==> s == 1 || all == g.zero) && (x == Some(g.zero) <==> all == g.zero))
    else
      && (x == Some(all) <==> if s <= 1 then tail == g.zero else s % TWO224 != 0 && tail == Times(g, Excess(s), q))
      && (InWindow(s) && LargeOrder(g, pts) ==> (x == Some(all) <==> tail == g.zero))) == true
  }

  /** The outcome of a run: the survivors, the result of the last step, and what that has to do with the sum. */
  ghost predicate Finds<G(!new)>(g: Group<G>, vals: seq<nat>, pts: seq<G>, count: nat, s: nat, q: G, x: Option<G>)
    requires Initial(count) <= count <= |vals| && count <= |pts|
  {
    Survives(g, vals, pts, count, s, q) && x == FinalResult(g, s, q) && Answers(g, vals, pts, count, s, q, x)
  }

  ghost predicate IsFind<G(!new)>(g: Group<G>, vals: seq<nat>, pts: seq<G>, count: nat, s: nat, q: G, x: Option<G>, b: bool)
    requires Initial(count) <= count <= |vals| && count <= |pts|
  {
    forall u {:trigger Unfold(u)} :: Unfold(u) ==> (b <==> Finds(g, vals, pts, count, s, q, x))
  }

  /** The same, shown only where `Unfold(true)` is asserted. */
  ghost predicate Computed<G(!new)>(g: Group<G>, vals: seq<nat>, pts: seq<G>, count: nat, s: nat, q: G, x: Option<G>)
    requires Initial(count) <= count <= |vals| && count <= |pts|
  {
    assert IsFind(g, vals, pts, count, s, q, x, Finds(g, vals, pts, count, s, q, x));
    var b :| IsFind(g, vals, pts, count, s, q, x, b);
    b
  }

  lemma ComputedIs<G(!new)>(g: Group<G>, vals: seq<nat>, pts: seq<G>, count: nat, s: nat, q: G, x: Option<G>)
    requires Initial(count) <= count <= |vals| && count <= |pts|
    ensures Computed(g, vals, pts, count, s, q, x) <==> Finds(g, vals, pts, count, s, q, x)
  {
    assert Unfold(true);
    assert IsFind(g, vals, pts, count, s, q, x, Computed(g, vals, pts, count, s, q, x));
  }

  /** Below 2^128, the last step neither makes a zero nor hides one. */
  lemma FinalOfSmall<G(!new)>(g: Group<G>, s: nat, p: G)
    requires Abelian(g) && (p == g.zero || NoSmallMultiple(g, p, 2 * TWO224)) && 1 < s < TWO128
    ensures var sum, r := Times(g, s, p), FinalResult(g, s, p);
            (r == Some(sum) <==> sum == g.zero) && (r == Some(g.zero) <==> sum == g.zero)
  {
    DivModUnique(s, TWO224, 0, s);
    NextPowerOfLow(s, 224);
    if p == g.zero {
      ZeroFrom(g, s, s, NextPower(s));
    } else {
      SmallFrom(g, s, NextPower(s), p, 2 * TWO224);
    }
  }

  lemma SmallFrom<G(!new)>(g: Group<G>, s: nat, h: nat, p: G, bound: nat)
    requires Abelian(g) && NoSmallMultiple(g, p, bound) && 1 < s && 0 < h && s + h < bound
    ensures Times(g, s, p) != g.zero
    ensures FinalFrom(g, s, s, h, p).Some? && FinalFrom(g, s, s, h, p).value != Times(g, s, p) && FinalFrom(g, s, s, h, p).value != g.zero
  {
    SmallDistinct(g, p, bound, s + h, s);
    SmallDistinct(g, p, bound, s, 0);
    SmallDistinct(g, p, bound, s + h, 0);
  }

  lemma ZeroFrom<G(!new)>(g: Group<G>, s: nat, v: nat, h: nat)
    requires Abelian(g) && v > 0
    ensures FinalFrom(g, s, v, h, g.zero) == Some(g.zero) && Times(g, s, g.zero) == g.zero
  {
    TimesZero(g, s);
    TimesZero(g, v + h);
  }

  lemma FinalOfWindow<G(!new)>(g: Group<G>, s: nat, p: G)
    requires Abelian(g) && (s <= 1 || (InWindow(s) && (p == g.zero || NoSmallMultiple(g, p, 2 * TWO224))))
    ensures FinalResult(g, s, p) == Some(Times(g, s, p))
  {
    if s > 1 {
      if p == g.zero {
        ZeroFrom(g, s, s % TWO224, NextPower(s % TWO224));
      } else {
        ExactForLargeOrder(g, s, p, 2 * TWO224);
      }
    }
  }

  lemma SomeOfSmall<G>(g: Group<G>, s: nat, p: G)
    requires 0 < s < TWO128
    ensures FinalResult(g, s, p).Some?
  {
    DivModUnique(s, TWO224, 0, s);
  }

  /** The last step is off by `excess` times the point, so it gives a sum with `rest` exactly if that is `rest`. */
  lemma FinalShift<G(!new)>(g: Group<G>, s: nat, v: nat, h: nat, q: G, rest: G, excess: int)
    requires Abelian(g) && s > 1 && v != 0 && excess == v + h - s
    ensures FinalFrom(g, s, v, h, q) == Some(g.add(Times(g, s, q), rest)) <==> rest == Times(g, excess, q)
  {
    var a, e := Times(g, s, q), Times(g, excess, q);
    TimesAdd(g, s, excess, q);
    Law(g, a, e, rest);
    if g.add(a, e) == g.add(a, rest) { Cancel(g, e, rest, a); }
  }

  /** When the last step gives the multiple plus `rest`. */
  lemma FinalWithRest<G(!new)>(g: Group<G>, s: nat, q: G, rest: G)
    requires Abelian(g)
    ensures FinalResult(g, s, q) == Some(g.add(Times(g, s, q), rest)) <==>
            if s <= 1 then rest == g.zero else s % TWO224 != 0 && rest == Times(g, Excess(s), q)
  {
    if s <= 1 {
      var a := Times(g, s, q);
      Law(g, a, rest, g.zero);
      Law(g, g.zero, a, rest);
      if g.add(a, rest) == a { Cancel(g, rest, g.zero, a); }
    } else if s % TWO224 != 0 {
      FinalShift(g, s, s % TWO224, NextPower(s % TWO224), q, rest, Excess(s));
    }
  }

  /** The survivors decide the answer. */
  lemma FinalAnswers<G(!new)>(g: Group<G>, vals: seq<nat>, pts: seq<G>, count: nat, s: nat, q: G)
    requires Abelian(g) && Initial(count) <= count <= |vals| && count <= |pts| && Survives(g, vals, pts, count, s, q)
    ensures Answers(g, vals, pts, count, s, q, FinalResult(g, s, q))
  {
    if LargeOrder(g, pts) { SurvivorOrder(g, pts, q); }
    if Extends(vals, Initial(count)) {
      ExtendedAnswers(g, vals, pts, count, s, q);
    } else {
      SumInParts(g, vals, pts, Initial(count), count);
      FinalWithRest(g, s, q, TailSum(g, vals, pts, Initial(count), count));
      if InWindow(s) && LargeOrder(g, pts) { FinalWithoutTail(g, vals, pts, count, Initial(count), s, q); }
    }
  }

  lemma ExtendedAnswers<G(!new)>(g: Group<G>, vals: seq<nat>, pts: seq<G>, count: nat, s: nat, q: G)
    requires Abelian(g) && Initial(count) <= count <= |vals| && count <= |pts| && Survives(g, vals, pts, count, s, q)
    requires Extends(vals, Initial(count)) && (LargeOrder(g, pts) ==> q == g.zero || NoSmallMultiple(g, q, 2 * TWO224))
    ensures Answers(g, vals, pts, count, s, q, FinalResult(g, s, q))
  {
    GcdOfExtended(s, vals, Initial(count), count);
    SomeOfSmall(g, s, q);
    DivModUnique(s, TWO224, 0, s);
    FinalWithRest(g, s, q, g.zero);
    Law(g, Times(g, s, q), g.zero, g.zero);
    if s > 1 && LargeOrder(g, pts) { FinalOfSmall(g, s, q); }
  }

  lemma FinalComputed<G(!new)>(g: Group<G>, vals: seq<nat>, pts: seq<G>, count: nat, s: nat, q: G)
    requires Abelian(g) && Initial(count) <= count <= |vals| && count <= |pts| && Survives(g, vals, pts, count, s, q)
    ensures Computed(g, vals, pts, count, s, q, FinalResult(g, s, q))
  {
    FinalAnswers(g, vals, pts, count, s, q);
    ComputedIs(g, vals, pts, count, s, q, FinalResult(g, s, q));
  }

  lemma FinalWithoutTail<G(!new)>(g: Group<G>, vals: seq<nat>, pts: seq<G>, count: nat, n: nat, s: nat, p: G)
    requires Abelian(g) && n <= count && count <= |vals| && count <= |pts| && Times(g, s, p) == LinComb(g, vals, pts, n)
    requires s <= 1 || (InWindow(s) && (p == g.zero || NoSmallMultiple(g, p, 2 * TWO224)))
    ensures FinalResult(g, s, p) == Some(LinComb(g, vals, pts, count)) <==> TailSum(g, vals, pts, n, count) == g.zero
  {
    FinalOfWindow(g, s, p);
    SumInParts(g, vals, pts, n, count);
    var head, rest := LinComb(g, vals, pts, n), TailSum(g, vals, pts, n, count);
    Law(g, head, rest, rest);
    Law(g, head, g.zero, g.zero);
    if g.add(head, rest) == head { Cancel(g, rest, g.zero, head); }
  }

  /** The sum of scalar multiples of `count` points. `s` and `q` are what the entries of the heap are reduced to: all of them,
      or the initial ones if it never got to extend. `x` is the group element that the result stands for. */
  method MultiScalarMult<G(!new)>(h: BatchHeap<G>, count: nat, ghost c: Edwards.Curve<G>)
    returns (r: Option<Points.Ge>, ghost x: Option<G>, ghost s: nat, ghost q: G)
    requires Edwards.EdwardsCurve(c) && Shown(h, c) && count >= 5 && count % 2 == 1
    requires h.points.Length == h.scalars.Length == h.heap.Length == |h.pts| && count <= h.heap.Length && AllScalars(h.scalars[..])
    requires forall k | Initial(count) <= k < count :: h.Vals()[k] < TWO128
    modifies h, h.points, h.scalars, h.heap
    ensures Shows(c, r, x) && Computed(c.group, old(h.Vals()), old(h.pts), count, s, q, x)
  {
    ghost var vals, pts, g := h.Vals(), h.pts, c.group;
    h.Build(Initial(count));
    assert h.Vals() == vals && h.pts == pts;
    var max1, extended := Reduce(h, count, c, g, vals, pts);
    Survivor(h, g, vals, pts, max1);
    s, q := h.Vals()[max1], h.pts[max1];
    x := FinalResult(g, s, q);
    r := Final(h.points[max1], h.scalars[max1], c, q);
    FinalComputed(g, vals, pts, count, s, q);
  }

  /** If the heap is extended and the scalars have no common divisor, the result is the sum over all entries. */
  lemma CoprimeResult<G(!new)>(g: Group<G>, vals: seq<nat>, pts: seq<G>, count: nat, s: nat, q: G, x: Option<G>)
    requires Initial(count) <= count <= |vals| && count <= |pts| && Computed(g, vals, pts, count, s, q, x)
    requires Extends(vals, Initial(count)) && Coprime(vals, count)
    ensures x == Some(LinComb(g, vals, pts, count))
  {
    ComputedIs(g, vals, pts, count, s, q, x);
    GcdUnique(s, 1, vals, count);
  }

  /** In that case, and for points of large order too, the result is zero exactly when the sum is. */
  lemma ZeroExactly<G(!new)>(g: Group<G>, vals: seq<nat>, pts: seq<G>, count: nat, s: nat, q: G, x: Option<G>)
    requires Initial(count) <= count <= |vals| && count <= |pts| && Computed(g, vals, pts, count, s, q, x)
    requires Extends(vals, Initial(count)) && (Coprime(vals, count) || LargeOrder(g, pts))
    ensures x == Some(g.zero) <==> LinComb(g, vals, pts, count) == g.zero
  {
    if Coprime(vals, count) {
      CoprimeResult(g, vals, pts, count, s, q, x);
    } else {
      ComputedIs(g, vals, pts, count, s, q, x);
    }
  }

  /** What a result that is zero tells. */
  lemma ZeroResult<G(!new)>(g: Group<G>, vals: seq<nat>, pts: seq<G>, count: nat, s: nat, q: G)
    requires Initial(count) <= count <= |vals| && count <= |pts| && Computed(g, vals, pts, count, s, q, Some(g.zero))
    ensures Survives(g, vals, pts, count, s, q) && FinalResult(g, s, q) == Some(g.zero)
    ensures s <= 1 ==> LinComb(g, vals, pts, Held(vals, count)) == g.zero
  {
    ComputedIs(g, vals, pts, count, s, q, Some(g.zero));
  }

  lemma NoResult<G(!new)>(g: Group<G>, vals: seq<nat>, pts: seq<G>, count: nat, s: nat, q: G, x: Option<G>)
    requires Initial(count) <= count <= |vals| && count <= |pts| && Computed(g, vals, pts, count, s, q, x)
    ensures x.None? ==> !Extends(vals, Initial(count))
  {
    ComputedIs(g, vals, pts, count, s, q, x);
  }

  lemma GcdOfZeros(s: nat, vals: seq<nat>, n: nat)
    requires n <= |vals| && IsGcd(s, vals, n) && forall k | 0 <= k < n :: vals[k] == 0
    ensures s == 0 && !Extends(vals, n)
  {
    ZerosDivide(vals, n);
    assert s % (s + 1) == 0 <==> Divides(s + 1, vals, n);
    DivModUnique(s, s + 1, 0, s);
  }

  /** A run that starts with zeros only never extends its heap: the result is zero, whatever comes after them. */
  lemma ZerosFirst<G(!new)>(g: Group<G>, vals: seq<nat>, pts: seq<G>, count: nat, s: nat, q: G, x: Option<G>)
    requires Abelian(g) && Initial(count) <= count <= |vals| && count <= |pts| && Finds(g, vals, pts, count, s, q, x)
    requires forall k | 0 <= k < Initial(count) :: vals[k] == 0
    ensures x == Some(g.zero)
    ensures x == Some(LinComb(g, vals, pts, count)) <==> LinComb(g, vals, pts, count) == g.zero
  {
    NotTwo(vals, Initial(count));
    GcdOfZeros(s, vals, Initial(count));
  }

  lemma NotTwo(vals: seq<nat>, n: nat)
    requires n <= |vals| && forall k | 0 <= k < n :: vals[k] == 0
    ensures !Extends(vals, n)
  {
  }

  lemma ZerosDivide(vals: seq<nat>, n: nat)
    requires n <= |vals| && forall k | 0 <= k < n :: vals[k] == 0
    ensures forall d: nat | d > 0 :: Divides(d, vals, n)
  {
    forall d: nat | d > 0 ensures Divides(d, vals, n) {
      DivModUnique(0, d, 0, 0);
    }
  }

  /** Three zeros and two ones, all with the same point: the sum is twice the point, and the result is not. */
  lemma MissesEntries(s: nat, q: int, x: Option<int>)
    requires Finds(Integers(), [0, 0, 0, 1, 1], [1, 1, 1, 1, 1], 5, s, q, x)
    ensures LinComb(Integers(), [0, 0, 0, 1, 1], [1, 1, 1, 1, 1], 5) == 2 && x == Some(0)
  {
    var g, vals: seq<nat>, pts: seq<int> := Integers(), [0, 0, 0, 1, 1], [1, 1, 1, 1, 1];
    ZeroSum(g, vals, pts, 3);
    OneMore(g, vals, pts, 3);
    OneMore(g, vals, pts, 4);
    ZerosFirst(g, vals, pts, 5, s, q, x);
  }

  lemma OneMore(g: Group<int>, vals: seq<nat>, pts: seq<int>, n: nat)
    requires g == Integers() && n < |vals| && n < |pts| && vals[n] == 1
    ensures LinComb(g, vals, pts, n + 1) == LinComb(g, vals, pts, n) + pts[n]
  {
    assert Times(g, 1, pts[n]) == pts[n];
  }

  lemma {:induction false} ZeroSum<G(!new)>(g: Group<G>, vals: seq<nat>, pts: seq<G>, n: nat)
    requires Abelian(g) && n <= |vals| && n <= |pts| && forall k | 0 <= k < n :: vals[k] == 0
    ensures LinComb(g, vals, pts, n) == g.zero
  {
    if n > 0 {
      ZeroSum(g, vals, pts, n - 1);
      Law(g, g.zero, g.zero, g.zero);
    }
  }
}
