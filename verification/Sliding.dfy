/** Sliding-window recoding of a scalar, done in place. */
module Sliding {
  import opened Words
  import opened Modm
  import opened Recode

  predicate Bit(x: int) {
    x == 0 || x == 1
  }

  /** Zero, or odd and at most 2^(w - 1) - 1 in magnitude. */
  predicate Digit(x: int, w: nat)
    requires w > 0
  {
    x == 0 || (x % 2 == 1 && -x < Power(2, w - 1) && x < Power(2, w - 1))
  }

  /** No digit within `w` places above a nonzero digit is nonzero. */
  predicate Spaced(d: seq<int>, w: nat, n: nat)
    requires n <= |d|
  {
    forall k, l | 0 <= k < n && k < l < |d| && l < k + w && d[k] != 0 :: d[l] == 0
  }

  predicate AllOnes(d: seq<int>, k: nat) {
    forall l | k <= l < |d| :: d[l] == 1
  }

  /** Adds one at position `k0` of a binary tail; the carry is lost only if the tail is all ones. */
  method CarryUp(r: array<int>, k0: nat)
    requires k0 <= r.Length && forall l | k0 <= l < r.Length :: Bit(r[l])
    modifies r
    ensures forall l | 0 <= l < k0 :: r[l] == old(r[l])
    ensures forall l | k0 <= l < r.Length :: Bit(r[l])
    ensures k0 < r.Length ==> r[k0] == 1 - old(r[k0])
    ensures !AllOnes(old(r[..]), k0) ==>
              Weighted(r[..], 2, r.Length) == old(Weighted(r[..], 2, r.Length)) + Power(2, k0)
  {
    var k := k0;
    while k < r.Length
      invariant k0 <= k <= r.Length
      invariant forall l | 0 <= l < r.Length && !(k0 <= l < k) :: r[l] == old(r[l])
      invariant forall l | k0 <= l < k :: r[l] == 0 && old(r[l]) == 1
      invariant Weighted(r[..], 2, r.Length) + Power(2, k) == old(Weighted(r[..], 2, r.Length)) + Power(2, k0)
    {
      if r[k] == 0 {
        SetDigit(r, k, 1, 2);
        return;
      }
      SetDigit(r, k, 0, 2);
      k := k + 1;
    }
  }

  lemma {:induction false} OnesValue(d: seq<int>, k: nat, n: nat)
    requires k <= n <= |d| && forall l | k <= l < n :: d[l] == 1
    ensures Weighted(d, 2, n) == Weighted(d, 2, k) + Power(2, n) - Power(2, k)
  {
    if k < n {
      OnesValue(d, k, n - 1);
    }
  }

  lemma {:induction false} ZerosValue(d: seq<int>, k: nat, n: nat)
    requires k <= n <= |d| && forall l | k <= l < n :: d[l] == 0
    ensures Weighted(d, 2, n) == Weighted(d, 2, k)
  {
    if k < n {
      ZerosValue(d, k, n - 1);
    }
  }

  /** If the tail from `k` on were all ones, the value would be above 2^255. */
  lemma OnesAbove(d: seq<int>, j: nat, k: nat)
    requires |d| == 256 && j < k < 256
    requires Weighted(d, 2, j) + Power(2, j) > 0 && d[j] >= 1
    requires forall l | j < l < k :: d[l] == 0
    requires AllOnes(d, k)
    ensures Weighted(d, 2, 256) > TWO255
  {
    OnesValue(d, k, 256);
    ZerosValue(d, j + 1, k);
    PowerMonotone(2, k, 255);
    PowerOf2At255(255);
    MulBound(1, Power(2, j), d[j], Power(2, j));
  }

  /** A carry into position `k` finds a zero bit, because the value is below 2^255. */
  lemma CarryFits(d: seq<int>, j: nat, k: nat)
    requires |d| == 256 && j < k < 256
    requires Weighted(d, 2, 256) < TWO255
    requires Weighted(d, 2, j) + Power(2, j) > 0 && d[j] >= 1
    requires forall l | j < l < k :: d[l] == 0
    ensures !AllOnes(d, k)
  {
    if AllOnes(d, k) {
      OnesAbove(d, j, k);
    }
  }

  /** `bit << b`. */
  method ShiftBit(bit: int, b: nat) returns (x: int)
    requires Bit(bit)
    ensures x == if bit == 0 then 0 else Power(2, b)
  {
    x := bit * Power(2, b);
  }

  /** `r[j] += r[j + b] << b; r[j + b] = 0` keeps the value. */
  method FoldUp(r: array<int>, j: nat, b: nat)
    requires 0 < b && j + b < r.Length && Bit(r[j + b])
    modifies r
    ensures r[j] == old(if r[j + b] == 0 then r[j] else r[j] + Power(2, b)) && r[j + b] == 0
    ensures forall l | 0 <= l < r.Length && l != j && l != j + b :: r[l] == old(r[l])
    ensures Weighted(r[..], 2, r.Length) == old(Weighted(r[..], 2, r.Length))
  {
    PowerAdd(2, b, j);
    var x := ShiftBit(r[j + b], b);
    SetDigit(r, j, r[j] + x, 2);
    SetDigit(r, j + b, 0, 2);
  }

  /** `r[j] -= 1 << b` and a carry into the bit at `j + b`, which is one, keep the value. */
  method FoldDown(r: array<int>, j: nat, b: nat)
    requires r.Length == 256 && 0 < b && j + b < 256
    requires Weighted(r[..], 2, 256) < TWO255
    requires Weighted(r[..], 2, j) + Power(2, j) > 0
    requires r[j] >= 1 && r[j + b] == 1
    requires forall l | j < l < j + b :: r[l] == 0
    requires forall l | j + b < l < 256 :: Bit(r[l])
    modifies r
    ensures r[j] == old(r[j]) - Power(2, b) && r[j + b] == 0
    ensures forall l | 0 <= l < j + b && l != j :: r[l] == old(r[l])
    ensures forall l | j + b < l < 256 :: Bit(r[l])
    ensures Weighted(r[..], 2, 256) == old(Weighted(r[..], 2, 256))
  {
    CarryFits(r[..], j, j + b);
    LowerDigit(r, j, b);
    CarryUp(r, j + b);
  }

  method LowerDigit(r: array<int>, j: nat, b: nat)
    requires j < r.Length
    modifies r
    ensures r[j] == old(r[j]) - Power(2, b) && forall l | 0 <= l < r.Length && l != j :: r[l] == old(r[l])
    ensures Weighted(r[..], 2, r.Length) == old(Weighted(r[..], 2, r.Length)) - Power(2, j + b)
  {
    PowerAdd(2, j, b);
    NegatedProduct(Power(2, b), Power(2, j));
    SetDigit(r, j, r[j] - Power(2, b), 2);
  }

  lemma NegatedProduct(x: int, y: int)
    ensures (0 - x) * y == 0 - y * x
  {
  }

  /** Which way the bit at distance `b` above a digit `y` goes. */
  lemma Decide(y: int, bit: int, b: nat, w: nat)
    requires 1 <= b && 2 <= w && Bit(bit) && y % 2 == 1 && -y < Power(2, w - 1) && y < Power(2, w - 1)
    requires b < w ==> 1 <= y < Power(2, b)
    ensures var p, m := Power(2, b), Power(2, w - 1) - 1;
      && (y + p) % 2 == 1 && (y - p) % 2 == 1
      && (b + 1 < w ==> y + p <= m && y + p < Power(2, b + 1))
      && (b + 1 == w ==> y + p > m && y - p >= -m)
      && (b >= w ==> y + p > m && y - p < -m)
  {
    if b + 1 < w {
      PowerMonotone(2, b + 1, w - 1);
    } else if b >= w {
      PowerMonotone(2, w, b);
    }
  }

  /** The bits within distance `b` of the digit at `j` have been folded into it. */
  ghost predicate Folded(s: seq<int>, d: seq<int>, j: nat, w: nat, b: nat) {
    && |s| == |d| == 256 && j < 256 && 2 <= w
    && Weighted(s, 2, 256) == Weighted(d, 2, 256)
    && (forall l | 0 <= l < j :: s[l] == d[l])
    && (forall l | j < l < 256 :: Bit(s[l]))
    && s[j] % 2 == 1 && -s[j] < Power(2, w - 1) && s[j] < Power(2, w - 1)
    && (b < w ==> 1 <= s[j] < Power(2, b))
    && (forall l | j < l < 256 && l < j + b && l < j + w :: s[l] == 0)
  }

  method FoldBit(r: array<int>, j: nat, w: nat, b: nat, ghost d: seq<int>) returns (stop: bool)
    requires r.Length == 256 && 1 <= b && j + b < 256 && Folded(r[..], d, j, w, b)
    requires Weighted(d, 2, 256) < TWO255 && Weighted(d, 2, j) + Power(2, j) > 0
    modifies r
    ensures Folded(r[..], d, j, w, if stop then b else b + 1)
    ensures stop ==> b >= w
  {
    var m := Power(2, w - 1) - 1;
    Decide(r[j], r[j + b], b, w);
    stop := false;
    var x := ShiftBit(r[j + b], b);
    if r[j] + x <= m {
      FoldUp(r, j, b);
    } else if r[j] - x >= -m {
      WeightedPrefix(r[..], d, 2, j);
      FoldDown(r, j, b);
    } else if r[j + b] != 0 {
      stop := true;
    }
  }

  /** Folds the bits above a one at `j` into a digit at `j`. */
  method Absorb(r: array<int>, j: nat, w: nat)
    requires r.Length == 256 && j < 256 && 2 <= w <= 7
    requires Weighted(r[..], 2, 256) < TWO255
    requires Weighted(r[..], 2, j) + Power(2, j) > 0
    requires r[j] == 1 && forall l | j < l < 256 :: Bit(r[l])
    modifies r
    ensures Weighted(r[..], 2, 256) == old(Weighted(r[..], 2, 256))
    ensures forall l | 0 <= l < j :: r[l] == old(r[l])
    ensures Digit(r[j], w) && r[j] != 0
    ensures forall l | j < l < 256 :: Bit(r[l])
    ensures forall l | j < l < 256 && l < j + w :: r[l] == 0
  {
    ghost var d := r[..];
    var b := 1;
    PowerMonotone(2, b, w - 1);
    while b < 256 - j && b <= 6
      invariant 1 <= b <= 7 && b <= 256 - j
      invariant Folded(r[..], d, j, w, b)
    {
      var stop := FoldBit(r, j, w, b, d);
      if stop {
        break;
      }
      b := b + 1;
    }
  }

  /** Positions below `j` are recoded; the bits from `j` up to `e` are zero and the recoded part is below 2^e. */
  ghost predicate Recoded(s: seq<int>, v: int, w: nat, j: nat, e: nat) {
    && |s| == 256 && 2 <= w && j <= 256 && j <= e
    && Weighted(s, 2, 256) == v
    && (forall k | 0 <= k < j :: Digit(s[k], w))
    && (forall k | j <= k < 256 :: Bit(s[k]))
    && Spaced(s, w, j)
    && (forall l | j <= l < 256 && l < e :: s[l] == 0)
    && -Weighted(s, 2, j) < Power(2, e) && Weighted(s, 2, j) < Power(2, e)
  }

  lemma SkipZero(s: seq<int>, v: int, w: nat, j: nat, e: nat)
    requires Recoded(s, v, w, j, e) && j < 256 && s[j] == 0
    ensures Recoded(s, v, w, j + 1, if e > j then e else j + 1)
  {
    if e == j {
      PowerMonotone(2, j, j + 1);
    }
  }

  lemma DigitWeight(y: int, q: nat, p: nat, low: int)
    requires -y < q && y < q && -low < p && low < p
    ensures -(low + y * p) < q * p && low + y * p < q * p
  {
    MulMonotone(y, q - 1, p);
    MulMonotone(1 - q, y, p);
    assert (q - 1) * p == q * p - p && (1 - q) * p == p - q * p;
  }

  lemma NextDigit(s: seq<int>, d: seq<int>, v: int, w: nat, j: nat)
    requires Recoded(d, v, w, j, j) && j < 256 && |s| == 256
    requires Weighted(s, 2, 256) == v && (forall l | 0 <= l < j :: s[l] == d[l])
    requires Digit(s[j], w) && s[j] != 0 && d[j] != 0 && (forall l | j < l < 256 :: Bit(s[l]))
    requires forall l | j < l < 256 && l < j + w :: s[l] == 0
    ensures Recoded(s, v, w, j + 1, j + w)
  {
    WeightedPrefix(s, d, 2, j);
    DigitWeight(s[j], Power(2, w - 1), Power(2, j), Weighted(s, 2, j));
    PowerAdd(2, w - 1, j);
    PowerMonotone(2, j + w - 1, j + w);
    forall k, l | 0 <= k < j + 1 && k < l < |s| && l < k + w && s[k] != 0
      ensures s[l] == 0
    {
      if k < j {
        assert d[k] != 0 && j >= k + w;
      }
    }
  }

  /** Recodes a scalar below 2^255 with window size `w`. */
  method SlidingWindow(r: array<int>, s: array<nat>, w: nat)
    requires r.Length == 256 && s.Length == 5 && Limbs(s[..], 0x8000_0000) && 2 <= w <= 7
    modifies r
    ensures Weighted(r[..], 2, 256) == Value(s[..])
    ensures forall k | 0 <= k < 256 :: Digit(r[k], w)
    ensures Spaced(r[..], w, 256)
  {
    ghost var v := Value(s[..]);
    PowersOf2(32, 56);
    Unpack(r, s, 2, 56, 32);
    Recode256(r, w, v);
  }

  method Recode256(r: array<int>, w: nat, ghost v: int)
    requires r.Length == 256 && 2 <= w <= 7 && Weighted(r[..], 2, 256) == v < TWO255
    requires forall k | 0 <= k < 256 :: 0 <= r[k] < 2
    modifies r
    ensures Weighted(r[..], 2, 256) == v
    ensures forall k | 0 <= k < 256 :: Digit(r[k], w)
    ensures Spaced(r[..], w, 256)
  {
    ghost var e := 0;
    var j := 0;
    while j < 256
      invariant 0 <= j <= 256
      invariant Recoded(r[..], v, w, j, e)
    {
      ghost var d := r[..];
      if r[j] == 0 {
        SkipZero(d, v, w, j, e);
        e := if e > j then e else j + 1;
      } else {
        Absorb(r, j, w);
        NextDigit(r[..], d, v, w, j);
        e := j + w;
      }
      j := j + 1;
    }
  }
}
