/** Comparison, subtraction and tests on limbs up to a given one. */
module ModmBatch {
  import opened Words
  import opened Modm

  predicate Scalar(s: seq<nat>) {
    Limbs(s, TWO56)
  }

  /** The limbs above `l` are zero. */
  predicate Fits(s: seq<nat>, l: nat) {
    |s| == 5 && forall k | l < k < 5 :: s[k] == 0
  }

  lemma {:induction false} LowBound(s: seq<nat>, i: nat)
    requires Scalar(s) && i <= 5
    ensures LimbPrefix(s, i) < Unit(i)
  {
    if i > 0 {
      LowBound(s, i - 1);
      MulBound(Unit(i - 1), s[i - 1], Unit(i - 1), TWO56 - 1);
    }
  }

  lemma {:induction false} LowSame(s: seq<nat>, i: nat, n: nat)
    requires |s| == 5 && i <= n <= 5 && forall k | i <= k < n :: s[k] == 0
    ensures LimbPrefix(s, n) == LimbPrefix(s, i)
  {
    if i < n {
      LowSame(s, i, n - 1);
    }
  }

  lemma FitsValue(s: seq<nat>, l: nat)
    requires Scalar(s) && Fits(s, l) && l < 5
    ensures Value(s) == LimbPrefix(s, l + 1)
  {
    LowSame(s, l + 1, 5);
    LimbPrefixValue(s);
  }

  /** One limb of `a - b - carry`: the difference wraps and its top bit is the borrow. */
  method BorrowLimb(a: nat, b: nat, carry: nat) returns (t: nat, c: nat)
    requires a < TWO56 && b < TWO56 && carry <= 1
    ensures c <= 1 && t % TWO56 == a - b - carry + c * TWO56
    ensures c == 0 ==> t == a - b - carry
  {
    t := Sub64(Sub64(a, b), carry);
    c := t / TWO63;
  }

  lemma BorrowStep(a: seq<nat>, b: seq<nat>, i: nat, x: nat, carry: nat, c: nat, d: int)
    requires Scalar(a) && Scalar(b) && i < 5
    requires d == LimbPrefix(a, i) - LimbPrefix(b, i) + carry * Unit(i)
    requires x < TWO56 && x == a[i] - b[i] - carry + c * TWO56 && 0 <= d < Unit(i)
    ensures d + Unit(i) * x == LimbPrefix(a, i + 1) - LimbPrefix(b, i + 1) + c * Unit(i + 1)
    ensures 0 <= d + Unit(i) * x < Unit(i + 1)
  {
    BorrowAlgebra(Unit(i), x, a[i], b[i], carry, c);
  }

  lemma BorrowAlgebra(u: nat, x: nat, a: nat, b: nat, carry: nat, c: nat)
    requires x < TWO56 && x == a - b - carry + c * TWO56
    ensures u * x == u * a - u * b - carry * u + c * (TWO56 * u) && 0 <= u * x <= TWO56 * u - u
  {
    assert u * (a - b - carry + c * TWO56) == u * a - u * b - u * carry + u * (c * TWO56);
    MulBound(u, x, u, TWO56 - 1);
  }

  lemma BorrowOut(a: nat, b: nat, carry: nat, u: nat, d: int)
    requires d == a - b + carry * u && 0 <= d < u && carry <= 1
    ensures carry == 1 <==> a < b
  {
  }

  /** The borrow out of a - b on limbs 0 to `limbsize`. */
  method Borrow(a: seq<nat>, b: seq<nat>, limbsize: nat) returns (carry: nat)
    requires Scalar(a) && Scalar(b) && limbsize < 5
    ensures carry <= 1 && (carry == 1 <==> LimbPrefix(a, limbsize + 1) < LimbPrefix(b, limbsize + 1))
  {
    var i := 0;
    carry := 0;
    ghost var d := 0;
    while i <= limbsize
      invariant 0 <= i <= limbsize + 1 && carry <= 1
      invariant d == LimbPrefix(a, i) - LimbPrefix(b, i) + carry * Unit(i) && 0 <= d < Unit(i)
    {
      var t, c := BorrowLimb(a[i], b[i], carry);
      BorrowStep(a, b, i, t % TWO56, carry, c, d);
      d := d + Unit(i) * (t % TWO56);
      carry, i := c, i + 1;
    }
    BorrowOut(LimbPrefix(a, i), LimbPrefix(b, i), carry, Unit(i), d);
  }

  /** Is a < b, looking at limbs 0 to `limbsize`? */
  method Lt(a: seq<nat>, b: seq<nat>, limbsize: nat) returns (r: bool)
    requires Scalar(a) && Scalar(b) && limbsize < 5
    ensures r == (LimbPrefix(a, limbsize + 1) < LimbPrefix(b, limbsize + 1))
    ensures Fits(a, limbsize) && Fits(b, limbsize) ==> r == (Value(a) < Value(b))
  {
    var carry := Borrow(a, b, limbsize);
    if Fits(a, limbsize) && Fits(b, limbsize) {
      FitsValue(a, limbsize);
      FitsValue(b, limbsize);
    }
    r := carry == 1;
  }

  /** Is a <= b, looking at limbs 0 to `limbsize`? */
  method Lte(a: seq<nat>, b: seq<nat>, limbsize: nat) returns (r: bool)
    requires Scalar(a) && Scalar(b) && limbsize < 5
    ensures r == (LimbPrefix(a, limbsize + 1) <= LimbPrefix(b, limbsize + 1))
    ensures Fits(a, limbsize) && Fits(b, limbsize) ==> r == (Value(a) <= Value(b))
  {
    var carry := Borrow(b, a, limbsize);
    if Fits(a, limbsize) && Fits(b, limbsize) {
      FitsValue(a, limbsize);
      FitsValue(b, limbsize);
    }
    r := carry == 0;
  }

  lemma PrefixSame(s: seq<nat>, t: seq<nat>, i: nat)
    requires |s| == |t| == 5 && i <= 5 && forall k | 0 <= k < i :: s[k] == t[k]
    ensures LimbPrefix(s, i) == LimbPrefix(t, i)
  {
    if i > 0 {
      PrefixSame(s, t, i - 1);
    }
  }

  /** a - b - borrow on the limbs below `n`; the other limbs of `a` stay. */
  method SubBelow(a: seq<nat>, b: seq<nat>, n: nat) returns (out: seq<nat>, carry: nat)
    requires Scalar(a) && Scalar(b) && n < 5
    ensures Scalar(out) && carry <= 1 && forall k | n <= k < 5 :: out[k] == a[k]
    ensures LimbPrefix(out, n) == LimbPrefix(a, n) - LimbPrefix(b, n) + carry * Unit(n)
  {
    out, carry := a, 0;
    var i := 0;
    while i < n
      invariant 0 <= i <= n && carry <= 1
      invariant Scalar(out) && forall k | i <= k < 5 :: out[k] == a[k]
      invariant LimbPrefix(out, i) == LimbPrefix(a, i) - LimbPrefix(b, i) + carry * Unit(i)
    {
      var t, c := BorrowLimb(out[i], b[i], carry);
      LowBound(out, i);
      BorrowStep(a, b, i, t % TWO56, carry, c, LimbPrefix(out, i));
      PrefixSame(out, out[i := t % TWO56], i);
      out, carry := out[i := t % TWO56], c;
      i := i + 1;
    }
  }

  lemma NoBorrow(a: nat, b: nat, c: nat, u: nat)
    requires a >= b && c <= 1 && a - b + c * u < u
    ensures c == 0
  {
  }

  /** With a >= b there is no borrow out of the top limb, so the top limb is kept as it is. */
  lemma TopDifference(a: seq<nat>, b: seq<nat>, low: seq<nat>, l: nat, x: nat, carry: nat, c: nat)
    requires Scalar(a) && Scalar(b) && Scalar(low) && l < 5 && LimbPrefix(a, l + 1) >= LimbPrefix(b, l + 1)
    requires c <= 1 && x < TWO56 && x == a[l] - b[l] - carry + c * TWO56
    requires LimbPrefix(low, l) == LimbPrefix(a, l) - LimbPrefix(b, l) + carry * Unit(l)
    ensures c == 0 && LimbPrefix(low, l) + Unit(l) * x == LimbPrefix(a, l + 1) - LimbPrefix(b, l + 1)
  {
    LowBound(low, l);
    BorrowStep(a, b, l, x, carry, c, LimbPrefix(low, l));
    NoBorrow(LimbPrefix(a, l + 1), LimbPrefix(b, l + 1), c, Unit(l + 1));
  }

  /** a - b on limbs 0 to `limbsize`, for a >= b. */
  method Sub(a: seq<nat>, b: seq<nat>, limbsize: nat) returns (out: seq<nat>)
    requires Scalar(a) && Scalar(b) && limbsize < 5 && Fits(a, limbsize) && Fits(b, limbsize)
    requires Value(a) >= Value(b)
    ensures Scalar(out) && Fits(out, limbsize) && Value(out) == Value(a) - Value(b)
  {
    FitsValue(a, limbsize);
    FitsValue(b, limbsize);
    var low, carry := SubBelow(a, b, limbsize);
    var t, c := BorrowLimb(low[limbsize], b[limbsize], carry);
    TopDifference(a, b, low, limbsize, t % TWO56, carry, c);
    out := low[limbsize := t];
    TopPlaced(low, limbsize, t);
  }

  lemma TopPlaced(low: seq<nat>, l: nat, t: nat)
    requires Scalar(low) && l < 5 && t < TWO56 && forall k | l < k < 5 :: low[k] == 0
    ensures var out := low[l := t]; Scalar(out) && Fits(out, l) && Value(out) == LimbPrefix(low, l) + Unit(l) * t
  {
    var out := low[l := t];
    PrefixSame(low, out, l);
    FitsValue(out, l);
  }

  method IsZero(a: seq<nat>) returns (r: bool)
    requires Scalar(a)
    ensures r == (Value(a) == 0)
  {
    for i := 0 to 5
      invariant forall k | 0 <= k < i :: a[k] == 0
    {
      if a[i] != 0 {
        return false;
      }
    }
    r := true;
  }

  method IsOne(a: seq<nat>) returns (r: bool)
    requires Scalar(a)
    ensures r == (Value(a) == 1)
  {
    for i := 0 to 5
      invariant forall k | 0 <= k < i :: a[k] == if k == 0 then 1 else 0
    {
      if a[i] != if i == 0 then 1 else 0 {
        return false;
      }
    }
    r := true;
  }

  /** Does `a` fit in 128 bits? */
  method AtMost128(a: seq<nat>) returns (r: bool)
    requires Scalar(a)
    ensures r == (Value(a) < TWO128)
  {
    r := a[4] == 0 && a[3] == 0 && a[2] / TWO16 == 0;
  }
}
