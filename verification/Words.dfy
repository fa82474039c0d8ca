/** Machine words as naturals: 64- and 128-bit arithmetic with explicit no-wrap
    obligations, wrapping subtraction, and the bit operations the sources use. */
module Words {
  const TWO8: nat := 0x100
  const TWO16: nat := 0x1_0000
  const TWO24: nat := 0x100_0000
  const TWO32: nat := 0x1_0000_0000
  const TWO40: nat := 0x100_0000_0000
  const TWO48: nat := 0x1_0000_0000_0000
  const TWO56: nat := 0x100_0000_0000_0000
  const TWO60: nat := 0x1000_0000_0000_0000
  const TWO63: nat := 0x8000_0000_0000_0000
  const TWO64: nat := 0x1_0000_0000_0000_0000
  const TWO128: nat := 0x1_0000_0000_0000_0000_0000_0000_0000_0000
  const TWO192: nat := 0x1_0000_0000_0000_0000_0000_0000_0000_0000_0000_0000_0000_0000
  const TWO248: nat := 0x100_0000_0000_0000_0000_0000_0000_0000_0000_0000_0000_0000_0000_0000_0000_0000
  const TWO255: nat := 0x8000_0000_0000_0000_0000_0000_0000_0000_0000_0000_0000_0000_0000_0000_0000_0000
  const TWO256: nat := 0x1_0000_0000_0000_0000_0000_0000_0000_0000_0000_0000_0000_0000_0000_0000_0000_0000

  type Byte = b: int | 0 <= b < 256
  type Word64 = w: nat | w < TWO64

  /** A 64-bit expression of non-negative terms that must not wrap. */
  function U64(x: nat): nat
    requires x < TWO64
  {
    x
  }

  /** 64-bit subtraction, which wraps. */
  function Sub64(a: nat, b: nat): nat {
    (a - b) % TWO64
  }

  /** The low word of a 128-bit value. */
  function Lo64(c: nat): nat {
    c % TWO64
  }

  function Power(b: nat, n: nat): (r: nat)
    ensures b > 0 ==> r > 0
  {
    if n == 0 then 1 else b * Power(b, n - 1)
  }

  lemma MulBound(a: nat, b: nat, u: nat, v: nat)
    requires a <= u && b <= v
    ensures 0 <= a * b <= u * v
  {
    assert a * b <= u * b;
    assert u * b <= u * v;
  }

  lemma MulMonotone(a: int, b: int, p: nat)
    requires a <= b
    ensures a * p <= b * p
  {
  }

  lemma DivModUnique(a: int, n: int, q: int, r: int)
    requires 0 < n && a == q * n + r && 0 <= r < n
    ensures a / n == q && a % n == r
  {
    var d := a / n - q;
    assert d * n == r - a % n;
    assert d >= 1 ==> d * n >= n;
    assert d <= -1 ==> d * n <= -n;
  }

  lemma SplitTwice(q: nat, h: nat, l: nat, m: nat, n: nat)
    requires h < n && l < m
    ensures m * (q * n + h) + l == q * (m * n) + (l + m * h) && 0 <= l + m * h < m * n
  {
    MulBound(m, h + 1, m, n);
    assert m * (h + 1) == m * h + m;
    assert m * (q * n + h) == m * (q * n) + m * h;
    assert m * (q * n) == q * (m * n);
  }

  /** Splitting at `m` and then at `n` is splitting at `m * n`. */
  lemma DivDiv(a: nat, m: nat, n: nat)
    requires 0 < m && 0 < n
    ensures a / m / n == a / (m * n)
    ensures a % (m * n) == a % m + m * (a / m % n)
    ensures a % (m * n) % m == a % m && a % (m * n) / m == a / m % n
  {
    var u := a / m;
    var q, h, l := u / n, u % n, a % m;
    Euclid(a, m);
    Euclid(u, n);
    SplitTwice(q, h, l, m, n);
    TwoRemainders(a, q, h, l, m, m * n);
  }

  lemma Euclid(a: nat, m: nat)
    requires 0 < m
    ensures a == m * (a / m) + a % m && a == a / m * m + a % m && 0 <= a / m && a % m < m
  {
  }

  lemma TwoRemainders(a: nat, q: nat, h: nat, l: nat, m: nat, mn: nat)
    requires a == q * mn + (l + m * h) && l + m * h < mn && l < m
    ensures a / mn == q && a % mn == l + m * h && (l + m * h) % m == l && (l + m * h) / m == h
  {
    DivModUnique(a, mn, q, l + m * h);
    DivModUnique(l + m * h, m, h, l);
  }

  /** Shifting left keeps what stays below the shifted modulus. */
  lemma ModScale(a: nat, m: nat, n: nat)
    requires 0 < m && 0 < n
    ensures a * n % (m * n) == a % m * n
  {
    var q, l := a / m, a % m;
    assert a * n == q * (m * n) + l * n by {
      assert a == q * m + l;
      assert (q * m + l) * n == q * (m * n) + l * n;
    }
    assert 0 <= l * n < m * n;
    DivModUnique(a * n, m * n, q, l * n);
  }

  /** `((a >> s) | (b << (64 - s))) & mask`, where `h == 2^s`, `u == 2^(64 - s)` and the mask keeps
      `u * cut` values. */
  method Straddle(a: nat, b: nat, h: nat, u: nat, cut: nat, ghost e: nat) returns (r: nat)
    requires a < TWO64 && 0 < cut && 0 < u && 0 < h && 0 < e && h * u == TWO64 && h == cut * e
    ensures r == a / h + b % cut * u
    ensures a / h < u
  {
    r := (a / h + b * u % TWO64) % (u * cut);
    QuotientBelow(a, h, u);
    ModScale(b, h, u);
    DivDiv(b, cut, e);
    var sum := a / h + b % h * u;
    DivModUnique(sum, u, b % h, a / h);
    DivDiv(sum, u, cut);
  }

  /** Little-endian value of the bytes from `i` on. */
  function LEFrom(s: seq<Byte>, i: nat): nat
    requires i <= |s|
    decreases |s| - i
  {
    if i == |s| then 0 else s[i] + TWO8 * LEFrom(s, i + 1)
  }

  /** Little-endian value of a byte string. */
  function LE(s: seq<Byte>): nat {
    LEFrom(s, 0)
  }

  /** Putting a byte in front. */
  lemma LEOfHead(b: Byte, s: seq<Byte>)
    ensures LE([]) == 0 && LE([b] + s) == b + 256 * LE(s)
  {
    LESuffix([b] + s, 1, 0);
    assert ([b] + s)[1..] == s;
  }

  lemma Regrouped(a: seq<Byte>, b: seq<Byte>, c: seq<Byte>)
    ensures a + b + c == a + (b + c)
  {
  }

  /** Big-endian value of a byte string. */
  function BEValue(s: seq<Byte>): nat {
    if s == [] then 0 else BEValue(s[..|s| - 1]) * 256 + s[|s| - 1]
  }

  lemma MulAssociative(a: int, b: int, c: int)
    ensures a * b * c == a * (b * c)
  {
  }

  lemma {:induction false} PowerAdd(b: nat, m: nat, n: nat)
    ensures Power(b, m + n) == Power(b, m) * Power(b, n)
  {
    if m > 0 {
      PowerAdd(b, m - 1, n);
      MulAssociative(b, Power(b, m - 1), Power(b, n));
    }
  }

  lemma {:induction false} PowerMonotone(b: nat, m: nat, n: nat)
    requires m <= n && b > 0
    ensures Power(b, m) <= Power(b, n)
  {
    if m < n {
      PowerMonotone(b, m, n - 1);
    }
  }

  /** A power from two smaller ones, with their values. */
  lemma PowerSum(b: nat, m: nat, n: nat, k: nat, u: nat, v: nat)
    requires k == m + n && Power(b, m) == u && Power(b, n) == v
    ensures Power(b, k) == u * v
  {
    PowerAdd(b, m, n);
  }

  /** Zero bytes at the end do not change the value. */
  lemma {:induction false} ZeroPadding(s: seq<Byte>, zeros: seq<Byte>, i: nat)
    requires i <= |s| && forall k | 0 <= k < |zeros| :: zeros[k] == 0
    ensures LEFrom(s + zeros, i) == LEFrom(s, i)
    decreases |s| - i
  {
    if i < |s| {
      ZeroPadding(s, zeros, i + 1);
    } else {
      ZeroTail(s, zeros, i);
    }
  }

  lemma {:induction false} ZeroTail(s: seq<Byte>, zeros: seq<Byte>, i: nat)
    requires |s| <= i <= |s| + |zeros| && forall k | 0 <= k < |zeros| :: zeros[k] == 0
    ensures LEFrom(s + zeros, i) == 0
    decreases |s| + |zeros| - i
  {
    if i < |s| + |zeros| {
      ZeroTail(s, zeros, i + 1);
    }
  }

  lemma {:induction false} LESuffix(s: seq<Byte>, k: nat, i: nat)
    requires k + i <= |s|
    ensures LEFrom(s[k..], i) == LEFrom(s, k + i)
    decreases |s| - i
  {
    if k + i < |s| {
      LESuffix(s, k, i + 1);
    }
  }

  /** The eight bytes from `at` on, as a little-endian word. */
  function WordAt(s: seq<Byte>, at: nat): nat
    requires at + 8 <= |s|
  {
    s[at] + s[at + 1] * TWO8 + s[at + 2] * TWO16 + s[at + 3] * TWO24 + s[at + 4] * TWO32 + s[at + 5] * TWO40
    + s[at + 6] * TWO48 + s[at + 7] * TWO56
  }

  lemma LEWord(s: seq<Byte>, at: nat)
    requires at + 8 <= |s|
    ensures LEFrom(s, at) == WordAt(s, at) + TWO64 * LEFrom(s, at + 8)
    ensures WordAt(s, at) < TWO64
  {
    assert LEFrom(s, at + 6) == s[at + 6] + TWO8 * s[at + 7] + TWO16 * LEFrom(s, at + 8);
    assert LEFrom(s, at + 4) == s[at + 4] + TWO8 * s[at + 5] + TWO16 * LEFrom(s, at + 6);
    assert LEFrom(s, at + 2) == s[at + 2] + TWO8 * s[at + 3] + TWO16 * LEFrom(s, at + 4);
  }

  /** Four little-endian words. */
  method Load4(s: seq<Byte>, at: nat) returns (x0: nat, x1: nat, x2: nat, x3: nat)
    requires at + 32 <= |s|
    ensures x0 < TWO64 && x1 < TWO64 && x2 < TWO64 && x3 < TWO64
    ensures LEFrom(s, at) == x0 + TWO64 * x1 + TWO128 * x2 + TWO192 * x3 + TWO256 * LEFrom(s, at + 32)
  {
    x0, x1, x2, x3 := WordAt(s, at), WordAt(s, at + 8), WordAt(s, at + 16), WordAt(s, at + 24);
    LEWord(s, at);
    LEWord(s, at + 8);
    LEWord(s, at + 16);
    LEWord(s, at + 24);
  }

  /** `(a >> s) | (b << k)` for a word `a` below `2^(s + k)`: `h == 2^s`, `u == 2^k`, `u * e == 2^64`. */
  method Pack(a: nat, b: nat, h: nat, u: nat, ghost e: nat) returns (r: nat)
    requires 0 < h && 0 < u && 0 < e && a < h * u && u * e == TWO64
    ensures r == a / h + b % e * u && r < TWO64
  {
    PackValue(a, b, h, u, e);
    r := a / h + b * u % TWO64;
  }

  lemma PackValue(a: nat, b: nat, h: nat, u: nat, e: nat)
    requires 0 < h && 0 < u && 0 < e && a < h * u && u * e == TWO64
    ensures a / h >= 0 && b * u % TWO64 == b % e * u && a / h + b % e * u < TWO64
  {
    ModScale(b, e, u);
    QuotientBelow(a, h, u);
    var l := b % e;
    assert l * u + u == (l + 1) * u;
    MulBound(l + 1, u, e, u);
  }

  lemma QuotientBelow(a: nat, h: nat, u: nat)
    requires 0 < h && a < h * u
    ensures a / h < u
  {
    var q := a / h;
    assert q >= u ==> h * q >= h * u;
  }

  /** A word stored as eight little-endian bytes. */
  function Store64(x: nat): (s: seq<Byte>)
    ensures |s| == 8
  {
    [x % TWO8, x / TWO8 % TWO8, x / TWO16 % TWO8, x / TWO24 % TWO8, x / TWO32 % TWO8, x / TWO40 % TWO8, x / TWO48 % TWO8,
     x / TWO56 % TWO8]
  }

  lemma FourBytes(x: nat)
    ensures x % TWO8 + x / TWO8 % TWO8 * TWO8 + x / TWO16 % TWO8 * TWO16 + x / TWO24 % TWO8 * TWO24 == x % TWO32
  {
    DivDiv(x, TWO8, TWO8);
    DivDiv(x, TWO16, TWO8);
    DivDiv(x, TWO24, TWO8);
  }

  lemma HighBytes(x: nat)
    ensures x / TWO40 == x / TWO32 / TWO8 && x / TWO48 == x / TWO32 / TWO16 && x / TWO56 == x / TWO32 / TWO24
  {
    DivDiv(x, TWO32, TWO8);
    DivDiv(x, TWO32, TWO16);
    DivDiv(x, TWO32, TWO24);
  }

  lemma EightBytes(x: nat, y: nat, b0: nat, b1: nat, b2: nat, b3: nat, b4: nat, b5: nat, b6: nat, b7: nat)
    requires x < TWO64 && y == x / TWO32
    requires b0 + b1 * TWO8 + b2 * TWO16 + b3 * TWO24 == x % TWO32
    requires b4 + b5 * TWO8 + b6 * TWO16 + b7 * TWO24 == y % TWO32
    ensures b0 + b1 * TWO8 + b2 * TWO16 + b3 * TWO24 + b4 * TWO32 + b5 * TWO40 + b6 * TWO48 + b7 * TWO56 == x
  {
    assert y < TWO32;
  }

  lemma StoreLoad(x: nat)
    requires x < TWO64
    ensures WordAt(Store64(x), 0) == x
  {
    var s, y := Store64(x), x / TWO32;
    FourBytes(x);
    FourBytes(y);
    HighBytes(x);
    EightBytes(x, y, s[0], s[1], s[2], s[3], s[4], s[5], s[6], s[7]);
  }

  /** Four words stored as 32 little-endian bytes. */
  function Store4(x0: nat, x1: nat, x2: nat, x3: nat): (s: seq<Byte>)
    ensures |s| == 32
  {
    Store64(x0) + Store64(x1) + Store64(x2) + Store64(x3)
  }

  lemma WordsOfFour(s0: seq<Byte>, s1: seq<Byte>, s2: seq<Byte>, s3: seq<Byte>)
    requires |s0| == |s1| == |s2| == |s3| == 8
    ensures LE(s0 + s1 + s2 + s3) == WordAt(s0, 0) + TWO64 * WordAt(s1, 0) + TWO128 * WordAt(s2, 0) + TWO192 * WordAt(s3, 0)
  {
    var t3 := s3 + [];
    var t2 := s2 + t3;
    var t1 := s1 + t2;
    WordFirst(s3, []);
    WordFirst(s2, t3);
    WordFirst(s1, t2);
    WordFirst(s0, t1);
    assert s0 + s1 + s2 + s3 == s0 + t1;
  }

  lemma WordFirst(s: seq<Byte>, t: seq<Byte>)
    requires |s| == 8
    ensures LE(s + t) == WordAt(s, 0) + TWO64 * LE(t)
  {
    LEWord(s + t, 0);
    LESuffix(s + t, 8, 0);
    assert (s + t)[8..] == t;
  }

  lemma Store4Value(x0: nat, x1: nat, x2: nat, x3: nat)
    requires x0 < TWO64 && x1 < TWO64 && x2 < TWO64 && x3 < TWO64
    ensures LE(Store4(x0, x1, x2, x3)) == x0 + TWO64 * x1 + TWO128 * x2 + TWO192 * x3
  {
    WordsOfFour(Store64(x0), Store64(x1), Store64(x2), Store64(x3));
    StoreLoad(x0);
    StoreLoad(x1);
    StoreLoad(x2);
    StoreLoad(x3);
  }

  lemma PowersOf2(m: nat, n: nat)
    requires m == 32 && n == 56
    ensures Power(2, m) == TWO32 && Power(2, n) == TWO56
  {
    var a, b, c := 8, 16, 24;
    assert Power(2, 8) == TWO8;
    PowerSum(2, a, a, b, TWO8, TWO8);
    PowerSum(2, b, b, m, TWO16, TWO16);
    PowerSum(2, a, b, c, TWO8, TWO16);
    PowerSum(2, c, m, n, TWO24, TWO32);
  }

  lemma PowerOf2At255(n: nat)
    requires n == 255
    ensures Power(2, n) == TWO255
  {
    var a, b, c, d, e := 8, 16, 32, 64, 128;
    assert Power(2, 8) == TWO8;
    PowerSum(2, a, a, b, TWO8, TWO8);
    PowerSum(2, b, b, c, TWO16, TWO16);
    PowerSum(2, c, c, d, TWO32, TWO32);
    PowerSum(2, d, d, e, TWO64, TWO64);
    PowerSum(2, e, e, e + e, TWO128, TWO128);
  }

  lemma {:induction false} LEBound(s: seq<Byte>, i: nat)
    requires i <= |s|
    ensures LEFrom(s, i) < Power(TWO8, |s| - i)
    decreases |s| - i
  {
    if i < |s| {
      LEBound(s, i + 1);
    }
  }

  lemma BytePowerOf31(n: nat)
    requires n == 31
    ensures Power(TWO8, n) == TWO248
  {
    var a, b, c, d, e := 1, 2, 4, 8, 16;
    assert Power(TWO8, 1) == TWO8;
    PowerSum(TWO8, a, a, b, TWO8, TWO8);
    PowerSum(TWO8, b, b, c, TWO16, TWO16);
    PowerSum(TWO8, c, c, d, TWO32, TWO32);
    PowerSum(TWO8, d, d, e, TWO64, TWO64);
    PowerSum(TWO8, a, b, a + b, TWO8, TWO16);
    PowerSum(TWO8, a + b, c, a + b + c, TWO24, TWO32);
    PowerSum(TWO8, d, e, d + e, TWO64, TWO128);
    PowerSum(TWO8, a + b + c, d + e, n, TWO56, TWO192);
  }
}
