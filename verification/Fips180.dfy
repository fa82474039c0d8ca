/** SHA-512 as FIPS 180-4 writes it, on words given as numbers. The tables of constants are parameters. */
module Fips180 {
  import opened Words
  import opened Bits

  // ---- sections 3.2 and 4.1.3: operations on words, and the six functions ----

  lemma Rotated(x: Word64, p: nat, q: nat)
    requires p > 0 && p * q == TWO64
    ensures 0 <= x / p + x % p * q < TWO64
  {
    QuotientBelow(x, p, q);
    MulBound(x % p + 1, q, p, q);
    assert (x % p + 1) * q == x % p * q + q;
  }

  lemma TwoParts(n: nat)
    requires n <= 64
    ensures Power(2, n) * Power(2, 64 - n) == TWO64
  {
    var w := WORD;
    WordPower(w);
    PowerAdd(2, n, w - n);
  }

  /** Rotation by `n` places to the right: the low `n` bits go to the top. */
  function RotrWord(n: nat, x: Word64): Word64
    requires n <= 64
  {
    var p, q := Power(2, n), Power(2, 64 - n);
    TwoParts(n);
    Rotated(x, p, q);
    x / p + x % p * q
  }

  function ShrWord(n: nat, x: Word64): Word64 {
    MulBound(1, x / Power(2, n), Power(2, n), x / Power(2, n));
    Euclid(x, Power(2, n));
    x / Power(2, n)
  }

  function Xor3(a: Word64, b: Word64, c: Word64): Word64 {
    XorWord(XorWord(a, b), c)
  }

  function Ch(x: Word64, y: Word64, z: Word64): Word64 {
    XorWord(AndWord(x, y), AndWord(NotWord(x), z))
  }

  function Maj(x: Word64, y: Word64, z: Word64): Word64 {
    Xor3(AndWord(x, y), AndWord(x, z), AndWord(y, z))
  }

  function Sigma0(x: Word64): Word64 { Xor3(RotrWord(28, x), RotrWord(34, x), RotrWord(39, x)) }
  function Sigma1(x: Word64): Word64 { Xor3(RotrWord(14, x), RotrWord(18, x), RotrWord(41, x)) }
  function LowSigma0(x: Word64): Word64 { Xor3(RotrWord(1, x), RotrWord(8, x), ShrWord(7, x)) }
  function LowSigma1(x: Word64): Word64 { Xor3(RotrWord(19, x), RotrWord(61, x), ShrWord(6, x)) }

  // ---- section 5: padding and parsing ----

  /** The least number of zero bits that makes a message of `l` bits and a one bit fill up to 896 bits of a block. */
  function ZeroBits(l: nat): (k: nat)
    ensures (l + 1 + k) % 1024 == 896 && k < 1024
  {
    (895 - l) % 1024
  }

  /** A number in `n` bytes, the most significant first. */
  function BigEndian(x: nat, n: nat): (s: seq<Byte>)
    ensures |s| == n
  {
    if n == 0 then [] else BigEndian(x / 256, n - 1) + [x % 256]
  }

  /** A one bit and seven zero bits, the other zero bits, and the length in bits as a number of 128 bits. */
  function Padded(m: seq<Byte>): seq<Byte> {
    m + [0x80] + seq((ZeroBits(8 * |m|) - 7) / 8, _ => 0) + BigEndian(8 * |m|, 16)
  }

  // ---- section 6.4.2: the computation ----

  function NextWord(a: Word64, b: Word64, c: Word64, d: Word64): Word64 {
    (LowSigma1(a) + b + LowSigma0(c) + d) % TWO64
  }

  function T1(e: Word64, f: Word64, g: Word64, h: Word64, k: Word64, w: Word64): Word64 {
    (h + Sigma1(e) + Ch(e, f, g) + k + w) % TWO64
  }

  function T2(a: Word64, b: Word64, c: Word64): Word64 {
    (Sigma0(a) + Maj(a, b, c)) % TWO64
  }

  /** The three expressions, by name. */
  datatype Expressions = Expressions(
    next: (Word64, Word64, Word64, Word64) -> Word64, t1: (Word64, Word64, Word64, Word64, Word64, Word64) -> Word64,
    t2: (Word64, Word64, Word64) -> Word64)

  const STANDARD: Expressions := Expressions(
    (a, b, c, d) => NextWord(a, b, c, d), (e, f, g, h, k, w) => T1(e, f, g, h, k, w), (a, b, c) => T2(a, b, c))

  /** The first `n` words of the message schedule of a block. */
  function Schedule(x: Expressions, block: seq<Byte>, n: nat): (w: seq<Word64>)
    requires |block| == 128
    ensures |w| == n
  {
    if n == 0 then []
    else
      var w, t := Schedule(x, block, n - 1), n - 1;
      w + [if t < 16 then BEValue(block[8 * t..8 * t + 8]) % TWO64 else x.next(w[t - 2], w[t - 7], w[t - 15], w[t - 16])]
  }

  /** The eight working variables. */
  datatype State = State(a: Word64, b: Word64, c: Word64, d: Word64, e: Word64, f: Word64, g: Word64, h: Word64)

  function Turn(x: Expressions, v: State, k: Word64, w: Word64): State {
    var t1, t2 := x.t1(v.e, v.f, v.g, v.h, k, w), x.t2(v.a, v.b, v.c);
    State((t1 + t2) % TWO64, v.a, v.b, v.c, (v.d + t1) % TWO64, v.e, v.f, v.g)
  }

  function Turns(x: Expressions, k: seq<Word64>, v: State, w: seq<Word64>, n: nat): State
    requires n <= |k| && n <= |w|
  {
    if n == 0 then v else Turn(x, Turns(x, k, v, w, n - 1), k[n - 1], w[n - 1])
  }

  function AddWords(r: State, v: State): State {
    State((r.a + v.a) % TWO64, (r.b + v.b) % TWO64, (r.c + v.c) % TWO64, (r.d + v.d) % TWO64,
          (r.e + v.e) % TWO64, (r.f + v.f) % TWO64, (r.g + v.g) % TWO64, (r.h + v.h) % TWO64)
  }

  /** The next intermediate hash value. */
  function NextValue(x: Expressions, k: seq<Word64>, v: State, block: seq<Byte>): State
    requires |k| == 80 && |block| == 128
  {
    AddWords(Turns(x, k, v, Schedule(x, block, |k|), |k|), v)
  }

  /** The hash value after the first `n` blocks. */
  function Value(x: Expressions, k: seq<Word64>, iv: State, s: seq<Byte>, n: nat): State
    requires |k| == 80 && 128 * n <= |s|
  {
    if n == 0 then iv else NextValue(x, k, Value(x, k, iv, s, n - 1), s[128 * (n - 1)..128 * n])
  }

  function Digest(v: State): seq<Byte> {
    BigEndian(v.a, 8) + BigEndian(v.b, 8) + BigEndian(v.c, 8) + BigEndian(v.d, 8)
    + BigEndian(v.e, 8) + BigEndian(v.f, 8) + BigEndian(v.g, 8) + BigEndian(v.h, 8)
  }

  function Computed(x: Expressions, k: seq<Word64>, iv: State, m: seq<Byte>): seq<Byte>
    requires |k| == 80
  {
    var s := Padded(m);
    Digest(Value(x, k, iv, s, |s| / 128))
  }

  function Sha512(k: seq<Word64>, iv: State, m: seq<Byte>): seq<Byte>
    requires |k| == 80
  {
    Computed(STANDARD, k, iv, m)
  }
}
