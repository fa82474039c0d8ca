/** Signed-digit recodings of a scalar, done in place. */
module Recode {
  import opened Words
  import opened Modm

  /** The value of the digits below `n`. */
  function Weighted(d: seq<int>, radix: nat, n: nat): int
    requires n <= |d|
  {
    if n == 0 then 0 else Weighted(d, radix, n - 1) + d[n - 1] * Power(radix, n - 1)
  }

  lemma {:induction false} WeightedPrefix(d: seq<int>, e: seq<int>, radix: nat, n: nat)
    requires n <= |d| && n <= |e| && forall k | 0 <= k < n :: d[k] == e[k]
    ensures Weighted(d, radix, n) == Weighted(e, radix, n)
  {
    if n > 0 {
      WeightedPrefix(d, e, radix, n - 1);
    }
  }

  /** Changing one digit changes the value by that digit's weight. */
  lemma {:induction false} WeightedUpdate(d: seq<int>, radix: nat, n: nat, i: nat, v: int)
    requires i < n <= |d|
    ensures Weighted(d[i := v], radix, n) == Weighted(d, radix, n) + (v - d[i]) * Power(radix, i)
  {
    if i == n - 1 {
      WeightedPrefix(d[i := v], d, radix, n - 1);
      assert v * Power(radix, i) == d[i] * Power(radix, i) + (v - d[i]) * Power(radix, i);
    } else {
      WeightedUpdate(d, radix, n - 1, i, v);
    }
  }

  method SetDigit(r: array<int>, i: nat, x: int, ghost radix: nat)
    requires i < r.Length
    modifies r
    ensures r[i] == x && forall k | 0 <= k < r.Length && k != i :: r[k] == old(r[k])
    ensures Weighted(r[..], radix, r.Length) == old(Weighted(r[..], radix, r.Length) + (x - r[i]) * Power(radix, i))
  {
    ghost var d := r[..];
    r[i] := x;
    assert r[..] == d[i := x];
    WeightedUpdate(d, radix, r.Length, i, x);
  }

  lemma DigitStep(p: nat, radix: nat, w: nat)
    requires radix > 0
    ensures w % radix * p + radix * p * (w / radix) == p * w
  {
    assert w == w % radix + radix * (w / radix);
    assert p * (w % radix + radix * (w / radix)) == w % radix * p + radix * p * (w / radix);
  }

  /** Writes `n` digits of `v` at `at`. */
  method UnpackLimb(r: array<int>, at: nat, v: nat, radix: nat, n: nat)
    requires radix > 0 && at + n <= r.Length && v < Power(radix, n)
    modifies r
    ensures forall k | at <= k < at + n :: 0 <= r[k] < radix
    ensures forall k | 0 <= k < r.Length && !(at <= k < at + n) :: r[k] == old(r[k])
    ensures Weighted(r[..], radix, at + n) == old(Weighted(r[..], radix, at)) + Power(radix, at) * v
  {
    var w: nat := v;
    for j := 0 to n
      invariant forall k | at <= k < at + j :: 0 <= r[k] < radix
      invariant forall k | 0 <= k < r.Length && !(at <= k < at + j) :: r[k] == old(r[k])
      invariant w < Power(radix, n - j)
      invariant Weighted(r[..], radix, at + j) + Power(radix, at + j) * w == old(Weighted(r[..], radix, at)) + Power(radix, at) * v
    {
      PutDigit(r, at + j, w, radix);
      QuotientBelow(w, radix, Power(radix, n - j - 1));
      w := w / radix;
    }
  }

  /** Writes one digit of `w` at `q`. */
  method PutDigit(r: array<int>, q: nat, w: nat, radix: nat)
    requires radix > 0 && q < r.Length
    modifies r
    ensures 0 <= r[q] < radix && forall k | 0 <= k < r.Length && k != q :: r[k] == old(r[k])
    ensures Weighted(r[..], radix, q + 1) + Power(radix, q + 1) * (w / radix) == old(Weighted(r[..], radix, q)) + Power(radix, q) * w
  {
    ghost var before := r[..];
    r[q] := w % radix;
    WeightedPrefix(r[..], before, radix, q);
    DigitStep(Power(radix, q), radix, w);
  }

  /** The digits of a 256-bit scalar: `per` of them in each of the four lower limbs, `last` in the upper one. */
  method Unpack(r: array<int>, s: array<nat>, radix: nat, per: nat, last: nat)
    requires radix > 0 && Power(radix, per) == TWO56 && Power(radix, last) == TWO32
    requires r.Length == per + per + per + per + last && s.Length == 5 && Limbs(s[..], TWO32)
    modifies r
    ensures forall k | 0 <= k < r.Length :: 0 <= r[k] < radix
    ensures Weighted(r[..], radix, r.Length) == Value(s[..])
  {
    ghost var limbs := s[..];
    var at, i := 0, 0;
    while i < 5
      invariant 0 <= i <= 5
      invariant at == [0, per, per + per, per + per + per, per + per + per + per, r.Length][i]
      invariant i < 5 ==> Power(radix, at) == Unit(i)
      invariant forall k | 0 <= k < at :: 0 <= r[k] < radix
      invariant Weighted(r[..], radix, at) == LimbPrefix(limbs, i)
      invariant limbs == s[..]
    {
      var m := if i == 4 then last else per;
      UnpackLimb(r, at, s[i], radix, m);
      PowerAdd(radix, at, per);
      at, i := at + m, i + 1;
    }
    LimbPrefixValue(limbs);
  }

  lemma PowersOf16(a: nat, b: nat)
    requires a == 14 && b == 8
    ensures Power(16, a) == TWO56 && Power(16, b) == TWO32
  {
    var c := 4;
    assert Power(16, 4) == TWO16;
    PowerSum(16, c, c, b, TWO16, TWO16);
    PowerSum(16, b, c, b + c, TWO32, TWO16);
    assert Power(16, 2) == TWO8;
    PowerSum(16, b + c, 2, a, TWO48, TWO8);
  }

  /** The digits of a value below 2^255 leave the top digit below 8. */
  lemma TopDigit(d: seq<int>, v: nat)
    requires |d| == 64 && Weighted(d, 16, 64) == v && forall k | 0 <= k < 64 :: 0 <= d[k] < 16
    requires v < TWO224 * 0x8000_0000
    ensures d[63] < 8
  {
    WeightedNonNegative(d, 63);
    PowerOf16At63(63);
  }

  lemma {:induction false} WeightedNonNegative(d: seq<int>, n: nat)
    requires n <= |d| && forall k | 0 <= k < n :: 0 <= d[k]
    ensures Weighted(d, 16, n) >= 0
  {
    if n > 0 {
      WeightedNonNegative(d, n - 1);
    }
  }

  lemma PowerOf16At63(n: nat)
    requires n == 63
    ensures Power(16, n) == TWO224 * 0x1000_0000
  {
    var a, b, c := 14, 8, 7;
    PowersOf16(a, b);
    PowerSum(16, a, a, a + a, TWO56, TWO56);
    PowerSum(16, a + a, a + a, a + a + a + a, TWO112, TWO112);
    assert Power(16, 7) == 0x1000_0000;
    PowerSum(16, a + a + a + a, c, n, TWO224, 0x1000_0000);
  }

  /** One step of making the digits signed: 16 overflows into the next digit, 8 to 15 become negative. */
  lemma SignedStep(d: seq<int>, i: nat, carry: int, e: seq<int>, carry': int)
    requires i + 1 < |d| == 64
    requires carry' == (d[i] + carry) % 16 / 8
    requires e == d[i := (d[i] + carry) % 16 - 16 * carry'][i + 1 := d[i + 1] + (d[i] + carry) / 16]
    ensures Weighted(e, 16, 64) + carry' * Power(16, i + 1) == Weighted(d, 16, 64) + carry * Power(16, i)
  {
    var x, y := (d[i] + carry) % 16 - 16 * carry', d[i + 1] + (d[i] + carry) / 16;
    WeightedUpdate(d, 16, 64, i, x);
    WeightedUpdate(d[i := x], 16, 64, i + 1, y);
    SignedDigits(Power(16, i), (d[i] + carry) / 16, carry, carry', x - d[i]);
  }

  lemma SignedDigits(p: int, t: int, carry: int, carry': int, dx: int)
    requires dx == carry - 16 * t - 16 * carry'
    ensures dx * p + t * (16 * p) + carry' * (16 * p) == carry * p
  {
    assert dx * p == carry * p - 16 * t * p - 16 * carry' * p;
  }

  /** Makes digit `i` signed, passing what it loses to the next digit or to the carry. */
  method SignDigit(r: array<int>, i: nat, carry: int) returns (c: int)
    requires r.Length == 64 && i < 63 && 0 <= carry <= 1 && 0 <= r[i] && r[i] + carry <= 16
    modifies r
    ensures 0 <= c <= 1 && -8 <= r[i] <= 7
    ensures r[i + 1] == old(r[i + 1]) || (r[i + 1] == old(r[i + 1]) + 1 && c == 0)
    ensures forall k | 0 <= k < 64 && k != i && k != i + 1 :: r[k] == old(r[k])
    ensures Weighted(r[..], 16, 64) + c * Power(16, i + 1) == old(Weighted(r[..], 16, 64)) + carry * Power(16, i)
  {
    ghost var d := r[..];
    r[i] := r[i] + carry;
    r[i + 1] := r[i + 1] + r[i] / 16;
    r[i] := r[i] % 16;
    c := r[i] / 8;
    r[i] := r[i] - c * 16;
    SignedStep(d, i, carry, r[..], c);
  }

  /** Radix 16 with digits from -8 to 8. */
  method Window4(r: array<int>, s: array<nat>)
    requires r.Length == 64 && s.Length == 5 && Limbs(s[..], 0x8000_0000)
    modifies r
    ensures Weighted(r[..], 16, 64) == Value(s[..])
    ensures forall k | 0 <= k < 64 :: -8 <= r[k] <= 8
  {
    ghost var v := Value(s[..]);
    PowersOf16(14, 8);
    Unpack(r, s, 16, 14, 8);
    TopDigit(r[..], v);
    MakeSigned(r, v);
  }

  method MakeSigned(r: array<int>, ghost v: int)
    requires r.Length == 64 && (forall k | 0 <= k < 64 :: 0 <= r[k] <= 15) && r[63] < 8
    requires Weighted(r[..], 16, 64) == v
    modifies r
    ensures Weighted(r[..], 16, 64) == v
    ensures forall k | 0 <= k < 64 :: -8 <= r[k] <= 8
  {
    var carry, i := 0, 0;
    while i < 63
      invariant 0 <= i <= 63 && 0 <= carry <= 1
      invariant forall k | 0 <= k < i :: -8 <= r[k] <= 7
      invariant forall k | i < k < 63 :: 0 <= r[k] <= 15
      invariant 0 <= r[i] && r[i] + carry <= (if i == 63 then 8 else 16)
      invariant i < 63 ==> 0 <= r[63] < 8
      invariant Weighted(r[..], 16, 64) + carry * Power(16, i) == v
    {
      carry := SignDigit(r, i, carry);
      i := i + 1;
    }
    SetDigit(r, i, r[i] + carry, 16);
  }
}
