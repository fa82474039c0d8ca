/** Keys, signatures and their verification. */
module Ed25519 {
  import opened Basics
  import opened Words
  import Modm
  import Field
  import opened Group
  import opened Edwards
  import opened Points
  import opened Codec
  import opened ScalarMult
  import opened BaseMult
  import Sha512
  import ShaWords

  const M: nat := Modm.M

  // ---- the setting: a hash, the curve with a base point of order m, and the two tables ----

  ghost predicate Hashing<W(!new)>(p: Sha512.Parameters<W>) {
    (Sha512.Sized(p) && forall w :: |p.store(w)| == 8) == true
  }

  lemma Sha512Hashes()
    ensures Hashing(Sha512.SHA512)
  {
    var p := Sha512.SHA512;
    forall w: Word64 ensures |p.store(w)| == 8 {
      assert p.store(w) == ShaWords.StoreBE(w);
    }
  }

  ghost predicate Setting<G(!new)>(c: Curve<G>, rows: seq<seq<Byte>>, odd: seq<NielsPoint>) {
    (EdwardsCurve(c) && OrderM(c.group, c.base) && BaseTable(c, rows) && OddBaseMultiples(c, odd)) == true
  }

  lemma HashSize<W(!new)>(p: Sha512.Parameters<W>, m: seq<Byte>)
    requires Hashing(p)
    ensures |Sha512.Hash(p, m)| == 64
  {
    var h := Sha512.Absorb(p, p.iv, Sha512.Pad(m), |Sha512.Pad(m)| / 128);
    assert |p.store(h[0])| == 8 && |p.store(h[1])| == 8 && |p.store(h[2])| == 8 && |p.store(h[3])| == 8;
    assert |p.store(h[4])| == 8 && |p.store(h[5])| == 8 && |p.store(h[6])| == 8 && |p.store(h[7])| == 8;
  }

  // ---- multiples of a point of order m ----

  ghost predicate OrderM<G>(g: Group<G>, b: G) {
    forall l: nat {:trigger Times(g, l, b)} :: l == M ==> Times(g, l, b) == g.zero
  }

  lemma TimesPeriodic<G(!new)>(g: Group<G>, n: int, k: nat, b: G)
    requires Abelian(g) && OrderM(g, b)
    ensures Times(g, n + k * M, b) == Times(g, n, b)
  {
    var l := M;
    TimesTimes(g, k, l, b);
    TimesZero(g, k);
    TimesAdd(g, n, k * l, b);
    Law(g, Times(g, n, b), g.zero, g.zero);
  }

  lemma TimesMod<G(!new)>(g: Group<G>, n: nat, b: G)
    requires Abelian(g) && OrderM(g, b)
    ensures Times(g, n % M, b) == Times(g, n, b)
  {
    assert n == n % M + n / M * M;
    TimesPeriodic(g, n % M, n / M, b);
  }

  // ---- scalars ----

  /** The limbs hold n mod m. */
  ghost predicate Holds(s: array<nat>, n: nat)
    reads s
  {
    (s.Length == 5 && Modm.Reduced(s[..]) && Modm.Value(s[..]) == n % M) == true
  }

  /** The little-endian value of up to 64 bytes, mod m. */
  method Scalar(bytes: seq<Byte>) returns (s: array<nat>)
    requires |bytes| <= 64
    ensures fresh(s) && Holds(s, LE(bytes))
  {
    s := new nat[5];
    Modm.Expand(s, bytes);
  }

  lemma ReducedTop(s: seq<nat>)
    requires Modm.Reduced(s)
    ensures Modm.Limbs(s, 0x8000_0000)
  {
  }

  // ---- secret and public keys ----

  /** Clears the low three bits and the top bit, and sets the bit below the top. */
  function Clamp(h: seq<Byte>): (r: seq<Byte>)
    requires |h| == 64
    ensures |r| == 64
  {
    h[0 := h[0] - h[0] % 8][31 := h[31] % 64 + 64]
  }

  /** A clamped scalar is a multiple of 8 in [2^254, 2^255). */
  lemma ClampRange(h: seq<Byte>)
    requires |h| == 64
    ensures var a := LE(Clamp(h)[..32]); a % 8 == 0 && TWO255 / 2 <= a < TWO255
  {
    var s := Clamp(h)[..32];
    TopByte(s, 0);
    assert LE(s) == s[0] + TWO8 * LEFrom(s, 1);
  }

  /** Only those bits change. */
  lemma ClampBits(h: seq<Byte>)
    requires |h| == 64
    ensures Clamp(h)[32..] == h[32..] && forall i | 1 <= i < 31 :: Clamp(h)[i] == h[i]
    ensures Clamp(h)[0] / 8 == h[0] / 8 && Clamp(h)[0] % 8 == 0
    ensures Clamp(h)[31] % 64 == h[31] % 64 && Clamp(h)[31] / 64 == 1
  {
  }

  /** The scalar that 32 bytes of a hash stand for (section 5.1.5 of RFC 8032). */
  function Clamped(b: nat): nat {
    TWO255 / 2 + b % (TWO255 / 2) - b % 8
  }

  lemma ClampValue(h: seq<Byte>)
    requires |h| == 64
    ensures LE(Clamp(h)[..32]) == Clamped(LE(h[..32]))
  {
    var s, t := h[..32], Clamp(h)[..32];
    var u := s[0 := h[0] - h[0] % 8];
    FirstByte(s);
    FirstByte(u);
    assert s[1..] == u[1..];
    TopByte(s, 0);
    TopByte(u, t[31]);
    assert u[31 := t[31]] == t;
    ClampParts(LE(s), h[0], h[31], LE(s[1..]));
  }

  lemma FirstByte(s: seq<Byte>)
    requires |s| == 32
    ensures LE(s) == s[0] + 256 * LE(s[1..])
  {
    LEOfHead(s[0], s[1..]);
    assert [s[0]] + s[1..] == s;
  }

  lemma ClampParts(b: nat, first: Byte, last: Byte, rest: nat)
    requires b == first + 256 * rest && TWO248 * last <= b < TWO248 * last + TWO248
    ensures Clamped(b) == b - first % 8 + TWO248 * (last % 64 + 64 - last)
  {
    LowPart(b, b - TWO248 * last, last);
    DivModUnique(b, 8, first / 8 + 32 * rest, first % 8);
  }

  lemma LowPart(b: nat, low: nat, last: Byte)
    requires b == low + TWO248 * last && low < TWO248
    ensures b % (TWO255 / 2) == low + TWO248 * (last % 64)
  {
    DivModUnique(b, TWO255 / 2, last / 64, low + TWO248 * (last % 64));
  }

  method ExtSk<W(0,!new)>(p: Sha512.Parameters<W>, sk: seq<Byte>) returns (extsk: seq<Byte>)
    requires Hashing(p)
    ensures |extsk| == 64 && extsk == ExpandedKey(p, sk)
  {
    var h := Sha512.HashPieces(p, [sk]);
    assert Sha512.Concat([sk], 1) == sk;
    HashSize(p, sk);
    extsk := Clamp(h);
  }

  ghost function ExpandedKey<W(!new)>(p: Sha512.Parameters<W>, sk: seq<Byte>): (r: seq<Byte>)
    requires Hashing(p)
    ensures |r| == 64
  {
    HashSize(p, sk);
    Clamp(Sha512.Hash(p, sk))
  }

  /** The secret scalar. */
  ghost function Secret<W(!new)>(p: Sha512.Parameters<W>, sk: seq<Byte>): nat
    requires Hashing(p)
  {
    LE(ExpandedKey(p, sk)[..32])
  }

  /** The secret scalar, from the hash of the secret key. */
  lemma SecretIs<W(!new)>(p: Sha512.Parameters<W>, sk: seq<Byte>)
    requires Hashing(p)
    ensures |Sha512.Hash(p, sk)| == 64 && Secret(p, sk) == Clamped(LE(Sha512.Hash(p, sk)[..32]))
    ensures ExpandedKey(p, sk)[32..] == Sha512.Hash(p, sk)[32..]
  {
    HashSize(p, sk);
    ClampValue(Sha512.Hash(p, sk));
    ClampBits(Sha512.Hash(p, sk));
  }

  /** The bytes are the encoding of n B. */
  ghost predicate Encodes<G>(c: Curve<G>, s: seq<Byte>, n: int) {
    |s| == 32 && LE(s) == Encoding(c, Times(c.group, n, c.base))
  }

  /** n B, packed, for a scalar below m. */
  method PackMultiple<G(!new)>(rows: seq<seq<Byte>>, s: array<nat>, ghost c: Curve<G>, ghost odd: seq<NielsPoint>, ghost n: nat) returns (r: seq<Byte>)
    requires Setting(c, rows, odd) && Holds(s, n)
    ensures Encodes(c, r, n)
  {
    ReducedTop(s[..]);
    var q := ScalarMultBase(rows, s, c);
    r := Codec.Pack(q, c, Times(c.group, n % M, c.base));
    TimesMod(c.group, n, c.base);
  }

  method PublicKey<W(0,!new), G(!new)>(p: Sha512.Parameters<W>, rows: seq<seq<Byte>>, sk: seq<Byte>, ghost c: Curve<G>, ghost odd: seq<NielsPoint>) returns (pk: seq<Byte>)
    requires Hashing(p) && Setting(c, rows, odd)
    ensures Encodes(c, pk, Secret(p, sk))
    ensures |Sha512.Hash(p, sk)| == 64 && Encodes(c, pk, Clamped(LE(Sha512.Hash(p, sk)[..32])))
  {
    SecretIs(p, sk);
    var extsk := ExtSk(p, sk);
    var a := Scalar(extsk[..32]);
    pk := PackMultiple(rows, a, c, odd, Secret(p, sk));
  }

  // ---- signing ----

  ghost function Hram<W(!new)>(p: Sha512.Parameters<W>, R: seq<Byte>, pk: seq<Byte>, m: seq<Byte>): nat
    requires Hashing(p)
  {
    LE(Sha512.Hash(p, R + pk + m))
  }

  ghost function Nonce<W(!new)>(p: Sha512.Parameters<W>, sk: seq<Byte>, m: seq<Byte>): nat
    requires Hashing(p)
  {
    LE(Sha512.Hash(p, ExpandedKey(p, sk)[32..] + m))
  }

  method HramScalar<W(0,!new)>(p: Sha512.Parameters<W>, R: seq<Byte>, pk: seq<Byte>, m: seq<Byte>) returns (s: array<nat>)
    requires Hashing(p)
    ensures fresh(s) && Holds(s, Hram(p, R, pk, m)) && Holds(s, LE(Sha512.Hash(p, R + pk + m)))
  {
    var pieces := [R, pk, m];
    var hram := Sha512.HashPieces(p, pieces);
    assert Sha512.Concat(pieces, 1) == R;
    assert Sha512.Concat(pieces, 2) == R + pk;
    HashSize(p, R + pk + m);
    s := Scalar(hram);
  }

  method NonceScalar<W(0,!new)>(p: Sha512.Parameters<W>, extsk: seq<Byte>, m: seq<Byte>, ghost sk: seq<Byte>) returns (r: array<nat>)
    requires Hashing(p) && extsk == ExpandedKey(p, sk)
    ensures fresh(r) && Holds(r, Nonce(p, sk, m)) && Holds(r, LE(Sha512.Hash(p, extsk[32..] + m)))
  {
    var pieces := [extsk[32..], m];
    var hashr := Sha512.HashPieces(p, pieces);
    assert Sha512.Concat(pieces, 1) == extsk[32..];
    HashSize(p, extsk[32..] + m);
    r := Scalar(hashr);
  }

  /** v = n + h x mod m */
  ghost predicate Responds(v: nat, n: nat, h: nat, x: nat) {
    forall u {:trigger Unfold(u)} :: Unfold(u) ==> v == (n + h * x) % M
  }

  /** S = r + h a mod m, as 32 bytes. */
  method Response(S: array<nat>, a: array<nat>, r: array<nat>, ghost h: nat, ghost x: nat, ghost n: nat) returns (s: seq<Byte>)
    requires Holds(S, h) && Holds(a, x) && Holds(r, n) && r != S
    modifies S
    ensures |s| == 32 && Responds(LE(s), n, h, x)
  {
    Modm.Mul(S, S, a);
    Modm.Add(S, S, r);
    s := Modm.Contract(S);
    ResponseValue(h, x, n);
  }

  lemma ResponseValue(h: nat, x: nat, n: nat)
    ensures ((h % M) * (x % M) % M + n % M) % M == (n + h * x) % M
  {
    var hq, xq, nq := h / M, x / M, n / M;
    var u, v := h % M, x % M;
    assert h * x == u * v + (hq * v + xq * u + hq * xq * M) * M by {
      assert h == u + hq * M && x == v + xq * M;
      assert (u + hq * M) * (v + xq * M) == u * v + u * (xq * M) + hq * M * v + hq * M * (xq * M);
    }
    var k := hq * v + xq * u + hq * xq * M;
    var pq := u * v / M;
    DivModUnique(n + h * x, M, k + pq + nq + (u * v % M + n % M) / M, (u * v % M + n % M) % M);
  }

  method Sign<W(0,!new), G(!new)>(p: Sha512.Parameters<W>, rows: seq<seq<Byte>>, m: seq<Byte>, sk: seq<Byte>, pk: seq<Byte>,
                                  ghost c: Curve<G>, ghost odd: seq<NielsPoint>) returns (RS: seq<Byte>)
    requires Hashing(p) && Setting(c, rows, odd)
    ensures Signature(c, p, m, sk, pk, RS)
    ensures |Sha512.Hash(p, sk)| == 64 && Encodes(c, RS[..32], LE(Sha512.Hash(p, Sha512.Hash(p, sk)[32..] + m)))
  {
    SecretIs(p, sk);
    var extsk := ExtSk(p, sk);
    var r := NonceScalar(p, extsk, m, sk);
    var R := PackMultiple(rows, r, c, odd, Nonce(p, sk, m));
    var s := Respond(p, R, pk, m, extsk, r, sk);
    RS := R + s;
    assert RS[..32] == R && RS[32..] == s;
  }

  method Respond<W(0,!new)>(p: Sha512.Parameters<W>, R: seq<Byte>, pk: seq<Byte>, m: seq<Byte>, extsk: seq<Byte>, r: array<nat>, ghost sk: seq<Byte>) returns (s: seq<Byte>)
    requires Hashing(p) && extsk == ExpandedKey(p, sk) && Holds(r, Nonce(p, sk, m))
    ensures |s| == 32 && Responds(LE(s), Nonce(p, sk, m), Hram(p, R, pk, m), Secret(p, sk))
  {
    var S := HramScalar(p, R, pk, m);
    var a := Scalar(extsk[..32]);
    s := Response(S, a, r, Hram(p, R, pk, m), Secret(p, sk), Nonce(p, sk, m));
  }

  /** The first half encodes r B, and the second is r + H(R, A, m) a mod m. */
  ghost predicate Signature<W(!new), G>(c: Curve<G>, p: Sha512.Parameters<W>, m: seq<Byte>, sk: seq<Byte>, pk: seq<Byte>, RS: seq<Byte>)
    requires Hashing(p)
  {
    && |RS| == 64 && Encodes(c, RS[..32], Nonce(p, sk, m))
    && Responds(LE(RS[32..]), Nonce(p, sk, m), Hram(p, RS[..32], pk, m), Secret(p, sk))
  }

  /** A signature, written out: R = r B and S = r + H(R, A, m) a mod m, where h is the hash of the secret key, a its clamped
      first half, and r the hash of its second half and the message. */
  lemma SignatureIs<W(!new), G>(c: Curve<G>, p: Sha512.Parameters<W>, m: seq<Byte>, sk: seq<Byte>, pk: seq<Byte>, RS: seq<Byte>,
                                h: seq<Byte>, a: nat, r: nat, e: nat)
    requires Hashing(p) && |RS| == 64 && h == Sha512.Hash(p, sk) && |h| == 64 && a == Clamped(LE(h[..32]))
    requires r == LE(Sha512.Hash(p, h[32..] + m)) && e == LE(Sha512.Hash(p, RS[..32] + pk + m))
    ensures Signature(c, p, m, sk, pk, RS) <==>
            var R := Times(c.group, r, c.base);
            LE(RS[..32]) == c.y(R) + TWO255 * (c.x(R) % 2) && LE(RS[32..]) == (r + e * a) % M
  {
    SecretIs(p, sk);
    RespondsIs(LE(RS[32..]), r, e, a);
  }

  lemma RespondsIs(v: nat, n: nat, h: nat, x: nat)
    ensures Responds(v, n, h, x) <==> v == (n + h * x) % M
  {
    assert Unfold(true);
  }

  // ---- verification ----

  ghost function PointY(pk: seq<Byte>): nat {
    Field.Residue(LE(pk) % TWO255)
  }

  /** x belongs to the negative of the point that `pk` encodes. */
  ghost predicate NegatedX(pk: seq<Byte>, x: nat) {
    x < Field.P && OnCurve(x, PointY(pk)) && (x == 0 || x % 2 != LE(pk) / TWO255)
  }

  /** The first half of the signature encodes S B + h A', where A' is the negated public key. */
  ghost predicate Checks<W(!new), G>(c: Curve<G>, p: Sha512.Parameters<W>, m: seq<Byte>, pk: seq<Byte>, RS: seq<Byte>, A': G)
    requires Hashing(p) && |RS| == 64
  {
    LE(RS[..32]) == Encoding(c, c.group.add(Times(c.group, Hram(p, RS[..32], pk, m) % M, A'), Times(c.group, LE(RS[32..]) % M, c.base)))
  }

  /** The top three bits are clear, the key decodes to a point, and the equation holds for it. */
  ghost predicate Accepts<W(!new), G>(c: Curve<G>, p: Sha512.Parameters<W>, m: seq<Byte>, pk: seq<Byte>, RS: seq<Byte>)
    requires Hashing(p) && |RS| == 64
  {
    RS[63] < 32 && exists x: nat :: NegatedX(pk, x) && Checks(c, p, m, pk, RS, c.at(x, PointY(pk)))
  }

  /** What opening checks, with `x` for the negated key, written out. */
  ghost predicate Opens<W(!new), G>(c: Curve<G>, p: Sha512.Parameters<W>, m: seq<Byte>, pk: seq<Byte>, RS: seq<Byte>, x: nat)
    requires Hashing(p) && |RS| == 64
  {
    var y := LE(pk) % TWO255 % Field.P;
    var Q := c.group.add(Times(c.group, LE(Sha512.Hash(p, RS[..32] + pk + m)) % M, c.at(x, y)), Times(c.group, LE(RS[32..]) % M, c.base));
    && x < Field.P && OnCurve(x, y) && (x == 0 || x % 2 != LE(pk) / TWO255)
    && LE(RS[..32]) == c.y(Q) + TWO255 * (c.x(Q) % 2)
  }

  lemma AcceptsIs<W(!new), G>(c: Curve<G>, p: Sha512.Parameters<W>, m: seq<Byte>, pk: seq<Byte>, RS: seq<Byte>)
    requires Hashing(p) && |RS| == 64
    ensures Accepts(c, p, m, pk, RS) <==> RS[63] < 32 && exists x: nat :: Opens(c, p, m, pk, RS, x)
  {
    forall x: nat ensures Opens(c, p, m, pk, RS, x) <==> NegatedX(pk, x) && Checks(c, p, m, pk, RS, c.at(x, PointY(pk))) {
      Field.ResidueIs(LE(pk) % TWO255);
    }
  }

  lemma NegatedUnique(pk: seq<Byte>, x: nat, x0: nat)
    requires Fermat() && |pk| == 32 && NegatedX(pk, x) && NegatedX(pk, x0)
    ensures x == x0
  {
    SameY(x, x0, PointY(pk));
    Representative(x, x0);
    ParityBit(pk);
    SameParity(x, x0, LE(pk) / TWO255);
  }

  lemma SameParity(x: nat, x0: nat, bit: nat)
    requires x < Field.P && x0 < Field.P && bit < 2 && (x == 0 || x % 2 != bit) && (x0 == 0 || x0 % 2 != bit)
    requires x == x0 || x == Field.FSub(0, x0)
    ensures x == x0
  {
    NegParity(x0);
  }

  method SignOpen<W(0,!new), G(!new)>(p: Sha512.Parameters<W>, odd: seq<NielsPoint>, m: seq<Byte>, pk: seq<Byte>, RS: seq<Byte>,
                                      ghost c: Curve<G>, ghost rows: seq<seq<Byte>>) returns (ret: int)
    requires Hashing(p) && Setting(c, rows, odd) && |pk| == 32 && |RS| == 64
    ensures ret == if Accepts(c, p, m, pk, RS) then 0 else -1
    ensures ret == 0 <==> RS[63] < 32 && exists x: nat :: Opens(c, p, m, pk, RS, x)
  {
    AcceptsIs(c, p, m, pk, RS);
    if RS[63] >= 32 {
      return -1;
    }
    var ok, A := UnpackNegative(pk);
    if !ok {
      NotDecodable(c, p, m, pk, RS);
      return -1;
    }
    UnpackedPoint(c, pk, A);
    var same := CheckEquation(p, odd, m, pk, RS, A, c, rows, c.at(Field.F(A.x), Field.F(A.y)));
    ret := if same then 0 else -1;
    DecodedAccepts(c, p, m, pk, RS, Field.F(A.x));
  }

  lemma NotDecodable<W(!new), G>(c: Curve<G>, p: Sha512.Parameters<W>, m: seq<Byte>, pk: seq<Byte>, RS: seq<Byte>)
    requires Hashing(p) && |pk| == 32 && |RS| == 64 && !(exists x :: OnCurve(x, LE(pk) % TWO255))
    ensures !Accepts(c, p, m, pk, RS)
  {
    forall x: nat ensures !NegatedX(pk, x) {
      SamePoint(x, LE(pk) % TWO255, PointY(pk));
    }
  }

  lemma DecodedAccepts<W(!new), G>(c: Curve<G>, p: Sha512.Parameters<W>, m: seq<Byte>, pk: seq<Byte>, RS: seq<Byte>, x: nat)
    requires Fermat() && Hashing(p) && |pk| == 32 && |RS| == 64 && RS[63] < 32 && NegatedX(pk, x)
    ensures Accepts(c, p, m, pk, RS) <==> Checks(c, p, m, pk, RS, c.at(x, PointY(pk)))
  {
    forall x': nat | NegatedX(pk, x') ensures x' == x {
      NegatedUnique(pk, x', x);
    }
  }

  method CheckEquation<W(0,!new), G(!new)>(p: Sha512.Parameters<W>, odd: seq<NielsPoint>, m: seq<Byte>, pk: seq<Byte>, RS: seq<Byte>, A: Ge,
                                           ghost c: Curve<G>, ghost rows: seq<seq<Byte>>, ghost A': G) returns (same: bool)
    requires Hashing(p) && Setting(c, rows, odd) && |RS| == 64 && RepFull(c, A, A')
    ensures same <==> Checks(c, p, m, pk, RS, A')
  {
    var hram := HramScalar(p, RS[..32], pk, m);
    var S := Scalar(RS[32..]);
    var checkR := PackCombination(A, hram, S, odd, c, rows, A', Hram(p, RS[..32], pk, m), LE(RS[32..]));
    var v := Verify(RS[..32], checkR);
    same := v == 1;
    LEEqual(RS[..32], checkR);
  }

  method PackCombination<G(!new)>(A: Ge, h: array<nat>, S: array<nat>, odd: seq<NielsPoint>, ghost c: Curve<G>, ghost rows: seq<seq<Byte>>, ghost A': G,
                                  ghost hn: nat, ghost sn: nat) returns (r: seq<Byte>)
    requires Setting(c, rows, odd) && RepFull(c, A, A') && Holds(h, hn) && Holds(S, sn)
    ensures |r| == 32 && LE(r) == Encoding(c, c.group.add(Times(c.group, hn % M, A'), Times(c.group, sn % M, c.base)))
  {
    ReducedTop(h[..]);
    ReducedTop(S[..]);
    var R := DoubleScalarMult(A, h, S, odd, c, A');
    r := Codec.Pack(R, c, c.group.add(Times(c.group, hn % M, A'), Times(c.group, sn % M, c.base)));
  }

  // ---- every signature is accepted ----

  /** S - (h mod m) a and n are the same multiple of B, for S = n + h a mod m. */
  lemma EquationHolds<G(!new)>(g: Group<G>, b: G, n: nat, h: nat, a: nat, s: nat)
    requires Abelian(g) && OrderM(g, b) && s == (n + h * a) % M
    ensures g.add(Times(g, h % M, g.neg(Times(g, a, b))), Times(g, s % M, b)) == Times(g, n, b)
  {
    var e := h % M * (0 - a);
    NegScaled(g, h % M, a, b, e);
    var j, k := Exponents(n, h, a, s, e);
    Combine(g, b, e, s, e + s, n, j, k);
  }

  lemma Combine<G(!new)>(g: Group<G>, b: G, e: int, s: nat, u: int, n: nat, j: nat, k: nat)
    requires Abelian(g) && OrderM(g, b) && u == e + s && u + j * M == n + k * M
    ensures g.add(Times(g, e, b), Times(g, s, b)) == Times(g, n, b)
  {
    TimesAdd(g, e, s, b);
    SameMultiple(g, b, u, n, j, k);
  }

  lemma NegScaled<G(!new)>(g: Group<G>, h: nat, a: nat, b: G, e: int)
    requires Abelian(g) && e == h * (0 - a)
    ensures Times(g, h, g.neg(Times(g, a, b))) == Times(g, e, b)
  {
    TimesAdd(g, a, 0 - a, b);
    NegUnique(g, Times(g, a, b), Times(g, 0 - a, b));
    TimesTimes(g, h, 0 - a, b);
  }

  lemma SameMultiple<G(!new)>(g: Group<G>, b: G, u: int, v: int, j: nat, k: nat)
    requires Abelian(g) && OrderM(g, b) && u + j * M == v + k * M
    ensures Times(g, u, b) == Times(g, v, b)
  {
    TimesPeriodic(g, u, j, b);
    TimesPeriodic(g, v, k, b);
  }

  lemma Exponents(n: nat, h: nat, a: nat, s: nat, e: int) returns (j: nat, k: nat)
    requires s == (n + h * a) % M && e == h % M * (0 - a)
    ensures s % M == s && e + s + j * M == n + k * M
  {
    var u, q := h % M, h / M;
    j, k := (n + h * a) / M, q * a;
    assert h == u + q * M;
    assert h * a == u * a + q * M * a;
    assert q * M * a == q * a * M;
    assert u * (0 - a) == 0 - u * a;
  }

  lemma TopBitsClear(s: seq<Byte>)
    requires |s| == 32 && LE(s) < M
    ensures s[31] < 32
  {
    TopByte(s, 0);
  }

  /** The negative of the public key's point, as the verifier finds it. */
  lemma KeyDecodes<G(!new)>(c: Curve<G>, A: G, pk: seq<Byte>)
    requires EdwardsCurve(c) && |pk| == 32 && LE(pk) == Encoding(c, A)
    ensures var x := c.x(c.group.neg(A)); NegatedX(pk, x) && c.at(x, PointY(pk)) == c.group.neg(A)
  {
    PointLaw(c, A);
    PointLaw(c, c.group.neg(A));
    KeyParts(pk, c.x(A), c.y(A), c.x(c.group.neg(A)));
  }

  lemma KeyParts(pk: seq<Byte>, x: nat, y: nat, x': nat)
    requires LE(pk) == y + TWO255 * (x % 2) && x < Field.P && y < Field.P && x' == Field.FSub(0, x)
    ensures PointY(pk) == y && x' < Field.P && (x' == 0 || x' % 2 != LE(pk) / TWO255)
  {
    DecodeParts(y, x % 2, LE(pk));
    Field.ResidueIs(y);
    NegParity(x);
  }

  /** A signature made with the secret key of `pk` passes verification. */
  lemma SignatureAccepted<W(!new), G(!new)>(c: Curve<G>, p: Sha512.Parameters<W>, rows: seq<seq<Byte>>, odd: seq<NielsPoint>,
                                            m: seq<Byte>, sk: seq<Byte>, pk: seq<Byte>, RS: seq<Byte>)
    requires Hashing(p) && Setting(c, rows, odd) && Encodes(c, pk, Secret(p, sk)) && Signature(c, p, m, sk, pk, RS)
    ensures Accepts(c, p, m, pk, RS)
  {
    var A := Times(c.group, Secret(p, sk), c.base);
    KeyDecodes(c, A, pk);
    ResponseChecks(c, RS[..32], RS[32..], Nonce(p, sk, m), Hram(p, RS[..32], pk, m), Secret(p, sk));
    assert Checks(c, p, m, pk, RS, c.group.neg(A));
  }

  lemma ResponseChecks<G(!new)>(c: Curve<G>, R: seq<Byte>, s: seq<Byte>, n: nat, h: nat, a: nat)
    requires Abelian(c.group) && OrderM(c.group, c.base)
    requires Encodes(c, R, n) && |s| == 32 && Responds(LE(s), n, h, a)
    ensures s[31] < 32
    ensures LE(R) == Encoding(c, c.group.add(Times(c.group, h % M, c.group.neg(Times(c.group, a, c.base))), Times(c.group, LE(s) % M, c.base)))
  {
    assert Unfold(true);
    TopBitsClear(s);
    EquationHolds(c.group, c.base, n, h, a, LE(s));
  }

  /** Signing and then opening, with the public key made from the same secret key, always succeeds. */
  method SignThenOpen<W(0,!new), G(!new)>(p: Sha512.Parameters<W>, rows: seq<seq<Byte>>, odd: seq<NielsPoint>, m: seq<Byte>, sk: seq<Byte>, ghost c: Curve<G>) returns (ret: int)
    requires Hashing(p) && Setting(c, rows, odd)
    ensures ret == 0
  {
    var pk := PublicKey(p, rows, sk, c, odd);
    var RS := Sign(p, rows, m, sk, pk, c, odd);
    SignatureAccepted(c, p, rows, odd, m, sk, pk, RS);
    ret := SignOpen(p, odd, m, pk, RS, c, rows);
  }
}
