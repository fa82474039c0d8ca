/** The hash that is computed is the one of FIPS 180-4. */
module ShaStandard {
  import opened Basics
  import opened Words
  import opened Bits
  import ShaWords
  import opened Sha512
  import Fips180
  import opened ShaTables

  // ---- the functions on words ----

  lemma RotrStandard(x: Word64, k: nat)
    requires 0 < k < 64
    ensures ShaWords.Rotr(x, k) == Fips180.RotrWord(k, x)
  {
    var p, q, n := Power(2, k), Power(2, 64 - k), WORD;
    Fips180.TwoParts(k);
    ModScale(x, p, q);
    QuotientBelow(x, p, q);
    OrIsSum(x % p, x / p, n - k, n);
  }

  lemma ChStandard(x: Word64, y: Word64, z: Word64)
    ensures ShaWords.Ch(x, y, z) == Fips180.Ch(x, y, z)
  {
    forall i | 0 <= i < 64 ensures Bit(ShaWords.Ch(x, y, z), i) == Bit(Fips180.Ch(x, y, z), i) {
      ChBit(x, y, z, i);
    }
    SameWord(ShaWords.Ch(x, y, z), Fips180.Ch(x, y, z));
  }

  /** Each bit of x chooses between the bits of y and z. */
  lemma ChBit(x: Word64, y: Word64, z: Word64, i: nat)
    requires i < 64
    ensures Bit(ShaWords.Ch(x, y, z), i) == Bit(Fips180.Ch(x, y, z), i) == if Bit(x, i) == 1 then Bit(y, i) else Bit(z, i)
  {
    XorBit(y, z, i);
    AndBit(x, XorWord(y, z), i);
    XorBit(z, AndWord(x, XorWord(y, z)), i);
    AndBit(x, y, i);
    NotWordBit(x, i);
    AndBit(NotWord(x), z, i);
    XorBit(AndWord(x, y), AndWord(NotWord(x), z), i);
  }

  lemma MajStandard(x: Word64, y: Word64, z: Word64)
    ensures ShaWords.Maj(x, y, z) == Fips180.Maj(x, y, z)
  {
    forall i | 0 <= i < 64 ensures Bit(ShaWords.Maj(x, y, z), i) == Bit(Fips180.Maj(x, y, z), i) {
      MajBit(x, y, z, i);
    }
    SameWord(ShaWords.Maj(x, y, z), Fips180.Maj(x, y, z));
  }

  /** Each bit is the one that the majority of the three words has. */
  lemma MajBit(x: Word64, y: Word64, z: Word64, i: nat)
    requires i < 64
    ensures Bit(ShaWords.Maj(x, y, z), i) == Bit(Fips180.Maj(x, y, z), i) == if Bit(x, i) + Bit(y, i) + Bit(z, i) >= 2 then 1 else 0
  {
    OrBit(x, y, i);
    AndBit(OrWord(x, y), z, i);
    AndBit(x, y, i);
    OrBit(AndWord(OrWord(x, y), z), AndWord(x, y), i);
    AndBit(x, z, i);
    AndBit(y, z, i);
    XorBit(AndWord(x, y), AndWord(x, z), i);
    XorBit(XorWord(AndWord(x, y), AndWord(x, z)), AndWord(y, z), i);
  }

  lemma S0Standard(x: Word64)
    ensures ShaWords.S0(x) == Fips180.Sigma0(x)
  {
    RotrStandard(x, 28);
    RotrStandard(x, 34);
    RotrStandard(x, 39);
  }

  lemma S1Standard(x: Word64)
    ensures ShaWords.S1(x) == Fips180.Sigma1(x)
  {
    RotrStandard(x, 14);
    RotrStandard(x, 18);
    RotrStandard(x, 41);
  }

  lemma G0Standard(x: Word64)
    ensures ShaWords.G0(x) == Fips180.LowSigma0(x)
  {
    RotrStandard(x, 1);
    RotrStandard(x, 8);
  }

  lemma G1Standard(x: Word64)
    ensures ShaWords.G1(x) == Fips180.LowSigma1(x)
  {
    RotrStandard(x, 19);
    RotrStandard(x, 61);
  }

  // ---- words and bytes ----

  lemma Places(k: nat)
    requires k <= 56
    ensures Power(2, k + 8) == Power(2, k) * 256 && Power(2, 64 - k) == Power(2, 56 - k) * 256
    ensures Power(2, k) * (Power(2, 56 - k) * 256) == TWO64
  {
    assert Power(2, 8) == TWO8;
    PowerAdd(2, k, 8);
    PowerAdd(2, 56 - k, 8);
    Fips180.TwoParts(k);
  }

  lemma LoadBounds(a: nat, b: Byte, p: nat, q: nat)
    requires a < q && p > 0 && p * (q * 256) == TWO64
    ensures 256 * a + b < q * 256 && 0 <= b * p < p * 256 && b * p < TWO64 && (256 * a + b) * p == a * (p * 256) + b * p
  {
    MulBound(p, 256, p, q * 256);
    assert p * (b + 1) == b * p + p;
    MulBound(p, b + 1, p, 256);
  }

  /** One more byte of a word: `a` is above it, and its place has the weight 2^k. */
  lemma LoadStep(a: nat, b: Byte, k: nat, v: Word64)
    requires k <= 56 && a < Power(2, 56 - k) && v == a * Power(2, k + 8)
    ensures OrWord(v, ShaWords.Shl(b, k)) == (a * 256 + b) * Power(2, k) && a * 256 + b < Power(2, 64 - k)
  {
    Places(k);
    LoadBounds(a, b, Power(2, k), Power(2, 56 - k));
    DivModUnique(b * Power(2, k), TWO64, 0, b * Power(2, k));
    OrIsSum(a, b * Power(2, k), k + 8, WORD);
  }

  lemma NextDigit(p: seq<Byte>, i: nat)
    requires i < |p|
    ensures BEValue(p[..i + 1]) == BEValue(p[..i]) * 256 + p[i]
  {
    assert p[..i + 1][..i] == p[..i];
  }

  /** Eight bytes are loaded as the number they are in big-endian order. */
  lemma LoadStandard(p: seq<Byte>)
    requires |p| == 8
    ensures ShaWords.LoadBE(p) == BEValue(p)
  {
    var v0 := LoadFirst(p, 56);
    var v1 := LoadNext(p, 1, 48, v0);
    var v2 := LoadNext(p, 2, 40, v1);
    var v3 := LoadNext(p, 3, 32, v2);
    var v4 := LoadNext(p, 4, 24, v3);
    var v5 := LoadNext(p, 5, 16, v4);
    var v6 := LoadNext(p, 6, 8, v5);
    LoadLast(p, v6);
  }

  lemma LoadLast(p: seq<Byte>, v: Word64)
    requires |p| == 8 && Loaded(p, 7, v)
    ensures OrWord(v, p[7]) == BEValue(p)
  {
    var k := 0;
    var r := LoadNext(p, 7, k, v);
    NoShift(p[7], k);
    WholeLoaded(p, 8, r);
  }

  lemma NoShift(x: Word64, k: nat)
    requires k == 0
    ensures ShaWords.Shl(x, k) == x
  {
  }

  lemma WholeLoaded(p: seq<Byte>, n: nat, r: Word64)
    requires |p| == n == 8 && Loaded(p, n, r)
    ensures r == BEValue(p)
  {
    assert Unfold(true);
    assert Power(2, 64 - 8 * n) == 1;
    assert p[..n] == p;
  }

  /** `v` holds the first `i` bytes, in their places. */
  ghost predicate Loaded(p: seq<Byte>, i: nat, v: Word64) {
    (i <= |p| && i <= 8 && forall u {:trigger Unfold(u)} :: Unfold(u) ==>
       v == BEValue(p[..i]) * Power(2, 64 - 8 * i) && BEValue(p[..i]) < Power(2, 8 * i)) == true
  }

  lemma LoadFirst(p: seq<Byte>, k: nat) returns (r: Word64)
    requires |p| == 8 && k == 56
    ensures Loaded(p, 1, r) && r == ShaWords.Shl(p[0], k)
  {
    r := ShaWords.Shl(p[0], k);
    assert Power(2, 8) == TWO8;
    NextDigit(p, 0);
    LoadStep(0, p[0], k, 0);
    Places(k);
    LoadBounds(0, p[0], Power(2, k), 1);
    DivModUnique(p[0] * Power(2, k), TWO64, 0, p[0] * Power(2, k));
  }

  lemma LoadNext(p: seq<Byte>, i: nat, k: nat, v: Word64) returns (r: Word64)
    requires |p| == 8 && 0 < i < 8 && k == 56 - 8 * i && Loaded(p, i, v)
    ensures Loaded(p, i + 1, r) && r == OrWord(v, ShaWords.Shl(p[i], k))
  {
    r := OrWord(v, ShaWords.Shl(p[i], k));
    assert Unfold(true);
    NextDigit(p, i);
    LoadStep(BEValue(p[..i]), p[i], k, v);
  }

  lemma {:induction false} BigEndianValue(x: nat, n: nat)
    ensures BEValue(Fips180.BigEndian(x, n)) == x % Power(256, n)
  {
    if n > 0 {
      var s := Fips180.BigEndian(x, n);
      BigEndianValue(x / 256, n - 1);
      assert s[..n - 1] == Fips180.BigEndian(x / 256, n - 1);
      DivDiv(x, 256, Power(256, n - 1));
    }
  }

  lemma StoreDigit(v: nat, u: nat)
    requires u > 0
    ensures v / u / 256 == v / (u * 256)
  {
    DivDiv(v, u, 256);
  }

  /** A word is stored as its bytes in big-endian order. */
  lemma StoreStandard(v: nat)
    ensures ShaWords.StoreBE(v) == Fips180.BigEndian(v, 8)
  {
    StoreDigit(v, TWO8);
    StoreDigit(v, TWO16);
    StoreDigit(v, TWO24);
    StoreDigit(v, TWO32);
    StoreDigit(v, TWO40);
    StoreDigit(v, TWO48);
    assert Power(256, 4) == TWO32;
    FourDigits(v / TWO32, v / TWO40, v / TWO48, v / TWO56);
    FourDigits(v, v / TWO8, v / TWO16, v / TWO24);
    BigEndianSplit(v, 4, 4, v / TWO32);
  }

  lemma FourDigits(x0: nat, x1: nat, x2: nat, x3: nat)
    requires x1 == x0 / 256 && x2 == x1 / 256 && x3 == x2 / 256
    ensures Fips180.BigEndian(x0, 4) == [x3 % 256, x2 % 256, x1 % 256, x0 % 256]
  {
    assert Fips180.BigEndian(x3, 1) == [x3 % 256];
    assert Fips180.BigEndian(x2, 2) == [x3 % 256, x2 % 256];
    assert Fips180.BigEndian(x1, 3) == [x3 % 256, x2 % 256, x1 % 256];
  }

  lemma HigherPart(x: nat, b: nat)
    requires b > 0
    ensures x / 256 / Power(256, b - 1) == x / Power(256, b)
  {
    DivDiv(x, 256, Power(256, b - 1));
  }

  lemma {:induction false} BigEndianSplit(x: nat, a: nat, b: nat, y: nat)
    requires y == x / Power(256, b)
    ensures Fips180.BigEndian(x, a + b) == Fips180.BigEndian(y, a) + Fips180.BigEndian(x, b)
    decreases b
  {
    if b > 0 {
      HigherPart(x, b);
      BigEndianSplit(x / 256, a, b - 1, y);
      BigEndianStep(x, a, b, y);
    }
  }

  lemma BigEndianStep(x: nat, a: nat, b: nat, y: nat)
    requires b > 0 && Fips180.BigEndian(x / 256, a + (b - 1)) == Fips180.BigEndian(y, a) + Fips180.BigEndian(x / 256, b - 1)
    ensures Fips180.BigEndian(x, a + b) == Fips180.BigEndian(y, a) + Fips180.BigEndian(x, b)
  {
    Regrouped(Fips180.BigEndian(y, a), Fips180.BigEndian(x / 256, b - 1), [x % 256]);
  }

  lemma {:induction false} BigEndianLow(x: nat, n: nat)
    ensures Fips180.BigEndian(x % Power(256, n), n) == Fips180.BigEndian(x, n)
  {
    if n > 0 {
      DivDiv(x, 256, Power(256, n - 1));
      BigEndianLow(x / 256, n - 1);
    }
  }

  /** The bytes that are stored have the word as their value. */
  lemma StoredValue(v: Word64)
    ensures BEValue(ShaWords.StoreBE(v)) == v
  {
    var n := 8;
    StoreStandard(v);
    BigEndianValue(v, n);
    EightBytesPower(n);
    DivModUnique(v, TWO64, 0, v);
  }

  /** Storing and loading a word gives it back. */
  lemma StoreThenLoad(v: Word64, s: seq<Byte>)
    requires s == ShaWords.StoreBE(v)
    ensures ShaWords.LoadBE(s) == v
  {
    StoredValue(v);
    LoadStandard(s);
  }

  lemma EightBytesPower(n: nat)
    requires n == 8
    ensures Power(256, n) == TWO64
  {
    var k := 4;
    assert Power(256, k) == TWO32;
    PowerAdd(256, k, k);
  }

  // ---- padding ----

  lemma LengthStandard(n: nat)
    ensures LengthField(n) == Fips180.BigEndian(8 * n, 16)
  {
    var k := 8;
    EightBytesPower(k);
    BigEndianSplit(8 * n, k, k, 8 * n / TWO64);
    StoreStandard(8 * n / TWO64 % TWO64);
    StoreStandard(8 * n % TWO64);
    BigEndianLow(8 * n / TWO64, k);
    BigEndianLow(8 * n, k);
  }

  lemma ZeroBytes(n: nat)
    ensures (Fips180.ZeroBits(8 * n) - 7) / 8 == (111 - n) % 128
  {
    var q, r := (111 - n) / 128, (111 - n) % 128;
    DivModUnique(895 - 8 * n, 1024, q, 8 * r + 7);
  }

  lemma PadStandard(m: seq<Byte>)
    ensures Pad(m) == Fips180.Padded(m)
  {
    LengthStandard(|m|);
    ZeroBytes(|m|);
    assert Zeros((111 - |m|) % 128) == seq((Fips180.ZeroBits(8 * |m|) - 7) / 8, _ => 0);
  }

  // ---- the computation, for any operations ----

  /** The operations are those of the reference, whatever its expressions are. */
  ghost predicate Matches(p: Parameters<Word64>, x: Fips180.Expressions) {
    (|p.k| == 80 && |p.iv| == 8 && forall u {:trigger Unfold(u)} :: Unfold(u) ==>
     && (forall s: seq<Byte> | |s| == 8 :: p.load(s) == BEValue(s))
     && (forall w: Word64 :: p.store(w) == Fips180.BigEndian(w, 8))
     && (forall a: Word64, b: Word64 :: p.add(a, b) == (a + b) % TWO64)
     && (forall a: Word64, b: Word64, c: Word64, d: Word64 :: p.next(a, b, c, d) == x.next(a, b, c, d))
     && (forall e: Word64, f: Word64, g: Word64, h: Word64, k: Word64, w: Word64 :: p.temp0(e, f, g, h, k, w) == x.t1(e, f, g, h, k, w))
     && (forall a: Word64, b: Word64, c: Word64 :: p.temp1(a, b, c) == x.t2(a, b, c))) == true
  }

  lemma {:induction false} ScheduleStandard(p: Parameters<Word64>, x: Fips180.Expressions, block: seq<Byte>, n: nat)
    requires Matches(p, x) && |block| == 128
    ensures forall t | 0 <= t < n :: Fips180.Schedule(x, block, n)[t] == Schedule(p, block, t)
  {
    if n > 0 {
      ScheduleStandard(p, x, block, n - 1);
      ScheduleWord(p, x, block, n - 1, Fips180.Schedule(x, block, n - 1));
    }
  }

  lemma ScheduleWord(p: Parameters<Word64>, x: Fips180.Expressions, block: seq<Byte>, t: nat, w: seq<Word64>)
    requires Matches(p, x) && |block| == 128 && |w| == t && forall i | 0 <= i < t :: w[i] == Schedule(p, block, i)
    ensures Schedule(p, block, t)
            == if t < 16 then BEValue(block[8 * t..8 * t + 8]) % TWO64 else x.next(w[t - 2], w[t - 7], w[t - 15], w[t - 16])
  {
    assert Unfold(true);
    if t < 16 {
      var v: Word64 := p.load(block[8 * t..8 * t + 8]);
      DivModUnique(v, TWO64, 0, v);
    }
  }

  function Listed(v: Fips180.State): (r: seq<Word64>)
    ensures |r| == 8
  {
    [v.a, v.b, v.c, v.d, v.e, v.f, v.g, v.h]
  }

  lemma TurnStandard(p: Parameters<Word64>, x: Fips180.Expressions, v: Fips180.State, k: Word64, w: Word64)
    requires Matches(p, x)
    ensures Round(p, Listed(v), k, w) == Listed(Fips180.Turn(x, v, k, w))
  {
    assert Unfold(true);
  }

  lemma {:induction false} TurnsStandard(p: Parameters<Word64>, x: Fips180.Expressions, v: Fips180.State, block: seq<Byte>, w: seq<Word64>, n: nat)
    requires Matches(p, x) && |block| == 128 && n <= 80 && |w| == 80 && forall t | 0 <= t < |w| :: w[t] == Schedule(p, block, t)
    ensures Rounds(p, Listed(v), block, n) == Listed(Fips180.Turns(x, p.k, v, w, n))
  {
    if n > 0 {
      TurnsStandard(p, x, v, block, w, n - 1);
      TurnStandard(p, x, Fips180.Turns(x, p.k, v, w, n - 1), p.k[n - 1], w[n - 1]);
    }
  }

  lemma BlockStandard(p: Parameters<Word64>, x: Fips180.Expressions, v: Fips180.State, block: seq<Byte>)
    requires Matches(p, x) && |block| == 128
    ensures Compress(p, Listed(v), block) == Listed(Fips180.NextValue(x, p.k, v, block))
  {
    var n := |p.k|;
    var w := Fips180.Schedule(x, block, n);
    ScheduleStandard(p, x, block, n);
    TurnsStandard(p, x, v, block, w, n);
    AddStandard(p, x, Fips180.Turns(x, p.k, v, w, n), v, Compress(p, Listed(v), block));
  }

  lemma AddWord(p: Parameters<Word64>, x: Fips180.Expressions, a: Word64, b: Word64)
    requires Matches(p, x)
    ensures p.add(a, b) == (a + b) % TWO64
  {
    assert Unfold(true);
  }

  lemma AddStandard(p: Parameters<Word64>, x: Fips180.Expressions, r: Fips180.State, v: Fips180.State, sum: seq<Word64>)
    requires Matches(p, x) && |sum| == 8 && forall i | 0 <= i < 8 :: sum[i] == p.add(Listed(r)[i], Listed(v)[i])
    ensures sum == Listed(Fips180.AddWords(r, v))
  {
    AddWord(p, x, r.a, v.a);
    AddWord(p, x, r.b, v.b);
    AddWord(p, x, r.c, v.c);
    AddWord(p, x, r.d, v.d);
    AddWord(p, x, r.e, v.e);
    AddWord(p, x, r.f, v.f);
    AddWord(p, x, r.g, v.g);
    AddWord(p, x, r.h, v.h);
    EightEqual(sum, Listed(Fips180.AddWords(r, v)));
  }

  lemma EightEqual(s: seq<Word64>, t: seq<Word64>)
    requires |s| == |t| == 8 && s[0] == t[0] && s[1] == t[1] && s[2] == t[2] && s[3] == t[3]
    requires s[4] == t[4] && s[5] == t[5] && s[6] == t[6] && s[7] == t[7]
    ensures s == t
  {
  }

  lemma {:induction false} ValueStandard(p: Parameters<Word64>, x: Fips180.Expressions, iv: Fips180.State, s: seq<Byte>, n: nat)
    requires Matches(p, x) && 128 * n <= |s|
    ensures Absorb(p, Listed(iv), s, n) == Listed(Fips180.Value(x, p.k, iv, s, n))
  {
    if n > 0 {
      ValueStandard(p, x, iv, s, n - 1);
      BlockStandard(p, x, Fips180.Value(x, p.k, iv, s, n - 1), s[128 * (n - 1)..128 * n]);
    }
  }

  lemma DigestStandard(p: Parameters<Word64>, x: Fips180.Expressions, v: Fips180.State)
    requires Matches(p, x)
    ensures Digest(p, Listed(v)) == Fips180.Digest(v)
  {
    assert Unfold(true);
  }

  lemma HashMatches(p: Parameters<Word64>, x: Fips180.Expressions, iv: Fips180.State, m: seq<Byte>)
    requires Matches(p, x) && p.iv == Listed(iv)
    ensures Hash(p, m) == Fips180.Computed(x, p.k, iv, m)
  {
    PadStandard(m);
    ValueStandard(p, x, iv, Pad(m), |Pad(m)| / 128);
    DigestStandard(p, x, Fips180.Value(x, p.k, iv, Pad(m), |Pad(m)| / 128));
  }

  // ---- SHA-512 ----

  lemma NextStandard(a: Word64, b: Word64, c: Word64, d: Word64)
    ensures ShaWords.Next(a, b, c, d) == Fips180.NextWord(a, b, c, d)
  {
    G1Standard(a);
    G0Standard(c);
  }

  lemma Temp0Standard(e: Word64, f: Word64, g: Word64, h: Word64, k: Word64, w: Word64)
    ensures ShaWords.Temp0(e, f, g, h, k, w) == Fips180.T1(e, f, g, h, k, w)
  {
    S1Standard(e);
    ChStandard(e, f, g);
  }

  lemma Temp1Standard(a: Word64, b: Word64, c: Word64)
    ensures ShaWords.Temp1(a, b, c) == Fips180.T2(a, b, c)
  {
    S0Standard(a);
    MajStandard(a, b, c);
  }

  lemma Sha512Matches()
    ensures Matches(SHA512, Fips180.STANDARD)
  {
    forall s: seq<Byte> | |s| == 8 ensures SHA512.load(s) == BEValue(s) { LoadStandard(s); }
    forall w: Word64 ensures SHA512.store(w) == Fips180.BigEndian(w, 8) { StoreStandard(w); }
    forall a: Word64, b: Word64, c: Word64, d: Word64 ensures SHA512.next(a, b, c, d) == Fips180.STANDARD.next(a, b, c, d) { NextStandard(a, b, c, d); }
    forall e: Word64, f: Word64, g: Word64, h: Word64, k: Word64, w: Word64
      ensures SHA512.temp0(e, f, g, h, k, w) == Fips180.STANDARD.t1(e, f, g, h, k, w)
    {
      Temp0Standard(e, f, g, h, k, w);
    }
    forall a: Word64, b: Word64, c: Word64 ensures SHA512.temp1(a, b, c) == Fips180.STANDARD.t2(a, b, c) { Temp1Standard(a, b, c); }
  }

  /** The hash of every message is the one of the standard, with the tables the standard describes. */
  lemma HashStandard(k: seq<Word64>, iv: Fips180.State, m: seq<Byte>)
    requires CubeRoots(PRIMES, k) && SquareRoots(PRIME_ROW0, Listed(iv))
    ensures |k| == 80 && Hash(SHA512, m) == Fips180.Sha512(k, iv, m)
  {
    TablesUnique(k, Listed(iv));
    Sha512Matches();
    HashMatches(SHA512, Fips180.STANDARD, iv, m);
  }
}
