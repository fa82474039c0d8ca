/** The constants of SHA-512 and the functions on 64-bit words it is built from. */
module ShaWords {
  import opened Words
  import opened Bits

  const K_ROW0: seq<Word64> := [
    0x428a2f98d728ae22, 0x7137449123ef65cd, 0xb5c0fbcfec4d3b2f, 0xe9b5dba58189dbbc,
    0x3956c25bf348b538, 0x59f111f1b605d019, 0x923f82a4af194f9b, 0xab1c5ed5da6d8118
  ]
  const K_ROW1: seq<Word64> := [
    0xd807aa98a3030242, 0x12835b0145706fbe, 0x243185be4ee4b28c, 0x550c7dc3d5ffb4e2,
    0x72be5d74f27b896f, 0x80deb1fe3b1696b1, 0x9bdc06a725c71235, 0xc19bf174cf692694
  ]
  const K_ROW2: seq<Word64> := [
    0xe49b69c19ef14ad2, 0xefbe4786384f25e3, 0x0fc19dc68b8cd5b5, 0x240ca1cc77ac9c65,
    0x2de92c6f592b0275, 0x4a7484aa6ea6e483, 0x5cb0a9dcbd41fbd4, 0x76f988da831153b5
  ]
  const K_ROW3: seq<Word64> := [
    0x983e5152ee66dfab, 0xa831c66d2db43210, 0xb00327c898fb213f, 0xbf597fc7beef0ee4,
    0xc6e00bf33da88fc2, 0xd5a79147930aa725, 0x06ca6351e003826f, 0x142929670a0e6e70
  ]
  const K_ROW4: seq<Word64> := [
    0x27b70a8546d22ffc, 0x2e1b21385c26c926, 0x4d2c6dfc5ac42aed, 0x53380d139d95b3df,
    0x650a73548baf63de, 0x766a0abb3c77b2a8, 0x81c2c92e47edaee6, 0x92722c851482353b
  ]
  const K_ROW5: seq<Word64> := [
    0xa2bfe8a14cf10364, 0xa81a664bbc423001, 0xc24b8b70d0f89791, 0xc76c51a30654be30,
    0xd192e819d6ef5218, 0xd69906245565a910, 0xf40e35855771202a, 0x106aa07032bbd1b8
  ]
  const K_ROW6: seq<Word64> := [
    0x19a4c116b8d2d0c8, 0x1e376c085141ab53, 0x2748774cdf8eeb99, 0x34b0bcb5e19b48a8,
    0x391c0cb3c5c95a63, 0x4ed8aa4ae3418acb, 0x5b9cca4f7763e373, 0x682e6ff3d6b2b8a3
  ]
  const K_ROW7: seq<Word64> := [
    0x748f82ee5defb2fc, 0x78a5636f43172f60, 0x84c87814a1f0ab72, 0x8cc702081a6439ec,
    0x90befffa23631e28, 0xa4506cebde82bde9, 0xbef9a3f7b2c67915, 0xc67178f2e372532b
  ]
  const K_ROW8: seq<Word64> := [
    0xca273eceea26619c, 0xd186b8c721c0c207, 0xeada7dd6cde0eb1e, 0xf57d4f7fee6ed178,
    0x06f067aa72176fba, 0x0a637dc5a2c898a6, 0x113f9804bef90dae, 0x1b710b35131c471b
  ]
  const K_ROW9: seq<Word64> := [
    0x28db77f523047d84, 0x32caab7b40c72493, 0x3c9ebe0a15c9bebc, 0x431d67c49c100d4c,
    0x4cc5d4becb3e42b6, 0x597f299cfc657e2a, 0x5fcb6fab3ad6faec, 0x6c44198c4a475817
  ]

  const K_TABLE: seq<Word64> := K_ROW0 + K_ROW1 + K_ROW2 + K_ROW3 + K_ROW4 + K_ROW5 + K_ROW6 + K_ROW7 + K_ROW8 + K_ROW9

  const IV_TABLE: seq<Word64> := [
    0x6a09e667f3bcc908, 0xbb67ae8584caa73b, 0x3c6ef372fe94f82b, 0xa54ff53a5f1d36f1,
    0x510e527fade682d1, 0x9b05688c2b3e6c1f, 0x1f83d9abfb41bd6b, 0x5be0cd19137e2179
  ]

  function Shr(x: Word64, k: nat): Word64 {
    Euclid(x, Power(2, k));
    MulBound(1, x / Power(2, k), Power(2, k), x / Power(2, k));
    x / Power(2, k)
  }

  /** The bits that are shifted out are lost. */
  function Shl(x: Word64, k: nat): Word64 {
    x * Power(2, k) % TWO64
  }

  function Rotr(x: Word64, k: nat): Word64
    requires 0 < k < 64
  {
    OrWord(Shr(x, k), Shl(x, 64 - k))
  }

  function Ch(x: Word64, y: Word64, z: Word64): Word64 {
    XorWord(z, AndWord(x, XorWord(y, z)))
  }

  function Maj(x: Word64, y: Word64, z: Word64): Word64 {
    OrWord(AndWord(OrWord(x, y), z), AndWord(x, y))
  }

  function S0(x: Word64): Word64 { XorWord(XorWord(Rotr(x, 28), Rotr(x, 34)), Rotr(x, 39)) }
  function S1(x: Word64): Word64 { XorWord(XorWord(Rotr(x, 14), Rotr(x, 18)), Rotr(x, 41)) }
  function G0(x: Word64): Word64 { XorWord(XorWord(Rotr(x, 1), Rotr(x, 8)), Shr(x, 7)) }
  function G1(x: Word64): Word64 { XorWord(XorWord(Rotr(x, 19), Rotr(x, 61)), Shr(x, 6)) }

  /** The sum of words, which wraps. */
  function Sum(s: nat): Word64 {
    s % TWO64
  }

  function Plus(a: Word64, b: Word64): Word64 {
    Sum(a + b)
  }

  /** The next word of the schedule. */
  function Next(a: Word64, b: Word64, c: Word64, d: Word64): Word64 {
    Sum(G1(a) + b + G0(c) + d)
  }

  function Temp0(e: Word64, f: Word64, g: Word64, h: Word64, k: Word64, w: Word64): Word64 {
    Sum(h + S1(e) + Ch(e, f, g) + k + w)
  }

  function Temp1(a: Word64, b: Word64, c: Word64): Word64 {
    Sum(S0(a) + Maj(a, b, c))
  }

  function LoadBE(p: seq<Byte>): Word64 {
    if |p| != 8 then 0 else
    OrWord(OrWord(OrWord(OrWord(OrWord(OrWord(OrWord(
      Shl(p[0], 56), Shl(p[1], 48)), Shl(p[2], 40)), Shl(p[3], 32)), Shl(p[4], 24)), Shl(p[5], 16)), Shl(p[6], 8)), p[7])
  }

  /** A 64-bit number, most significant byte first. */
  function StoreBE(v: nat): (p: seq<Byte>)
    ensures |p| == 8
  {
    [v / TWO56 % TWO8, v / TWO48 % TWO8, v / TWO40 % TWO8, v / TWO32 % TWO8, v / TWO24 % TWO8, v / TWO16 % TWO8, v / TWO8 % TWO8, v % TWO8]
  }
}
