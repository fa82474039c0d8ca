/** The two tables of constants: fractional parts of roots of primes (sections 4.2.3 and 5.3.5 of FIPS 180-4). */
module ShaTables {
  import opened Basics
  import opened Words
  import opened ShaWords

  const PRIME_ROW0: seq<nat> := [2, 3, 5, 7, 11, 13, 17, 19]
  const PRIME_ROW1: seq<nat> := [23, 29, 31, 37, 41, 43, 47, 53]
  const PRIME_ROW2: seq<nat> := [59, 61, 67, 71, 73, 79, 83, 89]
  const PRIME_ROW3: seq<nat> := [97, 101, 103, 107, 109, 113, 127, 131]
  const PRIME_ROW4: seq<nat> := [137, 139, 149, 151, 157, 163, 167, 173]
  const PRIME_ROW5: seq<nat> := [179, 181, 191, 193, 197, 199, 211, 223]
  const PRIME_ROW6: seq<nat> := [227, 229, 233, 239, 241, 251, 257, 263]
  const PRIME_ROW7: seq<nat> := [269, 271, 277, 281, 283, 293, 307, 311]
  const PRIME_ROW8: seq<nat> := [313, 317, 331, 337, 347, 349, 353, 359]
  const PRIME_ROW9: seq<nat> := [367, 373, 379, 383, 389, 397, 401, 409]

  /** The first eighty primes. */
  const PRIMES: seq<nat> := PRIME_ROW0 + PRIME_ROW1 + PRIME_ROW2 + PRIME_ROW3 + PRIME_ROW4 + PRIME_ROW5 + PRIME_ROW6 + PRIME_ROW7 + PRIME_ROW8 + PRIME_ROW9

  /** `a` and the first 64 bits after the binary point, `w`, are the cube root of `p`, cut off there. */
  ghost predicate CubeRootAt(p: nat, w: nat, a: nat) {
    var v := a * TWO64 + w;
    w < TWO64 && v * v * v <= p * TWO192 < (v + 1) * (v + 1) * (v + 1)
  }

  ghost predicate SquareRootAt(p: nat, w: nat, a: nat) {
    var v := a * TWO64 + w;
    w < TWO64 && v * v <= p * TWO128 < (v + 1) * (v + 1)
  }

  /** `w` is the fraction of the cube root of `p`; shown only where `Unfold(true)` is asserted. */
  ghost predicate IsCubeRoot(p: nat, w: nat) {
    (forall u {:trigger Unfold(u)} :: Unfold(u) ==> exists a: nat :: CubeRootAt(p, w, a)) == true
  }

  ghost predicate IsSquareRoot(p: nat, w: nat) {
    (forall u {:trigger Unfold(u)} :: Unfold(u) ==> exists a: nat :: SquareRootAt(p, w, a)) == true
  }

  /** Each word is the fraction of the cube root of its number. */
  ghost predicate CubeRoots(ps: seq<nat>, ws: seq<Word64>) {
    |ps| == |ws| && forall t | 0 <= t < |ps| :: IsCubeRoot(ps[t], ws[t])
  }

  lemma CubeRoot(p: nat, w: nat, a: nat)
    requires CubeRootAt(p, w, a)
    ensures IsCubeRoot(p, w)
  {
  }

  lemma SquareRoot(p: nat, w: nat, a: nat)
    requires SquareRootAt(p, w, a)
    ensures IsSquareRoot(p, w)
  {
  }

  lemma CubeRow0()
    ensures CubeRoots(PRIME_ROW0, K_ROW0)
  {
    CubeRoot(2, 0x428a2f98d728ae22, 1);
    CubeRoot(3, 0x7137449123ef65cd, 1);
    CubeRoot(5, 0xb5c0fbcfec4d3b2f, 1);
    CubeRoot(7, 0xe9b5dba58189dbbc, 1);
    CubeRoot(11, 0x3956c25bf348b538, 2);
    CubeRoot(13, 0x59f111f1b605d019, 2);
    CubeRoot(17, 0x923f82a4af194f9b, 2);
    CubeRoot(19, 0xab1c5ed5da6d8118, 2);
  }

  lemma CubeRow1()
    ensures CubeRoots(PRIME_ROW1, K_ROW1)
  {
    CubeRoot(23, 0xd807aa98a3030242, 2);
    CubeRoot(29, 0x12835b0145706fbe, 3);
    CubeRoot(31, 0x243185be4ee4b28c, 3);
    CubeRoot(37, 0x550c7dc3d5ffb4e2, 3);
    CubeRoot(41, 0x72be5d74f27b896f, 3);
    CubeRoot(43, 0x80deb1fe3b1696b1, 3);
    CubeRoot(47, 0x9bdc06a725c71235, 3);
    CubeRoot(53, 0xc19bf174cf692694, 3);
  }

  lemma CubeRow2()
    ensures CubeRoots(PRIME_ROW2, K_ROW2)
  {
    CubeRoot(59, 0xe49b69c19ef14ad2, 3);
    CubeRoot(61, 0xefbe4786384f25e3, 3);
    CubeRoot(67, 0x0fc19dc68b8cd5b5, 4);
    CubeRoot(71, 0x240ca1cc77ac9c65, 4);
    CubeRoot(73, 0x2de92c6f592b0275, 4);
    CubeRoot(79, 0x4a7484aa6ea6e483, 4);
    CubeRoot(83, 0x5cb0a9dcbd41fbd4, 4);
    CubeRoot(89, 0x76f988da831153b5, 4);
  }

  lemma CubeRow3()
    ensures CubeRoots(PRIME_ROW3, K_ROW3)
  {
    CubeRoot(97, 0x983e5152ee66dfab, 4);
    CubeRoot(101, 0xa831c66d2db43210, 4);
    CubeRoot(103, 0xb00327c898fb213f, 4);
    CubeRoot(107, 0xbf597fc7beef0ee4, 4);
    CubeRoot(109, 0xc6e00bf33da88fc2, 4);
    CubeRoot(113, 0xd5a79147930aa725, 4);
    CubeRoot(127, 0x06ca6351e003826f, 5);
    CubeRoot(131, 0x142929670a0e6e70, 5);
  }

  lemma CubeRow4()
    ensures CubeRoots(PRIME_ROW4, K_ROW4)
  {
    CubeRoot(137, 0x27b70a8546d22ffc, 5);
    CubeRoot(139, 0x2e1b21385c26c926, 5);
    CubeRoot(149, 0x4d2c6dfc5ac42aed, 5);
    CubeRoot(151, 0x53380d139d95b3df, 5);
    CubeRoot(157, 0x650a73548baf63de, 5);
    CubeRoot(163, 0x766a0abb3c77b2a8, 5);
    CubeRoot(167, 0x81c2c92e47edaee6, 5);
    CubeRoot(173, 0x92722c851482353b, 5);
  }

  lemma CubeRow5()
    ensures CubeRoots(PRIME_ROW5, K_ROW5)
  {
    CubeRoot(179, 0xa2bfe8a14cf10364, 5);
    CubeRoot(181, 0xa81a664bbc423001, 5);
    CubeRoot(191, 0xc24b8b70d0f89791, 5);
    CubeRoot(193, 0xc76c51a30654be30, 5);
    CubeRoot(197, 0xd192e819d6ef5218, 5);
    CubeRoot(199, 0xd69906245565a910, 5);
    CubeRoot(211, 0xf40e35855771202a, 5);
    CubeRoot(223, 0x106aa07032bbd1b8, 6);
  }

  lemma CubeRow6()
    ensures CubeRoots(PRIME_ROW6, K_ROW6)
  {
    CubeRoot(227, 0x19a4c116b8d2d0c8, 6);
    CubeRoot(229, 0x1e376c085141ab53, 6);
    CubeRoot(233, 0x2748774cdf8eeb99, 6);
    CubeRoot(239, 0x34b0bcb5e19b48a8, 6);
    CubeRoot(241, 0x391c0cb3c5c95a63, 6);
    CubeRoot(251, 0x4ed8aa4ae3418acb, 6);
    CubeRoot(257, 0x5b9cca4f7763e373, 6);
    CubeRoot(263, 0x682e6ff3d6b2b8a3, 6);
  }

  lemma CubeRow7()
    ensures CubeRoots(PRIME_ROW7, K_ROW7)
  {
    CubeRoot(269, 0x748f82ee5defb2fc, 6);
    CubeRoot(271, 0x78a5636f43172f60, 6);
    CubeRoot(277, 0x84c87814a1f0ab72, 6);
    CubeRoot(281, 0x8cc702081a6439ec, 6);
    CubeRoot(283, 0x90befffa23631e28, 6);
    CubeRoot(293, 0xa4506cebde82bde9, 6);
    CubeRoot(307, 0xbef9a3f7b2c67915, 6);
    CubeRoot(311, 0xc67178f2e372532b, 6);
  }

  lemma CubeRow8()
    ensures CubeRoots(PRIME_ROW8, K_ROW8)
  {
    CubeRoot(313, 0xca273eceea26619c, 6);
    CubeRoot(317, 0xd186b8c721c0c207, 6);
    CubeRoot(331, 0xeada7dd6cde0eb1e, 6);
    CubeRoot(337, 0xf57d4f7fee6ed178, 6);
    CubeRoot(347, 0x06f067aa72176fba, 7);
    CubeRoot(349, 0x0a637dc5a2c898a6, 7);
    CubeRoot(353, 0x113f9804bef90dae, 7);
    CubeRoot(359, 0x1b710b35131c471b, 7);
  }

  lemma CubeRow9()
    ensures CubeRoots(PRIME_ROW9, K_ROW9)
  {
    CubeRoot(367, 0x28db77f523047d84, 7);
    CubeRoot(373, 0x32caab7b40c72493, 7);
    CubeRoot(379, 0x3c9ebe0a15c9bebc, 7);
    CubeRoot(383, 0x431d67c49c100d4c, 7);
    CubeRoot(389, 0x4cc5d4becb3e42b6, 7);
    CubeRoot(397, 0x597f299cfc657e2a, 7);
    CubeRoot(401, 0x5fcb6fab3ad6faec, 7);
    CubeRoot(409, 0x6c44198c4a475817, 7);
  }

  lemma CubesAppend(ps: seq<nat>, ws: seq<Word64>, qs: seq<nat>, vs: seq<Word64>)
    requires CubeRoots(ps, ws) && CubeRoots(qs, vs)
    ensures CubeRoots(ps + qs, ws + vs)
  {
  }

  /** The round constants. */
  lemma KIsCubeRoots()
    ensures CubeRoots(PRIMES, K_TABLE)
  {
    CubeRow0();
    CubeRow1();
    CubeRow2();
    CubeRow3();
    CubeRow4();
    CubeRow5();
    CubeRow6();
    CubeRow7();
    CubeRow8();
    CubeRow9();
    CubesAppend(PRIME_ROW0, K_ROW0, PRIME_ROW1, K_ROW1);
    CubesAppend(PRIME_ROW0 + PRIME_ROW1, K_ROW0 + K_ROW1, PRIME_ROW2, K_ROW2);
    CubesAppend(PRIME_ROW0 + PRIME_ROW1 + PRIME_ROW2, K_ROW0 + K_ROW1 + K_ROW2, PRIME_ROW3, K_ROW3);
    CubesAppend(PRIME_ROW0 + PRIME_ROW1 + PRIME_ROW2 + PRIME_ROW3, K_ROW0 + K_ROW1 + K_ROW2 + K_ROW3, PRIME_ROW4, K_ROW4);
    CubesAppend(PRIME_ROW0 + PRIME_ROW1 + PRIME_ROW2 + PRIME_ROW3 + PRIME_ROW4, K_ROW0 + K_ROW1 + K_ROW2 + K_ROW3 + K_ROW4, PRIME_ROW5, K_ROW5);
    CubesAppend(PRIME_ROW0 + PRIME_ROW1 + PRIME_ROW2 + PRIME_ROW3 + PRIME_ROW4 + PRIME_ROW5, K_ROW0 + K_ROW1 + K_ROW2 + K_ROW3 + K_ROW4 + K_ROW5, PRIME_ROW6, K_ROW6);
    CubesAppend(PRIME_ROW0 + PRIME_ROW1 + PRIME_ROW2 + PRIME_ROW3 + PRIME_ROW4 + PRIME_ROW5 + PRIME_ROW6, K_ROW0 + K_ROW1 + K_ROW2 + K_ROW3 + K_ROW4 + K_ROW5 + K_ROW6, PRIME_ROW7, K_ROW7);
    CubesAppend(PRIME_ROW0 + PRIME_ROW1 + PRIME_ROW2 + PRIME_ROW3 + PRIME_ROW4 + PRIME_ROW5 + PRIME_ROW6 + PRIME_ROW7, K_ROW0 + K_ROW1 + K_ROW2 + K_ROW3 + K_ROW4 + K_ROW5 + K_ROW6 + K_ROW7, PRIME_ROW8, K_ROW8);
    CubesAppend(PRIME_ROW0 + PRIME_ROW1 + PRIME_ROW2 + PRIME_ROW3 + PRIME_ROW4 + PRIME_ROW5 + PRIME_ROW6 + PRIME_ROW7 + PRIME_ROW8, K_ROW0 + K_ROW1 + K_ROW2 + K_ROW3 + K_ROW4 + K_ROW5 + K_ROW6 + K_ROW7 + K_ROW8, PRIME_ROW9, K_ROW9);
  }

  ghost predicate SquareRoots(ps: seq<nat>, ws: seq<Word64>) {
    |ps| == |ws| && forall t | 0 <= t < |ps| :: IsSquareRoot(ps[t], ws[t])
  }

  /** The initial hash value. */
  lemma IvIsSquareRoots()
    ensures SquareRoots(PRIME_ROW0, IV_TABLE)
  {
    SquareRoot(2, 0x6a09e667f3bcc908, 1);
    SquareRoot(3, 0xbb67ae8584caa73b, 1);
    SquareRoot(5, 0x3c6ef372fe94f82b, 2);
    SquareRoot(7, 0xa54ff53a5f1d36f1, 2);
    SquareRoot(11, 0x510e527fade682d1, 3);
    SquareRoot(13, 0x9b05688c2b3e6c1f, 3);
    SquareRoot(17, 0x1f83d9abfb41bd6b, 4);
    SquareRoot(19, 0x5be0cd19137e2179, 4);
  }

  // ---- the numbers determine the tables ----

  lemma CubeGrows(v: nat, w: nat)
    requires v < w
    ensures (v + 1) * (v + 1) * (v + 1) <= w * w * w
  {
    MulBound(v + 1, v + 1, w, w);
    MulBound((v + 1) * (v + 1), v + 1, w * w, w);
  }

  lemma CubeRootUnique(p: nat, w: Word64, w': Word64)
    requires IsCubeRoot(p, w) && IsCubeRoot(p, w')
    ensures w == w'
  {
    assert Unfold(true);
    var a: nat :| CubeRootAt(p, w, a);
    var b: nat :| CubeRootAt(p, w', b);
    var v, v' := a * TWO64 + w, b * TWO64 + w';
    if v < v' { CubeGrows(v, v'); }
    if v' < v { CubeGrows(v', v); }
    DivModUnique(v, TWO64, a, w);
    DivModUnique(v', TWO64, b, w');
  }

  lemma SquareRootUnique(p: nat, w: Word64, w': Word64)
    requires IsSquareRoot(p, w) && IsSquareRoot(p, w')
    ensures w == w'
  {
    assert Unfold(true);
    var a: nat :| SquareRootAt(p, w, a);
    var b: nat :| SquareRootAt(p, w', b);
    var v, v' := a * TWO64 + w, b * TWO64 + w';
    if v < v' { MulBound(v + 1, v + 1, v', v'); }
    if v' < v { MulBound(v' + 1, v' + 1, v, v); }
    DivModUnique(v, TWO64, a, w);
    DivModUnique(v', TWO64, b, w');
  }

  /** No other tables are roots of these numbers. */
  lemma TablesUnique(k: seq<Word64>, iv: seq<Word64>)
    requires CubeRoots(PRIMES, k) && SquareRoots(PRIME_ROW0, iv)
    ensures k == K_TABLE && iv == IV_TABLE
  {
    KIsCubeRoots();
    IvIsSquareRoots();
    CubesUnique(PRIMES, k, K_TABLE);
    SquaresUnique(PRIME_ROW0, iv, IV_TABLE);
  }

  lemma CubesUnique(ps: seq<nat>, k: seq<Word64>, l: seq<Word64>)
    requires CubeRoots(ps, k) && CubeRoots(ps, l)
    ensures k == l
  {
    forall t | 0 <= t < |ps| ensures k[t] == l[t] {
      CubeRootUnique(ps[t], k[t], l[t]);
    }
  }

  lemma SquaresUnique(ps: seq<nat>, k: seq<Word64>, l: seq<Word64>)
    requires SquareRoots(ps, k) && SquareRoots(ps, l)
    ensures k == l
  {
    forall t | 0 <= t < |ps| ensures k[t] == l[t] {
      SquareRootUnique(ps[t], k[t], l[t]);
    }
  }
}
