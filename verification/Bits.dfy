/** Bitwise operations on the low `n` bits of naturals, and the masked moves built from them. */
module Bits {
  import opened Words

  function And(a: nat, b: nat, n: nat): nat {
    if n == 0 then 0 else (if a % 2 == 1 && b % 2 == 1 then 1 else 0) + 2 * And(a / 2, b / 2, n - 1)
  }

  function Or(a: nat, b: nat, n: nat): nat {
    if n == 0 then 0 else (if a % 2 == 1 || b % 2 == 1 then 1 else 0) + 2 * Or(a / 2, b / 2, n - 1)
  }

  function Xor(a: nat, b: nat, n: nat): nat {
    if n == 0 then 0 else (if a % 2 == b % 2 then 0 else 1) + 2 * Xor(a / 2, b / 2, n - 1)
  }

  // ---- one bit at a time ----

  lemma Halve(a: nat, p: nat)
    requires a < 2 * p
    ensures a / 2 < p && a == 2 * (a / 2) + a % 2
  {
  }

  lemma {:induction false} XorZero(a: nat, b: nat, n: nat)
    requires a < Power(2, n) && b < Power(2, n)
    ensures Xor(a, b, n) < Power(2, n) && (Xor(a, b, n) == 0 <==> a == b)
  {
    if n > 0 {
      var p := Power(2, n - 1);
      Halve(a, p);
      Halve(b, p);
      XorZero(a / 2, b / 2, n - 1);
    }
  }

  lemma {:induction false} OrZero(a: nat, b: nat, n: nat)
    requires a < Power(2, n) && b < Power(2, n)
    ensures Or(a, b, n) < Power(2, n) && (Or(a, b, n) == 0 <==> a == 0 && b == 0)
  {
    if n > 0 {
      var p := Power(2, n - 1);
      Halve(a, p);
      Halve(b, p);
      OrZero(a / 2, b / 2, n - 1);
    }
  }

  lemma {:induction false} XorSmall(a: nat, b: nat, n: nat, m: nat)
    requires a < Power(2, m) && b < Power(2, m) && m <= n
    ensures Xor(a, b, n) == Xor(a, b, m)
  {
    if m > 0 {
      Halve(a, Power(2, m - 1));
      Halve(b, Power(2, m - 1));
      XorSmall(a / 2, b / 2, n - 1, m - 1);
    } else if n > 0 {
      XorSmall(0, 0, n - 1, 0);
    }
  }

  // ---- masks ----

  /** The word with the low `n` bits set. */
  function Ones(n: nat): nat {
    if n == 0 then 0 else 1 + 2 * Ones(n - 1)
  }

  lemma {:induction false} OnesValue(n: nat)
    ensures Ones(n) == Power(2, n) - 1
  {
    if n > 0 {
      OnesValue(n - 1);
    }
  }

  lemma HalfOfOnes(n: nat)
    requires n > 0
    ensures Ones(n) / 2 == Ones(n - 1) && Ones(n) % 2 == 1
  {
  }

  /** A mask of ones keeps every bit, and a mask of zeros none. */
  lemma {:induction false} Masked(a: nat, n: nat)
    requires a < Power(2, n)
    ensures And(a, Ones(n), n) == a && And(a, 0, n) == 0
    ensures And(Ones(n), a, n) == a && And(0, a, n) == 0
  {
    if n > 0 {
      Halve(a, Power(2, n - 1));
      HalfOfOnes(n);
      Masked(a / 2, n - 1);
    }
  }

  lemma {:induction false} WithZero(a: nat, n: nat)
    requires a < Power(2, n)
    ensures Or(a, 0, n) == a && Or(0, a, n) == a && Xor(a, 0, n) == a
  {
    if n > 0 {
      Halve(a, Power(2, n - 1));
      WithZero(a / 2, n - 1);
    }
  }

  lemma BitAbove(bit: nat, x: nat)
    requires bit < 2
    ensures (bit + 2 * x) / 2 == x && (bit + 2 * x) % 2 == bit
  {
  }

  /** A difference of bits, applied to either word, gives the other. */
  lemma {:induction false} XorTwice(a: nat, b: nat, n: nat)
    requires a < Power(2, n) && b < Power(2, n)
    ensures Xor(a, Xor(a, b, n), n) == b && Xor(b, Xor(a, b, n), n) == a
  {
    if n > 0 {
      var p := Power(2, n - 1);
      Halve(a, p);
      Halve(b, p);
      XorTwice(a / 2, b / 2, n - 1);
      BitAbove(if a % 2 == b % 2 then 0 else 1, Xor(a / 2, b / 2, n - 1));
    }
  }

  lemma WordPower(n: nat)
    requires n == 64
    ensures Power(2, n) == TWO64 && Ones(n) == TWO64 - 1
  {
    PowersOf2(32, 56);
    var m := 32;
    PowerAdd(2, m, m);
    OnesValue(n);
  }

  const WORD: nat := 64

  /** out = flag ? in : out, by masks. */
  method MoveConditional(out: nat, input: nat, flag: nat) returns (r: nat)
    requires out < TWO64 && input < TWO64 && flag < 2
    ensures r == if flag == 1 then input else out
  {
    var n := WORD;
    var nb := Sub64(flag, 1);
    var b := TWO64 - 1 - nb;
    WordPower(n);
    Masked(out, n);
    Masked(input, n);
    WithZero(out, n);
    WithZero(input, n);
    r := Or(And(out, nb, n), And(input, b, n), n);
  }

  /** if (swap) swap(a, b), by masks. */
  method SwapConditional(a: nat, b: nat, iswap: nat) returns (a': nat, b': nat)
    requires a < TWO64 && b < TWO64 && iswap < 2
    ensures (a', b') == if iswap == 1 then (b, a) else (a, b)
  {
    var n := WORD;
    var swap := Sub64(0, iswap);
    WordPower(n);
    XorZero(a, b, n);
    Masked(Xor(a, b, n), n);
    XorTwice(a, b, n);
    WithZero(a, n);
    WithZero(b, n);
    var x := And(swap, Xor(a, b, n), n);
    a', b' := Xor(a, x, n), Xor(b, x, n);
  }

  // ---- operations on words ----

  function XorWord(a: Word64, b: Word64): Word64 {
    var n := WORD;
    WordPower(n);
    OperationBounds(a, b, n);
    Xor(a, b, n)
  }

  function AndWord(a: Word64, b: Word64): Word64 {
    var n := WORD;
    WordPower(n);
    OperationBounds(a, b, n);
    And(a, b, n)
  }

  function OrWord(a: Word64, b: Word64): Word64 {
    var n := WORD;
    WordPower(n);
    OperationBounds(a, b, n);
    Or(a, b, n)
  }

  function NotWord(a: Word64): Word64 {
    TWO64 - 1 - a
  }

  lemma XorBit(a: Word64, b: Word64, i: nat)
    requires i < 64
    ensures Bit(XorWord(a, b), i) == (Bit(a, i) + Bit(b, i)) % 2
  {
    BitOfXor(a, b, WORD, i);
  }

  lemma AndBit(a: Word64, b: Word64, i: nat)
    requires i < 64
    ensures Bit(AndWord(a, b), i) == Bit(a, i) * Bit(b, i)
  {
    BitOfAnd(a, b, WORD, i);
  }

  lemma OrBit(a: Word64, b: Word64, i: nat)
    requires i < 64
    ensures Bit(OrWord(a, b), i) == if Bit(a, i) + Bit(b, i) > 0 then 1 else 0
  {
    BitOfOr(a, b, WORD, i);
  }

  lemma NotWordBit(a: Word64, i: nat)
    requires i < 64
    ensures Bit(NotWord(a), i) == 1 - Bit(a, i)
  {
    var n := WORD;
    WordPower(n);
    NotBit(a, n, i);
  }

  lemma SameWord(x: Word64, y: Word64)
    requires forall i | 0 <= i < 64 :: Bit(x, i) == Bit(y, i)
    ensures x == y
  {
    var n := WORD;
    WordPower(n);
    SameBits(x, y, n);
  }

  // ---- single bits ----

  /** Bit `i` of a number. */
  function Bit(x: nat, i: nat): (b: nat)
    ensures b < 2
  {
    if i == 0 then x % 2 else Bit(x / 2, i - 1)
  }

  lemma {:induction false} BitIs(x: nat, i: nat)
    ensures Bit(x, i) == x / Power(2, i) % 2
  {
    if i > 0 {
      BitIs(x / 2, i - 1);
      DivDiv(x, 2, Power(2, i - 1));
    }
  }

  lemma {:induction false} BitOfXor(a: nat, b: nat, n: nat, i: nat)
    requires i < n
    ensures Bit(Xor(a, b, n), i) == (Bit(a, i) + Bit(b, i)) % 2
  {
    BitAbove(if a % 2 == b % 2 then 0 else 1, Xor(a / 2, b / 2, n - 1));
    if i > 0 {
      BitOfXor(a / 2, b / 2, n - 1, i - 1);
    }
  }

  lemma {:induction false} BitOfAnd(a: nat, b: nat, n: nat, i: nat)
    requires i < n
    ensures Bit(And(a, b, n), i) == Bit(a, i) * Bit(b, i)
  {
    BitAbove(if a % 2 == 1 && b % 2 == 1 then 1 else 0, And(a / 2, b / 2, n - 1));
    if i > 0 {
      BitOfAnd(a / 2, b / 2, n - 1, i - 1);
    }
  }

  lemma {:induction false} BitOfOr(a: nat, b: nat, n: nat, i: nat)
    requires i < n
    ensures Bit(Or(a, b, n), i) == if Bit(a, i) + Bit(b, i) > 0 then 1 else 0
  {
    BitAbove(if a % 2 == 1 || b % 2 == 1 then 1 else 0, Or(a / 2, b / 2, n - 1));
    if i > 0 {
      BitOfOr(a / 2, b / 2, n - 1, i - 1);
    }
  }

  lemma {:induction false} OperationBounds(a: nat, b: nat, n: nat)
    ensures Xor(a, b, n) < Power(2, n) && And(a, b, n) < Power(2, n) && Or(a, b, n) < Power(2, n)
  {
    if n > 0 {
      OperationBounds(a / 2, b / 2, n - 1);
    }
  }

  /** Numbers with the same bits are the same. */
  lemma {:induction false} SameBits(x: nat, y: nat, n: nat)
    requires x < Power(2, n) && y < Power(2, n) && forall i | 0 <= i < n :: Bit(x, i) == Bit(y, i)
    ensures x == y
  {
    if n > 0 {
      Halve(x, Power(2, n - 1));
      Halve(y, Power(2, n - 1));
      assert Bit(x, 0) == Bit(y, 0);
      forall i | 0 <= i < n - 1 ensures Bit(x / 2, i) == Bit(y / 2, i) {
        assert Bit(x, i + 1) == Bit(y, i + 1);
      }
      SameBits(x / 2, y / 2, n - 1);
    }
  }

  lemma {:induction false} NotBit(x: nat, n: nat, i: nat)
    requires x < Power(2, n) && i < n
    ensures Bit(Power(2, n) - 1 - x, i) == 1 - Bit(x, i)
  {
    var p := Power(2, n - 1);
    Halve(x, p);
    var y := 2 * p - 1 - x;
    BitAbove(1 - x % 2, p - 1 - x / 2);
    assert y == 1 - x % 2 + 2 * (p - 1 - x / 2);
    if i > 0 {
      NotBit(x / 2, n - 1, i - 1);
    }
  }

  /** A number whose low `k` bits are clear, and one that has no others: or is addition. */
  lemma {:induction false} OrIsSum(a: nat, b: nat, k: nat, n: nat)
    requires k <= n && b < Power(2, k) && a < Power(2, n - k)
    ensures Or(a * Power(2, k), b, n) == a * Power(2, k) + b && Or(b, a * Power(2, k), n) == a * Power(2, k) + b
  {
    if k == 0 {
      WithZero(a, n);
    } else {
      var p := Power(2, k - 1);
      Halve(b, p);
      assert a * Power(2, k) == 2 * (a * p);
      BitAbove(0, a * p);
      OrIsSum(a, b / 2, k - 1, n - 1);
    }
  }

  // ---- strings of words ----

  /** The byte of weight `u`, and what is above it. */
  lemma NextByte(w: nat, u: nat, b: Byte, rest: nat)
    requires u > 0 && w / u == b + TWO8 * rest
    ensures w / u % TWO8 == b && w / (u * TWO8) == rest
  {
    DivDiv(w, u, TWO8);
  }

  /** Storing the word that was loaded gives its bytes back. */
  lemma LoadStore(s: seq<Byte>, at: nat)
    requires at + 8 <= |s|
    ensures Store64(WordAt(s, at)) == s[at..at + 8]
  {
    var w7: nat := s[at + 7];
    var w6 := s[at + 6] + TWO8 * w7;
    var w5 := s[at + 5] + TWO8 * w6;
    var w4 := s[at + 4] + TWO8 * w5;
    var w3 := s[at + 3] + TWO8 * w4;
    var w2 := s[at + 2] + TWO8 * w3;
    var w1 := s[at + 1] + TWO8 * w2;
    var w := s[at] + TWO8 * w1;
    assert w == WordAt(s, at);
    StoredBytes(w, w1, w2, w3, w4, w5, w6, w7, s[at], s[at + 1], s[at + 2], s[at + 3], s[at + 4], s[at + 5], s[at + 6]);
  }

  lemma StoredBytes(w: nat, w1: nat, w2: nat, w3: nat, w4: nat, w5: nat, w6: nat, w7: nat,
                    b0: Byte, b1: Byte, b2: Byte, b3: Byte, b4: Byte, b5: Byte, b6: Byte)
    requires w7 < TWO8 && w6 == b6 + TWO8 * w7 && w5 == b5 + TWO8 * w6 && w4 == b4 + TWO8 * w5 && w3 == b3 + TWO8 * w4
    requires w2 == b2 + TWO8 * w3 && w1 == b1 + TWO8 * w2 && w == b0 + TWO8 * w1
    ensures Store64(w) == [b0, b1, b2, b3, b4, b5, b6, w7]
  {
    NextByte(w, 1, b0, w1);
    NextByte(w, TWO8, b1, w2);
    NextByte(w, TWO16, b2, w3);
    NextByte(w, TWO24, b3, w4);
    NextByte(w, TWO32, b4, w5);
    NextByte(w, TWO40, b5, w6);
    NextByte(w, TWO48, b6, w7);
  }

  lemma WordBelow(s: seq<Byte>, at: nat)
    requires at + 8 <= |s|
    ensures WordAt(s, at) < TWO64
  {
    LEWord(s, at);
  }

  /** Replaces the twelve words of `out` by those of `input`, or by themselves. */
  method MoveConditionalBytes(out: array<Byte>, input: seq<Byte>, flag: nat)
    requires out.Length == |input| == 96 && flag < 2
    modifies out
    ensures out[..] == if flag == 1 then input else old(out[..])
  {
    ghost var result := if flag == 1 then input else out[..];
    for i := 0 to 12
      invariant out[..8 * i] == result[..8 * i] && out[8 * i..] == old(out[..])[8 * i..]
    {
      ghost var before := out[..];
      var at := 8 * i;
      WordBelow(out[..], at);
      WordBelow(input, at);
      var w := MoveConditional(WordAt(out[..], at), WordAt(input, at), flag);
      LoadStore(out[..], at);
      LoadStore(input, at);
      assert before[at..][..8] == old(out[..])[at..][..8];
      assert Store64(w) == result[at..at + 8];
      PutWord(out, at, Store64(w));
      NextWord(out[..], before, result, old(out[..]), at);
    }
  }

  method PutWord(out: array<Byte>, at: nat, s: seq<Byte>)
    requires |s| == 8 && at + 8 <= out.Length
    modifies out
    ensures out[..] == old(out[..at]) + s + old(out[at + 8..])
  {
    for k := 0 to 8
      invariant out[..] == old(out[..at]) + s[..k] + old(out[at + k..])
    {
      out[at + k] := s[k];
    }
  }

  lemma NextWord(out: seq<Byte>, before: seq<Byte>, result: seq<Byte>, start: seq<Byte>, at: nat)
    requires |before| == |result| == |start| && at + 8 <= |before|
    requires before[..at] == result[..at] && before[at..] == start[at..]
    requires out == before[..at] + result[at..at + 8] + before[at + 8..]
    ensures out[..at + 8] == result[..at + 8] && out[at + 8..] == start[at + 8..]
  {
    assert before[at..][8..] == before[at + 8..] && start[at..][8..] == start[at + 8..];
    assert result[..at] + result[at..at + 8] == result[..at + 8];
  }
}
