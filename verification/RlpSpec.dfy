/** Recursive length prefix: the items and their encoding (Appendix B of the Ethereum Yellow Paper). */
module RlpSpec {
  import opened Words

  datatype Item = Data(bytes: seq<Byte>) | List(items: seq<Item>)

  const DATA_START: nat := 0x80
  const LIST_START: nat := 0xc0
  const IMM_COUNT: nat := 56

  // ---- big-endian numbers without leading zeros ----

  function BE(n: nat): (s: seq<Byte>) {
    if n == 0 then [] else BE(n / 256) + [n % 256]
  }

  lemma {:induction false} ValueOfBE(n: nat)
    ensures BEValue(BE(n)) == n
  {
    if n > 0 {
      ValueOfBE(n / 256);
      assert BE(n)[..|BE(n)| - 1] == BE(n / 256);
    }
  }

  lemma {:induction false} BENoLeadingZero(n: nat)
    requires n > 0
    ensures BE(n) != [] && BE(n)[0] != 0
  {
    if n >= 256 {
      BENoLeadingZero(n / 256);
    }
  }

  /** Without a leading zero, the bytes are the ones the value is written with. */
  lemma {:induction false} BEOfValue(s: seq<Byte>)
    requires s == [] || s[0] != 0
    ensures BE(BEValue(s)) == s
  {
    if |s| == 1 {
      assert BEValue(s) == s[0];
      assert BE(s[0]) == BE(0) + [s[0]];
    } else if |s| > 1 {
      var t, b := s[..|s| - 1], s[|s| - 1];
      BEOfValue(t);
      Positive(t);
      assert s == t + [b];
      LastDigit(BEValue(t), b);
    }
  }

  lemma LastDigit(v: nat, b: Byte)
    ensures (v * 256 + b) / 256 == v && (v * 256 + b) % 256 == b
  {
  }

  lemma {:induction false} Positive(s: seq<Byte>)
    requires s != [] && s[0] != 0
    ensures BEValue(s) > 0
  {
    if |s| > 1 {
      Positive(s[..|s| - 1]);
    }
  }

  lemma {:induction false} BESize(n: nat, k: nat)
    requires n < Power(256, k)
    ensures |BE(n)| <= k
  {
    if n > 0 {
      assert n / 256 < Power(256, k - 1);
      BESize(n / 256, k - 1);
    }
  }

  lemma BESize64(n: nat)
    requires n < TWO64
    ensures |BE(n)| <= 8
  {
    var k, j := 8, 4;
    assert Power(256, j) == TWO32;
    PowerAdd(256, j, j);
    BESize(n, k);
  }

  // ---- encoding ----

  /** The prefix of a payload of `n` bytes: one byte, or one byte and the length. */
  function Header(start: nat, n: nat): (h: seq<Byte>)
    requires start == DATA_START || start == LIST_START
  {
    if n < IMM_COUNT then [start + n] else [(start + IMM_COUNT - 1 + |BE(n)|) % 256] + BE(n)
  }

  function Encode(x: Item): (s: seq<Byte>)
    decreases x, 0
  {
    match x
    case Data(b) => if |b| == 1 && b[0] < DATA_START then b else Header(DATA_START, |b|) + b
    case List(xs) => Header(LIST_START, |EncodeAll(xs)|) + EncodeAll(xs)
  }

  function EncodeAll(xs: seq<Item>): (s: seq<Byte>)
    decreases xs
  {
    if xs == [] then [] else EncodeAll(xs[..|xs| - 1]) + Encode(xs[|xs| - 1])
  }

  lemma EncodeAllPush(xs: seq<Item>, x: Item)
    ensures EncodeAll(xs + [x]) == EncodeAll(xs) + Encode(x)
  {
    assert (xs + [x])[..|xs|] == xs;
  }

  lemma {:induction false} EncodeAllConcat(xs: seq<Item>, ys: seq<Item>)
    ensures EncodeAll(xs + ys) == EncodeAll(xs) + EncodeAll(ys)
    decreases |ys|
  {
    if ys == [] {
      assert xs + ys == xs;
    } else {
      var n := |ys| - 1;
      EncodeAllConcat(xs, ys[..n]);
      ConcatPush(xs, ys[..n], ys[n]);
      assert ys[..n] + [ys[n]] == ys;
    }
  }

  lemma ConcatPush(xs: seq<Item>, ys: seq<Item>, y: Item)
    requires EncodeAll(xs + ys) == EncodeAll(xs) + EncodeAll(ys)
    ensures EncodeAll(xs + (ys + [y])) == EncodeAll(xs) + EncodeAll(ys + [y])
  {
    EncodeAllPush(xs + ys, y);
    EncodeAllPush(ys, y);
    assert xs + ys + [y] == xs + (ys + [y]);
    Regrouped(EncodeAll(xs), EncodeAll(ys), Encode(y));
  }

  /** The number of payload bytes of an item. */
  function PayloadSize(x: Item): nat {
    match x
    case Data(b) => |b|
    case List(xs) => |EncodeAll(xs)|
  }

  /** The encoding of a byte string, case by case. */
  lemma DataEncoding(b: seq<Byte>)
    ensures Encode(Data(b)) ==
            if |b| == 1 && b[0] < 128 then b
            else if |b| < 56 then [128 + |b|] + b
            else [(183 + |BE(|b|)|) % 256] + BE(|b|) + b
  {
  }

  /** The encoding of a list, from those of its items in order. */
  lemma ListEncoding(xs: seq<Item>, s: seq<Byte>)
    requires s == EncodeAll(xs)
    ensures Encode(List(xs)) == if |s| < 56 then [192 + |s|] + s else [(247 + |BE(|s|)|) % 256] + BE(|s|) + s
  {
  }
}
