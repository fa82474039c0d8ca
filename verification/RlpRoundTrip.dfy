/** The reader and the encoding are inverse to each other. */
module RlpRoundTrip {
  import opened Words
  import opened RlpSpec
  import opened RlpReader

  /** A prefix announces the length it was made for, whatever follows. */
  lemma HeaderRead(start: nat, n: nat, tail: seq<Byte>)
    requires start == DATA_START || start == LIST_START
    requires n < LIMIT && (start == DATA_START && n == 1 ==> tail != [] && tail[0] >= DATA_START)
    ensures var d := Header(start, n) + tail;
            Length(d) == Ok(n) && PayloadOffset(d) == |Header(start, n)| && d[0] >= DATA_START && (d[0] < LIST_START <==> start == DATA_START)
  {
    if n >= IMM_COUNT {
      LongRead(start, n, tail);
    }
  }

  lemma LongRead(start: nat, n: nat, tail: seq<Byte>)
    requires (start == DATA_START || start == LIST_START) && IMM_COUNT <= n < LIMIT
    ensures var d := Header(start, n) + tail; var k := |BE(n)|;
            1 <= k <= 8 && |Header(start, n)| == 1 + k && d[0] == start + IMM_COUNT - 1 + k && LongLength(d, k) == Ok(n)
  {
    BESize64(n);
    BENoLeadingZero(n);
    ValueOfBE(n);
    assert (Header(start, n) + tail)[1..1 + |BE(n)|] == BE(n);
  }

  /** The announced size of a payload with its prefix, whatever follows. */
  lemma WholeSize(start: nat, p: seq<Byte>, tail: seq<Byte>)
    requires start == DATA_START || start == LIST_START
    requires |p| < LIMIT && (start == DATA_START && |p| == 1 ==> p[0] >= DATA_START)
    ensures SizeAsEncoded(Header(start, |p|) + p + tail) == Ok(|Header(start, |p|) + p|)
  {
    HeaderRead(start, |p|, p + tail);
    assert Header(start, |p|) + p + tail == Header(start, |p|) + (p + tail);
  }

  /** The announced size of an encoded item is its size, whatever follows. */
  lemma EncodedSize(x: Item, tail: seq<Byte>)
    requires PayloadSize(x) < LIMIT
    ensures Encode(x) != [] && PayloadSize(x) <= |Encode(x)| && SizeAsEncoded(Encode(x) + tail) == Ok(|Encode(x)|)
  {
    match x
    case Data(b) =>
      if !(|b| == 1 && b[0] < DATA_START) {
        WholeSize(DATA_START, b, tail);
      }
    case List(xs) =>
      WholeSize(LIST_START, EncodeAll(xs), tail);
  }

  /** The prefix and the payload of an encoded item. */
  lemma EncodedParts(x: Item)
    requires PayloadSize(x) < LIMIT
    ensures var d := Encode(x); d != [] && VeryStrict(d) == Ok(d)
    ensures x.Data? ==> Encode(x)[0] < LIST_START && Payload(Encode(x)) == Ok(x.bytes)
    ensures x.List? ==> Encode(x)[0] >= LIST_START && Payload(Encode(x)) == Ok(EncodeAll(x.items))
  {
    EncodedSize(x, []);
    assert Encode(x) + [] == Encode(x);
    match x
    case Data(b) =>
      if !(|b| == 1 && b[0] < DATA_START) {
        HeaderRead(DATA_START, |b|, b);
      }
    case List(xs) =>
      HeaderRead(LIST_START, |EncodeAll(xs)|, EncodeAll(xs));
  }

  lemma {:induction false} DecodeOfEncode(x: Item)
    requires PayloadSize(x) < LIMIT
    ensures Decode(Encode(x)) == Ok(x)
    decreases x, 0
  {
    EncodedParts(x);
    match x
    case Data(_) =>
    case List(xs) => DecodeAllOfEncode(xs);
  }

  lemma {:induction false} DecodeAllOfEncode(xs: seq<Item>)
    requires |EncodeAll(xs)| < LIMIT
    ensures DecodeAll(EncodeAll(xs)) == Ok(xs)
    decreases xs, 1
  {
    if xs != [] {
      var x, rest := xs[0], xs[1..];
      assert xs == [x] + rest;
      FirstItem(x, rest);
      assert PayloadSize(x) <= |Encode(x)| by { SizeBound(x); }
      EncodedSize(x, EncodeAll(rest));
      DecodeOfEncode(x);
      DecodeAllOfEncode(rest);
      var p := Encode(x) + EncodeAll(rest);
      assert p[..|Encode(x)|] == Encode(x) && p[|Encode(x)|..] == EncodeAll(rest);
    }
  }

  lemma SizeBound(x: Item)
    ensures PayloadSize(x) <= |Encode(x)|
  {
  }

  lemma FirstItem(x: Item, rest: seq<Item>)
    ensures EncodeAll([x] + rest) == Encode(x) + EncodeAll(rest)
  {
    EncodeAllConcat([x], rest);
    EncodeAllPush([], x);
    assert [] + [x] == [x];
  }

  /** An encoded byte string is a number exactly when it has no leading zero. */
  lemma IntOfEncode(b: seq<Byte>)
    requires |b| < LIMIT
    ensures IsInt(Encode(Data(b))) == Ok(b == [] || b[0] != 0)
  {
    if !(|b| == 1 && b[0] < DATA_START) {
      HeaderRead(DATA_START, |b|, b);
      if |b| >= IMM_COUNT {
        LongRead(DATA_START, |b|, b);
      }
    }
  }

  /** A number that was written is read back. */
  lemma IntRoundTrip(n: nat)
    requires |BE(n)| <= 0xffff_ffff
    ensures ToInt(Encode(Data(BE(n)))) == Ok(n)
  {
    IntOfEncode(BE(n));
    if n > 0 {
      BENoLeadingZero(n);
    }
    EncodedParts(Data(BE(n)));
    ValueOfBE(n);
  }

  /** Reading an encoded item as a number: a byte string without a leading zero gives its value, anything else is refused. */
  lemma IntOfItem(x: Item)
    requires PayloadSize(x) < LIMIT
    ensures ToInt(Encode(x)) ==
            if x.Data? && |x.bytes| <= 0xffff_ffff && (x.bytes == [] || x.bytes[0] != 0) then Ok(BEValue(x.bytes)) else Err(BadCast)
  {
    EncodedParts(x);
    match x
    case Data(b) => IntOfEncode(b);
    case List(xs) =>
  }

  /** A number is read from the encoding of its bytes, and from no other item. */
  lemma IntExactly(x: Item, n: nat)
    requires PayloadSize(x) < LIMIT && |BE(n)| <= 0xffff_ffff
    ensures ToInt(Encode(x)) == Ok(n) <==> x == Data(BE(n))
  {
    IntOfItem(x);
    ValueOfBE(n);
    if n > 0 { BENoLeadingZero(n); }
    if x.Data? && (x.bytes == [] || x.bytes[0] != 0) { BEOfValue(x.bytes); }
  }

  // ---- the other way ----

  /** A length without leading zero is what the length bytes would be written as. */
  lemma LengthBytes(d: seq<Byte>, k: nat)
    requires 1 <= k && 1 + k <= |d| && d[1] != 0
    ensures var n := BEValue(d[1..1 + k]); |BE(n)| == k && d == [d[0]] + BE(n) + d[1 + k..]
  {
    var s := d[1..1 + k];
    BEOfValue(s);
    assert d == [d[0]] + s + d[1 + k..];
  }

  function StartOf(b: Byte): nat {
    if b < LIST_START then DATA_START else LIST_START
  }

  /** What a length announces, the prefix would be written as. */
  lemma HeaderWrite(d: seq<Byte>, n: nat)
    requires d != [] && d[0] >= DATA_START && Length(d) == Ok(n) && |d| == PayloadOffset(d) + n
    ensures n < LIMIT && d == Header(StartOf(d[0]), n) + d[PayloadOffset(d)..]
  {
    var k := LengthSize(d);
    if k > 0 {
      LongWrite(d, k, n);
    } else {
      assert d == [d[0]] + d[1..];
    }
  }

  lemma LongWrite(d: seq<Byte>, k: nat, n: nat)
    requires d != [] && 1 <= k <= 8 && d[0] == StartOf(d[0]) + IMM_COUNT - 1 + k && LongLength(d, k) == Ok(n)
    ensures n < LIMIT && d == Header(StartOf(d[0]), n) + d[1 + k..]
  {
    LengthBytes(d, k);
    LongHeader(d[0], n);
  }

  lemma LongHeader(b: Byte, n: nat)
    requires IMM_COUNT <= n && b == StartOf(b) + IMM_COUNT - 1 + |BE(n)|
    ensures Header(StartOf(b), n) == [b] + BE(n)
  {
  }

  lemma {:induction false} EncodeOfDecode(d: seq<Byte>)
    requires Decode(d).Ok?
    ensures Encode(Decode(d).value) == d && PayloadSize(Decode(d).value) < LIMIT
    decreases |d|, 0
  {
    if d[0] >= DATA_START {
      var n := Length(d).value;
      HeaderWrite(d, n);
      var p := d[PayloadOffset(d)..];
      assert p == d[PayloadOffset(d)..PayloadOffset(d) + n];
      assert Payload(d) == Ok(p);
      if d[0] >= LIST_START {
        EncodeAllOfDecode(p);
      }
    } else {
      assert d == d[0..1];
      assert Payload(d) == Ok(d);
    }
  }

  lemma {:induction false} EncodeAllOfDecode(p: seq<Byte>)
    requires DecodeAll(p).Ok?
    ensures EncodeAll(DecodeAll(p).value) == p
    decreases |p|, 1
  {
    if p != [] {
      var n := SizeAsEncoded(p).value;
      var first, rest := p[..n], p[n..];
      assert p == first + rest;
      assert DecodeAll(p) == Ok([Decode(first).value] + DecodeAll(rest).value);
      EncodeOfDecode(first);
      EncodeAllOfDecode(rest);
      FirstItem(Decode(first).value, DecodeAll(rest).value);
    }
  }

  /** Decoding undoes encoding exactly for the items whose length can be announced. */
  lemma RoundTrip(x: Item)
    ensures Decode(Encode(x)) == Ok(x) <==> PayloadSize(x) < 0xffff_ffff_ffff_feff
  {
    if PayloadSize(x) < LIMIT {
      DecodeOfEncode(x);
    } else if Decode(Encode(x)) == Ok(x) {
      EncodeOfDecode(Encode(x));
    }
  }

  /** A byte below 128, or a prefix with its payload: one item, whose inside need not be an encoding. */
  ghost predicate IsFrame(q: seq<Byte>) {
    (|q| == 1 && q[0] < 128) || exists start: nat, p: seq<Byte> :: Framed(start, p, q)
  }

  ghost predicate Framed(start: nat, p: seq<Byte>, q: seq<Byte>) {
    && (start == DATA_START || start == LIST_START) && |p| < LIMIT && !(start == DATA_START && |p| == 1 && p[0] < DATA_START)
    && q == Header(start, |p|) + p
  }

  /** What the size that is announced at the front of any data stands for. */
  lemma SizeExactly(d: seq<Byte>, n: nat)
    requires d != []
    ensures SizeAsEncoded(d) == Ok(n) <==> 0 < n <= |d| && IsFrame(d[..n])
  {
    if SizeAsEncoded(d) == Ok(n) && d[0] >= DATA_START { FrameOfSize(d, n); }
    if 0 < n <= |d| && IsFrame(d[..n]) { SizeOfFrame(d, n); }
  }

  lemma FrameOfSize(d: seq<Byte>, n: nat)
    requires d != [] && d[0] >= DATA_START && SizeAsEncoded(d) == Ok(n)
    ensures 0 < n <= |d| && IsFrame(d[..n])
  {
    var q, k := d[..n], LengthSize(d);
    if k > 0 {
      assert q[1..1 + k] == d[1..1 + k];
    }
    var p := q[PayloadOffset(q)..];
    HeaderWrite(q, |p|);
    assert Framed(StartOf(q[0]), p, q);
  }

  lemma SizeOfFrame(d: seq<Byte>, n: nat)
    requires 0 < n <= |d| && IsFrame(d[..n])
    ensures SizeAsEncoded(d) == Ok(n)
  {
    var q := d[..n];
    if !(|q| == 1 && q[0] < 128) {
      var start: nat, p: seq<Byte> :| Framed(start, p, q);
      WholeSize(start, p, d[n..]);
      assert q + d[n..] == d;
    }
  }

  /** No proper part at the front of an encoding announces a size that it has. */
  lemma NoPrefix(x: Item, k: nat)
    requires PayloadSize(x) < LIMIT && 0 < k < |Encode(x)|
    ensures SizeAsEncoded(Encode(x)[..k]).Err?
  {
    var d, q := Encode(x), Encode(x)[..k];
    EncodedSize(x, []);
    assert d + [] == d;
    if SizeAsEncoded(q).Ok? {
      var n := SizeAsEncoded(q).value;
      SizeExactly(q, n);
      assert q[..n] == d[..n];
      SizeExactly(d, n);
    }
  }

  /** Every item has at most one accepted encoding. */
  lemma UniqueEncoding(d: seq<Byte>, d': seq<Byte>)
    requires Decode(d).Ok? && Decode(d') == Decode(d)
    ensures d == d'
  {
    EncodeOfDecode(d);
    EncodeOfDecode(d');
  }
}
