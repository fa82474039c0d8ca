/** SHA-512: the compression function, and the hash of a message that arrives in pieces.
    The algorithm is stated for any word operations; `SHA512` gives the ones it is used with. */
module Sha512 {
  import opened Basics
  import opened Words
  import opened ShaWords

  /** The constants, and the operations on words that the algorithm is built from. */
  datatype Parameters<!W> = Parameters(
    k: seq<W>, iv: seq<W>, load: seq<Byte> -> W, store: W -> seq<Byte>, add: (W, W) -> W,
    next: (W, W, W, W) -> W, temp0: (W, W, W, W, W, W) -> W, temp1: (W, W, W) -> W)

  ghost predicate Sized<W>(p: Parameters<W>) {
    |p.k| == 80 && |p.iv| == 8
  }

  // ---- SHA-512 itself ----

  const SHA512: Parameters<Word64> := Parameters(
    K_TABLE, IV_TABLE, p => LoadBE(p), w => StoreBE(w), (a, b) => Plus(a, b),
    (a, b, c, d) => Next(a, b, c, d), (e, f, g, h, k, w) => Temp0(e, f, g, h, k, w), (a, b, c) => Temp1(a, b, c))

  // ---- the compression function (section 6.4 of FIPS 180-4) ----

  function Schedule<W>(p: Parameters<W>, block: seq<Byte>, t: nat): W
    requires |block| == 128
  {
    if t < 16 then p.load(block[8 * t..8 * t + 8])
    else p.next(Schedule(p, block, t - 2), Schedule(p, block, t - 7), Schedule(p, block, t - 15), Schedule(p, block, t - 16))
  }

  function Round<W>(p: Parameters<W>, r: seq<W>, k: W, w: W): (s: seq<W>)
    requires |r| == 8
    ensures |s| == 8
  {
    var t0 := p.temp0(r[4], r[5], r[6], r[7], k, w);
    var t1 := p.temp1(r[0], r[1], r[2]);
    [p.add(t0, t1), r[0], r[1], r[2], p.add(r[3], t0), r[4], r[5], r[6]]
  }

  function Rounds<W>(p: Parameters<W>, r: seq<W>, block: seq<Byte>, n: nat): (s: seq<W>)
    requires |r| == 8 && |block| == 128 && n <= |p.k|
    ensures |s| == 8
  {
    if n == 0 then r else Round(p, Rounds(p, r, block, n - 1), p.k[n - 1], Schedule(p, block, n - 1))
  }

  function Compress<W>(p: Parameters<W>, h: seq<W>, block: seq<Byte>): (s: seq<W>)
    requires |h| == 8 && |block| == 128
    ensures |s| == 8
  {
    var r := Rounds(p, h, block, |p.k|);
    seq(8, i requires 0 <= i < 8 => p.add(r[i], h[i]))
  }

  /** The chaining value after the first `n` blocks of `s`. */
  function Absorb<W>(p: Parameters<W>, h: seq<W>, s: seq<Byte>, n: nat): (r: seq<W>)
    requires |h| == 8 && 128 * n <= |s|
    ensures |r| == 8
  {
    if n == 0 then h else Compress(p, Absorb(p, h, s, n - 1), s[128 * (n - 1)..128 * n])
  }

  lemma {:induction false} AbsorbPrefix<W>(p: Parameters<W>, h: seq<W>, s: seq<Byte>, t: seq<Byte>, n: nat)
    requires |h| == 8 && 128 * n <= |s| && 128 * n <= |t| && s[..128 * n] == t[..128 * n]
    ensures Absorb(p, h, s, n) == Absorb(p, h, t, n)
  {
    if n > 0 {
      assert s[..128 * (n - 1)] == s[..128 * n][..128 * (n - 1)] && t[..128 * (n - 1)] == t[..128 * n][..128 * (n - 1)];
      AbsorbPrefix(p, h, s, t, n - 1);
      assert s[128 * (n - 1)..128 * n] == s[..128 * n][128 * (n - 1)..] && t[128 * (n - 1)..128 * n] == t[..128 * n][128 * (n - 1)..];
    }
  }

  lemma AbsorbBlock<W>(p: Parameters<W>, h: seq<W>, m: seq<Byte>, block: seq<Byte>, n: nat)
    requires |h| == 8 && |m| == 128 * n && |block| == 128
    ensures Absorb(p, h, m + block, n + 1) == Compress(p, Absorb(p, h, m, n), block)
  {
    AbsorbPrefix(p, h, m, m + block, n);
    assert (m + block)[128 * n..128 * (n + 1)] == block;
  }

  lemma Extended(m: seq<Byte>, s: seq<Byte>, a: nat, b: nat)
    requires a <= b <= |s|
    ensures m + s[..a] + s[a..b] == m + s[..b]
  {
    assert s[..a] + s[a..b] == s[..b];
  }

  lemma Rejoin(m: seq<Byte>, tail: seq<Byte>, s: seq<Byte>, a: nat, filled: seq<Byte>)
    requires a <= |s| && filled == tail + s[..a]
    ensures m + filled + s[a..] == m + tail + s
  {
  }

  // ---- one-shot hashing ----

  /** A one bit, zeros, and the length in bits as a 128-bit number (section 5.1.2 of FIPS 180-4). */
  function Suffix(n: nat): (s: seq<Byte>)
    ensures |s| == 17 + (111 - n) % 128
  {
    [0x80] + Zeros((111 - n) % 128) + LengthField(n)
  }

  function Zeros(n: nat): (s: seq<Byte>)
    ensures |s| == n
  {
    seq(n, _ => 0)
  }

  function LengthField(n: nat): (s: seq<Byte>)
    ensures |s| == 16
  {
    StoreBE(8 * n / TWO64 % TWO64) + StoreBE(8 * n % TWO64)
  }

  function Pad(m: seq<Byte>): (s: seq<Byte>)
    ensures |s| % 128 == 0
  {
    WholeBlocks(|m|);
    m + Suffix(|m|)
  }

  lemma WholeBlocks(n: nat)
    ensures (n + 17 + (111 - n) % 128) % 128 == 0
  {
    var q := (111 - n) / 128;
    assert n + 17 + (111 - n) % 128 == 128 * (1 - q);
  }

  function Digest<W>(p: Parameters<W>, h: seq<W>): seq<Byte>
    requires |h| == 8
  {
    p.store(h[0]) + p.store(h[1]) + p.store(h[2]) + p.store(h[3]) + p.store(h[4]) + p.store(h[5]) + p.store(h[6]) + p.store(h[7])
  }

  function Hash<W>(p: Parameters<W>, m: seq<Byte>): seq<Byte>
    requires |p.iv| == 8
  {
    Digest(p, Absorb(p, p.iv, Pad(m), |Pad(m)| / 128))
  }

  // ---- the rounds, in place ----

  method ExpandBlock<W(0)>(p: Parameters<W>, block: seq<Byte>) returns (w: array<W>)
    requires |block| == 128
    ensures fresh(w) && w.Length == 80 && forall t | 0 <= t < 80 :: w[t] == Schedule(p, block, t)
  {
    w := new W[80];
    for i := 0 to 16
      invariant forall t | 0 <= t < i :: w[t] == Schedule(p, block, t)
    {
      w[i] := p.load(block[8 * i..8 * i + 8]);
    }
    for i := 16 to 80
      invariant forall t | 0 <= t < i :: w[t] == Schedule(p, block, t)
    {
      w[i] := p.next(w[i - 2], w[i - 7], w[i - 15], w[i - 16]);
    }
  }

  method Step<W>(p: Parameters<W>, r: array<W>, k: W, w: W)
    requires r.Length == 8
    modifies r
    ensures r[..] == Round(p, old(r[..]), k, w)
  {
    var t1 := p.temp1(r[0], r[1], r[2]);
    var t0 := p.temp0(r[4], r[5], r[6], r[7], k, w);
    r[7] := r[6];
    r[6] := r[5];
    r[5] := r[4];
    r[4] := p.add(r[3], t0);
    r[3] := r[2];
    r[2] := r[1];
    r[1] := r[0];
    r[0] := p.add(t0, t1);
    assert r[..] == [r[0], r[1], r[2], r[3], r[4], r[5], r[6], r[7]];
  }

  method RoundsInPlace<W(0)>(p: Parameters<W>, r: array<W>, block: seq<Byte>)
    requires r.Length == 8 && |block| == 128 && |p.k| == 80
    modifies r
    ensures r[..] == Rounds(p, old(r[..]), block, 80)
  {
    ghost var h := r[..];
    var w := ExpandBlock(p, block);
    for i := 0 to 80
      invariant r[..] == Rounds(p, h, block, i)
      invariant forall t | 0 <= t < 80 :: w[t] == Schedule(p, block, t)
    {
      Step(p, r, p.k[i], w[i]);
    }
  }

  // ---- the bit counter ----

  /** 1024 bits a block, in two words. */
  ghost predicate Counts(t0: nat, t1: nat, blocks: nat) {
    t0 == 1024 * blocks % TWO64 && t1 == 1024 * blocks / TWO64 % TWO64
  }

  /** The carry into the high word happens exactly when the low word comes back to zero. */
  lemma CountBlock(t0: nat, t1: nat, n: nat)
    requires Counts(t0, t1, n)
    ensures var t0' := (t0 + 1024) % TWO64; Counts(t0', (t1 + if t0' == 0 then 1 else 0) % TWO64, n + 1)
  {
    var x := 1024 * n;
    var q, k := x / TWO64, n % 0x40_0000_0000_0000;
    ModScale(n, 0x40_0000_0000_0000, 1024);
    assert t0 == 1024 * k;
    if k == 0x3f_ffff_ffff_ffff {
      DivModUnique(x + 1024, TWO64, q + 1, 0);
      CarryHigh(q);
    } else {
      DivModUnique(x + 1024, TWO64, q, t0 + 1024);
    }
  }

  lemma CarryHigh(q: nat)
    ensures (q % TWO64 + 1) % TWO64 == (q + 1) % TWO64
  {
  }

  /** The final length field: adding the bits of the last partial block never carries. */
  lemma CountRest(t0: nat, t1: nat, n: nat, rest: nat, len: nat)
    requires Counts(t0, t1, n) && rest < 128 && len == 128 * n + rest
    ensures t0 + 8 * rest == 8 * len % TWO64 && t1 == 8 * len / TWO64 % TWO64
  {
    var x := 1024 * n;
    ModScale(n, 0x40_0000_0000_0000, 1024);
    DivModUnique(8 * len, TWO64, x / TWO64, t0 + 8 * rest);
  }

  // ---- hashing in pieces ----

  method Copy(buffer: array<Byte>, at: nat, s: seq<Byte>)
    requires at + |s| <= buffer.Length
    modifies buffer
    ensures buffer[..at + |s|] == old(buffer[..at]) + s && buffer[at + |s|..] == old(buffer[at + |s|..])
  {
    for i := 0 to |s|
      invariant buffer[..at] == old(buffer[..at]) && buffer[at..at + i] == s[..i] && buffer[at + i..] == old(buffer[at + i..])
    {
      buffer[at + i] := s[i];
    }
    assert s[..|s|] == s;
    assert buffer[..at + |s|] == buffer[..at] + buffer[at..at + |s|];
  }

  class Hasher<W(0)> {
    const p: Parameters<W>
    const H: array<W>
    const buffer: array<Byte>
    var T0: nat
    var T1: nat
    var leftover: nat
    ghost var whole: seq<Byte>  // the blocks of the message that have been absorbed
    ghost var count: nat        // their number

    ghost predicate Sizes()
      reads this
    {
      Sized(p) && H.Length == 8 && buffer.Length == 128 && |whole| == 128 * count
    }

    /** The chaining value and the counter stand for the absorbed blocks. */
    ghost predicate Absorbed()
      requires Sizes()
      reads this, H
    {
      forall u {:trigger Unfold(u)} :: Unfold(u) ==> H[..] == Absorb(p, p.iv, whole, count) && Counts(T0, T1, count)
    }

    ghost predicate Valid()
      reads this, H
    {
      Sizes() && leftover < 128 && Absorbed()
    }

    /** What has been fed in: the absorbed blocks and the buffered rest. */
    ghost function Message(): seq<Byte>
      requires Sizes() && leftover <= 128
      reads this, buffer
    {
      whole + buffer[..leftover]
    }

    constructor (p: Parameters<W>)
      requires Sized(p)
      ensures Valid() && Message() == [] && this.p == p && fresh(H) && fresh(buffer)
    {
      this.p := p;
      H := new W[8](i requires 0 <= i < 8 => p.iv[i]);
      buffer := new Byte[128];
      T0, T1, leftover, whole, count := 0, 0, 0, [], 0;
      new;
      assert H[..] == p.iv;
    }

    method CompressInPlace(block: seq<Byte>)
      requires Sized(p) && H.Length == 8 && |block| == 128
      modifies H
      ensures H[..] == Compress(p, old(H[..]), block)
    {
      ghost var h := H[..];
      var r := new W[8](i requires 0 <= i < 8 reads H => H[i]);
      assert r[..] == h;
      RoundsInPlace(p, r, block);
      ghost var s := r[..];
      for i := 0 to 8
        invariant forall k | 0 <= k < i :: H[k] == p.add(s[k], h[k])
        invariant forall k | i <= k < 8 :: r[k] == s[k] && H[k] == h[k]
      {
        r[i] := p.add(r[i], H[i]);
        H[i] := r[i];
      }
    }

    method Block(block: seq<Byte>)
      requires Sizes() && Absorbed() && |block| == 128
      modifies H, `T0, `T1, `whole, `count
      ensures Sizes() && Absorbed() && whole == old(whole) + block
    {
      assert Unfold(true);
      AbsorbBlock(p, p.iv, whole, block, count);
      CompressInPlace(block);
      Count();
      whole, count := whole + block, count + 1;
    }

    method Count()
      requires Counts(T0, T1, count)
      modifies `T0, `T1
      ensures Counts(T0, T1, count + 1)
    {
      CountBlock(T0, T1, count);
      T0 := (T0 + 1024) % TWO64;
      T1 := (T1 + if T0 == 0 then 1 else 0) % TWO64;
    }

    method Blocks(input: seq<Byte>, blocks: nat)
      requires Sizes() && Absorbed() && |input| == 128 * blocks
      modifies H, `T0, `T1, `whole, `count
      ensures Sizes() && Absorbed() && whole == old(whole) + input
    {
      assert whole == whole + input[..0];
      for i := 0 to blocks
        invariant Sizes() && Absorbed() && whole == old(whole) + input[..128 * i]
      {
        Block(input[128 * i..128 * (i + 1)]);
        Extended(old(whole), input, 128 * i, 128 * (i + 1));
      }
      assert input[..128 * blocks] == input;
    }

    /** Feeds in the next piece of the message. */
    method Update(input: seq<Byte>)
      requires Valid()
      modifies this, H, buffer
      ensures Valid() && Message() == old(Message()) + input
    {
      var rest := input;
      if leftover > 0 {
        rest := TopUp(input);
        if leftover < 128 {
          return;
        }
        ghost var m := Message();
        Block(buffer[..]);
        assert buffer[..128] == buffer[..];
      }
      Bulk(rest);
    }

    /** Fills the buffer as far as the input goes. */
    method TopUp(input: seq<Byte>) returns (rest: seq<Byte>)
      requires Valid() && leftover > 0
      modifies `leftover, buffer
      ensures Sizes() && Absorbed() && leftover <= 128 && (leftover < 128 ==> rest == [])
      ensures Message() + rest == old(Message()) + input
    {
      var want := if 128 - leftover < |input| then 128 - leftover else |input|;
      ghost var tail := buffer[..leftover];
      Copy(buffer, leftover, input[..want]);
      leftover := leftover + want;
      rest := input[want..];
      Rejoin(whole, tail, input, want, buffer[..leftover]);
    }

    /** Absorbs the whole blocks of the input and buffers the rest; what was buffered before has been absorbed. */
    method Bulk(input: seq<Byte>)
      requires Sizes() && Absorbed()
      modifies this, H, buffer
      ensures Valid() && Message() == old(whole) + input
    {
      var blocks := |input| - |input| % 128;
      if blocks > 0 {
        Blocks(input[..blocks], blocks / 128);
      }
      Stash(input[blocks..]);
      Rejoin(old(whole), [], input, blocks, input[..blocks]);
    }

    method Stash(s: seq<Byte>)
      requires Sizes() && Absorbed() && |s| < 128
      modifies `leftover, buffer
      ensures Valid() && Message() == whole + s
    {
      leftover := |s|;
      Copy(buffer, 0, s);
      assert buffer[..leftover] == s;
    }

    /** Pads, absorbs the last one or two blocks, and gives the hash of everything that was fed in. */
    method Final() returns (hash: seq<Byte>)
      requires Valid()
      modifies this, H, buffer
      ensures hash == Hash(p, old(Message()))
    {
      ghost var m := Message();
      var length := Length(m);
      PadBuffer(m, length);
      hash := Output(m);
    }

    method Length(ghost m: seq<Byte>) returns (length: seq<Byte>)
      requires Valid() && |m| == 128 * count + leftover
      ensures length == LengthField(|m|)
    {
      assert Unfold(true);
      CountRest(T0, T1, count, leftover, |m|);
      var t0, t1 := T0 + leftover * 8, T1;
      length := StoreBE(t1) + StoreBE(t0);
    }

    method PadBuffer(ghost m: seq<Byte>, length: seq<Byte>)
      requires Valid() && m == Message() && length == LengthField(|m|)
      modifies this, H, buffer
      ensures Sizes() && Absorbed() && whole == Pad(m)
    {
      ghost var w, n, tail := whole, count, buffer[..leftover];
      if leftover <= 111 {
        Copy(buffer, leftover, [0x80] + Zeros(111 - leftover));
      } else {
        FirstBlock();
      }
      LastBlock(length);
      if |tail| <= 111 {
        PadShort(w, tail, m, length, n);
      } else {
        PadLong(w, tail, m, length, n);
      }
    }

    method FirstBlock()
      requires Valid() && leftover > 111
      modifies this, H, buffer
      ensures Sizes() && Absorbed() && whole == old(whole) + (old(buffer[..leftover]) + ([0x80] + Zeros(127 - old(leftover))))
      ensures buffer[..112] == Zeros(112)
    {
      Copy(buffer, leftover, [0x80] + Zeros(127 - leftover));
      assert buffer[..128] == buffer[..];
      Block(buffer[..]);
      Copy(buffer, 0, Zeros(112));
      assert buffer[..112] == [] + Zeros(112);
    }

    method LastBlock(length: seq<Byte>)
      requires Sizes() && Absorbed() && |length| == 16
      modifies this, H, buffer
      ensures Sizes() && Absorbed() && whole == old(whole) + (old(buffer[..112]) + length)
    {
      Copy(buffer, 112, length);
      assert buffer[..128] == buffer[..];
      Block(buffer[..]);
    }

    method Output(ghost m: seq<Byte>) returns (hash: seq<Byte>)
      requires Sizes() && Absorbed() && whole == Pad(m)
      ensures hash == Hash(p, m)
    {
      assert Unfold(true);
      assert |Pad(m)| / 128 == count;
      hash := Digest(p, H[..]);
    }
  }

  function Concat(pieces: seq<seq<Byte>>, n: nat): seq<Byte>
    requires n <= |pieces|
  {
    if n == 0 then [] else Concat(pieces, n - 1) + pieces[n - 1]
  }

  /** However a message is cut into pieces, feeding them in one by one gives the hash of the whole. */
  method HashPieces<W(0)>(p: Parameters<W>, pieces: seq<seq<Byte>>) returns (hash: seq<Byte>)
    requires Sized(p)
    ensures hash == Hash(p, Concat(pieces, |pieces|))
  {
    var hasher := new Hasher(p);
    for i := 0 to |pieces|
      invariant hasher.Valid() && hasher.Message() == Concat(pieces, i) && hasher.p == p
      invariant fresh(hasher) && fresh(hasher.H) && fresh(hasher.buffer)
    {
      hasher.Update(pieces[i]);
    }
    hash := hasher.Final();
  }

  lemma Gap(n: nat, tail: nat)
    requires tail < 128
    ensures (111 - (128 * n + tail)) % 128 == if tail <= 111 then 111 - tail else 239 - tail
  {
  }

  lemma PadShort(whole: seq<Byte>, tail: seq<Byte>, m: seq<Byte>, length: seq<Byte>, n: nat)
    requires |whole| == 128 * n && |tail| <= 111 && m == whole + tail && length == LengthField(|m|)
    ensures whole + (tail + ([0x80] + Zeros(111 - |tail|)) + length) == Pad(m)
  {
    Gap(n, |tail|);
    Regroup(whole, tail, [0x80] + Zeros(111 - |tail|), length);
  }

  lemma Regroup(a: seq<Byte>, b: seq<Byte>, c: seq<Byte>, d: seq<Byte>)
    ensures a + (b + c + d) == a + b + (c + d)
  {
  }

  lemma PadLong(whole: seq<Byte>, tail: seq<Byte>, m: seq<Byte>, length: seq<Byte>, n: nat)
    requires |whole| == 128 * n && 111 < |tail| < 128 && m == whole + tail && length == LengthField(|m|)
    ensures whole + (tail + ([0x80] + Zeros(127 - |tail|))) + (Zeros(112) + length) == Pad(m)
  {
    Gap(n, |tail|);
    RegroupLong(whole, tail, [0x80], Zeros(127 - |tail|), Zeros(112), Zeros(239 - |tail|), length);
  }

  lemma RegroupLong(a: seq<Byte>, b: seq<Byte>, c: seq<Byte>, d: seq<Byte>, e: seq<Byte>, de: seq<Byte>, f: seq<Byte>)
    requires d + e == de
    ensures a + (b + (c + d)) + (e + f) == a + b + (c + de + f)
  {
    assert c + de == c + d + e;
  }
}
