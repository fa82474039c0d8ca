/** [s]B from 64 signed digits in radix 16 and a table of packed multiples of B. */
module BaseMult {
  import opened Words
  import opened Bits
  import opened Modm
  import opened Recode
  import opened Field
  import opened Group
  import opened Edwards
  import opened Points

  // ---- digits ----

  const WINDOW_BITS: nat := 32

  /** 1 if b == c, else 0, by the sign bit of (b ^ c) - 1. */
  function WindowEqual(b: nat, c: nat): nat {
    SignOfPredecessor(Xor(b, c, WINDOW_BITS))
  }

  function SignOfPredecessor(x: nat): nat {
    (x + TWO32 - 1) % TWO32 / 0x8000_0000
  }

  lemma WindowEqualIs(b: nat, c: nat)
    requires b < 16 && c < 16
    ensures WindowEqual(b, c) == if b == c then 1 else 0
  {
    XorOfSmall(b, c, WINDOW_BITS, 4);
    SignOfSmall(Xor(b, c, WINDOW_BITS));
  }

  lemma SignOfSmall(x: nat)
    requires x < 16
    ensures SignOfPredecessor(x) == if x == 0 then 1 else 0
  {
  }

  lemma XorOfSmall(b: nat, c: nat, n: nat, m: nat)
    requires b < 16 && c < 16 && n == 32 && m == 4
    ensures Xor(b, c, n) < 16 && (Xor(b, c, n) == 0 <==> b == c)
  {
    assert Power(2, m) == 16;
    XorSmall(b, c, n, m);
    XorZero(b, c, m);
  }

  /** |b|, as (b + mask) ^ mask on 32 bits, where mask is all ones exactly when b is negative. */
  function Magnitude(b: int): nat
    requires -8 <= b <= 8
  {
    var mask := if b < 0 then TWO32 - 1 else 0;
    var sum := (b + mask) % TWO32;
    if mask == 0 then sum else TWO32 - 1 - sum
  }

  lemma MagnitudeIs(b: int)
    requires -8 <= b <= 8
    ensures Magnitude(b) == if b < 0 then -b else b
  {
  }

  // ---- the table ----

  /** (y - x, y + x, k x y), packed. */
  ghost predicate Row<G>(c: Curve<G>, row: seq<Byte>, g: G, k: int) {
    (|row| == 96 && Scaled(LE(row[..32]) % TWO255, LE(row[32..64]) % TWO255, LE(row[64..]) % TWO255, c.x(g), c.y(g), k)) == true
  }

  ghost predicate Scaled(U: int, V: int, W: int, x: int, y: int, k: int) {
    Eq(U, y - x) && Eq(V, y + x) && Eq(W, k * (x * y))
  }

  /** The third entry carries a factor d in every block but the first. */
  ghost function Factor(pos: nat): int {
    if pos == 0 then 2 else 2 * D
  }

  ghost predicate RowOf<G>(c: Curve<G>, row: seq<Byte>, i: nat, j: nat) {
    Row(c, row, Times(c.group, (j + 1) * Power(256, i), c.base), Factor(i))
  }

  /** Row 8 i + j is (j + 1) 256^i B. */
  ghost predicate BaseTable<G>(c: Curve<G>, table: seq<seq<Byte>>) {
    |table| == 256 && forall k | 0 <= k < 256 :: RowOf(c, table[k], k / 8, k % 8)
  }

  function Identity(): (p: seq<Byte>) {
    seq(96, i => if i == 0 || i == 32 then 1 else 0)
  }

  /** The row that is selected, reading all of them, is row |b| - 1 of the block, or the identity. */
  method Select(table: seq<seq<Byte>>, pos: nat, u: nat) returns (r: seq<Byte>)
    requires |table| == 256 && pos < 32 && u <= 8 && forall k | 0 <= k < 256 :: |table[k]| == 96
    ensures r == if u == 0 then Identity() else table[pos * 8 + u - 1]
  {
    var packed := new Byte[96](i => if i == 0 || i == 32 then 1 else 0);
    assert packed[..] == Identity();
    for i := 0 to 8
      invariant packed[..] == if 1 <= u <= i then table[pos * 8 + u - 1] else Identity()
    {
      WindowEqualIs(u, i + 1);
      MoveConditionalBytes(packed, table[pos * 8 + i], WindowEqual(u, i + 1));
    }
    r := packed[..];
  }

  lemma IdentityRow<G(!new)>(c: Curve<G>, k: int)
    requires EdwardsCurve(c)
    ensures Row(c, Identity(), c.group.zero, k)
  {
    IdentityBytes(Identity());
  }

  lemma IdentityBytes(row: seq<Byte>)
    requires row == Identity()
    ensures LE(row[..32]) % TWO255 == 1 && LE(row[32..64]) % TWO255 == 1 && LE(row[64..]) % TWO255 == 0
  {
    OneBytes(row[..32]);
    OneBytes(row[32..64]);
    var tail := row[64..];
    ZeroTail([], tail, 0);
    assert [] + tail == tail;
  }

  lemma OneBytes(s: seq<Byte>)
    requires |s| == 32 && s[0] == 1 && forall k | 1 <= k < 32 :: s[k] == 0
    ensures LE(s) == 1
  {
    ZeroTail([s[0]], s[1..], 1);
    assert [s[0]] + s[1..] == s;
    assert LE(s) == s[0] + TWO8 * LEFrom(s, 1);
  }

  method ChooseNiels<G(!new)>(table: seq<seq<Byte>>, pos: nat, b: int, ghost c: Curve<G>, ghost n: int) returns (t: NielsPoint)
    requires EdwardsCurve(c) && BaseTable(c, table) && pos < 32 && -8 <= b <= 8 && n == b * Power(256, pos)
    ensures Below(t.ysubx, TIGHT) && Below(t.xaddy, TIGHT) && Below(t.t2d, TIGHT)
    ensures var g := Times(c.group, n, c.base);
            Scaled(F(t.ysubx), F(t.xaddy), F(t.t2d), c.x(g), c.y(g), Factor(pos))
  {
    var sign := if b < 0 then 1 else 0;
    MagnitudeIs(b);
    var u := Magnitude(b);
    var packed := Select(table, pos, u);
    ghost var v: int := u * Power(256, pos);
    ghost var h := Times(c.group, v, c.base);
    SelectedRow(c, table, pos, u, packed, v);
    t := ExpandRow(packed, sign);
    SignedRow(c, packed, h, Factor(pos), sign, t);
    SignedMultiple(c, u, b, Power(256, pos));
  }

  /** The selected row is the digit's multiple. */
  lemma SelectedRow<G(!new)>(c: Curve<G>, table: seq<seq<Byte>>, pos: nat, u: nat, packed: seq<Byte>, n: int)
    requires EdwardsCurve(c) && BaseTable(c, table) && pos < 32 && u <= 8 && n == u * Power(256, pos)
    requires packed == if u == 0 then Identity() else table[pos * 8 + u - 1]
    ensures Row(c, packed, Times(c.group, n, c.base), Factor(pos))
  {
    if u == 0 {
      NoRow(c, n, Factor(pos));
    } else {
      BlockRow(c, table, pos, u - 1, n);
    }
  }

  lemma NoRow<G(!new)>(c: Curve<G>, n: int, k: int)
    requires EdwardsCurve(c) && n == 0
    ensures Row(c, Identity(), Times(c.group, n, c.base), k)
  {
    IdentityRow(c, k);
  }

  lemma BlockRow<G(!new)>(c: Curve<G>, table: seq<seq<Byte>>, i: nat, j: nat, n: int)
    requires BaseTable(c, table) && i < 32 && j < 8 && n == (j + 1) * Power(256, i)
    ensures Row(c, table[i * 8 + j], Times(c.group, n, c.base), Factor(i))
  {
    var k := i * 8 + j;
    assert k / 8 == i && k % 8 == j;
    assert RowOf(c, table[k], i, j);
  }

  lemma SignedMultiple<G(!new)>(c: Curve<G>, u: nat, b: int, w: nat)
    requires EdwardsCurve(c) && u == if b < 0 then -b else b
    ensures Signed(c, Times(c.group, u * w, c.base), if b < 0 then 1 else 0) == Times(c.group, b * w, c.base)
  {
    if b < 0 {
      assert b * w == -(u * w);
      if u * w == 0 {
        Law(c.group, c.group.zero, c.group.zero, c.group.zero);
        NegUnique(c.group, c.group.zero, c.group.zero);
      }
    }
  }

  /** The three field elements, with the first two exchanged and the third negated for a negative digit. */
  method ExpandRow(packed: seq<Byte>, sign: nat) returns (t: NielsPoint)
    requires |packed| == 96 && sign < 2
    ensures Below(t.ysubx, TIGHT) && Below(t.xaddy, TIGHT) && Below(t.t2d, TIGHT)
    ensures Adjusted(packed, sign, t)
  {
    var ysubx := Field.Expand(packed[..32]);
    var xaddy := Field.Expand(packed[32..64]);
    var t2d := Field.Expand(packed[64..]);
    var first, second := SwapLimbs(ysubx, xaddy, sign);
    var neg := Neg(t2d);
    var third, _ := SwapLimbs(t2d, neg, sign);
    t := NielsPoint(first, second, third);
    ResidueOfResidue(Val(ysubx));
    ResidueOfResidue(Val(xaddy));
    ResidueOfResidue(Val(t2d));
    EqFSub(0, F(t2d));
    EqAdd(0, 0, F(t2d), Val(t2d));
  }

  /** Exchanges the limbs of two field elements, or leaves them. */
  method SwapLimbs(a: Fe, b: Fe, iswap: nat) returns (a': Fe, b': Fe)
    requires Below(a, TWO64) && Below(b, TWO64) && iswap < 2
    ensures (a', b') == if iswap == 1 then (b, a) else (a, b)
  {
    var a0, b0 := SwapConditional(a.x0, b.x0, iswap);
    var a1, b1 := SwapConditional(a.x1, b.x1, iswap);
    var a2, b2 := SwapConditional(a.x2, b.x2, iswap);
    var a3, b3 := SwapConditional(a.x3, b.x3, iswap);
    var a4, b4 := SwapConditional(a.x4, b.x4, iswap);
    a', b' := Fe(a0, a1, a2, a3, a4), Fe(b0, b1, b2, b3, b4);
  }

  ghost predicate Adjusted(packed: seq<Byte>, sign: nat, t: NielsPoint)
    requires |packed| == 96
  {
    var U: int, V: int, W: int := LE(packed[..32]) % TWO255, LE(packed[32..64]) % TWO255, LE(packed[64..]) % TWO255;
    if sign == 1 then Eq(F(t.ysubx), V) && Eq(F(t.xaddy), U) && Eq(F(t.t2d), 0 - W)
    else Eq(F(t.ysubx), U) && Eq(F(t.xaddy), V) && Eq(F(t.t2d), W)
  }

  lemma SignedRow<G(!new)>(c: Curve<G>, packed: seq<Byte>, h: G, k: int, sign: nat, t: NielsPoint)
    requires EdwardsCurve(c) && Row(c, packed, h, k) && sign < 2 && Adjusted(packed, sign, t)
    ensures var g := Signed(c, h, sign); Scaled(F(t.ysubx), F(t.xaddy), F(t.t2d), c.x(g), c.y(g), k)
  {
    if sign == 1 {
      PointLaw(c, h);
      var U: int, V: int, W: int := LE(packed[..32]) % TWO255, LE(packed[32..64]) % TWO255, LE(packed[64..]) % TWO255;
      ScaledNeg(U, V, W, 0 - W, c.x(h), c.y(h), c.x(c.group.neg(h)), k);
    }
  }

  lemma ScaledNeg(U: int, V: int, W: int, W': int, x: int, y: int, x': int, k: int)
    requires Scaled(U, V, W, x, y, k) && Eq(x', 0 - x) && Eq(W', 0 - W)
    ensures Scaled(V, U, W', x', y, k)
  {
    EqAdd(y, y, x', 0 - x);
    EqMul(x', 0 - x, y, y);
    EqMul(k, k, x' * y, (0 - x) * y);
    EqAdd(0, 0, W, k * (x * y));
    assert k * ((0 - x) * y) == 0 - k * (x * y);
  }

  // ---- the schedule ----

  /** The digits at positions off, off + 2, ..., in radix 256. */
  function Stride(d: seq<int>, off: nat, n: nat): int
    requires n == 0 || 2 * (n - 1) + off < |d|
  {
    if n == 0 then 0 else Stride(d, off, n - 1) + d[2 * (n - 1) + off] * Power(256, n - 1)
  }

  lemma FirstStride(d: seq<int>, off: nat)
    requires off < |d|
    ensures Stride(d, off, 1) == d[off]
  {
    assert Power(256, 0) == 1 && Stride(d, off, 0) == 0;
  }

  lemma {:induction false} PowerOfSquare(b: nat, n: nat)
    ensures Power(b, 2 * n) == Power(b * b, n)
  {
    if n > 0 {
      PowerOfSquare(b, n - 1);
      var k, p := 2 * n - 2, Power(b, 2 * n - 2);
      PowerStep(b, k);
      PowerStep(b, k + 1);
      MulAssociative(b, b, p);
    }
  }

  lemma PowerStep(b: nat, n: nat)
    ensures Power(b, n + 1) == b * Power(b, n)
  {
  }

  lemma PairOfDigits(x: int, y: int, r: nat, p: nat, s: int, t: int)
    ensures s + r * t + x * p + y * (r * p) == s + x * p + r * (t + y * p)
  {
    assert y * (r * p) == r * (y * p);
  }

  /** The even digits, plus 16 times the odd ones, are the whole number. */
  lemma {:induction false} Interleaved(d: seq<int>, r: nat, n: nat)
    requires 2 * n <= |d| && r == 16
    ensures Weighted(d, r, 2 * n) == Stride(d, 0, n) + r * Stride(d, 1, n)
  {
    if n > 0 {
      Interleaved(d, r, n - 1);
      PowerOfSquare(r, n - 1);
      PowerStep(r, 2 * n - 2);
      PairOfDigits(d[2 * n - 2], d[2 * n - 1], r, Power(256, n - 1), Stride(d, 0, n - 1), Stride(d, 1, n - 1));
      assert Weighted(d, r, 2 * n - 1) == Weighted(d, r, 2 * n - 2) + d[2 * n - 2] * Power(r, 2 * n - 2);
    }
  }

  lemma NielsOfScaled(U: int, V: int, W: int, x: int, y: int)
    requires Scaled(U, V, W, x, y, 2 * D)
    ensures Niels(U, V, W, 1, x, y)
  {
    DTimesIs(x * y);
    ResidueIs(1);
    ResidueIs(0);
  }

  /** The first digit is not added: its table row is turned into extended coordinates with Z = 2. */
  method FromRow<G(!new)>(table: seq<seq<Byte>>, b: int, ghost c: Curve<G>) returns (r: Ge)
    requires EdwardsCurve(c) && BaseTable(c, table) && -8 <= b <= 8
    ensures RepFull(c, r, Times(c.group, b, c.base))
  {
    var t := ChooseNiels(table, 0, b, c, b);
    var x := SubReduce(t.xaddy, t.ysubx);
    var y := AddReduce(t.xaddy, t.ysubx);
    r := Ge(x, y, Fe(2, 0, 0, 0, 0), t.t2d);
    EqFSub(F(t.xaddy), F(t.ysubx));
    EqFAdd(F(t.xaddy), F(t.ysubx));
    ghost var g := Times(c.group, b, c.base);
    FromScaled(F(t.ysubx), F(t.xaddy), F(t.t2d), c.x(g), c.y(g), F(x), F(y), F(r.z), r.z);
  }

  lemma FromScaled(U: int, V: int, W: int, x: int, y: int, X: int, Y: int, Z: int, z: Fe)
    requires Scaled(U, V, W, x, y, 2) && Eq(X, V - U) && Eq(Y, V + U) && z == Fe(2, 0, 0, 0, 0) && Z == F(z)
    ensures Projective(X, Y, Z, x, y) && Eq(W, x * y * Z)
  {
    EqAdd(V, y + x, U, y - x);
    ResidueIs(2);
    ResidueIs(0);
    assert Val(z) == 2;
  }

  /** Adds the digit's table row. */
  method AddRow<G(!new)>(r: Ge, table: seq<seq<Byte>>, pos: nat, b: int, ghost c: Curve<G>, ghost a: int, ghost n: int, ghost a': int) returns (r': Ge)
    requires EdwardsCurve(c) && BaseTable(c, table) && 0 < pos < 32 && -8 <= b <= 8 && RepFull(c, r, Times(c.group, a, c.base))
    requires n == b * Power(256, pos) && a' == a + n
    ensures RepFull(c, r', Times(c.group, a', c.base))
  {
    var t := ChooseRow(table, pos, b, c, n);
    TimesAdd(c.group, a, n, c.base);
    r' := NielsAdd2(r, t, c, Times(c.group, a, c.base), Times(c.group, n, c.base));
  }

  method ChooseRow<G(!new)>(table: seq<seq<Byte>>, pos: nat, b: int, ghost c: Curve<G>, ghost n: int) returns (t: NielsPoint)
    requires EdwardsCurve(c) && BaseTable(c, table) && 0 < pos < 32 && -8 <= b <= 8 && n == b * Power(256, pos)
    ensures RepNiels(c, t, Times(c.group, n, c.base))
  {
    t := ChooseNiels(table, pos, b, c, n);
    ghost var g := Times(c.group, n, c.base);
    NielsOfScaled(F(t.ysubx), F(t.xaddy), F(t.t2d), c.x(g), c.y(g));
  }

  /** Adds the lowest digit, whose table row still lacks the factor d. */
  method AddFirstRow<G(!new)>(r: Ge, table: seq<seq<Byte>>, b: int, ghost c: Curve<G>, ghost a: int, ghost a': int) returns (r': Ge)
    requires EdwardsCurve(c) && BaseTable(c, table) && -8 <= b <= 8 && RepFull(c, r, Times(c.group, a, c.base)) && a' == a + b
    ensures RepFull(c, r', Times(c.group, a', c.base))
  {
    var t := FirstRow(table, b, c);
    TimesAdd(c.group, a, b, c.base);
    r' := NielsAdd2(r, t, c, Times(c.group, a, c.base), Times(c.group, b, c.base));
  }

  method FirstRow<G(!new)>(table: seq<seq<Byte>>, b: int, ghost c: Curve<G>) returns (t: NielsPoint)
    requires EdwardsCurve(c) && BaseTable(c, table) && -8 <= b <= 8
    ensures RepNiels(c, t, Times(c.group, b, c.base))
  {
    var s := ChooseNiels(table, 0, b, c, b);
    ghost var g := Times(c.group, b, c.base);
    CurveConstants();
    var t2d := Field.Mul(s.t2d, ECD);
    t := NielsPoint(s.ysubx, s.xaddy, t2d);
    ScaledByD(F(s.ysubx), F(s.xaddy), F(s.t2d), F(t2d), c.x(g), c.y(g));
  }

  lemma ScaledByD(U: int, V: int, W: int, W': int, x: int, y: int)
    requires Scaled(U, V, W, x, y, 2) && W' == FMul(W, D)
    ensures Niels(U, V, W', 1, x, y)
  {
    TimesD(W, W', x * y);
    NielsOfScaled(U, V, W', x, y);
  }

  lemma TimesD(W: int, W': int, xy: int)
    requires Eq(W, 2 * xy) && W' == FMul(W, D)
    ensures Eq(W', 2 * D * xy)
  {
    EqFMul(W, D);
    EqMul(W, 2 * xy, D, D);
    assert 2 * xy * D == 2 * D * xy;
  }

  /** The digits of one parity, from the given one on, each added once. */
  method Rows<G(!new)>(start: Ge, table: seq<seq<Byte>>, b: seq<int>, first: nat, ghost off: nat, ghost c: Curve<G>, ghost a: int) returns (r: Ge, ghost v: int)
    requires EdwardsCurve(c) && BaseTable(c, table) && |b| == 64 && forall k | 0 <= k < 64 :: -8 <= b[k] <= 8
    requires off < 2 && first == 2 + off && RepFull(c, start, Times(c.group, a, c.base))
    ensures v == a + Stride(b, off, 32) - Stride(b, off, 1) && RepFull(c, r, Times(c.group, v, c.base))
  {
    r, v := start, a;
    var i := first;
    ghost var n := 1;
    while i < 64
      invariant 1 <= n <= 32 && i == 2 * n + off && v == a + Stride(b, off, n) - Stride(b, off, 1)
      invariant RepFull(c, r, Times(c.group, v, c.base))
    {
      r, v := AddRowAt(r, table, b, i, off, n, c, v);
      i, n := i + 2, n + 1;
    }
  }

  method AddRowAt<G(!new)>(r: Ge, table: seq<seq<Byte>>, b: seq<int>, i: nat, ghost off: nat, ghost n: nat, ghost c: Curve<G>, ghost v: int)
    returns (r': Ge, ghost v': int)
    requires EdwardsCurve(c) && BaseTable(c, table) && |b| == 64 && off < 2 && i == 2 * n + off < 64 && n > 0 && -8 <= b[i] <= 8
    requires RepFull(c, r, Times(c.group, v, c.base))
    ensures v' - v == Stride(b, off, n + 1) - Stride(b, off, n) && RepFull(c, r', Times(c.group, v', c.base))
  {
    ghost var d := b[i] * Power(256, n);
    v' := v + d;
    r' := AddRow(r, table, i / 2, b[i], c, v, d, v');
  }

  method TimesSixteen<G(!new)>(p: Ge, ghost c: Curve<G>, ghost a: int) returns (r: Ge)
    requires EdwardsCurve(c) && RepFull(c, p, Times(c.group, a, c.base))
    ensures RepFull(c, r, Times(c.group, 16 * a, c.base))
  {
    TimesAdd(c.group, a, a, c.base);
    r := DoublePartial(p, p.t, c, Times(c.group, a, c.base));
    TimesAdd(c.group, 2 * a, 2 * a, c.base);
    r := DoublePartial(r, r.t, c, Times(c.group, 2 * a, c.base));
    TimesAdd(c.group, 4 * a, 4 * a, c.base);
    r := DoublePartial(r, r.t, c, Times(c.group, 4 * a, c.base));
    TimesAdd(c.group, 8 * a, 8 * a, c.base);
    r := Double(r, c, Times(c.group, 8 * a, c.base));
  }

  method ScalarMultBase<G(!new)>(table: seq<seq<Byte>>, s: array<nat>, ghost c: Curve<G>) returns (r: Ge)
    requires EdwardsCurve(c) && BaseTable(c, table) && s.Length == 5 && Limbs(s[..], 0x8000_0000)
    ensures RepFull(c, r, Times(c.group, Value(s[..]), c.base))
  {
    var digits := new int[64];
    Window4(digits, s);
    var b := digits[..];
    Interleaved(b, 16, 32);
    r := Schedule(table, b, c, Value(s[..]));
  }

  method Schedule<G(!new)>(table: seq<seq<Byte>>, b: seq<int>, ghost c: Curve<G>, ghost n: int) returns (r: Ge)
    requires EdwardsCurve(c) && BaseTable(c, table) && |b| == 64 && forall k | 0 <= k < 64 :: -8 <= b[k] <= 8
    requires n == Stride(b, 0, 32) + 16 * Stride(b, 1, 32)
    ensures RepFull(c, r, Times(c.group, n, c.base))
  {
    FirstStride(b, 0);
    FirstStride(b, 1);
    ghost var odd, low, all;
    r := FromRow(table, b[1], c);
    r, odd := Rows(r, table, b, 3, 1, c, b[1]);
    r := TimesSixteen(r, c, odd);
    low := 16 * odd + b[0];
    r := AddFirstRow(r, table, b[0], c, 16 * odd, low);
    r, all := Rows(r, table, b, 2, 0, c, low);
  }
}
