/** The streaming writer: items are appended in order, and the prefix of a list is inserted in place once its
    last item has arrived. */
module RlpWriter {
  import opened Basics
  import opened Words
  import opened RlpSpec

  // ---- what has been written ----

  /** An open list: how many items it will have, how many it has, and their bytes. */
  datatype Frame = Frame(need: nat, got: nat, bytes: seq<Byte>)

  /** The bytes at the top level, and the open lists, innermost last. */
  datatype State = State(top: seq<Byte>, open: seq<Frame>)

  /** The bytes before open list `k`: open lists have no prefix yet. */
  function BytesTo(top: seq<Byte>, open: seq<Frame>, k: nat): seq<Byte>
    requires k <= |open|
  {
    if k == 0 then top else BytesTo(top, open, k - 1) + open[k - 1].bytes
  }

  function Bytes(top: seq<Byte>, open: seq<Frame>): seq<Byte> {
    BytesTo(top, open, |open|)
  }

  lemma {:induction false} BytesSame(top: seq<Byte>, open: seq<Frame>, open': seq<Frame>, k: nat)
    requires k <= |open| && k <= |open'| && forall j | 0 <= j < k :: open[j] == open'[j]
    ensures BytesTo(top, open, k) == BytesTo(top, open', k)
  {
    if k > 0 {
      BytesSame(top, open, open', k - 1);
    }
  }

  /** The innermost open list lies behind all the others. */
  lemma BytesLast(top: seq<Byte>, outer: seq<Frame>, f: Frame)
    ensures Bytes(top, outer + [f]) == Bytes(top, outer) + f.bytes
  {
    BytesSame(top, outer, outer + [f], |outer|);
  }

  lemma FilledBytes(top: seq<Byte>, outer: seq<Frame>, f: Frame, b: seq<Byte>, out: seq<Byte>)
    requires out == Bytes(top, outer + [f]) + b
    ensures out == Bytes(top, outer) + (f.bytes + b)
  {
    BytesLast(top, outer, f);
    Reassociate(Bytes(top, outer), f.bytes, b);
  }

  lemma Reassociate(a: seq<Byte>, b: seq<Byte>, c: seq<Byte>)
    ensures a + b + c == a + (b + c)
  {
  }

  /** Lengths that take more than eight bytes do not fit a list prefix. */
  predicate LengthFits(n: nat) {
    |BE(n)| <= 8
  }

  /** A payload with its list prefix. */
  function ListOf(payload: seq<Byte>): seq<Byte> {
    Header(LIST_START, |payload|) + payload
  }

  /** Bytes arrive that count as `n` items: they go to the innermost open list, and a list that becomes full is an item
      for the one around it. */
  function Note(top: seq<Byte>, open: seq<Frame>, b: seq<Byte>, n: nat): Option<State>
    decreases |open|
  {
    if open == [] then Some(State(top + b, []))
    else
      var f, outer := open[|open| - 1], open[..|open| - 1];
      if f.got + n > f.need then None
      else if n == 0 || f.got + n < f.need then Some(State(top, outer + [Frame(f.need, f.got + n, f.bytes + b)]))
      else if !LengthFits(|f.bytes + b|) then None
      else Note(top, outer, ListOf(f.bytes + b), 1)
  }

  /** Each stack entry has the number of items still missing and the place where the list's payload starts. */
  ghost predicate Matches(stack: seq<(nat, nat)>, top: seq<Byte>, open: seq<Frame>) {
    |stack| == |open| && forall k | 0 <= k < |open| :: Entry(stack[k], top, open, k)
  }

  ghost predicate Entry(e: (nat, nat), top: seq<Byte>, open: seq<Frame>, k: nat)
    requires k < |open|
  {
    open[k].got < open[k].need && e.0 == open[k].need - open[k].got && e.1 == |BytesTo(top, open, k)|
  }

  lemma MatchesOuter(stack: seq<(nat, nat)>, top: seq<Byte>, open: seq<Frame>)
    requires open != [] && Matches(stack, top, open)
    ensures Matches(stack[..|stack| - 1], top, open[..|open| - 1])
    ensures var f, e := open[|open| - 1], stack[|stack| - 1];
            f.got < f.need && e.0 == f.need - f.got && e.1 == |Bytes(top, open[..|open| - 1])|
    ensures stack == stack[..|stack| - 1] + [stack[|stack| - 1]] && open == open[..|open| - 1] + [open[|open| - 1]]
  {
    var n := |open| - 1;
    var outer, below := open[..n], stack[..n];
    BytesSame(top, outer, open, n);
    assert Entry(stack[n], top, open, n);
    forall k | 0 <= k < n ensures Entry(below[k], top, outer, k) {
      assert Entry(stack[k], top, open, k);
      BytesSame(top, outer, open, k);
    }
  }

  lemma MatchesPush(stack: seq<(nat, nat)>, top: seq<Byte>, open: seq<Frame>, f: Frame)
    requires Matches(stack, top, open) && f.got < f.need
    ensures Matches(stack + [(f.need - f.got, |Bytes(top, open)|)], top, open + [f])
    ensures Bytes(top, open + [f]) == Bytes(top, open) + f.bytes
  {
    var n, open' := |open|, open + [f];
    var stack' := stack + [(f.need - f.got, |Bytes(top, open)|)];
    BytesLast(top, open, f);
    forall k | 0 <= k < n + 1 ensures Entry(stack'[k], top, open', k) {
      BytesSame(top, open, open', if k < n then k else n);
      if k < n {
        assert Entry(stack[k], top, open, k);
      }
    }
  }

  // ---- numbers ----

  method BytesRequired(n: nat) returns (i: nat)
    ensures i == |BE(n)|
  {
    i := 0;
    var rest := n;
    while rest != 0
      invariant i + |BE(rest)| == |BE(n)|
    {
      i, rest := i + 1, rest / 256;
    }
  }

  /** Writes the digits of `n` backwards, so that they end before `end`. */
  method WriteDigits(out: seq<Byte>, end: nat, n: nat) returns (r: seq<Byte>)
    requires |BE(n)| <= end <= |out|
    ensures r == out[..end - |BE(n)|] + BE(n) + out[end..]
  {
    r := out;
    var b, rest := end, n;
    while rest != 0
      invariant |r| == |out| && b <= end && b == end - |BE(n)| + |BE(rest)|
      invariant r[..b] == out[..b] && BE(n) + out[end..] == BE(rest) + r[b..]
    {
      b := b - 1;
      ghost var tail := r[b + 1..];
      r := r[b := rest % 256];
      assert r[b..] == [rest % 256] + tail;
      rest := rest / 256;
    }
    assert BE(0) + r[b..] == r[b..];
    assert r == r[..b] + (BE(n) + out[end..]);
  }

  /** Makes room for `br` bytes at the end and writes `n` there. */
  method PushInt(out: seq<Byte>, n: nat, br: nat) returns (r: seq<Byte>)
    requires br == |BE(n)|
    ensures r == out + BE(n)
  {
    r := out + seq(br, _ => 0);
    r := WriteDigits(r, |r|, n);
  }

  /** Makes room for the list prefix at `p`, moves the payload up, and writes the prefix over the gap. */
  method InsertHeader(out: seq<Byte>, p: nat) returns (ok: bool, r: seq<Byte>)
    requires p <= |out|
    ensures ok <==> |BE(|out| - p)| <= 8
    ensures ok ==> r == out[..p] + Header(LIST_START, |out| - p) + out[p..]
  {
    var s := |out| - p;
    var brs := BytesRequired(s);
    var encodeSize := if s < IMM_COUNT then 1 else 1 + brs;
    r := out + seq(encodeSize, _ => 0);
    r := r[..p + encodeSize] + out[p..];
    if s < IMM_COUNT {
      r := r[p := LIST_START + s];
      BESize64(s);
      return true, r;
    }
    if LIST_START + IMM_COUNT - 1 + brs > 0xff {
      return false, r;
    }
    r := r[p := LIST_START + IMM_COUNT - 1 + brs];
    ghost var gap := r;
    r := WriteDigits(r, p + 1 + brs, s);
    assert gap[..p + 1] == out[..p] + [LIST_START + IMM_COUNT - 1 + brs] && gap[p + 1 + brs..] == out[p..];
    ok := true;
  }

  // ---- the stream ----

  class Stream {
    var out: seq<Byte>
    var stack: seq<(nat, nat)>
    ghost var top: seq<Byte>
    ghost var open: seq<Frame>

    ghost predicate Valid()
      reads this
    {
      out == Bytes(top, open) && Matches(stack, top, open)
    }

    constructor ()
      ensures Valid() && top == [] && open == []
    {
      out, stack, top, open := [], [], [], [];
    }

    /** The outcome of appending bytes that count as `n` items to a stream in the given state, if their prefix fits. */
    ghost predicate Appended(b: seq<Byte>, n: nat, fits: bool, ok: bool, top0: seq<Byte>, open0: seq<Frame>)
      reads this
    {
      && (ok <==> fits && Note(top0, open0, b, n).Some?)
      && (ok ==> Valid() && State(top, open) == Note(top0, open0, b, n).value)
    }

    /** Counts items whose bytes have just been written: full lists are closed, from the inside out. */
    method NoteAppended(itemCount: nat, ghost b: seq<Byte>) returns (ok: bool)
      requires out == Bytes(top, open) + b && Matches(stack, top, open)
      modifies this
      ensures Appended(b, itemCount, true, ok, old(top), old(open))
    {
      if itemCount == 0 {
        Spill(b);
        return true;
      }
      ghost var c := b;
      var count := itemCount;
      while stack != []
        invariant count > 0 && out == Bytes(top, open) + c && Matches(stack, top, open)
        invariant Note(top, open, c, count) == Note(old(top), old(open), b, itemCount)
        decreases |stack|
      {
        var missing, p, f := Pop(c);
        if missing < count {
          return false;
        }
        if missing > count {
          Reopen(missing - count, p, Frame(f.need, f.got + count, f.bytes + c));
          return true;
        }
        ok := Close(p, f.bytes + c);
        if !ok {
          return;
        }
        c, count := ListOf(f.bytes + c), 1;
      }
      top := top + c;
      return true;
    }

    /** Bytes that do not count stay where they are. */
    ghost method Spill(b: seq<Byte>)
      requires out == Bytes(top, open) + b && Matches(stack, top, open)
      modifies this`top, this`open
      ensures Valid() && Some(State(top, open)) == Note(old(top), old(open), b, 0)
    {
      if open == [] {
        top := top + b;
      } else {
        MatchesOuter(stack, top, open);
        var f, outer := open[|open| - 1], open[..|open| - 1];
        BytesLast(top, outer, f);
        MatchesPush(stack[..|stack| - 1], top, outer, Frame(f.need, f.got, f.bytes + b));
        open := outer + [Frame(f.need, f.got, f.bytes + b)];
      }
    }

    /** Takes the innermost list off the stack. */
    method Pop(ghost b: seq<Byte>) returns (missing: nat, p: nat, ghost f: Frame)
      requires stack != [] && out == Bytes(top, open) + b && Matches(stack, top, open)
      modifies this`stack, this`open
      ensures old(stack) == stack + [(missing, p)] && old(open) == open + [f] && f.got < f.need && Matches(stack, top, open)
      ensures missing == f.need - f.got && p == |Bytes(top, open)| && out == Bytes(top, open) + (f.bytes + b)
    {
      var back := stack[|stack| - 1];
      missing, p, f := back.0, back.1, open[|open| - 1];
      MatchesOuter(stack, top, open);
      stack, open := stack[..|stack| - 1], open[..|open| - 1];
      FilledBytes(top, open, f, b, out);
    }

    /** Puts a list that is not full yet back, with fewer items missing. */
    method Reopen(missing: nat, p: nat, ghost f: Frame)
      requires Matches(stack, top, open) && missing + f.got == f.need && missing > 0 && p == |Bytes(top, open)|
      requires out == Bytes(top, open) + f.bytes
      modifies this`stack, this`open
      ensures Valid() && open == old(open) + [f]
    {
      MatchesPush(stack, top, open, f);
      stack, open := stack + [(missing, p)], open + [f];
    }

    /** Turns the payload that starts at `p` into a list. */
    method Close(p: nat, ghost payload: seq<Byte>) returns (ok: bool)
      requires out == Bytes(top, open) + payload && p == |Bytes(top, open)|
      modifies this`out
      ensures ok <==> LengthFits(|payload|)
      ensures ok ==> out == Bytes(top, open) + ListOf(payload)
    {
      ok, out := InsertHeader(out, p);
    }

    /** The bytes written, if every list that was opened has received its items. */
    method Out() returns (r: Option<seq<Byte>>)
      requires Valid()
      ensures r == if open == [] then Some(top) else None
    {
      if stack != [] {
        return None;
      }
      return Some(out);
    }

    method PushCount(count: nat, base: nat) returns (ok: bool)
      modifies this`out
      ensures ok <==> |BE(count)| + base <= 0xff
      ensures ok ==> out == old(out) + ([base + |BE(count)|] + BE(count))
    {
      var br := BytesRequired(count);
      if br + base > 0xff {
        return false;
      }
      out := out + [br + base];
      out := PushInt(out, count, br);
      return true;
    }

    /** Writes the prefix of a payload of `n` bytes. */
    method PushHeader(start: nat, n: nat) returns (ok: bool)
      requires start == DATA_START || start == LIST_START
      modifies this`out
      ensures ok <==> HeaderFits(start, n)
      ensures ok ==> out == old(out) + Header(start, n)
    {
      if n < IMM_COUNT {
        BESize64(n);
        out := out + [start + n];
        return true;
      }
      ok := PushCount(n, start + IMM_COUNT - 1);
    }

    /** Writes a prefix and its payload. */
    method PushWhole(start: nat, payload: seq<Byte>) returns (ok: bool)
      requires start == DATA_START || start == LIST_START
      modifies this`out
      ensures ok <==> HeaderFits(start, |payload|)
      ensures ok ==> out == old(out) + (Header(start, |payload|) + payload)
    {
      ok := PushHeader(start, |payload|);
      if ok {
        out := out + payload;
        Reassociate(old(out), Header(start, |payload|), payload);
      }
    }

    /** Appends a byte string; `compact` drops its leading zeros first. */
    method Append(s: seq<Byte>, compact: bool) returns (ok: bool)
      requires Valid()
      modifies this
      ensures var x := Data(if compact then BE(BEValue(s)) else s);
              Appended(Encode(x), 1, PrefixFits(x), ok, old(top), old(open))
    {
      var d := s;
      if compact {
        d := StripZeros(s);
      }
      if |d| == 1 && d[0] < DATA_START {
        BESize64(1);
        out := out + d;
      } else {
        ok := PushWhole(DATA_START, d);
        if !ok {
          return;
        }
      }
      ok := NoteAppended(1, Encode(Data(d)));
    }

    /** Appends a number, as its big-endian bytes. */
    method AppendInt(n: nat) returns (ok: bool)
      requires Valid()
      modifies this
      ensures var x := Data(BE(n)); Appended(Encode(x), 1, PrefixFits(x), ok, old(top), old(open))
    {
      if n == 0 {
        BESize64(0);
        out := out + [DATA_START];
      } else if n < DATA_START {
        assert BE(n) == BE(0) + [n];
        BESize64(1);
        out := out + [n];
      } else {
        ok := PushNumber(n);
        if !ok {
          return;
        }
      }
      ok := NoteAppended(1, Encode(Data(BE(n))));
    }

    /** Writes the size of a number and its bytes. */
    method PushNumber(n: nat) returns (ok: bool)
      requires n >= DATA_START
      modifies this`out
      ensures ok <==> PrefixFits(Data(BE(n)))
      ensures ok ==> out == old(out) + Encode(Data(BE(n)))
    {
      var br := BytesRequired(n);
      ok := PushHeader(DATA_START, br);
      if ok {
        out := PushInt(out, n, br);
        assert n < 256 ==> BE(n) == BE(0) + [n];
        Reassociate(old(out), Header(DATA_START, br), BE(n));
      }
    }

    /** Opens a list of the given number of items; an empty one is complete at once. */
    method AppendList(items: nat) returns (ok: bool)
      requires Valid()
      modifies this
      ensures items == 0 ==> Appended(Encode(List([])), 1, true, ok, old(top), old(open))
      ensures items > 0 ==> ok && Valid() && top == old(top) && open == old(open) + [Frame(items, 0, [])]
    {
      if items == 0 {
        BESize64(0);
        ok := AppendListOf([]);
      } else {
        OpenList(items, Frame(items, 0, []));
        ok := true;
      }
    }

    method OpenList(items: nat, ghost f: Frame)
      requires Valid() && items > 0 && f == Frame(items, 0, [])
      modifies this
      ensures Valid() && top == old(top) && open == old(open) + [f]
    {
      MatchesPush(stack, top, open, f);
      stack, open := stack + [(items, |out|)], open + [f];
    }

    /** Appends a list whose payload is given, whatever that is. */
    method AppendListOf(rlp: seq<Byte>) returns (ok: bool)
      requires Valid()
      modifies this
      ensures Appended(ListOf(rlp), 1, LengthFits(|rlp|), ok, old(top), old(open))
    {
      ok := PushWhole(LIST_START, rlp);
      if !ok {
        return;
      }
      ok := NoteAppended(1, ListOf(rlp));
    }

    /** Appends bytes as they are, counted as `itemCount` items. */
    method AppendRaw(rlp: seq<Byte>, itemCount: nat) returns (ok: bool)
      requires Valid()
      modifies this
      ensures Appended(rlp, itemCount, true, ok, old(top), old(open))
    {
      out := out + rlp;
      ok := NoteAppended(itemCount, rlp);
    }

    /** Appends a whole tree: a list is opened and its items follow, each in the same way. */
    method AppendTree(x: Item) returns (ok: bool)
      requires Valid()
      modifies this
      ensures Appended(Encode(x), 1, Fits(x), ok, old(top), old(open))
      decreases x
    {
      match x
      case Data(b) =>
        ok := Append(b, false);
      case List(xs) =>
        if xs == [] {
          BESize64(0);
          ok := AppendList(0);
        } else {
          ok := AppendItems(xs);
        }
    }

    method AppendItems(xs: seq<Item>) returns (ok: bool)
      requires Valid() && xs != []
      modifies this
      ensures Appended(Encode(List(xs)), 1, AllFit(xs, |xs|) && ListFits(xs), ok, old(top), old(open))
      decreases xs
    {
      ok := AppendList(|xs|);
      for i := 0 to |xs|
        invariant ok && Valid() && Progress(top, open, old(top), old(open), xs, i) && AllFit(xs, i)
      {
        NoteChild(old(top), old(open), xs, i);
        ok := AppendTree(xs[i]);
        if !ok {
          return;
        }
      }
    }
  }

  predicate ListFits(xs: seq<Item>) {
    LengthFits(|EncodeAll(xs)|)
  }

  /** After the first `i` items of a list: it is open with those items, or complete. */
  ghost predicate Progress(top: seq<Byte>, open: seq<Frame>, top0: seq<Byte>, open0: seq<Frame>, xs: seq<Item>, i: nat)
    requires i <= |xs|
  {
    if i < |xs| then State(top, open) == State(top0, open0 + [Frame(|xs|, i, EncodeAll(xs[..i]))])
    else ListFits(xs) && Note(top0, open0, Encode(List(xs)), 1) == Some(State(top, open))
  }

  lemma NoteChild(top0: seq<Byte>, open0: seq<Frame>, xs: seq<Item>, i: nat)
    requires i < |xs|
    ensures var r := Note(top0, open0 + [Frame(|xs|, i, EncodeAll(xs[..i]))], Encode(xs[i]), 1);
            if i + 1 < |xs| then r == Some(State(top0, open0 + [Frame(|xs|, i + 1, EncodeAll(xs[..i + 1]))]))
            else r == if ListFits(xs) then Note(top0, open0, Encode(List(xs)), 1) else None
  {
    var open := open0 + [Frame(|xs|, i, EncodeAll(xs[..i]))];
    EncodeAllPush(xs[..i], xs[i]);
    assert open[..|open| - 1] == open0 && xs[..i] + [xs[i]] == xs[..i + 1];
    assert xs[..|xs|] == xs;
  }

  /** Every prefix in the tree fits. */
  predicate Fits(x: Item)
    decreases x
  {
    PrefixFits(x) && match x case Data(_) => true case List(xs) => AllFit(xs, |xs|)
  }

  predicate AllFit(xs: seq<Item>, n: nat)
    requires n <= |xs|
    decreases xs, 0
  {
    forall k | 0 <= k < n :: Fits(xs[k])
  }

  /** Writing a tree to a fresh stream gives its encoding. */
  method WriteTree(x: Item) returns (r: Option<seq<Byte>>)
    ensures r == if Fits(x) then Some(Encode(x)) else None
  {
    var s := new Stream();
    var ok := s.AppendTree(x);
    if !ok {
      return None;
    }
    assert [] + Encode(x) == Encode(x);
    r := s.Out();
  }

  /** The length bytes fit behind the prefix byte: always so for lengths below 2^64. */
  predicate HeaderFits(start: nat, n: nat) {
    |BE(n)| + start + IMM_COUNT - 1 <= 0xff
  }

  predicate PrefixFits(x: Item) {
    match x
    case Data(b) => HeaderFits(DATA_START, |b|)
    case List(xs) => ListFits(xs)
  }

  method StripZeros(s: seq<Byte>) returns (d: seq<Byte>)
    ensures d == BE(BEValue(s))
  {
    var i := 0;
    assert s[0..] == s;
    while i < |s| && s[i] == 0
      invariant 0 <= i <= |s| && BEValue(s[i..]) == BEValue(s)
    {
      LeadingZero(s[i..]);
      assert s[i..][1..] == s[i + 1..];
      i := i + 1;
    }
    d := s[i..];
    BEOfValue(d);
  }

  lemma {:induction false} LeadingZero(s: seq<Byte>)
    requires s != [] && s[0] == 0
    ensures BEValue(s[1..]) == BEValue(s)
  {
    if |s| > 1 {
      LeadingZero(s[..|s| - 1]);
      assert s[1..][..|s| - 2] == s[..|s| - 1][1..];
    }
  }

  /** Whatever is shorter than 2^64 bytes fits. */
  lemma {:induction false} SizeFits(x: Item)
    requires |Encode(x)| < TWO64
    ensures Fits(x)
    decreases x
  {
    match x
    case Data(b) =>
      BESize64(|b|);
    case List(xs) =>
      BESize64(|EncodeAll(xs)|);
      forall k | 0 <= k < |xs| ensures Fits(xs[k]) {
        ItemInside(xs, k);
        SizeFits(xs[k]);
      }
  }

  lemma {:induction false} ItemInside(xs: seq<Item>, k: nat)
    requires k < |xs|
    ensures |Encode(xs[k])| <= |EncodeAll(xs)|
    decreases |xs|
  {
    if k < |xs| - 1 {
      ItemInside(xs[..|xs| - 1], k);
    }
  }

  // ---- streams of items ----

  /** An open list of items, and a stream that holds items only. */
  datatype ItemFrame = ItemFrame(need: nat, got: seq<Item>)
  datatype ItemState = ItemState(top: seq<Item>, open: seq<ItemFrame>)

  /** The bytes of a stream of items. */
  function Flat(open: seq<ItemFrame>): (r: seq<Frame>)
    ensures |r| == |open| && forall k | 0 <= k < |open| :: r[k] == Frame(open[k].need, |open[k].got|, EncodeAll(open[k].got))
  {
    seq(|open|, k requires 0 <= k < |open| => Frame(open[k].need, |open[k].got|, EncodeAll(open[k].got)))
  }

  function FlatState(s: ItemState): State {
    State(EncodeAll(s.top), Flat(s.open))
  }

  /** Items arrive, as trees: the innermost list takes them, and a full list is an item for the one around it. */
  function NoteItems(top: seq<Item>, open: seq<ItemFrame>, xs: seq<Item>): Option<ItemState>
    decreases |open|
  {
    if open == [] then Some(ItemState(top + xs, []))
    else
      var f, outer := open[|open| - 1], open[..|open| - 1];
      if |f.got| + |xs| > f.need then None
      else if xs == [] || |f.got| + |xs| < f.need then Some(ItemState(top, outer + [ItemFrame(f.need, f.got + xs)]))
      else if !ListFits(f.got + xs) then None
      else NoteItems(top, outer, [List(f.got + xs)])
  }

  /** Appending encoded items keeps the bytes those of a stream of items, whatever lists are closed by it. */
  lemma {:induction false} NoteOfItems(top: seq<Item>, open: seq<ItemFrame>, xs: seq<Item>)
    ensures var r := NoteItems(top, open, xs);
            Note(EncodeAll(top), Flat(open), EncodeAll(xs), |xs|) == if r.None? then None else Some(FlatState(r.value))
    decreases |open|
  {
    if open == [] {
      EncodeAllConcat(top, xs);
    } else {
      var f, outer := open[|open| - 1], open[..|open| - 1];
      var ys := f.got + xs;
      EncodeAllConcat(f.got, xs);
      FlatPush(outer, f);
      FlatPush(outer, ItemFrame(f.need, ys));
      assert outer + [f] == open;
      assert Flat(open)[..|open| - 1] == Flat(outer);
      OneItem(List(ys));
      NoteOfItems(top, outer, [List(ys)]);
    }
  }

  lemma FlatPush(outer: seq<ItemFrame>, f: ItemFrame)
    ensures Flat(outer + [f]) == Flat(outer) + [Frame(f.need, |f.got|, EncodeAll(f.got))]
  {
  }

  lemma OneItem(x: Item)
    ensures EncodeAll([x]) == Encode(x)
  {
    EncodeAllPush([], x);
    assert [] + [x] == [x];
  }
}
