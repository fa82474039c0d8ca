/** Access to the items of a list: counting, the iterator, and the index operator with its cache.
    Nothing is assumed about the data: a payload may have a part that is not an encoding. */
module RlpIndex {
  import opened Basics
  import opened Words
  import opened RlpSpec
  import opened RlpReader
  import RlpRoundTrip

  // ---- the items of a payload ----

  /** What `SizeAsEncoded` says; its definition shows only where `Unfold(true)` is asserted. */
  ghost predicate IsAnnounced(p: seq<Byte>, r: Result<nat>) {
    && (r.Ok? ==> r.value <= |p| && (p == [] <==> r.value == 0))
    && forall u {:trigger Unfold(u)} :: Unfold(u) ==> r == SizeAsEncoded(p)
  }

  ghost function Announced(p: seq<Byte>): (r: Result<nat>)
    ensures r.Ok? ==> r.value <= |p| && (p == [] <==> r.value == 0)
  {
    assert IsAnnounced(p, SizeAsEncoded(p));
    var r :| IsAnnounced(p, r);
    r
  }

  lemma AnnouncedIs(p: seq<Byte>)
    ensures Announced(p) == SizeAsEncoded(p) && (p == [] ==> Announced(p) == Ok(0))
  {
    assert Unfold(true);
    assert IsAnnounced(p, Announced(p));
  }

  /** The encodings at the front of a payload, up to its end or to the first place that has none. */
  ghost function Lead(p: seq<Byte>): seq<seq<Byte>>
    decreases |p|
  {
    if p == [] || Announced(p).Err? then [] else
      var n := Announced(p).value;
      [p[..n]] + Lead(p[n..])
  }

  /** The error at the first place that has no encoding, if there is one. */
  ghost function Fault(p: seq<Byte>): Option<Error>
    decreases |p|
  {
    if p == [] then None
    else if Announced(p).Err? then Some(Announced(p).error)
    else Fault(p[Announced(p).value..])
  }

  /** Where item `k` starts, which is the total size of the ones before it. */
  function Start(items: seq<seq<Byte>>, k: nat): nat
    requires k <= |items|
  {
    if k == 0 then 0 else Start(items, k - 1) + |items[k - 1]|
  }

  lemma {:induction false} StartShift(items: seq<seq<Byte>>, k: nat)
    requires 1 <= k <= |items|
    ensures Start(items, k) == |items[0]| + Start(items[1..], k - 1)
  {
    if k > 1 {
      StartShift(items, k - 1);
    }
  }

  lemma SuffixOfSuffix(p: seq<Byte>, n: nat, m: nat)
    requires n + m <= |p|
    ensures p[n..][m..] == p[n + m..]
  {
  }

  /** The first item of a payload, and what the rest has to do with the whole. */
  lemma Head(p: seq<Byte>) returns (n: nat)
    requires Lead(p) != []
    ensures 1 <= n <= |p| && Announced(p) == Ok(n) && Lead(p)[0] == p[..n]
    ensures Lead(p[n..]) == Lead(p)[1..] && Fault(p[n..]) == Fault(p)
  {
    n := Announced(p).value;
  }

  lemma ItemsFrom(items: seq<seq<Byte>>, k: nat)
    requires 1 <= k <= |items|
    ensures items[1..][k - 1..] == items[k..]
  {
  }

  /** From the start of item `k` on, the payload has the items from `k` on, and the same fault. */
  lemma {:induction false} LeadFrom(p: seq<Byte>, k: nat)
    requires k <= |Lead(p)|
    ensures Start(Lead(p), k) <= |p| && Lead(p[Start(Lead(p), k)..]) == Lead(p)[k..] && Fault(p[Start(Lead(p), k)..]) == Fault(p)
    decreases k
  {
    if k == 0 {
      assert p[0..] == p;
    } else {
      var n := Head(p);
      var rest := p[n..];
      LeadFrom(rest, k - 1);
      StartShift(Lead(p), k);
      SuffixOfSuffix(p, n, Start(Lead(rest), k - 1));
      ItemsFrom(Lead(p), k);
    }
  }

  lemma SliceOfSuffix(p: seq<Byte>, s: nat, n: nat)
    requires s + n <= |p|
    ensures p[s..][..n] == p[s..s + n]
  {
  }

  /** Item `k` is where its start says, and its size is announced there. */
  lemma ItemAt(p: seq<Byte>, k: nat)
    requires k < |Lead(p)|
    ensures var item, s := Lead(p)[k], Start(Lead(p), k);
            s + |item| <= |p| && item == p[s..s + |item|] && item != [] && Announced(p[s..]) == Ok(|item|)
  {
    LeadFrom(p, k);
    var s := Start(Lead(p), k);
    var n := Head(p[s..]);
    SliceOfSuffix(p, s, n);
  }

  /** Behind the last item there is the end of the payload, or the fault. */
  lemma AfterLast(p: seq<Byte>)
    ensures var s := Start(Lead(p), |Lead(p)|);
            s <= |p| && if Fault(p).None? then s == |p| else s < |p| && Announced(p[s..]) == Err(Fault(p).value)
  {
    var items := Lead(p);
    LeadFrom(p, |items|);
    assert items[|items|..] == [];
    NoLead(p[Start(items, |items|)..]);
  }

  lemma NoLead(p: seq<Byte>)
    requires Lead(p) == []
    ensures if Fault(p).None? then p == [] else p != [] && Announced(p) == Err(Fault(p).value)
  {
  }

  /** No item is empty, so there are no more of them than bytes. */
  lemma {:induction false} LeadCount(p: seq<Byte>)
    ensures |Lead(p)| <= |p|
    decreases |p|
  {
    if Lead(p) != [] {
      var n := Head(p);
      LeadCount(p[n..]);
    }
  }

  /** An item cut out of a payload still announces its own size. */
  lemma ItemSize(p: seq<Byte>, n: nat)
    requires p != [] && SizeAsEncoded(p) == Ok(n)
    ensures VeryStrict(p[..n]) == Ok(p[..n])
  {
    var q := p[..n];
    var k := LengthSize(p);
    if k > 0 && p[0] >= DATA_START {
      assert q[1..1 + k] == p[1..1 + k];
    }
  }

  lemma ItemAccepted(p: seq<Byte>, k: nat)
    requires k < |Lead(p)|
    ensures VeryStrict(Lead(p)[k]) == Ok(Lead(p)[k]) && Construct(Lead(p)[k], true, false, true) == Ok(Lead(p)[k])
  {
    ItemAt(p, k);
    var s, n := Start(Lead(p), k), |Lead(p)[k]|;
    AnnouncedIs(p[s..]);
    ItemSize(p[s..], n);
    SliceOfSuffix(p, s, n);
  }

  predicate IsList(d: seq<Byte>) {
    d != [] && d[0] >= LIST_START
  }

  /** The items of a list; a node that is not a list has none. */
  ghost function ItemsOf(d: seq<Byte>): Result<seq<seq<Byte>>> {
    if !IsList(d) then Ok([])
    else match Payload(d)
      case Err(e) => Err(e)
      case Ok(p) => match Fault(p) case Some(e) => Err(e) case None => Ok(Lead(p))
  }

  /** `items`: the number of items, counted by stepping over them. */
  method CountItems(d: seq<Byte>) returns (r: Result<nat>)
    ensures match ItemsOf(d) case Err(e) => r == Err(e) case Ok(items) => r == Ok(|items|)
  {
    if !IsList(d) {
      return Ok(0);
    }
    var payload := Payload(d);
    if payload.Err? {
      return Err(payload.error);
    }
    var p := payload.value;
    var i := 0;
    while p != []
      invariant Fault(p) == Fault(payload.value) && i + |Lead(p)| == |Lead(payload.value)|
      decreases |p|
    {
      AnnouncedIs(p);
      var size := SizeAsEncoded(p);
      if size.Err? {
        return Err(size.error);
      }
      p := p[size.value..];
      i := i + 1;
    }
    return Ok(i);
  }

  // ---- encoded lists ----

  ghost function Encodings(xs: seq<Item>): (r: seq<seq<Byte>>)
    ensures |r| == |xs| && forall i | 0 <= i < |xs| :: r[i] == Encode(xs[i])
  {
    seq(|xs|, i requires 0 <= i < |xs| => Encode(xs[i]))
  }

  lemma {:induction false} LeadOfEncoded(xs: seq<Item>)
    requires |EncodeAll(xs)| < LIMIT
    ensures Lead(EncodeAll(xs)) == Encodings(xs) && Fault(EncodeAll(xs)).None?
  {
    if xs != [] {
      var x, rest := xs[0], xs[1..];
      assert xs == [x] + rest;
      RlpRoundTrip.FirstItem(x, rest);
      LeadOfEncoded(rest);
      LeadStep(x, EncodeAll(rest));
      EncodingsStep(xs);
    }
  }

  lemma EncodingsStep(xs: seq<Item>)
    requires xs != []
    ensures Encodings(xs) == [Encode(xs[0])] + Encodings(xs[1..])
  {
  }

  lemma LeadStep(x: Item, tail: seq<Byte>)
    requires |Encode(x) + tail| < LIMIT
    ensures Lead(Encode(x) + tail) == [Encode(x)] + Lead(tail) && Fault(Encode(x) + tail) == Fault(tail)
  {
    FirstEncoded(x, tail);
  }

  lemma FirstEncoded(x: Item, tail: seq<Byte>)
    requires |Encode(x) + tail| < LIMIT
    ensures var p := Encode(x) + tail; p != [] && Announced(p) == Ok(|Encode(x)|) && p[..|Encode(x)|] == Encode(x) && p[|Encode(x)|..] == tail
  {
    RlpRoundTrip.SizeBound(x);
    RlpRoundTrip.EncodedSize(x, tail);
    AnnouncedIs(Encode(x) + tail);
  }

  /** The items of an encoded list are the encodings of its items, in order. */
  lemma ItemsOfEncoded(xs: seq<Item>)
    requires |EncodeAll(xs)| < LIMIT
    ensures IsList(Encode(List(xs))) && ItemsOf(Encode(List(xs))) == Ok(Encodings(xs))
    ensures forall i: nat :: ReadItem(Encode(List(xs)), i) == Ok(if i < |xs| then Encode(xs[i]) else [])
  {
    RlpRoundTrip.EncodedParts(List(xs));
    LeadOfEncoded(xs);
  }

  // ---- the index operator ----

  const NO_INDEX: nat := 0xffff_ffff_ffff_ffff

  /** Item `i`, or nothing past the end. */
  function ItemOrNull(items: seq<seq<Byte>>, i: nat): seq<Byte> {
    if i < |items| then items[i] else []
  }

  /** Reading item `i` from the start: the item, nothing past the end, or the first error met on the way. */
  ghost function ReadItem(d: seq<Byte>, i: nat): Result<seq<Byte>> {
    match Payload(d)
    case Err(e) => Err(e)
    case Ok(p) =>
      if i < |Lead(p)| then Ok(Lead(p)[i]) else match Fault(p) case Some(e) => Err(e) case None => Ok([])
  }

  /** What the cache holds: nothing yet, an item, or what an exception left in the place of the last good item. */
  datatype Mode = Unused | Ready | Stuck

  /** The item before the fault. */
  ghost predicate LastGood(d: seq<Byte>, i: nat) {
    Payload(d).Ok? && Fault(Payload(d).value).Some? && |Lead(Payload(d).value)| == i + 1
  }

  /** The answer to a call: not that of reading afresh if the cache is stuck at this index, and never an error for the
      index that stands for no index while the cache is unused. */
  ghost function Answer(d: seq<Byte>, m: Mode, i: nat): Result<seq<Byte>> {
    if m.Unused? && i == NO_INDEX then Ok([])
    else if m.Stuck? && LastGood(d, i) then Err(Fault(Payload(d).value).value)
    else ReadItem(d, i)
  }

  /** The cache after a call. */
  ghost function After(d: seq<Byte>, m: Mode, i: nat): Mode {
    if m.Unused? && (i == NO_INDEX || ReadItem(d, 0).Err?) then Unused
    else if ReadItem(d, i).Err? || (m.Stuck? && LastGood(d, i)) then Stuck
    else Ready
  }

  /** The cache is unused, holds the item at its index and where that ends, or the bytes behind the last good item. */
  ghost predicate Holds(d: seq<Byte>, m: Mode, k: nat, end: nat, item: seq<Byte>) {
    match m
    case Unused => k == NO_INDEX && item == []
    case Ready => Payload(d).Ok? && AtItem(Payload(d).value, k, end, item)
    case Stuck => Payload(d).Ok? && BehindLast(Payload(d).value, k, end, item)
  }

  ghost predicate AtItem(p: seq<Byte>, k: nat, end: nat, item: seq<Byte>) {
    var items := Lead(p);
    && k <= |items| && (k == |items| ==> Fault(p).None?)
    && item == ItemOrNull(items, k) && end == Start(items, if k < |items| then k + 1 else k)
  }

  ghost predicate BehindLast(p: seq<Byte>, k: nat, end: nat, item: seq<Byte>) {
    var items := Lead(p);
    Fault(p).Some? && k + 1 == |items| && end == Start(items, |items|) < |p| && item == p[end..]
  }

  class Node {
    const data: seq<Byte>
    var lastIndex: nat
    var lastEnd: nat
    var lastItem: seq<Byte>
    ghost var mode: Mode

    ghost predicate Valid()
      reads this
    {
      Holds(data, mode, lastIndex, lastEnd, lastItem)
    }

    constructor (d: seq<Byte>)
      ensures Valid() && data == d && mode == Unused
    {
      data, lastIndex, lastEnd, lastItem, mode := d, NO_INDEX, 0, [], Unused;
    }

    /** The item at an index, whatever was asked before. */
    method Index(i: nat) returns (r: Result<seq<Byte>>)
      requires Valid() && i <= NO_INDEX
      modifies this
      ensures Valid() && mode == After(data, old(mode), i) && r == Answer(data, old(mode), i)
    {
      if i < lastIndex {
        var e := First();
        if e.Some? {
          NoFirst(data, i);
          return Err(e.value);
        }
      }
      r := Forward(i);
    }

    /** Puts item 0 in the cache; an exception leaves the cache as it is. */
    method First() returns (e: Option<Error>)
      modifies this
      ensures match ReadItem(data, 0)
              case Err(x) => e == Some(x) && unchanged(this)
              case Ok(_) => e == None && Valid() && mode == Ready && lastIndex == 0
    {
      var payload := Payload(data);
      if payload.Err? {
        return Some(payload.error);
      }
      var p := payload.value;
      var size := SizeAsEncoded(p);
      FirstItem(p);
      if size.Err? {
        return Some(size.error);
      }
      lastEnd := size.value;
      lastItem := Cropped(p, 0, lastEnd);
      lastIndex, mode := 0, Ready;
      return None;
    }

    /** Moves from item to item up to index `i`, and reads there. */
    method Forward(i: nat) returns (r: Result<seq<Byte>>)
      requires Valid() && lastIndex <= i <= NO_INDEX
      modifies this
      ensures Valid() && mode == After(data, old(mode), i) && r == Answer(data, old(mode), i)
    {
      while lastIndex < i && lastItem != []
        invariant Valid() && lastIndex <= i && (mode.Unused? <==> old(mode).Unused?)
        invariant mode.Stuck? ==> old(mode).Stuck?
        invariant mode != old(mode) ==> lastIndex > old(lastIndex)
        invariant mode == old(mode) && mode.Stuck? ==> lastIndex == old(lastIndex)
        decreases i - lastIndex
      {
        var e := Advance();
        if e.Some? {
          return Err(e.value);
        }
      }
      r := Deliver(i, old(mode));
    }

    /** Moves the cache to the next item, or past the end. At a fault the cache is left with the bytes there. */
    method Advance() returns (e: Option<Error>)
      requires Valid() && !mode.Unused? && lastItem != []
      modifies this
      ensures Valid() && e == Beyond(Payload(data).value, old(lastIndex))
      ensures if e.None? then mode == Ready && lastIndex == old(lastIndex) + 1 else mode == Stuck && lastIndex == old(lastIndex)
    {
      var next, item := ReadNext(Payload(data).value, lastEnd, lastIndex);
      e, lastItem := next, item;
      if e.Some? {
        mode := Stuck;
        return;
      }
      lastEnd := lastEnd + |lastItem|;
      lastIndex, mode := lastIndex + 1, Ready;
    }

    /** The cached bytes as a node. */
    method Deliver(i: nat, ghost m: Mode) returns (r: Result<seq<Byte>>)
      requires Valid() && lastIndex <= i <= NO_INDEX && (lastIndex < i ==> lastItem == [])
      requires (mode.Unused? <==> m.Unused?) && (mode.Stuck? ==> m.Stuck?) && (m.Stuck? && LastGood(data, i) ==> mode.Stuck?)
      ensures mode == After(data, m, i) && r == Answer(data, m, i)
    {
      Delivered(data, m, mode, lastIndex, lastEnd, lastItem, i);
      r := Construct(lastItem, true, false, true);
    }
  }

  /** Reads behind item `k`, which ends at `end`: the next item, nothing, or the error there. */
  method ReadNext(p: seq<Byte>, end: nat, ghost k: nat) returns (e: Option<Error>, item: seq<Byte>)
    requires k < |Lead(p)| && end == Start(Lead(p), k + 1)
    ensures e == Beyond(p, k) && if e.Some? then BehindLast(p, k, end, item) else AtItem(p, k + 1, end + |item|, item)
  {
    NextItem(p, k);
    item := if end <= |p| then p[end..] else [];
    var size := SizeAsEncoded(item);
    if size.Err? {
      AfterLast(p);
      return Some(size.error), item;
    }
    item := Cropped(item, 0, size.value);
    e := None;
    AtNext(p, k, end, item);
  }

  lemma AtNext(p: seq<Byte>, k: nat, end: nat, item: seq<Byte>)
    requires k < |Lead(p)| && end == Start(Lead(p), k + 1) && Beyond(p, k).None? && item == ItemOrNull(Lead(p), k + 1)
    ensures AtItem(p, k + 1, end + |item|, item)
  {
  }

  lemma Delivered(d: seq<Byte>, m: Mode, now: Mode, k: nat, end: nat, item: seq<Byte>, i: nat)
    requires Holds(d, now, k, end, item) && k <= i <= NO_INDEX && (k < i ==> item == [])
    requires (now.Unused? <==> m.Unused?) && (now.Stuck? ==> m.Stuck?) && (m.Stuck? && LastGood(d, i) ==> now.Stuck?)
    ensures now == After(d, m, i) && Construct(item, true, false, true) == Answer(d, m, i)
  {
    if !now.Unused? {
      var p := Payload(d).value;
      if now.Stuck? {
        AfterLast(p);
        AnnouncedIs(item);
      } else if k < |Lead(p)| {
        ItemAt(p, k);
        ItemAccepted(p, k);
      }
    }
  }

  /** The error behind item `k`, if the fault is there. */
  ghost function Beyond(p: seq<Byte>, k: nat): Option<Error> {
    if k + 1 < |Lead(p)| then None else Fault(p)
  }

  lemma FirstItem(p: seq<Byte>)
    ensures SizeAsEncoded(p) == Announced(p)
    ensures Announced(p).Err? ==> Lead(p) == [] && Fault(p) == Some(Announced(p).error)
    ensures Announced(p).Ok? ==>
              var n := Announced(p).value;
              n == Start(Lead(p), if Lead(p) == [] then 0 else 1) && Cropped(p, 0, n) == ItemOrNull(Lead(p), 0) && (Lead(p) == [] ==> Fault(p).None?)
  {
    AnnouncedIs(p);
    if p != [] && Announced(p).Ok? {
      assert Start(Lead(p), 1) == Start(Lead(p), 0) + |Lead(p)[0]|;
    }
  }

  /** Without a first item, no index has one. */
  lemma NoFirst(d: seq<Byte>, i: nat)
    requires ReadItem(d, 0).Err?
    ensures ReadItem(d, i) == ReadItem(d, 0) && !LastGood(d, i)
  {
  }

  /** What is read behind item `k`. */
  lemma NextItem(p: seq<Byte>, k: nat)
    requires k < |Lead(p)|
    ensures var s := Start(Lead(p), k + 1);
            && s <= |p|
            && Announced(p[s..]) == SizeAsEncoded(p[s..])
            && if Announced(p[s..]).Err? then Beyond(p, k) == Some(Announced(p[s..]).error) && k + 1 == |Lead(p)|
               else Beyond(p, k) == None && Cropped(p[s..], 0, Announced(p[s..]).value) == ItemOrNull(Lead(p), k + 1)
  {
    LeadFrom(p, k + 1);
    AnnouncedIs(p[Start(Lead(p), k + 1)..]);
    if k + 1 < |Lead(p)| {
      ItemAt(p, k + 1);
      SliceOfSuffix(p, Start(Lead(p), k + 1), |Lead(p)[k + 1]|);
    } else {
      AfterLast(p);
    }
  }

  // ---- sequences of calls ----

  /** The cache after a sequence of calls on a new node. */
  ghost function ModeAfter(d: seq<Byte>, calls: seq<nat>): Mode {
    if calls == [] then Unused else After(d, ModeAfter(d, calls[..|calls| - 1]), calls[|calls| - 1])
  }

  /** The answers to a sequence of calls on a new node. */
  ghost function Answers(d: seq<Byte>, calls: seq<nat>): (r: seq<Result<seq<Byte>>>)
    ensures |r| == |calls|
  {
    if calls == [] then []
    else
      var before, i := calls[..|calls| - 1], calls[|calls| - 1];
      Answers(d, before) + [Answer(d, ModeAfter(d, before), i)]
  }

  /** Any sequence of index calls on one node. */
  method IndexCalls(d: seq<Byte>, calls: seq<nat>) returns (answers: seq<Result<seq<Byte>>>)
    requires forall k | 0 <= k < |calls| :: calls[k] <= NO_INDEX
    ensures answers == Answers(d, calls)
  {
    var node := new Node(d);
    answers := [];
    for i := 0 to |calls|
      invariant node.Valid() && node.data == d && node.mode == ModeAfter(d, calls[..i]) && answers == Answers(d, calls[..i])
    {
      var a := node.Index(calls[i]);
      answers := answers + [a];
      assert calls[..i + 1][..i] == calls[..i];
    }
    assert calls[..|calls|] == calls;
  }

  lemma PayloadBelow(d: seq<Byte>)
    requires Payload(d).Ok?
    ensures |Payload(d).value| < NO_INDEX
  {
  }

  /** Exactly when a call is answered as if nothing had been asked before. */
  lemma FreshExactly(d: seq<Byte>, m: Mode, i: nat)
    ensures Answer(d, m, i) == ReadItem(d, i) <==> !(m.Stuck? && LastGood(d, i)) && !(m.Unused? && i == NO_INDEX && ReadItem(d, i).Err?)
  {
    if Payload(d).Ok? {
      PayloadBelow(d);
      LeadCount(Payload(d).value);
    }
  }

  /** Each answer is that of its call, given to the cache that the calls before it leave. */
  lemma {:induction false} AnswerAt(d: seq<Byte>, calls: seq<nat>, k: nat)
    requires k < |calls|
    ensures Answers(d, calls)[k] == Answer(d, ModeAfter(d, calls[..k]), calls[k])
    decreases |calls|
  {
    var before := calls[..|calls| - 1];
    if k < |before| {
      AnswerAt(d, before, k);
      assert before[..k] == calls[..k];
    }
  }

  /** All the calls were for the index that stands for no index. */
  predicate NoneYet(calls: seq<nat>) {
    forall k | 0 <= k < |calls| :: calls[k] == NO_INDEX
  }

  /** The cache is unused as long as no index was asked for, and for ever if there is no first item. */
  lemma {:induction false} UnusedExactly(d: seq<Byte>, calls: seq<nat>)
    ensures ModeAfter(d, calls).Unused? <==> ReadItem(d, 0).Err? || NoneYet(calls)
  {
    if calls != [] {
      UnusedExactly(d, calls[..|calls| - 1]);
    }
  }

  /** Call `t` was for an item behind item `i`, and no later one for an item before it. */
  ghost predicate Spoils(calls: seq<nat>, i: nat, t: nat) {
    && t < |calls| && calls[t] > i && !(calls[t] == NO_INDEX && NoneYet(calls[..t]))
    && forall u | t < u < |calls| :: calls[u] >= i
  }

  ghost predicate Spoiled(calls: seq<nat>, i: nat) {
    exists t: nat :: Spoils(calls, i, t)
  }

  lemma SpoiledNext(calls: seq<nat>, i: nat)
    requires calls != []
    ensures var before, j := calls[..|calls| - 1], calls[|calls| - 1];
            Spoiled(calls, i) <==> (j > i && !(j == NO_INDEX && NoneYet(before))) || (j >= i && Spoiled(before, i))
  {
    var n := |calls| - 1;
    var before, j := calls[..n], calls[n];
    forall t | 0 <= t < n ensures before[..t] == calls[..t] {
    }
    if Spoiled(calls, i) {
      var t: nat :| Spoils(calls, i, t);
      if t < n { assert Spoils(before, i, t); }
    }
    if j > i && !(j == NO_INDEX && NoneYet(before)) { assert Spoils(calls, i, n); }
    if j >= i && Spoiled(before, i) {
      var t: nat :| Spoils(before, i, t);
      assert Spoils(calls, i, t);
    }
  }

  /** If item `i` is the last one before a fault, the cache is stuck exactly if some call was for an item behind it and no
      call since was for an item before it. */
  lemma {:induction false} StuckExactly(d: seq<Byte>, calls: seq<nat>, i: nat)
    requires LastGood(d, i)
    ensures ModeAfter(d, calls).Stuck? <==> Spoiled(calls, i)
  {
    PayloadBelow(d);
    LeadCount(Payload(d).value);
    if calls != [] {
      var before := calls[..|calls| - 1];
      StuckExactly(d, before, i);
      UnusedExactly(d, before);
      SpoiledNext(calls, i);
    }
  }

  /** Call `k` of any sequence is answered as if nothing had been asked before, except for the last item before a fault after
      calls that spoil it, and for the index that stands for no index while the cache is unused. */
  lemma AnsweredAfresh(d: seq<Byte>, calls: seq<nat>, k: nat)
    requires k < |calls|
    ensures Answers(d, calls)[k] == ReadItem(d, calls[k]) <==>
            && !(LastGood(d, calls[k]) && Spoiled(calls[..k], calls[k]))
            && !(calls[k] == NO_INDEX && ReadItem(d, calls[k]).Err? && (ReadItem(d, 0).Err? || NoneYet(calls[..k])))
  {
    AnswerAt(d, calls, k);
    UnusedExactly(d, calls[..k]);
    FreshExactly(d, ModeAfter(d, calls[..k]), calls[k]);
    if LastGood(d, calls[k]) { StuckExactly(d, calls[..k], calls[k]); }
  }

  /** A payload that consists of encodings. */
  ghost predicate Faultless(d: seq<Byte>) {
    Payload(d).Ok? && Fault(Payload(d).value).None?
  }

  /** Without a fault every call of every sequence is answered by the item itself, or by nothing past the end. */
  lemma FaultlessCalls(d: seq<Byte>, calls: seq<nat>, k: nat)
    requires Faultless(d) && k < |calls|
    ensures Answers(d, calls)[k] == ReadItem(d, calls[k]) == Ok(ItemOrNull(Lead(Payload(d).value), calls[k]))
  {
    AnswerAt(d, calls, k);
    NeverStuck(d, calls[..k]);
    FreshExactly(d, ModeAfter(d, calls[..k]), calls[k]);
  }

  lemma {:induction false} NeverStuck(d: seq<Byte>, calls: seq<nat>)
    requires Faultless(d)
    ensures !ModeAfter(d, calls).Stuck?
  {
    if calls != [] {
      NeverStuck(d, calls[..|calls| - 1]);
    }
  }

  /** With a fault, asking for an item at or behind it spoils the answer for the item before it. */
  lemma SpoiledAnswer(d: seq<Byte>, m: Mode, i: nat, j: nat)
    requires LastGood(d, i) && i < j < NO_INDEX
    ensures ReadItem(d, i).Ok? && Answer(d, After(d, m, j), i).Err?
    ensures i > 0 ==> Answer(d, After(d, After(d, m, j), i - 1), i) == ReadItem(d, i)
  {
  }

  /** A list of the byte 1 and a prefix without its payload. */
  lemma SpoiledExample()
    ensures var d: seq<Byte> := [0xc2, 0x01, 0x81];
            LastGood(d, 0) && ReadItem(d, 0) == Ok([0x01]) && Answer(d, ModeAfter(d, [1]), 0) == Err(BadRlp)
  {
    var d: seq<Byte> := [0xc2, 0x01, 0x81];
    var p: seq<Byte> := [0x01, 0x81];
    assert d[1..3] == p;
    assert Payload(d) == Ok(p);
    assert p[..1] == [0x01] && p[1..] == [0x81];
    AnnouncedIs(p);
    AnnouncedIs([0x81]);
    assert Lead([0x81]) == [] && Fault([0x81]) == Some(BadRlp);
    assert Lead(p) == [[0x01]] && Fault(p) == Some(BadRlp);
    var none: seq<nat> := [1][..0];
    assert ModeAfter(d, none) == Unused;
  }

  /** The index operator does not look whether the node is a list. On a byte string, index `i` gives nothing exactly if the
      payload reads as `i` items or fewer without a fault. */
  lemma IndexOfData(d: seq<Byte>, m: Mode, i: nat)
    requires !IsList(d)
    ensures Answer(d, m, i) == Ok([]) <==> (m.Unused? && i == NO_INDEX) || (Faultless(d) && i >= |Lead(Payload(d).value)|)
  {
    if Payload(d).Ok? && i < |Lead(Payload(d).value)| {
      ItemAt(Payload(d).value, i);
    }
  }

  /** It gives nothing at every index exactly if the payload is empty. */
  lemma IndicesOfData(d: seq<Byte>)
    requires !IsList(d)
    ensures (forall i: nat :: Answer(d, Unused, i) == Ok([])) <==> Payload(d) == Ok([])
  {
    IndexOfData(d, Unused, 0);
    if Payload(d) == Ok([]) {
      forall i: nat ensures Answer(d, Unused, i) == Ok([]) {
        IndexOfData(d, Unused, i);
      }
    } else if Faultless(d) && Lead(Payload(d).value) == [] {
      NoLead(Payload(d).value);
    }
  }

  /** The byte 1 is no list, and has itself as item 0. */
  lemma DataExample()
    ensures var d: seq<Byte> := [0x01]; !IsList(d) && ReadItem(d, 0) == Ok([0x01])
  {
    var d: seq<Byte> := [0x01];
    assert d[0..1] == d && d[..1] == d;
    AnnouncedIs(d);
  }
}
