/** The iterator over the items of a list. */
module RlpIterator {
  import opened Basics
  import opened Words
  import opened RlpSpec
  import opened RlpReader
  import RlpRoundTrip
  import opened RlpIndex

  // ---- views ----

  /** The place behind a view; a view of nothing stays where it is. */
  function Moved(at: Option<nat>, len: nat): Option<nat> {
    if at.None? then None else Some(at.value + len)
  }

  function View(d: seq<Byte>, at: Option<nat>, len: nat): seq<Byte>
    requires at.Some? ==> at.value + len <= |d|
  {
    if at.None? then [] else d[at.value..at.value + len]
  }

  /** Where the payload of a list lies in its data; nowhere, if the data ends before it does. */
  function PayloadPlace(d: seq<Byte>): Option<nat>
    requires Payload(d).Ok?
  {
    if PayloadOffset(d) + Length(d).value <= |d| then Some(PayloadOffset(d)) else None
  }

  /** The bytes `p` are at `o` in the data. */
  ghost predicate InPlace(d: seq<Byte>, o: Option<nat>, p: seq<Byte>) {
    if o.None? then p == [] else o.value + |p| <= |d| && p == d[o.value..o.value + |p|]
  }

  lemma PayloadInPlace(d: seq<Byte>)
    requires Payload(d).Ok?
    ensures InPlace(d, PayloadPlace(d), Payload(d).value)
  {
  }

  lemma ViewInPlace(d: seq<Byte>, o: Option<nat>, p: seq<Byte>, s: nat, n: nat)
    requires InPlace(d, o, p) && s + n <= |p|
    ensures var at := Moved(o, s); (at.Some? ==> at.value + n <= |d|) && View(d, at, n) == p[s..s + n]
  {
  }

  // ---- positions ----

  /** A view of item `k`, or of nothing behind the last one, in a payload at `o`. */
  ghost predicate StandsOn(p: seq<Byte>, o: Option<nat>, k: nat, at: Option<nat>, len: nat, remaining: nat) {
    && k <= |Lead(p)| && (k == |Lead(p)| ==> Fault(p).None?)
    && at == Moved(o, Start(Lead(p), k)) && len == |ItemOrNull(Lead(p), k)|
    && Start(Lead(p), k) + len + remaining == |p|
  }

  /** The item that follows item `k`; nothing follows the end. */
  ghost function Following(p: seq<Byte>, k: nat): nat {
    if k < |Lead(p)| then k + 1 else k
  }

  ghost function ErrorAfter(p: seq<Byte>, k: nat): Option<Error> {
    if k < |Lead(p)| then Beyond(p, k) else None
  }

  /** With no bytes left, the step goes to the end of the payload. */
  lemma LastStep(p: seq<Byte>, o: Option<nat>, k: nat, at: Option<nat>, len: nat)
    requires StandsOn(p, o, k, at, len, 0)
    ensures ErrorAfter(p, k) == None && StandsOn(p, o, Following(p, k), Moved(at, len), 0, 0)
  {
    AfterLast(p);
    if k < |Lead(p)| {
      NextItem(p, k);
      if k + 1 < |Lead(p)| {
        ItemAt(p, k + 1);
      }
    }
  }

  /** With bytes left, they start with the next item, or with the fault. */
  lemma InnerStep(p: seq<Byte>, o: Option<nat>, k: nat, at: Option<nat>, len: nat, remaining: nat)
    requires StandsOn(p, o, k, at, len, remaining) && remaining > 0
    ensures k < |Lead(p)| && Start(Lead(p), k + 1) + remaining == |p| && Moved(at, len) == Moved(o, Start(Lead(p), k + 1))
    ensures ErrorAfter(p, k).Some? ==> Announced(p[Start(Lead(p), k + 1)..]) == Err(ErrorAfter(p, k).value)
    ensures ErrorAfter(p, k).None? ==> k + 1 < |Lead(p)| && Announced(p[Start(Lead(p), k + 1)..]) == Ok(|Lead(p)[k + 1]|) && |Lead(p)[k + 1]| <= remaining
  {
    AfterLast(p);
    if k + 1 < |Lead(p)| {
      ItemAt(p, k + 1);
    }
  }

  /** Behind the last item nothing is left, and a step moves by nothing. */
  lemma Stays(p: seq<Byte>, o: Option<nat>, k: nat, at: Option<nat>, len: nat, remaining: nat)
    requires StandsOn(p, o, k, at, len, remaining)
    ensures k == |Lead(p)| ==> len == remaining == 0 && Moved(at, len) == at
  {
    AfterLast(p);
  }

  // ---- the iterator ----

  /** A view into the data, the current item, and how many payload bytes come after it. */
  class Iterator {
    const data: seq<Byte>
    var at: Option<nat>
    var len: nat
    var remaining: nat

    /** The iterator stands on item `k` of a list, or behind the last one. */
    ghost predicate On(k: nat)
      reads this
    {
      (IsList(data) && Payload(data).Ok? && StandsOn(Payload(data).value, PayloadPlace(data), k, at, len, remaining)) == true
    }

    constructor (d: seq<Byte>, at0: Option<nat>, len0: nat, remaining0: nat)
      ensures data == d && at == at0 && len == len0 && remaining == remaining0
    {
      data, at, len, remaining := d, at0, len0, remaining0;
    }

    /** To the next item, or to where the payload ends, where it stays. An exception leaves a view of the bytes behind the
        item. */
    method Step(ghost k: nat) returns (e: Option<Error>)
      requires On(k)
      modifies this
      ensures e == ErrorAfter(Payload(data).value, k)
      ensures e == None ==> On(Following(Payload(data).value, k))
      ensures e.Some? ==> at == Moved(old(at), old(len)) && len == remaining == old(remaining)
      ensures k == |Lead(Payload(data).value)| ==> at == old(at) && len == old(len) == 0 && remaining == old(remaining) == 0
    {
      Stays(Payload(data).value, PayloadPlace(data), k, at, len, remaining);
      e, at, len, remaining := NextView(data, at, len, remaining, Payload(data).value, PayloadPlace(data), k);
    }
  }

  /** The view after a step. */
  method NextView(d: seq<Byte>, at: Option<nat>, len: nat, remaining: nat, ghost p: seq<Byte>, ghost o: Option<nat>, ghost k: nat)
    returns (e: Option<Error>, at': Option<nat>, len': nat, remaining': nat)
    requires InPlace(d, o, p) && StandsOn(p, o, k, at, len, remaining)
    ensures e == ErrorAfter(p, k) && (e == None ==> StandsOn(p, o, Following(p, k), at', len', remaining'))
    ensures e.Some? || remaining == 0 ==> at' == Moved(at, len) && len' == remaining' == remaining
  {
    e, at', len', remaining' := None, Moved(at, len), remaining, remaining;
    if remaining == 0 {
      LastStep(p, o, k, at, len);
      return;
    }
    InnerStep(p, o, k, at, len, remaining);
    ghost var s := Start(Lead(p), k + 1);
    ViewInPlace(d, o, p, s, remaining);
    assert p[s..s + remaining] == p[s..];
    AnnouncedIs(p[s..]);
    var size := SizeAsEncoded(View(d, at', len'));
    if size.Err? {
      e := Some(size.error);
      return;
    }
    len' := size.value;
    remaining' := remaining - if remaining < len' then remaining else len';
  }

  /** Begins at the payload of a list; at the end for anything else. */
  method Begin(d: seq<Byte>) returns (r: Result<Iterator>)
    ensures !IsList(d) ==> r.Ok? && fresh(r.value) && r.value.data == d && r.value.at == Some(|d|) && r.value.len == 0
    ensures IsList(d) && ReadItem(d, 0).Err? ==> r == Err(ReadItem(d, 0).error)
    ensures IsList(d) && ReadItem(d, 0).Ok? ==> r.Ok? && fresh(r.value) && r.value.data == d && r.value.On(0)
  {
    if !IsList(d) {
      var it := new Iterator(d, Some(|d|), 0, 0);
      return Ok(it);
    }
    var payload := Payload(d);
    if payload.Err? {
      return Err(payload.error);
    }
    var p := payload.value;
    FirstItem(p);
    var size := SizeAsEncoded(p);
    if size.Err? {
      return Err(size.error);
    }
    LeadFrom(p, if Lead(p) == [] then 0 else 1);
    var it := new Iterator(d, PayloadPlace(d), size.value, |p| - size.value);
    r := Ok(it);
  }

  /** The end of the data. */
  method End(d: seq<Byte>) returns (it: Iterator)
    ensures fresh(it) && it.data == d && it.at == Some(|d|) && it.len == 0 && it.remaining == 0
  {
    it := new Iterator(d, Some(|d|), 0, 0);
  }

  /** The payload ends where the data ends. */
  predicate Flush(d: seq<Byte>) {
    !IsList(d) || (Length(d).Ok? && PayloadOffset(d) + Length(d).value == |d|)
  }

  lemma EndOfPayload(d: seq<Byte>)
    requires IsList(d) && Payload(d).Ok?
    ensures Moved(PayloadPlace(d), |Payload(d).value|) == Some(|d|) <==> Flush(d)
  {
  }

  /** On item `k`, the iterator equals the end exactly behind the last item of a list that ends with its data. */
  lemma AtEnd(p: seq<Byte>, o: Option<nat>, k: nat, at: Option<nat>, len: nat, remaining: nat)
    requires StandsOn(p, o, k, at, len, remaining)
    ensures len == 0 <==> k == |Lead(p)|
    ensures len == 0 ==> at == Moved(o, |p|)
  {
    if k < |Lead(p)| {
      ItemAt(p, k);
    } else {
      AfterLast(p);
    }
  }

  /** The node an iterator stands on. */
  method Dereference(it: Iterator, ghost k: nat) returns (item: seq<Byte>)
    requires it.On(k) && k < |Lead(Payload(it.data).value)|
    ensures item == Lead(Payload(it.data).value)[k]
  {
    PayloadInPlace(it.data);
    item := CurrentItem(it.data, it.at, it.len, it.remaining, Payload(it.data).value, PayloadPlace(it.data), k);
    item := VeryStrict(item).value;
  }

  method CurrentItem(d: seq<Byte>, at: Option<nat>, len: nat, ghost remaining: nat, ghost p: seq<Byte>, ghost o: Option<nat>, ghost k: nat)
    returns (item: seq<Byte>)
    requires InPlace(d, o, p) && StandsOn(p, o, k, at, len, remaining) && k < |Lead(p)|
    ensures item == Lead(p)[k] && VeryStrict(item) == Ok(item)
  {
    ItemAt(p, k);
    ItemAccepted(p, k);
    ViewInPlace(d, o, p, Start(Lead(p), k), len);
    item := View(d, at, len);
  }

  /** From begin to end: every item once, in order. An error ends the walk. Where bytes follow the list, the end is
      never reached: the iterator stays where the payload ends (`None`). */
  method Walk(d: seq<Byte>) returns (r: Result<Option<seq<seq<Byte>>>>)
    ensures ItemsOf(d).Err? ==> r == Err(ItemsOf(d).error)
    ensures ItemsOf(d).Ok? ==> r == Ok(if Flush(d) then Some(ItemsOf(d).value) else None)
  {
    var begin := Begin(d);
    if begin.Err? {
      FirstFault(d);
      return Err(begin.error);
    }
    var end := End(d);
    if !IsList(d) {
      return Ok(Some([]));
    }
    r := WalkList(begin.value, end, Payload(d).value);
  }

  method WalkList(it: Iterator, end: Iterator, ghost p: seq<Byte>) returns (r: Result<Option<seq<seq<Byte>>>>)
    requires it != end && it.On(0) && end.at == Some(|it.data|) && end.len == 0 && Payload(it.data) == Ok(p)
    modifies it
    ensures if Fault(p).Some? then r == Err(Fault(p).value) else r == Ok(if Flush(it.data) then Some(Lead(p)) else None)
  {
    var visited: seq<seq<Byte>> := [];
    EndOfPayload(it.data);
    while !(it.at == end.at && it.len == end.len)
      invariant it.On(|visited|) && visited == Lead(p)[..|visited|]
      decreases |Lead(p)| - |visited|
    {
      AtEnd(p, PayloadPlace(it.data), |visited|, it.at, it.len, it.remaining);
      if it.len == 0 {
        // a step from here changes nothing, and so does every later one
        return Ok(None);
      }
      var item := Dereference(it, |visited|);
      var e := it.Step(|visited|);
      if e.Some? {
        return Err(e.value);
      }
      PrefixGrows(Lead(p), |visited|);
      visited := visited + [item];
    }
    AtEnd(p, PayloadPlace(it.data), |visited|, it.at, it.len, it.remaining);
    assert visited == Lead(p);
    r := Ok(Some(visited));
  }

  lemma PrefixGrows(items: seq<seq<Byte>>, k: nat)
    requires k < |items|
    ensures items[..k] + [items[k]] == items[..k + 1]
  {
  }

  /** An encoded list ends with its data, so the walk over it ends. */
  lemma EncodedFlush(xs: seq<Item>)
    requires |EncodeAll(xs)| < LIMIT
    ensures Flush(Encode(List(xs)))
  {
    RlpRoundTrip.HeaderRead(LIST_START, |EncodeAll(xs)|, EncodeAll(xs));
  }

  /** The walk over an encoded list visits the encodings of its items, in order. */
  method WalkEncoded(xs: seq<Item>) returns (r: Result<Option<seq<seq<Byte>>>>)
    requires |EncodeAll(xs)| < LIMIT
    ensures r == Ok(Some(Encodings(xs)))
  {
    ItemsOfEncoded(xs);
    EncodedFlush(xs);
    r := Walk(Encode(List(xs)));
  }

  /** A list without items and a byte after it: the walk does not end. */
  lemma WalkExample()
    ensures var d: seq<Byte> := [0xc0, 0x00]; ItemsOf(d) == Ok([]) && !Flush(d)
  {
    var d: seq<Byte> := [0xc0, 0x00];
    assert d[1..1] == [];
    assert Payload(d) == Ok([]);
  }

  lemma FirstFault(d: seq<Byte>)
    requires IsList(d) && ReadItem(d, 0).Err?
    ensures ItemsOf(d) == Err(ReadItem(d, 0).error)
  {
  }
}
