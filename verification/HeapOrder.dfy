/** Max-heap order of a sequence of keys, and the two sifts. */
module HeapOrder {
  function Parent(i: nat): nat
    requires i > 0
  {
    (i - 1) / 2
  }

  /** The key at `i` is not above its parent's. */
  predicate InOrder(ks: seq<nat>, i: nat)
    requires 0 < i < |ks|
  {
    ks[Parent(i)] >= ks[i]
  }

  predicate Heap(ks: seq<nat>) {
    forall i | 0 < i < |ks| :: InOrder(ks, i)
  }

  /** The children of `c` are below the parent of `c`. */
  predicate Skips(ks: seq<nat>, c: nat)
    requires c < |ks|
  {
    c > 0 ==> (2 * c + 1 < |ks| ==> ks[Parent(c)] >= ks[2 * c + 1]) && (2 * c + 2 < |ks| ==> ks[Parent(c)] >= ks[2 * c + 2])
  }

  /** Order holds except around `c`, whose key may be anything. */
  predicate DownHole(ks: seq<nat>, c: nat) {
    c < |ks| && Skips(ks, c) && forall i | 0 < i < |ks| && i != c && Parent(i) != c :: InOrder(ks, i)
  }

  /** Order holds except that the key at `c` may be above its parent's. */
  predicate UpHole(ks: seq<nat>, c: nat) {
    c < |ks| && Skips(ks, c) && forall i | 0 < i < |ks| && i != c :: InOrder(ks, i)
  }

  function Swap(ks: seq<nat>, a: nat, b: nat): (r: seq<nat>)
    requires a < |ks| && b < |ks|
  {
    ks[a := ks[b]][b := ks[a]]
  }

  /** The largest odd number of leading keys: all of them have a sibling. */
  function Front(ks: seq<nat>): (r: seq<nat>)
    ensures |r| <= |ks| <= |r| + 1 && (|ks| > 0 ==> |r| % 2 == 1)
  {
    if |ks| % 2 == 1 || |ks| == 0 then ks else ks[..|ks| - 1]
  }

  lemma FrontOfOdd(ks: seq<nat>)
    requires |ks| % 2 == 1
    ensures Front(ks) == ks
  {
  }

  /** Order in front is order everywhere, unless a last key without a sibling is above its parent's. */
  lemma FrontHeap(ks: seq<nat>)
    requires |ks| > 1 && Heap(Front(ks))
    ensures Heap(ks) <==> |ks| % 2 == 1 || InOrder(ks, |ks| - 1)
  {
    if |ks| % 2 == 0 && InOrder(ks, |ks| - 1) {
      forall i | 0 < i < |ks| ensures InOrder(ks, i) {
        if i < |ks| - 1 { assert InOrder(Front(ks), i); }
      }
    }
  }

  lemma RootChanged(ks: seq<nat>, x: nat)
    requires Heap(ks) && |ks| > 0
    ensures DownHole(ks[0 := x], 0)
  {
    var r := ks[0 := x];
    forall i | 0 < i < |r| && i != 0 && Parent(i) != 0 ensures InOrder(r, i) {
      assert InOrder(ks, i);
    }
  }

  /** Moving the hole to its larger child. */
  lemma DownStep(ks: seq<nat>, c: nat, n: nat)
    requires DownHole(ks, c) && 2 * c + 2 < |ks| && (n == 2 * c + 1 || n == 2 * c + 2)
    requires ks[n] >= ks[2 * c + 1] && ks[n] >= ks[2 * c + 2]
    ensures DownHole(Swap(ks, c, n), n)
  {
    var r := Swap(ks, c, n);
    forall i | 0 < i < |r| && i != n && Parent(i) != n ensures InOrder(r, i) {
      if i != c && Parent(i) != c {
        assert InOrder(ks, i);
      }
    }
    if 2 * n + 1 < |ks| { assert InOrder(ks, 2 * n + 1); }
    if 2 * n + 2 < |ks| { assert InOrder(ks, 2 * n + 2); }
  }

  /** At a leaf the hole can only be too large. */
  lemma AtLeaf(ks: seq<nat>, c: nat)
    requires DownHole(ks, c) && 2 * c + 1 >= |ks|
    ensures UpHole(ks, c)
  {
  }

  lemma Appended(ks: seq<nat>, x: nat)
    requires Heap(ks)
    ensures UpHole(ks + [x], |ks|)
  {
    forall i | 0 < i < |ks| ensures InOrder(ks + [x], i) {
      assert InOrder(ks, i);
    }
  }

  /** Moving a key up past a parent that is not larger. */
  lemma UpStep(ks: seq<nat>, c: nat)
    requires UpHole(ks, c) && c > 0 && ks[Parent(c)] <= ks[c]
    ensures UpHole(Swap(ks, Parent(c), c), Parent(c))
  {
    var p := Parent(c);
    var r := Swap(ks, p, c);
    forall i | 0 < i < |r| && i != p ensures InOrder(r, i) {
      if i != c {
        assert InOrder(ks, i);
      }
    }
    if p > 0 {
      assert InOrder(ks, p);
      if 2 * p + 1 != c { assert InOrder(ks, 2 * p + 1); }
      if 2 * p + 2 < |ks| && 2 * p + 2 != c { assert InOrder(ks, 2 * p + 2); }
    }
  }

  lemma UpDone(ks: seq<nat>, c: nat)
    requires UpHole(ks, c) && (c == 0 || InOrder(ks, c))
    ensures Heap(ks)
  {
  }

  /** The root holds the largest key. */
  lemma {:induction false} RootIsMax(ks: seq<nat>, i: nat)
    requires Heap(ks) && i < |ks|
    ensures ks[0] >= ks[i]
  {
    if i > 0 {
      assert InOrder(ks, i);
      RootIsMax(ks, Parent(i));
    }
  }

  /** The larger child of the root holds the second largest key. */
  lemma {:induction false} SecondIsMax(ks: seq<nat>, i: nat)
    requires Heap(ks) && 0 < i < |ks|
    ensures ks[1] >= ks[i] || (|ks| > 2 && ks[2] >= ks[i])
  {
    if i > 2 {
      assert InOrder(ks, i);
      SecondIsMax(ks, Parent(i));
    }
  }
}
