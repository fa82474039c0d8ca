/** The index heap of batch verification: a max-heap of scalar indices, ordered by scalar. */
module BatchHeap {
  import opened Modm
  import opened ModmBatch
  import opened HeapOrder
  import Points

  /** `pos` is the inverse of `h`, which lists each index below |h| once. */
  ghost predicate Permutation(h: seq<nat>, pos: seq<nat>) {
    && |pos| == |h|
    && (forall i | 0 <= i < |h| :: h[i] < |h| && pos[h[i]] == i)
    && (forall k | 0 <= k < |h| :: pos[k] < |h| && h[pos[k]] == k)
  }

  /** The keys of the indices in `h`. */
  ghost function KeysOf(vals: seq<nat>, h: seq<nat>): (ks: seq<nat>)
    requires forall i | 0 <= i < |h| :: h[i] < |vals|
    ensures |ks| == |h| && forall i | 0 <= i < |h| :: ks[i] == vals[h[i]]
  {
    seq(|h|, i requires 0 <= i < |h| => vals[h[i]])
  }

  ghost predicate AllScalars(ss: seq<seq<nat>>) {
    forall k {:trigger ss[k]} | 0 <= k < |ss| :: Scalar(ss[k])
  }

  ghost function Values(ss: seq<seq<nat>>): (vs: seq<nat>)
    requires AllScalars(ss)
    ensures |vs| == |ss| && forall k | 0 <= k < |ss| :: vs[k] == Value(ss[k])
  {
    seq(|ss|, k requires 0 <= k < |ss| => Value(ss[k]))
  }

  class BatchHeap<G> {
    const points: array<Points.Ge>
    /** The group elements that the points stand for. */
    ghost var pts: seq<G>
    const scalars: array<seq<nat>>
    const heap: array<nat>
    var size: nat
    /** Where each inserted index sits in the heap. */
    ghost var pos: seq<nat>

    constructor (points: array<Points.Ge>, scalars: array<seq<nat>>, ghost pts: seq<G>)
      ensures this.points == points && this.scalars == scalars && this.pts == pts && fresh(heap) && heap.Length == points.Length
    {
      this.points, this.scalars, heap, this.pts := points, scalars, new nat[points.Length], pts;
      size, pos := 0, [];
    }

    /** The first `n` entries of the heap are a permutation of the indices below `n`. */
    ghost predicate Holds(n: nat)
      reads this, scalars, heap
    {
      && points.Length == scalars.Length == heap.Length == |pts|
      && n <= heap.Length
      && AllScalars(scalars[..])
      && Permutation(heap[..n], pos)
    }

    ghost predicate Valid()
      reads this, scalars, heap
    {
      Holds(size)
    }

    ghost function Vals(): seq<nat>
      requires AllScalars(scalars[..])
      reads scalars
    {
      Values(scalars[..])
    }

    ghost function Keys(n: nat): seq<nat>
      requires Holds(n)
      reads this, scalars, heap
    {
      KeysOf(Vals(), heap[..n])
    }

    /** The keys of the first `f` of the first `n` entries. */
    ghost function FirstKeys(n: nat, f: nat): (ks: seq<nat>)
      requires Holds(n) && f <= n
      reads this, scalars, heap
      ensures |ks| == f && forall i | 0 <= i < f :: ks[i] == Keys(n)[i]
    {
      Keys(n)[..f]
    }

    method HeapSwap(a: nat, b: nat, ghost n: nat, ghost f: nat)
      requires Holds(n) && a < f && b < f <= n && a != b
      modifies heap, this`pos
      ensures Holds(n) && FirstKeys(n, f) == Swap(old(FirstKeys(n, f)), a, b) && heap[f..n] == old(heap[f..n])
    {
      ghost var h := heap[..n];
      var temp := heap[a];
      heap[a] := heap[b];
      heap[b] := temp;
      pos := pos[h[a] := b][h[b] := a];
      assert heap[..n] == h[a := h[b]][b := h[a]];
      SwapPermutation(h, old(pos), a, b);
      assert heap[f..n] == h[f..];
    }

    /** All scalars in the first `n` entries are zero above limb `limbsize`. */
    ghost predicate Window(n: nat, limbsize: nat)
      requires Holds(n)
      reads this, scalars, heap
    {
      forall k {:trigger scalars[k]} | 0 <= k < n :: Fits(scalars[k], limbsize)
    }

    lemma Entry(i: nat, n: nat)
      requires Holds(n) && i < n
      ensures heap[i] < n && Keys(n)[i] == Vals()[heap[i]] == Value(scalars[heap[i]])
    {
      assert heap[..n][i] == heap[i];
    }

    /** Compares the scalars of two heap entries. */
    method Below(i: nat, j: nat, limbsize: nat, equal: bool, ghost n: nat) returns (b: bool)
      requires Holds(n) && i < n && j < n && limbsize < 5 && Window(n, limbsize)
      ensures b == if equal then Keys(n)[i] <= Keys(n)[j] else Keys(n)[i] < Keys(n)[j]
    {
      Entry(i, n);
      Entry(j, n);
      if equal {
        b := Lte(scalars[heap[i]], scalars[heap[j]], limbsize);
      } else {
        b := Lt(scalars[heap[i]], scalars[heap[j]], limbsize);
      }
    }

    /** Puts the next index at the bottom of the heap. */
    method Append()
      requires Valid() && size < heap.Length && Heap(Keys(size))
      modifies heap, this`pos
      ensures Holds(size + 1) && UpHole(Keys(size + 1), size)
    {
      ghost var ks, h := Keys(size), heap[..size];
      heap[size] := size;
      pos := pos + [size];
      assert heap[..size + 1] == h + [size];
      assert Permutation(h + [size], pos);
      assert Keys(size + 1) == ks + [Vals()[size]];
      Appended(ks, Vals()[size]);
    }

    /** Moves the entry at `start` up past smaller ones; past equal ones too when `equal` is set. Only the first `f`
        entries are looked at. */
    method SiftUp(start: nat, limbsize: nat, equal: bool, ghost n: nat, ghost f: nat)
      requires Holds(n) && start < f <= n && limbsize < 5 && Window(n, limbsize) && UpHole(FirstKeys(n, f), start)
      modifies heap, this`pos
      ensures Holds(n) && Heap(FirstKeys(n, f)) && heap[f..n] == old(heap[f..n])
    {
      var node: nat := start;
      while node != 0
        invariant Holds(n) && UpHole(FirstKeys(n, f), node) && heap[f..n] == old(heap[f..n])
      {
        var parent := Parent(node);
        var above := Below(parent, node, limbsize, equal, n);
        if !above {
          break;
        }
        UpStep(FirstKeys(n, f), node);
        HeapSwap(parent, node, n, f);
        node := parent;
      }
      UpDone(FirstKeys(n, f), node);
    }

    /** Adds the next scalar to the heap. */
    method InsertNext()
      requires Valid() && size < heap.Length && Heap(Keys(size))
      modifies heap, this`pos, this`size
      ensures Valid() && size == old(size) + 1 && Heap(Keys(size))
    {
      Append();
      WholeKeys(size + 1);
      SiftUp(size, 4, false, size + 1, size + 1);
      WholeKeys(size + 1);
      size := size + 1;
    }

    lemma WholeKeys(n: nat)
      requires Holds(n)
      ensures FirstKeys(n, n) == Keys(n)
    {
    }

    /** Swaps the entry at `parent` with its larger child. */
    method DownOnce(parent: nat, limbsize: nat, ghost f: nat) returns (node: nat)
      requires Valid() && limbsize < 5 && Window(size, limbsize) && 2 * parent + 2 < f <= size && DownHole(FirstKeys(size, f), parent)
      modifies heap, this`pos
      ensures Valid() && DownHole(FirstKeys(size, f), node) && heap[f..size] == old(heap[f..size])
      ensures node == 2 * parent + 1 || node == 2 * parent + 2
    {
      var childl := parent * 2 + 1;
      var childr := childl + 1;
      var less := Below(childl, childr, limbsize, false, size);
      node := if less then childr else childl;
      DownStep(FirstKeys(size, f), parent, node);
      HeapSwap(parent, node, size, f);
    }

    /** Moves the root entry to the bottom, along the larger children. A last leaf without a sibling is not looked at. */
    method SiftDown(limbsize: nat, ghost f: nat) returns (node: nat)
      requires Valid() && limbsize < 5 && Window(size, limbsize) && 3 <= f <= size <= f + 1 && f % 2 == 1 && DownHole(FirstKeys(size, f), 0)
      modifies heap, this`pos
      ensures Valid() && node < f && UpHole(FirstKeys(size, f), node) && heap[f..size] == old(heap[f..size])
    {
      var parent := 0;
      node := 1;
      while 2 * parent + 2 < size
        invariant Valid() && DownHole(FirstKeys(size, f), parent) && heap[f..size] == old(heap[f..size])
        invariant parent < f && (parent == 0 || node == parent)
        decreases size - parent
      {
        node := DownOnce(parent, limbsize, f);
        parent := node;
      }
      AtLeaf(FirstKeys(size, f), node);
    }

    /** Takes the root entry down to the bottom and back up to its place. */
    method Settle(limbsize: nat, ghost f: nat)
      requires Valid() && limbsize < 5 && Window(size, limbsize) && 3 <= f <= size <= f + 1 && f % 2 == 1 && DownHole(FirstKeys(size, f), 0)
      modifies heap, this`pos
      ensures Valid() && Heap(FirstKeys(size, f)) && heap[f..size] == old(heap[f..size])
    {
      var node := SiftDown(limbsize, f);
      SiftUp(node, limbsize, true, size, f);
    }

    lemma FrontKeys(f: nat)
      requires Valid() && size >= 3 && f == |Front(Keys(size))|
      ensures f <= size && Front(Keys(size)) == FirstKeys(size, f)
    {
    }

    /** Restores the heap after the scalar at the root has become smaller. A last leaf without a sibling stays where it is,
        and may be out of order. */
    method UpdatedRoot(limbsize: nat)
      requires Valid() && size >= 3 && limbsize < 5 && Window(size, limbsize) && DownHole(Front(Keys(size)), 0)
      modifies heap, this`pos
      ensures Valid() && Heap(Front(Keys(size))) && (size % 2 == 0 ==> heap[size - 1] == old(heap[size - 1]))
    {
      ghost var f := |Front(Keys(size))|;
      ghost var rest := heap[f..size];
      FrontKeys(f);
      Settle(limbsize, f);
      FrontKeys(f);
      assert size % 2 == 0 ==> heap[f..size][0] == rest[0];
    }

    method Extend(count: nat)
      requires Valid() && size <= count <= heap.Length && Heap(Keys(size))
      modifies heap, this`pos, this`size
      ensures Valid() && size == count && Heap(Keys(size))
    {
      while size < count
        invariant Valid() && size <= count && Heap(Keys(size))
      {
        InsertNext();
      }
    }

    method Build(count: nat)
      requires points.Length == scalars.Length == heap.Length == |pts| && count <= heap.Length && AllScalars(scalars[..])
      modifies heap, this`pos, this`size
      ensures Valid() && size == count && Heap(Keys(size))
    {
      size, pos := 0, [];
      Extend(count);
    }

    /** The indices of the two largest scalars. */
    method GetTop2(limbsize: nat) returns (max1: nat, max2: nat)
      requires Valid() && size >= 3 && limbsize < 5 && Window(size, limbsize) && Heap(Keys(size))
      ensures max1 < size && max2 < size && max1 != max2 && max1 == heap[0]
      ensures forall k | 0 <= k < size :: Vals()[k] <= Vals()[max1]
      ensures forall k | 0 <= k < size && k != max1 :: Vals()[k] <= Vals()[max2]
    {
      var h1, h2 := heap[1], heap[2];
      var less := Below(1, 2, limbsize, false, size);
      if less {
        h1 := h2;
      }
      max1, max2 := heap[0], h1;
      Entry(0, size);
      Entry(1, size);
      Entry(2, size);
      forall k | 0 <= k < size
        ensures Vals()[k] <= Vals()[max1] && (k != max1 ==> Vals()[k] <= Vals()[max2])
      {
        var i := pos[k];
        RootIsMax(Keys(size), i);
        if i > 0 {
          SecondIsMax(Keys(size), i);
        }
      }
    }
  }

  lemma SwapPermutation(h: seq<nat>, pos: seq<nat>, a: nat, b: nat)
    requires Permutation(h, pos) && a < |h| && b < |h| && a != b
    ensures Permutation(h[a := h[b]][b := h[a]], pos[h[a] := b][h[b] := a])
  {
    assert h[a] != h[b];
  }
}
