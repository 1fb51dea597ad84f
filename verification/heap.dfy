/**
 * hnsw/search.go's two heaps, `PriorityQueue` and `MaxHeap`, and the
 * `container/heap` algorithms `searchLayer` drives them with. Both types
 * are slices of items ordered by one `Less`; they differ only in its
 * direction, so one `Order` parameter stands for the choice. A heap is the
 * slice of items as values: `Swap` rewrites the two items' `index` fields,
 * as the source does through its pointers.
 */
module Heaps {
  import opened Wrappers

  /** Which item `Less` puts first: `PriorityQueue` the lower priority,
      `MaxHeap` the higher. */
  datatype Order = MinFirst | MaxFirst

  /** An item: a node id, its distance as priority, and the slot it is in. */
  datatype Item = Item(value: int, priority: int, index: int)

  /** What an item holds apart from its slot. */
  datatype Entry = Entry(value: int, priority: int)

  function Key(it: Item): Entry
  {
    Entry(it.value, it.priority)
  }

  function Keys(h: seq<Item>): (ks: seq<Entry>)
    ensures |ks| == |h|
  {
    seq(|h|, i requires 0 <= i < |h| => Key(h[i]))
  }

  /** The entries of a heap, whatever their order. */
  function Bag(h: seq<Item>): multiset<Entry>
  {
    multiset(Keys(h))
  }

  /** Priority `p` comes out strictly before priority `q`. */
  predicate Prior(o: Order, p: int, q: int)
  {
    match o
    case MinFirst => p < q
    case MaxFirst => p > q
  }

  /** `Less(i, j)`. */
  predicate Less(o: Order, h: seq<Item>, i: int, j: int)
    requires 0 <= i < |h| && 0 <= j < |h|
  {
    Prior(o, h[i].priority, h[j].priority)
  }

  /** Every item's `index` field names its slot. */
  predicate Indexed(h: seq<Item>)
  {
    forall k :: 0 <= k < |h| ==> h[k].index == k
  }

  /** The parent slot, `(j - 1) / 2` with Go's division, which truncates:
      slot 0 is its own parent. */
  function Parent(j: nat): nat
  {
    if j == 0 then 0 else (j - 1) / 2
  }

  /** No slot below `n` comes out strictly before its parent. */
  predicate HeapUpTo(o: Order, h: seq<Item>, n: nat)
    requires n <= |h|
  {
    forall k :: 0 < k < n ==> !Less(o, h, k, Parent(k))
  }

  predicate IsHeap(o: Order, h: seq<Item>)
  {
    HeapUpTo(o, h, |h|)
  }

  lemma KeysUpdate(h: seq<Item>, i: nat, it: Item)
    requires i < |h|
    ensures Keys(h[i := it]) == Keys(h)[i := Key(it)]
  {
  }

  /** `Swap(i, j)`: the two items change slots and learn their new ones. */
  function Swap(h: seq<Item>, i: nat, j: nat): (r: seq<Item>)
    requires i < |h| && j < |h|
    ensures |r| == |h| && Bag(r) == Bag(h)
    ensures Key(r[i]) == Key(h[j]) && Key(r[j]) == Key(h[i])
    ensures forall k :: 0 <= k < |h| && k != i && k != j ==> r[k] == h[k]
    ensures Indexed(h) ==> Indexed(r)
  {
    var h1 := h[i := h[j].(index := i)];
    var r := h1[j := h[i].(index := j)];
    KeysUpdate(h, i, h[j].(index := i));
    KeysUpdate(h1, j, h[i].(index := j));
    r
  }

  /** The `Push` method: the item goes in a new last slot. */
  function Append(h: seq<Item>, x: Item): (r: seq<Item>)
    ensures |r| == |h| + 1 && r[..|h|] == h && Key(r[|h|]) == Key(x)
    ensures Bag(r) == Bag(h) + multiset{Key(x)}
    ensures Indexed(h) ==> Indexed(r)
  {
    var r := h + [x.(index := |h|)];
    assert Keys(r) == Keys(h) + [Key(x)];
    r
  }

  /** A heap after `Pop` and the item taken out. */
  datatype Popped = Popped(heap: seq<Item>, item: Item)

  /** The `Pop` method: the last slot is dropped and its item told it has none. */
  function RemoveLast(h: seq<Item>): (r: Popped)
    requires |h| > 0
    ensures r.heap == h[..|h| - 1] && Key(r.item) == Key(h[|h| - 1]) && r.item.index == -1
    ensures Bag(r.heap) + multiset{Key(r.item)} == Bag(h)
    ensures Indexed(h) ==> Indexed(r.heap)
  {
    var n := |h| - 1;
    assert Keys(h) == Keys(h[..n]) + [Key(h[n])];
    Popped(h[..n], h[n].(index := -1))
  }

  /** `Peek`: nil on an empty heap, otherwise slot 0. */
  function Peek(h: seq<Item>): (r: Option<Item>)
    ensures r.None? <==> |h| == 0
    ensures r.Some? ==> Key(r.value) in Bag(h)
  {
    if |h| == 0 then None
    else
      assert Keys(h)[0] == Key(h[0]);
      Some(h[0])
  }

  /** `up` from `container/heap`: the item at `j` climbs while it comes out
      before its parent. */
  function Up(o: Order, h: seq<Item>, j: nat): (r: seq<Item>)
    requires j < |h|
    ensures |r| == |h| && Bag(r) == Bag(h)
    ensures Indexed(h) ==> Indexed(r)
    decreases j
  {
    var i := Parent(j);
    if i == j || !Less(o, h, j, i) then h
    else Up(o, Swap(h, i, j), i)
  }

  /** `down` from `container/heap`: the item at `i` sinks below the child
      that comes out first while that child comes out before it; slots from
      `n` on are not looked at. */
  function Down(o: Order, h: seq<Item>, i: nat, n: nat): (r: seq<Item>)
    requires n <= |h|
    ensures |r| == |h| && Bag(r) == Bag(h)
    ensures Indexed(h) ==> Indexed(r)
    ensures forall k :: n <= k < |h| ==> r[k] == h[k]
    decreases n - i
  {
    var j1 := 2 * i + 1;
    if j1 >= n then h
    else
      var j := if j1 + 1 < n && Less(o, h, j1 + 1, j1) then j1 + 1 else j1;
      if !Less(o, h, j, i) then h
      else Down(o, Swap(h, i, j), j, n)
  }

  /** `heap.Push`: append, then climb. */
  function Push(o: Order, h: seq<Item>, x: Item): (r: seq<Item>)
    ensures |r| == |h| + 1 && Bag(r) == Bag(h) + multiset{Key(x)}
    ensures Indexed(h) ==> Indexed(r)
  {
    Up(o, Append(h, x), |h|)
  }

  /** `heap.Pop`: the first item swaps with the last, the new first sinks
      through the others, and the last slot is removed. */
  function Pop(o: Order, h: seq<Item>): (r: Popped)
    requires |h| > 0
    ensures |r.heap| == |h| - 1 && r.item.index == -1
    ensures Bag(r.heap) + multiset{Key(r.item)} == Bag(h)
    ensures Indexed(h) ==> Indexed(r.heap)
  {
    var n := |h| - 1;
    RemoveLast(Down(o, Swap(h, 0, n), 0, n))
  }

  // ---------------------------------------------------------------------
  // Heap order

  /** The heap order holds everywhere except between slot `j` and its
      parent, and `j`'s children do not come out before `j`'s parent. */
  predicate UpReady(o: Order, h: seq<Item>, j: nat)
    requires j < |h|
  {
    && (forall k :: 0 < k < |h| && k != j ==> !Less(o, h, k, Parent(k)))
    && (j > 0 ==> forall k :: 0 < k < |h| && Parent(k) == j ==> !Less(o, h, k, Parent(j)))
  }

  lemma UpStep(o: Order, h: seq<Item>, j: nat)
    requires j < |h| && UpReady(o, h, j) && j > 0 && Less(o, h, j, Parent(j))
    ensures UpReady(o, Swap(h, Parent(j), j), Parent(j))
  {
    var p := Parent(j);
    var r := Swap(h, p, j);
    forall k | 0 < k < |h| && k != p
      ensures !Less(o, r, k, Parent(k))
    {
      if k == j {
      } else if Parent(k) == j {
        assert r[k] == h[k];
      } else if Parent(k) == p {
        assert r[k] == h[k] && !Less(o, h, k, p);
      } else {
        assert r[k] == h[k] && r[Parent(k)] == h[Parent(k)];
      }
    }
    if p > 0 {
      forall k | 0 < k < |h| && Parent(k) == p
        ensures !Less(o, r, k, Parent(p))
      {
        assert Parent(p) < p && r[Parent(p)] == h[Parent(p)];
        assert !Less(o, h, p, Parent(p));
        if k != j {
          assert r[k] == h[k] && !Less(o, h, k, p);
        }
      }
    }
  }

  /** Climbing restores the heap order. */
  lemma {:induction false} UpRestores(o: Order, h: seq<Item>, j: nat)
    requires j < |h| && UpReady(o, h, j)
    ensures IsHeap(o, Up(o, h, j))
    decreases j
  {
    var i := Parent(j);
    if i != j && Less(o, h, j, i) {
      UpStep(o, h, j);
      UpRestores(o, Swap(h, i, j), i);
    }
  }

  /** Below `n`, the heap order holds everywhere except between slot `i`
      and its children, and `i`'s children do not come out before `i`'s parent. */
  predicate DownReady(o: Order, h: seq<Item>, i: nat, n: nat)
    requires n <= |h|
  {
    && (forall k :: 0 < k < n && Parent(k) != i ==> !Less(o, h, k, Parent(k)))
    && (0 < i < n ==> forall k :: 0 < k < n && Parent(k) == i ==> !Less(o, h, k, Parent(i)))
  }

  lemma ChildParent(i: nat)
    ensures Parent(2 * i + 1) == i && Parent(2 * i + 2) == i
  {
  }

  lemma ParentChild(k: nat)
    requires k > 0
    ensures k == 2 * Parent(k) + 1 || k == 2 * Parent(k) + 2
  {
  }

  lemma DownStep(o: Order, h: seq<Item>, i: nat, n: nat, j: nat)
    requires n <= |h| && DownReady(o, h, i, n)
    requires 2 * i + 1 < n
    requires j == if 2 * i + 2 < n && Less(o, h, 2 * i + 2, 2 * i + 1) then 2 * i + 2 else 2 * i + 1
    requires Less(o, h, j, i)
    ensures DownReady(o, Swap(h, i, j), j, n)
  {
    ChildParent(i);
    var r := Swap(h, i, j);
    forall k | 0 < k < n && Parent(k) != j
      ensures !Less(o, r, k, Parent(k))
    {
      if k == j {
      } else if Parent(k) == i {
        ParentChild(k);
        assert r[k] == h[k];
      } else if k == i {
        assert r[Parent(i)] == h[Parent(i)];
      } else {
        assert r[k] == h[k] && r[Parent(k)] == h[Parent(k)];
      }
    }
    forall k | 0 < k < n && Parent(k) == j
      ensures !Less(o, r, k, Parent(j))
    {
      assert r[k] == h[k];
    }
  }

  /** Sinking restores the heap order below `n`. */
  lemma {:induction false} DownRestores(o: Order, h: seq<Item>, i: nat, n: nat)
    requires n <= |h| && DownReady(o, h, i, n)
    ensures HeapUpTo(o, Down(o, h, i, n), n)
    decreases n - i
  {
    var j1 := 2 * i + 1;
    ChildParent(i);
    if j1 < n {
      var j := if j1 + 1 < n && Less(o, h, j1 + 1, j1) then j1 + 1 else j1;
      if Less(o, h, j, i) {
        DownStep(o, h, i, n, j);
        DownRestores(o, Swap(h, i, j), j, n);
      } else {
        forall k | 0 < k < n && Parent(k) == i
          ensures !Less(o, h, k, i)
        {
          ParentChild(k);
        }
      }
    }
  }

  /** No item of a heap comes out strictly before slot 0's. */
  lemma {:induction false} RootFirst(o: Order, h: seq<Item>, k: nat)
    requires IsHeap(o, h) && k < |h|
    ensures !Less(o, h, k, 0)
    decreases k
  {
    if k > 0 {
      RootFirst(o, h, Parent(k));
    }
  }

  /** On a max-heap, `Peek` gives the farthest item: none is farther. */
  lemma PeekFarthest(h: seq<Item>)
    requires IsHeap(MaxFirst, h)
    ensures Peek(h).Some? ==> forall k :: 0 <= k < |h| ==> h[k].priority <= Peek(h).value.priority
  {
    forall k | 0 <= k < |h|
      ensures h[k].priority <= h[0].priority
    {
      RootFirst(MaxFirst, h, k);
    }
  }

  /** `heap.Push` keeps the heap order. */
  lemma PushKeepsHeap(o: Order, h: seq<Item>, x: Item)
    requires IsHeap(o, h)
    ensures IsHeap(o, Push(o, h, x))
  {
    var a := Append(h, x);
    assert forall k :: 0 <= k < |h| ==> a[k] == h[k];
    UpRestores(o, a, |h|);
  }

  /** Swapping the first and last items of a heap readies the first to sink. */
  lemma SwapEnds(o: Order, h: seq<Item>, s: seq<Item>)
    requires IsHeap(o, h) && |h| > 0 && s == Swap(h, 0, |h| - 1)
    ensures DownReady(o, s, 0, |h| - 1)
  {
    forall k | 0 < k < |h| - 1 && Parent(k) != 0
      ensures !Less(o, s, k, Parent(k))
    {
      assert s[k] == h[k] && s[Parent(k)] == h[Parent(k)];
    }
  }

  lemma PrefixHeap(o: Order, d: seq<Item>, n: nat)
    requires n <= |d| && HeapUpTo(o, d, n)
    ensures IsHeap(o, d[..n])
  {
    var r := d[..n];
    forall k | 0 < k < n
      ensures !Less(o, r, k, Parent(k))
    {
      assert r[k] == d[k] && r[Parent(k)] == d[Parent(k)];
    }
  }

  /** `heap.Pop` on a heap takes out the item of slot 0, which no other item
      comes out strictly before, and leaves a heap. */
  lemma PopFirst(o: Order, h: seq<Item>)
    requires IsHeap(o, h) && |h| > 0
    ensures IsHeap(o, Pop(o, h).heap)
    ensures Key(Pop(o, h).item) == Key(h[0])
    ensures forall k :: 0 <= k < |h| ==> !Prior(o, h[k].priority, Pop(o, h).item.priority)
  {
    var n := |h| - 1;
    var s := Swap(h, 0, n);
    SwapEnds(o, h, s);
    DownRestores(o, s, 0, n);
    var d := Down(o, s, 0, n);
    PrefixHeap(o, d, n);
    assert Pop(o, h) == RemoveLast(d);
    assert Key(Pop(o, h).item) == Key(h[0]);
    forall k | 0 <= k < |h|
      ensures !Prior(o, h[k].priority, Pop(o, h).item.priority)
    {
      RootFirst(o, h, k);
    }
  }
}
