/**
 * The array-backed binary heap of lngpok/BinaryHeap.cs.
 *
 * A heap is a dense sequence of items read as a complete binary tree (the
 * children of index i sit at 2i+1 and 2i+2) together with the comparer chosen
 * at construction. An item is "better" than another when the comparer returns
 * a negative number for the pair; the best item sits at the root.
 */
module BinaryHeap {
  import opened Wrappers
  import opened Comparison

  /** `IComparer<TKey>.Compare`, or the natural `IComparable<TKey>.CompareTo`. */
  type Comparer<!T> = (T, T) -> int

  datatype Heap<!T> = Heap(items: seq<T>, comparer: Comparer<T>)

  datatype HeapError =
    | InvalidOperation(message: string)
    | ArgumentOutOfRange(paramName: string)

  const PeekEmptyMessage := "Cannot peek when the heap is empty."
  const RemoveEmptyMessage := "Cannot remove when the heap is empty."

  /** What `Remove` hands back: the removed root and the heap that remains. */
  datatype Removed<!T> = Removed(item: T, rest: Heap<T>)

  // ---------------------------------------------------------------------
  // Index arithmetic

  /**
   * `(childIndex - 1) / 2` in C#, whose division truncates toward zero, so
   * the root is its own parent; Dafny's division would give -1 there.
   */
  function ParentIndex(child: nat): (r: nat)
    ensures child == 0 ==> r == 0
    ensures child > 0 ==> r < child && (child == 2 * r + 1 || child == 2 * r + 2)
  {
    if child == 0 then 0 else (child - 1) / 2
  }

  function LeftChildIndex(parent: nat): (r: nat)
    ensures r > parent && ParentIndex(r) == parent
  {
    2 * parent + 1
  }

  function RightChildIndex(parent: nat): (r: nat)
    ensures r > parent && ParentIndex(r) == parent
  {
    2 * parent + 2
  }

  /**
   * `HasChildren`: the left child slot lies below the count (`ItemExists` is
   * that comparison), so some stored item has this slot as its parent.
   */
  predicate HasChildren<T>(items: seq<T>, index: nat): (b: bool)
    ensures b <==> exists c: nat :: 0 < c < |items| && ParentIndex(c) == index
  {
    if LeftChildIndex(index) < |items| then true
    else
      assert forall c: nat :: 0 < c < |items| ==> ParentIndex(c) != index;
      false
  }

  // ---------------------------------------------------------------------
  // Heap order

  /** Every item is no better than its parent: the heap-order invariant. */
  ghost predicate HeapOrdered<T>(items: seq<T>, cmp: Comparer<T>) {
    forall i :: 0 < i < |items| ==> cmp(items[ParentIndex(i)], items[i]) <= 0
  }

  /** The class invariant of every heap built by `Create`, `Add` and `Remove`. */
  ghost predicate Valid<T(!new)>(h: Heap<T>) {
    TotalPreorder(h.comparer) && HeapOrdered(h.items, h.comparer)
  }

  /**
   * Heap order holds everywhere except possibly between `k` and its parent,
   * and `k`'s parent is no worse than `k`'s children: the state bubble-up
   * works on.
   */
  ghost predicate OrderedExceptUp<T>(items: seq<T>, cmp: Comparer<T>, k: nat) {
    && (forall i :: 0 < i < |items| && i != k ==> cmp(items[ParentIndex(i)], items[i]) <= 0)
    && (0 < k < |items| ==>
          forall c :: 0 < c < |items| && ParentIndex(c) == k ==> cmp(items[ParentIndex(k)], items[c]) <= 0)
  }

  /**
   * Heap order holds everywhere except possibly between `k` and its children,
   * and `k`'s parent is no worse than `k`'s children: the state bubble-down
   * works on.
   */
  ghost predicate OrderedExceptDown<T>(items: seq<T>, cmp: Comparer<T>, k: nat) {
    && (forall i :: 0 < i < |items| && ParentIndex(i) != k ==> cmp(items[ParentIndex(i)], items[i]) <= 0)
    && (0 < k < |items| ==>
          forall c :: 0 < c < |items| && ParentIndex(c) == k ==> cmp(items[ParentIndex(k)], items[c]) <= 0)
  }

  // ---------------------------------------------------------------------
  // Comparer selection (GreaterComparer / LesserComparer)

  /** C# `unchecked` int arithmetic: the two's-complement wrap into 32 bits. */
  function Wrap32(x: int): (r: int)
    ensures IsInt32(r)
    ensures (r - x) % 0x1_0000_0000 == 0
    ensures IsInt32(x) ==> r == x
  {
    (x - Int32Min) % 0x1_0000_0000 + Int32Min
  }

  /** `LesserComparer.Compare` exactly as written: `x.CompareTo(y) * -1` in 32-bit arithmetic. */
  function LesserCompareAsWritten<T>(compareTo: Comparer<T>, x: T, y: T): (r: int)
    ensures IsInt32(r)
    ensures IsInt32(compareTo(x, y)) && compareTo(x, y) != Int32Min ==> r == -compareTo(x, y)
    ensures compareTo(x, y) == Int32Min ==> r == Int32Min
  {
    Wrap32(compareTo(x, y) * -1)
  }

  /** `LesserComparer.Compare` as intended: the comparison with its sign flipped. */
  function LesserCompare<T>(compareTo: Comparer<T>, x: T, y: T): (r: int)
    ensures IsInt32(r)
    ensures Sign(r) == -Sign(compareTo(x, y))
  {
    -Sign(compareTo(x, y))
  }

  /** The comparer `LesserComparer` stands for, as a function value. */
  function Reversed<T(!new)>(compareTo: Comparer<T>): (r: Comparer<T>)
    ensures forall x, y :: IsInt32(r(x, y)) && Sign(r(x, y)) == -Sign(compareTo(x, y))
  {
    (x, y) => LesserCompare(compareTo, x, y)
  }

  /** Flipping every sign keeps a total preorder a total preorder. */
  lemma ReversedIsTotalPreorder<T(!new)>(compareTo: Comparer<T>)
    ensures TotalPreorder(compareTo) ==> TotalPreorder(Reversed(compareTo))
  {
    if !TotalPreorder(compareTo) {
      return;
    }
    var rev := Reversed(compareTo);
    forall x, y, z | rev(x, y) <= 0 && rev(y, z) <= 0
      ensures rev(x, z) <= 0
    {
      assert compareTo(y, x) <= 0 && compareTo(z, y) <= 0;
    }
  }

  /**
   * The constructor: a negative `capacity` makes the backing `List` throw;
   * otherwise the heap starts empty with the given comparer if there is one,
   * else with the natural order (`minimum`, a min-heap) or its reverse.
   */
  function Create<T(!new)>(minimum: bool, capacity: int, compareTo: Comparer<T>,
                           comparer: Option<Comparer<T>>): (r: Result<Heap<T>, HeapError>)
    ensures r.Failure? <==> capacity < 0
    ensures r.Failure? ==> r.error == ArgumentOutOfRange("capacity")
    ensures r.Success? ==> r.value.items == []
    ensures r.Success? && comparer.Some? ==> r.value.comparer == comparer.value
    ensures r.Success? && comparer.None? ==>
              forall x, y :: Sign(r.value.comparer(x, y)) ==
                             (if minimum then Sign(compareTo(x, y)) else -Sign(compareTo(x, y)))
    ensures r.Success? && comparer.Some? && TotalPreorder(comparer.value) ==> Valid(r.value)
    ensures r.Success? && comparer.None? && TotalPreorder(compareTo) ==> Valid(r.value)
  {
    if capacity < 0 then
      Failure(ArgumentOutOfRange("capacity"))
    else if comparer.Some? then
      Success(Heap([], comparer.value))
    else if minimum then
      Success(Heap([], compareTo))
    else
      ReversedIsTotalPreorder(compareTo);
      Success(Heap([], Reversed(compareTo)))
  }

  // ---------------------------------------------------------------------
  // Item moves

  function Swap<T>(items: seq<T>, i: nat, j: nat): (r: seq<T>)
    requires i < |items| && j < |items|
    ensures |r| == |items|
    ensures r[i] == items[j] && r[j] == items[i]
    ensures forall k :: 0 <= k < |items| && k != i && k != j ==> r[k] == items[k]
    ensures multiset(r) == multiset(items)
  {
    var r := items[i := items[j]][j := items[i]];
    SwapPreservesMultiset(items, i, j);
    r
  }

  lemma SwapPreservesMultiset<T>(items: seq<T>, i: nat, j: nat)
    requires i < |items| && j < |items|
    ensures multiset(items[i := items[j]][j := items[i]]) == multiset(items)
  {
    var once := items[i := items[j]];
    assert multiset(once) == multiset(items) - multiset{items[i]} + multiset{items[j]};
  }

  /** `GetBestIndex`: the first index only when its item is strictly better. */
  function GetBestIndex<T(!new)>(items: seq<T>, cmp: Comparer<T>, index1: nat, index2: nat): (r: nat)
    requires index1 < |items| && index2 < |items|
    ensures r == index1 || r == index2
    ensures index1 != index2 ==> (r == index1 <==> cmp(items[index1], items[index2]) < 0)
    ensures TotalPreorder(cmp) ==> cmp(items[r], items[index1]) <= 0 && cmp(items[r], items[index2]) <= 0
  {
    if cmp(items[index1], items[index2]) < 0 then index1 else index2
  }

  /**
   * `GetBestChildIndex`: the better of the existing children of `parent`;
   * when two children compare equal the right one is chosen.
   */
  function GetBestChildIndex<T(!new)>(items: seq<T>, cmp: Comparer<T>, parent: nat): (r: nat)
    requires HasChildren(items, parent)
    ensures r < |items| && r > parent && ParentIndex(r) == parent
    ensures TotalPreorder(cmp) ==>
              forall c :: 0 < c < |items| && ParentIndex(c) == parent ==> cmp(items[r], items[c]) <= 0
    ensures RightChildIndex(parent) < |items| &&
            cmp(items[LeftChildIndex(parent)], items[RightChildIndex(parent)]) == 0 ==>
              r == RightChildIndex(parent)
  {
    var left := LeftChildIndex(parent);
    var right := RightChildIndex(parent);
    if right < |items| then GetBestIndex(items, cmp, left, right) else left
  }

  /**
   * `CompareAndSwapWithParentIfNecessary`: swaps `child` with its parent
   * unless the parent is strictly better (or `child` is the root), and reports
   * whether it swapped. Afterwards the parent slot holds an item no worse
   * than the child slot.
   */
  function CompareAndSwapWithParent<T(!new)>(items: seq<T>, cmp: Comparer<T>, child: nat): (r: (seq<T>, bool))
    requires child < |items|
    ensures multiset(r.0) == multiset(items) && |r.0| == |items|
    ensures r.1 <==> child > 0 && !(cmp(items[ParentIndex(child)], items[child]) < 0)
    ensures r.1 ==> r.0 == Swap(items, ParentIndex(child), child)
    ensures !r.1 ==> r.0 == items
    ensures child > 0 && TotalPreorder(cmp) ==> cmp(r.0[ParentIndex(child)], r.0[child]) <= 0
  {
    if child == 0 then (items, false)
    else
      var parent := ParentIndex(child);
      if GetBestIndex(items, cmp, parent, child) == child then (Swap(items, parent, child), true)
      else (items, false)
  }

  // ---------------------------------------------------------------------
  // Sifting

  /** One bubble-up swap moves the hole in heap order from `k` to its parent. */
  lemma SwapUpStep<T(!new)>(items: seq<T>, cmp: Comparer<T>, k: nat)
    requires TotalPreorder(cmp)
    requires 0 < k < |items|
    requires OrderedExceptUp(items, cmp, k)
    requires !(cmp(items[ParentIndex(k)], items[k]) < 0)
    ensures OrderedExceptUp(Swap(items, ParentIndex(k), k), cmp, ParentIndex(k))
  {
    var p := ParentIndex(k);
    var b := Swap(items, p, k);
    assert cmp(items[k], items[p]) <= 0;
    forall i | 0 < i < |b| && i != p
      ensures cmp(b[ParentIndex(i)], b[i]) <= 0
    {
      if i == k {
      } else if ParentIndex(i) == k {
      } else if ParentIndex(i) == p {
        assert cmp(items[p], items[i]) <= 0;
      } else {
        assert cmp(items[ParentIndex(i)], items[i]) <= 0;
      }
    }
    if 0 < p {
      var g := ParentIndex(p);
      assert cmp(items[g], items[p]) <= 0;
      forall c | 0 < c < |b| && ParentIndex(c) == p
        ensures cmp(b[g], b[c]) <= 0
      {
        if c != k {
          assert cmp(items[p], items[c]) <= 0;
        }
      }
    }
  }

  /** `BubbleUp`: swaps the item at `index` upward while it is not worse than its parent. */
  method BubbleUp<T(!new)>(items: seq<T>, cmp: Comparer<T>, index: nat) returns (r: seq<T>)
    requires TotalPreorder(cmp)
    requires index < |items|
    requires OrderedExceptUp(items, cmp, index)
    ensures HeapOrdered(r, cmp)
    ensures multiset(r) == multiset(items) && |r| == |items|
  {
    r := items;
    var k: nat := index;
    while true
      invariant k < |r| && |r| == |items|
      invariant multiset(r) == multiset(items)
      invariant OrderedExceptUp(r, cmp, k)
      decreases k
    {
      var step := CompareAndSwapWithParent(r, cmp, k);
      if !step.1 {
        break;
      }
      SwapUpStep(r, cmp, k);
      r := step.0;
      k := ParentIndex(k);
    }
  }

  /** One bubble-down swap moves the hole in heap order from `k` to its best child. */
  lemma SwapDownStep<T(!new)>(items: seq<T>, cmp: Comparer<T>, k: nat, best: nat)
    requires TotalPreorder(cmp)
    requires best < |items| && ParentIndex(best) == k && k < best
    requires forall c :: 0 < c < |items| && ParentIndex(c) == k ==> cmp(items[best], items[c]) <= 0
    requires OrderedExceptDown(items, cmp, k)
    requires !(cmp(items[k], items[best]) < 0)
    ensures OrderedExceptDown(Swap(items, k, best), cmp, best)
  {
    var b := Swap(items, k, best);
    assert cmp(items[best], items[k]) <= 0;
    forall i | 0 < i < |b| && ParentIndex(i) != best
      ensures cmp(b[ParentIndex(i)], b[i]) <= 0
    {
      if i == best {
      } else if i == k {
        assert cmp(items[ParentIndex(k)], items[best]) <= 0;
      } else if ParentIndex(i) == k {
        assert cmp(items[best], items[i]) <= 0;
      } else {
        assert cmp(items[ParentIndex(i)], items[i]) <= 0;
      }
    }
    forall c | 0 < c < |b| && ParentIndex(c) == best
      ensures cmp(b[k], b[c]) <= 0
    {
      assert cmp(items[best], items[c]) <= 0;
    }
  }

  /** With no children below `k`, the hole in heap order at `k` is no hole. */
  lemma LeafClosesDown<T>(items: seq<T>, cmp: Comparer<T>, k: nat)
    requires !HasChildren(items, k)
    requires OrderedExceptDown(items, cmp, k)
    ensures HeapOrdered(items, cmp)
  {
    forall i | 0 < i < |items|
      ensures cmp(items[ParentIndex(i)], items[i]) <= 0
    {
      assert ParentIndex(i) != k;
    }
  }

  /** `BubbleDown`: swaps the item at `index` with its best child while that child is not worse. */
  method BubbleDown<T(!new)>(items: seq<T>, cmp: Comparer<T>, index: nat) returns (r: seq<T>)
    requires TotalPreorder(cmp)
    requires OrderedExceptDown(items, cmp, index)
    ensures HeapOrdered(r, cmp)
    ensures multiset(r) == multiset(items) && |r| == |items|
    decreases |items| - index
  {
    if !HasChildren(items, index) {
      LeafClosesDown(items, cmp, index);
      return items;
    }
    var best := GetBestChildIndex(items, cmp, index);
    var step := CompareAndSwapWithParent(items, cmp, best);
    if step.1 {
      SwapDownStep(items, cmp, index, best);
      r := BubbleDown(step.0, cmp, best);
    } else {
      forall i | 0 < i < |items|
        ensures cmp(items[ParentIndex(i)], items[i]) <= 0
      {
        if ParentIndex(i) == index {
          assert cmp(items[best], items[i]) <= 0;
        }
      }
      r := items;
    }
  }

  // ---------------------------------------------------------------------
  // Public operations

  function Count<T>(h: Heap<T>): (r: nat)
    ensures r == |multiset(h.items)|
  {
    |h.items|
  }

  /** In a heap-ordered sequence the root is no worse than any item. */
  lemma {:induction false} RootIsBest<T(!new)>(items: seq<T>, cmp: Comparer<T>, i: nat)
    requires TotalPreorder(cmp) && HeapOrdered(items, cmp)
    requires i < |items|
    ensures cmp(items[0], items[i]) <= 0
    decreases i
  {
    if i == 0 {
      TotalPreorderReflexive(cmp, items[0]);
    } else {
      RootIsBest(items, cmp, ParentIndex(i));
    }
  }

  /** `Add`: appends the item and bubbles it up. */
  method Add<T(!new)>(h: Heap<T>, item: T) returns (h': Heap<T>)
    requires Valid(h)
    ensures Valid(h') && h'.comparer == h.comparer
    ensures Count(h') == Count(h) + 1
    ensures multiset(h'.items) == multiset(h.items) + multiset{item}
  {
    var items := h.items + [item];
    assert OrderedExceptUp(items, h.comparer, |items| - 1) by {
      forall i | 0 < i < |items| && i != |items| - 1
        ensures h.comparer(items[ParentIndex(i)], items[i]) <= 0
      {
        assert items[i] == h.items[i] && items[ParentIndex(i)] == h.items[ParentIndex(i)];
      }
    }
    items := BubbleUp(items, h.comparer, |items| - 1);
    h' := Heap(items, h.comparer);
  }

  /** `Peek`: the root, which no stored item is strictly better than; an error on an empty heap. */
  function Peek<T(!new)>(h: Heap<T>): (r: Result<T, HeapError>)
    ensures r.Failure? <==> Count(h) == 0
    ensures r.Failure? ==> r.error == InvalidOperation(PeekEmptyMessage)
    ensures r.Success? ==> r.value == h.items[0]
    ensures r.Success? && Valid(h) ==>
              forall x :: x in h.items ==> !(h.comparer(x, r.value) < 0)
  {
    if Count(h) == 0 then Failure(InvalidOperation(PeekEmptyMessage))
    else
      RootIsBestOfAll(h);
      Success(h.items[0])
  }

  /** The root of a valid heap is no worse than any stored item. */
  lemma RootIsBestOfAll<T(!new)>(h: Heap<T>)
    ensures Valid(h) && Count(h) > 0 ==>
              forall i :: 0 <= i < |h.items| ==> h.comparer(h.items[0], h.items[i]) <= 0
  {
    if Valid(h) && Count(h) > 0 {
      forall i | 0 <= i < |h.items|
        ensures h.comparer(h.items[0], h.items[i]) <= 0
      {
        RootIsBest(h.items, h.comparer, i);
      }
    }
  }

  /**
   * Moving the last item into the root and dropping the old root leaves at
   * most one violation, at the root, and removes exactly that one item.
   */
  lemma LastToRoot<T>(items: seq<T>, cmp: Comparer<T>)
    requires HeapOrdered(items, cmp) && |items| > 0
    ensures var rest := Swap(items, 0, |items| - 1)[..|items| - 1];
            && OrderedExceptDown(rest, cmp, 0)
            && multiset(rest) == multiset(items) - multiset{items[0]}
  {
    LastToRootOrder(items, cmp);
    LastToRootMultiset(items);
  }

  lemma LastToRootOrder<T>(items: seq<T>, cmp: Comparer<T>)
    requires HeapOrdered(items, cmp) && |items| > 0
    ensures OrderedExceptDown(Swap(items, 0, |items| - 1)[..|items| - 1], cmp, 0)
  {
    var rest := Swap(items, 0, |items| - 1)[..|items| - 1];
    forall i | 0 < i < |rest| && ParentIndex(i) != 0
      ensures cmp(rest[ParentIndex(i)], rest[i]) <= 0
    {
      assert rest[i] == items[i] && rest[ParentIndex(i)] == items[ParentIndex(i)];
    }
  }

  lemma LastToRootMultiset<T>(items: seq<T>)
    requires |items| > 0
    ensures multiset(Swap(items, 0, |items| - 1)[..|items| - 1]) == multiset(items) - multiset{items[0]}
  {
    var last := |items| - 1;
    var rest := Swap(items, 0, last)[..last];
    if last > 0 {
      assert rest == items[..last][0 := items[last]];
      assert items == items[..last] + [items[last]];
    }
  }

  /**
   * `Remove`: takes out the root by moving the last item into its place and
   * bubbling that down; an error on an empty heap.
   */
  method Remove<T(!new)>(h: Heap<T>) returns (r: Result<Removed<T>, HeapError>)
    requires Valid(h)
    ensures r.Failure? <==> Count(h) == 0
    ensures r.Failure? ==> r.error == InvalidOperation(RemoveEmptyMessage)
    ensures r.Success? ==> r.value.item == h.items[0]
    ensures r.Success? ==> forall x :: x in h.items ==> !(h.comparer(x, r.value.item) < 0)
    ensures r.Success? ==> Valid(r.value.rest) && r.value.rest.comparer == h.comparer
    ensures r.Success? ==> Count(r.value.rest) == Count(h) - 1
    ensures r.Success? ==> multiset(r.value.rest.items) == multiset(h.items) - multiset{h.items[0]}
  {
    if |h.items| == 0 {
      return Failure(InvalidOperation(RemoveEmptyMessage));
    }
    var top := h.items[0];
    var last := |h.items| - 1;
    var items := Swap(h.items, 0, last)[..last];
    LastToRoot(h.items, h.comparer);
    items := BubbleDown(items, h.comparer, 0);
    RootIsBestOfAll(h);
    r := Success(Removed(top, Heap(items, h.comparer)));
  }

  // ---------------------------------------------------------------------
  // What the selected ordering means for the root

  /** A heap built with `minimum` and no comparer peeks an item no greater than any stored one. */
  lemma MinimumHeapPeeksLeast<T(!new)>(capacity: int, compareTo: Comparer<T>, h0: Heap<T>, h: Heap<T>)
    requires TotalPreorder(compareTo)
    requires Create(true, capacity, compareTo, None) == Success(h0)
    requires h.comparer == h0.comparer && HeapOrdered(h.items, h.comparer)
    requires Count(h) > 0
    ensures Peek(h).Success?
    ensures forall x :: x in h.items ==> compareTo(Peek(h).value, x) <= 0
  {
    RootIsBestOfAll(h);
  }

  /** A heap built without `minimum` and no comparer peeks an item no smaller than any stored one. */
  lemma MaximumHeapPeeksGreatest<T(!new)>(capacity: int, compareTo: Comparer<T>, h0: Heap<T>, h: Heap<T>)
    requires TotalPreorder(compareTo)
    requires Create(false, capacity, compareTo, None) == Success(h0)
    requires h.comparer == h0.comparer && HeapOrdered(h.items, h.comparer)
    requires Count(h) > 0
    ensures Peek(h).Success?
    ensures forall x :: x in h.items ==> compareTo(x, Peek(h).value) <= 0
  {
    ReversedIsTotalPreorder(compareTo);
    RootIsBestOfAll(h);
    forall x | x in h.items
      ensures compareTo(x, h.items[0]) <= 0
    {
      var i :| 0 <= i < |h.items| && h.items[i] == x;
      assert h.comparer(h.items[0], h.items[i]) <= 0;
    }
  }

  // ---------------------------------------------------------------------
  // LesserComparer as written: `CompareTo(...) * -1` overflows on int.MinValue

  /** An integer comparison that reports "less" as `int.MinValue`, which the comparer contract allows. */
  function MinValueCompare(x: int, y: int): (r: int)
    ensures IsInt32(r)
    ensures Sign(r) == Sign(CompareValues(x, y))
  {
    if x < y then Int32Min else if x == y then 0 else 1
  }

  /**
   * As written, reversing `MinValueCompare` makes 0 better than 1 and 1
   * better than 0, so a max-heap over {0, 1} keeps 0 at its root.
   */
  lemma LesserComparerAsWrittenIsNotReversed()
    ensures TotalPreorder(MinValueCompare)
    ensures LesserCompareAsWritten(MinValueCompare, 0, 1) < 0
    ensures LesserCompareAsWritten(MinValueCompare, 1, 0) < 0
    ensures !TotalPreorder((x: int, y: int) => LesserCompareAsWritten(MinValueCompare, x, y))
    ensures GetBestIndex([0, 1], (x: int, y: int) => LesserCompareAsWritten(MinValueCompare, x, y), 0, 1) == 0
  {
    var asWritten := (x: int, y: int) => LesserCompareAsWritten(MinValueCompare, x, y);
    assert Wrap32(0x8000_0000) == Int32Min;
    assert asWritten(0, 1) == Int32Min;
    assert Sign(asWritten(0, 1)) != -Sign(asWritten(1, 0));
  }

  /** Apart from `int.MinValue`, the written and the intended reversal agree in sign. */
  lemma LesserCompareAsWrittenAgreesOffMinValue<T>(compareTo: Comparer<T>, x: T, y: T)
    requires IsInt32(compareTo(x, y)) && compareTo(x, y) != Int32Min
    ensures Sign(LesserCompareAsWritten(compareTo, x, y)) == Sign(LesserCompare(compareTo, x, y))
  {
    assert IsInt32(compareTo(x, y) * -1);
  }
}
