/**
 * The `Hamster` record of hamstr/Hamster.cs: a daily portion, a greed that
 * adds to the portion for every mate sharing the cage, and the order in
 * which hamsters are ranked (smaller portion first, greedier first on a tie).
 */
module Hamstr {
  import opened Wrappers
  import opened Comparison
  import BinaryHeap

  /**
   * `Portion` and `Greed` are C# `long` properties, but the only constructor
   * fills them from `int` arguments, so they always hold 32-bit values.
   */
  datatype Hamster = Hamster(portion: Int32, greed: Int32, mates: Int32, consumeTotal: int) {
    /** The cached total agrees with the consumption for the stored number of mates, as the constructor leaves it. */
    predicate CachesConsumption() {
      consumeTotal == GetConsumption(this, mates)
    }
  }

  /** |a * b| never exceeds 2^62 for 32-bit `a` and `b`. */
  lemma ProductOfInt32Bound(a: int, b: int)
    requires IsInt32(a) && IsInt32(b)
    ensures -0x4000_0000_0000_0000 <= a * b <= 0x4000_0000_0000_0000
  {
    var absA: nat := if a < 0 then -a else a;
    var absB: nat := if b < 0 then -b else b;
    MultiplyMonotonic(absA, 0x8000_0000, absB);
    MultiplyMonotonic(absB, 0x8000_0000, 0x8000_0000);
    assert a * b == absA * absB || a * b == -(absA * absB);
  }

  lemma MultiplyMonotonic(x: nat, y: nat, z: nat)
    requires x <= y
    ensures x * z <= y * z && z * x <= z * y
  {
    assert y * z - x * z == (y - x) * z;
  }

  /**
   * `GetConsumption`: the food a hamster eats when it shares the cage with
   * `mates` others. Computed in 64-bit arithmetic, which never overflows here.
   */
  function GetConsumption(h: Hamster, mates: Int32): (r: int)
    ensures IsInt64(r)
  {
    ProductOfInt32Bound(h.greed, mates);
    h.portion + h.greed * mates
  }

  /** Consumption starts at the portion and grows by the greed with every extra mate. */
  lemma ConsumptionIsAffine(h: Hamster, mates: Int32, others: Int32)
    ensures GetConsumption(h, 0) == h.portion
    ensures GetConsumption(h, others) - GetConsumption(h, mates) == h.greed * (others - mates)
  {
  }

  /** The constructor: stores its arguments and caches the consumption for `mates`. */
  function NewHamster(portion: Int32, greed: Int32, mates: Int32): (h: Hamster)
    ensures h.portion == portion && h.greed == greed && h.mates == mates
    ensures h.CachesConsumption() && IsInt64(h.consumeTotal)
  {
    var partial := Hamster(portion, greed, mates, 0);
    partial.(consumeTotal := GetConsumption(partial, mates))
  }

  /** `CompareTo`: by portion ascending, then by greed descending. */
  function CompareTo(a: Hamster, b: Hamster): (r: int)
    ensures -1 <= r <= 1
    ensures r < 0 <==> a.portion < b.portion || (a.portion == b.portion && a.greed > b.greed)
    ensures r == 0 <==> a.portion == b.portion && a.greed == b.greed
  {
    var result := CompareValues(a.portion, b.portion);
    if result == 0 then CompareValues(b.greed, a.greed) else result
  }

  /** The key the order is lexicographic on: the portion, then the negated greed. */
  function SortKey(h: Hamster): (int, int) {
    (h.portion as int, -(h.greed as int))
  }

  predicate LexLessOrEqual(p: (int, int), q: (int, int)) {
    p.0 < q.0 || (p.0 == q.0 && p.1 <= q.1)
  }

  /** `CompareTo` is the lexicographic order on `SortKey`, ties included. */
  lemma CompareToIsLexicographic(a: Hamster, b: Hamster)
    ensures CompareTo(a, b) <= 0 <==> LexLessOrEqual(SortKey(a), SortKey(b))
    ensures CompareTo(a, b) == 0 <==> SortKey(a) == SortKey(b)
  {
  }

  lemma CompareToAntisymmetric(a: Hamster, b: Hamster)
    ensures Sign(CompareTo(a, b)) == -Sign(CompareTo(b, a))
    ensures CompareTo(a, a) == 0
  {
  }

  lemma CompareToTransitive(a: Hamster, b: Hamster, c: Hamster)
    requires CompareTo(a, b) <= 0 && CompareTo(b, c) <= 0
    ensures CompareTo(a, c) <= 0
  {
    CompareToIsLexicographic(a, b);
    CompareToIsLexicographic(b, c);
    CompareToIsLexicographic(a, c);
  }

  /** `CompareTo` is a total preorder, so it is a valid heap comparer. */
  lemma CompareToIsTotalPreorder()
    ensures TotalPreorder(CompareTo)
  {
    forall a, b, c | CompareTo(a, b) <= 0 && CompareTo(b, c) <= 0
      ensures CompareTo(a, c) <= 0
    {
      CompareToTransitive(a, b, c);
    }
  }

  /**
   * A min-heap of hamsters on their natural order peeks a hamster with the
   * smallest portion, and the greediest among those.
   */
  lemma MinimumHeapPeeksSmallestPortion(capacity: int, h0: BinaryHeap.Heap<Hamster>, h: BinaryHeap.Heap<Hamster>)
    requires BinaryHeap.Create(true, capacity, CompareTo, None) == Success(h0)
    requires h.comparer == h0.comparer && BinaryHeap.HeapOrdered(h.items, h.comparer)
    requires BinaryHeap.Count(h) > 0
    ensures BinaryHeap.Peek(h).Success?
    ensures forall x :: x in h.items ==>
              var best := BinaryHeap.Peek(h).value;
              best.portion <= x.portion && (best.portion == x.portion ==> best.greed >= x.greed)
  {
    CompareToIsTotalPreorder();
    BinaryHeap.MinimumHeapPeeksLeast(capacity, CompareTo, h0, h);
  }
}
