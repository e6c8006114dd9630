# Binary heap, Hamster order and the Ijones corridor counter, in Dafny

This project models three self-contained pieces of a C# algorithms-course repository and proves properties of them.

- `BinaryHeap<TKey>` (lngpok/BinaryHeap.cs) is an array-backed binary heap. Its ordering is picked at construction: an explicit comparer, the natural `CompareTo` (`minimum`, a min-heap) or that comparison reversed (a max-heap). `Add` appends an item and bubbles it up. `Peek` returns the root. `Remove` moves the last item to the root and bubbles it down. Both `Peek` and `Remove` throw on an empty heap.
- `Hamster` (hamstr/Hamster.cs) is a record of portion, greed and mates. It computes the linear consumption `Portion + Greed * mates` and is ordered by portion ascending, then greed descending.
- `Ijones.Solve` (ijones/ijones.cs) counts the walks through a corridor of symbols. A walk starts in the leftmost column and ends at the top or bottom cell of the rightmost column. Each move steps to the next cell of the row, or jumps to any cell further right with the same symbol. The count is a right-to-left dynamic program over a 2-D table, with per-symbol running totals.

Files:

- `wrappers.dfy` defines `Option` and `Result`, which stand for C#'s null and its exceptions.
- `comparison.dfy` defines the C# integer ranges, `Sign`, and `TotalPreorder`. `TotalPreorder` is the comparer law shared by the heap and the Hamster order.
- `binary_heap.dfy` holds the heap. It is a value `Heap(items, comparer)`. The operations are functions and methods that return the new heap. `Valid` (a total-preorder comparer plus heap order) is the class invariant.
- `hamster.dfy` holds the Hamster record and its order. It also proves that a min-heap of hamsters peeks the right one.
- `ijones_recurrence.dfy` holds two definitions of the corridor count. `Cell` is the recurrence the table is filled with. `Paths` counts walks directly from the move rule. A lemma proves the two equal.
- `ijones.dfy` holds `Solve`. It uses an `array2<int>` table and `map<char, int>` dictionaries, as the C# code does.

Two behaviours of the code worth knowing:

- `BubbleUp` also swaps on a tie, because `GetBestIndex` picks the parent only when it is strictly better. `BubbleDown` likewise swaps with an equal child. Heap order still holds.
- C#'s `(childIndex - 1) / 2` truncates toward zero, so index 0 is its own parent. `ParentIndex` writes this out, because Dafny's `/` would give -1.

## Model

| member | source | states |
|---|---|---|
| BinaryHeap.Create | lngpok/BinaryHeap.cs:12-28 | A negative capacity fails, because `new List(capacity)` throws. Otherwise the heap starts empty. A given comparer is used as is. Without one, the comparer has the sign of `CompareTo` when `minimum` is set and the opposite sign when it is not (corrected reversal, see Findings). The heap is `Valid` whenever the chosen ordering is a total preorder. |
| BinaryHeap.MinimumHeapPeeksLeast | lngpok/BinaryHeap.cs:171-177 | In a heap built with `minimum` and no comparer, `Peek` returns an item that `CompareTo` ranks no greater than any stored item. |
| BinaryHeap.MaximumHeapPeeksGreatest | lngpok/BinaryHeap.cs:179-185 | In a heap built without `minimum` and no comparer, `Peek` returns an item that `CompareTo` ranks no smaller than any stored item. |
| BinaryHeap.LesserCompare | lngpok/BinaryHeap.cs:179-185 | The reversed comparer (corrected form) stays within int range. Its sign is always the opposite of `CompareTo`'s sign. |
| BinaryHeap.ReversedIsTotalPreorder | lngpok/BinaryHeap.cs:179-185 | Reversing a total preorder gives a total preorder, so a max-heap comparer is a valid heap comparer. |
| BinaryHeap.Wrap32 | lngpok/BinaryHeap.cs:183 | Unchecked 32-bit arithmetic always yields an int that is congruent to the exact value modulo 2^32. It leaves values already in range unchanged. |
| BinaryHeap.LesserCompareAsWritten | lngpok/BinaryHeap.cs:181-184 | The written `x.CompareTo(y) * -1` is always an int. It negates every int comparison result except int.MinValue, which it returns unchanged. |
| BinaryHeap.Reversed | lngpok/BinaryHeap.cs:179-185 | The comparer a max-heap gets (corrected reversal, see Findings): every result is an int whose sign is the opposite of `CompareTo`'s. |
| BinaryHeap.LesserComparerAsWrittenIsNotReversed | lngpok/BinaryHeap.cs:183 | As written, the reversal of a valid comparer that returns int.MinValue is not a total preorder: 0 and 1 each come out better than the other. Between 0 and 1, `GetBestIndex` then keeps the smaller item 0 on top of a max-heap. |
| BinaryHeap.LesserCompareAsWrittenAgreesOffMinValue | lngpok/BinaryHeap.cs:183 | For every int comparison result other than int.MinValue, the written reversal has the same sign as the intended one. |
| BinaryHeap.ParentIndex | lngpok/BinaryHeap.cs:156-159 | The parent of a non-root index is strictly smaller than it, and the index is that parent's left or right child. The root is its own parent. |
| BinaryHeap.LeftChildIndex | lngpok/BinaryHeap.cs:161-164 | The left child lies after its parent, and `ParentIndex` maps it back to that parent. |
| BinaryHeap.RightChildIndex | lngpok/BinaryHeap.cs:166-169 | The right child lies after its parent, and `ParentIndex` maps it back to that parent. |
| BinaryHeap.HasChildren | lngpok/BinaryHeap.cs:139-142 | A slot has children exactly when some stored item other than the root has that slot as its parent. |
| BinaryHeap.Count | lngpok/BinaryHeap.cs:34-37 | The count is the number of stored items, duplicates included. |
| BinaryHeap.Swap | lngpok/BinaryHeap.cs:149-154 | The two items trade places and every other item stays put. The multiset of items is unchanged. |
| BinaryHeap.GetBestIndex | lngpok/BinaryHeap.cs:121-124 | Returns one of its two indices. It returns the first exactly when that item is strictly better. Under a total preorder, the returned item is no worse than either of the two. |
| BinaryHeap.GetBestChildIndex | lngpok/BinaryHeap.cs:126-137 | Returns an existing child of the parent. Under a total preorder, that child is no worse than any existing child. When both children compare equal, it returns the right one. |
| BinaryHeap.CompareAndSwapWithParent | lngpok/BinaryHeap.cs:105-119 | It swaps exactly when the index is not the root and its parent is not strictly better. It keeps the multiset of items. Under a total preorder, when the index is not the root, the parent slot is afterwards no worse than the child slot. |
| BinaryHeap.SwapUpStep | lngpok/BinaryHeap.cs:83-89 | One bubble-up swap moves the only heap-order violation from an index to its parent. |
| BinaryHeap.BubbleUp | lngpok/BinaryHeap.cs:83-89 | Start from a sequence that is heap-ordered except between one index and its parent. Bubbling up makes it fully heap-ordered, without changing the multiset or the length. The index strictly decreases, so the loop ends. |
| BinaryHeap.LeafClosesDown | lngpok/BinaryHeap.cs:93-96 | If the index has no children, the only possible violation of heap order is empty, so the whole sequence is heap-ordered. |
| BinaryHeap.SwapDownStep | lngpok/BinaryHeap.cs:98-102 | One bubble-down swap with the best child moves the only heap-order violation down to that child. |
| BinaryHeap.BubbleDown | lngpok/BinaryHeap.cs:91-103 | Start from a sequence that is heap-ordered except between one index and its children. Bubbling down makes it fully heap-ordered, without changing the multiset or the length. The index strictly increases, so the recursion ends. |
| BinaryHeap.RootIsBest | lngpok/BinaryHeap.cs:52 | In a heap-ordered sequence under a total preorder, the root is no worse than the item at any index. |
| BinaryHeap.RootIsBestOfAll | lngpok/BinaryHeap.cs:45-53 | The root of a valid, non-empty heap is no worse than every stored item. |
| BinaryHeap.Add | lngpok/BinaryHeap.cs:39-43 | The count grows by one and the multiset gains exactly the new item. The heap stays valid and keeps its comparer. |
| BinaryHeap.Peek | lngpok/BinaryHeap.cs:45-53 | An empty heap gives the "Cannot peek" InvalidOperation error, and only an empty heap does. Otherwise `Peek` returns `items[0]`, and in a valid heap no stored item is strictly better. |
| BinaryHeap.LastToRoot | lngpok/BinaryHeap.cs:62-64 | Moving the last item into the root and dropping the old root breaks heap order at most below the root. Exactly one copy of the old root leaves the multiset. |
| BinaryHeap.Remove | lngpok/BinaryHeap.cs:55-68 | An empty heap gives the "Cannot remove" InvalidOperation error, and only an empty heap does. Otherwise `Remove` returns the old `items[0]`, and no stored item was strictly better. The count drops by one, and exactly one copy of that item leaves the multiset. The rest stays a valid heap with the same comparer. |
| Comparison.CompareValues | hamstr/Hamster.cs:33 | `long.CompareTo` returns -1, 0 or 1. The result is negative exactly when x < y and zero exactly when x == y. |
| Comparison.CompareValuesIsTotalPreorder | hamstr/Hamster.cs:33 | The natural order on integers is a total preorder. |
| Hamstr.NewHamster | hamstr/Hamster.cs:10-16 | The constructor stores portion, greed and mates unchanged. Its cached total agrees with the consumption for the stored `mates` (`CachesConsumption`) and fits in a long. |
| Hamstr.ProductOfInt32Bound | hamstr/Hamster.cs:24 | The product of two ints lies within ±2^62. |
| Hamstr.GetConsumption | hamstr/Hamster.cs:22-25 | For int-range portion, greed and mates, `Portion + Greed * mates` fits in a signed 64-bit long, so the 64-bit computation never overflows. |
| Hamstr.ConsumptionIsAffine | hamstr/Hamster.cs:22-25 | Consumption with no mates equals the portion. Between any two mate counts it changes by greed times their difference, so it equals `Portion + Greed * mates`. |
| Hamstr.CompareTo | hamstr/Hamster.cs:27-39 | Returns -1, 0 or 1. It is negative exactly when the portion is smaller, or the portions are equal and the greed is larger. It is zero exactly when both portion and greed are equal. |
| Hamstr.CompareToIsLexicographic | hamstr/Hamster.cs:33-38 | "Compares at most 0" is the lexicographic order on (portion, -greed), and ties are exactly equal keys. |
| Hamstr.CompareToAntisymmetric | hamstr/Hamster.cs:27-39 | Swapping the two hamsters flips the sign of the result, and every hamster compares equal to itself. |
| Hamstr.CompareToTransitive | hamstr/Hamster.cs:27-39 | If a ≤ b and b ≤ c in the order, then a ≤ c. |
| Hamstr.CompareToIsTotalPreorder | hamstr/Hamster.cs:27-39 | `CompareTo` satisfies the same `TotalPreorder` predicate the heap requires of its comparer. |
| Hamstr.MinimumHeapPeeksSmallestPortion | hamstr/Hamster.cs:5 | A min-heap of hamsters on their natural order peeks a hamster with the smallest portion. Among those, it has the largest greed. |
| IjonesRecurrence.Cell | ijones/ijones.cs:96-105 | A table entry is never negative. In the last column it is 1 on an exit and 0 elsewhere. Further left it adds the entry to its right, when that cell's symbol differs, to the total for its own symbol over the columns further right. |
| IjonesRecurrence.SymbolSum | ijones/ijones.cs:106-112 | The running total for a symbol is never negative. It sums every table entry showing that symbol in the columns from `k` rightward. |
| IjonesRecurrence.ColumnSum | ijones/ijones.cs:81-107 | The part of a column's total collected over its first `count` rows is never negative. |
| IjonesRecurrence.StartSum | ijones/ijones.cs:115-118 | The sum of the first column's entries is never negative. |
| IjonesRecurrence.ExitColumnSum | ijones/ijones.cs:63-77 | The exit column's total for a symbol counts one for the top exit cell when it shows the symbol. It counts one more for the bottom exit cell when there are at least two rows and that cell shows the symbol. When top and bottom show the same symbol, the total is 2. |
| IjonesRecurrence.Paths | ijones/ijones.cs:98-105 | The number of walks from a cell to an exit, counted from the move rule, is never negative. |
| IjonesRecurrence.StepsFrom | ijones/ijones.cs:98-105 | The number of walks whose first move lands in column `k` or further right is never negative. |
| IjonesRecurrence.StepsInColumn | ijones/ijones.cs:98-105 | The number of walks whose first move lands on one of the first `count` cells of column `k` is never negative. |
| IjonesRecurrence.WalkCount | ijones/ijones.cs:115-118 | The number of walks starting in the first `count` cells of the leftmost column is never negative. |
| IjonesRecurrence.StepsInColumnSplit | ijones/ijones.cs:98-105 | The moves into a column split into jumps to same-symbol cells plus the plain step to the next cell. The plain step counts separately only when the next cell shows a different symbol. |
| IjonesRecurrence.StepsFromSplit | ijones/ijones.cs:98-105 | The moves into the columns from `k` rightward are the same-symbol total plus, when `k` is the next column, the plain step to a cell showing a different symbol. |
| IjonesRecurrence.CellCountsPathsFrom | ijones/ijones.cs:79-113 | In every column from `k` rightward, the table entry equals the number of walks from that cell. |
| IjonesRecurrence.CellCountsPaths | ijones/ijones.cs:86-105 | Every table entry equals the number of walks from its cell to an exit. |
| IjonesRecurrence.StartSumCountsWalks | ijones/ijones.cs:115-118 | The sum of the first column of the table is the number of walks through the corridor. |
| IjonesRecurrence.SingleColumnWalks | ijones/ijones.cs:48-51 | A one-column corridor has one walk when it has one row and two otherwise, which is what the early return gives. |
| IjonesRecurrence.ColumnSumSame | ijones/ijones.cs:81-107 | Two corridors that agree on a column's symbols and entries have the same partial total for every symbol over that column. |
| IjonesRecurrence.SameFromSameCells | ijones/ijones.cs:79-113 | Two corridors of one shape that show the same symbols from column `k` rightward have the same table entries there, and the same per-symbol totals. |
| IjonesRecurrence.ColumnEntriesIndependent | ijones/ijones.cs:86-105 | An entry depends only on its own symbol and the columns to its right. Changing the other cells of its column, or any column to its left, leaves it unchanged. |
| Ijones.SeedExitColumn | ijones/ijones.cs:53-77 | The last column holds 1 at the top and bottom exits and 0 elsewhere. The two dictionaries are equal. Every symbol's total equals the sum of the last column's entries showing it, which is 2 when both exits show the same symbol. |
| Ijones.Get | ijones/ijones.cs:86-89 | Reading a total is the same as first inserting 0 for a missing symbol and then reading it. A missing symbol reads 0. |
| Ijones.ComputeEntry | ijones/ijones.cs:83-105 | The entry of row `j`, column `i` is the recurrence's `Cell`. The symbol is then a key of the finished totals, which gain no other key and keep every value. |
| Ijones.AddToTotal | ijones/ijones.cs:91-106 | After the entry is added, the running total of every symbol covers the finished columns plus one more row of column `i`. The symbol becomes a key and no other key is added. |
| Ijones.FillColumn | ijones/ijones.cs:81-107 | Fills column `i` with the recurrence, reading totals only from the columns to its right. The entries of one column therefore do not depend on each other. Afterwards the processing totals include column `i`, and the previous totals still cover only the columns to the right. The columns left of `i` are left as they were. |
| Ijones.SumFirstColumn | ijones/ijones.cs:115-120 | The result is the sum of the first column's entries. |
| Ijones.Solve | ijones/ijones.cs:46-121 | The result is never negative. A one-column corridor gives 1 for one row and 2 otherwise, without reading the corridor. Otherwise the result is the sum of the first column of the recurrence. For a well-shaped corridor it is the number of walks through it. |

## Left out

- BinaryHeap.Add, BinaryHeap.Remove: these require `Valid(h)`, the class invariant every heap built by `Create`, `Add` and `Remove` keeps once its comparer is a total preorder. The C# code accepts any `IComparer`, and gives no ordering guarantee when the comparer breaks the comparer laws.
- BinaryHeap.Create: without a comparer and without `minimum`, the model installs the corrected reversal `Reversed` from the Findings table. The C# constructor installs `LesserComparer` as written, which leaves an int.MinValue result negative. `LesserCompareAsWritten` models that comparer.
- BinaryHeap.LeftChildIndex, BinaryHeap.RightChildIndex, BinaryHeap.HasChildren: indices are unbounded. In C#, `2*parentIndex + 1` wraps for indices of 2^30 and more, so a heap of more than 2^30 items could see a negative child index as existing and throw in `Remove`. Heaps that large are out of scope.
- Ijones.Solve: requires `width >= 1` and, when `width > 1`, a corridor with at least `height` rows of at least `width` symbols. On other input the C# code throws instead: IndexOutOfRange at ijones/ijones.cs:58-59 or 83-84 for a zero width, a zero height, or short or missing rows, and OverflowException at line 54 for a negative dimension. Those exceptions are not modelled.
- Hamstr.Hamster: the datatype's own constructor can build a value whose `consumeTotal` disagrees with the consumption for its `mates`. `CachesConsumption` names the agreement, and only `NewHamster`, the model of the C# constructor, guarantees it. Nothing in the source reads the cached total.
- Hamstr.CompareTo: `CompareTo(null)` throws NullReferenceException in C#. A Dafny datatype value cannot be null, so that case does not arise.
- The heap is an immutable value. The C# class mutates its `List` in place, so the model's operations return the new heap instead.
- The `capacity` argument only sizes the backing `List` in advance. The model keeps it only for the error a negative value raises.
- The two-argument constructor (lngpok/BinaryHeap.cs:30-32) is `Create` with no comparer.
- `GetEnumerator` (lngpok/BinaryHeap.cs:70-81) yields the `Count` items in internal array order. That order is the `items` sequence of the model. Iteration is not modelled further.
- `Hamster.ToString` and the commented-out alternative comparisons (hamstr/Hamster.cs:29-31, 41-44) are formatting and dead code.
- `Portion` and `Greed` are `long` properties. The model types them as 32-bit values, because the only constructor fills them from `int` arguments.
- `Ijones.Main`, `Run` and `ReadInputFile` (ijones/ijones.cs:10-44, 123-140) handle command-line arguments and files. They are I/O.
- The C# `solutions[j, i]` is built by `=` followed by two `+=`. The model adds into a local and stores the entry once. The branches and the stored value are the same.
- A C# `char` is a UTF-16 code unit, while a Dafny `char` is a Unicode scalar value. `Solve` only compares symbols for equality.
- Graph, Vertex, Edge and the BFS, DFS, Dijkstra and Tarjan algorithms that CommonTests/GraphExtensionsTests.cs and govern/govern.cs use are outside this model.

## Findings

| source | as written | input that shows it | evidently intended | confidence | as-written member | corrected member |
|---|---|---|---|---|---|---|
| lngpok/BinaryHeap.cs:183 | `x.CompareTo(y) * -1` in unchecked 32-bit arithmetic, which maps int.MinValue to itself | A `CompareTo` that returns int.MinValue for (0, 1) and 1 for (1, 0), which the `IComparable` contract allows: the reversed comparer calls each of 0 and 1 better than the other, and a max-heap built by `Add(0)` then `Add(1)` keeps 0 at its root | the reversed ordering, e.g. `-Math.Sign(x.CompareTo(y))` | medium (not executed; only comparers that return int.MinValue trigger it) | BinaryHeap.LesserComparerAsWrittenIsNotReversed | BinaryHeap.LesserCompare |
