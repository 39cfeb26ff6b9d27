# Median aggregate: growable buffer, quickselect and binary heap

This project models the core of a PostgreSQL extension that computes the
median of a group of values. The element type is known only at run time,
and values can only be compared. It has two parts.

- **median2.c**: the buffer-and-quickselect aggregate.
  - `median2_transfn` appends every non-null value to an aggregate state that
    is a growable array tagged with the element type. The state starts with
    8 slots and doubles when full.
  - `median2_finalfn` resolves a `<=` operator for the captured type. It then
    runs a Lomuto quickselect (`median2_partition`, `median2_swap`,
    `quickselect`) in place. As written the call covers slots [0, len]
    inclusive, one slot past the stored values; the model's final function
    uses the corrected range, exactly the stored values (see "Findings").
- **heap.c**: an insert-only binary heap of type-tagged values.
  - `heap_insert` rejects values of a different type and grows by doubling.
    It writes the new value at the end and sifts it up with `heapify`.
  - `heap_top` peeks at the root.

A PostgreSQL `Datum` is the type parameter `T`. A comparison operator found
in the catalog is an injected comparator `cmp: (T, T) -> bool`. The
comparator is not assumed to be well behaved:

- what the code does to the array (a permutation, the pivot's slot, the
  slots sifting up leaves alone, the edge where the sifted value stops) is
  proved for every comparator;
- the order facts are proved under the condition the source relies on: a
  total preorder for `<=`, a strict weak order for the heap's operator.

Files:

- `common.dfy` (module `Common`): the error and option wrappers, type OIDs,
  the two order conditions, counting and ranks, and permutations confined
  to a range of slots.
- `median2.dfy` (module `Median2`): `MedianState`, the transition and final
  functions, swap, partition and quickselect.
- `heap.dfy` (module `BinaryHeap`): `PolyDatum`, the heap order on sequences,
  the sift-up specification `SiftUp` with its lemmas, and the `Heap` class.

Behaviour worth noting:

- `median2_transfn` never checks the type of later values; only `heap_insert`
  does.
- A state whose type OID is invalid is an error (`elog(ERROR)`, median2.c:135-136),
  not an absent result.
- The Lomuto partition is not stable.

The arguments the final function passes to quickselect are wrong in two ways:
the right bound `len` is inclusive, so one slot past the stored values is
included, and the 1-based rank `len / 2` is one too small. Both are recorded
under "Findings".

## Model

| member | source | states |
|---|---|---|
| Median2.MedianState.constructor | median2.c:37-42 | A new state has a fresh array of 8 slots, each holding the zero-byte Datum `zero`, no values (len 0) and the argument's type OID. |
| Median2.MedianState.Append | median2.c:44-55 | The stored values become the old ones followed by `v`. A full array is replaced by a fresh one of twice the size; otherwise the same array is kept with only slot len changed. The type is unchanged and the capacity stays 8·2ⁿ. |
| Median2.TransFn | median2.c:24-58 | A null value returns the state untouched (also a null state). A value without a state creates a fresh state with a fresh array of 8 zero slots, the first holding that value, tagged with `argType`. A value with a state appends it as `Append` does: a fresh array of twice the size when full, otherwise only slot len changes; the captured type is kept and there is no type check. |
| Median2.Swap | median2.c:60-67 | The array becomes the old one with slots i and j exchanged. |
| Median2.PartitionLoopStep | median2.c:80-85 | One iteration keeps the loop state: slots [left,i) satisfy cmp(x,pivot), [i,j) do not, and the pivot stays in slot right. A value satisfying cmp is exchanged into slot i and i advances; otherwise only j advances. |
| Median2.PartitionLoopEnd | median2.c:86-87 | The final exchange puts the pivot in slot i. Everything before it satisfies cmp(x,pivot) and nothing after it does. |
| Median2.PartitionStep | median2.c:81-84 | One pass of the loop body on the array. The loop state is kept and the slots [left,right] are only permuted. |
| Median2.Partition | median2.c:75-88 | Returns i in [left,right] holding the old a[right]. The range is partitioned around slot i and only permuted among itself; slots outside it are unchanged. |
| Median2.PartitionedIsPlaced | median2.c:75-88 | Under a total preorder the partitioned pivot is at its sorted place in the range. |
| Median2.PivotSelected | median2.c:97-98 | When the pivot lands at rank k it is the selected element of the range. |
| Median2.LeftRecursionDone | median2.c:100-101 | A selection made in [left,index-1] after partitioning is a valid rank-k selection for the whole [left,right]. |
| Median2.RightRecursionDone | median2.c:103-104 | A selection of rank k-(index-left+1) in [index+1,right] is a rank-k selection for the whole [left,right]. |
| Median2.Quickselect | median2.c:90-109 | Fails with OutOfRange exactly when k is not in [1, right-left+1], leaving the array as it was. Otherwise the range is permuted in place (outside slots unchanged) and the result sits in slot left+k-1. Under a total preorder that slot is at its sorted place. |
| Median2.SelectedHasRank | median2.c:90-109 | A selection's value is one of the range's original elements and the array is a permutation of the old one. Under a total preorder the value has 1-based rank k among the range's original elements: fewer than k are below it, at least k are at most it. |
| Median2.LiteralSelectArgsUnsound | median2.c:147 | The arguments as written, (0, len, len/2), cover len+1 slots. They leave the array when the state is full and request rank 0 when it holds one value. |
| Median2.LiteralRangeRank | median2.c:147 | Among the six values 5, 3, 8, 1, 9, 0, the value of rank 2 is exactly 1. |
| Median2.LiteralMedianOfFive | median2.c:147 | On the state `TransFn` builds from the column 5, 3, NULL, 8, 1, 9 (`StateOfFive`: a zeroed 8-slot array holding the five values), the call as written (range [0,5], rank 2) also selects the zero in slot 5 and must return 1. |
| Median2.MedianRangeRank | median2.c:147 | Among the five values 5, 3, 8, 1, 9, the value of rank 3 is exactly 5. |
| Median2.MedianOfFive | median2.c:147 | `FinalFn`, with its corrected call (range [0,4], rank 3), on the same state and a catalog that knows `<=` for int4 must return the median 5. |
| Median2.MedianSelectArgsSound | median2.c:147 | For every non-empty state the corrected arguments stay inside the array and request a rank in range. |
| Median2.FinalFn | median2.c:118-150 | A null state gives no result. An invalid type gives NoType; a missing operator gives OperatorNotFound; an empty state gives OutOfRange. Errors leave the values as they were. Otherwise the result is one of the stored values, the stored values are only permuted, and under a total preorder the result has rank len/2+1 among them. |
| BinaryHeap.Parent | heap.c:112 | The parent of slot i > 0 is a slot below i. |
| BinaryHeap.SiftUpPermutes | heap.c:107-121 | Sifting up from slot i only permutes slots [0,i]. Slots after i are unchanged. |
| BinaryHeap.SiftUpOffPath | heap.c:107-121 | Every slot that is not on the path from i to the root keeps its value. |
| BinaryHeap.SiftUpLands | heap.c:109-119 | The sifted value ends on i's root path, either at the root or under a parent p with cmp(p, value). These are the two exits of heapify. |
| BinaryHeap.SiftUpStep | heap.c:116-119 | Under a strict weak order, exchanging an out-of-order node with its parent moves the single heap-order exception one level up. |
| BinaryHeap.SiftUpStop | heap.c:109-115 | Under a strict weak order, stopping at the root or where cmp(parent,node) holds leaves the sequence heap-ordered. |
| BinaryHeap.SiftUpOrders | heap.c:107-121 | Under a strict weak order, sifting up the single out-of-order slot makes the sequence heap-ordered. |
| BinaryHeap.SiftUpPrefix | heap.c:81-82 | Sifting up from a slot below n gives, on the first n slots, the sift-up of those slots alone, and leaves the slots from n on unchanged. |
| BinaryHeap.SiftUpInsert | heap.c:81-83 | Appending a value and sifting it up adds exactly that value to the multiset. Under a strict weak order it turns a heap into a heap. |
| BinaryHeap.RootIsMinimal | heap.c:88-105 | Under a strict weak order nothing in a heap-ordered sequence is below its root. |
| BinaryHeap.Heap.constructor | heap.c:11-38 | A new heap has no values, the invalid type OID, the given comparator and `capacity` slots. |
| BinaryHeap.Heap.Heapify | heap.c:107-121 | The array becomes SiftUp of the old array from slot idx. |
| BinaryHeap.Heap.Grow | heap.c:70-79 | A full heap gets a fresh array of twice the size, with the stored values kept in place. |
| BinaryHeap.Heap.Push | heap.c:81-83 | The value is written to slot len and sifted up, and len grows by one. The multiset of stored values gains exactly that value, and the heap stays valid. |
| BinaryHeap.Heap.Insert | heap.c:46-86 | A null value changes nothing. The first value goes into slot 0, sets len to 1 and captures its type. A value of another type fails with TypeMismatch and changes nothing. Otherwise a full array is doubled and the stored values become SiftUp of the old ones plus the value (the multiset gains exactly the value), with the heap order kept under a strict weak order. |
| BinaryHeap.Heap.Top | heap.c:88-105 | Returns the captured type, and null exactly when the heap is empty. Otherwise it returns slot 0, which is one of the stored values. Under a strict weak order no stored value is below it. |

## Left out

- Integer widths: lengths, capacities and indices are unbounded. The int32
  overflow of `2 * cap`, of `len++` and of the `Size` arithmetic is not modelled.
- The PostgreSQL calling convention is not modelled: `PG_FUNCTION_ARGS`,
  `AggCheckCallContext` and its "non-aggregate context" errors (median2.c:31-32, 126-127),
  and `PG_GETARG_BYTEA_P`.
- Memory contexts, `MemoryContextAllocZero`, `repalloc`, `palloc`/`pfree` and `heap_free`
  are not modelled. The varlena size arithmetic (`SET_VARSIZE`, `MEDIAN_STATE_CAPACITY`) is
  replaced by the array's length. The never-used `cap` field of `MedianState` is
  dropped, and so is the `capacity` field of `Heap`, which always equals the array's length.
- Median2.TransFn: a `repalloc` that moves the state is modelled as the same state
  object with a fresh array, so the address of the state is not captured.
- BinaryHeap.Heap.Insert: `Heap` is passed and returned by value in the source;
  the model updates one heap object in place.
- Catalog and function-manager calls (`OpernameGetOprid`, `get_opcode`,
  `fmgr_info_cxt`, `FunctionCall2Coll`, collations) are foreign code.
  - The comparator is a parameter.
  - The final function's lookup is a parameter `lteFor`. Its two failures
    (no operator, no procedure) both give OperatorNotFound.
- The operator lookup in `heap_alloc`, which is made for `InvalidOid` before
  any value is seen, is also foreign code; the heap constructor takes the
  resolved comparator.
- BinaryHeap.Heap.constructor: requires a capacity of at least 1. `heap_alloc`
  accepts any `int32`, but with a capacity of 0 the first insert writes past
  the buffer (heap.c:58).
- Growth copies into slots whose later contents are `palloc` garbage in the source;
  the model's new slots hold the type's default value, and no contract speaks about them.
- The averaging of the two middle elements for even-length inputs is a TODO in the
  source (median2.c:146) and is not modelled.
- A leading null value with no state returns `PG_RETURN_BYTEA_P(NULL)` (median2.c:35),
  a zero address that the host may then pass back as a non-null state and that
  median2.c:28 and median2.c:132-133 would read. This belongs to the calling convention;
  the model treats it as "no state".
- median.c is an unrelated stub and is not part of this model.
- Median2.Quickselect and Median2.FinalFn state the rank of the result only under a
  total preorder, and BinaryHeap.Heap.Top states minimality only under a strict weak
  order. For other comparators the model proves only the permutation and slot facts.

## Findings

| source | as written | input that shows it | evidently intended | confidence | as-written member | corrected member |
|---|---|---|---|---|---|---|
| median2.c:147 | `quickselect(median_state->data, 0, median_state->len, median_state->len / 2, ...)`: inclusive right bound `len`, 1-based rank `len / 2` | A state holding 8 values in its 8 slots: the range [0, 8] reads and swaps slot 8, past the array. A state holding one value asks for rank 0 and raises the "out of bounds" error of median2.c:107. With 1 < len < 8, while the state has never grown, the zero that MemoryContextAllocZero left in the extra slot takes part (after a growth it is uninitialised memory): 5, 3, 8, 1, 9 in an 8-slot state give 1 instead of 5. | Bounds 0 and len - 1 with rank len / 2 + 1: the middle (upper median) of the stored values | not executed | Median2.LiteralSelectArgsUnsound, Median2.LiteralMedianOfFive | Median2.MedianSelectArgsSound, Median2.FinalFn, Median2.MedianOfFive |
