/**
 * The buffer-and-quickselect median aggregate of median2.c.
 *
 * The aggregate state (MedianState, median.h) is a growable array of
 * Datums tagged with the element type. median2_transfn appends every
 * non-null value, doubling the array when it is full; median2_finalfn
 * resolves a `<=` operator for the captured type and runs a Lomuto
 * quickselect in place. As written (median2.c:147) that call covers slots
 * [0, len], one past the stored values; the model's final function runs it
 * over exactly the stored values.
 *
 * A Datum is the type parameter T; the `<=` operator is an injected
 * comparator `cmp: (T, T) -> bool`.
 */
module Median2 {
  import opened Common

  /** The number of slots of a freshly created state (median2.c:38). */
  const InitialCapacity: nat := 8

  /** A capacity reachable from the initial one by doubling: 8 * 2^n. */
  ghost predicate DoubledCapacity(c: int)
    decreases c
  {
    c == InitialCapacity || (c > InitialCapacity && c % 2 == 0 && DoubledCapacity(c / 2))
  }

  /**
   * MedianState of median.h. The capacity is the length of `data`: the
   * source derives it from the varlena size (MEDIAN_STATE_CAPACITY); the
   * `cap` field of the struct is never accessed by name (its bytes are
   * those of the varlena length word).
   */
  class MedianState<T(0)> {
    var typeOid: Oid
    var len: nat
    var data: array<T>

    ghost predicate Valid()
      reads this
    {
      DoubledCapacity(data.Length) && len <= data.Length
    }

    /** The stored values, in the order they were appended. */
    ghost function Contents(): seq<T>
      reads this, data
      requires Valid()
    {
      data[..len]
    }

    /**
     * The zeroed state allocated on the first non-null value (median2.c:37-42).
     * `zero` is the Datum made of zero bytes that MemoryContextAllocZero
     * leaves in every slot.
     */
    constructor (argType: Oid, zero: T)
      ensures Valid() && fresh(data)
      ensures typeOid == argType && len == 0 && data.Length == InitialCapacity
      ensures data[..] == seq(InitialCapacity, _ => zero)
    {
      typeOid := argType;
      len := 0;
      data := new T[InitialCapacity](_ => zero);
    }

    /**
     * Grow-if-full and append (median2.c:44-55): when the state is full the
     * array is reallocated at twice the size with the stored prefix kept;
     * then the value goes into slot `len`.
     */
    method Append(v: T)
      requires Valid()
      modifies this, data
      ensures Valid() && typeOid == old(typeOid)
      ensures len == old(len) + 1 && data[old(len)] == v
      ensures Contents() == old(Contents()) + [v]
      ensures old(len) == old(data.Length) ==> fresh(data) && data.Length == 2 * old(data.Length)
      ensures old(len) < old(data.Length) ==> data == old(data) && data[..] == old(data[..])[old(len) := v]
    {
      if len == data.Length {
        var grown := new T[2 * len];
        forall i | 0 <= i < len {
          grown[i] := data[i];
        }
        data := grown;
      }
      data[len] := v;
      len := len + 1;
    }
  }

  /**
   * median2_transfn (median2.c:24-58). `state` is the aggregate state
   * (null before the first non-null value), `value` the argument (None for
   * SQL NULL), `argType` what get_fn_expr_argtype reports for it and `zero`
   * the Datum of zero bytes that fills a newly allocated state.
   */
  method TransFn<T(0)>(state: MedianState?<T>, value: Option<T>, argType: Oid, zero: T) returns (r: MedianState?<T>)
    requires state != null ==> state.Valid()
    modifies if state == null then {} else {state}
    modifies if state == null then {} else {state.data}
    ensures value.None? ==> r == state
    ensures value.None? && state != null ==>
      r.len == old(r.len) && r.data == old(r.data) && r.data[..] == old(r.data[..]) && r.typeOid == old(r.typeOid)
    ensures value.Some? ==> r != null && r.Valid()
    ensures value.Some? && state == null ==>
      && fresh(r) && fresh(r.data) && r.typeOid == argType && r.Contents() == [value.value]
      && r.data[..] == seq(InitialCapacity, _ => zero)[0 := value.value]
    ensures value.Some? && state != null ==>
      && r == state
      && r.typeOid == old(state.typeOid)
      && r.Contents() == old(state.Contents()) + [value.value]
      && (old(state.len) == old(state.data.Length) ==> fresh(r.data) && r.data.Length == 2 * old(state.data.Length))
      && (old(state.len) < old(state.data.Length) ==>
            r.data == old(state.data) && r.data[..] == old(state.data[..])[old(state.len) := value.value])
  {
    if value.None? {
      return state;
    }
    if state == null {
      r := new MedianState(argType, zero);
    } else {
      r := state;
    }
    r.Append(value.value);
  }

  /** median2_swap (median2.c:60-67): exchange slots i and j, nothing else. */
  method Swap<T>(a: array<T>, i: int, j: int)
    requires 0 <= i < a.Length && 0 <= j < a.Length
    modifies a
    ensures a[..] == Exchanged(old(a[..]), i, j)
  {
    var t := a[i];
    a[i] := a[j];
    a[j] := t;
  }

  /**
   * `m[q]` splits `m`: everything before it satisfies cmp(x, m[q]) and
   * nothing after it does. This is what a Lomuto partition leaves behind.
   */
  ghost predicate PartitionedAt<T>(m: seq<T>, q: int, cmp: (T, T) -> bool) {
    && 0 <= q < |m|
    && (forall j :: 0 <= j < q ==> cmp(m[j], m[q]))
    && (forall j :: q < j < |m| ==> !cmp(m[j], m[q]))
  }

  /**
   * The state of median2_partition's loop over s[left..right]: slots
   * [left, i) hold values with cmp(x, pivot), slots [i, j) values without,
   * and the pivot is still in slot `right`.
   */
  ghost predicate PartitionLoop<T>(s: seq<T>, left: int, right: int, i: int, j: int, pivot: T, cmp: (T, T) -> bool) {
    && 0 <= left <= i <= j <= right < |s|
    && s[right] == pivot
    && (forall m :: left <= m < i ==> cmp(s[m], pivot))
    && (forall m :: i <= m < j ==> !cmp(s[m], pivot))
  }

  /** One iteration of median2_partition's loop (median2.c:81-84). */
  lemma PartitionLoopStep<T>(s: seq<T>, left: int, right: int, i: int, j: int, pivot: T, cmp: (T, T) -> bool)
    requires PartitionLoop(s, left, right, i, j, pivot, cmp) && j < right
    ensures cmp(s[j], pivot) ==> PartitionLoop(Exchanged(s, i, j), left, right, i + 1, j + 1, pivot, cmp)
    ensures !cmp(s[j], pivot) ==> PartitionLoop(s, left, right, i, j + 1, pivot, cmp)
  {
    if cmp(s[j], pivot) {
      var t := Exchanged(s, i, j);
      forall m | left <= m < i + 1
        ensures cmp(t[m], pivot)
      {
        if m < i {
          assert t[m] == s[m];
        }
      }
      forall m | i + 1 <= m < j + 1
        ensures !cmp(t[m], pivot)
      {
        if m < j {
          assert t[m] == s[m];
        } else {
          assert t[m] == s[i];
        }
      }
      assert t[right] == pivot;
    }
  }

  /** The final swap of the pivot into slot i (median2.c:86). */
  lemma PartitionLoopEnd<T>(s: seq<T>, left: int, right: int, i: int, pivot: T, cmp: (T, T) -> bool)
    requires PartitionLoop(s, left, right, i, right, pivot, cmp)
    ensures Exchanged(s, i, right)[i] == pivot
    ensures PartitionedAt(Exchanged(s, i, right)[left..right + 1], i - left, cmp)
  {
  }

  /**
   * One pass of median2_partition's loop body (median2.c:81-84): a value
   * with cmp(a[j], pivot) is exchanged into slot i, which then advances.
   */
  method PartitionStep<T>(a: array<T>, left: int, right: int, i: int, j: int, pivot: T,
                          cmp: (T, T) -> bool, ghost s0: seq<T>) returns (i': int)
    requires PartitionLoop(a[..], left, right, i, j, pivot, cmp) && j < right
    requires PermutedWithin(s0, a[..], left, right + 1)
    modifies a
    ensures PartitionLoop(a[..], left, right, i', j + 1, pivot, cmp)
    ensures PermutedWithin(s0, a[..], left, right + 1)
  {
    ghost var cur := a[..];
    PartitionLoopStep(cur, left, right, i, j, pivot, cmp);
    i' := i;
    if cmp(a[j], pivot) {
      SwapPermutes(s0, cur, i, j, left, right + 1);
      Swap(a, i, j);
      i' := i + 1;
    }
  }

  /**
   * median2_partition (median2.c:75-88): Lomuto partition of a[left..right]
   * around the pivot a[right].
   */
  method Partition<T>(a: array<T>, left: int, right: int, cmp: (T, T) -> bool) returns (i: int)
    requires 0 <= left <= right < a.Length
    modifies a
    ensures left <= i <= right
    ensures a[i] == old(a[right])
    ensures PartitionedAt(a[left..right + 1], i - left, cmp)
    ensures PermutedWithin(old(a[..]), a[..], left, right + 1)
  {
    ghost var s0 := a[..];
    var pivot := a[right];
    i := left;
    for j := left to right
      invariant PartitionLoop(a[..], left, right, i, j, pivot, cmp)
      invariant PermutedWithin(s0, a[..], left, right + 1)
    {
      i := PartitionStep(a, left, right, i, j, pivot, cmp, s0);
    }
    ghost var cur := a[..];
    PartitionLoopEnd(cur, left, right, i, pivot, cmp);
    SwapPermutes(s0, cur, i, right, left, right + 1);
    Swap(a, i, right);
  }

  /** Under a total preorder a partitioned pivot is at its sorted place. */
  lemma PartitionedIsPlaced<T(!new)>(m: seq<T>, q: int, cmp: (T, T) -> bool)
    requires TotalPreorder(cmp)
    requires PartitionedAt(m, q, cmp)
    ensures Placed(m, q, cmp)
  {
  }

  /**
   * After recursing into the part left of the pivot, the selected element
   * is at its sorted place in the whole range.
   */
  lemma LeftSelectionPlaced<T(!new)>(m: seq<T>, f: seq<T>, q: int, i: int, cmp: (T, T) -> bool)
    requires TotalPreorder(cmp)
    requires PartitionedAt(m, q, cmp) && |f| == |m| && 0 <= i < q
    requires f[q..] == m[q..] && multiset(f[..q]) == multiset(m[..q])
    requires Placed(f[..q], i, cmp)
    ensures Placed(f, i, cmp)
  {
    var v := f[i];
    assert v in multiset(m[..q]) by {
      assert f[..q][i] == v;
      assert v in multiset(f[..q]);
    }
    var w :| 0 <= w < q && m[w] == v;
    assert cmp(v, m[q]);
    forall j | i < j < |f|
      ensures cmp(v, f[j])
    {
      if j < q {
        assert f[..q][j] == f[j];
      } else {
        assert f[j] == m[j];
      }
    }
    forall j | 0 <= j < i
      ensures cmp(f[j], v)
    {
      assert f[..q][j] == f[j];
    }
  }

  /**
   * After recursing into the part right of the pivot, the selected element
   * is at its sorted place in the whole range.
   */
  lemma RightSelectionPlaced<T(!new)>(m: seq<T>, f: seq<T>, q: int, i: int, cmp: (T, T) -> bool)
    requires TotalPreorder(cmp)
    requires PartitionedAt(m, q, cmp) && |f| == |m| && q < i < |m|
    requires f[..q + 1] == m[..q + 1] && multiset(f[q + 1..]) == multiset(m[q + 1..])
    requires Placed(f[q + 1..], i - q - 1, cmp)
    ensures Placed(f, i, cmp)
  {
    var v := f[i];
    assert v in multiset(m[q + 1..]) by {
      assert f[q + 1..][i - q - 1] == v;
      assert v in multiset(f[q + 1..]);
    }
    var w :| 0 <= w < |m| - q - 1 && m[q + 1..][w] == v;
    assert !cmp(m[q + 1 + w], m[q]);
    assert cmp(m[q], v);
    forall j | 0 <= j < i
      ensures cmp(f[j], v)
    {
      if j <= q {
        assert f[j] == f[..q + 1][j] == m[..q + 1][j] == m[j];
      } else {
        assert f[q + 1..][j - q - 1] == f[j];
      }
    }
    forall j | i < j < |f|
      ensures cmp(v, f[j])
    {
      assert f[q + 1..][j - q - 1] == f[j];
    }
  }

  /** The pivot itself has the requested rank (median2.c:97-98). */
  lemma PivotSelected<T(!new)>(s0: seq<T>, mid: seq<T>, left: int, right: int, index: int, cmp: (T, T) -> bool)
    requires 0 <= left <= index <= right < |s0|
    requires PermutedWithin(s0, mid, left, right + 1) && PartitionedAt(mid[left..right + 1], index - left, cmp)
    ensures Selected(s0, mid, left, right, index - left + 1, mid[index], cmp)
  {
    if TotalPreorder(cmp) {
      PartitionedIsPlaced(mid[left..right + 1], index - left, cmp);
    }
  }

  /** Bookkeeping after recursing into the part left of the pivot (median2.c:100-101). */
  lemma LeftRecursionDone<T(!new)>(s0: seq<T>, mid: seq<T>, fin: seq<T>, left: int, right: int, index: int, k: int, v: T, cmp: (T, T) -> bool)
    requires 0 <= left <= index <= right < |s0| && 1 <= k <= index - left
    requires PermutedWithin(s0, mid, left, right + 1) && PartitionedAt(mid[left..right + 1], index - left, cmp)
    requires Selected(mid, fin, left, index - 1, k, v, cmp)
    ensures Selected(s0, fin, left, right, k, v, cmp)
  {
    assert PermutedWithin(mid, fin, left, index);
    PermutedNested(s0, mid, fin, left, right + 1, left, index);
    if TotalPreorder(cmp) {
      LeftRecursionPlaced(mid, fin, left, right, index, k, cmp);
    }
  }

  /** The order half of LeftRecursionDone, on the slots of the range. */
  lemma LeftRecursionPlaced<T(!new)>(mid: seq<T>, fin: seq<T>, left: int, right: int, index: int, k: int, cmp: (T, T) -> bool)
    requires TotalPreorder(cmp)
    requires 0 <= left <= index <= right < |mid| && 1 <= k <= index - left
    requires PartitionedAt(mid[left..right + 1], index - left, cmp)
    requires PermutedWithin(mid, fin, left, index) && Placed(fin[left..index], k - 1, cmp)
    ensures Placed(fin[left..right + 1], k - 1, cmp)
  {
    var m, f, q := mid[left..right + 1], fin[left..right + 1], index - left;
    assert f[..q] == fin[left..index] && m[..q] == mid[left..index];
    assert f[q..] == fin[index..right + 1] == mid[index..right + 1] == m[q..] by {
      assert fin[index..] == mid[index..];
      assert fin[index..right + 1] == fin[index..][..right + 1 - index];
      assert mid[index..right + 1] == mid[index..][..right + 1 - index];
    }
    LeftSelectionPlaced(m, f, q, k - 1, cmp);
  }

  /** Bookkeeping after recursing into the part right of the pivot (median2.c:103-104). */
  lemma RightRecursionDone<T(!new)>(s0: seq<T>, mid: seq<T>, fin: seq<T>, left: int, right: int, index: int, k: int, v: T, cmp: (T, T) -> bool)
    requires 0 <= left <= index < right < |s0| && index - left + 1 < k <= right - left + 1
    requires PermutedWithin(s0, mid, left, right + 1) && PartitionedAt(mid[left..right + 1], index - left, cmp)
    requires Selected(mid, fin, index + 1, right, k - index + left - 1, v, cmp)
    ensures Selected(s0, fin, left, right, k, v, cmp)
  {
    assert PermutedWithin(mid, fin, index + 1, right + 1);
    assert fin[left + k - 1] == v;
    PermutedNested(s0, mid, fin, left, right + 1, index + 1, right + 1);
    if TotalPreorder(cmp) {
      RightRecursionPlaced(mid, fin, left, right, index, k, cmp);
    }
  }

  /** The order half of RightRecursionDone, on the slots of the range. */
  lemma RightRecursionPlaced<T(!new)>(mid: seq<T>, fin: seq<T>, left: int, right: int, index: int, k: int, cmp: (T, T) -> bool)
    requires TotalPreorder(cmp)
    requires 0 <= left <= index < right < |mid| && index - left + 1 < k <= right - left + 1
    requires PartitionedAt(mid[left..right + 1], index - left, cmp)
    requires PermutedWithin(mid, fin, index + 1, right + 1)
    requires Placed(fin[index + 1..right + 1], k - index + left - 2, cmp)
    ensures Placed(fin[left..right + 1], k - 1, cmp)
  {
    var m, f, q := mid[left..right + 1], fin[left..right + 1], index - left;
    assert f[q + 1..] == fin[index + 1..right + 1] && m[q + 1..] == mid[index + 1..right + 1];
    assert f[..q + 1] == fin[left..index + 1] == mid[left..index + 1] == m[..q + 1] by {
      assert fin[..index + 1] == mid[..index + 1];
      assert fin[left..index + 1] == fin[..index + 1][left..];
      assert mid[left..index + 1] == mid[..index + 1][left..];
    }
    RightSelectionPlaced(m, f, q, k - 1, cmp);
  }

  /**
   * What quickselect leaves behind: `s` is `s0` with slots [left, right]
   * permuted among themselves, the selected value `v` sits in slot
   * left + k - 1, and under a total preorder that slot is at its sorted place.
   */
  ghost predicate Selected<T(!new)>(s0: seq<T>, s: seq<T>, left: int, right: int, k: int, v: T, cmp: (T, T) -> bool) {
    && PermutedWithin(s0, s, left, right + 1)
    && 1 <= k <= right - left + 1
    && s[left + k - 1] == v
    && (TotalPreorder(cmp) ==> Placed(s[left..right + 1], k - 1, cmp))
  }

  /**
   * The value quickselect selects is one of the range's elements, the array
   * is a permutation of what it was, and under a total preorder the value
   * has rank k among the range's original elements.
   */
  lemma SelectedHasRank<T(!new)>(s0: seq<T>, s: seq<T>, left: int, right: int, k: int, v: T, cmp: (T, T) -> bool)
    requires Selected(s0, s, left, right, k, v, cmp)
    ensures multiset(s) == multiset(s0)
    ensures v in s0[left..right + 1]
    ensures TotalPreorder(cmp) ==> HasRank(s0[left..right + 1], v, k, cmp)
  {
    PermutedWithinWhole(s0, s, left, right + 1);
    assert v == s[left..right + 1][k - 1];
    assert v in multiset(s0[left..right + 1]) by {
      assert v in multiset(s[left..right + 1]);
    }
    if TotalPreorder(cmp) {
      PlacedHasRank(s[left..right + 1], k - 1, cmp);
      RankPermutation(s[left..right + 1], s0[left..right + 1], v, k, cmp);
    }
  }

  /**
   * quickselect (median2.c:90-109): the element of 1-based rank k among
   * a[left..right] (inclusive bounds), reordering that range in place.
   * SelectedHasRank spells out what `Selected` means for the caller.
   */
  method Quickselect<T(!new)>(a: array<T>, left: int, right: int, k: int, cmp: (T, T) -> bool) returns (r: Result<T>)
    requires 0 <= left && right < a.Length
    modifies a
    decreases right - left
    ensures r.Err? <==> !(1 <= k <= right - left + 1)
    ensures r.Err? ==> r.error == OutOfRange && a[..] == old(a[..])
    ensures r.Ok? ==> Selected(old(a[..]), a[..], left, right, k, r.value, cmp)
  {
    if 1 <= k <= right - left + 1 {
      ghost var s0 := a[..];
      var index := Partition(a, left, right, cmp);
      ghost var mid := a[..];
      if index - left == k - 1 {
        r := Ok(a[index]);
        PivotSelected(s0, mid, left, right, index, cmp);
      } else if index - left > k - 1 {
        r := Quickselect(a, left, index - 1, k, cmp);
        LeftRecursionDone(s0, mid, a[..], left, right, index, k, r.value, cmp);
      } else {
        r := Quickselect(a, index + 1, right, k - index + left - 1, cmp);
        RightRecursionDone(s0, mid, a[..], left, right, index, k, r.value, cmp);
      }
    } else {
      r := Err(OutOfRange);
    }
  }

  // -----------------------------------------------------------------------
  // The final function
  // -----------------------------------------------------------------------

  /** Arguments of a quickselect call: inclusive bounds and a 1-based rank. */
  datatype SelectArgs = SelectArgs(left: int, right: int, k: int)

  /**
   * Quickselect can run with these arguments over an array of `capacity`
   * slots: it reads no slot outside the array and does not reach the rank
   * error of median2.c:107.
   */
  predicate SelectArgsSound(args: SelectArgs, capacity: int) {
    0 <= args.left && args.right < capacity && 1 <= args.k <= args.right - args.left + 1
  }

  /** The arguments median2_finalfn passes at median2.c:147, as written. */
  function LiteralSelectArgs(len: int): (args: SelectArgs) {
    SelectArgs(0, len, len / 2)
  }

  /**
   * As written, the call at median2.c:147 cannot run on a full state (it
   * reads slot `len`, past the array) nor on a state holding one value (it
   * asks for rank 0), and in every other case its range holds one slot
   * more than the state stores.
   */
  lemma LiteralSelectArgsUnsound(len: int, capacity: int)
    requires 1 <= len <= capacity
    ensures len == capacity ==> !SelectArgsSound(LiteralSelectArgs(len), capacity)
    ensures len == 1 ==> !SelectArgsSound(LiteralSelectArgs(len), capacity)
    ensures LiteralSelectArgs(len).right - LiteralSelectArgs(len).left + 1 == len + 1
  {
  }

  /** `<=` on integers: the operator an integer column resolves to. */
  function IntLe(x: int, y: int): (b: bool) {
    x <= y
  }

  lemma IntLeIsTotalPreorder()
    ensures TotalPreorder(IntLe)
  {
  }

  /** Among 5, 3, 8, 1, 9 and a zeroed slot, rank 2 is held by 1 alone. */
  lemma LiteralRangeRank(v: int)
    requires v in [5, 3, 8, 1, 9, 0]
    ensures HasRank([5, 3, 8, 1, 9, 0], v, 2, IntLe) <==> v == 1
  {
    var below, atMost := StrictlyBelow(IntLe, v), AtMost(IntLe, v);
    forall x
      ensures below(x) == (x < v) && atMost(x) == (x <= v)
    {
      assert below(x) == (IntLe(x, v) && !IntLe(v, x));
      assert atMost(x) == IntLe(x, v);
    }
    CountSix(5, 3, 8, 1, 9, 0, below);
    CountSix(5, 3, 8, 1, 9, 0, atMost);
    var nBelow := (if 5 < v then 1 else 0) + (if 3 < v then 1 else 0) + (if 8 < v then 1 else 0)
      + (if 1 < v then 1 else 0) + (if 9 < v then 1 else 0) + (if 0 < v then 1 else 0);
    var nAtMost := (if 5 <= v then 1 else 0) + (if 3 <= v then 1 else 0) + (if 8 <= v then 1 else 0)
      + (if 1 <= v then 1 else 0) + (if 9 <= v then 1 else 0) + (if 0 <= v then 1 else 0);
    assert Count([5, 3, 8, 1, 9, 0], below) == nBelow;
    assert Count([5, 3, 8, 1, 9, 0], atMost) == nAtMost;
  }

  /** Among 5, 3, 8, 1, 9, rank 3 (the median) is held by 5 alone. */
  lemma MedianRangeRank(v: int)
    requires v in [5, 3, 8, 1, 9]
    ensures HasRank([5, 3, 8, 1, 9], v, 3, IntLe) <==> v == 5
  {
    var below, atMost := StrictlyBelow(IntLe, v), AtMost(IntLe, v);
    forall x
      ensures below(x) == (x < v) && atMost(x) == (x <= v)
    {
      assert below(x) == (IntLe(x, v) && !IntLe(v, x));
      assert atMost(x) == IntLe(x, v);
    }
    CountFive(5, 3, 8, 1, 9, below);
    CountFive(5, 3, 8, 1, 9, atMost);
  }

  lemma CountFive(a: int, b: int, c: int, d: int, e: int, p: int -> bool)
    ensures Count([a, b, c, d, e], p) ==
      (if p(a) then 1 else 0) + (if p(b) then 1 else 0) + (if p(c) then 1 else 0)
      + (if p(d) then 1 else 0) + (if p(e) then 1 else 0)
  {
    assert [e][1..] == [];
    assert Count([e], p) == (if p(e) then 1 else 0);
    assert [d, e][1..] == [e];
    assert Count([d, e], p) == (if p(d) then 1 else 0) + Count([e], p);
    assert [c, d, e][1..] == [d, e];
    assert Count([c, d, e], p) == (if p(c) then 1 else 0) + Count([d, e], p);
    assert [b, c, d, e][1..] == [c, d, e];
    assert Count([b, c, d, e], p) == (if p(b) then 1 else 0) + Count([c, d, e], p);
    assert [a, b, c, d, e][1..] == [b, c, d, e];
  }

  lemma CountSix(a: int, b: int, c: int, d: int, e: int, f: int, p: int -> bool)
    ensures Count([a, b, c, d, e, f], p) ==
      (if p(a) then 1 else 0) + Count([b, c, d, e, f], p)
    ensures Count([b, c, d, e, f], p) ==
      (if p(b) then 1 else 0) + (if p(c) then 1 else 0) + (if p(d) then 1 else 0)
      + (if p(e) then 1 else 0) + (if p(f) then 1 else 0)
  {
    assert [a, b, c, d, e, f][1..] == [b, c, d, e, f];
    CountFive(b, c, d, e, f, p);
  }

  /** The type OID of int4, the type of the values in the scenarios below. */
  const Int4Oid: Oid := 23

  /** The state after the first two values, 5 and 3, of the column below. */
  method StateOfTwo() returns (st: MedianState<int>)
    ensures fresh(st) && fresh(st.data) && st.Valid()
    ensures st.typeOid == Int4Oid && st.len == 2 && st.data[..] == [5, 3, 0, 0, 0, 0, 0, 0]
  {
    var r := TransFn(null, Some(5), Int4Oid, 0);
    assert r.data[..] == [5, 0, 0, 0, 0, 0, 0, 0];
    r := TransFn(r, Some(3), Int4Oid, 0);
    st := r;
  }

  /**
   * The state the transition function builds from the column 5, 3, NULL,
   * 8, 1, 9 of int4 values: a zeroed eight-slot array holding the five
   * values, the NULL skipped.
   */
  method StateOfFive() returns (st: MedianState<int>)
    ensures fresh(st) && fresh(st.data) && st.Valid()
    ensures st.typeOid == Int4Oid && st.len == 5 && st.data[..] == [5, 3, 8, 1, 9, 0, 0, 0]
  {
    var r := StateOfTwo();
    r := TransFn(r, None, Int4Oid, 0);
    r := TransFn(r, Some(8), Int4Oid, 0);
    assert r.data[..] == [5, 3, 8, 0, 0, 0, 0, 0];
    r := TransFn(r, Some(1), Int4Oid, 0);
    assert r.data[..] == [5, 3, 8, 1, 0, 0, 0, 0];
    r := TransFn(r, Some(9), Int4Oid, 0);
    st := r;
  }

  /**
   * The call of median2.c:147 as written, on that state: it searches slots
   * [0, 5], the stored values and a zero, for rank 2 and so must return 1
   * rather than the median 5.
   */
  method LiteralMedianOfFive() returns (r: Result<int>)
    ensures r == Ok(1)
  {
    IntLeIsTotalPreorder();
    var state := StateOfFive();
    var args := LiteralSelectArgs(state.len);
    ghost var s0 := state.data[..];
    r := Quickselect(state.data, args.left, args.right, args.k, IntLe);
    SelectedHasRank(s0, state.data[..], 0, 5, 2, r.value, IntLe);
    assert s0[0..6] == [5, 3, 8, 1, 9, 0];
    LiteralRangeRank(r.value);
  }

  /** The lookup of `<=` for a catalog that knows only int4. */
  function Int4Lookup(t: Oid): (lte: Option<(int, int) -> bool>)
    ensures lte.Some? <==> t == Int4Oid
  {
    if t == Int4Oid then Some(IntLe) else None
  }

  /** The final function with the corrected call, on the same state: the median 5. */
  method MedianOfFive() returns (r: Result<Option<int>>)
    ensures r == Ok(Some(5))
  {
    IntLeIsTotalPreorder();
    var state := StateOfFive();
    assert state.Contents() == [5, 3, 8, 1, 9];
    r := FinalFn(state, Int4Lookup);
    MedianRangeRank(r.value.value);
  }

  /**
   * The arguments this model uses: exactly the stored slots [0, len) and
   * the upper-median rank len / 2 + 1.
   */
  function MedianSelectArgs(len: int): (args: SelectArgs) {
    SelectArgs(0, len - 1, len / 2 + 1)
  }

  /** The corrected arguments are sound for every non-empty state. */
  lemma MedianSelectArgsSound(len: int, capacity: int)
    requires 1 <= len <= capacity
    ensures SelectArgsSound(MedianSelectArgs(len), capacity)
    ensures MedianSelectArgs(len).left == 0 && MedianSelectArgs(len).right == len - 1
  {
  }

  /**
   * median2_finalfn (median2.c:118-150) without its catalog lookups:
   * `lteFor(t)` is the `<=` operator resolved for type t, None when the
   * operator or its procedure is missing. The values are reordered in
   * place by quickselect, which uses MedianSelectArgs rather than the
   * arguments written at median2.c:147.
   */
  method FinalFn<T(0, !new)>(state: MedianState?<T>, lteFor: Oid -> Option<(T, T) -> bool>) returns (r: Result<Option<T>>)
    requires state != null ==> state.Valid()
    modifies if state == null then {} else {state.data}
    ensures state == null ==> r == Ok(None)
    ensures state != null ==> state.Valid()
    ensures state != null && state.typeOid == InvalidOid ==> r == Err(NoType)
    ensures state != null && state.typeOid != InvalidOid && lteFor(state.typeOid).None? ==> r == Err(OperatorNotFound)
    ensures state != null && r.Err? ==> state.data[..] == old(state.data[..])
    ensures state != null && state.typeOid != InvalidOid && lteFor(state.typeOid).Some? ==>
      var lte := lteFor(state.typeOid).value;
      && (state.len == 0 ==> r == Err(OutOfRange))
      && (state.len > 0 ==>
            && r.Ok? && r.value.Some?
            && Selected(old(state.data[..]), state.data[..], 0, state.len - 1, state.len / 2 + 1, r.value.value, lte)
            && r.value.value in old(state.Contents())
            && multiset(state.Contents()) == multiset(old(state.Contents()))
            && (TotalPreorder(lte) ==> HasRank(old(state.Contents()), r.value.value, state.len / 2 + 1, lte)))
  {
    if state == null {
      return Ok(None);
    }
    if state.typeOid == InvalidOid {
      return Err(NoType);
    }
    var lte := lteFor(state.typeOid);
    if lte.None? {
      return Err(OperatorNotFound);
    }
    ghost var s0 := state.data[..];
    var args := MedianSelectArgs(state.len);
    var median := Quickselect(state.data, args.left, args.right, args.k, lte.value);
    if median.Err? {
      return Err(median.error);
    }
    MedianSelected(s0, state.data[..], state.len, median.value, lte.value);
    assert old(state.Contents()) == s0[..state.len] && state.Contents() == state.data[..][..state.len];
    r := Ok(Some(median.value));
  }

  /** What a median selection over the first len slots gives the final function. */
  lemma MedianSelected<T(!new)>(s0: seq<T>, s: seq<T>, len: int, v: T, cmp: (T, T) -> bool)
    requires 1 <= len <= |s0|
    requires Selected(s0, s, 0, len - 1, len / 2 + 1, v, cmp)
    ensures v in s0[..len] && multiset(s[..len]) == multiset(s0[..len])
    ensures TotalPreorder(cmp) ==> HasRank(s0[..len], v, len / 2 + 1, cmp)
  {
    SelectedHasRank(s0, s, 0, len - 1, len / 2 + 1, v, cmp);
    assert s0[0..len] == s0[..len] && s[0..len] == s[..len];
  }
}
