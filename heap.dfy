/**
 * The insert-only binary heap of heap.c.
 *
 * A Heap (heap.h) keeps `len` Datums in the first slots of `data` in
 * array-embedded binary-heap order: the parent of slot i > 0 is slot
 * (i - 1) / 2. heap_insert appends a value and sifts it up (heapify);
 * heap_top peeks at slot 0. The comparison operator resolved by heap_alloc
 * is an injected comparator `cmp: (T, T) -> bool`, where `cmp(parent, node)`
 * means the two are already in order; the Datum is the type parameter T.
 */
module BinaryHeap {
  import opened Common

  /** PolyDatum of polydatum.h: a type tag and a Datum that may be SQL NULL. */
  datatype PolyDatum<T> = PolyDatum(typeOid: Oid, datum: Option<T>)

  // -----------------------------------------------------------------------
  // Heap order on sequences
  // -----------------------------------------------------------------------

  /** The slot holding the parent of slot i (heap.c:112). */
  function Parent(i: int): (p: int)
    requires 0 < i
    ensures 0 <= p < i
  {
    (i - 1) / 2
  }

  /** Slot j lies on the path from slot i up to the root (i included). */
  predicate OnRootPath(j: int, i: int)
    requires 0 <= i
    decreases i
  {
    j == i || (0 < i && OnRootPath(j, Parent(i)))
  }

  /** No node is below its parent: `cmp(child, parent)` never holds. */
  ghost predicate HeapOrdered<T>(s: seq<T>, cmp: (T, T) -> bool) {
    forall c :: 0 < c < |s| ==> !cmp(s[c], s[Parent(c)])
  }

  /**
   * Heap order while a value is being sifted up through slot idx: every
   * edge except the one from idx to its parent is in order, and the
   * children of idx are not below idx's parent either.
   */
  ghost predicate HeapOrderedExcept<T>(s: seq<T>, idx: int, cmp: (T, T) -> bool) {
    && (forall c :: 0 < c < |s| && c != idx ==> !cmp(s[c], s[Parent(c)]))
    && (0 < idx < |s| ==> forall c :: 0 < c < |s| && Parent(c) == idx ==> !cmp(s[c], s[Parent(idx)]))
  }

  /**
   * What heapify (heap.c:107-121) does to the slots: starting at slot i,
   * exchange a node with its parent until it reaches the root or
   * `cmp(parent, node)` holds.
   */
  function SiftUp<T>(s: seq<T>, i: int, cmp: (T, T) -> bool): (r: seq<T>)
    requires 0 <= i < |s|
    ensures |r| == |s|
    decreases i
  {
    if i == 0 || cmp(s[Parent(i)], s[i]) then s
    else SiftUp(Exchanged(s, Parent(i), i), Parent(i), cmp)
  }

  /** The slot where the sifted value comes to rest. */
  function SiftUpSlot<T>(s: seq<T>, i: int, cmp: (T, T) -> bool): (slot: int)
    requires 0 <= i < |s|
    ensures 0 <= slot <= i
    decreases i
  {
    if i == 0 || cmp(s[Parent(i)], s[i]) then i
    else SiftUpSlot(Exchanged(s, Parent(i), i), Parent(i), cmp)
  }

  /** Sifting up from slot i only permutes the slots [0, i]. */
  lemma {:induction false} SiftUpPermutes<T>(s: seq<T>, i: int, cmp: (T, T) -> bool)
    requires 0 <= i < |s|
    ensures PermutedWithin(s, SiftUp(s, i, cmp), 0, i + 1)
    decreases i
  {
    PermutedWithinRefl(s, 0, i + 1);
    if i == 0 || cmp(s[Parent(i)], s[i]) {
      assert SiftUp(s, i, cmp) == s;
    } else {
      var p := Parent(i);
      var t := Exchanged(s, p, i);
      SwapPermutes(s, s, p, i, 0, i + 1);
      SiftUpPermutes(t, p, cmp);
      assert SiftUp(s, i, cmp) == SiftUp(t, p, cmp);
      PermutedNested(s, t, SiftUp(t, p, cmp), 0, i + 1, 0, p + 1);
    }
  }

  /** Sifting up from slot i leaves every slot off i's root path as it was. */
  lemma {:induction false} SiftUpOffPath<T>(s: seq<T>, i: int, j: int, cmp: (T, T) -> bool)
    requires 0 <= i < |s| && 0 <= j < |s| && !OnRootPath(j, i)
    ensures SiftUp(s, i, cmp)[j] == s[j]
    decreases i
  {
    if !(i == 0 || cmp(s[Parent(i)], s[i])) {
      var t := Exchanged(s, Parent(i), i);
      SiftUpOffPath(t, Parent(i), j, cmp);
    }
  }

  /**
   * The sifted value ends on i's root path, at the root or under a parent
   * p with cmp(p, value): where heapify returns (heap.c:109, 114-115).
   */
  lemma {:induction false} SiftUpLands<T>(s: seq<T>, i: int, cmp: (T, T) -> bool)
    requires 0 <= i < |s|
    ensures OnRootPath(SiftUpSlot(s, i, cmp), i)
    ensures SiftUp(s, i, cmp)[SiftUpSlot(s, i, cmp)] == s[i]
    ensures SiftUpSlot(s, i, cmp) == 0 ||
            cmp(SiftUp(s, i, cmp)[Parent(SiftUpSlot(s, i, cmp))], SiftUp(s, i, cmp)[SiftUpSlot(s, i, cmp)])
    decreases i
  {
    if !(i == 0 || cmp(s[Parent(i)], s[i])) {
      var p := Parent(i);
      var t := Exchanged(s, p, i);
      SiftUpLands(t, p, cmp);
      OnRootPathUp(SiftUpSlot(t, p, cmp), p, i);
    }
  }

  /** A slot on the parent's root path is on the child's root path. */
  lemma OnRootPathUp(j: int, p: int, i: int)
    requires 0 < i && p == Parent(i) && OnRootPath(j, p)
    ensures OnRootPath(j, i)
  {
  }

  /** One exchange of heapify moves the exception one level up (heap.c:116-119). */
  lemma SiftUpStep<T(!new)>(s: seq<T>, i: int, cmp: (T, T) -> bool)
    requires StrictWeakOrder(cmp)
    requires 0 < i < |s| && HeapOrderedExcept(s, i, cmp) && !cmp(s[Parent(i)], s[i])
    ensures HeapOrderedExcept(Exchanged(s, Parent(i), i), Parent(i), cmp)
  {
    var p := Parent(i);
    var t := Exchanged(s, p, i);
    forall c | 0 < c < |t| && c != p
      ensures !cmp(t[c], t[Parent(c)])
    {
      if c == i {
        assert t[c] == s[p] && t[p] == s[i];
      } else if Parent(c) == p {
        assert t[c] == s[c] && t[p] == s[i];
        assert !cmp(s[c], s[p]);
      } else if Parent(c) == i {
        assert t[c] == s[c] && t[i] == s[p];
      } else {
        assert t[c] == s[c] && t[Parent(c)] == s[Parent(c)];
      }
    }
    if 0 < p {
      var g := Parent(p);
      assert t[g] == s[g];
      assert !cmp(s[p], s[g]);
      forall c | 0 < c < |t| && Parent(c) == p
        ensures !cmp(t[c], t[g])
      {
        if c == i {
          assert t[c] == s[p];
        } else {
          assert t[c] == s[c];
          assert !cmp(s[c], s[p]);
        }
      }
    }
  }

  /** Where heapify stops, the heap order is whole again (heap.c:109, 114-115). */
  lemma SiftUpStop<T(!new)>(s: seq<T>, i: int, cmp: (T, T) -> bool)
    requires StrictWeakOrder(cmp)
    requires 0 <= i < |s| && HeapOrderedExcept(s, i, cmp)
    requires i == 0 || cmp(s[Parent(i)], s[i])
    ensures HeapOrdered(s, cmp)
  {
    forall c | 0 < c < |s|
      ensures !cmp(s[c], s[Parent(c)])
    {
      if c == i {
        assert cmp(s[Parent(i)], s[i]);
      }
    }
  }

  /** Sifting up from the one out-of-order slot restores the heap order. */
  lemma {:induction false} SiftUpOrders<T(!new)>(s: seq<T>, i: int, cmp: (T, T) -> bool)
    requires StrictWeakOrder(cmp)
    requires 0 <= i < |s| && HeapOrderedExcept(s, i, cmp)
    ensures HeapOrdered(SiftUp(s, i, cmp), cmp)
    decreases i
  {
    if i == 0 || cmp(s[Parent(i)], s[i]) {
      SiftUpStop(s, i, cmp);
    } else {
      SiftUpStep(s, i, cmp);
      SiftUpOrders(Exchanged(s, Parent(i), i), Parent(i), cmp);
    }
  }

  /** Sifting up from slot i < n neither reads nor changes the slots from n on. */
  lemma {:induction false} SiftUpPrefix<T>(s: seq<T>, i: int, n: int, cmp: (T, T) -> bool)
    requires 0 <= i < n <= |s|
    ensures SiftUp(s, i, cmp)[..n] == SiftUp(s[..n], i, cmp)
    ensures SiftUp(s, i, cmp)[n..] == s[n..]
    decreases i
  {
    var r := SiftUp(s, i, cmp);
    SiftUpPermutes(s, i, cmp);
    assert r[n..] == r[i + 1..][n - i - 1..] && s[n..] == s[i + 1..][n - i - 1..];
    if !(i == 0 || cmp(s[Parent(i)], s[i])) {
      var p := Parent(i);
      assert Exchanged(s, p, i)[..n] == Exchanged(s[..n], p, i);
      SiftUpPrefix(Exchanged(s, p, i), p, n, cmp);
    }
  }

  /**
   * Appending a value and sifting it up, as heap_insert does
   * (heap.c:81-83), adds exactly that value and keeps a heap a heap.
   */
  lemma SiftUpInsert<T(!new)>(s: seq<T>, v: T, cmp: (T, T) -> bool)
    ensures multiset(SiftUp(s + [v], |s|, cmp)) == multiset(s) + multiset{v}
    ensures StrictWeakOrder(cmp) && HeapOrdered(s, cmp) ==> HeapOrdered(SiftUp(s + [v], |s|, cmp), cmp)
  {
    var b := s + [v];
    SiftUpPermutes(b, |s|, cmp);
    PermutedWithinWhole(b, SiftUp(b, |s|, cmp), 0, |s| + 1);
    if StrictWeakOrder(cmp) && HeapOrdered(s, cmp) {
      forall c | 0 < c < |b| && c != |s|
        ensures !cmp(b[c], b[Parent(c)])
      {
        assert b[c] == s[c] && b[Parent(c)] == s[Parent(c)];
      }
      SiftUpOrders(b, |s|, cmp);
    }
  }

  /** Under heap order nothing is below the value on slot i's parent chain. */
  lemma {:induction false} RootAbove<T(!new)>(s: seq<T>, i: int, cmp: (T, T) -> bool)
    requires StrictWeakOrder(cmp) && HeapOrdered(s, cmp) && 0 <= i < |s|
    ensures !cmp(s[i], s[0])
    decreases i
  {
    if i > 0 {
      RootAbove(s, Parent(i), cmp);
      assert !cmp(s[i], s[Parent(i)]);
    }
  }

  /** In a heap-ordered sequence the root is a cmp-minimum. */
  lemma RootIsMinimal<T(!new)>(s: seq<T>, cmp: (T, T) -> bool)
    requires |s| > 0
    ensures StrictWeakOrder(cmp) && HeapOrdered(s, cmp) ==> forall i :: 0 <= i < |s| ==> !cmp(s[i], s[0])
  {
    if StrictWeakOrder(cmp) && HeapOrdered(s, cmp) {
      forall i | 0 <= i < |s|
        ensures !cmp(s[i], s[0])
      {
        RootAbove(s, i, cmp);
      }
    }
  }

  // -----------------------------------------------------------------------
  // The heap object
  // -----------------------------------------------------------------------

  /**
   * Heap of heap.h. The capacity is the length of `data` (the source keeps
   * it in a separate field that always equals the allocated slot count).
   */
  class Heap<T(0, !new)> {
    const cmp: (T, T) -> bool
    var typeOid: Oid
    var len: nat
    var data: array<T>

    /** The stored values are heap-ordered when cmp is a strict weak order. */
    ghost predicate Valid()
      reads this, data
    {
      && 1 <= data.Length
      && len <= data.Length
      && (StrictWeakOrder(cmp) ==> HeapOrdered(data[..len], cmp))
    }

    /**
     * heap_alloc (heap.c:11-38) with the operator already resolved: no
     * values, no captured type, `capacity` slots.
     */
    constructor (capacity: nat, cmp: (T, T) -> bool)
      requires 1 <= capacity
      ensures Valid() && fresh(data)
      ensures this.cmp == cmp && typeOid == InvalidOid && len == 0 && data.Length == capacity
    {
      this.cmp := cmp;
      typeOid := InvalidOid;
      len := 0;
      data := new T[capacity];
    }

    /** heapify (heap.c:107-121): sift the value in slot idx up towards the root. */
    method Heapify(idx: int)
      requires 0 <= idx < data.Length
      modifies data
      ensures data[..] == SiftUp(old(data[..]), idx, cmp)
    {
      var i := idx;
      while i > 0
        invariant 0 <= i <= idx
        invariant SiftUp(data[..], i, cmp) == SiftUp(old(data[..]), idx, cmp)
        decreases i
      {
        var parent := Parent(i);
        if cmp(data[parent], data[i]) {
          return;
        }
        ghost var before := data[..];
        var tmp := data[parent];
        data[parent] := data[i];
        data[i] := tmp;
        assert data[..] == Exchanged(before, parent, i);
        i := parent;
      }
    }

    /**
     * heap_insert (heap.c:46-86). A null value leaves the heap as it was;
     * the first value goes into slot 0 and fixes the type; a value of
     * another type is the error of heap.c:64-68 with nothing changed;
     * otherwise a full array is doubled with its values kept, the value is
     * written to slot len and sifted up.
     */
    method Insert(value: PolyDatum<T>) returns (r: Outcome)
      requires Valid()
      modifies this, data
      ensures Valid()
      ensures value.datum.None? ==>
        r == Pass && len == old(len) && typeOid == old(typeOid) && data == old(data) && data[..] == old(data[..])
      ensures value.datum.Some? && old(len) == 0 ==>
        && r == Pass && len == 1 && typeOid == value.typeOid
        && data == old(data) && data[..] == old(data[..])[0 := value.datum.value]
      ensures value.datum.Some? && old(len) > 0 && value.typeOid != old(typeOid) ==>
        && r == Fail(TypeMismatch) && len == old(len) && typeOid == old(typeOid)
        && data == old(data) && data[..] == old(data[..])
      ensures value.datum.Some? && old(len) > 0 && value.typeOid == old(typeOid) ==>
        && r == Pass && len == old(len) + 1 && typeOid == old(typeOid)
        && data[..len] == SiftUp(old(data[..len]) + [value.datum.value], old(len), cmp)
        && multiset(data[..len]) == multiset(old(data[..len])) + multiset{value.datum.value}
        && (old(len) == old(data.Length) ==> fresh(data) && data.Length == 2 * old(data.Length))
        && (old(len) < old(data.Length) ==> data == old(data))
    {
      if value.datum.None? {
        return Pass;
      }
      if len == 0 {
        data[0] := value.datum.value;
        typeOid := value.typeOid;
        len := 1;
        return Pass;
      }
      if typeOid != value.typeOid {
        return Fail(TypeMismatch);
      }
      if len == data.Length {
        Grow();
      }
      Push(value.datum.value);
      return Pass;
    }

    /** The doubling of a full heap (heap.c:70-79): the stored values are kept. */
    method Grow()
      requires Valid() && len == data.Length
      modifies this
      ensures Valid() && fresh(data) && data.Length == 2 * old(data.Length)
      ensures len == old(len) && typeOid == old(typeOid) && data[..len] == old(data[..len])
    {
      var grown := new T[2 * data.Length];
      forall i | 0 <= i < data.Length {
        grown[i] := data[i];
      }
      data := grown;
    }

    /**
     * The write of the value into slot len and its sift-up (heap.c:81-83),
     * on a heap with a free slot.
     */
    method Push(v: T)
      requires Valid() && len < data.Length
      modifies this, data
      ensures Valid() && data == old(data) && typeOid == old(typeOid) && len == old(len) + 1
      ensures data[..len] == SiftUp(old(data[..len]) + [v], old(len), cmp)
      ensures multiset(data[..len]) == multiset(old(data[..len])) + multiset{v}
    {
      ghost var stored := data[..len];
      data[len] := v;
      ghost var buffer := data[..];
      assert buffer[..len + 1] == stored + [v];
      Heapify(len);
      SiftUpPrefix(buffer, len, len + 1, cmp);
      SiftUpInsert(stored, v, cmp);
      len := len + 1;
      assert data[..len] == SiftUp(stored + [v], |stored|, cmp);
      assert StrictWeakOrder(cmp) ==> HeapOrdered(data[..len], cmp);
    }

    /**
     * heap_top (heap.c:88-105): the root with the captured type, or a null
     * PolyDatum when the heap is empty. Under a strict weak order nothing
     * stored is below the root.
     */
    function Top(): (r: PolyDatum<T>)
      reads this, data
      requires Valid()
      ensures r.typeOid == typeOid
      ensures r.datum.None? <==> len == 0
      ensures r.datum.Some? ==> r.datum.value == data[0] && r.datum.value in data[..len]
      ensures r.datum.Some? && StrictWeakOrder(cmp) ==> forall j :: 0 <= j < len ==> !cmp(data[j], r.datum.value)
    {
      if len == 0 then PolyDatum(typeOid, None)
      else
        RootIsMinimal(data[..len], cmp);
        PolyDatum(typeOid, Some(data[0]))
    }
  }
}
