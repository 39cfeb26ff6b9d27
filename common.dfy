/**
 * Definitions shared by the buffer/quickselect model and the heap model:
 * the optional and error-carrying wrappers, PostgreSQL type identities,
 * the ordering assumptions placed on an injected comparator, and counting
 * over sequences (used to state the rank of a selected element).
 */
module Common {

  datatype Option<+T> = None | Some(value: T)

  /** The errors the core raises with elog(ERROR, ...). */
  datatype Error =
    | TypeMismatch      // a value whose type differs from the captured one
    | NoType            // the state never captured a valid type
    | OperatorNotFound  // no comparison operator/procedure for the type
    | OutOfRange        // quickselect rank outside the searched range

  datatype Result<+T> = Ok(value: T) | Err(error: Error)

  datatype Outcome = Pass | Fail(error: Error)

  /** A PostgreSQL type OID; 0 is InvalidOid. */
  type Oid = nat

  const InvalidOid: Oid := 0

  // ---------------------------------------------------------------------
  // Ordering assumptions on an injected comparator
  // ---------------------------------------------------------------------

  /** What a `<=` operator is expected to be: total and transitive. */
  ghost predicate TotalPreorder<T(!new)>(cmp: (T, T) -> bool) {
    && (forall x, y :: cmp(x, y) || cmp(y, x))
    && (forall x, y, z :: cmp(x, y) && cmp(y, z) ==> cmp(x, z))
  }

  /** What a `<` operator is expected to be: asymmetric, and "not below" is transitive. */
  ghost predicate StrictWeakOrder<T(!new)>(cmp: (T, T) -> bool) {
    && (forall x, y :: cmp(x, y) ==> !cmp(y, x))
    && (forall x, y, z :: !cmp(x, y) && !cmp(y, z) ==> !cmp(x, z))
  }

  // ---------------------------------------------------------------------
  // Counting and ranks
  // ---------------------------------------------------------------------

  /** Number of elements of `s` that satisfy `p`. */
  function Count<T>(s: seq<T>, p: T -> bool): (n: nat)
    ensures n <= |s|
  {
    if s == [] then 0 else (if p(s[0]) then 1 else 0) + Count(s[1..], p)
  }

  /** The elements strictly below `v` under a `<=`-style comparator. */
  function StrictlyBelow<T>(cmp: (T, T) -> bool, v: T): (p: T -> bool) {
    x => cmp(x, v) && !cmp(v, x)
  }

  /** The elements below or equal to `v` under a `<=`-style comparator. */
  function AtMost<T>(cmp: (T, T) -> bool, v: T): (p: T -> bool) {
    x => cmp(x, v)
  }

  /**
   * `v` is a k-th smallest (1-based rank k) element of `s`: fewer than k
   * elements are strictly below it and at least k are below or equal to it.
   */
  ghost predicate HasRank<T>(s: seq<T>, v: T, k: int, cmp: (T, T) -> bool) {
    Count(s, StrictlyBelow(cmp, v)) < k <= Count(s, AtMost(cmp, v))
  }

  /**
   * `s[idx]` sits at its sorted place: everything before it is below or
   * equal to it, everything after it is above or equal to it.
   */
  ghost predicate Placed<T>(s: seq<T>, idx: int, cmp: (T, T) -> bool) {
    && 0 <= idx < |s|
    && (forall j :: 0 <= j < idx ==> cmp(s[j], s[idx]))
    && (forall j :: idx < j < |s| ==> cmp(s[idx], s[j]))
  }

  lemma {:induction false} CountAppend<T>(s: seq<T>, t: seq<T>, p: T -> bool)
    ensures Count(s + t, p) == Count(s, p) + Count(t, p)
  {
    if s == [] {
      assert s + t == t;
    } else {
      assert (s + t)[1..] == s[1..] + t;
      CountAppend(s[1..], t, p);
    }
  }

  lemma {:induction false} CountAll<T>(s: seq<T>, p: T -> bool)
    requires forall i :: 0 <= i < |s| ==> p(s[i])
    ensures Count(s, p) == |s|
  {
    if s != [] {
      CountAll(s[1..], p);
    }
  }

  lemma {:induction false} CountNone<T>(s: seq<T>, p: T -> bool)
    requires forall i :: 0 <= i < |s| ==> !p(s[i])
    ensures Count(s, p) == 0
  {
    if s != [] {
      CountNone(s[1..], p);
    }
  }

  /** Taking out the element at index j lowers the count by its own share. */
  lemma {:induction false} CountRemove<T>(t: seq<T>, j: int, p: T -> bool)
    requires 0 <= j < |t|
    ensures Count(t, p) == Count(t[..j] + t[j + 1..], p) + (if p(t[j]) then 1 else 0)
  {
    if j == 0 {
      assert t[..j] + t[j + 1..] == t[1..];
    } else {
      var r := t[..j] + t[j + 1..];
      assert r[0] == t[0];
      assert r[1..] == t[1..][..j - 1] + t[1..][j..];
      CountRemove(t[1..], j - 1, p);
    }
  }

  lemma MultisetRemove<T>(t: seq<T>, j: int)
    requires 0 <= j < |t|
    ensures multiset(t[..j] + t[j + 1..]) == multiset(t) - multiset{t[j]}
  {
    assert t == t[..j] + [t[j]] + t[j + 1..];
  }

  /** Counting does not depend on the order of the elements. */
  lemma {:induction false} CountPermutation<T>(s: seq<T>, t: seq<T>, p: T -> bool)
    requires multiset(s) == multiset(t)
    ensures Count(s, p) == Count(t, p)
  {
    if s == [] {
      assert |multiset(t)| == 0;
    } else {
      var x := s[0];
      assert x in multiset(t) by { assert x in multiset(s); }
      var j :| 0 <= j < |t| && t[j] == x;
      var rest := t[..j] + t[j + 1..];
      MultisetRemove(t, j);
      assert s == [x] + s[1..];
      assert multiset(s[1..]) == multiset(rest);
      CountPermutation(s[1..], rest, p);
      CountRemove(t, j, p);
    }
  }

  /**
   * An element at its sorted place, at 0-based index idx, has 1-based rank
   * idx + 1 under a total preorder.
   */
  lemma PlacedHasRank<T(!new)>(s: seq<T>, idx: int, cmp: (T, T) -> bool)
    requires TotalPreorder(cmp)
    requires Placed(s, idx, cmp)
    ensures HasRank(s, s[idx], idx + 1, cmp)
  {
    var v := s[idx];
    var lo, mid, hi := s[..idx], [v], s[idx + 1..];
    assert s == lo + mid + hi;
    CountAppend(lo + mid, hi, StrictlyBelow(cmp, v));
    CountAppend(lo, mid, StrictlyBelow(cmp, v));
    CountAppend(lo + mid, hi, AtMost(cmp, v));
    CountAppend(lo, mid, AtMost(cmp, v));
    CountNone(hi, StrictlyBelow(cmp, v));
    CountAll(lo + mid, AtMost(cmp, v));
  }

  /** The rank of a value is the same in any permutation of the sequence. */
  lemma RankPermutation<T>(s: seq<T>, t: seq<T>, v: T, k: int, cmp: (T, T) -> bool)
    requires multiset(s) == multiset(t)
    ensures HasRank(s, v, k, cmp) <==> HasRank(t, v, k, cmp)
  {
    CountPermutation(s, t, StrictlyBelow(cmp, v));
    CountPermutation(s, t, AtMost(cmp, v));
  }

  // ---------------------------------------------------------------------
  // Permutations confined to a range of slots
  // ---------------------------------------------------------------------

  /**
   * `t` is `s` with the slots in [lo, hi) permuted among themselves and
   * every slot outside that range left as it was.
   */
  ghost predicate PermutedWithin<T>(s: seq<T>, t: seq<T>, lo: int, hi: int) {
    && 0 <= lo <= hi <= |s| == |t|
    && s[..lo] == t[..lo]
    && s[hi..] == t[hi..]
    && multiset(s[lo..hi]) == multiset(t[lo..hi])
  }

  /** Leaving every slot in place is a range permutation. */
  lemma PermutedWithinRefl<T>(s: seq<T>, lo: int, hi: int)
    requires 0 <= lo <= hi <= |s|
    ensures PermutedWithin(s, s, lo, hi)
  {
  }

  /** `s` with the values in slots i and j exchanged. */
  function Exchanged<T>(s: seq<T>, i: int, j: int): (t: seq<T>)
    requires 0 <= i < |s| && 0 <= j < |s|
  {
    s[i := s[j]][j := s[i]]
  }

  /** Exchanging two slots keeps the multiset. */
  lemma SwapKeepsMultiset<T>(w: seq<T>, x: int, y: int)
    requires 0 <= x < |w| && 0 <= y < |w|
    ensures multiset(w[x := w[y]][y := w[x]]) == multiset(w)
  {
  }

  /** Exchanging two slots of the range keeps a range permutation. */
  lemma SwapPermutes<T>(s: seq<T>, t: seq<T>, i: int, j: int, lo: int, hi: int)
    requires PermutedWithin(s, t, lo, hi) && lo <= i < hi && lo <= j < hi
    ensures PermutedWithin(s, Exchanged(t, i, j), lo, hi)
  {
    var u := Exchanged(t, i, j);
    var w := t[lo..hi];
    var v := Exchanged(w, i - lo, j - lo);
    assert u[..lo] == t[..lo];
    assert u[hi..] == t[hi..];
    forall k | lo <= k < hi
      ensures u[k] == v[k - lo]
    {
    }
    assert u[lo..hi] == v;
    SwapKeepsMultiset(w, i - lo, j - lo);
  }

  /** A permutation of a sub-range, after one of the range, is one of the range. */
  lemma PermutedNested<T>(s: seq<T>, t: seq<T>, u: seq<T>, lo: int, hi: int, lo2: int, hi2: int)
    requires PermutedWithin(s, t, lo, hi) && PermutedWithin(t, u, lo2, hi2)
    requires lo <= lo2 <= hi2 <= hi
    ensures PermutedWithin(s, u, lo, hi)
  {
    assert u[..lo] == u[..lo2][..lo] && t[..lo] == t[..lo2][..lo];
    assert u[hi..] == u[hi2..][hi - hi2..] && t[hi..] == t[hi2..][hi - hi2..];
    assert u[lo..hi] == u[lo..lo2] + u[lo2..hi2] + u[hi2..hi];
    assert t[lo..hi] == t[lo..lo2] + t[lo2..hi2] + t[hi2..hi];
    assert u[lo..lo2] == u[..lo2][lo..] && t[lo..lo2] == t[..lo2][lo..];
    assert u[hi2..hi] == u[hi2..][..hi - hi2] && t[hi2..hi] == t[hi2..][..hi - hi2];
  }

  /** A range permutation is a permutation of the whole sequence. */
  lemma PermutedWithinWhole<T>(s: seq<T>, t: seq<T>, lo: int, hi: int)
    requires PermutedWithin(s, t, lo, hi)
    ensures multiset(s) == multiset(t)
  {
    assert s == s[..lo] + s[lo..hi] + s[hi..];
    assert t == t[..lo] + t[lo..hi] + t[hi..];
  }
}
