/**
 * Definitions shared by the three collection templates: the result codes
 * their methods return, the laws a comparer must obey for sorting to be
 * meaningful, and the sequence operations that specify the list mutators.
 */
module Collections {

  /** The result codes of the collection methods (E_SUCCESS, E_OUT_OF_RANGE, ...). */
  datatype Result = Success | OutOfRange | ObjNotFound | ObjAlreadyExist | InvalidArg | InvalidOperation

  /**
   * The range check shared by GetItemsN, the ranged IndexOf and RemoveItems:
   * both numbers non-negative, the start inside the list and the slice
   * ending no later than the end of the list.
   */
  predicate ValidRange(startIndex: int, n: int, count: int) {
    startIndex >= 0 && n >= 0 && startIndex < count && n <= count && startIndex + n <= count
  }

  /**
   * A comparer returns a negative, zero or positive number. It orders its
   * arguments consistently when swapping them flips the sign and when
   * "not greater than" is transitive: a total preorder.
   */
  ghost predicate IsTotalPreorder<T(!new)>(cmp: (T, T) -> int) {
    (forall x, y :: cmp(x, y) < 0 <==> cmp(y, x) > 0) &&
    (forall x, y, z {:trigger cmp(x, y), cmp(y, z), cmp(x, z)} :: cmp(x, y) <= 0 && cmp(y, z) <= 0 ==> cmp(x, z) <= 0)
  }

  /** A sequence is sorted when no element compares greater than a later one. */
  ghost predicate SortedBy<T>(s: seq<T>, cmp: (T, T) -> int) {
    forall i, j :: 0 <= i < j < |s| ==> cmp(s[i], s[j]) <= 0
  }

  /** Every element of `left` compares not greater than every element of `right`. */
  ghost predicate AllNotGreater<T>(left: seq<T>, right: seq<T>, cmp: (T, T) -> int) {
    forall i, j :: 0 <= i < |left| && 0 <= j < |right| ==> cmp(left[i], right[j]) <= 0
  }

  /** Rearranging `left` keeps it below `right`, and rearranging `right` keeps it above `left`. */
  lemma PermutationKeepsSplit<T>(left: seq<T>, left': seq<T>, right: seq<T>, right': seq<T>, cmp: (T, T) -> int)
    requires AllNotGreater(left, right, cmp)
    requires multiset(left') == multiset(left) && multiset(right') == multiset(right)
    ensures AllNotGreater(left', right', cmp)
  {
    forall i, j | 0 <= i < |left'| && 0 <= j < |right'|
      ensures cmp(left'[i], right'[j]) <= 0
    {
      assert left'[i] in multiset(left');
      assert right'[j] in multiset(right');
      var i0 :| 0 <= i0 < |left| && left[i0] == left'[i];
      var j0 :| 0 <= j0 < |right| && right[j0] == right'[j];
    }
  }

  /** Two sorted halves, the first entirely below the second, make a sorted whole. */
  lemma SortedConcat<T>(left: seq<T>, right: seq<T>, cmp: (T, T) -> int)
    requires SortedBy(left, cmp) && SortedBy(right, cmp) && AllNotGreater(left, right, cmp)
    ensures SortedBy(left + right, cmp)
  {
    var s := left + right;
    forall i, j | 0 <= i < j < |s| ensures cmp(s[i], s[j]) <= 0 {
      if j < |left| {
        assert s[i] == left[i] && s[j] == left[j];
      } else if i >= |left| {
        assert s[i] == right[i - |left|] && s[j] == right[j - |left|];
      } else {
        assert s[i] == left[i] && s[j] == right[j - |left|];
      }
    }
  }

  /** `s` with `x` inserted so that it lands at position `i`. */
  function InsertAt<T>(s: seq<T>, i: nat, x: T): (r: seq<T>)
    requires i <= |s|
    ensures |r| == |s| + 1 && r[i] == x
    ensures forall k {:trigger r[k]} :: 0 <= k < i ==> r[k] == s[k]
    ensures forall k {:trigger r[k]} :: i < k < |r| ==> r[k] == s[k - 1]
  {
    if i == 0 then [x] + s else [s[0]] + InsertAt(s[1..], i - 1, x)
  }

  /** Inserting puts `x` between the prefix and the suffix of `s` at `i`, so
      it adds exactly one copy of `x`. */
  lemma InsertAtSlices<T>(s: seq<T>, i: nat, x: T)
    requires i <= |s|
    ensures InsertAt(s, i, x) == s[..i] + [x] + s[i..]
    ensures multiset(InsertAt(s, i, x)) == multiset(s) + multiset{x}
  {
    var a, b := s[..i], s[i..];
    assert s == a + b;
    InsertAtJoin(a, b, x);
    assert multiset(a + [x] + b) == multiset(a) + multiset{x} + multiset(b);
  }

  /** Inserting at the end appends. */
  lemma InsertAtEnd<T>(s: seq<T>, x: T)
    ensures InsertAt(s, |s|, x) == s + [x]
  {
  }

  /** Inserting at the front prepends. */
  lemma InsertAtFront<T>(s: seq<T>, x: T)
    ensures InsertAt(s, 0, x) == [x] + s
  {
  }

  /** Inserting `x` between two parts puts it right after the first. */
  lemma InsertAtJoin<T>(a: seq<T>, b: seq<T>, x: T)
    ensures InsertAt(a + b, |a|, x) == a + [x] + b
  {
  }

  /** A sequence that is `s` with two elements exchanged has the multiset of `s`. */
  lemma SwapKeepsMultiset<T>(s: seq<T>, t: seq<T>, i: int, j: int)
    requires 0 <= i < |s| && 0 <= j < |s| && |t| == |s|
    requires t[i] == s[j] && t[j] == s[i]
    requires forall k :: 0 <= k < |s| && k != i && k != j ==> t[k] == s[k]
    ensures multiset(t) == multiset(s)
  {
    assert t == s[i := s[j]][j := s[i]];
  }

  /** Exchanging two elements inside the slice [lo, hi] keeps the slice's multiset. */
  lemma SwapSliceMultiset<T>(s: seq<T>, lo: int, hi: int, i: int, j: int)
    requires 0 <= lo <= i <= hi < |s| && lo <= j <= hi
    ensures multiset(s[i := s[j]][j := s[i]][lo..hi + 1]) == multiset(s[lo..hi + 1])
  {
    var t := s[i := s[j]][j := s[i]];
    SwapKeepsMultiset(s[lo..hi + 1], t[lo..hi + 1], i - lo, j - lo);
  }

  /** Slots not greater than a pivot, followed by slots not smaller than it,
      are split: each of the first is not greater than each of the second. */
  lemma PivotSplits<T(!new)>(s: seq<T>, lo: int, mid: int, hi: int, p: T, cmp: (T, T) -> int)
    requires 0 <= lo <= mid < hi < |s| && IsTotalPreorder(cmp)
    requires forall k :: lo <= k <= mid ==> cmp(s[k], p) <= 0
    requires forall k :: mid < k <= hi ==> cmp(s[k], p) >= 0
    ensures AllNotGreater(s[lo..mid + 1], s[mid + 1..hi + 1], cmp)
  {
    var left, right := s[lo..mid + 1], s[mid + 1..hi + 1];
    forall x, y | 0 <= x < |left| && 0 <= y < |right| ensures cmp(left[x], right[y]) <= 0 {
      assert left[x] == s[lo + x] && right[y] == s[mid + 1 + y];
      assert cmp(s[lo + x], p) <= 0;
      assert cmp(p, s[mid + 1 + y]) <= 0;
    }
  }

  /** The three steps of QuickSort, stated on the array's contents before and
      after each: partition, sort the left part, sort the right part. */
  lemma SortedParts<T>(s0: seq<T>, s1: seq<T>, s2: seq<T>, s3: seq<T>, lo: int, mid: int, hi: int, cmp: (T, T) -> int)
    requires |s1| == |s0| && |s2| == |s0| && |s3| == |s0| && 0 <= lo <= mid < hi < |s0|
    requires s1[..lo] == s0[..lo] && s1[hi + 1..] == s0[hi + 1..]
    requires multiset(s1[lo..hi + 1]) == multiset(s0[lo..hi + 1])
    requires AllNotGreater(s1[lo..mid + 1], s1[mid + 1..hi + 1], cmp)
    requires s2[..lo] == s1[..lo] && s2[mid + 1..] == s1[mid + 1..]
    requires multiset(s2[lo..mid + 1]) == multiset(s1[lo..mid + 1]) && SortedBy(s2[lo..mid + 1], cmp)
    requires s3[..mid + 1] == s2[..mid + 1] && s3[hi + 1..] == s2[hi + 1..]
    requires multiset(s3[mid + 1..hi + 1]) == multiset(s2[mid + 1..hi + 1]) && SortedBy(s3[mid + 1..hi + 1], cmp)
    ensures s3[..lo] == s0[..lo] && s3[hi + 1..] == s0[hi + 1..]
    ensures multiset(s3[lo..hi + 1]) == multiset(s0[lo..hi + 1])
    ensures SortedBy(s3[lo..hi + 1], cmp)
  {
    var left1, right1 := s1[lo..mid + 1], s1[mid + 1..hi + 1];
    assert s1[lo..hi + 1] == left1 + right1;
    var left2 := s2[lo..mid + 1];
    assert s2[mid + 1..hi + 1] == right1 by {
      assert s2[mid + 1..hi + 1] == s2[mid + 1..][..hi - mid];
      assert s1[mid + 1..hi + 1] == s1[mid + 1..][..hi - mid];
    }
    var right3 := s3[mid + 1..hi + 1];
    assert s3[lo..mid + 1] == left2 by {
      assert s3[lo..mid + 1] == s3[..mid + 1][lo..];
      assert s2[lo..mid + 1] == s2[..mid + 1][lo..];
    }
    SortHalves(left1, left2, right1, right3, cmp);
    assert s3[lo..hi + 1] == left2 + right3;
    assert s3[..lo] == s0[..lo] by {
      assert s3[..lo] == s3[..mid + 1][..lo];
      assert s2[..lo] == s2[..mid + 1][..lo];
    }
    assert s3[hi + 1..] == s0[hi + 1..] by {
      assert s2[hi + 1..] == s2[mid + 1..][hi - mid..];
      assert s1[hi + 1..] == s1[mid + 1..][hi - mid..];
    }
  }

  /** The halves QuickSort sorted separately, one below the other, make a sorted
      permutation of the partitioned slice. */
  lemma SortHalves<T>(left: seq<T>, left': seq<T>, right: seq<T>, right': seq<T>, cmp: (T, T) -> int)
    requires AllNotGreater(left, right, cmp)
    requires multiset(left') == multiset(left) && multiset(right') == multiset(right)
    requires SortedBy(left', cmp) && SortedBy(right', cmp)
    ensures SortedBy(left' + right', cmp)
    ensures multiset(left' + right') == multiset(left + right)
  {
    PermutationKeepsSplit(left, left', right, right', cmp);
    SortedConcat(left', right', cmp);
  }

  /** `s` with the slice [i, i + n) taken out. */
  function RemoveSlice<T>(s: seq<T>, i: nat, n: nat): (r: seq<T>)
    requires i + n <= |s|
    ensures |r| == |s| - n
    ensures forall k {:trigger r[k]} :: 0 <= k < i ==> r[k] == s[k]
    ensures forall k {:trigger r[k]} :: i <= k < |r| ==> r[k] == s[k + n]
  {
    if i == 0 then s[n..] else [s[0]] + RemoveSlice(s[1..], i - 1, n)
  }

  /** Removing one more element where a slice was taken out widens the slice. */
  lemma RemoveSliceWiden<T>(s: seq<T>, i: nat, n: nat)
    requires i + n < |s|
    ensures RemoveSlice(RemoveSlice(s, i, n), i, 1) == RemoveSlice(s, i, n + 1)
  {
  }

  /** The position of the first occurrence of `x` in `s`. */
  function FirstIndex<T(==)>(s: seq<T>, x: T): (i: nat)
    requires x in s
    ensures i < |s| && s[i] == x
    ensures forall k :: 0 <= k < i ==> s[k] != x
  {
    if s[0] == x then 0 else 1 + FirstIndex(s[1..], x)
  }

  /** `s` without the first occurrence of `x`; `s` itself when `x` does not occur. */
  function RemoveFirst<T(==)>(s: seq<T>, x: T): (r: seq<T>)
  {
    if x in s then RemoveSlice(s, FirstIndex(s, x), 1) else s
  }

  /** Removing the first occurrence of an element takes away exactly one copy of it and nothing else. */
  lemma RemoveFirstMultiset<T>(s: seq<T>, x: T)
    requires x in s
    ensures |RemoveFirst(s, x)| == |s| - 1
    ensures multiset(RemoveFirst(s, x)) + multiset{x} == multiset(s)
  {
    RemoveOneMultiset(s, FirstIndex(s, x));
  }

  /** Taking out the element at position i takes one copy of it out of the multiset. */
  lemma {:induction false} RemoveOneMultiset<T>(s: seq<T>, i: nat)
    requires i < |s|
    ensures multiset(RemoveSlice(s, i, 1)) + multiset{s[i]} == multiset(s)
    decreases i
  {
    assert s == [s[0]] + s[1..];
    if i > 0 {
      RemoveOneMultiset(s[1..], i - 1);
    }
  }

}
