/**
 * ArrayListT: a list kept in a growable array. The array holds `count`
 * elements in its first slots and has room for `capacity`; every mutator
 * bumps `modCount`, which the fail-fast enumerator compares against.
 */
module ArrayLists {
  import opened Collections

  /** How much Add and InsertAt grow a full array by. */
  const DEFAULT_CAPACITY: nat := 10

  /** What RemoveItems(collection) leaves and returns: it removes the items
      in order and stops at the first one that is no longer in the list. */
  function RemoveEach<T(==)>(s: seq<T>, items: seq<T>): (seq<T>, Result)
    decreases |items|
  {
    if items == [] then (s, Success)
    else if items[0] in s then RemoveEach(RemoveFirst(s, items[0]), items[1..])
    else (s, ObjNotFound)
  }

  /** RemoveEach either removes every item, one copy each, or stops at an item it
      cannot find; it never returns anything but those two codes. */
  lemma {:induction false} RemoveEachCounts<T>(s: seq<T>, items: seq<T>)
    ensures RemoveEach(s, items).1 == Success || RemoveEach(s, items).1 == ObjNotFound
    ensures RemoveEach(s, items).1 == Success ==>
      multiset(RemoveEach(s, items).0) + multiset(items) == multiset(s)
    ensures |RemoveEach(s, items).0| <= |s|
    decreases |items|
  {
    if items != [] && items[0] in s {
      var x, rest := items[0], items[1..];
      var s' := RemoveFirst(s, x);
      RemoveFirstMultiset(s, x);
      RemoveEachCounts(s', rest);
      var res := RemoveEach(s', rest);
      assert RemoveEach(s, items) == res;
      if res.1 == Success {
        assert items == [x] + rest;
        assert multiset(items) == multiset{x} + multiset(rest);
        assert multiset(s) == multiset(s') + multiset{x};
      }
    }
  }

  /**
   * The shifting loop of InsertAt and InsertItemsFrom: moves the slots
   * [start, end) up by n, walking from the top down so that nothing is
   * overwritten before it has been copied.
   */
  method ShiftUp<T>(a: array<T>, start: nat, end: nat, n: nat)
    requires start <= end && end + n <= a.Length
    modifies a
    ensures forall k :: 0 <= k < start + n ==> a[k] == old(a[k])
    ensures forall k :: start + n <= k < end + n ==> a[k] == old(a[k - n])
    ensures forall k :: end + n <= k < a.Length ==> a[k] == old(a[k])
  {
    var i := end + n;
    while i > start + n
      invariant start + n <= i <= end + n
      invariant forall k :: 0 <= k < i ==> a[k] == old(a[k])
      invariant forall k :: i <= k < end + n ==> a[k] == old(a[k - n])
      invariant forall k :: end + n <= k < a.Length ==> a[k] == old(a[k])
    {
      i := i - 1;
      a[i] := a[i - n];
    }
  }

  /** InsertAt's move and store: shifts [index, count) up by one and writes obj at index,
      the one-item case of InsertSlots. */
  method InsertSlot<T>(a: array<T>, index: nat, count: nat, obj: T)
    requires index <= count < a.Length
    modifies a
    ensures a[..count + 1] == InsertAt(old(a[..count]), index, obj)
  {
    ghost var s := a[..count];
    InsertSlots(a, index, count, [obj]);
    InsertAtSlices(s, index, obj);
  }

  /** InsertItemsFrom's move and copy: shifts [start, count) up by the number of
      items and copies the items into the gap. */
  method InsertSlots<T>(a: array<T>, start: nat, count: nat, items: seq<T>)
    requires start <= count && count + |items| <= a.Length
    modifies a
    ensures a[..count + |items|] == old(a[..count])[..start] + items + old(a[..count])[start..]
  {
    ghost var s := a[..count];
    var n := |items|;
    ShiftUp(a, start, count, n);
    var next := start;
    var k := 0;
    while k < n
      invariant 0 <= k <= n && next == start + k
      invariant forall j :: 0 <= j < start ==> a[j] == s[j]
      invariant forall j :: start <= j < next ==> a[j] == items[j - start]
      invariant forall j :: start + n <= j < count + n ==> a[j] == s[j - n]
    {
      a[next] := items[k];
      next := next + 1;
      k := k + 1;
    }
    assert a[..count + n] == s[..start] + items + s[start..];
  }

  /** Exchanges two slots of [lo, hi], which keeps the slice a permutation of itself. */
  method Swap<T>(a: array<T>, lo: int, hi: int, i: int, j: int)
    requires 0 <= lo <= i < j <= hi < a.Length
    modifies a
    ensures a[i] == old(a[j]) && a[j] == old(a[i])
    ensures forall k :: 0 <= k < a.Length && k != i && k != j ==> a[k] == old(a[k])
    ensures multiset(a[lo..hi + 1]) == multiset(old(a[lo..hi + 1]))
  {
    ghost var s := a[lo..hi + 1];
    a[i], a[j] := a[j], a[i];
    SwapKeepsMultiset(s, a[lo..hi + 1], i - lo, j - lo);
  }

  /** The downward scan of the partition loop: steps j down at least once and
      stops at an element not greater than the pivot in slot lo, or at lo. */
  method ScanDown<T(!new)>(a: array<T>, lo: int, hi: int, j0: int, cmp: (T, T) -> int) returns (j: int, c: int)
    requires 0 <= lo < j0 <= hi + 1 <= a.Length
    requires forall k :: j0 <= k <= hi ==> cmp(a[k], a[lo]) >= 0
    ensures lo <= j < j0 && c == cmp(a[j], a[lo]) && (c <= 0 || j == lo)
    ensures forall k :: j < k <= hi ==> cmp(a[k], a[lo]) >= 0
  {
    j, c := j0, 1;
    while c > 0 && j > lo
      invariant lo <= j <= j0
      invariant j == j0 ==> c > 0
      invariant j < j0 ==> c == cmp(a[j], a[lo])
      invariant forall k :: j < k <= hi ==> cmp(a[k], a[lo]) >= 0
      decreases j
    {
      j := j - 1;
      c := cmp(a[j], a[lo]);
    }
  }

  /** The upward scan of the partition loop: steps i up at least once and stops
      at an element not smaller than the pivot in slot lo, or at hi. */
  method ScanUp<T(!new)>(a: array<T>, lo: int, hi: int, i0: int, cmp: (T, T) -> int) returns (i: int, c: int)
    requires 0 <= lo && lo - 1 <= i0 < hi < a.Length && IsTotalPreorder(cmp)
    requires forall k :: lo <= k <= i0 ==> cmp(a[k], a[lo]) <= 0
    ensures i0 < i <= hi && c == cmp(a[i], a[lo]) && (c >= 0 || i == hi)
    ensures i0 == lo - 1 ==> i == lo
    ensures forall k :: lo <= k < i ==> cmp(a[k], a[lo]) <= 0
  {
    i, c := i0, -1;
    while c < 0 && i < hi
      invariant i0 <= i <= hi
      invariant i0 == lo - 1 ==> i <= lo
      invariant i == i0 ==> c < 0
      invariant i > i0 ==> c == cmp(a[i], a[lo])
      invariant forall k :: lo <= k < i ==> cmp(a[k], a[lo]) <= 0
      decreases hi - i
    {
      i := i + 1;
      c := cmp(a[i], a[lo]);
      if i == lo {
        assert cmp(a[lo], a[lo]) == 0;
      }
    }
  }

  /**
   * The state the partition loop keeps between rounds: the slots [lo, i] are
   * not greater than the pivot in slot lo and the slots [j, hi] not smaller.
   * Before the first round i and j lie just outside [lo, hi].
   */
  ghost predicate Split<T>(a: array<T>, lo: int, hi: int, i: int, j: int, cmp: (T, T) -> int)
    reads a
  {
    0 <= lo && hi < a.Length && lo - 1 <= i < j <= hi + 1 &&
    (i == lo - 1 ==> j == hi + 1) && (i >= lo ==> j <= hi) &&
    (forall k :: lo <= k <= i ==> cmp(a[k], a[lo]) <= 0) &&
    (forall k :: j <= k <= hi ==> cmp(a[k], a[lo]) >= 0)
  }

  /**
   * One round of the partition loop: both scans, then a swap when the
   * indices have not crossed. When they have, [lo, j] holds the elements not
   * greater than the pivot and (j, hi] those not smaller.
   */
  method PartitionRound<T(!new)>(a: array<T>, lo: int, hi: int, i0: int, j0: int, cmp: (T, T) -> int)
    returns (i: int, j: int)
    requires lo < hi && IsTotalPreorder(cmp) && Split(a, lo, hi, i0, j0, cmp)
    modifies a
    ensures i0 < i && j < j0
    ensures i < j ==> Split(a, lo, hi, i, j, cmp)
    ensures i >= j ==> (lo <= j < hi &&
      (forall k :: lo <= k <= j ==> cmp(a[k], a[lo]) <= 0) &&
      (forall k :: j < k <= hi ==> cmp(a[k], a[lo]) >= 0))
    ensures forall k :: 0 <= k < a.Length && !(lo <= k <= hi) ==> a[k] == old(a[k])
    ensures multiset(a[lo..hi + 1]) == multiset(old(a[lo..hi + 1]))
  {
    var ci, cj;
    j, cj := ScanDown(a, lo, hi, j0, cmp);
    i, ci := ScanUp(a, lo, hi, i0, cmp);
    if i < j {
      ghost var p := a[lo];
      ghost var before := a[..];
      Swap(a, lo, hi, i, j);
      if i == lo {
        assert a[..] == before[lo := before[j]][j := before[lo]];
        FirstSwapKeepsSplit(before, a[..], lo, hi, j, cmp);
      } else {
        assert a[lo] == p;
        forall k | lo <= k <= i ensures cmp(a[k], a[lo]) <= 0 {
          if k < i {
            assert a[k] == before[k];
          } else {
            assert a[k] == before[j];
          }
        }
      }
    } else {
      assert cmp(a[lo], a[lo]) == 0;
    }
  }

  /**
   * The partition loop of QuickSort. It compares against the element
   * currently in slot lo, which the first swap replaces by one not greater;
   * the bound guards on both scans keep every access inside [lo, hi].
   */
  method Partition<T(!new)>(a: array<T>, lo: int, hi: int, cmp: (T, T) -> int) returns (mid: int)
    requires 0 <= lo < hi < a.Length && IsTotalPreorder(cmp)
    modifies a
    ensures lo <= mid < hi
    ensures forall k :: 0 <= k < a.Length && !(lo <= k <= hi) ==> a[k] == old(a[k])
    ensures multiset(a[lo..hi + 1]) == multiset(old(a[lo..hi + 1]))
    ensures AllNotGreater(a[lo..mid + 1], a[mid + 1..hi + 1], cmp)
  {
    var i, j := lo - 1, hi + 1;
    while true
      invariant Split(a, lo, hi, i, j, cmp)
      invariant forall k :: 0 <= k < a.Length && !(lo <= k <= hi) ==> a[k] == old(a[k])
      invariant multiset(a[lo..hi + 1]) == multiset(old(a[lo..hi + 1]))
      decreases j - i
    {
      i, j := PartitionRound(a, lo, hi, i, j, cmp);
      if i >= j {
        mid := j;
        break;
      }
    }
    PivotSplits(a[..], lo, mid, hi, a[lo], cmp);
    assert a[..][lo..mid + 1] == a[lo..mid + 1] && a[..][mid + 1..hi + 1] == a[mid + 1..hi + 1];
  }

  /**
   * The first swap of the partition loop exchanges the pivot in slot lo with
   * an element q at j that is not greater than it; the slots from j up are
   * then still not smaller than the new pivot q.
   */
  lemma FirstSwapKeepsSplit<T(!new)>(before: seq<T>, after: seq<T>, lo: int, hi: int, j: int, cmp: (T, T) -> int)
    requires 0 <= lo < j <= hi < |before| && IsTotalPreorder(cmp)
    requires after == before[lo := before[j]][j := before[lo]]
    requires cmp(before[j], before[lo]) <= 0
    requires forall k :: j < k <= hi ==> cmp(before[k], before[lo]) >= 0
    ensures forall k :: lo <= k <= lo ==> cmp(after[k], after[lo]) <= 0
    ensures forall k :: j <= k <= hi ==> cmp(after[k], after[lo]) >= 0
  {
    var p, q := before[lo], before[j];
    assert cmp(q, q) == 0;
    forall k | j <= k <= hi ensures cmp(after[k], q) >= 0 {
      if k > j {
        assert after[k] == before[k];
        assert cmp(p, after[k]) <= 0;
      }
    }
  }

  /** QuickSort(startIndex, endIndex): sorts the slots [lo, hi] around a Hoare partition. */
  method QuickSort<T(!new)>(a: array<T>, lo: int, hi: int, cmp: (T, T) -> int)
    requires 0 <= lo <= hi < a.Length && IsTotalPreorder(cmp)
    modifies a
    ensures a[..lo] == old(a[..lo]) && a[hi + 1..] == old(a[hi + 1..])
    ensures multiset(a[lo..hi + 1]) == multiset(old(a[lo..hi + 1]))
    ensures SortedBy(a[lo..hi + 1], cmp)
    decreases hi - lo
  {
    if lo < hi {
      ghost var s0 := a[..];
      var mid := Partition(a, lo, hi, cmp);
      assert a[..lo] == s0[..lo] && a[hi + 1..] == s0[hi + 1..];
      ghost var s1 := a[..];
      QuickSort(a, lo, mid, cmp);
      ghost var s2 := a[..];
      QuickSort(a, mid + 1, hi, cmp);
      SortedParts(s0, s1, s2, a[..], lo, mid, hi, cmp);
    }
  }

  class ArrayList<T(==,0,!new)> {
    var data: array<T>   // __pObjArray; an empty array stands for the null pointer
    var capacity: nat    // __capacity
    var count: nat       // __count
    var modCount: nat    // __modCount

    ghost predicate Valid()
      reads this
    {
      count <= capacity && capacity == data.Length
    }

    /** The list's contents, first to last. */
    ghost function Elements(): seq<T>
      reads this, data
      requires Valid()
    {
      data[..count]
    }

    /** ArrayListT(): an empty list without storage. */
    constructor ()
      ensures Valid() && Elements() == [] && capacity == 0 && modCount == 0 && fresh(data)
    {
      data := new T[0];
      capacity, count, modCount := 0, 0, 0;
    }

    /** Construct(capacity = DEFAULT_CAPACITY): a negative capacity is rejected, otherwise the storage is set to it. */
    method Construct(initialCapacity: int := DEFAULT_CAPACITY) returns (r: Result)
      requires Valid()
      modifies this, data
      ensures Valid() && (data == old(data) || fresh(data))
      ensures r == (if initialCapacity >= 0 then Success else InvalidArg)
      ensures r == InvalidArg ==> capacity == old(capacity) && Elements() == old(Elements()) && modCount == old(modCount)
      ensures r == Success ==> (capacity == initialCapacity &&
          Elements() == old(Elements())[..if old(count) < initialCapacity then old(count) else initialCapacity] &&
          modCount == old(modCount) + (if old(count) > initialCapacity then 1 else 0))
    {
      if initialCapacity < 0 {
        return InvalidArg;
      }
      r := SetCapacity(initialCapacity);
    }

    /** Construct(collection): a list holding the collection's elements in order.
        On a list not yet given storage, the capacity is the number of elements copied. */
    method ConstructFrom(collection: seq<T>) returns (r: Result)
      requires Valid()
      modifies this, data
      ensures Valid() && (data == old(data) || fresh(data))
      ensures r == Success && Elements() == old(Elements()) + collection
      ensures capacity == if |collection| > old(capacity) - old(count) then old(count) + |collection| else old(capacity)
      ensures old(capacity) == 0 ==> capacity == |Elements()|
      ensures modCount == old(modCount) + if |collection| > 0 then 1 else 0
    {
      r := AddItems(collection);
    }

    /** The number of elements. */
    function GetCount(): (n: nat)
      reads this
      requires Valid()
      ensures n == |Elements()|
    {
      count
    }

    /** The size of the storage array. */
    function GetCapacity(): (n: nat)
      reads this
      requires Valid()
      ensures n == data.Length && n >= |Elements()|
    {
      capacity
    }

    /**
     * SetCapacity(newCapacity): a negative size is rejected; otherwise the
     * storage is replaced by one of exactly that size, keeping the first
     * min(count, newCapacity) elements, and the count is cut down to fit.
     */
    method SetCapacity(newCapacity: int) returns (r: Result)
      requires Valid()
      modifies this, data
      ensures Valid() && (data == old(data) || fresh(data))
      ensures r == (if newCapacity >= 0 then Success else InvalidArg)
      ensures r == InvalidArg ==> capacity == old(capacity) && Elements() == old(Elements()) && modCount == old(modCount)
      ensures r == Success ==> (capacity == newCapacity &&
          count == (if old(count) < newCapacity then old(count) else newCapacity) &&
          Elements() == old(Elements())[..count] &&
          modCount == old(modCount) + (if old(count) > newCapacity then 1 else 0))
    {
      if newCapacity < 0 {
        return InvalidArg;
      }
      r := Success;
      if capacity != newCapacity {
        var newArray := new T[newCapacity];
        var n := if count < newCapacity then count else newCapacity;
        var i := 0;
        while i < n
          modifies newArray
          invariant 0 <= i <= n
          invariant forall k :: 0 <= k < i ==> newArray[k] == data[k]
        {
          newArray[i] := data[i];
          i := i + 1;
        }
        if count > newCapacity {
          modCount := modCount + 1;
          count := newCapacity;
        }
        data := newArray;
        capacity := newCapacity;
      }
    }

    /** Trim(): shrinks the storage to the number of elements. */
    method Trim()
      requires Valid()
      modifies this, data
      ensures Valid() && (data == old(data) || fresh(data))
      ensures Elements() == old(Elements()) && capacity == count && modCount == old(modCount)
    {
      if capacity == 0 {
        return;
      }
      var _ := SetCapacity(count);
    }

    /** The growth step shared by Add and InsertAt: a full array grows by DEFAULT_CAPACITY. */
    method GrowIfFull()
      requires Valid()
      modifies this, data
      ensures Valid() && (data == old(data) || fresh(data))
      ensures Elements() == old(Elements()) && count < capacity && modCount == old(modCount)
      ensures capacity == if old(count) >= old(capacity) then old(capacity) + DEFAULT_CAPACITY else old(capacity)
    {
      if count >= capacity {
        var _ := SetCapacity(capacity + DEFAULT_CAPACITY);
      }
    }

    /** Add(obj): appends at index count, growing a full array by DEFAULT_CAPACITY first. */
    method Add(obj: T) returns (r: Result)
      requires Valid()
      modifies this, data
      ensures Valid() && (data == old(data) || fresh(data))
      ensures r == Success && Elements() == old(Elements()) + [obj]
      ensures capacity == if old(count) >= old(capacity) then old(capacity) + DEFAULT_CAPACITY else old(capacity)
      ensures modCount == old(modCount) + 1
    {
      GrowIfFull();
      data[count] := obj;
      count := count + 1;
      modCount := modCount + 1;
      r := Success;
    }

    /** AddItems(collection): appends the collection's elements in order, growing
        the storage to exactly the needed size when they do not fit. */
    method AddItems(collection: seq<T>) returns (r: Result)
      requires Valid()
      modifies this, data
      ensures Valid() && (data == old(data) || fresh(data))
      ensures r == Success && Elements() == old(Elements()) + collection
      ensures capacity == if |collection| > old(capacity) - old(count) then old(count) + |collection| else old(capacity)
      ensures modCount == old(modCount) + if |collection| > 0 then 1 else 0
    {
      var n := |collection|;
      if n > 0 {
        if n > capacity - count {
          r := SetCapacity(count + n);
        }
        modCount := modCount + 1;
        CopyIn(collection);
      }
      r := Success;
    }

    /** The copy loop of AddItems: the values go into the free slots after the last element. */
    method CopyIn(collection: seq<T>)
      requires Valid() && |collection| <= capacity - count
      modifies this, data
      ensures Valid() && data == old(data) && capacity == old(capacity) && modCount == old(modCount)
      ensures Elements() == old(Elements()) + collection
    {
      ghost var prefix := Elements();
      var k := 0;
      while k < |collection|
        invariant 0 <= k <= |collection| && Valid() && count == |prefix| + k
        invariant data == old(data) && capacity == old(capacity) && modCount == old(modCount)
        invariant Elements() == prefix + collection[..k]
      {
        data[count] := collection[k];
        count := count + 1;
        k := k + 1;
        assert collection[..k] == collection[..k - 1] + [collection[k - 1]];
      }
      assert collection[..k] == collection;
    }

    /** GetAt(index): the element at a position inside the list. */
    method GetAt(index: int) returns (r: Result, obj: T)
      requires Valid()
      ensures r == (if 0 <= index < |Elements()| then Success else OutOfRange)
      ensures r == Success ==> obj == Elements()[index]
    {
      if !(index >= 0 && index < count) {
        r, obj := OutOfRange, *;
        return;
      }
      obj := data[index];
      r := Success;
    }

    /** GetItemsN(startIndex, n): a new list holding the slice [startIndex, startIndex + n). */
    method GetItemsN(startIndex: int, n: int) returns (r: Result, list: ArrayList?<T>)
      requires Valid()
      ensures r == (if ValidRange(startIndex, n, |Elements()|) then Success else OutOfRange)
      ensures r == OutOfRange ==> list == null
      ensures r == Success ==> (list != null && fresh(list) && fresh(list.data) && list.Valid() &&
          list.Elements() == Elements()[startIndex..startIndex + n] && list.capacity == n)
    {
      if !ValidRange(startIndex, n, count) {
        return OutOfRange, null;
      }
      list := new ArrayList();
      r := list.Construct(n);
      var i := startIndex;
      while i < startIndex + n
        invariant startIndex <= i <= startIndex + n
        invariant list.Valid() && fresh(list) && fresh(list.data) && list.capacity == n
        invariant list.count == i - startIndex
        invariant list.Elements() == Elements()[startIndex..i]
      {
        list.data[list.count] := data[i];
        list.count := list.count + 1;
        i := i + 1;
        assert Elements()[startIndex..i] == Elements()[startIndex..i - 1] + [data[i - 1]];
      }
      r := Success;
    }

    /** IndexOf(obj, startIndex, count): the first position in the range holding obj. */
    method IndexOfIn(obj: T, startIndex: int, n: int) returns (r: Result, index: int)
      requires Valid()
      ensures !ValidRange(startIndex, n, |Elements()|) ==> r == OutOfRange
      ensures ValidRange(startIndex, n, |Elements()|) ==>
        r == (if obj in Elements()[startIndex..startIndex + n] then Success else ObjNotFound)
      ensures r == Success ==> (startIndex <= index < startIndex + n && Elements()[index] == obj &&
          forall k :: startIndex <= k < index ==> Elements()[k] != obj)
    {
      if !ValidRange(startIndex, n, count) {
        return OutOfRange, 0;
      }
      var i := startIndex;
      while i < startIndex + n
        invariant startIndex <= i <= startIndex + n
        invariant forall k :: startIndex <= k < i ==> data[k] != obj
      {
        if obj == data[i] {
          return Success, i;
        }
        i := i + 1;
      }
      r, index := ObjNotFound, 0;
    }

    /** IndexOf(obj): delegates to the ranged search over the whole list, so an
        empty list answers E_OUT_OF_RANGE rather than E_OBJ_NOT_FOUND. */
    method IndexOf(obj: T) returns (r: Result, index: int)
      requires Valid()
      ensures |Elements()| == 0 ==> r == OutOfRange
      ensures |Elements()| > 0 ==> r == (if obj in Elements() then Success else ObjNotFound)
      ensures r == Success ==> 0 <= index < |Elements()| && index == FirstIndex(Elements(), obj)
    {
      r, index := IndexOfIn(obj, 0, count);
      assert Elements()[0..count] == Elements();
    }

    /** IndexOf(obj, startIndex): the first position at or after startIndex holding obj. */
    method IndexOfFrom(obj: T, startIndex: int) returns (r: Result, index: int)
      requires Valid()
      ensures !(0 <= startIndex < |Elements()|) ==> r == OutOfRange
      ensures 0 <= startIndex < |Elements()| ==> r == (if obj in Elements()[startIndex..] then Success else ObjNotFound)
      ensures r == Success ==> (startIndex <= index < |Elements()| && Elements()[index] == obj &&
          forall k :: startIndex <= k < index ==> Elements()[k] != obj)
    {
      if !(startIndex >= 0 && startIndex < count) {
        return OutOfRange, 0;
      }
      r, index := IndexOfIn(obj, startIndex, count - startIndex);
    }

    /** LastIndexOf(obj): the last position holding obj. */
    method LastIndexOf(obj: T) returns (r: Result, index: int)
      requires Valid()
      ensures r == (if obj in Elements() then Success else ObjNotFound)
      ensures r == Success ==> (0 <= index < |Elements()| && Elements()[index] == obj &&
          forall k :: index < k < |Elements()| ==> Elements()[k] != obj)
    {
      var i := count - 1;
      while i >= 0
        invariant -1 <= i < count
        invariant forall k :: i < k < count ==> data[k] != obj
      {
        if obj == data[i] {
          return Success, i;
        }
        i := i - 1;
      }
      r, index := ObjNotFound, 0;
    }

    /** Contains(obj): whether obj occurs in the list. */
    method Contains(obj: T) returns (found: bool)
      requires Valid()
      ensures found <==> obj in Elements()
    {
      if count == 0 {
        return false;
      }
      var i := 0;
      while i < count
        invariant 0 <= i <= count
        invariant forall k :: 0 <= k < i ==> data[k] != obj
      {
        if obj == data[i] {
          return true;
        }
        i := i + 1;
      }
      found := false;
    }

    /** ContainsAll(collection): whether every element of the collection occurs in the list. */
    method ContainsAll(collection: seq<T>) returns (r: Result, out: bool)
      requires Valid()
      ensures r == Success
      ensures out <==> forall x :: x in collection ==> x in Elements()
    {
      if |collection| == 0 {
        return Success, true;
      }
      var k := 0;
      while k < |collection|
        invariant 0 <= k <= |collection|
        invariant forall i :: 0 <= i < k ==> collection[i] in Elements()
      {
        var found := Contains(collection[k]);
        if !found {
          return Success, false;
        }
        k := k + 1;
      }
      r, out := Success, true;
    }

    /** Equals(other): the same object, or lists with equal elements in the same order. */
    method Equals(other: ArrayList<T>) returns (equal: bool)
      requires Valid() && other.Valid()
      ensures equal <==> Elements() == other.Elements()
    {
      if other == this {
        return true;
      }
      if count != other.count {
        return false;
      }
      var i := 0;
      while i < count
        invariant 0 <= i <= count
        invariant forall k :: 0 <= k < i ==> data[k] == other.data[k]
      {
        if data[i] != other.data[i] {
          return false;
        }
        i := i + 1;
      }
      equal := true;
      assert Elements() == other.Elements();
    }

    /** InsertAt(obj, index): shifts the tail up by one slot and stores obj at index. */
    method InsertAt(obj: T, index: int) returns (r: Result)
      requires Valid()
      modifies this, data
      ensures Valid() && (data == old(data) || fresh(data))
      ensures r == (if 0 <= index <= old(|Elements()|) then Success else OutOfRange)
      ensures r == OutOfRange ==>
        Elements() == old(Elements()) && capacity == old(capacity) && modCount == old(modCount)
      ensures r == Success ==>
        Elements() == Collections.InsertAt(old(Elements()), index, obj) &&
        capacity == (if old(count) >= old(capacity) then old(capacity) + DEFAULT_CAPACITY else old(capacity)) &&
        modCount == old(modCount) + 1
    {
      if !(index >= 0 && index <= count) {
        return OutOfRange;
      }
      GrowIfFull();
      InsertSlot(data, index, count, obj);
      count := count + 1;
      modCount := modCount + 1;
      r := Success;
    }

    /** InsertItemsFrom(collection, startIndex): opens a gap of the collection's size
        at startIndex and copies the collection into it. */
    method InsertItemsFrom(collection: seq<T>, startIndex: int) returns (r: Result)
      requires Valid()
      modifies this, data
      ensures Valid() && (data == old(data) || fresh(data))
      ensures r == (if 0 <= startIndex <= old(|Elements()|) then Success else OutOfRange)
      ensures r == OutOfRange ==>
        Elements() == old(Elements()) && capacity == old(capacity) && modCount == old(modCount)
      ensures r == Success ==>
        Elements() == old(Elements())[..startIndex] + collection + old(Elements())[startIndex..] &&
        capacity == (if |collection| > old(capacity) - old(count) then old(count) + |collection| else old(capacity)) &&
        modCount == old(modCount) + (if |collection| > 0 then 1 else 0)
    {
      if !(startIndex >= 0 && startIndex <= count) {
        return OutOfRange;
      }
      var n := |collection|;
      if n > 0 {
        if n > capacity - count {
          r := SetCapacity(count + n);
        }
        InsertSlots(data, startIndex, count, collection);
        count := count + n;
        modCount := modCount + 1;
      }
      r := Success;
    }

    /** RemoveAt(index): shifts the tail down by one slot, then trims the storage. */
    method RemoveAt(index: int) returns (r: Result)
      requires Valid()
      modifies this, data
      ensures Valid() && (data == old(data) || fresh(data))
      ensures r == (if 0 <= index < old(|Elements()|) then Success else OutOfRange)
      ensures r == OutOfRange ==>
        Elements() == old(Elements()) && capacity == old(capacity) && modCount == old(modCount)
      ensures r == Success ==>
        Elements() == RemoveSlice(old(Elements()), index, 1) && capacity == count &&
        modCount == old(modCount) + 1
    {
      if !(index < count && index >= 0) {
        return OutOfRange;
      }
      ghost var s := Elements();
      modCount := modCount + 1;
      count := count - 1;
      var i := index;
      while i < count
        modifies data
        invariant index <= i <= count
        invariant forall k :: 0 <= k < i ==> data[k] == RemoveSlice(s, index, 1)[k]
        invariant forall k :: i <= k <= count ==> data[k] == s[k]
      {
        data[i] := data[i + 1];
        i := i + 1;
      }
      assert Elements() == RemoveSlice(s, index, 1);
      Trim();
      r := Success;
    }

    /** Remove(obj): removes the first occurrence of obj. */
    method Remove(obj: T) returns (r: Result)
      requires Valid()
      modifies this, data
      ensures Valid() && (data == old(data) || fresh(data))
      ensures r == (if obj in old(Elements()) then Success else ObjNotFound)
      ensures Elements() == RemoveFirst(old(Elements()), obj)
      ensures r == ObjNotFound ==> capacity == old(capacity) && modCount == old(modCount)
      ensures r == Success ==> capacity == count && modCount == old(modCount) + 1
    {
      var index;
      r, index := IndexOf(obj);
      if r != Success {
        return ObjNotFound;
      }
      r := RemoveAt(index);
    }

    /** RemoveItems(collection): removes the collection's items one by one; an item
        that is missing stops the removal with E_OBJ_NOT_FOUND, keeping what was removed. */
    method RemoveCollection(collection: seq<T>) returns (r: Result)
      requires Valid()
      modifies this, data
      ensures Valid() && (data == old(data) || fresh(data))
      ensures (Elements(), r) == RemoveEach(old(Elements()), collection)
      ensures |Elements()| < old(|Elements()|) ==> capacity == count
      ensures |Elements()| == old(|Elements()|) ==> capacity == old(capacity)
      ensures modCount == old(modCount) + (old(|Elements()|) - |Elements()|)
    {
      var oldCount := count;
      var k := 0;
      while k < |collection|
        invariant 0 <= k <= |collection| && Valid()
        invariant data == old(data) || fresh(data)
        invariant RemoveEach(Elements(), collection[k..]) == RemoveEach(old(Elements()), collection)
        invariant count <= oldCount
        invariant count < oldCount ==> capacity == count
        invariant count == oldCount ==> capacity == old(capacity)
        invariant modCount == old(modCount) + (oldCount - count)
      {
        assert collection[k..][0] == collection[k] && collection[k..][1..] == collection[k + 1..];
        r := Remove(collection[k]);
        if r != Success {
          return ObjNotFound;
        }
        k := k + 1;
      }
      if count < oldCount {
        Trim();
      }
      r := Success;
    }

    /** RemoveItems(startIndex, n): copies everything but the slice into a fresh
        array of the same capacity. */
    method RemoveItems(startIndex: int, n: int) returns (r: Result)
      requires Valid()
      modifies this, data
      ensures Valid() && (data == old(data) || fresh(data))
      ensures r == (if ValidRange(startIndex, n, old(|Elements()|)) then Success else OutOfRange)
      ensures capacity == old(capacity)
      ensures r == OutOfRange ==> Elements() == old(Elements()) && modCount == old(modCount)
      ensures r == Success ==> (Elements() == RemoveSlice(old(Elements()), startIndex, n) &&
          modCount == old(modCount) + (if n > 0 then 1 else 0))
    {
      if !ValidRange(startIndex, n, count) {
        return OutOfRange;
      }
      if n > 0 {
        ghost var s := Elements();
        var newArray := new T[capacity];
        modCount := modCount + 1;
        count := count - n;
        var i := 0;
        while i < startIndex
          modifies newArray
          invariant 0 <= i <= startIndex
          invariant forall k :: 0 <= k < i ==> newArray[k] == s[k]
        {
          newArray[i] := data[i];
          i := i + 1;
        }
        i := startIndex;
        while i < count
          modifies newArray
          invariant startIndex <= i <= count
          invariant forall k :: 0 <= k < startIndex ==> newArray[k] == s[k]
          invariant forall k :: startIndex <= k < i ==> newArray[k] == s[k + n]
        {
          newArray[i] := data[i + n];
          i := i + 1;
        }
        data := newArray;
        assert Elements() == RemoveSlice(s, startIndex, n);
      }
      r := Success;
    }

    /** RemoveAll(): drops the storage of a non-empty list. */
    method RemoveAll()
      requires Valid()
      modifies this
      ensures Valid() && Elements() == [] && (data == old(data) || fresh(data))
      ensures capacity == if old(count) != 0 then 0 else old(capacity)
      ensures modCount == old(modCount) + if old(count) != 0 then 1 else 0
    {
      if count != 0 {
        data := new T[0];
        count := 0;
        capacity := 0;
        modCount := modCount + 1;
      }
    }

    /** SetAt(obj, index): replaces the element at a position inside the list. */
    method SetAt(obj: T, index: int) returns (r: Result)
      requires Valid()
      modifies this, data
      ensures Valid() && data == old(data) && capacity == old(capacity)
      ensures r == (if 0 <= index < old(|Elements()|) then Success else OutOfRange)
      ensures r == OutOfRange ==> Elements() == old(Elements()) && modCount == old(modCount)
      ensures r == Success ==> Elements() == old(Elements())[index := obj] && modCount == old(modCount) + 1
    {
      if !(index >= 0 && index < count) {
        return OutOfRange;
      }
      modCount := modCount + 1;
      data[index] := obj;
      r := Success;
    }

    /**
     * Sort(comparer): quicksorts the elements in place. The result is sorted
     * under the comparer and a permutation of the original. Sorting does not
     * bump modCount.
     */
    method Sort(cmp: (T, T) -> int) returns (r: Result)
      requires Valid() && IsTotalPreorder(cmp)
      modifies data
      ensures Valid() && r == Success
      ensures SortedBy(Elements(), cmp)
      ensures multiset(Elements()) == multiset(old(Elements()))
    {
      if 0 == count {
        return Success;
      }
      QuickSort(data, 0, count - 1, cmp);
      assert data[0..count] == data[..count];
      r := Success;
    }

    /** GetEnumeratorN() and GetBidirectionalEnumeratorN(): a fresh enumerator
        before the first element, remembering the current modCount. */
    method GetEnumeratorN() returns (e: ArrayListEnumerator<T>)
      requires Valid()
      ensures fresh(e) && e.list == this && e.modCount == modCount && e.position == -1
    {
      e := new ArrayListEnumerator(this, modCount);
    }
  }

  /** __ArrayListEnumeratorT: a bidirectional, fail-fast cursor over an ArrayList. */
  class ArrayListEnumerator<T(==,0,!new)> {
    const list: ArrayList<T>
    var modCount: nat   // the list's modCount when the enumerator was made
    var position: int   // -1 before the first element

    constructor (list: ArrayList<T>, modCount: nat)
      ensures this.list == list && this.modCount == modCount && position == -1
    {
      this.list := list;
      this.modCount := modCount;
      position := -1;
    }

    /** GetCurrent(): the element under the cursor, unless the list changed or the cursor is off the list. */
    method GetCurrent() returns (r: Result, obj: T)
      requires list.Valid()
      ensures r == (if modCount == list.modCount && -1 < position < |list.Elements()| then Success else InvalidOperation)
      ensures r == Success ==> obj == list.Elements()[position]
    {
      if modCount != list.modCount {
        r, obj := InvalidOperation, *;
        return;
      }
      if !(position > -1 && position < list.count) {
        r, obj := InvalidOperation, *;
        return;
      }
      obj := list.data[position];
      r := Success;
    }

    /** MoveNext(): advances unless the next position would reach the end. */
    method MoveNext() returns (r: Result)
      requires list.Valid()
      modifies this
      ensures modCount == old(modCount)
      ensures modCount != list.modCount ==> r == InvalidOperation && position == old(position)
      ensures modCount == list.modCount && old(position) + 1 >= |list.Elements()| ==>
        r == OutOfRange && position == old(position)
      ensures modCount == list.modCount && old(position) + 1 < |list.Elements()| ==>
        r == Success && position == old(position) + 1
    {
      if modCount != list.modCount {
        return InvalidOperation;
      }
      if position + 1 >= list.count {
        return OutOfRange;
      }
      position := position + 1;
      r := Success;
    }

    /** MovePrevious(): steps back unless the cursor is at position 0 or before. */
    method MovePrevious() returns (r: Result)
      requires list.Valid()
      modifies this
      ensures modCount == old(modCount)
      ensures modCount != list.modCount ==> r == InvalidOperation && position == old(position)
      ensures modCount == list.modCount && old(position) <= 0 ==> r == OutOfRange && position == old(position)
      ensures modCount == list.modCount && old(position) > 0 ==> r == Success && position == old(position) - 1
    {
      if modCount != list.modCount {
        return InvalidOperation;
      }
      if !(position > 0) {
        return OutOfRange;
      }
      position := position - 1;
      r := Success;
    }

    /** Reset(): back before the first element. */
    method Reset() returns (r: Result)
      requires list.Valid()
      modifies this
      ensures modCount == old(modCount)
      ensures modCount != list.modCount ==> r == InvalidOperation && position == old(position)
      ensures modCount == list.modCount ==> r == Success && position == -1
    {
      if modCount != list.modCount {
        return InvalidOperation;
      }
      position := -1;
      r := Success;
    }

    /** ResetLast(): past the last element, so that MovePrevious... starts at the end. */
    method ResetLast() returns (r: Result)
      requires list.Valid()
      modifies this
      ensures modCount == old(modCount)
      ensures modCount != list.modCount ==> r == InvalidOperation && position == old(position)
      ensures modCount == list.modCount ==> r == Success && position == |list.Elements()|
    {
      if modCount != list.modCount {
        return InvalidOperation;
      }
      position := list.count;
      r := Success;
    }
  }

  /** Fail-fast: once a mutator has run, an enumerator made before it refuses to move. */
  method StaleEnumeratorFails<T(==,0,!new)>(list: ArrayList<T>, x: T) returns (r: Result)
    requires list.Valid()
    modifies list, list.data
    ensures r == InvalidOperation
  {
    var e := list.GetEnumeratorN();
    var _ := list.Add(x);
    r := e.MoveNext();
  }
}
