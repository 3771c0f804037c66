/**
 * MultiHashMapT: a chained hash multimap. The bucket table is an array
 * whose slot i holds the chain of entries whose hash selects bucket i; each
 * entry holds one key and the list of its values, first added first. The
 * ghost map Contents is the abstraction: each key present maps to its
 * values in order. Duplicate (key, value) pairs are refused by Add.
 */
module MultiHashMaps {
  import opened Collections
  import ArrayLists
  import opened Buckets
  import opened TableOrder

  /** DEFAULT_CAPACITY: the table size used when the requested capacity is 0. */
  const DEFAULT_CAPACITY: nat := 16

  /** The largest power of two an int holds: 2^30. */
  const MAX_CAPACITY: nat := 0x4000_0000

  /** n is 1, 2, 4, 8, ... */
  predicate IsPowerOfTwo(n: int)
    decreases n
  {
    n == 1 || (n > 1 && n % 2 == 0 && IsPowerOfTwo(n / 2))
  }

  /** The bits an arithmetic (sign-copying) right shift of h brings in from
      the left, for the shift whose fill mask is given: all ones where the
      shifted-out positions were, when h is negative. */
  function SignFill(h: bv32, fill: bv32): bv32 {
    if h & 0x8000_0000 == 0 then 0 else fill
  }

  /** The arithmetic right shift of a 32-bit int: a logical shift for a
      non-negative h, and the complement of the shifted complement for a
      negative one. */
  function Sar(h: bv32, n: bv32): bv32
    requires n < 32
  {
    if h & 0x8000_0000 == 0 then h >> n else !(!h >> n)
  }

  /** The first mixing line of Hash, `h ^= (h >> 20) ^ (h >> 12)`, with the
      arithmetic shift a C compiler applies to a signed int. */
  function SpreadHigh(h: bv32): bv32 {
    h ^ Sar(h, 20) ^ Sar(h, 12)
  }

  /** The returned line of Hash, `h ^ (h >> 7) ^ (h >> 4)`, likewise. */
  function SpreadLow(h: bv32): bv32 {
    h ^ Sar(h, 7) ^ Sar(h, 4)
  }

  /** The first mixing line built from logical shifts with the sign bits filled in. */
  function MixHigh(h: bv32): (r: bv32)
    ensures r == SpreadHigh(h)
  {
    SignFilledHigh(h);
    h ^ ((h >> 20) | SignFill(h, 0xFFFF_F000)) ^ ((h >> 12) | SignFill(h, 0xFFF0_0000))
  }

  /** The returned line built from logical shifts with the sign bits filled in. */
  function MixLow(h: bv32): (r: bv32)
    ensures r == SpreadLow(h)
  {
    SignFilledLow(h);
    h ^ ((h >> 7) | SignFill(h, 0xFE00_0000)) ^ ((h >> 4) | SignFill(h, 0xF000_0000))
  }

  /** Hash(obj): the supplemental hash applied to the provider's hash code.
      It is computed from logical shifts and is the source's two lines with
      arithmetic shifts of the signed int. */
  function Hash(code: bv32): (h: bv32)
    ensures h == SpreadLow(SpreadHigh(code))
  {
    MixLow(MixHigh(code))
  }

  /** Equal operands give equal three-way xors. */
  lemma XorSides(h: bv32, a: bv32, b: bv32, a': bv32, b': bv32)
    requires a == a' && b == b'
    ensures h ^ a ^ b == h ^ a' ^ b'
  {
  }

  /** The sign-filled first line is the arithmetic one. */
  lemma SignFilledHigh(h: bv32)
    ensures h ^ ((h >> 20) | SignFill(h, 0xFFFF_F000)) ^ ((h >> 12) | SignFill(h, 0xFFF0_0000)) == h ^ Sar(h, 20) ^ Sar(h, 12)
  {
    SignedShift20(h);
    SignedShift12(h);
    XorSides(h, (h >> 20) | SignFill(h, 0xFFFF_F000), (h >> 12) | SignFill(h, 0xFFF0_0000), Sar(h, 20), Sar(h, 12));
  }

  /** The sign-filled returned line is the arithmetic one. */
  lemma SignFilledLow(h: bv32)
    ensures h ^ ((h >> 7) | SignFill(h, 0xFE00_0000)) ^ ((h >> 4) | SignFill(h, 0xF000_0000)) == h ^ Sar(h, 7) ^ Sar(h, 4)
  {
    SignedShift7(h);
    SignedShift4(h);
    XorSides(h, (h >> 7) | SignFill(h, 0xFE00_0000), (h >> 4) | SignFill(h, 0xF000_0000), Sar(h, 7), Sar(h, 4));
  }

  /** Each of the four sign-filled shifts in Hash is the arithmetic shift.
      There is one lemma per shift amount Hash uses, each with its own fill
      mask: a lemma over a variable amount is far costlier to prove. */
  lemma SignedShift20(h: bv32)
    ensures (h >> 20) | SignFill(h, 0xFFFF_F000) == Sar(h, 20)
  {
    if h & 0x8000_0000 != 0 {
      assert (h >> 20) | 0xFFFF_F000 == !(!h >> 20);
    }
  }

  lemma SignedShift12(h: bv32)
    ensures (h >> 12) | SignFill(h, 0xFFF0_0000) == Sar(h, 12)
  {
    if h & 0x8000_0000 != 0 {
      assert (h >> 12) | 0xFFF0_0000 == !(!h >> 12);
    }
  }

  lemma SignedShift7(h: bv32)
    ensures (h >> 7) | SignFill(h, 0xFE00_0000) == Sar(h, 7)
  {
    if h & 0x8000_0000 != 0 {
      assert (h >> 7) | 0xFE00_0000 == !(!h >> 7);
    }
  }

  lemma SignedShift4(h: bv32)
    ensures (h >> 4) | SignFill(h, 0xF000_0000) == Sar(h, 4)
  {
    if h & 0x8000_0000 != 0 {
      assert (h >> 4) | 0xF000_0000 == !(!h >> 4);
    }
  }

  /** The comparer tells keys apart exactly as equality does. */
  ghost predicate KeyComparer<K(!new)>(compare: (K, K) -> int) {
    forall a, b :: compare(a, b) == 0 <==> a == b
  }

  /** Setting one key's values changes the sum by the difference in their number. */
  lemma SumCountsUpdate<K, V>(m: map<K, seq<V>>, k: K, vs: seq<V>)
    ensures SumCounts(m[k := vs]) + (if k in m then |m[k]| else 0) == SumCounts(m) + |vs|
  {
    SumCountsRemove(m[k := vs], k);
    assert m[k := vs] - {k} == m - {k};
    if k in m {
      SumCountsRemove(m, k);
    } else {
      assert m - {k} == m;
    }
  }

  /** The values of a key, none when it is absent. */
  function ValuesOf<K, V>(m: map<K, seq<V>>, k: K): seq<V> {
    if k in m then m[k] else []
  }

  /** A key gets the value list vs; an empty list takes the key out. */
  function Assign<K, V>(m: map<K, seq<V>>, k: K, vs: seq<V>): map<K, seq<V>> {
    if vs == [] then m - {k} else m[k := vs]
  }

  /** Setting one key's value list changes the sum by the difference in their number. */
  lemma SumCountsAssign<K, V>(m: map<K, seq<V>>, k: K, vs: seq<V>)
    requires k in m
    ensures SumCounts(Assign(m, k, vs)) + |m[k]| == SumCounts(m) + |vs|
  {
    if vs == [] {
      SumCountsRemove(m, k);
    } else {
      SumCountsUpdate(m, k, vs);
    }
  }

  /** A multimap whose keys all have values holds no pair only when it has no key. */
  lemma SumCountsZero<K, V>(m: map<K, seq<V>>)
    requires forall k | k in m :: |m[k]| > 0
    ensures SumCounts(m) == 0 <==> m == map[]
  {
    if m != map[] {
      var k :| k in m;
      SumCountsRemove(m, k);
    }
  }

  /** s with its first x replaced by y, at the same position; s itself when x does not occur. */
  function ReplaceFirst<T(==)>(s: seq<T>, x: T, y: T): (r: seq<T>)
    ensures |r| == |s|
    ensures x in s ==> r[FirstIndex(s, x)] == y
    ensures forall i | 0 <= i < |s| && (x !in s || i != FirstIndex(s, x)) :: r[i] == s[i]
  {
    if x in s then s[FirstIndex(s, x) := y] else s
  }

  /** A value not yet in a key's list keeps the map free of duplicate pairs when appended. */
  lemma NoDuplicatesAppend<K, V>(m: map<K, seq<V>>, k: K, v: V)
    requires NoDuplicatePairs(m) && v !in ValuesOf(m, k)
    ensures NoDuplicatePairs(m[k := ValuesOf(m, k) + [v]])
  {
    var vs := ValuesOf(m, k) + [v];
    forall i, j | 0 <= i < j < |vs|
      ensures vs[i] != vs[j]
    {
      if j == |vs| - 1 {
        assert vs[i] == ValuesOf(m, k)[i];
      } else {
        assert vs[i] == m[k][i] && vs[j] == m[k][j];
      }
    }
  }

  /** Taking a value out of a key's list keeps the map free of duplicate pairs. */
  lemma NoDuplicatesRemove<K, V>(m: map<K, seq<V>>, k: K, i: nat)
    requires NoDuplicatePairs(m) && k in m && i < |m[k]|
    ensures NoDuplicatePairs(Assign(m, k, RemoveSlice(m[k], i, 1)))
  {
    var vs := RemoveSlice(m[k], i, 1);
    forall a, b | 0 <= a < b < |vs|
      ensures vs[a] != vs[b]
    {
      var a' := if a >= i then a + 1 else a;
      var b' := if b >= i then b + 1 else b;
      assert vs[a] == m[k][a'] && vs[b] == m[k][b'];
    }
  }

  /** Replacing a value by one its list does not hold, or by itself, keeps the
      map free of duplicate pairs. */
  lemma NoDuplicatesReplace<K, V>(m: map<K, seq<V>>, k: K, x: V, y: V)
    requires NoDuplicatePairs(m) && k in m && x in m[k] && (y == x || y !in m[k])
    ensures NoDuplicatePairs(m[k := ReplaceFirst(m[k], x, y)])
  {
    var vs := ReplaceFirst(m[k], x, y);
    var f := FirstIndex(m[k], x);
    forall a, b | 0 <= a < b < |vs|
      ensures vs[a] != vs[b]
    {
      if a != f && b != f {
        assert vs[a] == m[k][a] && vs[b] == m[k][b];
      } else if a == f {
        assert vs[b] == m[k][b];
      } else {
        assert vs[a] == m[k][a];
      }
    }
  }

  /**
   * SetValue as written can make a pair twice: with the values [1, 2] under
   * key 0, replacing 1 by 2 leaves [2, 2], which Add would have refused.
   */
  lemma SetValueMakesDuplicate()
    ensures NoDuplicatePairs(map[0 := [1, 2]])
    ensures var m := map[0 := [1, 2]];
            !NoDuplicatePairs(m[0 := ReplaceFirst(m[0], 1, 2)])
  {
    var m := map[0 := [1, 2]];
    assert FirstIndex(m[0], 1) == 0;
    assert ReplaceFirst(m[0], 1, 2) == [2, 2];
    var m' := m[0 := [2, 2]];
    assert 0 in m' && m'[0][0] == m'[0][1];
  }

  /** 2^n. */
  function Pow2(n: nat): nat {
    if n == 0 then 1 else 2 * Pow2(n - 1)
  }

  /** c is the table size Construct picks for a request: DEFAULT_CAPACITY for 0,
      otherwise the smallest power of two not below the request, the request
      being capped at MAX_CAPACITY. */
  ghost predicate IsCapacityFor(c: int, request: nat) {
    var want := if request > MAX_CAPACITY then MAX_CAPACITY else request;
    if request == 0 then c == DEFAULT_CAPACITY else
      IsPowerOfTwo(c) && c >= want && (c == 1 || c / 2 < want)
  }

  /** Twice a power of two is one. */
  lemma PowerOfTwoDouble(c: int)
    requires IsPowerOfTwo(c)
    ensures IsPowerOfTwo(2 * c)
  {
  }

  /** Of two powers of two the smaller one is at most half the larger one. */
  lemma {:induction false} PowerOfTwoGap(p: int, q: int)
    requires IsPowerOfTwo(p) && IsPowerOfTwo(q) && p < q
    ensures 2 * p <= q
    decreases q
  {
    if p > 1 {
      PowerOfTwoGap(p / 2, q / 2);
    }
  }

  /** A request has exactly one capacity. */
  lemma CapacityForUnique(c1: int, c2: int, request: nat)
    requires IsCapacityFor(c1, request) && IsCapacityFor(c2, request)
    ensures c1 == c2
  {
    if request > 0 && c1 != c2 {
      if c1 < c2 {
        PowerOfTwoGap(c1, c2);
      } else {
        PowerOfTwoGap(c2, c1);
      }
    }
  }

  /** The capacity loop of Construct: doubling from 1 until the request is
      reached, with the request capped at MAX_CAPACITY, or DEFAULT_CAPACITY for 0. */
  method CapacityFor(request: nat) returns (c: nat)
    ensures IsCapacityFor(c, request)
  {
    if request == 0 {
      assert IsPowerOfTwo(2) && IsPowerOfTwo(4) && IsPowerOfTwo(8);
      return DEFAULT_CAPACITY;
    }
    var want := if request > MAX_CAPACITY then MAX_CAPACITY else request;
    c := 1;
    while c < want
      invariant IsPowerOfTwo(c) && (c == 1 || c / 2 < want)
      decreases want - c
    {
      c := c * 2;
    }
  }

  /** A mathematical integer cut to 32-bit two's complement. */
  function Wrap32(x: int): int {
    (x + 0x8000_0000) % 0x1_0000_0000 - 0x8000_0000
  }

  /** A value an int holds wraps to itself. */
  lemma Wrap32InRange(x: int)
    requires -0x8000_0000 <= x < 0x8000_0000
    ensures Wrap32(x) == x
  {
  }

  /** The value of __capacity after n rounds of `__capacity <<= 1` from 1, in
      32-bit two's complement arithmetic. */
  function ShiftedCapacity(n: nat): int {
    if n == 0 then 1 else Wrap32(2 * ShiftedCapacity(n - 1))
  }

  /** 2^(a+b) = 2^a * 2^b. */
  lemma {:induction false} Pow2Add(a: nat, b: nat)
    ensures Pow2(a + b) == Pow2(a) * Pow2(b)
  {
    if a > 0 {
      Pow2Add(a - 1, b);
    }
  }

  /** MAX_CAPACITY is 2^30. */
  lemma Pow2Thirty()
    ensures Pow2(30) == MAX_CAPACITY
  {
    Pow2Add(10, 20);
    Pow2Add(10, 10);
  }

  /** 2^n grows with n. */
  lemma {:induction false} Pow2Monotone(n: nat, m: nat)
    requires n <= m
    ensures Pow2(n) <= Pow2(m)
    decreases m
  {
    if n < m {
      Pow2Monotone(n, m - 1);
    }
  }

  /** The rounds reach 2^30, then the sign bit, then zero for good. */
  lemma {:induction false} ShiftedCapacityValues(n: nat)
    ensures n <= 30 ==> ShiftedCapacity(n) == Pow2(n)
    ensures n == 31 ==> ShiftedCapacity(n) == -0x8000_0000
    ensures n >= 32 ==> ShiftedCapacity(n) == 0
  {
    if n > 0 {
      ShiftedCapacityValues(n - 1);
      if n <= 30 {
        Pow2Monotone(n, 30);
        Pow2Thirty();
        Wrap32InRange(Pow2(n));
      } else if n == 31 {
        Pow2Thirty();
        assert Wrap32(0x8000_0000) == -0x8000_0000;
      } else if n == 32 {
        assert Wrap32(-0x1_0000_0000) == 0;
      } else {
        assert Wrap32(0) == 0;
      }
    }
  }

  /** For a request above 2^30 the loop `while (__capacity < capacity)` never
      ends: no round's value reaches the request. */
  lemma CapacityLoopNeverExits(request: int, n: nat)
    requires request > MAX_CAPACITY
    ensures ShiftedCapacity(n) < request
  {
    ShiftedCapacityValues(n);
    if n <= 30 {
      Pow2Monotone(n, 30);
      Pow2Thirty();
    }
  }

  /** The value walk of an entry's list: the first position holding the value, -1 when none does. */
  method IndexOfValue<V(==)>(values: seq<V>, value: V) returns (i: int)
    ensures (i == -1) == (value !in values)
    ensures i != -1 ==> i == FirstIndex(values, value)
  {
    i := 0;
    while i < |values|
      invariant 0 <= i <= |values| && value !in values[..i]
    {
      if values[i] == value {
        return;
      }
      i := i + 1;
    }
    assert values[..i] == values;
    i := -1;
  }

  class MultiHashMap<K(==,0,!new), V(==,0,!new)> {
    var table: array<seq<Entry<K, V>>>   // __pTable
    var count: nat                       // __count
    var capacity: nat                    // __capacity
    var threshold: int                   // __threshold
    var modCount: nat                    // __modCount
    var keyHash: K -> bv32               // Hash(key): Hash of __pProvider->GetHashCode(key)
    var compare: (K, K) -> int           // __pComparer->Compare
    var thresholdOf: nat -> int          // capacity * __loadFactor, truncated
    ghost var Contents: map<K, seq<V>>

    /** The bucket of a key. */
    function SlotOf(k: K): (i: nat)
      reads this
      requires capacity > 0
      ensures i < capacity
    {
      Slot(keyHash(k), capacity)
    }

    /** The representation invariant, apart from the count: the table has
        capacity buckets, a power of two, and lays out Contents. */
    ghost predicate Shape()
      reads this, table
    {
      table.Length == capacity && IsPowerOfTwo(capacity) && KeyComparer(compare) &&
      threshold == thresholdOf(capacity) && Laid(table[..], keyHash, Contents)
    }

    /** The representation invariant: the shape, and count is the number of pairs. */
    ghost predicate Valid()
      reads this, table
    {
      Shape() && count == SumCounts(Contents)
    }

    /** The entry that holds a key of the map. */
    ghost function EntryOf(k: K): (e: Entry<K, V>)
      reads this, table
      requires Shape() && k in Contents
      ensures e.key == k && e.values == Contents[k]
    {
      EntryIn(table[..], keyHash, Contents, k)
    }

    /** MultiHashMapT(): a map that still has to be constructed. */
    constructor ()
      ensures Unconstructed() && modCount == 0
    {
      table := new seq<Entry<K, V>>[0];
      count, capacity, threshold, modCount := 0, 0, 0, 0;
      keyHash, compare, thresholdOf := _ => 0, (_, _) => 0, _ => 0;
      Contents := map[];
    }

    /** The state of a map before Construct. */
    ghost predicate Unconstructed()
      reads this
    {
      capacity == 0 && count == 0 && Contents == map[]
    }

    /**
     * Construct(capacity, loadFactor, provider, comparer): a negative capacity
     * is refused; otherwise the table gets the capacity IsCapacityFor names,
     * all buckets empty. The load factor enters only through thresholdOf.
     */
    method Construct(request: int, hashCode: K -> bv32, compare: (K, K) -> int, thresholdOf: nat -> int) returns (r: Result)
      requires Unconstructed() && KeyComparer(compare)
      modifies this
      ensures r == (if request >= 0 then Success else InvalidArg)
      ensures r == InvalidArg ==> Unconstructed()
      ensures r == Success ==> Valid() && fresh(table) && IsCapacityFor(capacity, request) && Contents == map[]
      ensures r == Success ==> (forall k :: keyHash(k) == Hash(hashCode(k))) &&
                               this.compare == compare && this.thresholdOf == thresholdOf
      ensures modCount == old(modCount)
    {
      if request < 0 {
        return InvalidArg;
      }
      var c := CapacityFor(request);
      var h := k => Hash(hashCode(k));
      var t := new seq<Entry<K, V>>[c](_ => []);
      LaidEmpty<K, V>(t[..], h);
      Setup(t, h, compare, thresholdOf);
      r := Success;
    }

    /** The field settings of Construct. */
    method Setup(t: array<seq<Entry<K, V>>>, h: K -> bv32, compare: (K, K) -> int, thresholdOf: nat -> int)
      modifies this
      ensures table == t && capacity == t.Length && keyHash == h && this.compare == compare
      ensures this.thresholdOf == thresholdOf && threshold == thresholdOf(t.Length)
      ensures count == old(count) && modCount == old(modCount) && Contents == old(Contents)
    {
      table, capacity, keyHash := t, t.Length, h;
      this.compare, this.thresholdOf := compare, thresholdOf;
      threshold := thresholdOf(t.Length);
    }

    /** The hash-and-compare walk of a key's bucket: the position of the key's entry, -1 when it has none. */
    method FindEntry(key: K) returns (b: nat, j: int)
      requires Shape()
      ensures b == SlotOf(key) && b < table.Length
      ensures (j == -1) == (key !in Contents)
      ensures j != -1 ==> 0 <= j < |table[b]| && table[b][j] == EntryOf(key)
    {
      var hash := keyHash(key);
      b := Slot(hash, capacity);
      var chain := table[b];
      j := 0;
      while j < |chain|
        invariant 0 <= j <= |chain|
        invariant forall j' :: 0 <= j' < j ==> chain[j'].key != key
      {
        if chain[j].hash == hash && compare(key, chain[j].key) == 0 {
          assert table[..][b][j] == chain[j];
          return;
        }
        j := j + 1;
      }
      assert key !in KeysOf(table[..][b]);
      j := -1;
    }

    /**
     * Add(key, value): a pair already present is refused with
     * ObjAlreadyExist and nothing changes. Otherwise a new key gets a new
     * entry at the head of its bucket and an existing key gets the value at
     * the end of its list, its entry's modCount moving; the count goes up by
     * one and, when the count before was at the threshold, the table doubles.
     */
    method Add(key: K, value: V) returns (r: Result)
      requires Valid()
      modifies this, table
      ensures Valid()
      ensures r == (if key in old(Contents) && value in old(Contents)[key] then ObjAlreadyExist else Success)
      ensures r == ObjAlreadyExist ==> unchanged(this) && unchanged(table)
      ensures table == old(table) || fresh(table)
      ensures r == Success ==> Contents == old(Contents)[key := ValuesOf(old(Contents), key) + [value]] &&
                               count == old(count) + 1 && modCount == old(modCount) + 1 &&
                               capacity == (if old(count) >= old(threshold) then 2 * old(capacity) else old(capacity))
      ensures r == Success && key in old(Contents) ==> EntryOf(key).modCount == old(EntryOf(key).modCount) + 1
      ensures r == Success && key !in old(Contents) ==> EntryOf(key).modCount == 0
      ensures r == Success ==> SameHashing() && forall k | k in old(Contents) && k != key :: EntryOf(k) == old(EntryOf(k))
      ensures NoDuplicatePairs(old(Contents)) ==> NoDuplicatePairs(Contents)
    {
      var b, j := FindEntry(key);
      if j != -1 {
        var i := IndexOfValue(table[b][j].values, value);
        if i != -1 {
          return ObjAlreadyExist;
        }
      }
      if NoDuplicatePairs(Contents) {
        NoDuplicatesAppend(Contents, key, value);
      }
      AddNew(key, value, b, j);
      r := Success;
    }

    /** Add once the pair is known to be new: it goes in, and the table
        doubles when the count before was at the threshold. */
    method AddNew(key: K, value: V, b: nat, j: int)
      requires Valid() && b == SlotOf(key) && (j == -1) == (key !in Contents)
      requires j != -1 ==> 0 <= j < |table[b]| && table[b][j] == EntryOf(key)
      modifies this, table
      ensures Valid() && SameHashing() && (table == old(table) || fresh(table))
      ensures Contents == old(Contents)[key := ValuesOf(old(Contents), key) + [value]] &&
              count == old(count) + 1 && modCount == old(modCount) + 1 &&
              capacity == (if old(count) >= old(threshold) then 2 * old(capacity) else old(capacity))
      ensures key in old(Contents) ==> EntryOf(key).modCount == old(EntryOf(key).modCount) + 1
      ensures key !in old(Contents) ==> EntryOf(key).modCount == 0
      ensures forall k | k in old(Contents) && k != key :: EntryOf(k) == old(EntryOf(k))
    {
      var full := count >= threshold;
      Put(key, value, b, j);
      GrowIf(full);
    }

    /** The end of Add: `Resize(__capacity * 2)` when the count was at the threshold. */
    method GrowIf(full: bool)
      requires Valid()
      modifies this
      ensures Valid() && SameHashing() && (table == old(table) || fresh(table))
      ensures Contents == old(Contents) && count == old(count) && modCount == old(modCount)
      ensures capacity == if full then 2 * old(capacity) else old(capacity)
      ensures forall k | k in Contents :: EntryOf(k) == old(EntryOf(k))
    {
      if full {
        PowerOfTwoDouble(capacity);
        var r := Resize(capacity * 2);
      }
    }

    /** Add once the key's entry is found (j) or known absent (-1) and the
        value is known new: the pair goes in and the counters move. */
    method Put(key: K, value: V, b: nat, j: int)
      requires Valid() && b == SlotOf(key) && (j == -1) == (key !in Contents)
      requires j != -1 ==> 0 <= j < |table[b]| && table[b][j] == EntryOf(key)
      modifies this, table
      ensures Valid() && SameTable()
      ensures Contents == old(Contents)[key := ValuesOf(old(Contents), key) + [value]]
      ensures count == old(count) + 1 && modCount == old(modCount) + 1
      ensures key in old(Contents) ==> EntryOf(key).modCount == old(EntryOf(key).modCount) + 1
      ensures key !in old(Contents) ==> EntryOf(key).modCount == 0
      ensures forall k | k in old(Contents) && k != key :: EntryOf(k) == old(EntryOf(k))
    {
      ghost var C := Contents;
      if j != -1 {
        var e := table[b][j];
        assert e.key == key && e.values == ValuesOf(C, key);
        ReplaceEntry(b, j, e.(values := e.values + [value], modCount := e.modCount + 1));
      } else {
        assert ValuesOf(C, key) + [value] == [value];
        InsertEntry(Entry(key, keyHash(key), [value], 0));
      }
      SumCountsUpdate(C, key, ValuesOf(C, key) + [value]);
      assert count + 1 == SumCounts(Contents);
      Counted();
    }

    /** The hash, the comparer and the threshold rule are as they were. */
    twostate predicate SameHashing()
      reads this
    {
      keyHash == old(keyHash) && compare == old(compare) && thresholdOf == old(thresholdOf)
    }

    /** The table array, its capacity and threshold, the hash and the comparer are as they were. */
    twostate predicate SameTable()
      reads this
    {
      table == old(table) && capacity == old(capacity) && threshold == old(threshold) && SameHashing()
    }

    /** The bookkeeping of a successful Add: `__modCount++` and `__count++`. */
    method Counted()
      modifies this
      ensures count == old(count) + 1 && modCount == old(modCount) + 1
      ensures SameTable() && Contents == old(Contents)
    {
      modCount := modCount + 1;
      count := count + 1;
    }

    /** `__modCount++` alone. */
    method Touched()
      modifies this
      ensures modCount == old(modCount) + 1 && count == old(count)
      ensures SameTable() && Contents == old(Contents)
    {
      modCount := modCount + 1;
    }

    /** The bookkeeping of a successful Remove(key, value): `__modCount++` and `__count--`. */
    method Discounted()
      requires count > 0
      modifies this
      ensures count == old(count) - 1 && modCount == old(modCount) + 1
      ensures SameTable() && Contents == old(Contents)
    {
      modCount := modCount + 1;
      count := count - 1;
    }

    /** Entry j of bucket b gives way to e', which has the same key and hash
        and a nonempty value list: the key's values become e''s. */
    method ReplaceEntry(b: nat, j: nat, e': Entry<K, V>)
      requires Shape() && b < table.Length && j < |table[b]|
      requires e'.key == table[b][j].key && e'.hash == table[b][j].hash && |e'.values| > 0
      modifies this, table
      ensures Shape() && SameTable() && count == old(count) && modCount == old(modCount)
      ensures table[..] == old(table[..])[b := old(table[b])[j := e']]
      ensures Contents == old(Contents)[e'.key := e'.values] && EntryOf(e'.key) == e'
      ensures forall k | k in old(Contents) && k != e'.key :: EntryOf(k) == old(EntryOf(k))
    {
      ghost var t := table[..];
      ReplaceKeepsOthers(t, keyHash, Contents, b, j, e');
      Contents := Contents[e'.key := e'.values];
      table[b] := table[b][j := e'];
      assert table[..] == t[b := t[b][j := e']];
      LocateAt(table[..], keyHash, Contents, b, j);
    }

    /** Entry j of bucket b is unlinked from its chain: its key leaves the map. */
    method UnlinkEntry(b: nat, j: nat)
      requires Shape() && b < table.Length && j < |table[b]|
      modifies this, table
      ensures Shape() && SameTable() && count == old(count) && modCount == old(modCount)
      ensures table[..] == old(table[..])[b := RemoveSlice(old(table[b]), j, 1)]
      ensures Contents == old(Contents) - {old(table[b][j]).key}
      ensures forall k | k in Contents :: k in old(Contents) && EntryOf(k) == old(EntryOf(k))
    {
      ghost var t := table[..];
      UnlinkKeepsOthers(t, keyHash, Contents, b, j);
      Contents := Contents - {table[b][j].key};
      table[b] := RemoveSlice(table[b], j, 1);
      assert table[..] == t[b := RemoveSlice(t[b], j, 1)];
    }

    /** The new-key case of Add: the new entry goes at the head of the key's bucket. */
    method InsertEntry(e: Entry<K, V>)
      requires Shape() && e.key !in Contents && e.hash == keyHash(e.key) && |e.values| > 0
      modifies this, table
      ensures Shape() && SameTable() && count == old(count) && modCount == old(modCount)
      ensures var s := SlotOf(e.key);
              table[..] == old(table[..])[s := [e] + old(table[s])] &&
              Contents == old(Contents)[e.key := e.values] && EntryOf(e.key) == e
      ensures forall k | k in old(Contents) :: EntryOf(k) == old(EntryOf(k))
    {
      var s := Slot(e.hash, capacity);
      ghost var t := table[..];
      InsertKeepsOthers(t, keyHash, Contents, e);
      Contents := Contents[e.key := e.values];
      table[s] := [e] + table[s];
      assert table[..] == t[s := [e] + t[s]];
      LocateAt(table[..], keyHash, Contents, s, 0);
    }

    /**
     * Resize(newCapacity): every entry moves to the head of the bucket its
     * hash selects in a new table of newCapacity buckets, and the threshold
     * follows the new capacity. The pairs, the count and every entry stay.
     */
    method Resize(newCapacity: nat) returns (r: Result)
      requires Valid() && IsPowerOfTwo(newCapacity)
      modifies this
      ensures Valid() && r == Success && fresh(table) && capacity == newCapacity
      ensures Contents == old(Contents) && count == old(count) && modCount == old(modCount)
      ensures forall k | k in Contents :: EntryOf(k) == old(EntryOf(k))
      ensures SameHashing() && (NoDuplicatePairs(old(Contents)) ==> NoDuplicatePairs(Contents))
    {
      var nt := new seq<Entry<K, V>>[newCapacity](_ => []);
      RehashStart(table[..], nt[..], keyHash, Contents);
      var i := 0;
      while i < capacity
        modifies nt
        invariant 0 <= i <= capacity && Rehashed(table[..], nt[..], keyHash, Contents, i, 0)
      {
        MoveChain(nt, i);
        i := i + 1;
      }
      RehashDone(table[..], nt[..], keyHash, Contents);
      Install(nt);
      r := Success;
    }

    /** The end of Resize: the filled new table replaces the old one and the threshold follows its size. */
    method Install(nt: array<seq<Entry<K, V>>>)
      modifies this
      ensures table == nt && capacity == nt.Length && threshold == thresholdOf(nt.Length)
      ensures count == old(count) && modCount == old(modCount) && Contents == old(Contents)
      ensures SameHashing()
    {
      table, capacity := nt, nt.Length;
      threshold := thresholdOf(capacity);
    }

    /** One bucket of the old table moves, entry by entry, to the heads of the buckets of nt. */
    method MoveChain(nt: array<seq<Entry<K, V>>>, i: nat)
      requires nt != table && i < table.Length && Rehashed(table[..], nt[..], keyHash, Contents, i, 0)
      modifies nt
      ensures Rehashed(table[..], nt[..], keyHash, Contents, i + 1, 0)
    {
      var j := 0;
      while j < |table[i]|
        invariant j <= |table[i]| && Rehashed(table[..], nt[..], keyHash, Contents, i, j)
      {
        var e := table[i][j];
        var s := Slot(e.hash, nt.Length);
        ghost var n := nt[..];
        RehashStep(table[..], n, keyHash, Contents, i, j);
        nt[s] := [e] + nt[s];
        assert nt[..] == n[s := [e] + n[s]];
        j := j + 1;
      }
      RehashNext(table[..], nt[..], keyHash, Contents, i);
    }

    /**
     * Remove(key): a key of the map leaves it with all its values, the
     * count falling by their number; every other key keeps its values. An
     * absent key is ObjNotFound and nothing changes.
     */
    method Remove(key: K) returns (r: Result)
      requires Valid()
      modifies this, table
      ensures Valid()
      ensures r == (if key in old(Contents) then Success else ObjNotFound)
      ensures r == ObjNotFound ==> unchanged(this) && unchanged(table)
      ensures r == Success ==> Contents == old(Contents) - {key} && SameTable() &&
                               count == old(count) - |old(Contents)[key]| && modCount == old(modCount) + 1
      ensures r == Success ==> forall k | k in Contents :: k in old(Contents) && EntryOf(k) == old(EntryOf(k))
      ensures NoDuplicatePairs(old(Contents)) ==> NoDuplicatePairs(Contents)
    {
      var b, j := FindEntry(key);
      if j == -1 {
        return ObjNotFound;
      }
      var n := |table[b][j].values|;
      SumCountsRemove(Contents, key);
      Touched();
      UnlinkEntry(b, j);
      Uncount(n);
      r := Success;
    }

    /** The value-node walk of Remove(key): `__count--` once per value. */
    method Uncount(n: nat)
      requires n <= count
      modifies this
      ensures count == old(count) - n && SameTable() && modCount == old(modCount) && Contents == old(Contents)
    {
      var k := 0;
      while k < n
        invariant k <= n && count == old(count) - k
        invariant SameTable() && modCount == old(modCount) && Contents == old(Contents)
      {
        count := count - 1;
        k := k + 1;
      }
    }

    /**
     * Remove(key, value): the first occurrence of the pair goes, the count
     * falls by one and the entry's modCount moves; a key left without values
     * leaves the map. A pair not in the map is ObjNotFound and nothing changes.
     */
    method RemovePair(key: K, value: V) returns (r: Result)
      requires Valid()
      modifies this, table
      ensures Valid()
      ensures r == (if key in old(Contents) && value in old(Contents)[key] then Success else ObjNotFound)
      ensures r == ObjNotFound ==> unchanged(this) && unchanged(table)
      ensures r == Success ==> Contents == Assign(old(Contents), key, RemoveFirst(old(Contents)[key], value)) &&
                               SameTable() && count == old(count) - 1 && modCount == old(modCount) + 1
      ensures r == Success && key in Contents ==> EntryOf(key).modCount == old(EntryOf(key).modCount) + 1
      ensures r == Success ==> forall k | k in Contents && k != key :: k in old(Contents) && EntryOf(k) == old(EntryOf(k))
      ensures NoDuplicatePairs(old(Contents)) ==> NoDuplicatePairs(Contents)
    {
      var b, j := FindEntry(key);
      if j == -1 {
        return ObjNotFound;
      }
      var e := table[b][j];
      var i := IndexOfValue(e.values, value);
      if i == -1 {
        return ObjNotFound;
      }
      if NoDuplicatePairs(Contents) {
        NoDuplicatesRemove(Contents, key, i);
      }
      DropValue(b, j, i);
      r := Success;
    }

    /** Value i of entry j of bucket b goes: `__modCount++`, `__count--`, and
        the entry's modCount moves, or the entry goes when no value is left. */
    method DropValue(b: nat, j: nat, i: nat)
      requires Valid() && b < table.Length && j < |table[b]| && i < |table[b][j].values|
      modifies this, table
      ensures Valid() && SameTable() && count == old(count) - 1 && modCount == old(modCount) + 1
      ensures var e := old(table[b][j]);
              Contents == Assign(old(Contents), e.key, RemoveSlice(e.values, i, 1)) &&
              (e.key in Contents ==> EntryOf(e.key).modCount == e.modCount + 1) &&
              forall k | k in Contents && k != e.key :: k in old(Contents) && EntryOf(k) == old(EntryOf(k))
    {
      var e := table[b][j];
      var vs := RemoveSlice(e.values, i, 1);
      LocateAt(table[..], keyHash, Contents, b, j);
      SumCountsAssign(Contents, e.key, vs);
      Discounted();
      if vs == [] {
        UnlinkEntry(b, j);
      } else {
        ReplaceEntry(b, j, e.(values := vs, modCount := e.modCount + 1));
      }
    }

    /** RemoveAll(): a map with pairs empties and its modCount moves; an empty map stays as it is. */
    method RemoveAll()
      requires Valid()
      modifies this, table
      ensures Valid() && Contents == map[] && count == 0 && SameTable()
      ensures modCount == old(modCount) + (if old(count) > 0 then 1 else 0)
      ensures NoDuplicatePairs(old(Contents)) ==> NoDuplicatePairs(Contents)
    {
      SumCountsZero(Contents);
      if count > 0 {
        Touched();
        Reset();
        count := 0;
      }
    }

    /** Reset(): every bucket is emptied; the count is left to the caller. */
    method Reset()
      requires Shape()
      modifies this, table
      ensures Shape() && Contents == map[] && SameTable() && count == old(count) && modCount == old(modCount)
      ensures forall b | 0 <= b < table.Length :: table[b] == []
    {
      var i := 0;
      while i < capacity
        modifies table
        invariant 0 <= i <= capacity
        invariant forall b | 0 <= b < i :: table[b] == []
      {
        table[i] := [];
        i := i + 1;
      }
      Contents := map[];
      LaidEmpty(table[..], keyHash);
    }

    /**
     * SetValue(key, value, newValue), as written: the first occurrence of
     * value in key's list becomes newValue at the same position and the
     * map's modCount moves, the entry's does not. When key is present but
     * value is not, the entry's modCount moves and the result is
     * ObjNotFound; when key is absent nothing changes. newValue is not
     * checked against the list, so a duplicate pair can arise.
     */
    method SetValue(key: K, value: V, newValue: V) returns (r: Result)
      requires Valid()
      modifies this, table
      ensures Valid() && SameTable() && count == old(count)
      ensures r == (if key in old(Contents) && value in old(Contents)[key] then Success else ObjNotFound)
      ensures r == Success ==> Contents == old(Contents)[key := ReplaceFirst(old(Contents)[key], value, newValue)] &&
                               modCount == old(modCount) + 1 && EntryOf(key).modCount == old(EntryOf(key).modCount)
      ensures r == ObjNotFound ==> Contents == old(Contents) && modCount == old(modCount)
      ensures r == ObjNotFound && key in old(Contents) ==> EntryOf(key).modCount == old(EntryOf(key).modCount) + 1
      ensures key !in old(Contents) ==> unchanged(this) && unchanged(table)
      ensures forall k | k in old(Contents) && k != key :: EntryOf(k) == old(EntryOf(k))
    {
      var b, j := FindEntry(key);
      if j == -1 {
        return ObjNotFound;
      }
      var e := table[b][j];
      var i := IndexOfValue(e.values, value);
      if i == -1 {
        assert Contents[key := e.values] == Contents;
        RewriteEntry(b, j, e.values, 1);
        return ObjNotFound;
      }
      Touched();
      RewriteEntry(b, j, e.values[i := newValue], 0);
      r := Success;
    }

    /** Entry j of bucket b gets the value list vs, as long as its own, and
        its modCount moves by bump; the count stays. */
    method RewriteEntry(b: nat, j: nat, vs: seq<V>, bump: nat)
      requires Valid() && b < table.Length && j < |table[b]| && |vs| == |table[b][j].values|
      modifies this, table
      ensures Valid() && SameTable() && count == old(count) && modCount == old(modCount)
      ensures var e := old(table[b][j]);
              Contents == old(Contents)[e.key := vs] && EntryOf(e.key).modCount == e.modCount + bump &&
              forall k | k in old(Contents) && k != e.key :: EntryOf(k) == old(EntryOf(k))
    {
      var e := table[b][j];
      LocateAt(table[..], keyHash, Contents, b, j);
      SumCountsUpdate(Contents, e.key, vs);
      ReplaceEntry(b, j, e.(values := vs, modCount := e.modCount + bump));
    }

    /**
     * SetValue with the check Add makes: a newValue the key already holds
     * (other than value itself) is refused with ObjAlreadyExist and nothing
     * changes. Everything else is as SetValue. No duplicate pair arises.
     */
    method SetValueChecked(key: K, value: V, newValue: V) returns (r: Result)
      requires Valid()
      modifies this, table
      ensures Valid() && SameTable() && count == old(count)
      ensures r == (if key !in old(Contents) || value !in old(Contents)[key] then ObjNotFound
                    else if newValue != value && newValue in old(Contents)[key] then ObjAlreadyExist
                    else Success)
      ensures r == Success ==> Contents == old(Contents)[key := ReplaceFirst(old(Contents)[key], value, newValue)] &&
                               modCount == old(modCount) + 1 && EntryOf(key).modCount == old(EntryOf(key).modCount)
      ensures r == ObjNotFound ==> Contents == old(Contents) && modCount == old(modCount)
      ensures r == ObjNotFound && key in old(Contents) ==> EntryOf(key).modCount == old(EntryOf(key).modCount) + 1
      ensures r == ObjAlreadyExist || key !in old(Contents) ==> unchanged(this) && unchanged(table)
      ensures forall k | k in old(Contents) && k != key :: EntryOf(k) == old(EntryOf(k))
      ensures NoDuplicatePairs(old(Contents)) ==> NoDuplicatePairs(Contents)
    {
      var b, j := FindEntry(key);
      if j == -1 {
        return ObjNotFound;
      }
      var e := table[b][j];
      var i := IndexOfValue(e.values, value);
      if i == -1 {
        assert Contents[key := e.values] == Contents;
        RewriteEntry(b, j, e.values, 1);
        return ObjNotFound;
      }
      if newValue != value {
        var k := IndexOfValue(e.values, newValue);
        if k != -1 {
          return ObjAlreadyExist;
        }
      }
      if NoDuplicatePairs(Contents) {
        NoDuplicatesReplace(Contents, key, value, newValue);
      }
      Touched();
      RewriteEntry(b, j, e.values[i := newValue], 0);
      r := Success;
    }

    /** GetCount(): the number of pairs. */
    function GetCount(): (n: nat)
      reads this, table
      requires Valid()
      ensures n == SumCounts(Contents)
    {
      count
    }

    /** GetCount(key, out count): the number of values of a key of the map; ObjNotFound for an absent key. */
    method GetCountOf(key: K) returns (r: Result, n: nat)
      requires Valid()
      ensures r == (if key in Contents then Success else ObjNotFound)
      ensures n == |ValuesOf(Contents, key)|
    {
      var b, j := FindEntry(key);
      if j == -1 {
        return ObjNotFound, 0;
      }
      var values := table[b][j].values;
      n := 0;
      while n < |values|
        invariant n <= |values|
      {
        n := n + 1;
      }
      r := Success;
    }

    /** Contains(key, value, out): always Success; out tells whether the pair is in the map. */
    method Contains(key: K, value: V) returns (r: Result, out: bool)
      requires Valid()
      ensures r == Success && out == (key in Contents && value in Contents[key])
    {
      var b, j := FindEntry(key);
      out := false;
      if j != -1 {
        var i := IndexOfValue(table[b][j].values, value);
        out := i != -1;
      }
      r := Success;
    }

    /** ContainsKey(key, out): always Success; out tells whether the key has values. */
    method ContainsKey(key: K) returns (r: Result, out: bool)
      requires Valid()
      ensures r == Success && out == (key in Contents)
    {
      var b, j := FindEntry(key);
      out := j != -1;
      r := Success;
    }

    /** The entry walk of ContainsValue over one chain: the first entry whose values hold value, -1 when none does. */
    static method ChainValueIndex(chain: seq<Entry<K, V>>, value: V) returns (j: int)
      ensures -1 <= j < |chain|
      ensures j == -1 ==> forall j' | 0 <= j' < |chain| :: value !in chain[j'].values
      ensures j != -1 ==> value in chain[j].values
    {
      j := 0;
      while j < |chain|
        invariant 0 <= j <= |chain|
        invariant forall j' | 0 <= j' < j :: value !in chain[j'].values
      {
        var n := IndexOfValue(chain[j].values, value);
        if n != -1 {
          return;
        }
        j := j + 1;
      }
      j := -1;
    }

    /** ContainsValue(value): whether some key has the value, walking every bucket, entry and value. */
    method ContainsValue(value: V) returns (out: bool)
      requires Valid()
      ensures out == exists k :: k in Contents && value in Contents[k]
    {
      ghost var t: seq<seq<Entry<K, V>>> := table[..];
      var i := 0;
      while i < capacity
        invariant 0 <= i <= capacity
        invariant forall b, j | 0 <= b < i && 0 <= j < |t[b]| :: value !in t[b][j].values
      {
        var j := ChainValueIndex(table[i], value);
        if j != -1 {
          LocateAt(t, keyHash, Contents, i, j);
          return true;
        }
        i := i + 1;
      }
      NoValueLaid(t, keyHash, Contents, value);
      out := false;
    }

    /**
     * GetKeysN(): a new list, made with room for count elements, of the
     * keys in table order: each key of the map once.
     */
    method GetKeysN() returns (list: ArrayLists.ArrayList<K>)
      requires Valid()
      ensures fresh(list) && fresh(list.data) && list.Valid()
      ensures list.Elements() == TailKeys(table[..], 0)
      ensures NoRepeats(list.Elements()) && |list.Elements()| == |Contents|
      ensures forall k :: k in list.Elements() <==> k in Contents
    {
      list := new ArrayLists.ArrayList<K>();
      var r := list.Construct(count);
      assert list.Elements() == [];
      ghost var t := table[..];
      var i := 0;
      while i < capacity
        invariant 0 <= i <= capacity && fresh(list) && fresh(list.data) && list.Valid()
        invariant table[..] == t && list.Elements() + TailKeys(t, i) == TailKeys(t, 0)
      {
        ghost var done := list.Elements();
        AddKeys(list, table[i]);
        TailKeysStep(t, i, done);
        i := i + 1;
      }
      assert TailKeys(t, i) == [] && list.Elements() + [] == list.Elements();
      AllKeys(t, keyHash, Contents);
    }

    /** The entry walk of GetKeysN over one chain: each key goes to the end of the list. */
    static method AddKeys(list: ArrayLists.ArrayList<K>, chain: seq<Entry<K, V>>)
      requires list.Valid()
      modifies list, list.data
      ensures list.Valid() && (list.data == old(list.data) || fresh(list.data))
      ensures list.Elements() == old(list.Elements()) + KeysOf(chain)
    {
      ghost var start := list.Elements();
      var j := 0;
      while j < |chain|
        invariant 0 <= j <= |chain| && list.Valid()
        invariant list.data == old(list.data) || fresh(list.data)
        invariant list.Elements() == start + KeysOf(chain[..j])
      {
        var r := list.Add(chain[j].key);
        assert KeysOf(chain[..j + 1]) == KeysOf(chain[..j]) + [chain[j].key];
        j := j + 1;
      }
      assert chain[..j] == chain;
    }

    /**
     * GetValuesN(): a new list, made with room for count elements, of the
     * values in table order: as many as the map has pairs, each a value of
     * some key.
     */
    method GetValuesN() returns (list: ArrayLists.ArrayList<V>)
      requires Valid()
      ensures fresh(list) && fresh(list.data) && list.Valid()
      ensures list.Elements() == TailValues(table[..], 0)
      ensures |list.Elements()| == count
      ensures forall v :: v in list.Elements() <==> exists k :: k in Contents && v in Contents[k]
    {
      list := CollectValues(table, count);
      AllValues(table[..], keyHash, Contents);
    }

    /** The bucket walk of GetValuesN: a list made with room for n elements
        gets the values of every chain in turn. */
    static method CollectValues(table: array<seq<Entry<K, V>>>, n: nat) returns (list: ArrayLists.ArrayList<V>)
      ensures fresh(list) && fresh(list.data) && list.Valid()
      ensures list.Elements() == TailValues(table[..], 0)
    {
      list := new ArrayLists.ArrayList<V>();
      var r := list.Construct(n);
      assert list.Elements() == [];
      ghost var t := table[..];
      var i := 0;
      while i < table.Length
        invariant 0 <= i <= table.Length && fresh(list) && fresh(list.data) && list.Valid()
        invariant table[..] == t && list.Elements() + TailValues(t, i) == TailValues(t, 0)
      {
        ghost var done := list.Elements();
        AddChainValues(list, table[i]);
        TailValuesStep(t, i, done);
        i := i + 1;
      }
      assert TailValues(t, i) == [] && list.Elements() + [] == list.Elements();
    }

    /** The entry walk of GetValuesN over one chain. */
    static method AddChainValues(list: ArrayLists.ArrayList<V>, chain: seq<Entry<K, V>>)
      requires list.Valid()
      modifies list, list.data
      ensures list.Valid() && (list.data == old(list.data) || fresh(list.data))
      ensures list.Elements() == old(list.Elements()) + ChainValues(chain)
    {
      ghost var start := list.Elements();
      var j := 0;
      while j < |chain|
        invariant 0 <= j <= |chain| && list.Valid()
        invariant list.data == old(list.data) || fresh(list.data)
        invariant list.Elements() == start + ChainValues(chain[..j])
      {
        AddValues(list, chain[j].values);
        ChainValuesSnoc(chain, j);
        Regroup(start, ChainValues(chain[..j]), chain[j].values);
        j := j + 1;
      }
      assert chain[..j] == chain;
    }

    /** The value walk of GetValuesN over one entry. */
    static method AddValues(list: ArrayLists.ArrayList<V>, values: seq<V>)
      requires list.Valid()
      modifies list, list.data
      ensures list.Valid() && (list.data == old(list.data) || fresh(list.data))
      ensures list.Elements() == old(list.Elements()) + values
    {
      ghost var start := list.Elements();
      var n := 0;
      while n < |values|
        invariant 0 <= n <= |values| && list.Valid()
        invariant list.data == old(list.data) || fresh(list.data)
        invariant list.Elements() == start + values[..n]
      {
        var r := list.Add(values[n]);
        assert values[..n + 1] == values[..n] + [values[n]];
        n := n + 1;
      }
      assert values[..n] == values;
    }

    /**
     * GetEnumeratorN(): an enumerator over the pairs in table order, tied
     * to the current modCount. The walk it starts delivers each pair of the
     * map once, count pairs in all.
     */
    method GetEnumeratorN() returns (en: MapEnumerator<K, V>)
      requires Valid()
      ensures fresh(en) && en.source == this && en.modCount == modCount && en.Valid()
      ensures en.Remaining() == TailPairs(table[..], 0)
      ensures forall p :: p in en.Remaining() <==> p.0 in Contents && p.1 in Contents[p.0]
      ensures |en.Remaining()| == count
      ensures NoDuplicatePairs(Contents) ==> NoRepeats(en.Remaining())
    {
      en := new MapEnumerator(this, modCount);
      AllPairs(table[..], keyHash, Contents);
      if NoDuplicatePairs(Contents) {
        TailPairsDistinct(table[..], keyHash, Contents, 0);
      }
    }

    /** GetMapEnumeratorN(): the enumerator GetEnumeratorN makes. */
    method GetMapEnumeratorN() returns (en: MapEnumerator<K, V>)
      requires Valid()
      ensures fresh(en) && en.source == this && en.modCount == modCount && en.Valid()
      ensures en.Remaining() == TailPairs(table[..], 0)
      ensures forall p :: p in en.Remaining() <==> p.0 in Contents && p.1 in Contents[p.0]
      ensures |en.Remaining()| == count
      ensures NoDuplicatePairs(Contents) ==> NoRepeats(en.Remaining())
    {
      en := GetEnumeratorN();
    }

    /**
     * GetValuesN(key): an enumerator over the key's values, tied to its
     * entry's modCount; ObjNotFound and no enumerator for an absent key.
     */
    method GetKeyValuesN(key: K) returns (r: Result, en: ValueEnumerator?<K, V>)
      requires Valid()
      ensures r == (if key in Contents then Success else ObjNotFound)
      ensures r == ObjNotFound ==> en == null
      ensures r == Success ==> en != null && fresh(en) && en.source == this && en.key == key && en.Valid() &&
                               en.Live() && en.Remaining() == Contents[key]
    {
      var b, j := FindEntry(key);
      if j == -1 {
        return ObjNotFound, null;
      }
      en := new ValueEnumerator(this, key, table[b][j].modCount);
      r := Success;
    }

    /**
     * AddAll(map): the pairs of another map, in its table order, are added
     * one by one with Add; the first one refused stops the copy with its
     * result, the pairs added before it staying.
     */
    method AddAll(other: MultiHashMap<K, V>) returns (r: Result)
      requires Valid() && other.Valid() && other != this && other.table != table
      modifies this, table
      ensures Valid()
      ensures (r, Contents) == AddAllSpec(old(Contents), TailPairs(other.table[..], 0))
      ensures SameHashing() && modCount - old(modCount) == count - old(count)
    {
      var en := other.GetMapEnumeratorN();
      ghost var ps := en.Remaining();
      var done := false;
      r := Success;
      while !done
        invariant Valid() && en.Valid() && fresh(en) && en.modCount == other.modCount
        invariant en.source == other && other.table != table && (table == old(table) || fresh(table))
        invariant !done ==> AddAllSpec(Contents, en.Remaining()) == AddAllSpec(old(Contents), ps)
        invariant done ==> (r, Contents) == AddAllSpec(old(Contents), ps)
        invariant SameHashing() && modCount - old(modCount) == count - old(count)
        decreases !done, |en.Remaining()|
      {
        done, r := CopyRound(en);
      }
    }

    /** One round of AddAll: the next pair of the other map is added, unless the walk is over. */
    method CopyRound(en: MapEnumerator<K, V>) returns (done: bool, r: Result)
      requires Valid() && en.Valid() && en.modCount == en.source.modCount
      requires en.source != this && en.source.table != table
      modifies this, table, en
      ensures Valid() && en.Valid() && unchanged(en.source, en.source.table)
      ensures en.source.table != table && (table == old(table) || fresh(table))
      ensures done ==> (r, Contents) == AddAllSpec(old(Contents), old(en.Remaining()))
      ensures !done ==> AddAllSpec(Contents, en.Remaining()) == AddAllSpec(old(Contents), old(en.Remaining()))
      ensures !done ==> |en.Remaining()| < |old(en.Remaining())|
      ensures SameHashing() && modCount - old(modCount) == count - old(count)
    {
      var m, key, value := NextPair(en);
      if m == OutOfRange {
        return true, Success;
      }
      r := AddBeside(key, value, en, en.Remaining());
      done := r != Success;
    }

    /** The enumerator calls of one round of AddAll: MoveNext, then GetKey and GetValue. */
    static method NextPair(en: MapEnumerator<K, V>) returns (m: Result, key: K, value: V)
      requires en.Valid() && en.modCount == en.source.modCount
      modifies en
      ensures en.Valid() && unchanged(en.source, en.source.table)
      ensures m == (if old(en.Remaining()) == [] then OutOfRange else Success)
      ensures m == Success ==> old(en.Remaining()) == [(key, value)] + en.Remaining()
    {
      m := en.MoveNextChecked();
      if m == OutOfRange {
        key, value := *, *;
        return;
      }
      var rk, rv;
      rk, key := en.GetKey();
      rv, value := en.GetValue();
    }

    /** Add seen from AddAll: the pair goes in, and the walk over the other map
        is untouched; rest is what that walk still has to deliver. */
    method AddBeside(key: K, value: V, en: MapEnumerator<K, V>, ghost rest: seq<(K, V)>) returns (r: Result)
      requires Valid() && en.Valid() && en.source != this && en.source.table != table
      modifies this, table
      ensures Valid() && en.source.table != table && unchanged(en, en.source, en.source.table)
      ensures table == old(table) || fresh(table)
      ensures r != Success ==> (r, Contents) == AddAllSpec(old(Contents), [(key, value)] + rest)
      ensures r == Success ==> AddAllSpec(Contents, rest) == AddAllSpec(old(Contents), [(key, value)] + rest)
      ensures SameHashing() && modCount - old(modCount) == count - old(count)
    {
      AddAllStep(Contents, key, value, rest);
      r := Add(key, value);
    }
  }

  /** The pairs of ps added to C one after the other as Add adds them,
      stopping at the first pair already present: the result and the new multimap. */
  ghost function AddAllSpec<K, V>(C: map<K, seq<V>>, ps: seq<(K, V)>): (Result, map<K, seq<V>>)
    decreases |ps|
  {
    if ps == [] then (Success, C)
    else if ps[0].1 in ValuesOf(C, ps[0].0) then (ObjAlreadyExist, C)
    else AddAllSpec(C[ps[0].0 := ValuesOf(C, ps[0].0) + [ps[0].1]], ps[1..])
  }

  /** The copy of a pair followed by more pairs. */
  lemma AddAllStep<K, V>(C: map<K, seq<V>>, k: K, v: V, rest: seq<(K, V)>)
    ensures AddAllSpec(C, [(k, v)] + rest) ==
            if v in ValuesOf(C, k) then (ObjAlreadyExist, C) else AddAllSpec(C[k := ValuesOf(C, k) + [v]], rest)
  {
    assert ([(k, v)] + rest)[1..] == rest;
  }

  /** Copying pairs keeps a multimap free of duplicate pairs. */
  lemma {:induction false} AddAllNoDuplicates<K, V>(C: map<K, seq<V>>, ps: seq<(K, V)>)
    requires NoDuplicatePairs(C)
    ensures NoDuplicatePairs(AddAllSpec(C, ps).1)
    decreases |ps|
  {
    if ps != [] && ps[0].1 !in ValuesOf(C, ps[0].0) {
      NoDuplicatesAppend(C, ps[0].0, ps[0].1);
      AddAllNoDuplicates(C[ps[0].0 := ValuesOf(C, ps[0].0) + [ps[0].1]], ps[1..]);
    }
  }

  /** A copy that succeeds keeps every pair the multimap had and holds every pair copied. */
  lemma {:induction false} AddAllHasPairs<K, V>(C: map<K, seq<V>>, ps: seq<(K, V)>)
    requires AddAllSpec(C, ps).0 == Success
    ensures forall k, v | k in C && v in C[k] :: k in AddAllSpec(C, ps).1 && v in AddAllSpec(C, ps).1[k]
    ensures forall n | 0 <= n < |ps| :: ps[n].0 in AddAllSpec(C, ps).1 && ps[n].1 in AddAllSpec(C, ps).1[ps[n].0]
    decreases |ps|
  {
    if ps != [] {
      var k0, v0 := ps[0].0, ps[0].1;
      var D := C[k0 := ValuesOf(C, k0) + [v0]];
      assert AddAllSpec(C, ps) == AddAllSpec(D, ps[1..]);
      var E := AddAllSpec(D, ps[1..]).1;
      AddAllHasPairs(D, ps[1..]);
      forall k, v | k in C && v in C[k]
        ensures k in E && v in E[k]
      {
        if k == k0 {
          assert D[k] == C[k] + [v0];
        }
        assert k in D && v in D[k];
      }
      assert D[k0][|D[k0]| - 1] == v0;
      forall n | 0 <= n < |ps|
        ensures ps[n].0 in E && ps[n].1 in E[ps[n].0]
      {
        if n > 0 {
          assert ps[n] == ps[1..][n - 1];
        } else {
          assert k0 in D && v0 in D[k0];
        }
      }
    }
  }

  /**
   * __MultiHashMapEnumeratorT: a walk over the pairs of a map in table
   * order, positioned by an entry pointer, a value-node pointer and a
   * bucket index. Every operation first checks that the map's modCount is
   * still the one the enumerator was made with.
   */
  class MapEnumerator<K(==,0,!new), V(==,0,!new)> {
    const source: MultiHashMap<K, V>   // __map
    const modCount: nat                // __modCount
    var entry: EntryPtr                // __pEntry
    var node: NodePtr                  // __pNode
    var index: int                     // __index

    constructor (source: MultiHashMap<K, V>, modCount: nat)
      ensures this.source == source && this.modCount == modCount
      ensures entry == NoEntry && node == NoNode && index == -1
    {
      this.source, this.modCount := source, modCount;
      entry, node, index := NoEntry, NoNode, -1;
    }

    /** The three position fields together. */
    function At(): Cursor
      reads this
    {
      Cursor(entry, node, index)
    }

    /** The map is valid, and the position fits its table while the map has not changed. */
    ghost predicate Valid()
      reads this, source, source.table
    {
      source.Valid() && (modCount == source.modCount ==> PositionedIn(source.table[..], At()))
    }

    /** The pairs the walk has still to deliver. */
    ghost function Remaining(): seq<(K, V)>
      reads this, source, source.table
      requires source.Valid() && PositionedIn(source.table[..], At())
    {
      RemainingIn(source.table[..], At())
    }

    /** Both pointers are set. */
    predicate HasCurrent()
      reads this
    {
      HasCurrentAt(At())
    }

    /** The pair under the pointers. */
    ghost function Current(): (K, V)
      reads this, source, source.table
      requires source.Valid() && PositionedIn(source.table[..], At()) && HasCurrent()
    {
      CurrentIn(source.table[..], At())
    }

    /**
     * MoveNext(): on to the next value of the entry, else to the head of
     * the next entry of the chain, else to the head of the next bucket that
     * has one; OutOfRange when none is left. The walk delivers the
     * remaining pairs one at a time. Past the end, the pointers still name
     * the last pair when it sat in the last bucket, and are cleared
     * otherwise.
     */
    method MoveNext() returns (r: Result)
      requires Valid()
      modifies this
      ensures Valid()
      ensures modCount != source.modCount ==> r == InvalidOperation && unchanged(this)
      ensures modCount == source.modCount ==> Stepped(source.table[..], old(At()), At(), r)
    {
      if modCount != source.modCount {
        return InvalidOperation;
      }
      LaidFilled(source.table[..], source.keyHash, source.Contents);
      var c := At();
      var d;
      r, d := StepCursor(source.table, c);
      Move(d);
    }

    /**
     * MoveNext as its documentation describes it: past the last pair
     * there is no current pair, so the pointers are cleared whenever the
     * walk runs out.
     */
    method MoveNextChecked() returns (r: Result)
      requires Valid()
      modifies this
      ensures Valid()
      ensures modCount != source.modCount ==> r == InvalidOperation && unchanged(this)
      ensures modCount == source.modCount ==> SteppedChecked(source.table[..], old(At()), At(), r)
    {
      if modCount != source.modCount {
        return InvalidOperation;
      }
      LaidFilled(source.table[..], source.keyHash, source.Contents);
      var d;
      r, d := StepCursorChecked(source.table, At());
      Move(d);
    }

    /** The pointer and index assignments of a step. */
    method Move(d: Cursor)
      requires source.Valid() && modCount == source.modCount && PositionedIn(source.table[..], d)
      modifies this
      ensures At() == d && Valid()
    {
      entry, node, index := d.entry, d.node, d.index;
    }

    /** GetCurrent(): the pair under the pointers, unless the map changed or a pointer is not set. */
    method GetCurrent() returns (r: Result, p: (K, V))
      requires Valid()
      ensures r == (if modCount == source.modCount && HasCurrent() then Success else InvalidOperation)
      ensures r == Success ==> p == Current()
    {
      if modCount != source.modCount || !HasCurrent() {
        p := *;
        return InvalidOperation, p;
      }
      var e := source.table[entry.b][entry.j];
      r, p := Success, (e.key, e.values[node.n]);
    }

    /** GetKey(): the key of the pair under the pointers. */
    method GetKey() returns (r: Result, key: K)
      requires Valid()
      ensures r == (if modCount == source.modCount && HasCurrent() then Success else InvalidOperation)
      ensures r == Success ==> key == Current().0
    {
      if modCount != source.modCount || !HasCurrent() {
        key := *;
        return InvalidOperation, key;
      }
      r, key := Success, source.table[entry.b][entry.j].key;
    }

    /** GetValue(): the value of the pair under the pointers. */
    method GetValue() returns (r: Result, value: V)
      requires Valid()
      ensures r == (if modCount == source.modCount && HasCurrent() then Success else InvalidOperation)
      ensures r == Success ==> value == Current().1
    {
      if modCount != source.modCount || !HasCurrent() {
        value := *;
        return InvalidOperation, value;
      }
      r, value := Success, source.table[entry.b][entry.j].values[node.n];
    }

    /** Reset(): back before the first pair, so the whole walk is to come again. */
    method Reset() returns (r: Result)
      requires Valid()
      modifies this
      ensures Valid()
      ensures r == (if modCount == source.modCount then Success else InvalidOperation)
      ensures r == InvalidOperation ==> unchanged(this)
      ensures r == Success ==> !HasCurrent() && Remaining() == TailPairs(source.table[..], 0)
    {
      if modCount != source.modCount {
        return InvalidOperation;
      }
      index, entry, node := -1, NoEntry, NoNode;
      r := Success;
    }
  }

  /**
   * __EntryValueEnumeratorT: a walk over the values of one key, positioned
   * by a value-node pointer (-1 for none), checking the modCount of the
   * key's entry. The entry is named by its key.
   */
  class ValueEnumerator<K(==,0,!new), V(==,0,!new)> {
    const source: MultiHashMap<K, V>
    const key: K
    const modCount: nat   // __modCount: the entry's modCount when the enumerator was made
    var node: int         // __pNode, as a position in the entry's value list

    constructor (source: MultiHashMap<K, V>, key: K, modCount: nat)
      ensures this.source == source && this.key == key && this.modCount == modCount && node == -1
    {
      this.source, this.key, this.modCount := source, key, modCount;
      node := -1;
    }

    /** The key still has its entry, and the entry has not changed since the enumerator was made. */
    ghost predicate Live()
      reads this, source, source.table
      requires source.Valid()
    {
      key in source.Contents && source.EntryOf(key).modCount == modCount
    }

    /** The map is valid, and the position fits the key's values while the entry is live. */
    ghost predicate Valid()
      reads this, source, source.table
    {
      source.Valid() && node >= -1 && (Live() ==> node < |source.Contents[key]|)
    }

    /** The values the walk has still to deliver. */
    ghost function Remaining(): seq<V>
      reads this, source, source.table
      requires Valid() && Live()
    {
      source.Contents[key][node + 1..]
    }

    /** The key's entry and whether it is live. */
    method Check() returns (live: bool, values: seq<V>)
      requires Valid()
      ensures live == Live() && (live ==> values == source.Contents[key])
    {
      var b, j := source.FindEntry(key);
      live := j != -1 && source.table[b][j].modCount == modCount;
      values := if j != -1 then source.table[b][j].values else [];
    }

    /** MoveNext(): on to the head of the value list, else to the next value; OutOfRange past the last. */
    method MoveNext() returns (r: Result)
      requires Valid()
      modifies this
      ensures Valid()
      ensures !Live() ==> r == InvalidOperation && unchanged(this)
      ensures Live() ==> r == (if old(Remaining()) == [] then OutOfRange else Success) &&
                         (r == Success ==> node >= 0 && [source.Contents[key][node]] + Remaining() == old(Remaining())) &&
                         (r == OutOfRange ==> node == old(node))
    {
      var live, values := Check();
      if !live {
        return InvalidOperation;
      }
      if node == -1 || node + 1 < |values| {
        ValueStep(values, node + 1);
        node := node + 1;
        r := Success;
      } else {
        r := OutOfRange;
      }
    }

    /** GetCurrent(): the value under the pointer, unless the entry changed or the pointer is not set. */
    method GetCurrent() returns (r: Result, value: V)
      requires Valid()
      ensures r == (if Live() && node >= 0 then Success else InvalidOperation)
      ensures r == Success ==> value == source.Contents[key][node]
    {
      var live, values := Check();
      if !live || node < 0 {
        value := *;
        return InvalidOperation, value;
      }
      r, value := Success, values[node];
    }

    /** Reset(): back before the first value. */
    method Reset() returns (r: Result)
      requires Valid()
      modifies this
      ensures Valid()
      ensures r == (if Live() then Success else InvalidOperation)
      ensures r == InvalidOperation ==> unchanged(this)
      ensures r == Success ==> node == -1 && Remaining() == source.Contents[key]
    {
      var live, values := Check();
      if !live {
        return InvalidOperation;
      }
      node := -1;
      r := Success;
    }
  }
}
