/**
 * The bucket table of MultiHashMapT as a value: a sequence of chains, one
 * per bucket, each chain a sequence of entries. Laid(t, h, C) says that t
 * lays out the multimap C (each key with its values in order) under the
 * hash function h; the lemmas say which edits of a table keep that so.
 */
module Buckets {
  import opened Collections

  /** The low bits of h below the power of two c: h & (c - 1), one bit at a time. */
  function LowBits(h: nat, c: nat): (r: nat)
    requires c > 0
    ensures r < c
    decreases c
  {
    if c == 1 then 0 else 2 * LowBits(h / 2, c / 2) + h % 2
  }

  /** The bucket a hash selects: hash & (capacity - 1), the low bits of the
      hash read as an unsigned number. */
  function Slot(hash: bv32, capacity: nat): (i: nat)
    requires capacity > 0
    ensures i < capacity
  {
    LowBits(hash as int, capacity)
  }

  /** __MultiHashMapEntryT: a key, its hash, its values (the pList chain of
      __ValueNodeT, first to last) and the modCount its value enumerators
      check. The pNext link is the entry's place in its bucket's chain. */
  datatype Entry<K, V> = Entry(key: K, hash: bv32, values: seq<V>, modCount: nat)

  /** The keys of a chain, in chain order. */
  function KeysOf<K, V>(chain: seq<Entry<K, V>>): (ks: seq<K>)
    ensures |ks| == |chain| && forall j :: 0 <= j < |chain| ==> ks[j] == chain[j].key
  {
    seq(|chain|, j requires 0 <= j < |chain| => chain[j].key)
  }

  /** No key occurs twice in a chain. */
  ghost predicate DistinctKeys<K, V>(chain: seq<Entry<K, V>>) {
    forall j1, j2 :: 0 <= j1 < j2 < |chain| ==> chain[j1].key != chain[j2].key
  }

  /** Entry e sits rightly in bucket b of a table of n buckets: its hash is
      its key's, that hash selects b, and it holds the key's values. */
  ghost predicate Placed<K, V>(e: Entry<K, V>, b: int, n: nat, h: K -> bv32, C: map<K, seq<V>>)
    requires n > 0
  {
    e.hash == h(e.key) && Slot(e.hash, n) == b && e.key in C && e.values == C[e.key]
  }

  /** Every entry of chain b of t belongs there. */
  ghost predicate AllPlaced<K, V>(t: seq<seq<Entry<K, V>>>, h: K -> bv32, C: map<K, seq<V>>)
    requires |t| > 0
  {
    forall b, j | 0 <= b < |t| && 0 <= j < |t[b]| :: Placed(t[b][j], b, |t|, h, C)
  }

  /** No chain of t has a key twice. */
  ghost predicate AllDistinct<K, V>(t: seq<seq<Entry<K, V>>>) {
    forall b | 0 <= b < |t| :: DistinctKeys(t[b])
  }

  /** Every key of C has at least one value and an entry in its bucket. */
  ghost predicate AllFound<K, V>(t: seq<seq<Entry<K, V>>>, h: K -> bv32, C: map<K, seq<V>>)
    requires |t| > 0
  {
    forall k | k in C :: |C[k]| > 0 && k in KeysOf(t[Slot(h(k), |t|)])
  }

  /** Table t lays out multimap C under hash h: every entry of a chain
      belongs there, no chain has a key twice, and every key of C, with at
      least one value, has an entry in its bucket. */
  ghost predicate Laid<K, V>(t: seq<seq<Entry<K, V>>>, h: K -> bv32, C: map<K, seq<V>>) {
    |t| > 0 && AllPlaced(t, h, C) && AllDistinct(t) && AllFound(t, h, C)
  }

  /** The position of key k's entry in its bucket. */
  ghost function Locate<K, V>(t: seq<seq<Entry<K, V>>>, h: K -> bv32, C: map<K, seq<V>>, k: K): (j: nat)
    requires Laid(t, h, C) && k in C
    ensures j < |t[Slot(h(k), |t|)]| && t[Slot(h(k), |t|)][j].key == k
  {
    FirstIndex(KeysOf(t[Slot(h(k), |t|)]), k)
  }

  /** The entry of key k: its key, hash and values are k's. */
  ghost function EntryIn<K, V>(t: seq<seq<Entry<K, V>>>, h: K -> bv32, C: map<K, seq<V>>, k: K): (e: Entry<K, V>)
    requires Laid(t, h, C) && k in C
    ensures e.key == k && e.hash == h(k) && e.values == C[k]
  {
    t[Slot(h(k), |t|)][Locate(t, h, C, k)]
  }

  /** A table of empty chains lays out the empty multimap. */
  lemma LaidEmpty<K, V>(t: seq<seq<Entry<K, V>>>, h: K -> bv32)
    requires |t| > 0 && forall b | 0 <= b < |t| :: t[b] == []
    ensures Laid(t, h, map[])
  {
  }

  /** In a chain without repeated keys, a key's position is the one where it is found first. */
  lemma FirstIndexDistinct<K, V>(c: seq<Entry<K, V>>, j: nat)
    requires DistinctKeys(c) && j < |c|
    ensures FirstIndex(KeysOf(c), c[j].key) == j
  {
    var i := FirstIndex(KeysOf(c), c[j].key);
    assert KeysOf(c)[i] == c[i].key;
  }

  /** An entry at position j of chain b is the key's only one: it is where Locate finds the key. */
  lemma LocateAt<K, V>(t: seq<seq<Entry<K, V>>>, h: K -> bv32, C: map<K, seq<V>>, b: nat, j: nat)
    requires Laid(t, h, C) && b < |t| && j < |t[b]|
    ensures t[b][j].key in C && Slot(h(t[b][j].key), |t|) == b && Locate(t, h, C, t[b][j].key) == j
  {
    assert Placed(t[b][j], b, |t|, h, C);
    FirstIndexDistinct(t[b], j);
  }

  /** The keys of an entry put in front of a chain. */
  lemma KeysCons<K, V>(e: Entry<K, V>, c: seq<Entry<K, V>>)
    ensures KeysOf([e] + c) == [e.key] + KeysOf(c)
    ensures DistinctKeys(c) && e.key !in KeysOf(c) ==> DistinctKeys([e] + c)
  {
    assert KeysOf([e] + c) == [e.key] + KeysOf(c);
    if DistinctKeys(c) && e.key !in KeysOf(c) {
      forall j1, j2 | 0 <= j1 < j2 < |c| + 1
        ensures ([e] + c)[j1].key != ([e] + c)[j2].key
      {
        assert ([e] + c)[j2] == c[j2 - 1];
        if j1 > 0 {
          assert ([e] + c)[j1] == c[j1 - 1];
        } else {
          assert KeysOf(c)[j2 - 1] == c[j2 - 1].key;
        }
      }
    }
  }

  /** The keys of a chain with entry j taken out: all but that entry's. */
  lemma KeysRemove<K, V>(c: seq<Entry<K, V>>, j: nat)
    requires DistinctKeys(c) && j < |c|
    ensures DistinctKeys(RemoveSlice(c, j, 1))
    ensures forall k :: k in KeysOf(RemoveSlice(c, j, 1)) <==> k in KeysOf(c) && k != c[j].key
  {
    var c' := RemoveSlice(c, j, 1);
    forall j1, j2 | 0 <= j1 < j2 < |c'|
      ensures c'[j1].key != c'[j2].key
    {
      var i1 := if j1 >= j then j1 + 1 else j1;
      var i2 := if j2 >= j then j2 + 1 else j2;
      assert c'[j1] == c[i1] && c'[j2] == c[i2];
    }
    KeysRemoveMembers(c, j);
  }

  /** The membership half of KeysRemove. */
  lemma KeysRemoveMembers<K, V>(c: seq<Entry<K, V>>, j: nat)
    requires DistinctKeys(c) && j < |c|
    ensures forall k :: k in KeysOf(RemoveSlice(c, j, 1)) <==> k in KeysOf(c) && k != c[j].key
  {
    var c' := RemoveSlice(c, j, 1);
    var ks, ks' := KeysOf(c), KeysOf(c');
    forall i | 0 <= i < |c'|
      ensures ks'[i] in ks && ks'[i] != c[j].key
    {
      var i' := if i >= j then i + 1 else i;
      assert c'[i] == c[i'] && ks[i'] == ks'[i];
    }
    forall i | 0 <= i < |c| && i != j
      ensures ks[i] in ks'
    {
      var i' := if i > j then i - 1 else i;
      assert c'[i'] == c[i] && ks'[i'] == ks[i];
    }
  }

  /** Replacing entry j of chain b by one with the same key and hash and a
      nonempty value list sets that key's values and keeps the layout. */
  lemma LaidReplace<K, V>(t: seq<seq<Entry<K, V>>>, h: K -> bv32, C: map<K, seq<V>>, b: nat, j: nat, e': Entry<K, V>)
    requires Laid(t, h, C) && b < |t| && j < |t[b]|
    requires e'.key == t[b][j].key && e'.hash == t[b][j].hash && |e'.values| > 0
    ensures Laid(t[b := t[b][j := e']], h, C[e'.key := e'.values])
  {
    var t' := t[b := t[b][j := e']];
    var C' := C[e'.key := e'.values];
    assert Placed(t[b][j], b, |t|, h, C);
    assert KeysOf(t'[b]) == KeysOf(t[b]);
    forall b2, j2 | 0 <= b2 < |t'| && 0 <= j2 < |t'[b2]|
      ensures Placed(t'[b2][j2], b2, |t'|, h, C')
    {
      if b2 != b || j2 != j {
        assert t'[b2][j2] == t[b2][j2];
        assert Placed(t[b2][j2], b2, |t|, h, C);
        if b2 == b {
          assert DistinctKeys(t[b]);
        }
      }
    }
    forall b2 | 0 <= b2 < |t'|
      ensures DistinctKeys(t'[b2])
    {
      assert DistinctKeys(t[b2]);
    }
    forall k | k in C'
      ensures |C'[k]| > 0 && k in KeysOf(t'[Slot(h(k), |t'|)])
    {
      if k == e'.key {
        assert KeysOf(t'[b])[j] == k;
      } else {
        assert k in KeysOf(t[Slot(h(k), |t|)]);
      }
    }
  }

  /** A new key's entry put at the head of its bucket adds the key with its values. */
  lemma LaidInsert<K, V>(t: seq<seq<Entry<K, V>>>, h: K -> bv32, C: map<K, seq<V>>, e: Entry<K, V>)
    requires Laid(t, h, C) && e.key !in C && e.hash == h(e.key) && |e.values| > 0
    ensures var s := Slot(e.hash, |t|); Laid(t[s := [e] + t[s]], h, C[e.key := e.values])
  {
    var s := Slot(e.hash, |t|);
    var t' := t[s := [e] + t[s]];
    var C' := C[e.key := e.values];
    KeysCons(e, t[s]);
    forall i | 0 <= i < |t[s]|
      ensures KeysOf(t[s])[i] != e.key
    {
      assert Placed(t[s][i], s, |t|, h, C);
    }
    forall b2, j2 | 0 <= b2 < |t'| && 0 <= j2 < |t'[b2]|
      ensures Placed(t'[b2][j2], b2, |t'|, h, C')
    {
      if b2 != s {
        assert Placed(t[b2][j2], b2, |t|, h, C);
      } else if j2 > 0 {
        assert t'[b2][j2] == t[s][j2 - 1];
        assert Placed(t[s][j2 - 1], s, |t|, h, C);
      }
    }
    forall b2 | 0 <= b2 < |t'|
      ensures DistinctKeys(t'[b2])
    {
      assert DistinctKeys(t[b2]);
    }
    forall k | k in C'
      ensures |C'[k]| > 0 && k in KeysOf(t'[Slot(h(k), |t'|)])
    {
      if k != e.key {
        assert k in KeysOf(t[Slot(h(k), |t|)]);
      }
    }
  }

  /** Taking entry j out of chain b removes its key, and only its key. */
  lemma LaidUnlink<K, V>(t: seq<seq<Entry<K, V>>>, h: K -> bv32, C: map<K, seq<V>>, b: nat, j: nat)
    requires Laid(t, h, C) && b < |t| && j < |t[b]|
    ensures Laid(t[b := RemoveSlice(t[b], j, 1)], h, C - {t[b][j].key})
  {
    var x := t[b][j].key;
    var t' := t[b := RemoveSlice(t[b], j, 1)];
    var C' := C - {x};
    assert Placed(t[b][j], b, |t|, h, C);
    assert DistinctKeys(t[b]);
    KeysRemove(t[b], j);
    forall b2, j2 | 0 <= b2 < |t'| && 0 <= j2 < |t'[b2]|
      ensures Placed(t'[b2][j2], b2, |t'|, h, C')
    {
      var j3 := if b2 == b && j2 >= j then j2 + 1 else j2;
      assert t'[b2][j2] == t[b2][j3];
      assert Placed(t[b2][j3], b2, |t|, h, C);
    }
    forall b2 | 0 <= b2 < |t'|
      ensures DistinctKeys(t'[b2])
    {
      assert DistinctKeys(t[b2]);
    }
    forall k | k in C'
      ensures |C'[k]| > 0 && k in KeysOf(t'[Slot(h(k), |t'|)])
    {
      assert k in KeysOf(t[Slot(h(k), |t|)]);
    }
  }

  /** A key whose entry under t' sits, the same, at position p of its chain in t has that entry under t too. */
  lemma EntryKept<K, V>(t: seq<seq<Entry<K, V>>>, t': seq<seq<Entry<K, V>>>, h: K -> bv32, C: map<K, seq<V>>, C': map<K, seq<V>>, k: K, p: nat)
    requires Laid(t, h, C) && Laid(t', h, C') && k in C && k in C' && |t'| == |t|
    requires p < |t[Slot(h(k), |t|)]| && t[Slot(h(k), |t|)][p] == EntryIn(t', h, C', k)
    ensures EntryIn(t', h, C', k) == EntryIn(t, h, C, k)
  {
    LocateAt(t, h, C, Slot(h(k), |t|), p);
  }

  /** With e as its new head, position p > 0 of a chain holds what position p - 1 held. */
  lemma HeadShift<K, V>(t: seq<seq<Entry<K, V>>>, s: nat, e: Entry<K, V>, p: nat)
    requires s < |t| && p <= |t[s]|
    ensures t[s := [e] + t[s]][s][0] == e
    ensures p > 0 ==> t[s := [e] + t[s]][s][p] == t[s][p - 1]
  {
  }

  /** Once entry j of chain b is unlinked, the entries behind it move up one place. */
  lemma UnlinkShift<K, V>(t: seq<seq<Entry<K, V>>>, b: nat, j: nat, s: nat, p: nat)
    requires b < |t| && j < |t[b]| && s < |t| && p < |t[b := RemoveSlice(t[b], j, 1)][s]|
    ensures var p' := if s == b && p >= j then p + 1 else p;
            p' < |t[s]| && t[b := RemoveSlice(t[b], j, 1)][s][p] == t[s][p']
  {
  }

  /** Replacing entry j of chain b leaves every other key's entry as it was. */
  lemma ReplaceKeepsOthers<K, V>(t: seq<seq<Entry<K, V>>>, h: K -> bv32, C: map<K, seq<V>>, b: nat, j: nat, e': Entry<K, V>)
    requires Laid(t, h, C) && b < |t| && j < |t[b]|
    requires e'.key == t[b][j].key && e'.hash == t[b][j].hash && |e'.values| > 0
    ensures Laid(t[b := t[b][j := e']], h, C[e'.key := e'.values])
    ensures forall k | k in C && k != e'.key ::
              EntryIn(t[b := t[b][j := e']], h, C[e'.key := e'.values], k) == EntryIn(t, h, C, k)
  {
    var t', C' := t[b := t[b][j := e']], C[e'.key := e'.values];
    LaidReplace(t, h, C, b, j, e');
    forall k | k in C && k != e'.key
      ensures EntryIn(t', h, C', k) == EntryIn(t, h, C, k)
    {
      var s, p := Slot(h(k), |t|), Locate(t', h, C', k);
      assert t'[s][p] == t[s][p];
      EntryKept(t, t', h, C, C', k, p);
    }
  }

  /** A new entry at the head of a chain leaves every key's entry as it was. */
  lemma InsertKeepsOthers<K, V>(t: seq<seq<Entry<K, V>>>, h: K -> bv32, C: map<K, seq<V>>, e: Entry<K, V>)
    requires Laid(t, h, C) && e.key !in C && e.hash == h(e.key) && |e.values| > 0
    ensures var s := Slot(e.hash, |t|); Laid(t[s := [e] + t[s]], h, C[e.key := e.values])
    ensures var s := Slot(e.hash, |t|);
            forall k | k in C :: EntryIn(t[s := [e] + t[s]], h, C[e.key := e.values], k) == EntryIn(t, h, C, k)
  {
    LaidInsert(t, h, C, e);
    forall k | k in C
      ensures var s := Slot(e.hash, |t|); EntryIn(t[s := [e] + t[s]], h, C[e.key := e.values], k) == EntryIn(t, h, C, k)
    {
      InsertKeepsKey(t, h, C, e, k);
    }
  }

  /** The one-key step of InsertKeepsOthers. */
  lemma InsertKeepsKey<K, V>(t: seq<seq<Entry<K, V>>>, h: K -> bv32, C: map<K, seq<V>>, e: Entry<K, V>, k: K)
    requires Laid(t, h, C) && e.key !in C && e.hash == h(e.key) && k in C
    requires var s := Slot(e.hash, |t|); Laid(t[s := [e] + t[s]], h, C[e.key := e.values])
    ensures var s := Slot(e.hash, |t|); EntryIn(t[s := [e] + t[s]], h, C[e.key := e.values], k) == EntryIn(t, h, C, k)
  {
    var s := Slot(e.hash, |t|);
    var t', C' := t[s := [e] + t[s]], C[e.key := e.values];
    var s', p := Slot(h(k), |t|), Locate(t', h, C', k);
    if s' == s {
      HeadShift(t, s, e, p);
      assert p > 0;
      EntryKept(t, t', h, C, C', k, p - 1);
    } else {
      OtherChainKept(t, t', h, C, C', k, s);
    }
  }

  /** A key whose chain is not the one that changed keeps its entry. */
  lemma OtherChainKept<K, V>(t: seq<seq<Entry<K, V>>>, t': seq<seq<Entry<K, V>>>, h: K -> bv32, C: map<K, seq<V>>, C': map<K, seq<V>>, k: K, s: nat)
    requires Laid(t, h, C) && Laid(t', h, C') && k in C && k in C' && |t'| == |t| && s < |t|
    requires Slot(h(k), |t|) != s && t' == t[s := t'[s]]
    ensures EntryIn(t', h, C', k) == EntryIn(t, h, C, k)
  {
    var s' := Slot(h(k), |t|);
    assert t'[s'] == t[s'];
    EntryKept(t, t', h, C, C', k, Locate(t', h, C', k));
  }

  /** Unlinking entry j of chain b leaves every other key's entry as it was. */
  lemma UnlinkKeepsOthers<K, V>(t: seq<seq<Entry<K, V>>>, h: K -> bv32, C: map<K, seq<V>>, b: nat, j: nat)
    requires Laid(t, h, C) && b < |t| && j < |t[b]|
    ensures Laid(t[b := RemoveSlice(t[b], j, 1)], h, C - {t[b][j].key})
    ensures forall k | k in C - {t[b][j].key} ::
              EntryIn(t[b := RemoveSlice(t[b], j, 1)], h, C - {t[b][j].key}, k) == EntryIn(t, h, C, k)
  {
    var t', C' := t[b := RemoveSlice(t[b], j, 1)], C - {t[b][j].key};
    LaidUnlink(t, h, C, b, j);
    forall k | k in C'
      ensures EntryIn(t', h, C', k) == EntryIn(t, h, C, k)
    {
      var s, p := Slot(h(k), |t|), Locate(t', h, C', k);
      var p' := if s == b && p >= j then p + 1 else p;
      UnlinkShift(t, b, j, s, p);
      EntryKept(t, t', h, C, C', k, p');
    }
  }

  /** Resize's progress over the old table t: key k's entry has moved once
      all buckets before i and the first j entries of bucket i have. */
  ghost predicate Moved<K, V>(t: seq<seq<Entry<K, V>>>, h: K -> bv32, C: map<K, seq<V>>, k: K, i: int, j: int)
    requires Laid(t, h, C) && k in C
  {
    var s := Slot(h(k), |t|);
    s < i || (s == i && Locate(t, h, C, k) < j)
  }

  /** The entries of the new table nt are entries of t that have moved, each
      in the bucket its hash selects among |nt|. */
  ghost predicate MovedPlaced<K, V>(t: seq<seq<Entry<K, V>>>, nt: seq<seq<Entry<K, V>>>, h: K -> bv32, C: map<K, seq<V>>, i: int, j: int)
    requires Laid(t, h, C) && |nt| > 0
  {
    forall b, j' | 0 <= b < |nt| && 0 <= j' < |nt[b]| ::
      nt[b][j'].key in C && nt[b][j'] == EntryIn(t, h, C, nt[b][j'].key) &&
      Slot(nt[b][j'].hash, |nt|) == b && Moved(t, h, C, nt[b][j'].key, i, j)
  }

  /** Every key that has moved is in its bucket of nt. */
  ghost predicate MovedFound<K, V>(t: seq<seq<Entry<K, V>>>, nt: seq<seq<Entry<K, V>>>, h: K -> bv32, C: map<K, seq<V>>, i: int, j: int)
    requires Laid(t, h, C) && |nt| > 0
  {
    forall k | k in C && Moved(t, h, C, k, i, j) :: k in KeysOf(nt[Slot(h(k), |nt|)])
  }

  /** The loop invariant of Resize: the new table nt holds the entries of t
      that have moved, and only those, with no key twice in a chain. */
  ghost predicate Rehashed<K, V>(t: seq<seq<Entry<K, V>>>, nt: seq<seq<Entry<K, V>>>, h: K -> bv32, C: map<K, seq<V>>, i: int, j: int) {
    Laid(t, h, C) && |nt| > 0 && 0 <= i <= |t| && 0 <= j &&
    (i < |t| ==> j <= |t[i]|) && (i == |t| ==> j == 0) &&
    MovedPlaced(t, nt, h, C, i, j) && AllDistinct(nt) && MovedFound(t, nt, h, C, i, j)
  }

  /** An empty new table is where Resize starts. */
  lemma RehashStart<K, V>(t: seq<seq<Entry<K, V>>>, nt: seq<seq<Entry<K, V>>>, h: K -> bv32, C: map<K, seq<V>>)
    requires Laid(t, h, C) && |nt| > 0 && forall b | 0 <= b < |nt| :: nt[b] == []
    ensures Rehashed(t, nt, h, C, 0, 0)
  {
  }

  /** Moving entry j of bucket i adds exactly its key to those that have moved. */
  lemma MovedStep<K, V>(t: seq<seq<Entry<K, V>>>, h: K -> bv32, C: map<K, seq<V>>, i: nat, j: nat)
    requires Laid(t, h, C) && i < |t| && j < |t[i]|
    ensures t[i][j].key in C && !Moved(t, h, C, t[i][j].key, i, j) && Moved(t, h, C, t[i][j].key, i, j + 1)
    ensures forall k | k in C :: Moved(t, h, C, k, i, j + 1) <==> Moved(t, h, C, k, i, j) || k == t[i][j].key
  {
    LocateAt(t, h, C, i, j);
  }

  /** Entry j of bucket i moves to the head of the bucket its hash selects in nt. */
  lemma RehashStep<K, V>(t: seq<seq<Entry<K, V>>>, nt: seq<seq<Entry<K, V>>>, h: K -> bv32, C: map<K, seq<V>>, i: nat, j: nat)
    requires Rehashed(t, nt, h, C, i, j) && i < |t| && j < |t[i]|
    ensures var e := t[i][j]; var s := Slot(e.hash, |nt|);
            Rehashed(t, nt[s := [e] + nt[s]], h, C, i, j + 1)
  {
    var e := t[i][j];
    var s := Slot(e.hash, |nt|);
    var nt': seq<seq<Entry<K, V>>> := nt[s := [e] + nt[s]];
    MovedStep(t, h, C, i, j);
    LocateAt(t, h, C, i, j);
    StepPlaced(t, nt, h, C, i, j);
    StepDistinct(t, nt, h, C, i, j);
    StepFound(t, nt, h, C, i, j);
  }

  /** The MovedPlaced part of RehashStep. */
  lemma StepPlaced<K, V>(t: seq<seq<Entry<K, V>>>, nt: seq<seq<Entry<K, V>>>, h: K -> bv32, C: map<K, seq<V>>, i: nat, j: nat)
    requires Laid(t, h, C) && |nt| > 0 && i < |t| && j < |t[i]| && MovedPlaced(t, nt, h, C, i, j)
    ensures var e := t[i][j]; var s := Slot(e.hash, |nt|);
            MovedPlaced(t, nt[s := [e] + nt[s]], h, C, i, j + 1)
  {
    var e := t[i][j];
    var s := Slot(e.hash, |nt|);
    var nt': seq<seq<Entry<K, V>>> := nt[s := [e] + nt[s]];
    MovedStep(t, h, C, i, j);
    LocateAt(t, h, C, i, j);
    forall b, j' | 0 <= b < |nt'| && 0 <= j' < |nt'[b]|
      ensures nt'[b][j'].key in C && nt'[b][j'] == EntryIn(t, h, C, nt'[b][j'].key) &&
              Slot(nt'[b][j'].hash, |nt'|) == b && Moved(t, h, C, nt'[b][j'].key, i, j + 1)
    {
      if b == s && j' > 0 {
        assert nt'[b][j'] == nt[s][j' - 1];
      }
    }
  }

  /** The AllDistinct part of RehashStep: the moving key is not yet in nt. */
  lemma StepDistinct<K, V>(t: seq<seq<Entry<K, V>>>, nt: seq<seq<Entry<K, V>>>, h: K -> bv32, C: map<K, seq<V>>, i: nat, j: nat)
    requires Laid(t, h, C) && |nt| > 0 && i < |t| && j < |t[i]| && MovedPlaced(t, nt, h, C, i, j) && AllDistinct(nt)
    ensures var e := t[i][j]; var s := Slot(e.hash, |nt|);
            AllDistinct(nt[s := [e] + nt[s]])
  {
    var e := t[i][j];
    var s := Slot(e.hash, |nt|);
    MovedStep(t, h, C, i, j);
    forall j' | 0 <= j' < |nt[s]|
      ensures KeysOf(nt[s])[j'] != e.key
    {
      assert Moved(t, h, C, nt[s][j'].key, i, j);
    }
    KeysCons(e, nt[s]);
    assert DistinctKeys(nt[s]);
  }

  /** The MovedFound part of RehashStep. */
  lemma StepFound<K, V>(t: seq<seq<Entry<K, V>>>, nt: seq<seq<Entry<K, V>>>, h: K -> bv32, C: map<K, seq<V>>, i: nat, j: nat)
    requires Laid(t, h, C) && |nt| > 0 && i < |t| && j < |t[i]| && MovedFound(t, nt, h, C, i, j)
    ensures var e := t[i][j]; var s := Slot(e.hash, |nt|);
            MovedFound(t, nt[s := [e] + nt[s]], h, C, i, j + 1)
  {
    var e := t[i][j];
    var s := Slot(e.hash, |nt|);
    var nt': seq<seq<Entry<K, V>>> := nt[s := [e] + nt[s]];
    MovedStep(t, h, C, i, j);
    LocateAt(t, h, C, i, j);
    KeysCons(e, nt[s]);
    forall k | k in C && Moved(t, h, C, k, i, j + 1)
      ensures k in KeysOf(nt'[Slot(h(k), |nt'|)])
    {
    }
  }

  /** A bucket whose entries have all moved hands over to the next one. */
  lemma RehashNext<K, V>(t: seq<seq<Entry<K, V>>>, nt: seq<seq<Entry<K, V>>>, h: K -> bv32, C: map<K, seq<V>>, i: nat)
    requires i < |t| && Rehashed(t, nt, h, C, i, |t[i]|)
    ensures Rehashed(t, nt, h, C, i + 1, 0)
  {
    forall k | k in C
      ensures Moved(t, h, C, k, i, |t[i]|) <==> Moved(t, h, C, k, i + 1, 0)
    {
    }
  }

  /** Once every bucket has moved, nt lays out C, each key keeping its entry. */
  lemma RehashDone<K, V>(t: seq<seq<Entry<K, V>>>, nt: seq<seq<Entry<K, V>>>, h: K -> bv32, C: map<K, seq<V>>)
    requires Rehashed(t, nt, h, C, |t|, 0)
    ensures Laid(nt, h, C)
    ensures forall k | k in C :: EntryIn(nt, h, C, k) == EntryIn(t, h, C, k)
  {
    forall b, j | 0 <= b < |nt| && 0 <= j < |nt[b]|
      ensures Placed(nt[b][j], b, |nt|, h, C)
    {
    }
    forall k | k in C
      ensures |C[k]| > 0 && k in KeysOf(nt[Slot(h(k), |nt|)])
    {
      assert Moved(t, h, C, k, |t|, 0);
    }
    forall k | k in C
      ensures EntryIn(nt, h, C, k) == EntryIn(t, h, C, k)
    {
      var s := Slot(h(k), |nt|);
      var j := Locate(nt, h, C, k);
      assert nt[s][j] == EntryIn(t, h, C, nt[s][j].key);
    }
  }

  /** A value no entry of t holds is no value of the multimap t lays out. */
  lemma NoValueLaid<K, V>(t: seq<seq<Entry<K, V>>>, h: K -> bv32, C: map<K, seq<V>>, v: V)
    requires Laid(t, h, C)
    requires forall b, j | 0 <= b < |t| && 0 <= j < |t[b]| :: v !in t[b][j].values
    ensures forall k | k in C :: v !in C[k]
  {
    forall k | k in C
      ensures v !in C[k]
    {
      var s, j := Slot(h(k), |t|), Locate(t, h, C, k);
      assert Placed(t[s][j], s, |t|, h, C);
    }
  }

  /** No value occurs twice in the value list of any key: no duplicate pairs. */
  ghost predicate NoDuplicatePairs<K, V>(m: map<K, seq<V>>) {
    forall k, i, j :: k in m && 0 <= i < j < |m[k]| ==> m[k][i] != m[k][j]
  }

  /** The number of (key, value) pairs of a multimap: the sum over its keys of their value counts. */
  ghost function SumCounts<K, V>(m: map<K, seq<V>>): nat
    decreases |m|
  {
    if m == map[] then 0 else
      var k :| k in m;
      |m[k]| + SumCounts(m - {k})
  }

  /** Any key can be taken out of the sum first. */
  lemma {:induction false} SumCountsRemove<K, V>(m: map<K, seq<V>>, k: K)
    requires k in m
    ensures SumCounts(m) == |m[k]| + SumCounts(m - {k})
    decreases |m|
  {
    var k' :| k' in m && SumCounts(m) == |m[k']| + SumCounts(m - {k'});
    if k' != k {
      assert (m - {k'}) - {k} == (m - {k}) - {k'};
      SumCountsRemove(m - {k'}, k);
      SumCountsRemove(m - {k}, k');
    }
  }
}
