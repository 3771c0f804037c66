/**
 * The order in which MultiHashMapT walks its table: bucket by bucket from
 * bucket 0, each chain from its head, and each entry's values from first
 * to last. For a walk standing at a given point, the functions give what
 * is still to come. The lemmas say what a whole walk over a table that
 * lays out a multimap delivers.
 */
module TableOrder {
  import opened Collections
  import opened Buckets

  /** No element occurs twice. */
  ghost predicate NoRepeats<T>(s: seq<T>) {
    forall i, j | 0 <= i < j < |s| :: s[i] != s[j]
  }

  /** An entry's (key, value) pairs: its key with each of its values. */
  function EntryPairs<K, V>(e: Entry<K, V>): (ps: seq<(K, V)>)
    ensures |ps| == |e.values|
    ensures forall n | 0 <= n < |ps| :: ps[n] == (e.key, e.values[n])
  {
    seq(|e.values|, n requires 0 <= n < |e.values| => (e.key, e.values[n]))
  }

  /** The pairs of a chain, one entry after the other. */
  function ChainPairs<K, V>(c: seq<Entry<K, V>>): seq<(K, V)> {
    if c == [] then [] else EntryPairs(c[0]) + ChainPairs(c[1..])
  }

  /** The values of a chain, one entry after the other. */
  function ChainValues<K, V>(c: seq<Entry<K, V>>): seq<V> {
    if c == [] then [] else c[0].values + ChainValues(c[1..])
  }

  /** The pairs of buckets i, i + 1, ..., in table order. */
  function TailPairs<K, V>(t: seq<seq<Entry<K, V>>>, i: nat): seq<(K, V)>
    decreases |t| - i
  {
    if i >= |t| then [] else ChainPairs(t[i]) + TailPairs(t, i + 1)
  }

  /** The keys of buckets i, i + 1, ..., in table order. */
  function TailKeys<K, V>(t: seq<seq<Entry<K, V>>>, i: nat): seq<K>
    decreases |t| - i
  {
    if i >= |t| then [] else KeysOf(t[i]) + TailKeys(t, i + 1)
  }

  /** The values of buckets i, i + 1, ..., in table order. */
  function TailValues<K, V>(t: seq<seq<Entry<K, V>>>, i: nat): seq<V>
    decreases |t| - i
  {
    if i >= |t| then [] else ChainValues(t[i]) + TailValues(t, i + 1)
  }

  /** Concatenation regrouped. */
  lemma Regroup<T>(a: seq<T>, b: seq<T>, c: seq<T>)
    ensures (a + b) + c == a + (b + c)
  {
  }

  /** A walk that has collected the keys before bucket i goes on with bucket i's. */
  lemma TailKeysStep<K, V>(t: seq<seq<Entry<K, V>>>, i: nat, done: seq<K>)
    requires i < |t| && done + TailKeys(t, i) == TailKeys(t, 0)
    ensures (done + KeysOf(t[i])) + TailKeys(t, i + 1) == TailKeys(t, 0)
  {
    Regroup(done, KeysOf(t[i]), TailKeys(t, i + 1));
  }

  /** A walk that has collected the values before bucket i goes on with bucket i's. */
  lemma TailValuesStep<K, V>(t: seq<seq<Entry<K, V>>>, i: nat, done: seq<V>)
    requires i < |t| && done + TailValues(t, i) == TailValues(t, 0)
    ensures (done + ChainValues(t[i])) + TailValues(t, i + 1) == TailValues(t, 0)
  {
    Regroup(done, ChainValues(t[i]), TailValues(t, i + 1));
  }

  /** The second components of a sequence of pairs. */
  function Seconds<K, V>(ps: seq<(K, V)>): (vs: seq<V>)
    ensures |vs| == |ps| && forall n | 0 <= n < |ps| :: vs[n] == ps[n].1
  {
    seq(|ps|, n requires 0 <= n < |ps| => ps[n].1)
  }

  /** What a walk that stands at value n of entry j of bucket b has still
      to deliver. */
  function After<K, V>(t: seq<seq<Entry<K, V>>>, b: nat, j: nat, n: nat): seq<(K, V)>
    requires b < |t| && j < |t[b]| && n < |t[b][j].values|
  {
    EntryPairs(t[b][j])[n + 1..] + ChainPairs(t[b][j + 1..]) + TailPairs(t, b + 1)
  }

  /** Every entry of the table has at least one value. */
  ghost predicate Filled<K, V>(t: seq<seq<Entry<K, V>>>) {
    forall b, j | 0 <= b < |t| && 0 <= j < |t[b]| :: |t[b][j].values| > 0
  }

  /** Every entry of a table that lays out a multimap has a value. */
  lemma LaidFilled<K, V>(t: seq<seq<Entry<K, V>>>, h: K -> bv32, C: map<K, seq<V>>)
    requires Laid(t, h, C)
    ensures Filled(t)
  {
    forall b, j | 0 <= b < |t| && 0 <= j < |t[b]| ensures |t[b][j].values| > 0 {
      assert Placed(t[b][j], b, |t|, h, C);
    }
  }

  /** The next value of the same entry comes next. */
  lemma AfterNextValue<K, V>(t: seq<seq<Entry<K, V>>>, b: nat, j: nat, n: nat)
    requires b < |t| && j < |t[b]| && n + 1 < |t[b][j].values|
    ensures After(t, b, j, n) == [(t[b][j].key, t[b][j].values[n + 1])] + After(t, b, j, n + 1)
  {
    var ps := EntryPairs(t[b][j]);
    assert ps[n + 1..] == [ps[n + 1]] + ps[n + 2..];
  }

  /** The pairs of a chain from entry j on: entry j's, then the rest. */
  lemma ChainPairsAt<K, V>(c: seq<Entry<K, V>>, j: nat)
    requires j < |c|
    ensures ChainPairs(c[j..]) == EntryPairs(c[j]) + ChainPairs(c[j + 1..])
  {
    assert c[j..][0] == c[j] && c[j..][1..] == c[j + 1..];
  }

  /** After an entry's last value, the first value of the next entry of the chain comes. */
  lemma AfterNextEntry<K, V>(t: seq<seq<Entry<K, V>>>, b: nat, j: nat, n: nat)
    requires b < |t| && j + 1 < |t[b]| && n + 1 == |t[b][j].values| && |t[b][j + 1].values| > 0
    ensures After(t, b, j, n) == [(t[b][j + 1].key, t[b][j + 1].values[0])] + After(t, b, j + 1, 0)
  {
    var c, tail := t[b], TailPairs(t, b + 1);
    var ps, rest := EntryPairs(c[j + 1]), ChainPairs(c[j + 2..]);
    ChainPairsAt(c, j + 1);
    assert ps == [ps[0]] + ps[1..];
    assert EntryPairs(c[j])[n + 1..] == [];
    assert After(t, b, j, n) == (ps + rest) + tail;
    Regroup([ps[0]], ps[1..], rest);
    Regroup([ps[0]], ps[1..] + rest, tail);
  }

  /** After the last value of a chain's last entry, the later buckets come. */
  lemma AfterLast<K, V>(t: seq<seq<Entry<K, V>>>, b: nat, j: nat, n: nat)
    requires b < |t| && j + 1 == |t[b]| && n + 1 == |t[b][j].values|
    ensures After(t, b, j, n) == TailPairs(t, b + 1)
  {
    assert t[b][j + 1..] == [];
    assert EntryPairs(t[b][j])[n + 1..] == [];
  }

  /** An empty bucket adds nothing to the walk. */
  lemma TailSkip<K, V>(t: seq<seq<Entry<K, V>>>, i: nat)
    requires i < |t| && t[i] == []
    ensures TailPairs(t, i) == TailPairs(t, i + 1)
  {
  }

  /** A bucket with entries starts with the first value of its head entry. */
  lemma TailEnter<K, V>(t: seq<seq<Entry<K, V>>>, i: nat)
    requires i < |t| && t[i] != [] && |t[i][0].values| > 0
    ensures TailPairs(t, i) == [(t[i][0].key, t[i][0].values[0])] + After(t, i, 0, 0)
  {
    var c := t[i];
    var ps := EntryPairs(c[0]);
    assert ps == [ps[0]] + ps[1..];
    assert ChainPairs(c) == ps + ChainPairs(c[1..]);
    assert TailPairs(t, i) == ChainPairs(c) + TailPairs(t, i + 1);
    assert After(t, i, 0, 0) == ps[1..] + ChainPairs(c[1..]) + TailPairs(t, i + 1);
  }

  /** The values of two chains, one after the other. */
  lemma {:induction false} ChainValuesAppend<K, V>(a: seq<Entry<K, V>>, b: seq<Entry<K, V>>)
    ensures ChainValues(a + b) == ChainValues(a) + ChainValues(b)
  {
    if a == [] {
      assert a + b == b;
    } else {
      assert (a + b)[0] == a[0] && (a + b)[1..] == a[1..] + b;
      ChainValuesAppend(a[1..], b);
    }
  }

  /** One more entry of a chain: its values come after those of the entries before it. */
  lemma ChainValuesSnoc<K, V>(c: seq<Entry<K, V>>, j: nat)
    requires j < |c|
    ensures ChainValues(c[..j + 1]) == ChainValues(c[..j]) + c[j].values
  {
    assert c[..j + 1] == c[..j] + [c[j]];
    ChainValuesAppend(c[..j], [c[j]]);
    assert [c[j]][1..] == [];
  }

  /** One more value of an entry: the rest of its values starts with it. */
  lemma ValueStep<V>(vs: seq<V>, n: nat)
    requires n < |vs|
    ensures vs[n..] == [vs[n]] + vs[n + 1..]
  {
  }

  /** A pair is an entry's when it has the entry's key and one of its values. */
  lemma EntryPairsIn<K, V>(e: Entry<K, V>, p: (K, V))
    ensures p in EntryPairs(e) <==> p.0 == e.key && p.1 in e.values
  {
    if p.0 == e.key && p.1 in e.values {
      var n :| 0 <= n < |e.values| && e.values[n] == p.1;
      assert EntryPairs(e)[n] == p;
    }
  }

  /** A pair is a chain's when some entry of the chain has it. */
  lemma {:induction false} ChainPairsIn<K, V>(c: seq<Entry<K, V>>, p: (K, V))
    ensures p in ChainPairs(c) <==> exists j :: 0 <= j < |c| && c[j].key == p.0 && p.1 in c[j].values
  {
    if c != [] {
      ChainPairsIn(c[1..], p);
      EntryPairsIn(c[0], p);
      if exists j :: 0 <= j < |c| && c[j].key == p.0 && p.1 in c[j].values {
        var j :| 0 <= j < |c| && c[j].key == p.0 && p.1 in c[j].values;
        if j > 0 {
          assert c[1..][j - 1] == c[j];
        }
      }
      if p in ChainPairs(c[1..]) {
        var j :| 0 <= j < |c[1..]| && c[1..][j].key == p.0 && p.1 in c[1..][j].values;
        assert c[j + 1] == c[1..][j];
      }
    }
  }

  /** The walk from bucket i delivers exactly the pairs of the keys whose bucket is i or later. */
  lemma {:induction false} TailPairsIn<K, V>(t: seq<seq<Entry<K, V>>>, h: K -> bv32, C: map<K, seq<V>>, i: nat, p: (K, V))
    requires Laid(t, h, C)
    ensures p in TailPairs(t, i) <==> p.0 in C && p.1 in C[p.0] && Slot(h(p.0), |t|) >= i
    decreases |t| - i
  {
    if i < |t| {
      TailPairsIn(t, h, C, i + 1, p);
      ChainPairsIn(t[i], p);
      if p.0 in C && p.1 in C[p.0] && Slot(h(p.0), |t|) == i {
        var j := Locate(t, h, C, p.0);
        assert Placed(t[i][j], i, |t|, h, C);
      }
      if p in ChainPairs(t[i]) {
        var j :| 0 <= j < |t[i]| && t[i][j].key == p.0 && p.1 in t[i][j].values;
        assert Placed(t[i][j], i, |t|, h, C);
      }
    }
  }

  /** The walk from bucket i delivers exactly the keys whose bucket is i or later. */
  lemma {:induction false} TailKeysIn<K, V>(t: seq<seq<Entry<K, V>>>, h: K -> bv32, C: map<K, seq<V>>, i: nat, k: K)
    requires Laid(t, h, C)
    ensures k in TailKeys(t, i) <==> k in C && Slot(h(k), |t|) >= i
    decreases |t| - i
  {
    if i < |t| {
      TailKeysIn(t, h, C, i + 1, k);
      if k in C && Slot(h(k), |t|) == i {
        var j := Locate(t, h, C, k);
        assert KeysOf(t[i])[j] == k;
      }
      if k in KeysOf(t[i]) {
        var j :| 0 <= j < |t[i]| && KeysOf(t[i])[j] == k;
        assert Placed(t[i][j], i, |t|, h, C);
      }
    }
  }

  /** The walk from bucket i delivers no key twice. */
  lemma {:induction false} TailKeysDistinct<K, V>(t: seq<seq<Entry<K, V>>>, h: K -> bv32, C: map<K, seq<V>>, i: nat)
    requires Laid(t, h, C)
    ensures NoRepeats(TailKeys(t, i))
    decreases |t| - i
  {
    if i < |t| {
      TailKeysDistinct(t, h, C, i + 1);
      var a, rest := KeysOf(t[i]), TailKeys(t, i + 1);
      assert DistinctKeys(t[i]);
      forall x, y | 0 <= x < y < |a + rest|
        ensures (a + rest)[x] != (a + rest)[y]
      {
        if y >= |a| && x < |a| {
          assert Placed(t[i][x], i, |t|, h, C);
          TailKeysIn(t, h, C, i + 1, rest[y - |a|]);
        }
      }
    }
  }

  /** A chain without repeated keys, whose entries repeat no value, repeats no pair. */
  lemma {:induction false} ChainPairsDistinct<K, V>(c: seq<Entry<K, V>>)
    requires DistinctKeys(c) && forall j | 0 <= j < |c| :: NoRepeats(c[j].values)
    ensures NoRepeats(ChainPairs(c))
  {
    if c != [] {
      var a, rest := EntryPairs(c[0]), ChainPairs(c[1..]);
      assert forall j | 0 <= j < |c[1..]| :: c[1..][j] == c[j + 1];
      ChainPairsDistinct(c[1..]);
      forall x, y | 0 <= x < y < |a + rest|
        ensures (a + rest)[x] != (a + rest)[y]
      {
        if x < |a| && y >= |a| {
          ChainPairsIn(c[1..], rest[y - |a|]);
        } else if y < |a| {
          assert NoRepeats(c[0].values);
        }
      }
    }
  }

  /** The walk from bucket i over a table that lays out a multimap without
      duplicate pairs delivers no pair twice. */
  lemma {:induction false} TailPairsDistinct<K, V>(t: seq<seq<Entry<K, V>>>, h: K -> bv32, C: map<K, seq<V>>, i: nat)
    requires Laid(t, h, C) && NoDuplicatePairs(C)
    ensures NoRepeats(TailPairs(t, i))
    decreases |t| - i
  {
    if i < |t| {
      TailPairsDistinct(t, h, C, i + 1);
      forall j | 0 <= j < |t[i]|
        ensures NoRepeats(t[i][j].values)
      {
        assert Placed(t[i][j], i, |t|, h, C);
      }
      assert DistinctKeys(t[i]);
      ChainPairsDistinct(t[i]);
      var a, rest := ChainPairs(t[i]), TailPairs(t, i + 1);
      forall x, y | 0 <= x < y < |a + rest|
        ensures (a + rest)[x] != (a + rest)[y]
      {
        if x < |a| && y >= |a| {
          ChainBeforeTail(t, h, C, i, a[x], rest[y - |a|]);
        }
      }
    }
  }

  /** A pair of bucket i is none of the pairs of the buckets after it. */
  lemma ChainBeforeTail<K, V>(t: seq<seq<Entry<K, V>>>, h: K -> bv32, C: map<K, seq<V>>, i: nat, p: (K, V), q: (K, V))
    requires Laid(t, h, C) && i < |t| && p in ChainPairs(t[i]) && q in TailPairs(t, i + 1)
    ensures p != q
  {
    ChainPairsIn(t[i], p);
    var j :| 0 <= j < |t[i]| && t[i][j].key == p.0 && p.1 in t[i][j].values;
    assert Placed(t[i][j], i, |t|, h, C);
    TailPairsIn(t, h, C, i + 1, q);
  }

  /** The number of values a multimap holds for the keys of ks, counted with repeats. */
  ghost function SumOver<K, V>(ks: seq<K>, C: map<K, seq<V>>): nat {
    if ks == [] then 0 else (if ks[0] in C then |C[ks[0]]| else 0) + SumOver(ks[1..], C)
  }

  /** The sum over two runs of keys one after the other. */
  lemma {:induction false} SumOverAppend<K, V>(a: seq<K>, b: seq<K>, C: map<K, seq<V>>)
    ensures SumOver(a + b, C) == SumOver(a, C) + SumOver(b, C)
  {
    if a == [] {
      assert a + b == b;
    } else {
      assert (a + b)[0] == a[0] && (a + b)[1..] == a[1..] + b;
      SumOverAppend(a[1..], b, C);
    }
  }

  /** Two multimaps that agree on the keys of ks have the same sum over them. */
  lemma {:induction false} SumOverAgree<K, V>(ks: seq<K>, C: map<K, seq<V>>, D: map<K, seq<V>>)
    requires forall k | k in ks :: (k in C <==> k in D) && (k in C ==> C[k] == D[k])
    ensures SumOver(ks, C) == SumOver(ks, D)
  {
    if ks != [] {
      assert ks[0] in ks;
      SumOverAgree(ks[1..], C, D);
    }
  }

  /** Over each of its keys once, the sum is the multimap's number of pairs. */
  lemma {:induction false} SumOverAll<K, V>(ks: seq<K>, C: map<K, seq<V>>)
    requires NoRepeats(ks) && forall k :: k in ks <==> k in C
    ensures SumOver(ks, C) == SumCounts(C) && |ks| == |C|
  {
    if ks == [] {
      assert C == map[];
    } else {
      var k := ks[0];
      assert k in ks;
      var D := C - {k};
      forall x | x in ks[1..]
        ensures x != k
      {
        var n :| 0 <= n < |ks[1..]| && ks[1..][n] == x;
        assert ks[n + 1] == x;
      }
      forall x
        ensures x in ks[1..] <==> x in D
      {
        if x in ks && x != k {
          var n :| 0 <= n < |ks| && ks[n] == x;
          assert ks[1..][n - 1] == x;
        }
      }
      SumOverAgree(ks[1..], C, D);
      SumOverAll(ks[1..], D);
      SumCountsRemove(C, k);
      assert C.Keys == D.Keys + {k};
    }
  }

  /** A chain whose entries hold their keys' values has as many pairs as the sum over its keys. */
  lemma {:induction false} ChainPairsCount<K, V>(c: seq<Entry<K, V>>, C: map<K, seq<V>>)
    requires forall j | 0 <= j < |c| :: c[j].key in C && c[j].values == C[c[j].key]
    ensures |ChainPairs(c)| == SumOver(KeysOf(c), C)
  {
    if c != [] {
      assert KeysOf(c)[1..] == KeysOf(c[1..]);
      ChainPairsCount(c[1..], C);
    }
  }

  /** The walk from bucket i has as many pairs as the sum over its keys. */
  lemma {:induction false} TailPairsCount<K, V>(t: seq<seq<Entry<K, V>>>, h: K -> bv32, C: map<K, seq<V>>, i: nat)
    requires Laid(t, h, C)
    ensures |TailPairs(t, i)| == SumOver(TailKeys(t, i), C)
    decreases |t| - i
  {
    if i < |t| {
      forall j | 0 <= j < |t[i]|
        ensures t[i][j].key in C && t[i][j].values == C[t[i][j].key]
      {
        assert Placed(t[i][j], i, |t|, h, C);
      }
      ChainPairsCount(t[i], C);
      TailPairsCount(t, h, C, i + 1);
      SumOverAppend(KeysOf(t[i]), TailKeys(t, i + 1), C);
    }
  }

  /** The second components of two runs of pairs, one after the other. */
  lemma SecondsAppend<K, V>(a: seq<(K, V)>, b: seq<(K, V)>)
    ensures Seconds(a + b) == Seconds(a) + Seconds(b)
  {
  }

  /** The values of a chain are the second components of its pairs. */
  lemma {:induction false} ChainValuesArePairs<K, V>(c: seq<Entry<K, V>>)
    ensures ChainValues(c) == Seconds(ChainPairs(c))
  {
    if c != [] {
      ChainValuesArePairs(c[1..]);
      SecondsAppend(EntryPairs(c[0]), ChainPairs(c[1..]));
      assert Seconds(EntryPairs(c[0])) == c[0].values;
    }
  }

  /** The values of the walk from bucket i are the second components of its pairs. */
  lemma {:induction false} TailValuesArePairs<K, V>(t: seq<seq<Entry<K, V>>>, i: nat)
    ensures TailValues(t, i) == Seconds(TailPairs(t, i))
    decreases |t| - i
  {
    if i < |t| {
      TailValuesArePairs(t, i + 1);
      ChainValuesArePairs(t[i]);
      SecondsAppend(ChainPairs(t[i]), TailPairs(t, i + 1));
    }
  }

  /** The whole walk over a table that lays out C: each pair of C once... */
  lemma AllPairs<K, V>(t: seq<seq<Entry<K, V>>>, h: K -> bv32, C: map<K, seq<V>>)
    requires Laid(t, h, C)
    ensures forall p :: p in TailPairs(t, 0) <==> p.0 in C && p.1 in C[p.0]
    ensures |TailPairs(t, 0)| == SumCounts(C)
  {
    forall p
      ensures p in TailPairs(t, 0) <==> p.0 in C && p.1 in C[p.0]
    {
      TailPairsIn(t, h, C, 0, p);
    }
    AllKeys(t, h, C);
    TailPairsCount(t, h, C, 0);
    SumOverAll(TailKeys(t, 0), C);
  }

  /** ... each key of C once ... */
  lemma AllKeys<K, V>(t: seq<seq<Entry<K, V>>>, h: K -> bv32, C: map<K, seq<V>>)
    requires Laid(t, h, C)
    ensures NoRepeats(TailKeys(t, 0))
    ensures forall k :: k in TailKeys(t, 0) <==> k in C
    ensures |TailKeys(t, 0)| == |C|
  {
    TailKeysDistinct(t, h, C, 0);
    forall k
      ensures k in TailKeys(t, 0) <==> k in C
    {
      TailKeysIn(t, h, C, 0, k);
    }
    SumOverAll(TailKeys(t, 0), C);
  }

  /** ... and as many values as C has pairs, each a value of some key of C. */
  lemma AllValues<K, V>(t: seq<seq<Entry<K, V>>>, h: K -> bv32, C: map<K, seq<V>>)
    requires Laid(t, h, C)
    ensures forall v :: v in TailValues(t, 0) <==> exists k :: k in C && v in C[k]
    ensures |TailValues(t, 0)| == SumCounts(C)
  {
    TailValuesArePairs(t, 0);
    AllPairs(t, h, C);
    forall v
      ensures v in TailValues(t, 0) <==> exists k :: k in C && v in C[k]
    {
      ValueIn(t, h, C, v);
    }
  }

  /** A value is in the walk when some key of C has it. */
  lemma ValueIn<K, V>(t: seq<seq<Entry<K, V>>>, h: K -> bv32, C: map<K, seq<V>>, v: V)
    requires Laid(t, h, C) && TailValues(t, 0) == Seconds(TailPairs(t, 0))
    ensures v in TailValues(t, 0) <==> exists k :: k in C && v in C[k]
  {
    var ps := TailPairs(t, 0);
    if v in TailValues(t, 0) {
      var n :| 0 <= n < |ps| && Seconds(ps)[n] == v;
      TailPairsIn(t, h, C, 0, ps[n]);
      assert ps[n] in ps && ps[n].1 == v;
    }
    if exists k :: k in C && v in C[k] {
      var k :| k in C && v in C[k];
      TailPairsIn(t, h, C, 0, (k, v));
      var n :| 0 <= n < |ps| && ps[n] == (k, v);
      assert TailValues(t, 0)[n] == v;
    }
  }

  /** __pEntry of the map enumerator: no entry, or entry j of bucket b. */
  datatype EntryPtr = NoEntry | EntryAt(b: nat, j: nat)

  /** __pNode of the map enumerator: no node, or value n of entry j of bucket b. */
  datatype NodePtr = NoNode | NodeAt(b: nat, j: nat, n: nat)

  /** The position of a map enumerator: __pEntry, __pNode and __index. */
  datatype Cursor = Cursor(entry: EntryPtr, node: NodePtr, index: int)

  /** A value node left behind by a walk that ran off the end: none, or the last value of an entry. */
  ghost predicate StaleIn<K, V>(t: seq<seq<Entry<K, V>>>, node: NodePtr) {
    node == NoNode ||
    (node.b < |t| && node.j < |t[node.b]| && node.n + 1 == |t[node.b][node.j].values|)
  }

  /**
   * The positions a walk over t can be in between two of its steps:
   * before the start; at a value of an entry, the index naming the
   * entry's bucket; or past the end. Past the end, the entry pointer is
   * cleared when empty buckets came after the last pair, and the node
   * pointer is left at the last value it reached; when the last pair sat
   * in the last bucket, both pointers still name it.
   */
  ghost predicate PositionedIn<K, V>(t: seq<seq<Entry<K, V>>>, c: Cursor) {
    c.index >= -1 &&
    match c.entry
    case NoEntry => (c.index == -1 && c.node == NoNode) || (c.index >= |t| && StaleIn(t, c.node))
    case EntryAt(b, j) =>
      b < |t| && j < |t[b]| && c.node.NodeAt? && c.node.b == b && c.node.j == j && c.node.n < |t[b][j].values| &&
      (c.index == b || (c.index >= |t| && b + 1 == |t| && j + 1 == |t[b]| && c.node.n + 1 == |t[b][j].values|))
  }

  /** The pairs a walk at c has still to deliver. */
  ghost function RemainingIn<K, V>(t: seq<seq<Entry<K, V>>>, c: Cursor): seq<(K, V)>
    requires PositionedIn(t, c)
  {
    match c.entry
    case NoEntry => if c.index == -1 then TailPairs(t, 0) else []
    case EntryAt(b, j) => After(t, b, j, c.node.n)
  }

  /** Both pointers are set. */
  predicate HasCurrentAt(c: Cursor) {
    c.entry.EntryAt? && c.node.NodeAt?
  }

  /** The pair under the pointers. */
  ghost function CurrentIn<K, V>(t: seq<seq<Entry<K, V>>>, c: Cursor): (K, V)
    requires PositionedIn(t, c) && HasCurrentAt(c)
  {
    (t[c.entry.b][c.entry.j].key, t[c.entry.b][c.entry.j].values[c.node.n])
  }

  /** The node pointer has a next value in its entry. */
  ghost predicate CanStepValue<K, V>(t: seq<seq<Entry<K, V>>>, c: Cursor)
    requires PositionedIn(t, c)
  {
    c.node.NodeAt? && c.node.n + 1 < |t[c.node.b][c.node.j].values|
  }

  /** The entry pointer has a next entry in its chain. */
  ghost predicate CanStepEntry<K, V>(t: seq<seq<Entry<K, V>>>, c: Cursor)
    requires PositionedIn(t, c)
  {
    c.entry.EntryAt? && c.entry.j + 1 < |t[c.entry.b]|
  }

  /**
   * A step of the walk from c to d with result r: OutOfRange exactly when
   * nothing was left, and otherwise d stands at the first pair that was
   * left, with the rest still to come. Past the end the pointers still
   * name the pair they named when it was in the last bucket, and are
   * cleared otherwise.
   */
  ghost predicate Stepped<K, V>(t: seq<seq<Entry<K, V>>>, c: Cursor, d: Cursor, r: Result)
    requires PositionedIn(t, c)
  {
    PositionedIn(t, d) &&
    r == (if RemainingIn(t, c) == [] then OutOfRange else Success) &&
    (r == Success ==> HasCurrentAt(d) && RemainingIn(t, c) == [CurrentIn(t, d)] + RemainingIn(t, d)) &&
    (r == OutOfRange ==> RemainingIn(t, d) == [] && d.index >= |t| &&
                         (HasCurrentAt(d) <==> c.entry.EntryAt? && c.entry.b + 1 == |t|) &&
                         (HasCurrentAt(d) ==> d.entry == c.entry && d.node == c.node))
  }

  /** A step as the enumerator's documentation describes it: the same, except
      that past the end there is no current pair. */
  ghost predicate SteppedChecked<K, V>(t: seq<seq<Entry<K, V>>>, c: Cursor, d: Cursor, r: Result)
    requires PositionedIn(t, c)
  {
    PositionedIn(t, d) &&
    r == (if RemainingIn(t, c) == [] then OutOfRange else Success) &&
    (r == Success ==> HasCurrentAt(d) && RemainingIn(t, c) == [CurrentIn(t, d)] + RemainingIn(t, d)) &&
    (r == OutOfRange ==> RemainingIn(t, d) == [] && !HasCurrentAt(d))
  }

  /** Clearing both pointers once the walk has run out turns a step into a checked one. */
  lemma SteppedCleared<K, V>(t: seq<seq<Entry<K, V>>>, c: Cursor, d: Cursor, r: Result)
    requires PositionedIn(t, c) && Stepped(t, c, d, r)
    ensures SteppedChecked(t, c, if r == OutOfRange then d.(entry := NoEntry, node := NoNode) else d, r)
  {
  }

  /**
   * Past the end, the pointers of a real walk can keep the last pair: in
   * a two-bucket table laying out {1 -> [7]}, whose last bucket holds that
   * pair, a walk standing on it steps to OutOfRange and still has it as
   * its current pair.
   */
  lemma StaleAfterEnd()
    ensures var t := [[], [Entry(1, 1, [7], 0)]];
            var c := Cursor(EntryAt(1, 0), NodeAt(1, 0, 0), 1);
            Laid(t, (k: int) => 1 as bv32, map[1 := [7]]) && PositionedIn(t, c) && HasCurrentAt(c) &&
            forall d, r | Stepped(t, c, d, r) :: r == OutOfRange && HasCurrentAt(d) && CurrentIn(t, d) == (1, 7)
  {
    var t := [[], [Entry(1, 1, [7], 0)]];
    assert Slot(1, 2) == 1;
    assert KeysOf(t[1]) == [1];
  }

  /** A step to the next value of the entry delivers that value. */
  lemma NextValue<K, V>(t: seq<seq<Entry<K, V>>>, c: Cursor)
    requires PositionedIn(t, c) && CanStepValue(t, c)
    ensures Stepped(t, c, c.(node := c.node.(n := c.node.n + 1)), Success)
  {
    AfterNextValue(t, c.node.b, c.node.j, c.node.n);
  }

  /** A step to the next entry of the chain delivers that entry's first value. */
  lemma NextEntry<K, V>(t: seq<seq<Entry<K, V>>>, c: Cursor)
    requires Filled(t) && PositionedIn(t, c) && !CanStepValue(t, c) && CanStepEntry(t, c)
    ensures Stepped(t, c, c.(entry := c.entry.(j := c.entry.j + 1), node := NodeAt(c.entry.b, c.entry.j + 1, 0)), Success)
  {
    var b, j := c.entry.b, c.entry.j;
    var d := c.(entry := EntryAt(b, j + 1), node := NodeAt(b, j + 1, 0));
    assert |t[b][j + 1].values| > 0;
    assert c.node.n + 1 == |t[b][j].values|;
    AfterNextEntry(t, b, j, c.node.n);
    assert PositionedIn(t, d);
    assert RemainingIn(t, d) == After(t, b, j + 1, 0);
    assert RemainingIn(t, c) == [CurrentIn(t, d)] + RemainingIn(t, d);
  }

  /** When neither pointer can step, what is left is the walk from the bucket after the index. */
  lemma ScanStart<K, V>(t: seq<seq<Entry<K, V>>>, c: Cursor)
    requires PositionedIn(t, c) && !CanStepValue(t, c) && !CanStepEntry(t, c)
    ensures StaleIn(t, c.node) && RemainingIn(t, c) == TailPairs(t, c.index + 1)
    ensures c.entry.EntryAt? ==> c.entry.j + 1 == |t[c.entry.b]| && (c.index == c.entry.b || c.entry.b + 1 == |t|)
  {
    if c.entry.EntryAt? {
      AfterLast(t, c.entry.b, c.entry.j, c.node.n);
    }
  }

  /** The scan stopping at a bucket with entries delivers its head entry's first value. */
  lemma ScanFound<K, V>(t: seq<seq<Entry<K, V>>>, i: nat)
    requires Filled(t) && i < |t| && t[i] != []
    ensures var d := Cursor(EntryAt(i, 0), NodeAt(i, 0, 0), i);
            PositionedIn(t, d) && HasCurrentAt(d) && TailPairs(t, i) == [CurrentIn(t, d)] + RemainingIn(t, d)
  {
    assert |t[i][0].values| > 0;
    TailEnter(t, i);
  }

  /** The scan running off the end of the table leaves nothing to deliver. */
  lemma ScanOff<K, V>(t: seq<seq<Entry<K, V>>>, c: Cursor, e: EntryPtr, i: int)
    requires PositionedIn(t, c) && !CanStepValue(t, c) && !CanStepEntry(t, c)
    requires |t| <= i && TailPairs(t, c.index + 1) == []
    requires (i == c.index + 1 && e == c.entry) || (e == NoEntry && c.index + 1 < i <= |t|)
    ensures Stepped(t, c, Cursor(e, c.node, i), OutOfRange)
  {
    ScanStart(t, c);
  }

  /** The scan stopping at bucket i delivers its head entry's first value. */
  lemma ScanHit<K, V>(t: seq<seq<Entry<K, V>>>, c: Cursor, i: nat)
    requires Filled(t) && PositionedIn(t, c) && !CanStepValue(t, c) && !CanStepEntry(t, c)
    requires i < |t| && t[i] != [] && TailPairs(t, i) == TailPairs(t, c.index + 1)
    ensures Stepped(t, c, Cursor(EntryAt(i, 0), NodeAt(i, 0, 0), i), Success)
  {
    ScanStart(t, c);
    ScanFound(t, i);
  }

  /**
   * The bucket scan of the map enumerator's MoveNext: `++__index` until
   * a bucket with an entry comes, `__pEntry = __pTable[__index]` on the
   * way; OutOfRange once the index reaches the capacity.
   */
  method ScanBuckets<K, V>(table: array<seq<Entry<K, V>>>, c: Cursor)
    returns (r: Result, d: Cursor)
    requires Filled(table[..]) && PositionedIn(table[..], c)
    requires !CanStepValue(table[..], c) && !CanStepEntry(table[..], c)
    ensures Stepped(table[..], c, d, r)
  {
    ghost var t := table[..];
    var e, i := c.entry, c.index;
    while true
      invariant c.index <= i && TailPairs(t, i + 1) == TailPairs(t, c.index + 1)
      invariant (i == c.index && e == c.entry) || (e == NoEntry && c.index < i < |t|)
      decreases |t| - i
    {
      i := i + 1;
      if i >= table.Length {
        ScanOff(t, c, e, i);
        return OutOfRange, Cursor(e, c.node, i);
      }
      e := if table[i] == [] then NoEntry else EntryAt(i, 0);
      if e.EntryAt? {
        ScanHit(t, c, i);
        return Success, Cursor(e, NodeAt(i, 0, 0), i);
      }
      TailSkip(t, i);
    }
  }

  /**
   * One MoveNext of the map enumerator on the table: on to the next value
   * of the entry, else to the head of the next entry of the chain, else
   * the bucket scan.
   */
  method StepCursor<K, V>(table: array<seq<Entry<K, V>>>, c: Cursor) returns (r: Result, d: Cursor)
    requires Filled(table[..]) && PositionedIn(table[..], c)
    ensures Stepped(table[..], c, d, r)
  {
    if c.node.NodeAt? && c.node.n + 1 < |table[c.node.b][c.node.j].values| {
      d := c.(node := c.node.(n := c.node.n + 1));
      NextValue(table[..], c);
      return Success, d;
    }
    if c.entry.EntryAt? && c.entry.j + 1 < |table[c.entry.b]| {
      d := c.(entry := c.entry.(j := c.entry.j + 1), node := NodeAt(c.entry.b, c.entry.j + 1, 0));
      NextEntry(table[..], c);
      return Success, d;
    }
    r, d := ScanBuckets(table, c);
  }

  /** A step that clears both pointers once the walk has run out. */
  method StepCursorChecked<K, V>(table: array<seq<Entry<K, V>>>, c: Cursor) returns (r: Result, d: Cursor)
    requires Filled(table[..]) && PositionedIn(table[..], c)
    ensures SteppedChecked(table[..], c, d, r)
  {
    r, d := StepCursor(table, c);
    SteppedCleared(table[..], c, d, r);
    if r == OutOfRange {
      d := d.(entry := NoEntry, node := NoNode);
    }
  }
}
