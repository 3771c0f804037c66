/**
 * LinkedListT: a list kept in a chain of doubly linked nodes. The ghost
 * sequence Nodes lists the chain from head to tail and Contents the values
 * it holds; every structural change bumps modCount, which the fail-fast
 * enumerator compares against.
 */
module LinkedLists {
  import opened Collections

  /** __LinkedListNodeT: one link of the chain. */
  class ListNode<T> {
    var prev: ListNode?<T>
    var next: ListNode?<T>
    var value: T

    constructor (value: T)
      ensures prev == null && next == null && this.value == value
    {
      prev, next := null, null;
      this.value := value;
    }
  }

  /** Each node's links point at its neighbours in `nodes`; the ends point at null. */
  ghost predicate Linked<T>(nodes: seq<ListNode<T>>)
    reads nodes
  {
    (forall i {:trigger nodes[i].prev} :: 0 < i < |nodes| ==> nodes[i].prev == nodes[i - 1]) &&
    (forall i {:trigger nodes[i].next} :: 0 <= i < |nodes| - 1 ==> nodes[i].next == nodes[i + 1]) &&
    (|nodes| > 0 ==> nodes[0].prev == null && nodes[|nodes| - 1].next == null)
  }

  /** The nodes hold the values, in order. */
  ghost predicate Holds<T>(nodes: seq<ListNode<T>>, values: seq<T>)
    reads nodes
  {
    |nodes| == |values| && forall i :: 0 <= i < |nodes| ==> nodes[i].value == values[i]
  }

  /** A linked chain never visits a node twice: a repeat would force the
      chain to repeat from there on and to run past its null end. */
  lemma {:induction false} NoRepeat<T>(nodes: seq<ListNode<T>>, i: int, j: int)
    requires Linked(nodes) && 0 <= i < j < |nodes|
    ensures nodes[i] != nodes[j]
    decreases |nodes| - j
  {
    if nodes[i] == nodes[j] {
      if j < |nodes| - 1 {
        assert nodes[i].next == nodes[i + 1] && nodes[j].next == nodes[j + 1];
        NoRepeat(nodes, i + 1, j + 1);
      } else {
        assert false;
      }
    }
  }

  /** Every node of a linked chain other than nodes[k] is a different object. */
  lemma DistinctFrom<T>(nodes: seq<ListNode<T>>, k: int)
    requires Linked(nodes) && 0 <= k < |nodes|
    ensures forall i :: 0 <= i < |nodes| && i != k ==> nodes[i] != nodes[k]
  {
    forall i | 0 <= i < |nodes| && i != k ensures nodes[i] != nodes[k] {
      if i < k {
        NoRepeat(nodes, i, k);
      } else {
        NoRepeat(nodes, k, i);
      }
    }
  }

  /** node is linked between nodes[k] and nodes[k + 1] and every other link
      of the chain, and every value, is as before. */
  ghost predicate SplicedAt<T>(nodes: seq<ListNode<T>>, values: seq<T>, k: int, node: ListNode<T>)
    reads nodes, node
  {
    0 <= k < |nodes| - 1 && |nodes| == |values| &&
    (forall i {:trigger nodes[i].prev} :: 0 < i < |nodes| && i != k + 1 ==> nodes[i].prev == nodes[i - 1]) &&
    (forall i {:trigger nodes[i].next} :: 0 <= i < |nodes| - 1 && i != k ==> nodes[i].next == nodes[i + 1]) &&
    nodes[0].prev == null && nodes[|nodes| - 1].next == null &&
    node.prev == nodes[k] && node.next == nodes[k + 1] && nodes[k].next == node && nodes[k + 1].prev == node &&
    (forall i :: 0 <= i < |nodes| ==> nodes[i].value == values[i])
  }

  /** Linking a node between nodes[k] and nodes[k + 1] keeps the chain linked. */
  lemma SpliceLinked<T>(nodes: seq<ListNode<T>>, k: int, node: ListNode<T>)
    requires 0 <= k < |nodes| - 1
    requires forall i {:trigger nodes[i].prev} :: 0 < i < |nodes| && i != k + 1 ==> nodes[i].prev == nodes[i - 1]
    requires forall i {:trigger nodes[i].next} :: 0 <= i < |nodes| - 1 && i != k ==> nodes[i].next == nodes[i + 1]
    requires nodes[0].prev == null && nodes[|nodes| - 1].next == null
    requires node.prev == nodes[k] && node.next == nodes[k + 1]
    requires nodes[k].next == node && nodes[k + 1].prev == node
    ensures Linked(InsertAt(nodes, k + 1, node))
  {
    var m := InsertAt(nodes, k + 1, node);
    forall i | 0 < i < |m| ensures m[i].prev == m[i - 1] {
      if i < k + 1 {
        assert m[i] == nodes[i] && m[i - 1] == nodes[i - 1];
      } else if i > k + 2 {
        assert m[i] == nodes[i - 1] && m[i - 1] == nodes[i - 2];
      }
    }
    forall i | 0 <= i < |m| - 1 ensures m[i].next == m[i + 1] {
      if i < k {
        assert m[i] == nodes[i] && m[i + 1] == nodes[i + 1];
      } else if i > k + 1 {
        assert m[i] == nodes[i - 1] && m[i + 1] == nodes[i];
      }
    }
  }

  /** Inserting a node and its value at the same position keeps the values held. */
  lemma InsertHolds<T>(nodes: seq<ListNode<T>>, values: seq<T>, i: int, node: ListNode<T>)
    requires 0 <= i <= |nodes| == |values|
    requires forall j :: 0 <= j < |nodes| ==> nodes[j].value == values[j]
    ensures Holds(InsertAt(nodes, i, node), InsertAt(values, i, node.value))
  {
  }

  /** Putting a node in front of the head keeps the chain linked. */
  lemma PrependLinked<T>(nodes: seq<ListNode<T>>, node: ListNode<T>)
    requires |nodes| > 0
    requires forall i {:trigger nodes[i].prev} :: 0 < i < |nodes| ==> nodes[i].prev == nodes[i - 1]
    requires forall i {:trigger nodes[i].next} :: 0 <= i < |nodes| - 1 ==> nodes[i].next == nodes[i + 1]
    requires nodes[|nodes| - 1].next == null
    requires node.prev == null && node.next == nodes[0] && nodes[0].prev == node
    ensures Linked([node] + nodes)
  {
    var m := [node] + nodes;
    forall i | 0 < i < |m| ensures m[i].prev == m[i - 1] {
      if i > 1 {
        assert m[i] == nodes[i - 1] && m[i - 1] == nodes[i - 2];
      }
    }
    forall i | 0 <= i < |m| - 1 ensures m[i].next == m[i + 1] {
      if i > 0 {
        assert m[i] == nodes[i - 1] && m[i + 1] == nodes[i];
      }
    }
  }

  /** Putting a node after the tail keeps the chain linked. */
  lemma AppendLinked<T>(nodes: seq<ListNode<T>>, node: ListNode<T>)
    requires |nodes| > 0
    requires forall i {:trigger nodes[i].prev} :: 0 < i < |nodes| ==> nodes[i].prev == nodes[i - 1]
    requires forall i {:trigger nodes[i].next} :: 0 <= i < |nodes| - 1 ==> nodes[i].next == nodes[i + 1]
    requires nodes[0].prev == null
    requires node.next == null && node.prev == nodes[|nodes| - 1] && nodes[|nodes| - 1].next == node
    ensures Linked(nodes + [node])
  {
    var m := nodes + [node];
    forall i | 0 < i < |m| ensures m[i].prev == m[i - 1] {
      if i < |nodes| {
        assert m[i] == nodes[i] && m[i - 1] == nodes[i - 1];
      }
    }
    forall i | 0 <= i < |m| - 1 ensures m[i].next == m[i + 1] {
      if i < |nodes| - 1 {
        assert m[i] == nodes[i] && m[i + 1] == nodes[i + 1];
      }
    }
  }

  /** Dropping the head, whose successor now points back at null, keeps the rest linked. */
  lemma DropFirstLinked<T>(nodes: seq<ListNode<T>>)
    requires |nodes| > 1
    requires forall i {:trigger nodes[i].prev} :: 1 < i < |nodes| ==> nodes[i].prev == nodes[i - 1]
    requires forall i {:trigger nodes[i].next} :: 1 <= i < |nodes| - 1 ==> nodes[i].next == nodes[i + 1]
    requires nodes[1].prev == null && nodes[|nodes| - 1].next == null
    ensures Linked(nodes[1..])
  {
    var m := nodes[1..];
    forall i | 0 < i < |m| ensures m[i].prev == m[i - 1] {
      assert m[i] == nodes[i + 1] && m[i - 1] == nodes[i];
    }
    forall i | 0 <= i < |m| - 1 ensures m[i].next == m[i + 1] {
      assert m[i] == nodes[i + 1] && m[i + 1] == nodes[i + 2];
    }
  }

  /** Dropping the tail, whose predecessor now points on to null, keeps the rest linked. */
  lemma DropLastLinked<T>(nodes: seq<ListNode<T>>)
    requires |nodes| > 1
    requires forall i {:trigger nodes[i].prev} :: 0 < i < |nodes| - 1 ==> nodes[i].prev == nodes[i - 1]
    requires forall i {:trigger nodes[i].next} :: 0 <= i < |nodes| - 2 ==> nodes[i].next == nodes[i + 1]
    requires nodes[0].prev == null && nodes[|nodes| - 2].next == null
    ensures Linked(nodes[..|nodes| - 1])
  {
    var m := nodes[..|nodes| - 1];
    forall i | 0 < i < |m| ensures m[i].prev == m[i - 1] {
      assert m[i] == nodes[i] && m[i - 1] == nodes[i - 1];
    }
    forall i | 0 <= i < |m| - 1 ensures m[i].next == m[i + 1] {
      assert m[i] == nodes[i] && m[i + 1] == nodes[i + 1];
    }
  }

  /** Linking the neighbours of nodes[k] to each other keeps the chain without it linked. */
  lemma UnspliceLinked<T>(nodes: seq<ListNode<T>>, k: int)
    requires 0 < k < |nodes| - 1
    requires forall i {:trigger nodes[i].prev} :: 0 < i < |nodes| && i != k + 1 ==> nodes[i].prev == nodes[i - 1]
    requires forall i {:trigger nodes[i].next} :: 0 <= i < |nodes| - 1 && i != k - 1 ==> nodes[i].next == nodes[i + 1]
    requires nodes[0].prev == null && nodes[|nodes| - 1].next == null
    requires nodes[k - 1].next == nodes[k + 1] && nodes[k + 1].prev == nodes[k - 1]
    ensures Linked(RemoveSlice(nodes, k, 1))
  {
    var m := RemoveSlice(nodes, k, 1);
    forall i | 0 < i < |m| ensures m[i].prev == m[i - 1] {
      if i < k {
        assert m[i] == nodes[i] && m[i - 1] == nodes[i - 1];
      } else if i > k {
        assert m[i] == nodes[i + 1] && m[i - 1] == nodes[i];
      }
    }
    forall i | 0 <= i < |m| - 1 ensures m[i].next == m[i + 1] {
      if i < k - 1 {
        assert m[i] == nodes[i] && m[i + 1] == nodes[i + 1];
      } else if i >= k {
        assert m[i] == nodes[i + 1] && m[i + 1] == nodes[i + 2];
      }
    }
  }

  /** Removing a node and its value at the same position keeps the values held. */
  lemma RemoveHolds<T>(nodes: seq<ListNode<T>>, values: seq<T>, k: int)
    requires 0 <= k < |nodes| == |values|
    requires forall j :: 0 <= j < |nodes| ==> nodes[j].value == values[j]
    ensures Holds(RemoveSlice(nodes, k, 1), RemoveSlice(values, k, 1))
  {
  }

  /** Inserting one more item right after a run that sits between two parts extends the run. */
  lemma InsertRun<T>(s: seq<T>, before: seq<T>, run: seq<T>, after: seq<T>, x: T)
    requires s == before + run + after
    ensures Collections.InsertAt(s, |before| + |run|, x) == before + (run + [x]) + after
  {
    InsertAtJoin(before + run, after, x);
  }

  /** What RemoveItems(collection) leaves: the first occurrence of each item is
      removed in turn, and an item that is no longer present is skipped. */
  function RemoveEachPresent<T(==)>(s: seq<T>, items: seq<T>): seq<T>
    decreases |items|
  {
    if items == [] then s else RemoveEachPresent(RemoveFirst(s, items[0]), items[1..])
  }

  /** RemoveItems(collection) takes away one copy of each item for as long as
      copies are left: the multiset difference of the list and the collection. */
  lemma {:induction false} RemoveEachPresentMultiset<T>(s: seq<T>, items: seq<T>)
    ensures multiset(RemoveEachPresent(s, items)) == multiset(s) - multiset(items)
    decreases |items|
  {
    if items != [] {
      var x, rest := items[0], items[1..];
      var s' := RemoveFirst(s, x);
      assert multiset(s') == multiset(s) - multiset{x} by {
        if x in s {
          RemoveFirstMultiset(s, x);
        }
      }
      assert multiset(items) == multiset{x} + multiset(rest) by {
        assert items == [x] + rest;
      }
      RemoveEachPresentMultiset(s', rest);
    }
  }

  /**
   * The state the partition loop of the list's QuickSort keeps between
   * rounds, for the pivot value p taken from slot lo before the loop: the
   * slots [lo, i] are not greater than p and the slots [j, hi] not smaller.
   * Before the first round i and j lie just outside [lo, hi] and slot lo
   * still holds p.
   */
  ghost predicate PivotSplit<T>(s: seq<T>, lo: int, hi: int, i: int, j: int, p: T, cmp: (T, T) -> int) {
    0 <= lo < hi < |s| && lo - 1 <= i < j <= hi + 1 &&
    (i == lo - 1 ==> j == hi + 1 && s[lo] == p) && (i >= lo ==> j <= hi) &&
    (forall k :: lo <= k <= i ==> cmp(s[k], p) <= 0) &&
    (forall k :: j <= k <= hi ==> cmp(s[k], p) >= 0)
  }

  /** Exchanging the values where the two scans stopped, a value not smaller
      than p at i and one not greater at j, extends the split to i and j. */
  lemma SwapKeepsPivotSplit<T>(before: seq<T>, after: seq<T>, lo: int, hi: int, i: int, j: int, p: T, cmp: (T, T) -> int)
    requires 0 <= lo <= i < j <= hi < |before| && after == before[i := before[j]][j := before[i]]
    requires cmp(before[i], p) >= 0 && cmp(before[j], p) <= 0
    requires forall k :: lo <= k < i ==> cmp(before[k], p) <= 0
    requires forall k :: j < k <= hi ==> cmp(before[k], p) >= 0
    ensures PivotSplit(after, lo, hi, i, j, p, cmp)
  {
  }

  class LinkedList<T(==,0,!new)> {
    var head: ListNode?<T>   // __pListHead
    var tail: ListNode?<T>   // __pListTail
    var count: nat           // __count
    var modCount: nat        // __modCount
    ghost var Nodes: seq<ListNode<T>>
    ghost var Contents: seq<T>

    /** The chain from head to tail visits Nodes in order and holds Contents. */
    ghost predicate Chain()
      reads this, Nodes
    {
      Holds(Nodes, Contents) && Linked(Nodes) &&
      head == (if |Nodes| == 0 then null else Nodes[0]) &&
      tail == (if |Nodes| == 0 then null else Nodes[|Nodes| - 1])
    }

    /** The representation invariant: the chain is intact and count is its length. */
    ghost predicate Valid()
      reads this, Nodes
    {
      |Nodes| == count && Chain()
    }

    /** LinkedListT(): an empty list. */
    constructor ()
      ensures Valid() && Contents == [] && modCount == 0
    {
      head, tail := null, null;
      count, modCount := 0, 0;
      Nodes, Contents := [], [];
    }

    /** The number of elements. */
    function GetCount(): (n: nat)
      reads this, Nodes
      requires Valid()
      ensures n == |Contents|
    {
      count
    }

    /** GetNode(index): walks index links from the head; null from count on. */
    method GetNode(index: int) returns (node: ListNode?<T>)
      requires Valid()
      ensures index >= |Nodes| ==> node == null
      ensures 0 <= index < |Nodes| ==> node == Nodes[index]
      ensures index < 0 ==> node == head
    {
      if index >= count {
        return null;
      }
      node := head;
      var i := 0;
      while i < index
        invariant 0 <= i && (index >= 0 ==> i <= index)
        invariant index >= 0 ==> node == Nodes[i]
        invariant index < 0 ==> node == head
      {
        node := node.next;
        i := i + 1;
      }
    }

    /** The two link writes that make `b` follow `a`. */
    static method Link(a: ListNode<T>, b: ListNode<T>)
      requires a != b
      modifies a, b
      ensures a.next == b && b.prev == a
      ensures a.prev == old(a.prev) && b.next == old(b.next)
      ensures a.value == old(a.value) && b.value == old(b.value)
    {
      a.next, b.prev := b, a;
    }

    /** The three link writes that put `node` between `a` and `b`. */
    static method LinkBetween(a: ListNode<T>, node: ListNode<T>, b: ListNode<T>)
      requires a != node && b != node && a != b
      modifies a, node, b
      ensures a.next == node && node.prev == a && node.next == b && b.prev == node
      ensures a.prev == old(a.prev) && b.next == old(b.next)
      ensures a.value == old(a.value) && b.value == old(b.value) && node.value == old(node.value)
    {
      node.prev, node.next, b.prev, a.next := a, b, node, node;
    }

    /** InsertFirst(obj): a new node holding obj becomes the head. */
    method InsertFirst(obj: T) returns (r: Result)
      requires Valid()
      modifies this, head
      ensures Valid() && r == Success && modCount == old(modCount) + 1
      ensures fresh(head) && Nodes == [head] + old(Nodes) && Contents == [obj] + old(Contents)
    {
      var node := new ListNode(obj);
      modCount := modCount + 1;
      if head == null {
        count := count + 1;
        head, tail := node, node;
        Nodes, Contents := [node], [obj];
      } else {
        LinkFirst(node);
      }
      r := Success;
    }

    /** The non-empty case of InsertFirst: node goes in front of the head. */
    method LinkFirst(node: ListNode<T>)
      requires Valid() && |Nodes| > 0 && node !in Nodes && node.prev == null
      modifies this, node, Nodes[0]
      ensures Valid() && modCount == old(modCount) && head == node
      ensures Nodes == [node] + old(Nodes) && Contents == [old(node.value)] + old(Contents)
    {
      ghost var N, C := Nodes, Contents;
      DistinctFrom(N, 0);
      Link(node, head);
      head := node;
      count, Nodes, Contents := count + 1, [node] + N, [node.value] + C;
      PrependLinked(N, node);
    }

    /** InsertLast(obj): InsertNext after the tail. */
    method InsertLast(obj: T) returns (r: Result)
      requires Valid()
      modifies this, tail
      ensures Valid() && r == Success && modCount == old(modCount) + 1
      ensures fresh(tail) && Nodes == old(Nodes) + [tail] && Contents == old(Contents) + [obj]
    {
      ghost var N, C := Nodes, Contents;
      var node := InsertNext(tail, obj, |Nodes|);
      InsertAtEnd(N, node);
      InsertAtEnd(C, obj);
      r := Success;
    }

    /**
     * InsertNext(prevNode, obj): a new node holding obj goes after prevNode
     * and is returned; in an empty list it becomes the only node whatever
     * prevNode is. Every caller passes a node of the list (or, on an empty
     * list, the null tail), so the E_INVALID_ARG exit for a null prevNode in
     * a non-empty list is never taken; `at` is where the new node lands.
     */
    method InsertNext(prevNode: ListNode?<T>, obj: T, ghost at: int) returns (node: ListNode<T>)
      requires Valid()
      requires (|Nodes| == 0 && at == 0) || (0 < at <= |Nodes| && prevNode == Nodes[at - 1])
      modifies this, prevNode, (if prevNode == null then null else prevNode.next)
      ensures Valid() && modCount == old(modCount) + 1
      ensures fresh(node) && Nodes == Collections.InsertAt(old(Nodes), at, node)
      ensures Contents == Collections.InsertAt(old(Contents), at, obj)
    {
      ghost var N, C := Nodes, Contents;
      node := new ListNode(obj);
      modCount := modCount + 1;
      if head == null {
        count := count + 1;
        head, tail := node, node;
        Nodes, Contents := [node], [obj];
        assert Nodes == Collections.InsertAt(N, at, node) && Contents == Collections.InsertAt(C, at, obj);
      } else if prevNode == tail {
        if at < |N| {
          NoRepeat(N, at - 1, |N| - 1);
        }
        AppendNode(node);
        InsertAtEnd(N, node);
        InsertAtEnd(C, obj);
      } else {
        SpliceAfter(prevNode, node, at - 1);
      }
    }

    /** The tail case of InsertNext: node goes after the tail. */
    method AppendNode(node: ListNode<T>)
      requires Valid() && |Nodes| > 0 && node !in Nodes && node.next == null
      modifies this, node, Nodes[|Nodes| - 1]
      ensures Valid() && modCount == old(modCount) && tail == node
      ensures Nodes == old(Nodes) + [node] && Contents == old(Contents) + [old(node.value)]
    {
      ghost var N, C := Nodes, Contents;
      DistinctFrom(N, |N| - 1);
      Link(tail, node);
      tail := node;
      count, Nodes, Contents := count + 1, N + [node], C + [node.value];
      AppendLinked(N, node);
    }

    /** The middle case of InsertNext: a fresh node goes between Nodes[k] and Nodes[k + 1]. */
    method SpliceAfter(prevNode: ListNode<T>, node: ListNode<T>, ghost k: int)
      requires Valid() && 0 <= k < |Nodes| - 1 && prevNode == Nodes[k] && node !in Nodes
      modifies this, prevNode, prevNode.next, node
      ensures Valid() && modCount == old(modCount)
      ensures Contents == Collections.InsertAt(old(Contents), k + 1, old(node.value))
      ensures Nodes == Collections.InsertAt(old(Nodes), k + 1, node)
    {
      LinkAfter(prevNode, node, k);
      RecordSplice(node, k);
    }

    /** The bookkeeping of SpliceAfter once the pointers are in place. */
    method RecordSplice(node: ListNode<T>, ghost k: int)
      requires SplicedAt(Nodes, Contents, k, node) && count == |Nodes|
      requires head == Nodes[0] && tail == Nodes[|Nodes| - 1]
      modifies this
      ensures Valid() && modCount == old(modCount)
      ensures Contents == Collections.InsertAt(old(Contents), k + 1, node.value)
      ensures Nodes == Collections.InsertAt(old(Nodes), k + 1, node)
    {
      ghost var N, C := Nodes, Contents;
      SpliceLinked(N, k, node);
      InsertHolds(N, C, k + 1, node);
      count, Nodes, Contents := count + 1, Collections.InsertAt(N, k + 1, node), Collections.InsertAt(C, k + 1, node.value);
    }

    /** The pointer updates of SpliceAfter, before the list records the new node. */
    method LinkAfter(prevNode: ListNode<T>, node: ListNode<T>, ghost k: int)
      requires Valid() && 0 <= k < |Nodes| - 1 && prevNode == Nodes[k] && node !in Nodes
      modifies prevNode, prevNode.next, node
      ensures SplicedAt(Nodes, Contents, k, node) && node.value == old(node.value)
    {
      var after := prevNode.next;
      assert after == Nodes[k + 1];
      DistinctFrom(Nodes, k);
      DistinctFrom(Nodes, k + 1);
      LinkBetween(prevNode, node, after);
    }

    /**
     * RemoveNode(node): unlinks nodes[k] from the chain, moving the head or
     * the tail when it is one of them; the count is decremented before the
     * cases are told apart, so the last node leaves at count zero.
     */
    method RemoveNode(node: ListNode<T>, ghost k: int)
      requires Valid() && 0 <= k < |Nodes| && node == Nodes[k]
      modifies this, node.prev, node.next
      ensures Valid() && modCount == old(modCount) + 1
      ensures Nodes == RemoveSlice(old(Nodes), k, 1) && Contents == RemoveSlice(old(Contents), k, 1)
    {
      ghost var N, C := Nodes, Contents;
      modCount := modCount + 1;
      count := count - 1;
      if count == 0 {
        head, tail := null, null;
        Nodes, Contents := [], [];
      } else if node == head {
        if k != 0 {
          NoRepeat(N, 0, k);
        }
        UnlinkHead();
        assert Nodes == RemoveSlice(N, k, 1) && Contents == RemoveSlice(C, k, 1);
      } else if node == tail {
        if k != |N| - 1 {
          NoRepeat(N, k, |N| - 1);
        }
        UnlinkTail();
        assert Nodes == RemoveSlice(N, k, 1) && Contents == RemoveSlice(C, k, 1);
      } else {
        UnlinkMiddle(node, k);
      }
    }

    /** The head case of RemoveNode: the second node becomes the head. */
    method UnlinkHead()
      requires Chain() && |Nodes| > 1 && count == |Nodes| - 1
      modifies this, Nodes[1]
      ensures Valid() && modCount == old(modCount)
      ensures Nodes == old(Nodes)[1..] && Contents == old(Contents)[1..]
    {
      ghost var N, C := Nodes, Contents;
      DistinctFrom(N, 1);
      var next := head.next;
      assert next == N[1];
      head := next;
      next.prev := null;
      Nodes, Contents := N[1..], C[1..];
      DropFirstLinked(N);
    }

    /** The tail case of RemoveNode: the node before the tail becomes the tail. */
    method UnlinkTail()
      requires Chain() && |Nodes| > 1 && count == |Nodes| - 1
      modifies this, Nodes[|Nodes| - 2]
      ensures Valid() && modCount == old(modCount)
      ensures Nodes == old(Nodes)[..|old(Nodes)| - 1] && Contents == old(Contents)[..|old(Contents)| - 1]
    {
      ghost var N, C := Nodes, Contents;
      DistinctFrom(N, |N| - 2);
      var before := tail.prev;
      assert before == N[|N| - 2];
      tail := before;
      before.next := null;
      Nodes, Contents := N[..|N| - 1], C[..|C| - 1];
      DropLastLinked(N);
    }

    /** The middle case of RemoveNode: the neighbours of nodes[k] are linked to each other. */
    method UnlinkMiddle(node: ListNode<T>, ghost k: int)
      requires Chain() && 0 < k < |Nodes| - 1 && node == Nodes[k] && count == |Nodes| - 1
      modifies this, Nodes[k - 1], Nodes[k + 1]
      ensures Valid() && modCount == old(modCount)
      ensures Nodes == RemoveSlice(old(Nodes), k, 1) && Contents == RemoveSlice(old(Contents), k, 1)
    {
      ghost var N, C := Nodes, Contents;
      var before, after := node.prev, node.next;
      assert before == N[k - 1] && after == N[k + 1];
      DistinctFrom(N, k - 1);
      DistinctFrom(N, k + 1);
      Link(before, after);
      Nodes, Contents := RemoveSlice(N, k, 1), RemoveSlice(C, k, 1);
      UnspliceLinked(N, k);
      RemoveHolds(N, C, k);
    }

    /** Add(obj): InsertFirst on an empty list, InsertLast otherwise; either way obj ends up last. */
    method Add(obj: T) returns (r: Result)
      requires Valid()
      modifies this, Nodes
      ensures Valid() && r == Success && modCount == old(modCount) + 1
      ensures Contents == old(Contents) + [obj]
      ensures fresh(tail) && Nodes == old(Nodes) + [tail]
    {
      if head == null {
        r := InsertFirst(obj);
      } else {
        r := InsertLast(obj);
      }
    }

    /** AddItems(collection): InsertItemsFrom at the end. */
    method AddItems(collection: seq<T>) returns (r: Result)
      requires Valid()
      modifies this, Nodes
      ensures Valid() && r == Success
      ensures Contents == old(Contents) + collection
      ensures modCount == old(modCount) + |collection|
    {
      r := InsertItemsFrom(collection, count);
      assert old(Contents)[..|old(Contents)|] == old(Contents);
    }

    /** InsertAt(obj, index): InsertFirst at 0, InsertLast at count, else InsertNext after node index - 1. */
    method InsertAt(obj: T, index: int) returns (r: Result)
      requires Valid()
      modifies this, Nodes
      ensures Valid()
      ensures r == (if 0 <= index <= old(|Contents|) then Success else OutOfRange)
      ensures r == OutOfRange ==> Contents == old(Contents) && Nodes == old(Nodes) && modCount == old(modCount)
      ensures r == Success ==> (Contents == Collections.InsertAt(old(Contents), index, obj) &&
          fresh(Nodes[index]) && Nodes == Collections.InsertAt(old(Nodes), index, Nodes[index]) &&
          modCount == old(modCount) + 1)
    {
      if !(index >= 0 && index <= count) {
        return OutOfRange;
      }
      ghost var N, C := Nodes, Contents;
      if index == 0 {
        r := InsertFirst(obj);
        InsertAtFront(N, head);
        InsertAtFront(C, obj);
      } else if index == count {
        r := InsertLast(obj);
        InsertAtEnd(N, tail);
        InsertAtEnd(C, obj);
      } else {
        var prevNode := GetNode(index - 1);
        if prevNode != null {
          var _ := InsertNext(prevNode, obj, index);
        }
        r := Success;
      }
    }

    /**
     * The state InsertItemsFrom keeps while it inserts: the items inserted
     * so far (`run`) sit at position `at` between the old nodes and values
     * N0 and C0, prevNode is the last node inserted (or the node before `at`,
     * or null at the front), and the chain goes on after it with N0[at].
     */
    ghost predicate InsertedRun(N0: seq<ListNode<T>>, C0: seq<T>, at: int, run: seq<T>, prevNode: ListNode?<T>)
      reads this, Nodes
    {
      Valid() && 0 <= at <= |N0| == |C0| &&
      |Nodes| == |N0| + |run| && Contents == C0[..at] + run + C0[at..] &&
      prevNode == (if at + |run| == 0 then null else Nodes[at + |run| - 1]) &&
      (if prevNode == null then head else prevNode.next) == (if at < |N0| then N0[at] else null)
    }

    /**
     * InsertItemsFrom(collection, startIndex): inserts the collection's
     * elements one after another, starting after node startIndex - 1 (or at
     * the front when there is no such node).
     */
    method InsertItemsFrom(collection: seq<T>, startIndex: int) returns (r: Result)
      requires Valid()
      modifies this, Nodes
      ensures Valid()
      ensures r == (if 0 <= startIndex <= old(|Contents|) then Success else OutOfRange)
      ensures r == OutOfRange ==> Contents == old(Contents) && Nodes == old(Nodes) && modCount == old(modCount)
      ensures r == Success ==> (Contents == old(Contents)[..startIndex] + collection + old(Contents)[startIndex..] &&
          modCount == old(modCount) + |collection|)
    {
      if !(startIndex >= 0 && startIndex <= count) {
        return OutOfRange;
      }
      ghost var N0, C0 := Nodes, Contents;
      if |collection| > 0 {
        var prevNode: ListNode?<T> := null;
        if startIndex == count {
          prevNode := tail;
        } else if startIndex > 0 {
          prevNode := GetNode(startIndex - 1);
        }
        assert C0 == C0[..startIndex] + [] + C0[startIndex..];
        InsertEach(collection, prevNode, N0, C0, startIndex);
      }
      r := Success;
    }

    /** The loop of InsertItemsFrom: each value goes in after the node the
        previous one went into, and its node is the next one to insert after. */
    method InsertEach(collection: seq<T>, prevNode0: ListNode?<T>, ghost N0: seq<ListNode<T>>, ghost C0: seq<T>, ghost at: int)
      requires InsertedRun(N0, C0, at, [], prevNode0) && Nodes == N0
      modifies this, Nodes
      ensures Valid() && Contents == C0[..at] + collection + C0[at..]
      ensures modCount == old(modCount) + |collection|
    {
      var prevNode := prevNode0;
      var k := 0;
      while k < |collection|
        invariant 0 <= k <= |collection|
        invariant InsertedRun(N0, C0, at, collection[..k], prevNode)
        invariant modCount == old(modCount) + k
        invariant k == 0 ==> Nodes == N0
        invariant k > 0 ==> fresh(prevNode)
      {
        assert collection[..k + 1] == collection[..k] + [collection[k]];
        prevNode := InsertStep(prevNode, collection[k], N0, C0, at, collection[..k]);
        k := k + 1;
      }
      assert collection[..k] == collection;
    }

    /** The loop body of InsertItemsFrom: InsertFirst when there is no node to
        insert after, InsertNext otherwise; the new node extends the run. */
    method InsertStep(prevNode: ListNode?<T>, obj: T, ghost N0: seq<ListNode<T>>, ghost C0: seq<T>, ghost at: int, ghost run: seq<T>)
        returns (node: ListNode<T>)
      requires InsertedRun(N0, C0, at, run, prevNode)
      modifies this, prevNode, (if prevNode == null then head else prevNode.next)
      ensures InsertedRun(N0, C0, at, run + [obj], node)
      ensures fresh(node) && modCount == old(modCount) + 1
    {
      ghost var N, C, i := Nodes, Contents, at + |run|;
      InsertRun(C, C0[..at], run, C0[at..], obj);
      if prevNode == null {
        var _ := InsertFirst(obj);
        node := head;
        InsertAtFront(N, node);
        InsertAtFront(C, obj);
      } else {
        node := InsertNext(prevNode, obj, i);
      }
    }

    /** GetAt(index): the value of the node at a position inside the list. */
    method GetAt(index: int) returns (r: Result, obj: T)
      requires Valid()
      ensures r == (if 0 <= index < |Contents| then Success else OutOfRange)
      ensures r == Success ==> obj == Contents[index]
    {
      if !(index >= 0 && index < count) {
        r, obj := OutOfRange, *;
        return;
      }
      var node := GetNode(index);
      obj := *;
      if node != null {
        obj := node.value;
      }
      r := Success;
    }

    /** IndexOf(obj, startIndex, count): walks the range from its first node and stops at the first match. */
    method IndexOfIn(obj: T, startIndex: int, n: int) returns (r: Result, index: int)
      requires Valid()
      ensures !ValidRange(startIndex, n, |Contents|) ==> r == OutOfRange
      ensures ValidRange(startIndex, n, |Contents|) ==>
        r == (if obj in Contents[startIndex..startIndex + n] then Success else ObjNotFound)
      ensures r == Success ==> (startIndex <= index < startIndex + n && Contents[index] == obj &&
          forall k :: startIndex <= k < index ==> Contents[k] != obj)
    {
      if !ValidRange(startIndex, n, count) {
        return OutOfRange, 0;
      }
      var node := GetNode(startIndex);
      var i := 0;
      while i < n
        invariant 0 <= i <= n
        invariant i < n ==> node == Nodes[startIndex + i]
        invariant forall k :: startIndex <= k < startIndex + i ==> Contents[k] != obj
      {
        if node != null {
          if obj == node.value {
            return Success, startIndex + i;
          }
          node := node.next;
        }
        i := i + 1;
      }
      r, index := ObjNotFound, 0;
    }

    /** IndexOf(obj): E_OBJ_NOT_FOUND on an empty list, otherwise the ranged search over the whole list. */
    method IndexOf(obj: T) returns (r: Result, index: int)
      requires Valid()
      ensures r == (if obj in Contents then Success else ObjNotFound)
      ensures r == Success ==> 0 <= index < |Contents| && index == FirstIndex(Contents, obj)
    {
      if count == 0 {
        return ObjNotFound, 0;
      }
      r, index := IndexOfIn(obj, 0, count);
      assert Contents[0..count] == Contents;
    }

    /** IndexOf(obj, startIndex): the first position at or after startIndex holding obj. */
    method IndexOfFrom(obj: T, startIndex: int) returns (r: Result, index: int)
      requires Valid()
      ensures !(0 <= startIndex < |Contents|) ==> r == OutOfRange
      ensures 0 <= startIndex < |Contents| ==> r == (if obj in Contents[startIndex..] then Success else ObjNotFound)
      ensures r == Success ==> (startIndex <= index < |Contents| && Contents[index] == obj &&
          forall k :: startIndex <= k < index ==> Contents[k] != obj)
    {
      if !(startIndex >= 0 && startIndex < count) {
        return OutOfRange, 0;
      }
      r, index := IndexOfIn(obj, startIndex, count - startIndex);
    }

    /** LastIndexOf(obj): walks back from the tail and stops at the first match. */
    method LastIndexOf(obj: T) returns (r: Result, index: int)
      requires Valid()
      ensures r == (if obj in Contents then Success else ObjNotFound)
      ensures r == Success ==> (0 <= index < |Contents| && Contents[index] == obj &&
          forall k :: index < k < |Contents| ==> Contents[k] != obj)
    {
      var node := tail;
      var i := count - 1;
      while i >= 0
        invariant -1 <= i < count
        invariant i >= 0 ==> node == Nodes[i]
        invariant forall k :: i < k < count ==> Contents[k] != obj
      {
        if obj == node.value {
          return Success, i;
        }
        node := node.prev;
        i := i - 1;
      }
      r, index := ObjNotFound, 0;
    }

    /** Contains(obj): whether some node holds obj. */
    method Contains(obj: T) returns (found: bool)
      requires Valid()
      ensures found <==> obj in Contents
    {
      if count == 0 {
        return false;
      }
      var node := GetNode(0);
      var i := 0;
      while i < count
        invariant 0 <= i <= count
        invariant i < count ==> node == Nodes[i]
        invariant forall k :: 0 <= k < i ==> Contents[k] != obj
      {
        if node != null {
          if obj == node.value {
            return true;
          }
          node := node.next;
        }
        i := i + 1;
      }
      found := false;
    }

    /** ContainsAll(collection): whether every element of the collection occurs in the list. */
    method ContainsAll(collection: seq<T>) returns (r: Result, out: bool)
      requires Valid()
      ensures r == Success
      ensures out <==> forall x :: x in collection ==> x in Contents
    {
      if |collection| == 0 {
        return Success, true;
      }
      var k := 0;
      while k < |collection|
        invariant 0 <= k <= |collection|
        invariant forall i :: 0 <= i < k ==> collection[i] in Contents
      {
        var found := Contains(collection[k]);
        if !found {
          return Success, false;
        }
        k := k + 1;
      }
      r, out := Success, true;
    }

    /** Equals(other): the same object, or lists of the same length whose nodes hold equal values in order. */
    method Equals(other: LinkedList<T>) returns (equal: bool)
      requires Valid() && other.Valid()
      ensures equal <==> Contents == other.Contents
    {
      if other == this {
        return true;
      }
      if count != other.count {
        return false;
      }
      var node, otherNode := head, other.head;
      var i := 0;
      while i < count
        invariant 0 <= i <= count
        invariant i < count ==> node == Nodes[i] && otherNode == other.Nodes[i]
        invariant forall k :: 0 <= k < i ==> Contents[k] == other.Contents[k]
      {
        if node.value != otherNode.value {
          return false;
        }
        node, otherNode := node.next, otherNode.next;
        i := i + 1;
      }
      equal := true;
      assert Contents == other.Contents;
    }

    /** RemoveAt(index): unlinks the node at a position inside the list. */
    method RemoveAt(index: int) returns (r: Result)
      requires Valid()
      modifies this, Nodes
      ensures Valid()
      ensures r == (if 0 <= index < old(|Contents|) then Success else OutOfRange)
      ensures r == OutOfRange ==> Nodes == old(Nodes) && Contents == old(Contents) && modCount == old(modCount)
      ensures r == Success ==> (Nodes == RemoveSlice(old(Nodes), index, 1) &&
          Contents == RemoveSlice(old(Contents), index, 1) && modCount == old(modCount) + 1)
    {
      if !(index < count && index >= 0) {
        return OutOfRange;
      }
      var node := GetNode(index);
      RemoveNode(node, index);
      r := Success;
    }

    /** Remove(obj): walks from the head and unlinks the first node holding obj. */
    method Remove(obj: T) returns (r: Result)
      requires Valid()
      modifies this, Nodes
      ensures Valid()
      ensures r == (if obj in old(Contents) then Success else ObjNotFound)
      ensures Contents == RemoveFirst(old(Contents), obj)
      ensures r == ObjNotFound ==> Nodes == old(Nodes) && modCount == old(modCount)
      ensures r == Success ==> (Nodes == RemoveSlice(old(Nodes), FirstIndex(old(Contents), obj), 1) &&
          modCount == old(modCount) + 1)
    {
      var node := head;
      ghost var i := 0;
      while node != null
        invariant 0 <= i <= |Nodes| && node == (if i < |Nodes| then Nodes[i] else null)
        invariant forall k :: 0 <= k < i ==> Contents[k] != obj
        decreases |Nodes| - i
      {
        if node.value == obj {
          ghost var C := Contents;
          assert FirstIndex(C, obj) == i;
          RemoveNode(node, i);
          return Success;
        }
        node := node.next;
        i := i + 1;
      }
      r := ObjNotFound;
    }

    /** The loop body of RemoveItems(collection): Remove, with the nodes left
        still among those the loop started with. */
    method RemoveStep(obj: T, ghost N0: seq<ListNode<T>>) returns (r: Result)
      requires Valid() && forall i :: 0 <= i < |Nodes| ==> Nodes[i] in N0
      modifies this, N0
      ensures Valid() && forall i :: 0 <= i < |Nodes| ==> Nodes[i] in N0
      ensures Contents == RemoveFirst(old(Contents), obj)
      ensures modCount == old(modCount) + (old(|Contents|) - |Contents|)
    {
      ghost var N, C := Nodes, Contents;
      r := Remove(obj);
      if r == Success {
        RemoveFirstMultiset(C, obj);
      }
    }

    /**
     * RemoveItems(collection): removes the first occurrence of each of the
     * collection's items in turn; a missing item is skipped and the result
     * is E_SUCCESS all the same.
     */
    method RemoveCollection(collection: seq<T>) returns (r: Result)
      requires Valid()
      modifies this, Nodes
      ensures Valid() && r == Success
      ensures Contents == RemoveEachPresent(old(Contents), collection)
      ensures modCount == old(modCount) + (old(|Contents|) - |Contents|)
    {
      ghost var N0 := Nodes;
      var k := 0;
      while k < |collection|
        invariant 0 <= k <= |collection| && Valid()
        invariant forall i :: 0 <= i < |Nodes| ==> Nodes[i] in N0
        invariant RemoveEachPresent(Contents, collection[k..]) == RemoveEachPresent(old(Contents), collection)
        invariant modCount == old(modCount) + (old(|Contents|) - |Contents|)
      {
        assert collection[k..][0] == collection[k] && collection[k..][1..] == collection[k + 1..];
        var _ := RemoveStep(collection[k], N0);
        k := k + 1;
      }
      r := Success;
    }

    /**
     * The state RemoveItems(startIndex, n) keeps while it unlinks: `removed`
     * nodes starting at `at` are gone from N0 and C0, and `node` is the one
     * now at `at`.
     */
    ghost predicate RemovedRun(N0: seq<ListNode<T>>, C0: seq<T>, at: nat, removed: nat, node: ListNode?<T>)
      reads this, Nodes
    {
      Valid() && at + removed <= |N0| == |C0| &&
      Nodes == RemoveSlice(N0, at, removed) && Contents == RemoveSlice(C0, at, removed) &&
      node == (if at < |Nodes| then Nodes[at] else null)
    }

    /** RemoveItems(startIndex, n): unlinks n nodes, starting at a position inside the list. */
    method RemoveItems(startIndex: int, n: int) returns (r: Result)
      requires Valid()
      modifies this, Nodes
      ensures Valid()
      ensures r == (if ValidRange(startIndex, n, old(|Contents|)) then Success else OutOfRange)
      ensures r == OutOfRange ==> Nodes == old(Nodes) && Contents == old(Contents) && modCount == old(modCount)
      ensures r == Success ==> (Nodes == RemoveSlice(old(Nodes), startIndex, n) &&
          Contents == RemoveSlice(old(Contents), startIndex, n) && modCount == old(modCount) + n)
    {
      if !(startIndex >= 0 && n >= 0) || !(startIndex < count) || !(n <= count && startIndex + n <= count) {
        return OutOfRange;
      }
      if n > 0 {
        RemoveRun(startIndex, n);
      } else {
        assert Nodes == RemoveSlice(Nodes, startIndex, 0) && Contents == RemoveSlice(Contents, startIndex, 0);
      }
      r := Success;
    }

    /** The loop of RemoveItems(startIndex, n): starting at node startIndex,
        unlinks a node and moves on to its successor, n times. */
    method RemoveRun(startIndex: nat, n: nat)
      requires Valid() && 0 < n && startIndex + n <= |Nodes|
      modifies this, Nodes
      ensures Valid() && modCount == old(modCount) + n
      ensures Nodes == RemoveSlice(old(Nodes), startIndex, n) && Contents == RemoveSlice(old(Contents), startIndex, n)
    {
      ghost var N0, C0 := Nodes, Contents;
      var node := GetNode(startIndex);
      assert RemovedRun(N0, C0, startIndex, 0, node);
      for i := 0 to n
        invariant RemovedRun(N0, C0, startIndex, i, node)
        invariant modCount == old(modCount) + i
      {
        if node != null {
          node := RemoveRunStep(node, N0, C0, startIndex, i);
        }
      }
    }

    /** The loop body of RemoveItems(startIndex, n): unlink node, go on with its successor. */
    method RemoveRunStep(node: ListNode<T>, ghost N0: seq<ListNode<T>>, ghost C0: seq<T>, ghost at: nat, ghost removed: nat)
        returns (next: ListNode?<T>)
      requires RemovedRun(N0, C0, at, removed, node) && at + removed < |N0|
      modifies this, N0
      ensures RemovedRun(N0, C0, at, removed + 1, next) && modCount == old(modCount) + 1
    {
      if at > 0 {
        assert node.prev == N0[at - 1];
      }
      if at + 1 < |Nodes| {
        assert node.next == N0[at + removed + 1];
      }
      next := node.next;
      RemoveNode(node, at);
      RemoveSliceWiden(N0, at, removed);
      RemoveSliceWiden(C0, at, removed);
    }

    /** RemoveAll(): walks the chain, counting down, then empties the list;
        only a non-empty list has its modCount bumped. */
    method RemoveAll()
      requires Valid()
      modifies this
      ensures Valid() && Contents == [] && Nodes == []
      ensures modCount == old(modCount) + (if old(|Contents|) > 0 then 1 else 0)
    {
      if count > 0 {
        modCount := modCount + 1;
        var node := head;
        ghost var i := 0;
        while node != null
          invariant 0 <= i <= |Nodes| && count == |Nodes| - i && Chain()
          invariant node == (if i < |Nodes| then Nodes[i] else null)
          invariant modCount == old(modCount) + 1
          decreases |Nodes| - i
        {
          node := node.next;
          count := count - 1;
          i := i + 1;
        }
        head, tail := null, null;
        Nodes, Contents := [], [];
      }
    }

    /** SetAt(obj, index): replaces the value of the node at a position inside the list. */
    method SetAt(obj: T, index: int) returns (r: Result)
      requires Valid()
      modifies this, Nodes
      ensures Valid() && Nodes == old(Nodes)
      ensures r == (if 0 <= index < old(|Contents|) then Success else OutOfRange)
      ensures r == OutOfRange ==> Contents == old(Contents) && modCount == old(modCount)
      ensures r == Success ==> Contents == old(Contents)[index := obj] && modCount == old(modCount) + 1
    {
      if !(index >= 0 && index < count) {
        return OutOfRange;
      }
      modCount := modCount + 1;
      var node := GetNode(index);
      if node != null {
        Store(node, index, obj);
      }
      r := Success;
    }

    /** The value write of SetAt: Nodes[index] takes obj and no other node changes. */
    method Store(node: ListNode<T>, ghost index: int, obj: T)
      requires Valid() && 0 <= index < |Nodes| && node == Nodes[index]
      modifies this, node
      ensures Valid() && Nodes == old(Nodes) && modCount == old(modCount)
      ensures Contents == old(Contents)[index := obj]
    {
      DistinctFrom(Nodes, index);
      node.value := obj;
      Contents := Contents[index := obj];
    }

    /**
     * Sort(comparer): quicksorts the values in place, leaving the nodes where
     * they are. The result is sorted under the comparer and a permutation of
     * the original. Sorting does not bump modCount.
     */
    method Sort(cmp: (T, T) -> int) returns (r: Result)
      requires Valid() && IsTotalPreorder(cmp)
      modifies this, Nodes
      ensures Valid() && r == Success && Nodes == old(Nodes) && modCount == old(modCount)
      ensures SortedBy(Contents, cmp)
      ensures multiset(Contents) == multiset(old(Contents))
    {
      if 0 == count {
        return Success;
      }
      QuickSort(0, count - 1, cmp);
      assert Contents[0..count] == Contents && old(Contents)[0..count] == old(Contents);
      r := Success;
    }

    /** QuickSort(startIndex, endIndex): sorts the values of the nodes [lo, hi] around a Hoare partition. */
    method QuickSort(lo: int, hi: int, cmp: (T, T) -> int)
      requires Valid() && 0 <= lo <= hi < |Nodes| && IsTotalPreorder(cmp)
      modifies this, Nodes
      ensures Valid() && Nodes == old(Nodes) && modCount == old(modCount)
      ensures Contents[..lo] == old(Contents)[..lo] && Contents[hi + 1..] == old(Contents)[hi + 1..]
      ensures multiset(Contents[lo..hi + 1]) == multiset(old(Contents)[lo..hi + 1])
      ensures SortedBy(Contents[lo..hi + 1], cmp)
      decreases hi - lo
    {
      if lo < hi {
        ghost var s0 := Contents;
        var mid := Partition(lo, hi, cmp);
        assert Contents[..lo] == s0[..lo] && Contents[hi + 1..] == s0[hi + 1..];
        ghost var s1 := Contents;
        QuickSort(lo, mid, cmp);
        ghost var s2 := Contents;
        QuickSort(mid + 1, hi, cmp);
        SortedParts(s0, s1, s2, Contents, lo, mid, hi, cmp);
      }
    }

    /**
     * The partition loop of QuickSort. It compares against the value slot lo
     * held before the loop, and keeps the nodes at i and j between rounds so
     * that each scan step follows one link instead of walking from the head.
     */
    method Partition(lo: int, hi: int, cmp: (T, T) -> int) returns (mid: int)
      requires Valid() && 0 <= lo < hi < |Nodes| && IsTotalPreorder(cmp)
      modifies this, Nodes
      ensures Valid() && Nodes == old(Nodes) && modCount == old(modCount)
      ensures lo <= mid < hi
      ensures forall k :: 0 <= k < |Contents| && !(lo <= k <= hi) ==> Contents[k] == old(Contents)[k]
      ensures multiset(Contents[lo..hi + 1]) == multiset(old(Contents)[lo..hi + 1])
      ensures AllNotGreater(Contents[lo..mid + 1], Contents[mid + 1..hi + 1], cmp)
    {
      var p: T;
      var node := GetNode(lo);
      if node != null {
        p := node.value;
      }
      var i, j := lo - 1, hi + 1;
      var nodeI: ListNode?<T>, nodeJ: ListNode?<T> := null, null;
      while true
        invariant Valid() && Nodes == old(Nodes) && modCount == old(modCount)
        invariant PivotSplit(Contents, lo, hi, i, j, p, cmp)
        invariant nodeI == (if i == lo - 1 then null else Nodes[i])
        invariant nodeJ == (if j == hi + 1 then null else Nodes[j])
        invariant PermutedWithin(old(Contents), lo, hi)
        decreases j - i
      {
        i, j, nodeI, nodeJ := PartitionRound(lo, hi, p, i, j, nodeI, nodeJ, cmp, old(Contents));
        if i >= j {
          mid := j;
          break;
        }
      }
      PivotSplits(Contents, lo, mid, hi, p, cmp);
    }

    /** Contents is C0 outside [lo, hi] and a permutation of it inside. */
    ghost predicate PermutedWithin(C0: seq<T>, lo: int, hi: int)
      reads this
    {
      |Contents| == |C0| && 0 <= lo <= hi < |C0| &&
      (forall k :: 0 <= k < |Contents| && !(lo <= k <= hi) ==> Contents[k] == C0[k]) &&
      multiset(Contents[lo..hi + 1]) == multiset(C0[lo..hi + 1])
    }

    /** One round of the partition loop: both scans, then an exchange of the
        two nodes' values when the indices have not crossed. */
    method PartitionRound(lo: int, hi: int, p: T, i0: int, j0: int, nodeI0: ListNode?<T>, nodeJ0: ListNode?<T>,
        cmp: (T, T) -> int, ghost C0: seq<T>) returns (i: int, j: int, nodeI: ListNode<T>, nodeJ: ListNode<T>)
      requires Valid() && IsTotalPreorder(cmp) && PivotSplit(Contents, lo, hi, i0, j0, p, cmp)
      requires PermutedWithin(C0, lo, hi)
      requires nodeI0 == (if i0 == lo - 1 then null else Nodes[i0])
      requires nodeJ0 == (if j0 == hi + 1 then null else Nodes[j0])
      modifies this, Nodes
      ensures Valid() && Nodes == old(Nodes) && modCount == old(modCount)
      ensures i0 < i <= hi && lo <= j < j0 && nodeI == Nodes[i] && nodeJ == Nodes[j]
      ensures i < j ==> PivotSplit(Contents, lo, hi, i, j, p, cmp)
      ensures i >= j ==> (j < hi &&
        (forall k :: lo <= k <= j ==> cmp(Contents[k], p) <= 0) &&
        (forall k :: j < k <= hi ==> cmp(Contents[k], p) >= 0))
      ensures PermutedWithin(C0, lo, hi)
    {
      var ci, cj;
      j, nodeJ, cj := ScanDown(lo, hi, j0, nodeJ0, p, cmp);
      i, nodeI, ci := ScanUp(lo, hi, i0, nodeI0, p, cmp);
      if i < j {
        SwapAcross(nodeI, nodeJ, lo, hi, i, j, p, cmp, C0);
      } else {
        forall k | lo <= k <= j ensures cmp(Contents[k], p) <= 0 {
          if k == i && i0 == lo - 1 {
            assert cmp(p, p) == 0;
          }
        }
      }
    }

    /** The exchange step of a round: the values where the scans stopped trade
        places, which extends the split to i and j and keeps the permutation. */
    method SwapAcross(nodeI: ListNode<T>, nodeJ: ListNode<T>, lo: int, hi: int, ghost i: int, ghost j: int,
        p: T, cmp: (T, T) -> int, ghost C0: seq<T>)
      requires Valid() && lo <= i < j <= hi && PermutedWithin(C0, lo, hi) && |Nodes| == |C0|
      requires nodeI == Nodes[i] && nodeJ == Nodes[j]
      requires cmp(Contents[i], p) >= 0 && cmp(Contents[j], p) <= 0
      requires forall k :: lo <= k < i ==> cmp(Contents[k], p) <= 0
      requires forall k :: j < k <= hi ==> cmp(Contents[k], p) >= 0
      modifies this, nodeI, nodeJ
      ensures Valid() && Nodes == old(Nodes) && modCount == old(modCount)
      ensures PivotSplit(Contents, lo, hi, i, j, p, cmp) && PermutedWithin(C0, lo, hi)
    {
      ghost var before := Contents;
      SwapValues(nodeI, nodeJ, i, j);
      SwapSliceMultiset(before, lo, hi, i, j);
      SwapKeepsPivotSplit(before, Contents, lo, hi, i, j, p, cmp);
    }

    /** The downward scan: steps j down at least once, following prev links
        once a node is at hand, and stops at a value not greater than p or at lo. */
    method ScanDown(lo: int, hi: int, j0: int, nodeJ0: ListNode?<T>, p: T, cmp: (T, T) -> int)
        returns (j: int, nodeJ: ListNode<T>, c: int)
      requires Valid() && 0 <= lo < j0 <= hi + 1 <= |Nodes|
      requires nodeJ0 == (if j0 == hi + 1 then null else Nodes[j0])
      requires forall k :: j0 <= k <= hi ==> cmp(Contents[k], p) >= 0
      ensures lo <= j < j0 && nodeJ == Nodes[j] && c == cmp(Contents[j], p) && (c <= 0 || j == lo)
      ensures forall k :: j < k <= hi ==> cmp(Contents[k], p) >= 0
    {
      var n := nodeJ0;
      j, c := j0, 1;
      while c > 0 && j > lo
        invariant lo <= j <= j0
        invariant j == j0 ==> c > 0 && n == nodeJ0
        invariant j < j0 ==> n == Nodes[j] && c == cmp(Contents[j], p)
        invariant forall k :: j < k <= hi ==> cmp(Contents[k], p) >= 0
        decreases j
      {
        j := j - 1;
        if n == null {
          n := GetNode(j);
        } else {
          n := n.prev;
        }
        if n != null {
          c := cmp(n.value, p);
        }
      }
      nodeJ := n;
    }

    /** The upward scan: steps i up at least once, following next links once
        a node is at hand, and stops at a value not smaller than p or at hi. */
    method ScanUp(lo: int, hi: int, i0: int, nodeI0: ListNode?<T>, p: T, cmp: (T, T) -> int)
        returns (i: int, nodeI: ListNode<T>, c: int)
      requires Valid() && 0 <= lo && lo - 1 <= i0 < hi < |Nodes| && IsTotalPreorder(cmp)
      requires nodeI0 == (if i0 == lo - 1 then null else Nodes[i0])
      requires i0 == lo - 1 ==> Contents[lo] == p
      requires forall k :: lo <= k <= i0 ==> cmp(Contents[k], p) <= 0
      ensures i0 < i <= hi && nodeI == Nodes[i] && c == cmp(Contents[i], p) && (c >= 0 || i == hi)
      ensures i0 == lo - 1 ==> i == lo
      ensures forall k :: lo <= k < i ==> cmp(Contents[k], p) <= 0
    {
      var n := nodeI0;
      i, c := i0, -1;
      while c < 0 && i < hi
        invariant i0 <= i <= hi
        invariant i0 == lo - 1 ==> i <= lo
        invariant i == i0 ==> c < 0 && n == nodeI0
        invariant i > i0 ==> n == Nodes[i] && c == cmp(Contents[i], p)
        invariant forall k :: lo <= k < i ==> cmp(Contents[k], p) <= 0
        decreases hi - i
      {
        i := i + 1;
        if n == null {
          n := GetNode(i);
        } else {
          n := n.next;
        }
        if n != null {
          c := cmp(n.value, p);
        }
        if i == lo {
          assert cmp(p, p) == 0;
        }
      }
      nodeI := n;
    }

    /** The exchange of two nodes' values in the partition loop; the links stay as they are. */
    method SwapValues(nodeI: ListNode<T>, nodeJ: ListNode<T>, ghost i: int, ghost j: int)
      requires Valid() && 0 <= i < j < |Nodes| && nodeI == Nodes[i] && nodeJ == Nodes[j]
      modifies this, nodeI, nodeJ
      ensures Valid() && Nodes == old(Nodes) && modCount == old(modCount)
      ensures Contents == old(Contents)[i := old(Contents)[j]][j := old(Contents)[i]]
    {
      NoRepeat(Nodes, i, j);
      DistinctFrom(Nodes, i);
      DistinctFrom(Nodes, j);
      var temp := nodeJ.value;
      nodeJ.value := nodeI.value;
      nodeI.value := temp;
      Contents := Contents[i := Contents[j]][j := Contents[i]];
    }

    /**
     * GetItemsN(startIndex, n): a new list built from the node at startIndex
     * by InsertFirst and then n - 1 InsertNext calls. The first value is
     * copied before the count is looked at, so n == 0 gives a one-element list.
     */
    method GetItemsN(startIndex: int, n: int) returns (r: Result, list: LinkedList?<T>)
      requires Valid()
      ensures r == (if ValidRange(startIndex, n, |Contents|) then Success else OutOfRange)
      ensures r == OutOfRange ==> list == null
      ensures r == Success ==> (list != null && fresh(list) && list.Valid() &&
          list.Contents == Contents[startIndex..startIndex + (if n == 0 then 1 else n)] &&
          list.modCount == (if n == 0 then 1 else n))
    {
      if !ValidRange(startIndex, n, count) {
        return OutOfRange, null;
      }
      var node := GetNode(startIndex);
      var prevNode;
      list, prevNode, node := CopyFirst(node, startIndex);
      CopyRest(list, prevNode, node, startIndex, n);
      r := Success;
    }

    /** The loop of GetItemsN: n - 1 more values, each InsertNext after the new list's tail. */
    method CopyRest(list: LinkedList<T>, prevNode: ListNode<T>, node: ListNode?<T>, ghost startIndex: int, n: int)
      requires Copying(list, startIndex, 0, prevNode, node) && ValidRange(startIndex, n, |Contents|)
      modifies list, list.Nodes
      ensures list.Valid() && list.Contents == Contents[startIndex..startIndex + (if n == 0 then 1 else n)]
      ensures list.modCount == (if n == 0 then 1 else n)
    {
      var prev, next := prevNode, node;
      assert prev == list.Nodes[|list.Nodes| - 1];
      var i := 0;
      while i < n - 1
        invariant 0 <= i <= (if n == 0 then 0 else n - 1)
        invariant Copying(list, startIndex, i, prev, next)
        invariant prev in old(list.Nodes) || fresh(prev)
      {
        if next != null {
          prev, next := CopyNext(list, prev, next, startIndex, i);
        }
        i := i + 1;
      }
    }

    /**
     * The state the loop of GetItemsN keeps: the new list holds the values
     * of the nodes [start, start + i], prevNode is its tail (not a node of
     * this list) and node is the node of this list to be copied next.
     */
    ghost predicate Copying(list: LinkedList<T>, start: int, i: int, prevNode: ListNode<T>, node: ListNode?<T>)
      reads this, Nodes, list, list.Nodes
    {
      Valid() && list.Valid() && prevNode !in Nodes &&
      0 <= start && 0 <= i && start + i + 1 <= |Nodes| &&
      list.Contents == Contents[start..start + i + 1] && list.modCount == i + 1 &&
      prevNode == list.tail && node == (if start + i + 1 < |Nodes| then Nodes[start + i + 1] else null)
    }

    /** The start of GetItemsN: a new list holding the value of the node at start. */
    method CopyFirst(node: ListNode<T>, ghost start: int) returns (list: LinkedList<T>, prevNode: ListNode<T>, next: ListNode?<T>)
      requires Valid() && 0 <= start < |Nodes| && node == Nodes[start]
      ensures fresh(list) && fresh(prevNode) && list.Nodes == [prevNode] && Copying(list, start, 0, prevNode, next)
    {
      list := new LinkedList();
      var _ := list.InsertFirst(node.value);
      next := node.next;
      prevNode := list.tail;
      assert Contents[start..start + 1] == [Contents[start]];
    }

    /** The loop body of GetItemsN: InsertNext the value of node after the new list's tail. */
    method CopyNext(list: LinkedList<T>, prevNode: ListNode<T>, node: ListNode<T>, ghost start: int, ghost i: int)
        returns (newPrev: ListNode<T>, next: ListNode?<T>)
      requires Copying(list, start, i, prevNode, node)
      modifies list, prevNode
      ensures Copying(list, start, i + 1, newPrev, next) && fresh(newPrev)
    {
      ghost var C := list.Contents;
      newPrev := list.InsertNext(prevNode, node.value, |list.Nodes|);
      InsertAtEnd(C, node.value);
      assert Contents[start..start + i + 2] == Contents[start..start + i + 1] + [node.value];
      next := node.next;
    }

    /** GetItemsN with the count honoured: n == 0 gives an empty list. */
    method GetItemsNCorrected(startIndex: int, n: int) returns (r: Result, list: LinkedList?<T>)
      requires Valid()
      ensures r == (if ValidRange(startIndex, n, |Contents|) then Success else OutOfRange)
      ensures r == OutOfRange ==> list == null
      ensures r == Success ==> (list != null && fresh(list) && list.Valid() &&
          list.Contents == Contents[startIndex..startIndex + n])
    {
      if ValidRange(startIndex, n, count) && n == 0 {
        list := new LinkedList();
        return Success, list;
      }
      r, list := GetItemsN(startIndex, n);
    }

    /** GetEnumeratorN() and GetBidirectionalEnumeratorN(): a fresh enumerator
        before the first node, remembering the current modCount. */
    method GetEnumeratorN() returns (e: LinkedListEnumerator<T>)
      requires Valid()
      ensures fresh(e) && e.list == this && e.modCount == modCount && e.node == null && e.position == -1
    {
      e := new LinkedListEnumerator(this, modCount);
    }
  }

  /**
   * __LinkedListEnumeratorT: a bidirectional, fail-fast cursor over a
   * LinkedList. It holds the current node, or null before the first move;
   * the ghost position is that node's index in the list (-1 for null).
   */
  class LinkedListEnumerator<T(==,0,!new)> {
    const list: LinkedList<T>
    var node: ListNode?<T>
    var modCount: nat         // the list's modCount when the enumerator was made
    ghost var position: int

    /** The cursor is on the list: off it (null) or on the node at its position. */
    ghost predicate OnList()
      reads this, list, list.Nodes
    {
      (position == -1 && node == null) || (0 <= position < |list.Nodes| && node == list.Nodes[position])
    }

    /** A cursor that the list has not outdated is on the list. */
    ghost predicate Consistent()
      reads this, list, list.Nodes
    {
      list.Valid() && (modCount == list.modCount ==> OnList())
    }

    constructor (list: LinkedList<T>, modCount: nat)
      ensures this.list == list && this.modCount == modCount && node == null && position == -1
    {
      this.list := list;
      this.modCount := modCount;
      node := null;
      position := -1;
    }

    /** GetCurrent(): the value of the current node, unless the list changed or there is none. */
    method GetCurrent() returns (r: Result, obj: T)
      requires Consistent()
      ensures r == (if modCount == list.modCount && position != -1 then Success else InvalidOperation)
      ensures r == Success ==> 0 <= position < |list.Contents| && obj == list.Contents[position]
    {
      if modCount != list.modCount {
        r, obj := InvalidOperation, *;
        return;
      }
      if node == null {
        r, obj := InvalidOperation, *;
        return;
      }
      obj := node.value;
      r := Success;
    }

    /** MoveNext(): from null to the head, otherwise to the next node; at the
        last node it reports E_OUT_OF_RANGE and stays there. */
    method MoveNext() returns (r: Result)
      requires Consistent()
      modifies this
      ensures Consistent() && modCount == old(modCount)
      ensures modCount != list.modCount ==> r == InvalidOperation && position == old(position)
      ensures modCount == list.modCount ==>
        r == (if old(position) + 1 < |list.Contents| then Success else OutOfRange) &&
        position == (if r == Success then old(position) + 1 else old(position))
    {
      if modCount != list.modCount {
        return InvalidOperation;
      }
      if node == null {
        node := list.head;
        if node == null {
          return OutOfRange;
        }
        position := 0;
      } else {
        if node.next != null {
          node := node.next;
          position := position + 1;
        } else {
          return OutOfRange;
        }
      }
      r := Success;
    }

    /** MovePrevious(): from null to the tail, otherwise to the previous node;
        at the first node it reports E_OUT_OF_RANGE and stays there. */
    method MovePrevious() returns (r: Result)
      requires Consistent()
      modifies this
      ensures Consistent() && modCount == old(modCount)
      ensures modCount != list.modCount ==> r == InvalidOperation && position == old(position)
      ensures modCount == list.modCount && old(position) == -1 ==>
        r == (if |list.Contents| > 0 then Success else OutOfRange) &&
        position == (if r == Success then |list.Contents| - 1 else -1)
      ensures modCount == list.modCount && old(position) != -1 ==>
        r == (if old(position) > 0 then Success else OutOfRange) &&
        position == (if r == Success then old(position) - 1 else old(position))
    {
      if modCount != list.modCount {
        return InvalidOperation;
      }
      if node == null {
        node := list.tail;
        if node == null {
          return OutOfRange;
        }
        position := |list.Nodes| - 1;
      } else {
        if node.prev != null {
          node := node.prev;
          position := position - 1;
        } else {
          return OutOfRange;
        }
      }
      r := Success;
    }

    /** Reset(): back to no current node. */
    method Reset() returns (r: Result)
      requires Consistent()
      modifies this
      ensures Consistent() && modCount == old(modCount)
      ensures modCount != list.modCount ==> r == InvalidOperation && position == old(position)
      ensures modCount == list.modCount ==> r == Success && position == -1
    {
      if modCount != list.modCount {
        return InvalidOperation;
      }
      node := null;
      position := -1;
      r := Success;
    }

    /** ResetLast(): the same as Reset; MovePrevious then starts from the tail. */
    method ResetLast() returns (r: Result)
      requires Consistent()
      modifies this
      ensures Consistent() && modCount == old(modCount)
      ensures modCount != list.modCount ==> r == InvalidOperation && position == old(position)
      ensures modCount == list.modCount ==> r == Success && position == -1
    {
      r := Reset();
    }
  }

  /** GetItemsN as written: asking a non-empty list for zero items from the
      front gives back a list holding one item, where the corrected method
      gives back an empty one. */
  method GetItemsNZeroCount<T(==,0,!new)>(list: LinkedList<T>) returns (asWritten: LinkedList?<T>, corrected: LinkedList?<T>)
    requires list.Valid() && |list.Contents| > 0
    ensures asWritten != null && asWritten.Valid() && asWritten.Contents == [list.Contents[0]]
    ensures corrected != null && corrected.Valid() && corrected.Contents == []
  {
    var r;
    r, asWritten := list.GetItemsN(0, 0);
    r, corrected := list.GetItemsNCorrected(0, 0);
  }

  /** Fail-fast: once a mutator has run, an enumerator made before it refuses to move. */
  method StaleEnumeratorFails<T(==,0,!new)>(list: LinkedList<T>, x: T) returns (r: Result)
    requires list.Valid()
    modifies list, list.Nodes
    ensures r == InvalidOperation
  {
    var e := list.GetEnumeratorN();
    var _ := list.Add(x);
    r := e.MoveNext();
  }
}
