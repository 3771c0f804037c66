# Tizen collection templates in Dafny

This project models the three collection templates of the Tizen native SDK
whose implementations are written out in their headers. It proves that each
operation does what its documentation and its code promise.

- **ArrayListT** is a growable array. Its state is the object array, `count`,
  `capacity` and `modCount`. The model class `ArrayLists.ArrayList` keeps those
  fields, with the array as a Dafny `array`; the list's contents are
  `Elements()`, the first `count` slots. The model covers:
  - append, insert and remove, with their shift loops;
  - `SetCapacity` and `Trim`;
  - `IndexOf` and `LastIndexOf`;
  - the in-place Hoare-partition quicksort;
  - the fail-fast bidirectional enumerator.
- **LinkedListT** is a doubly linked list. `LinkedLists.ListNode` holds the
  `prev`, `next` and value fields, and `LinkedLists.LinkedList` holds the head,
  the tail, `count` and `modCount`.
  - Two ghost sequences tie the pointers to the abstraction: `Nodes`, the chain
    from head to tail, and `Contents`, the values in the same order.
  - `Valid()` is the doubly linked invariant: head and tail null exactly when
    the count is 0, `prev` mirroring `next`, and the chain ending at the tail.
  - The node primitives `InsertFirst`, `InsertLast`, `InsertNext` and
    `RemoveNode` rewire the pointers and keep it.
  - The quicksort exchanges values between nodes, so the chain never changes.
- **MultiHashMapT** is a chained hash multimap. `MultiHashMaps.MultiHashMap`
  has a power-of-two bucket table `array<seq<Entry>>`. Each `Entry` holds a
  key, its hash, its values in insertion order and the `modCount` its value
  enumerators check.
  - The ghost map `Contents` (key to value sequence) is the abstraction.
    `Buckets.Laid` is the representation invariant:
    - each key sits in bucket `Hash(key) & (capacity - 1)`;
    - each key has exactly one entry;
    - each entry carries its key's values.
  - The model also covers the doubling `Resize` by rehashing, and `Reset`.
  - It models the two enumerators. The map enumerator's walk over buckets,
    entries and value nodes is the value-level cursor of module `TableOrder`.
    Its specification `Stepped` says that each `MoveNext` delivers the next pair
    of the table order.

The result codes `E_SUCCESS`, `E_OUT_OF_RANGE`, `E_OBJ_NOT_FOUND`,
`E_OBJ_ALREADY_EXIST`, `E_INVALID_ARG` and `E_INVALID_OPERATION` are the
datatype `Collections.Result`. Each `TryReturn`/`TryCatch` check is an early
return of its code.

Several other things are inputs rather than parts of the model:
- The element comparer is a function `(T, T) -> int`, and sorting asks for a
  total preorder.
- The key comparer agrees with equality.
- The hash code provider is a function into `bv32`.
- The load-factor threshold is a function `thresholdOf` of the table size.

Files:
- `Collections.dfy`: result codes, sortedness and the sequence operations the
  specifications use.
- `ArrayLists.dfy`
- `LinkedLists.dfy`
- `Buckets.dfy`: the bucket table as a value, and the lemmas that edits and
  rehashing keep it laid out.
- `TableOrder.dfy`: the order of pairs, keys and values in a table, and the
  map enumerator's cursor.
- `MultiHashMaps.dfy`

## Model

| member | source | states |
|---|---|---|
| Collections.InsertAt | osp/FBaseColArrayListT.h:521-545 | the sequence with x placed at index i: one longer, earlier elements kept, later ones moved up by one |
| Collections.InsertAtSlices | osp/FBaseColArrayListT.h:521-545 | inserting at i is s[..i] + [x] + s[i..], and adds exactly one x to the multiset |
| Collections.RemoveSlice | osp/FBaseColArrayListT.h:770-802 | the sequence with n elements from i cut out: earlier elements kept, later ones moved down by n |
| Collections.RemoveSliceWiden | osp/FBaseColLinkedListT.h:757-782 | cutting one more element after a cut run is the same as cutting a run one longer |
| Collections.FirstIndex | osp/FBaseColArrayListT.h:481-502 | the first index holding x: it holds x and no earlier index does |
| Collections.RemoveFirstMultiset | osp/FBaseColArrayListT.h:658-670 | removing the first x shortens the sequence by one and takes exactly one x out of its multiset |
| Collections.RemoveOneMultiset | osp/FBaseColLinkedListT.h:1197-1225 | removing the element at i takes exactly that element out of the multiset |
| Collections.PermutationKeepsSplit | osp/FBaseColArrayListT.h:1161-1211 | permuting each side of a partition keeps every left element not greater than every right one |
| Collections.SortedConcat | osp/FBaseColArrayListT.h:1161-1211 | two sorted halves with no left element greater than a right one concatenate to a sorted sequence |
| Collections.SortHalves | osp/FBaseColArrayListT.h:1161-1211 | sorting both halves of a partition in place sorts the whole range and keeps its multiset |
| Collections.SortedParts | osp/FBaseColArrayListT.h:1161-1211 | partition followed by the two recursive sorts leaves the outside untouched, the range a sorted permutation |
| Collections.PivotSplits | osp/FBaseColArrayListT.h:1161-1211 | when the scans cross, every element up to the crossing is not greater than every element after it |
| Collections.SwapSliceMultiset | osp/FBaseColArrayListT.h:1161-1211 | swapping two elements inside a range keeps the range's multiset |
| ArrayLists.RemoveEachCounts | osp/FBaseColArrayListT.h:685-718 | RemoveItems(collection) stops with ObjNotFound at the first missing item; on success exactly the items' multiset is gone |
| ArrayLists.ShiftUp | osp/FBaseColArrayListT.h:521-545 | the shift loop moves the run [start, end) up by n and leaves the rest of the array alone |
| ArrayLists.InsertSlot | osp/FBaseColArrayListT.h:521-545 | after the shift and the store, the first count + 1 slots are the old contents with obj inserted at index |
| ArrayLists.InsertSlots | osp/FBaseColArrayListT.h:566-616 | after the shift and the copy loop, the items sit at start with the old tail after them |
| ArrayLists.Swap | osp/FBaseColArrayListT.h:1161-1211 | two slots exchange values, nothing else changes, the range keeps its multiset |
| ArrayLists.ScanDown | osp/FBaseColArrayListT.h:1161-1211 | the downward scan stops at the first element from the right not greater than the pivot, or at lo |
| ArrayLists.ScanUp | osp/FBaseColArrayListT.h:1161-1211 | the upward scan stops at the first element not smaller than the pivot, or at hi |
| ArrayLists.FirstSwapKeepsSplit | osp/FBaseColArrayListT.h:1161-1211 | the first exchange, which moves the pivot, keeps both scanned parts on their side of the pivot |
| ArrayLists.PartitionRound | osp/FBaseColArrayListT.h:1161-1211 | one round of the Hoare partition extends the split or ends with the scans crossed, as a permutation of the range |
| ArrayLists.Partition | osp/FBaseColArrayListT.h:1161-1211 | the range is permuted into a left part with no element greater than any element of the right part |
| ArrayLists.QuickSort | osp/FBaseColArrayListT.h:1161-1211 | the range becomes a sorted permutation of itself and the rest of the array is unchanged |
| ArrayLists.ArrayList.constructor | osp/FBaseColArrayListT.h:111-118 | an empty list with no array, capacity 0 and modCount 0 |
| ArrayLists.ArrayList.Construct | osp/FBaseColArrayListT.h:151-159 | the capacity defaults to DEFAULT_CAPACITY; a negative capacity gives InvalidArg and changes nothing; otherwise the capacity is set as by SetCapacity, keeping the first min(count, capacity) elements, modCount moving only when elements are dropped |
| ArrayLists.ArrayList.ConstructFrom | osp/FBaseColArrayListT.h:160-186 | the list holds the collection's elements after its own; the capacity grows to exactly the needed size, so on a fresh list it equals the number of elements copied; modCount moves once when anything was copied |
| ArrayLists.ArrayList.GetCount | osp/FBaseColArrayListT.h:982-985 | the number of elements |
| ArrayLists.ArrayList.GetCapacity | osp/FBaseColArrayListT.h:970-973 | the array length, never below the count |
| ArrayLists.ArrayList.SetCapacity | osp/FBaseColArrayListT.h:866-906 | negative gives InvalidArg; otherwise the first min(count, n) elements stay in order, capacity becomes n, modCount moves only when elements are dropped |
| ArrayLists.ArrayList.Trim | osp/FBaseColArrayListT.h:948-960 | capacity becomes count; elements and modCount unchanged |
| ArrayLists.ArrayList.GrowIfFull | osp/FBaseColArrayListT.h:199-212 | a full array grows by DEFAULT_CAPACITY (10); the elements are kept and there is room for one more |
| ArrayLists.ArrayList.Add | osp/FBaseColArrayListT.h:199-212 | obj is appended after all old elements; capacity grows by 10 when the list was full; modCount grows by one |
| ArrayLists.ArrayList.AddItems | osp/FBaseColArrayListT.h:226-264 | the collection is appended; capacity grows to exactly the new count when it did not fit; modCount grows once for a nonempty collection |
| ArrayLists.ArrayList.CopyIn | osp/FBaseColArrayListT.h:226-264 | the copy loop appends the collection into the spare room without changing capacity |
| ArrayLists.ArrayList.GetAt | osp/FBaseColArrayListT.h:335-343 | element index when 0 <= index < count, OutOfRange otherwise |
| ArrayLists.ArrayList.GetItemsN | osp/FBaseColArrayListT.h:386-416 | OutOfRange unless the range is valid; otherwise a new list of capacity n holding exactly the slice |
| ArrayLists.ArrayList.IndexOfIn | osp/FBaseColArrayListT.h:481-502 | OutOfRange for a bad range; otherwise the smallest index in [start, start + n) holding obj, ObjNotFound when none does |
| ArrayLists.ArrayList.IndexOf | osp/FBaseColArrayListT.h:431-434 | the first index holding obj; OutOfRange on an empty list, ObjNotFound when obj is absent |
| ArrayLists.ArrayList.IndexOfFrom | osp/FBaseColArrayListT.h:453-460 | OutOfRange unless 0 <= start < count; otherwise the first index from start holding obj |
| ArrayLists.ArrayList.LastIndexOf | osp/FBaseColArrayListT.h:631-643 | the largest index holding obj, ObjNotFound when none does |
| ArrayLists.ArrayList.Contains | osp/FBaseColArrayListT.h:997-1013 | true exactly when obj is an element |
| ArrayLists.ArrayList.ContainsAll | osp/FBaseColArrayListT.h:1030-1073 | true exactly when every item of the collection is an element |
| ArrayLists.ArrayList.Equals | osp/FBaseColArrayListT.h:1085-1112 | true exactly when both lists hold the same elements in the same order |
| ArrayLists.ArrayList.InsertAt | osp/FBaseColArrayListT.h:521-545 | OutOfRange unless 0 <= index <= count, then nothing changes; otherwise s[..index] + [obj] + s[index..], growing by 10 when full |
| ArrayLists.ArrayList.InsertItemsFrom | osp/FBaseColArrayListT.h:566-616 | OutOfRange unless 0 <= start <= count; otherwise s[..start] + collection + s[start..] with the capacity rule of AddItems |
| ArrayLists.ArrayList.RemoveAt | osp/FBaseColArrayListT.h:734-751 | OutOfRange unless 0 <= index < count; otherwise element index is gone and the trailing Trim leaves capacity == count |
| ArrayLists.ArrayList.Remove | osp/FBaseColArrayListT.h:658-670 | the first occurrence of obj is removed, or ObjNotFound with nothing changed |
| ArrayLists.ArrayList.RemoveCollection | osp/FBaseColArrayListT.h:685-718 | the items are removed one by one until one is missing, exactly as RemoveEach says; capacity is trimmed when anything went; modCount moves once per removed item |
| ArrayLists.ArrayList.RemoveItems | osp/FBaseColArrayListT.h:770-802 | OutOfRange unless start >= 0, n >= 0, start < count and start + n <= count; otherwise exactly that slice goes and capacity stays |
| ArrayLists.ArrayList.RemoveAll | osp/FBaseColArrayListT.h:809-822 | the list becomes empty; a nonempty list also drops its array (capacity 0) and bumps modCount |
| ArrayLists.ArrayList.SetAt | osp/FBaseColArrayListT.h:837-848 | OutOfRange unless 0 <= index < count; otherwise only position index changes |
| ArrayLists.ArrayList.Sort | osp/FBaseColArrayListT.h:919-935 | the elements become a permutation of the old ones, sorted by the comparer; Success also on an empty list |
| ArrayLists.ArrayList.GetEnumeratorN | osp/FBaseColArrayListT.h:278-291 | a new enumerator before the first element, remembering the list's modCount |
| ArrayLists.ArrayListEnumerator.constructor | osp/FBaseColArrayListT.h:1235-1240 | positioned before the first element with the given modCount |
| ArrayLists.ArrayListEnumerator.GetCurrent | osp/FBaseColArrayListT.h:1246-1255 | the element under the position; InvalidOperation once the list changed or when not on an element |
| ArrayLists.ArrayListEnumerator.MoveNext | osp/FBaseColArrayListT.h:1257-1272 | InvalidOperation once the list changed; OutOfRange when the next position would reach count; otherwise one step forward |
| ArrayLists.ArrayListEnumerator.MovePrevious | osp/FBaseColArrayListT.h:1283-1293 | InvalidOperation once the list changed; OutOfRange at position 0 or before; otherwise one step back |
| ArrayLists.ArrayListEnumerator.Reset | osp/FBaseColArrayListT.h:1274-1281 | InvalidOperation once the list changed; otherwise back before the first element |
| ArrayLists.ArrayListEnumerator.ResetLast | osp/FBaseColArrayListT.h:1295-1302 | InvalidOperation once the list changed; otherwise just past the last element |
| ArrayLists.StaleEnumeratorFails | osp/FBaseColArrayListT.h:1257-1272 | an enumerator taken before an Add fails with InvalidOperation |
| LinkedLists.ListNode.constructor | osp/FBaseColLinkedListT.h:1333-1338 | a detached node holding the value |
| LinkedLists.NoRepeat | osp/FBaseColLinkedListT.h:1095-1225 | in a well-linked chain no node occurs twice |
| LinkedLists.DistinctFrom | osp/FBaseColLinkedListT.h:1095-1225 | in a well-linked chain every other node differs from node k |
| LinkedLists.SpliceLinked | osp/FBaseColLinkedListT.h:1150-1190 | rewiring both neighbours to a new node keeps the chain well-linked with the node inserted |
| LinkedLists.PrependLinked | osp/FBaseColLinkedListT.h:1095-1119 | linking a node before the head keeps the chain well-linked |
| LinkedLists.AppendLinked | osp/FBaseColLinkedListT.h:1129-1138 | linking a node after the tail keeps the chain well-linked |
| LinkedLists.DropFirstLinked | osp/FBaseColLinkedListT.h:1197-1225 | unlinking the head keeps the rest well-linked |
| LinkedLists.DropLastLinked | osp/FBaseColLinkedListT.h:1197-1225 | unlinking the tail keeps the rest well-linked |
| LinkedLists.UnspliceLinked | osp/FBaseColLinkedListT.h:1197-1225 | bypassing a middle node keeps the rest well-linked |
| LinkedLists.InsertHolds | osp/FBaseColLinkedListT.h:1150-1190 | inserting a node inserts its value at the same position of the contents |
| LinkedLists.RemoveHolds | osp/FBaseColLinkedListT.h:1197-1225 | removing a node removes its value at the same position of the contents |
| LinkedLists.RemoveEachPresentMultiset | osp/FBaseColLinkedListT.h:678-717 | removing the first occurrence of each item that is present takes the items' multiset out of the list's |
| LinkedLists.SwapKeepsPivotSplit | osp/FBaseColLinkedListT.h:1237-1306 | exchanging the two values where the scans stopped extends the split of the range around the pivot |
| LinkedLists.LinkedList.constructor | osp/FBaseColLinkedListT.h:109-115 | an empty list: no head, no tail, count and modCount 0 |
| LinkedLists.LinkedList.GetCount | osp/FBaseColLinkedListT.h:871-874 | the number of elements |
| LinkedLists.LinkedList.GetNode | osp/FBaseColLinkedListT.h:1071-1085 | the node at index, null past the end, the head for a negative index |
| LinkedLists.LinkedList.InsertFirst | osp/FBaseColLinkedListT.h:1095-1119 | a new head node holding obj; the old nodes follow; the links stay consistent |
| LinkedLists.LinkedList.InsertLast | osp/FBaseColLinkedListT.h:1129-1138 | a new tail node holding obj after the old nodes |
| LinkedLists.LinkedList.InsertNext | osp/FBaseColLinkedListT.h:1150-1190 | a new node after prevNode (or the first node of an empty list); the links stay consistent |
| LinkedLists.LinkedList.SpliceAfter | osp/FBaseColLinkedListT.h:1150-1190 | the node is spliced between two neighbours; the nodes and contents gain it at that position |
| LinkedLists.LinkedList.RemoveNode | osp/FBaseColLinkedListT.h:1197-1225 | the node goes from the chain and its value from the contents; head, tail and middle cases keep the links consistent |
| LinkedLists.LinkedList.UnlinkHead | osp/FBaseColLinkedListT.h:1197-1225 | removing the head node drops the first node and value |
| LinkedLists.LinkedList.UnlinkTail | osp/FBaseColLinkedListT.h:1197-1225 | removing the tail node drops the last node and value |
| LinkedLists.LinkedList.UnlinkMiddle | osp/FBaseColLinkedListT.h:1197-1225 | removing an inner node drops exactly that node and value |
| LinkedLists.LinkedList.Add | osp/FBaseColLinkedListT.h:140-158 | obj is appended at the end |
| LinkedLists.LinkedList.AddItems | osp/FBaseColLinkedListT.h:172-181 | the collection is appended in order, one modCount step per item |
| LinkedLists.LinkedList.InsertAt | osp/FBaseColLinkedListT.h:479-511 | OutOfRange unless 0 <= index <= count, then nothing changes; otherwise s[..index] + [obj] + s[index..] |
| LinkedLists.LinkedList.InsertItemsFrom | osp/FBaseColLinkedListT.h:532-601 | OutOfRange unless 0 <= start <= count; otherwise s[..start] + collection + s[start..] |
| LinkedLists.LinkedList.InsertEach | osp/FBaseColLinkedListT.h:532-601 | the insertion loop puts the whole collection in order after the starting node |
| LinkedLists.LinkedList.GetAt | osp/FBaseColLinkedListT.h:254-266 | element index when 0 <= index < count, OutOfRange otherwise |
| LinkedLists.LinkedList.IndexOfIn | osp/FBaseColLinkedListT.h:433-461 | OutOfRange for a bad range; otherwise the smallest index in [start, start + n) holding obj, ObjNotFound when none does |
| LinkedLists.LinkedList.IndexOf | osp/FBaseColLinkedListT.h:373-386 | the first index holding obj, ObjNotFound when none does, also on an empty list |
| LinkedLists.LinkedList.IndexOfFrom | osp/FBaseColLinkedListT.h:405-412 | OutOfRange unless 0 <= start < count; otherwise the first index from start holding obj |
| LinkedLists.LinkedList.LastIndexOf | osp/FBaseColLinkedListT.h:616-632 | the largest index holding obj, ObjNotFound when none does |
| LinkedLists.LinkedList.Contains | osp/FBaseColLinkedListT.h:886-907 | true exactly when obj is an element |
| LinkedLists.LinkedList.ContainsAll | osp/FBaseColLinkedListT.h:924-975 | true exactly when every item of the collection is an element |
| LinkedLists.LinkedList.Equals | osp/FBaseColLinkedListT.h:989-1023 | true exactly when both lists hold the same elements in the same order |
| LinkedLists.LinkedList.RemoveAt | osp/FBaseColLinkedListT.h:731-739 | OutOfRange unless 0 <= index < count; otherwise only element index is removed |
| LinkedLists.LinkedList.Remove | osp/FBaseColLinkedListT.h:647-663 | only the first occurrence of obj is removed, or ObjNotFound with the list unchanged |
| LinkedLists.LinkedList.RemoveCollection | osp/FBaseColLinkedListT.h:678-717 | each item present is removed once, missing items are skipped, the result is Success |
| LinkedLists.LinkedList.RemoveItems | osp/FBaseColLinkedListT.h:757-782 | OutOfRange under the same range test as ArrayListT; otherwise exactly the slice [start, start + n) is removed |
| LinkedLists.LinkedList.RemoveRun | osp/FBaseColLinkedListT.h:757-782 | the removal loop takes out n consecutive nodes from start |
| LinkedLists.LinkedList.RemoveAll | osp/FBaseColLinkedListT.h:789-806 | the list becomes empty; modCount moves when it was not |
| LinkedLists.LinkedList.SetAt | osp/FBaseColLinkedListT.h:821-835 | OutOfRange unless 0 <= index < count; otherwise only position index changes and the nodes stay |
| LinkedLists.LinkedList.Sort | osp/FBaseColLinkedListT.h:848-862 | the values become a sorted permutation of the old ones; the node chain itself is unchanged |
| LinkedLists.LinkedList.QuickSort | osp/FBaseColLinkedListT.h:1237-1306 | the node range carries a sorted permutation of its old values; values outside it and all nodes are unchanged |
| LinkedLists.LinkedList.Partition | osp/FBaseColLinkedListT.h:1237-1306 | the values of the range are permuted so that no left value is greater than any right value |
| LinkedLists.LinkedList.PartitionRound | osp/FBaseColLinkedListT.h:1237-1306 | one round of scans and an exchange of node values, keeping the split and the permutation |
| LinkedLists.LinkedList.SwapValues | osp/FBaseColLinkedListT.h:1237-1306 | two nodes exchange their values; the chain is unchanged |
| LinkedLists.LinkedList.GetItemsN | osp/FBaseColLinkedListT.h:312-359 | OutOfRange for a bad range; otherwise a new list holding the slice, but a one-element list when n is 0 |
| LinkedLists.LinkedList.GetItemsNCorrected | osp/FBaseColLinkedListT.h:312-359 | OutOfRange for a bad range; otherwise a new list holding exactly s[start..start + n] |
| LinkedLists.GetItemsNZeroCount | osp/FBaseColLinkedListT.h:312-359 | on GetItemsN(0, 0) the code as written returns one element where the corrected version returns none |
| LinkedLists.LinkedList.GetEnumeratorN | osp/FBaseColLinkedListT.h:195-209 | a new enumerator before the first node, remembering the list's modCount |
| LinkedLists.LinkedListEnumerator.constructor | osp/FBaseColLinkedListT.h:1382-1388 | positioned before the first node with the given modCount |
| LinkedLists.LinkedListEnumerator.GetCurrent | osp/FBaseColLinkedListT.h:1414-1423 | the value under the node pointer; InvalidOperation once the list changed or when not on a node |
| LinkedLists.LinkedListEnumerator.MoveNext | osp/FBaseColLinkedListT.h:1440-1466 | InvalidOperation once the list changed; OutOfRange past the tail; otherwise one node forward |
| LinkedLists.LinkedListEnumerator.MovePrevious | osp/FBaseColLinkedListT.h:1487-1513 | InvalidOperation once the list changed; from before the first node to the tail; OutOfRange at the head |
| LinkedLists.LinkedListEnumerator.Reset | osp/FBaseColLinkedListT.h:1478-1485 | InvalidOperation once the list changed; otherwise back before the first node |
| LinkedLists.LinkedListEnumerator.ResetLast | osp/FBaseColLinkedListT.h:1515-1518 | InvalidOperation once the list changed; otherwise back to no node |
| LinkedLists.StaleEnumeratorFails | osp/FBaseColLinkedListT.h:1440-1466 | an enumerator taken before an Add fails with InvalidOperation |
| Buckets.Slot | tizen-sdk/platforms/tizen2.1/rootstraps/tizen-emulator-2.1.native/usr/include/osp/FBaseColMultiHashMapT.h:434 | the bucket index hash & (capacity - 1) is below the capacity |
| Buckets.Locate | tizen-sdk/platforms/tizen2.1/rootstraps/tizen-emulator-2.1.native/usr/include/osp/FBaseColMultiHashMapT.h:433-446 | a key of the map is found in exactly the bucket its hash selects |
| Buckets.EntryIn | tizen-sdk/platforms/tizen2.1/rootstraps/tizen-emulator-2.1.native/usr/include/osp/FBaseColMultiHashMapT.h:433-446 | the entry of a key carries the key, its hash and its values |
| Buckets.LaidEmpty | tizen-sdk/platforms/tizen2.1/rootstraps/tizen-emulator-2.1.native/usr/include/osp/FBaseColMultiHashMapT.h:343-346 | a table of empty buckets lays out the empty map |
| Buckets.LaidReplace | tizen-sdk/platforms/tizen2.1/rootstraps/tizen-emulator-2.1.native/usr/include/osp/FBaseColMultiHashMapT.h:471-497 | rewriting an entry in place (same key and hash, new values) lays out the map with that key's values replaced |
| Buckets.LaidInsert | tizen-sdk/platforms/tizen2.1/rootstraps/tizen-emulator-2.1.native/usr/include/osp/FBaseColMultiHashMapT.h:471-497 | a new entry at the head of its bucket lays out the map with the new key added |
| Buckets.LaidUnlink | tizen-sdk/platforms/tizen2.1/rootstraps/tizen-emulator-2.1.native/usr/include/osp/FBaseColMultiHashMapT.h:697-743 | unlinking an entry lays out the map without that key |
| Buckets.ReplaceKeepsOthers | tizen-sdk/platforms/tizen2.1/rootstraps/tizen-emulator-2.1.native/usr/include/osp/FBaseColMultiHashMapT.h:471-497 | rewriting one entry in place leaves the entry of every other key as it was |
| Buckets.InsertKeepsOthers | tizen-sdk/platforms/tizen2.1/rootstraps/tizen-emulator-2.1.native/usr/include/osp/FBaseColMultiHashMapT.h:471-497 | a new entry at the head of a bucket leaves the entry of every key already present as it was |
| Buckets.InsertKeepsKey | tizen-sdk/platforms/tizen2.1/rootstraps/tizen-emulator-2.1.native/usr/include/osp/FBaseColMultiHashMapT.h:471-497 | the same for one key: its entry moves one place down its chain or stays in another chain |
| Buckets.UnlinkKeepsOthers | tizen-sdk/platforms/tizen2.1/rootstraps/tizen-emulator-2.1.native/usr/include/osp/FBaseColMultiHashMapT.h:697-743 | unlinking one entry leaves the entry of every remaining key as it was |
| Buckets.RehashStep | tizen-sdk/platforms/tizen2.1/rootstraps/tizen-emulator-2.1.native/usr/include/osp/FBaseColMultiHashMapT.h:1287-1319 | moving one entry to the head of its new bucket keeps the partial rehash invariant |
| Buckets.RehashNext | tizen-sdk/platforms/tizen2.1/rootstraps/tizen-emulator-2.1.native/usr/include/osp/FBaseColMultiHashMapT.h:1287-1319 | finishing one old bucket advances the rehash invariant to the next |
| Buckets.RehashDone | tizen-sdk/platforms/tizen2.1/rootstraps/tizen-emulator-2.1.native/usr/include/osp/FBaseColMultiHashMapT.h:1287-1319 | after all buckets moved, the new table lays out the same map with the same entries |
| Buckets.NoValueLaid | tizen-sdk/platforms/tizen2.1/rootstraps/tizen-emulator-2.1.native/usr/include/osp/FBaseColMultiHashMapT.h:1082-1107 | a value found in no chain is a value of no key |
| Buckets.SumCountsRemove | tizen-sdk/platforms/tizen2.1/rootstraps/tizen-emulator-2.1.native/usr/include/osp/FBaseColMultiHashMapT.h:918-921 | the total pair count is a key's value count plus the total of the other keys |
| TableOrder.EntryPairs | tizen-sdk/platforms/tizen2.1/rootstraps/tizen-emulator-2.1.native/usr/include/osp/FBaseColMultiHashMapT.h:1566-1601 | the pairs of an entry are its key with each of its values, in order |
| TableOrder.LaidFilled | tizen-sdk/platforms/tizen2.1/rootstraps/tizen-emulator-2.1.native/usr/include/osp/FBaseColMultiHashMapT.h:471-497 | in a laid-out table every entry has at least one value |
| TableOrder.AllPairs | tizen-sdk/platforms/tizen2.1/rootstraps/tizen-emulator-2.1.native/usr/include/osp/FBaseColMultiHashMapT.h:1566-1601 | the pair sequence in table order holds exactly the map's pairs and has GetCount() elements |
| TableOrder.AllKeys | tizen-sdk/platforms/tizen2.1/rootstraps/tizen-emulator-2.1.native/usr/include/osp/FBaseColMultiHashMapT.h:611-639 | the key sequence in table order holds each key of the map exactly once |
| TableOrder.AllValues | tizen-sdk/platforms/tizen2.1/rootstraps/tizen-emulator-2.1.native/usr/include/osp/FBaseColMultiHashMapT.h:653-682 | the value sequence in table order holds exactly the values of the map, GetCount() of them |
| TableOrder.ChainPairsDistinct | tizen-sdk/platforms/tizen2.1/rootstraps/tizen-emulator-2.1.native/usr/include/osp/FBaseColMultiHashMapT.h:1566-1601 | a chain with distinct keys whose entries repeat no value delivers no pair twice |
| TableOrder.TailPairsDistinct | tizen-sdk/platforms/tizen2.1/rootstraps/tizen-emulator-2.1.native/usr/include/osp/FBaseColMultiHashMapT.h:1566-1601 | over a table laying out a map without duplicate pairs, the walk from any bucket delivers no pair twice |
| TableOrder.ValueIn | tizen-sdk/platforms/tizen2.1/rootstraps/tizen-emulator-2.1.native/usr/include/osp/FBaseColMultiHashMapT.h:1082-1107 | a value occurs in the table's value sequence exactly when some key has it |
| TableOrder.NextValue | tizen-sdk/platforms/tizen2.1/rootstraps/tizen-emulator-2.1.native/usr/include/osp/FBaseColMultiHashMapT.h:1566-1601 | stepping to the next value node of the same entry delivers the next pair |
| TableOrder.NextEntry | tizen-sdk/platforms/tizen2.1/rootstraps/tizen-emulator-2.1.native/usr/include/osp/FBaseColMultiHashMapT.h:1566-1601 | stepping to the next entry of the same bucket delivers its first pair |
| TableOrder.ScanFound | tizen-sdk/platforms/tizen2.1/rootstraps/tizen-emulator-2.1.native/usr/include/osp/FBaseColMultiHashMapT.h:1566-1601 | entering the first nonempty bucket delivers the first pair of its first entry |
| TableOrder.ScanBuckets | tizen-sdk/platforms/tizen2.1/rootstraps/tizen-emulator-2.1.native/usr/include/osp/FBaseColMultiHashMapT.h:1566-1601 | the scan for the next nonempty bucket delivers the next pair, or OutOfRange once nothing is left |
| TableOrder.StepCursor | tizen-sdk/platforms/tizen2.1/rootstraps/tizen-emulator-2.1.native/usr/include/osp/FBaseColMultiHashMapT.h:1566-1601 | one MoveNext step delivers the next pair of the table order, or OutOfRange when none is left |
| TableOrder.StepCursorChecked | tizen-sdk/platforms/tizen2.1/rootstraps/tizen-emulator-2.1.native/usr/include/osp/FBaseColMultiHashMapT.h:1566-1601 | one step that delivers the next pair, or OutOfRange with no current pair left |
| TableOrder.SteppedCleared | tizen-sdk/platforms/tizen2.1/rootstraps/tizen-emulator-2.1.native/usr/include/osp/FBaseColMultiHashMapT.h:1566-1601 | clearing the pointers after OutOfRange turns a step into the corrected step |
| TableOrder.StaleAfterEnd | tizen-sdk/platforms/tizen2.1/rootstraps/tizen-emulator-2.1.native/usr/include/osp/FBaseColMultiHashMapT.h:1541-1601 | on a table whose last bucket is nonempty, MoveNext past the end returns OutOfRange and still has a current pair |
| MultiHashMaps.Hash | tizen-sdk/platforms/tizen2.1/rootstraps/tizen-emulator-2.1.native/usr/include/osp/FBaseColMultiHashMapT.h:1266-1273 | the supplemental hash of the provider's code: `h ^= (h >> 20) ^ (h >> 12)` and then `h ^ (h >> 7) ^ (h >> 4)`, each `>>` being the arithmetic shift of a signed int, although the model computes it with logical shifts and filled-in sign bits |
| MultiHashMaps.MixHigh | tizen-sdk/platforms/tizen2.1/rootstraps/tizen-emulator-2.1.native/usr/include/osp/FBaseColMultiHashMapT.h:1270 | the sign-filled first mixing line equals `h ^ (h >> 20) ^ (h >> 12)` with arithmetic shifts |
| MultiHashMaps.MixLow | tizen-sdk/platforms/tizen2.1/rootstraps/tizen-emulator-2.1.native/usr/include/osp/FBaseColMultiHashMapT.h:1272 | the sign-filled returned line equals `h ^ (h >> 7) ^ (h >> 4)` with arithmetic shifts |
| MultiHashMaps.SignFilledHigh | tizen-sdk/platforms/tizen2.1/rootstraps/tizen-emulator-2.1.native/usr/include/osp/FBaseColMultiHashMapT.h:1270 | logical shifts by 20 and 12 with the sign bits filled in give the same first line as arithmetic shifts |
| MultiHashMaps.SignFilledLow | tizen-sdk/platforms/tizen2.1/rootstraps/tizen-emulator-2.1.native/usr/include/osp/FBaseColMultiHashMapT.h:1272 | logical shifts by 7 and 4 with the sign bits filled in give the same returned line as arithmetic shifts |
| MultiHashMaps.SignedShift20 | tizen-sdk/platforms/tizen2.1/rootstraps/tizen-emulator-2.1.native/usr/include/osp/FBaseColMultiHashMapT.h:1270 | the sign-filled shift by 20 in Hash is the arithmetic shift of a signed int |
| MultiHashMaps.SignedShift12 | tizen-sdk/platforms/tizen2.1/rootstraps/tizen-emulator-2.1.native/usr/include/osp/FBaseColMultiHashMapT.h:1270 | the sign-filled shift by 12 in Hash is the arithmetic shift of a signed int |
| MultiHashMaps.SignedShift7 | tizen-sdk/platforms/tizen2.1/rootstraps/tizen-emulator-2.1.native/usr/include/osp/FBaseColMultiHashMapT.h:1272 | the sign-filled shift by 7 in Hash is the arithmetic shift of a signed int |
| MultiHashMaps.SignedShift4 | tizen-sdk/platforms/tizen2.1/rootstraps/tizen-emulator-2.1.native/usr/include/osp/FBaseColMultiHashMapT.h:1272 | the sign-filled shift by 4 in Hash is the arithmetic shift of a signed int |
| MultiHashMaps.SumCountsUpdate | tizen-sdk/platforms/tizen2.1/rootstraps/tizen-emulator-2.1.native/usr/include/osp/FBaseColMultiHashMapT.h:471-497 | giving a key a new value list changes the total pair count by the difference in length |
| MultiHashMaps.SumCountsAssign | tizen-sdk/platforms/tizen2.1/rootstraps/tizen-emulator-2.1.native/usr/include/osp/FBaseColMultiHashMapT.h:760-825 | the same when an emptied list takes the key out |
| MultiHashMaps.SumCountsZero | tizen-sdk/platforms/tizen2.1/rootstraps/tizen-emulator-2.1.native/usr/include/osp/FBaseColMultiHashMapT.h:832-840 | with no empty value lists the total count is 0 exactly when the map is empty |
| MultiHashMaps.ReplaceFirst | tizen-sdk/platforms/tizen2.1/rootstraps/tizen-emulator-2.1.native/usr/include/osp/FBaseColMultiHashMapT.h:859-909 | the first x is replaced by y at the same position, every other position unchanged |
| MultiHashMaps.NoDuplicatesAppend | tizen-sdk/platforms/tizen2.1/rootstraps/tizen-emulator-2.1.native/usr/include/osp/FBaseColMultiHashMapT.h:447-497 | appending a value the key does not have keeps the map free of duplicate pairs |
| MultiHashMaps.NoDuplicatesRemove | tizen-sdk/platforms/tizen2.1/rootstraps/tizen-emulator-2.1.native/usr/include/osp/FBaseColMultiHashMapT.h:760-825 | removing one value keeps the map free of duplicate pairs |
| MultiHashMaps.NoDuplicatesReplace | tizen-sdk/platforms/tizen2.1/rootstraps/tizen-emulator-2.1.native/usr/include/osp/FBaseColMultiHashMapT.h:859-909 | replacing a value by itself or by a value the key does not have keeps the map free of duplicate pairs |
| MultiHashMaps.SetValueMakesDuplicate | tizen-sdk/platforms/tizen2.1/rootstraps/tizen-emulator-2.1.native/usr/include/osp/FBaseColMultiHashMapT.h:859-909 | SetValue(0, 1, 2) on {0: [1, 2]} yields the duplicate pair (0, 2) |
| MultiHashMaps.PowerOfTwoDouble | tizen-sdk/platforms/tizen2.1/rootstraps/tizen-emulator-2.1.native/usr/include/osp/FBaseColMultiHashMapT.h:491-497 | twice a power of two is one, so every Resize keeps the table size a power of two |
| MultiHashMaps.CapacityForUnique | tizen-sdk/platforms/tizen2.1/rootstraps/tizen-emulator-2.1.native/usr/include/osp/FBaseColMultiHashMapT.h:172-191 | only one table size meets IsCapacityFor for a request |
| MultiHashMaps.CapacityFor | tizen-sdk/platforms/tizen2.1/rootstraps/tizen-emulator-2.1.native/usr/include/osp/FBaseColMultiHashMapT.h:172-191 | 16 for 0; otherwise the smallest power of two not below the request, capped at 2^30 |
| MultiHashMaps.Wrap32InRange | tizen-sdk/platforms/tizen2.1/rootstraps/tizen-emulator-2.1.native/usr/include/osp/FBaseColMultiHashMapT.h:185-191 | a value an int can hold is its own wrap-around |
| MultiHashMaps.ShiftedCapacityValues | tizen-sdk/platforms/tizen2.1/rootstraps/tizen-emulator-2.1.native/usr/include/osp/FBaseColMultiHashMapT.h:185-191 | shifting 1 left n times gives 2^n up to 30, the int minimum at 31 and 0 from 32 on |
| MultiHashMaps.CapacityLoopNeverExits | tizen-sdk/platforms/tizen2.1/rootstraps/tizen-emulator-2.1.native/usr/include/osp/FBaseColMultiHashMapT.h:185-191 | for a request above 2^30 the doubling loop's capacity stays below the request forever |
| MultiHashMaps.IndexOfValue | tizen-sdk/platforms/tizen2.1/rootstraps/tizen-emulator-2.1.native/usr/include/osp/FBaseColMultiHashMapT.h:447-453 | the first position of the value in the value list, -1 exactly when it is absent |
| MultiHashMaps.MultiHashMap.SlotOf | tizen-sdk/platforms/tizen2.1/rootstraps/tizen-emulator-2.1.native/usr/include/osp/FBaseColMultiHashMapT.h:433-434 | the bucket of a key is below the capacity |
| MultiHashMaps.MultiHashMap.EntryOf | tizen-sdk/platforms/tizen2.1/rootstraps/tizen-emulator-2.1.native/usr/include/osp/FBaseColMultiHashMapT.h:433-446 | the entry of a present key carries that key and its values |
| MultiHashMaps.MultiHashMap.constructor | tizen-sdk/platforms/tizen2.1/rootstraps/tizen-emulator-2.1.native/usr/include/osp/FBaseColMultiHashMapT.h:124-135 | a map that still needs Construct: no table, no pairs |
| MultiHashMaps.MultiHashMap.Construct | tizen-sdk/platforms/tizen2.1/rootstraps/tizen-emulator-2.1.native/usr/include/osp/FBaseColMultiHashMapT.h:303-335 | InvalidArg for a negative capacity, leaving the map unconstructed; otherwise an empty table of the size CapacityFor names, keys hashed by Hash of the provider's code, and the given comparer and threshold rule installed |
| MultiHashMaps.MultiHashMap.FindEntry | tizen-sdk/platforms/tizen2.1/rootstraps/tizen-emulator-2.1.native/usr/include/osp/FBaseColMultiHashMapT.h:433-446 | the bucket of the key and the entry's place in it, -1 exactly when the key is absent |
| MultiHashMaps.MultiHashMap.Add | tizen-sdk/platforms/tizen2.1/rootstraps/tizen-emulator-2.1.native/usr/include/osp/FBaseColMultiHashMapT.h:430-498 | ObjAlreadyExist with nothing changed for a present pair; otherwise the value is appended to its key's list (new key: new entry with modCount 0, old key: its entry's modCount + 1), count and modCount + 1, the table doubles once count reaches the threshold; every other key keeps its entry, the hash, comparer and threshold rule stay, and a map without duplicate pairs keeps none |
| MultiHashMaps.MultiHashMap.AddNew | tizen-sdk/platforms/tizen2.1/rootstraps/tizen-emulator-2.1.native/usr/include/osp/FBaseColMultiHashMapT.h:471-497 | a new pair goes in as Add's success case says, the table doubling when the count was at the threshold |
| MultiHashMaps.MultiHashMap.GrowIf | tizen-sdk/platforms/tizen2.1/rootstraps/tizen-emulator-2.1.native/usr/include/osp/FBaseColMultiHashMapT.h:491-497 | when the count was at the threshold the capacity doubles, with the same map, entries, count and modCount |
| MultiHashMaps.MultiHashMap.Put | tizen-sdk/platforms/tizen2.1/rootstraps/tizen-emulator-2.1.native/usr/include/osp/FBaseColMultiHashMapT.h:471-497 | a new key gets a new entry at the head of its bucket; an existing key gets the value at the end of its list; every other key keeps its entry |
| MultiHashMaps.MultiHashMap.ReplaceEntry | tizen-sdk/platforms/tizen2.1/rootstraps/tizen-emulator-2.1.native/usr/include/osp/FBaseColMultiHashMapT.h:471-497 | an entry rewritten in place keeps the table valid with the key's new values; every other key keeps its entry |
| MultiHashMaps.MultiHashMap.UnlinkEntry | tizen-sdk/platforms/tizen2.1/rootstraps/tizen-emulator-2.1.native/usr/include/osp/FBaseColMultiHashMapT.h:697-743 | an entry unlinked from its chain takes its key out of the map; every other key keeps its entry |
| MultiHashMaps.MultiHashMap.InsertEntry | tizen-sdk/platforms/tizen2.1/rootstraps/tizen-emulator-2.1.native/usr/include/osp/FBaseColMultiHashMapT.h:471-497 | a new entry at the head of its bucket adds its key to the map; every other key keeps its entry |
| MultiHashMaps.MultiHashMap.Resize | tizen-sdk/platforms/tizen2.1/rootstraps/tizen-emulator-2.1.native/usr/include/osp/FBaseColMultiHashMapT.h:1287-1319 | a fresh table of the new power-of-two size holds the same map with the same entries (modCounts included), count, modCount, hash, comparer and threshold rule unchanged |
| MultiHashMaps.MultiHashMap.MoveChain | tizen-sdk/platforms/tizen2.1/rootstraps/tizen-emulator-2.1.native/usr/include/osp/FBaseColMultiHashMapT.h:1297-1308 | moving one old bucket's entries to the heads of their new buckets advances the rehash |
| MultiHashMaps.MultiHashMap.Remove | tizen-sdk/platforms/tizen2.1/rootstraps/tizen-emulator-2.1.native/usr/include/osp/FBaseColMultiHashMapT.h:697-743 | ObjNotFound with nothing changed for an absent key; otherwise the key and all its values go, count drops by their number, modCount + 1; every other key keeps its entry, and a map without duplicate pairs keeps none |
| MultiHashMaps.MultiHashMap.RemovePair | tizen-sdk/platforms/tizen2.1/rootstraps/tizen-emulator-2.1.native/usr/include/osp/FBaseColMultiHashMapT.h:760-825 | ObjNotFound with nothing changed for an absent pair; otherwise the first such value goes, count - 1, modCount + 1, the key's entry modCount + 1, the key goes with its last value; every other key keeps its entry, and a map without duplicate pairs keeps none |
| MultiHashMaps.MultiHashMap.DropValue | tizen-sdk/platforms/tizen2.1/rootstraps/tizen-emulator-2.1.native/usr/include/osp/FBaseColMultiHashMapT.h:760-825 | removing one value node from its entry, unlinking the entry once it is empty; every other key keeps its entry |
| MultiHashMaps.MultiHashMap.RemoveAll | tizen-sdk/platforms/tizen2.1/rootstraps/tizen-emulator-2.1.native/usr/include/osp/FBaseColMultiHashMapT.h:832-840 | the map becomes empty with count 0; modCount moves when it was not empty (and no duplicate pair remains) |
| MultiHashMaps.MultiHashMap.Reset | tizen-sdk/platforms/tizen2.1/rootstraps/tizen-emulator-2.1.native/usr/include/osp/FBaseColMultiHashMapT.h:1325-1345 | every bucket becomes empty |
| MultiHashMaps.MultiHashMap.SetValue | tizen-sdk/platforms/tizen2.1/rootstraps/tizen-emulator-2.1.native/usr/include/osp/FBaseColMultiHashMapT.h:859-909 | ObjNotFound for an absent pair (the entry's modCount still moves when only the value is absent); otherwise the value is replaced at the same position, count unchanged, map modCount + 1, even when this makes a duplicate; every other key keeps its entry |
| MultiHashMaps.MultiHashMap.SetValueChecked | tizen-sdk/platforms/tizen2.1/rootstraps/tizen-emulator-2.1.native/usr/include/osp/FBaseColMultiHashMapT.h:859-909 | as SetValue, but ObjAlreadyExist with nothing changed when the new value is already another value of the key, so a map without duplicate pairs keeps none; every other key keeps its entry |
| MultiHashMaps.MultiHashMap.GetCount | tizen-sdk/platforms/tizen2.1/rootstraps/tizen-emulator-2.1.native/usr/include/osp/FBaseColMultiHashMapT.h:918-921 | the total number of pairs, the sum over the keys of their value counts |
| MultiHashMaps.MultiHashMap.GetCountOf | tizen-sdk/platforms/tizen2.1/rootstraps/tizen-emulator-2.1.native/usr/include/osp/FBaseColMultiHashMapT.h:936-967 | the number of values of the key; ObjNotFound when the key is absent |
| MultiHashMaps.MultiHashMap.Contains | tizen-sdk/platforms/tizen2.1/rootstraps/tizen-emulator-2.1.native/usr/include/osp/FBaseColMultiHashMapT.h:985-1023 | true exactly when the pair is in the map |
| MultiHashMaps.MultiHashMap.ContainsKey | tizen-sdk/platforms/tizen2.1/rootstraps/tizen-emulator-2.1.native/usr/include/osp/FBaseColMultiHashMapT.h:1040-1068 | true exactly when the key is in the map |
| MultiHashMaps.MultiHashMap.ChainValueIndex | tizen-sdk/platforms/tizen2.1/rootstraps/tizen-emulator-2.1.native/usr/include/osp/FBaseColMultiHashMapT.h:1082-1107 | the first entry of a chain holding the value, -1 when none does |
| MultiHashMaps.MultiHashMap.ContainsValue | tizen-sdk/platforms/tizen2.1/rootstraps/tizen-emulator-2.1.native/usr/include/osp/FBaseColMultiHashMapT.h:1082-1107 | true exactly when some key has the value |
| MultiHashMaps.MultiHashMap.GetKeysN | tizen-sdk/platforms/tizen2.1/rootstraps/tizen-emulator-2.1.native/usr/include/osp/FBaseColMultiHashMapT.h:611-639 | a new list holding each key of the map exactly once, in table order |
| MultiHashMaps.MultiHashMap.GetValuesN | tizen-sdk/platforms/tizen2.1/rootstraps/tizen-emulator-2.1.native/usr/include/osp/FBaseColMultiHashMapT.h:653-682 | a new list holding every value of every key, GetCount() of them, in table order |
| MultiHashMaps.MultiHashMap.GetEnumeratorN | tizen-sdk/platforms/tizen2.1/rootstraps/tizen-emulator-2.1.native/usr/include/osp/FBaseColMultiHashMapT.h:514-527 | a new enumerator whose remaining pairs are exactly the pairs of the map, GetCount() of them, in table order, none twice when the map has no duplicate pairs |
| MultiHashMaps.MultiHashMap.GetMapEnumeratorN | tizen-sdk/platforms/tizen2.1/rootstraps/tizen-emulator-2.1.native/usr/include/osp/FBaseColMultiHashMapT.h:543-546 | the enumerator GetEnumeratorN makes: the map's pairs in table order, GetCount() of them, none twice when the map has no duplicate pairs |
| MultiHashMaps.MultiHashMap.GetKeyValuesN | tizen-sdk/platforms/tizen2.1/rootstraps/tizen-emulator-2.1.native/usr/include/osp/FBaseColMultiHashMapT.h:563-597 | ObjNotFound for an absent key; otherwise a value enumerator over exactly that key's values |
| MultiHashMaps.MultiHashMap.AddAll | tizen-sdk/platforms/tizen2.1/rootstraps/tizen-emulator-2.1.native/usr/include/osp/FBaseColMultiHashMapT.h:1213-1258 | the other map's pairs are added in its enumeration order, stopping at the first Add that fails, as AddAllSpec says; each round steps with MoveNextChecked, which differs from the source's MoveNext only in the pointers it leaves after OutOfRange, and the loop stops there; the hash, comparer and threshold rule stay, and modCount grows by exactly the number of pairs added, one per Add |
| MultiHashMaps.MultiHashMap.CopyRound | tizen-sdk/platforms/tizen2.1/rootstraps/tizen-emulator-2.1.native/usr/include/osp/FBaseColMultiHashMapT.h:1222-1244 | one round of the AddAll loop: one pair moved or the loop ends with AddAllSpec's result; the hash, comparer and threshold rule stay and modCount moves with the count |
| MultiHashMaps.AddAllStep | tizen-sdk/platforms/tizen2.1/rootstraps/tizen-emulator-2.1.native/usr/include/osp/FBaseColMultiHashMapT.h:1222-1244 | AddAllSpec adds the first pair, or stops with ObjAlreadyExist when it is already there |
| MultiHashMaps.AddAllNoDuplicates | tizen-sdk/platforms/tizen2.1/rootstraps/tizen-emulator-2.1.native/usr/include/osp/FBaseColMultiHashMapT.h:1213-1258 | AddAll keeps a map free of duplicate pairs |
| MultiHashMaps.AddAllHasPairs | tizen-sdk/platforms/tizen2.1/rootstraps/tizen-emulator-2.1.native/usr/include/osp/FBaseColMultiHashMapT.h:1213-1258 | after a successful AddAll every old pair and every added pair is in the map |
| MultiHashMaps.MapEnumerator.constructor | tizen-sdk/platforms/tizen2.1/rootstraps/tizen-emulator-2.1.native/usr/include/osp/FBaseColMultiHashMapT.h:1509-1516 | before the first pair, remembering the map's modCount |
| MultiHashMaps.MapEnumerator.MoveNext | tizen-sdk/platforms/tizen2.1/rootstraps/tizen-emulator-2.1.native/usr/include/osp/FBaseColMultiHashMapT.h:1566-1601 | InvalidOperation once the map changed; otherwise the next pair in table order, or OutOfRange, with the last pair still current exactly when it sat in the last bucket and no current pair otherwise |
| MultiHashMaps.MapEnumerator.MoveNextChecked | tizen-sdk/platforms/tizen2.1/rootstraps/tizen-emulator-2.1.native/usr/include/osp/FBaseColMultiHashMapT.h:1566-1601 | as MoveNext, but OutOfRange also leaves no current pair |
| MultiHashMaps.MapEnumerator.GetCurrent | tizen-sdk/platforms/tizen2.1/rootstraps/tizen-emulator-2.1.native/usr/include/osp/FBaseColMultiHashMapT.h:1541-1550 | the current pair; InvalidOperation once the map changed or when there is none |
| MultiHashMaps.MapEnumerator.GetKey | tizen-sdk/platforms/tizen2.1/rootstraps/tizen-emulator-2.1.native/usr/include/osp/FBaseColMultiHashMapT.h:1638-1647 | the current pair's key, with GetCurrent's failures |
| MultiHashMaps.MapEnumerator.GetValue | tizen-sdk/platforms/tizen2.1/rootstraps/tizen-emulator-2.1.native/usr/include/osp/FBaseColMultiHashMapT.h:1663-1672 | the current pair's value, with GetCurrent's failures |
| MultiHashMaps.MapEnumerator.Reset | tizen-sdk/platforms/tizen2.1/rootstraps/tizen-emulator-2.1.native/usr/include/osp/FBaseColMultiHashMapT.h:1613-1622 | InvalidOperation once the map changed; otherwise before the first pair with all pairs remaining |
| MultiHashMaps.ValueEnumerator.constructor | tizen-sdk/platforms/tizen2.1/rootstraps/tizen-emulator-2.1.native/usr/include/osp/FBaseColMultiHashMapT.h:1702-1707 | before the first value of the entry, remembering the entry's modCount |
| MultiHashMaps.ValueEnumerator.MoveNext | tizen-sdk/platforms/tizen2.1/rootstraps/tizen-emulator-2.1.native/usr/include/osp/FBaseColMultiHashMapT.h:1757-1779 | InvalidOperation once the entry changed; otherwise the next value of the key, or OutOfRange past the last |
| MultiHashMaps.ValueEnumerator.GetCurrent | tizen-sdk/platforms/tizen2.1/rootstraps/tizen-emulator-2.1.native/usr/include/osp/FBaseColMultiHashMapT.h:1733-1741 | the value under the node; InvalidOperation once the entry changed or when not on a value |
| MultiHashMaps.ValueEnumerator.Reset | tizen-sdk/platforms/tizen2.1/rootstraps/tizen-emulator-2.1.native/usr/include/osp/FBaseColMultiHashMapT.h:1791-1798 | InvalidOperation once the entry changed; otherwise before the first value with all values remaining |

## Left out

- Allocation failure (`E_OUT_OF_MEMORY` after `new`): allocation always succeeds in the model.
- Comparer failure: a comparer that reports an error (`E_INVALID_ARG` from the key comparer) is not modelled; comparers are total functions.
- The float `loadFactor`: the threshold is the opaque function `thresholdOf` of the capacity. The check that rejects a negative load factor (`tizen-sdk/platforms/tizen2.1/rootstraps/tizen-emulator-2.1.native/usr/include/osp/FBaseColMultiHashMapT.h:175`) is left out with it.
- `GetHashCode` of all three templates: it sums pointer addresses.
- `MultiHashMapT::Equals`: its inner loop overwrites its result, so only the last value of each key is compared.
- The `Construct(map, ...)` overloads of MultiHashMapT: they copy another map through its enumerator, which is not modelled. ArrayListT's `Construct(collection)` is `ConstructFrom`, with the collection as a sequence.
- `GetBidirectionalEnumeratorN` of both lists: it returns the same enumerator class as `GetEnumeratorN`, which is modelled.
- Collections passed in as arguments (`AddItems`, `InsertItemsFrom`, `ContainsAll`, `RemoveItems(collection)`) are sequences: the failure of their enumerators is not modelled.
- Pointer identity and memory release: deleting nodes and entries (`Reset`, `Remove`, `RemoveAll`) is not modelled, only what stays reachable.
- Integer width: `count`, `modCount`, `capacity` and positions are unbounded. Wrap-around is modelled only where it decides behaviour, in the capacity doubling loop of `Construct`.
- Buckets.Slot: `hash & (capacity - 1)` is computed bit by bit as the low bits of the unsigned reading of the hash. For a power-of-two capacity this is the same number.
- MultiHashMaps.MultiHashMap.Construct: takes the hash provider and the comparer as functions, as the provider overload does (`tizen-sdk/platforms/tizen2.1/rootstraps/tizen-emulator-2.1.native/usr/include/osp/FBaseColMultiHashMapT.h:303-356`). The default-provider overload differs only in where they come from. It also requires the comparer to report 0 exactly for equal keys (`KeyComparer`), because the abstraction `Contents` is keyed by Dafny equality. The source accepts any comparer and matches entries by an equal hash plus `Compare(...) == 0` (`tizen-sdk/platforms/tizen2.1/rootstraps/tizen-emulator-2.1.native/usr/include/osp/FBaseColMultiHashMapT.h:433-446`), so a comparer that equates distinct keys, or a hash that differs for keys it equates, is outside the model. The source's default arguments `capacity = 16, loadFactor = 0.75` (`tizen-sdk/platforms/tizen2.1/rootstraps/tizen-emulator-2.1.native/usr/include/osp/FBaseColMultiHashMapT.h:172`) are not given as Dafny defaults: the request comes before the provider, comparer and threshold rule, which have none, and the load factor is a float that enters only through `thresholdOf`; a caller passes 16 and the 0.75 rule explicitly.
- MultiHashMaps.MultiHashMap.AddAll: requires the other map to be a different MultiHashMap with its own table. The source accepts any `IMultiMapT`, including the map itself.
- MultiHashMaps.MultiHashMap.GetCountOf: when the key is absent the source leaves its out-parameter untouched; the model returns 0.
- MultiHashMaps.MultiHashMap.GetKeysN and GetValuesN: the capacity the new list is constructed with is not stated, only its contents.
- MultiHashMaps.ValueEnumerator: names its entry by key. The source holds a pointer to the entry, which dangles once `Remove(key)` deletes it. In the model the enumerator then reports `InvalidOperation`, or walks the new entry when the key was added again and the new entry has the same modCount.
- MultiHashMaps.Hash: each `>>` of the signed int is computed as a logical shift plus the copied sign bits. Its contract ties the result to the arithmetic shift `~(~h >> n)` of a negative int, not to a floor division by a power of two.
- ArrayLists.ArrayList.Sort and LinkedLists.LinkedList.Sort: do not bump `modCount` in the source, so an enumerator survives a sort. The model keeps that.
- ArrayLists.ArrayList.IndexOf: on an empty list it returns `OutOfRange`, because it goes through the ranged search, while LinkedListT returns `ObjNotFound`. The model follows each.
- RemoveItems(collection) differs between the lists. ArrayListT stops at the first missing item with `ObjNotFound`, after removing the earlier ones; LinkedListT skips missing items and returns `Success`. The model follows each.

## Findings

| source | as written | input that shows it | evidently intended | confidence | as-written member | corrected member |
|---|---|---|---|---|---|---|
| osp/FBaseColLinkedListT.h:333-349 | `GetItemsN` inserts the node at `startIndex` before looking at `count` | `GetItemsN(0, 0)` on a one-element list returns a list holding that element | an empty list, the slice of length 0, as ArrayListT returns | not executed | LinkedLists.GetItemsNZeroCount | LinkedLists.LinkedList.GetItemsNCorrected |
| tizen-sdk/platforms/tizen2.1/rootstraps/tizen-emulator-2.1.native/usr/include/osp/FBaseColMultiHashMapT.h:185-191 | the capacity doubles until it reaches the request, with no upper bound | `Construct(0x40000001)`: the capacity goes from 2^30 to the int minimum and then to 0, so the loop never ends | a finite table, the request capped at the largest int power of two 2^30 | not executed | MultiHashMaps.CapacityLoopNeverExits | MultiHashMaps.CapacityFor |
| tizen-sdk/platforms/tizen2.1/rootstraps/tizen-emulator-2.1.native/usr/include/osp/FBaseColMultiHashMapT.h:859-909 | `SetValue` replaces the value without checking that the new value is already there | `SetValue(0, 1, 2)` on the map {0: [1, 2]} gives {0: [2, 2]}, a duplicate pair | refuse with `E_OBJ_ALREADY_EXIST`, since the class admits no duplicate pairs (line 54) | not executed | MultiHashMaps.SetValueMakesDuplicate | MultiHashMaps.MultiHashMap.SetValueChecked |
| tizen-sdk/platforms/tizen2.1/rootstraps/tizen-emulator-2.1.native/usr/include/osp/FBaseColMultiHashMapT.h:1566-1601 | past the last pair, `MoveNext` returns `E_OUT_OF_RANGE` but keeps the entry and node pointers when the last bucket is nonempty | a two-bucket table whose only pair (1, 7) sits in bucket 1: `MoveNext` twice gives `E_OUT_OF_RANGE`, and then `GetCurrent` still succeeds with (1, 7) | no current pair after `E_OUT_OF_RANGE` | not executed | TableOrder.StaleAfterEnd | MultiHashMaps.MapEnumerator.MoveNextChecked |
