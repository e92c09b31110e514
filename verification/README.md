# b_list: a doubly linked list with in-place merge sort

This project models the C container in `b_list.c`. The container is a generic
doubly linked list of heap-allocated nodes with opaque `void *` payloads and
an optional payload destructor. The model covers:

- construction of nodes and lists;
- pushing and popping at both ends;
- indexed fetch, predicate find, indexed insert, delete and delete-at;
- tearing a list down;
- bidirectional iterators;
- the in-place, top-down, stable merge sort behind `b_list_sort`.

The model describes memory as a value: a `Heap<T>` maps node addresses to
`Node(prev, next, data)` records. Each operation maps a heap to a new heap. Most are
functions, including those whose C code walks the list (an index walk is a
recursive function). Methods are used where a loop invariant carries the
proof (find, free_list, the iterator drains, the loops of merge) and
for the recursive merge_sort and b_list_sort. The list record keeps
head, tail, size and whether a destructor is bound. NULL pointers are `None`.
Each list comes with a ghost sequence of node addresses that stands for its
contents. `ListTypes.Valid` is the list invariant that ties the record and
every `prev`/`next` link to that sequence. Every operation states its effect
on the sequence:

- a prepended or appended node;
- `s[..i] + [n] + s[i..]`;
- a removed position;
- the reference merge sort.

Every operation also states the frame: which nodes it may touch, that no
payload changes, and which addresses are released. Destructor calls are
recorded as the sequence of payloads handed to the destructor.

Modules:

- `Wrappers`: `Option`.
- `ListTypes` (`list_types.dfy`): the node and list records of `b_list.h`,
  the heap, the chain predicate `Linked`, the invariant `Valid`, the frame.
- `ListOps` (`list_ops.dfy`): the functions of `b_list.c` other than the
  iterators and the sort.
- `ListIterator` (`list_iterator.dfy`): the iterator functions.
- `StableSort` (`stable_sort.dfy`): a reference merge sort on sequences, with
  the same split and the same tie rule as `merge_sort`. It is proved to be a
  permutation, sorted and stable.
- `ListSort` (`list_sort.dfy`): `merge`, `merge_sort` and `b_list_sort` on
  the heap, proved to link the nodes exactly in the reference sort's order.

## Model

| member | source | states |
|---|---|---|
| ListTypes.ValidIsListInvariant | b_list.h:12-17 | the list invariant implies the C-level facts: size is 0 exactly when head is NULL, and exactly when tail is NULL; head has no `prev` and tail has no `next`; every `next` link is mirrored by a `prev` link; following `next` from head reaches exactly `size` nodes |
| ListTypes.LinkedInjective | b_list.h:6-10 | no node occurs twice in a doubly linked chain |
| ListTypes.Walk | b_list.c:93-94 | walking `k` `next` links from the i-th node of a chain reaches the (i+k)-th node |
| ListTypes.FollowChain | b_list.c:9-13 | following `next` from the i-th node visits exactly the rest of the chain and then meets NULL |
| ListOps.NewNode | b_list.c:18-25 | the new node holds the payload, has no neighbours, and leaves every other node alone |
| ListOps.NewList | b_list.c:27-31 | the new list is empty, satisfies the invariant and has no destructor |
| ListOps.NewListWithFunc | b_list.c:33-41 | the new list is empty and satisfies the invariant; it has a destructor exactly when the function pointer passed is non-NULL |
| ListOps.LPush | b_list.c:43-54 | a NULL list or node changes nothing and yields NULL; otherwise the node is returned and becomes the first of the list's sequence, the invariant holds and only the node and the old head change |
| ListOps.RPush | b_list.c:56-67 | a NULL list or node changes nothing and yields NULL; otherwise the node is returned and becomes the last of the sequence, the invariant holds and only the node and the old tail change |
| ListOps.LPop | b_list.c:80-89 | a NULL or empty list changes nothing and yields NULL; otherwise the old head is returned detached, the list holds the rest of the sequence, and no node is released |
| ListOps.RPop | b_list.c:69-78 | a NULL or empty list changes nothing and yields NULL; otherwise the old tail is returned detached, the list holds the sequence without it, and no node is released |
| ListOps.LPushThenLPop | b_list.c:43-54 | lpop right after lpush returns the pushed node detached and restores the list record and every other node |
| ListOps.RPushThenRPop | b_list.c:56-78 | rpop right after rpush returns the pushed node detached and restores the list record and every other node |
| ListOps.Fetch | b_list.c:91-96 | the result is the node at the index for an index in [0, size), and NULL for any other index or a NULL list |
| ListOps.Find | b_list.c:98-103 | the result is the first node whose payload matches; NULL means no payload matches or the list is NULL |
| ListOps.Insert | b_list.c:105-124 | for an index in [0, size] the sequence becomes `s[..i] + [n] + s[i..]` and the node is returned; any other index or a NULL argument changes nothing and yields NULL |
| ListOps.InsertBetween | b_list.c:115-121 | the middle branch links the node between positions i-1 and i |
| ListOps.Delete | b_list.c:126-135 | the member node is removed from its position, the others keep their order, and the node is released; a bound destructor receives its payload exactly once |
| ListOps.DeleteAt | b_list.c:137-149 | an index in [0, size) removes that node and releases it; the destructor is called only when the index is the first or last one; any other index changes nothing |
| ListOps.DeleteAtReleasing | b_list.c:137-149 | the corrected delete_at: a bound destructor receives the payload of the removed node at every index |
| ListOps.DeleteAtReleasingConserves | b_list.c:137-149 | with a destructor bound, every payload is either still in the list or was handed to the destructor after the corrected delete_at |
| ListOps.DeleteAtMiddleLeaks | b_list.c:141-148 | for a middle index, delete_at as written releases the node, calls no destructor, and loses a payload |
| ListOps.DeleteAtLeakExample | b_list.c:141-148 | on a three-node list, deleting index 1 calls no destructor as written, and hands over the payload when corrected |
| ListOps.InsertThenFetch | b_list.c:91-124 | after inserting a node at an index, fetch at that index returns that node |
| ListOps.DeleteFetched | b_list.c:91-149 | deleting the node that fetch returns for an index is the same as the corrected delete_at of that index |
| ListOps.DeleteAtEnds | b_list.c:137-140 | at the first and last index, delete_at as written is the same as delete of the node there |
| ListOps.InsertThenDeleteAt | b_list.c:105-149 | delete_at as written, applied to the node just inserted at an index, restores the list record and every other node and releases the node; the destructor gets its payload only when the index is the first or last position |
| ListOps.InsertThenDeleteAtReleasing | b_list.c:105-149 | the corrected delete_at, applied to the node just inserted at an index, restores the list record and every other node and hands the node's payload to a bound destructor |
| ListOps.FreeList | b_list.c:5-16 | exactly the list's nodes are released and other nodes are left alone; a bound destructor receives the payloads head to tail, one call each; a NULL list does nothing |
| ListIterator.ForwardOrdered | b_list.c:189-194 | following `next` from each node of a list reaches the next node in the list's order |
| ListIterator.BackwardOrdered | b_list.c:189-194 | following `prev` from each node reaches the next node of the reversed order |
| ListIterator.NewIterator | b_list.c:156-163 | the iterator starts at head for the begin direction and at tail for the end direction; a NULL list yields NULL |
| ListIterator.FromNode | b_list.c:165-172 | the iterator starts at the given node; a NULL node yields NULL |
| ListIterator.FromIndex | b_list.c:174-187 | the iterator starts at the node at the index exactly when the list is non-NULL and the index is in [0, size) |
| ListIterator.NextInOrder | b_list.c:189-194 | on an iterator at the k-th node of an ordered sequence, next yields that node and moves the cursor to the (k+1)-th node, or to NULL after the last |
| ListIterator.Drain | b_list.c:189-194 | repeating next from position i of an ordered sequence yields the rest of it |
| ListIterator.Traverse | b_list.c:156-194 | iterating a whole list yields its nodes in order for the begin direction and in reverse order for the end direction |
| ListIterator.TraverseFrom | b_list.c:174-194 | iterating from an index yields the nodes from it to the tail, or from it back to the head |
| ListIterator.TraverseFromNode | b_list.c:165-194 | iterating from a node of a list yields the nodes from it to the tail, or from it back to the head |
| StableSort.MergePermutation | b_list.c:196-232 | merging two runs neither loses nor duplicates any element |
| StableSort.MergeSorted | b_list.c:207-228 | merging two sorted runs under a total preorder gives a sorted run |
| StableSort.MergeStable | b_list.c:209-216 | because ties go to the left run, merging keeps the left run's equivalent elements ahead of the right run's |
| StableSort.MergeSortPermutation | b_list.c:234-251 | the sort's output is a permutation of its input |
| StableSort.MergeSortSorted | b_list.c:234-251 | under a total preorder the sort's output is non-decreasing |
| StableSort.MergeSortStable | b_list.c:234-251 | under a total preorder, elements that compare equal come out in their input order |
| ListSort.Merge | b_list.c:196-232 | the relinked nodes form the stable merge of the two runs, with `prev` links rebuilt; the returned tail is the last merged node; an empty run leaves everything unchanged and the tail as given |
| ListSort.MergeNonEmpty | b_list.c:206-231 | the two loops of merge link every node of two non-empty runs in merge order and return its first and last node |
| ListSort.MergeOne | b_list.c:207-220 | one step of the first loop takes the left head when compare is <= 0 and the right head otherwise, extending the merged prefix by one |
| ListSort.Middle | b_list.c:237-242 | the slow/fast walk stops on the node that ends the first ceil(n/2) nodes |
| ListSort.MiddleFrom | b_list.c:239-242 | from any round of the walk (slow on the k-th node, fast on the (2k+1)-th), the walk ends on the node that ends the first ceil(n/2) nodes |
| ListSort.Cut | b_list.c:243-244 | cutting after that node leaves two detached chains, the first ceil(n/2) nodes and the rest |
| ListSort.MergeSort | b_list.c:234-251 | the nodes are relinked in the order of the reference merge sort; the tail pointer is the last node whenever a merge happened; only the chain's nodes change |
| ListSort.Sort | b_list.c:253-257 | a NULL list or one of at most one node is unchanged; otherwise the list holds a permutation of its nodes with the same size, sorted and stable when compare is a total preorder, with head and tail updated and payloads untouched |

## Left out

- Allocation failure: every `malloc`/`calloc` is assumed to succeed. A
  new node's address is a parameter that must be unallocated.
- Releasing memory is modelled as removing the address from the heap.
  `b_free_list` also frees the list record; the model has no heap of list
  records, so that step is not represented.
- `b_free_list_iterator` only frees the iterator's memory, so it has no
  counterpart. Iterators are values.
- The `printf` inside `merge` is a debug print that assumes `int *`
  payloads. It has no effect on the list.
- Destructor calls are not executed. They are recorded as the sequence of
  payloads handed to the destructor, and the destructor itself is a flag
  on the list. The `compare` and `match` callbacks are pure functions of
  the two payloads.
- Integer widths: `size` is `unsigned int` and indices are `int`. The model
  uses unbounded integers, so it models neither wrap-around past UINT_MAX
  nodes nor the signed/unsigned comparisons. The negative-index check
  always comes first, so they do not matter for valid sizes.
- Direction values other than `LIST_BEGIN` and `LIST_END` are not
  modelled. The C code treats them as `LIST_END`.
- Inputs that would corrupt the list are ruled out by preconditions. The
  model does not describe the corrupted chain such a call leaves behind.
  - `b_list_delete` on a node that is not in the list;
  - `b_list_lpush`, `b_list_rpush`, or `b_list_insert` with an index in
    [0, size], of a node that is already in the list. An insert with an
    index outside [0, size] is allowed for any node and changes nothing.
- `b_list_iterator_next` on an exhausted iterator dereferences NULL. A
  precondition rules it out.
- `merge` writes through the `next` of a stack sentinel. The model uses an
  absent node in its place and keeps the sentinel's `next` as the merge's
  first node.
- ListIterator.FromIndex: the `index == size` branch is kept, but the guard
  before it makes it unreachable.

## Findings

| source | as written | input that shows it | evidently intended | confidence | as-written member | corrected member |
|---|---|---|---|---|---|---|
| b_list.c:141-148 | `b_list_delete_at` releases a node that is neither first nor last without calling the list's destructor on its payload | a three-node list created with a destructor, `delete_at(list, 1)` | the middle node's payload is handed to the destructor, as `b_list_delete` does for the first and last nodes | not executed | ListOps.DeleteAt, ListOps.DeleteAtMiddleLeaks, ListOps.DeleteAtLeakExample | ListOps.DeleteAtReleasing, ListOps.DeleteAtReleasingConserves |
