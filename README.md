# queue.c — a verified model of the lab0-c string queue

queue.c keeps strings in a singly linked chain of list elements (`list_ele_t`). A queue record (`queue_t`) holds a `head` pointer, a `tail` pointer and a stored `size`. The operations are:

- `q_new` and `q_free`;
- insertion at the head and at the tail;
- removal at the head, with a bounded copy of the removed string;
- `q_size`;
- in-place reversal;
- a recursive merge sort over the raw chain (`mergeSortList` and `merge`). Comparison is case-insensitive with `strcasecmp`.

The model is imperative Dafny over the heap:

- **Node** (`chains.dfy`) is a class. Its `value` is constant and its `next` is rewired in place.
- **Queue** (`queue.dfy`) is a class with the same three fields. It has two ghost fields:
  - `nodes`, the chain reachable from `head`;
  - `Contents`, the strings of that chain.
- **`Queue.Valid`** is the invariant every operation keeps:
  - `size == |nodes|`;
  - following `next` from `head` visits `nodes` and ends at null;
  - the strings are `Contents`;
  - while the queue is non-empty, `tail` is the last node.
- **Operations** are module-level methods taking `Queue?`, so the null-queue branches of the C functions are modelled.
- **Allocation** enters as a boolean saying whether it succeeded.
- **The sort** is specified by value-level functions (`sort_spec.dfy`): `MergeBy` is the splice order of `merge` and `MergeSortBy` the recursion of `mergeSortList`. The same functions are instantiated over nodes (`Chains.MergeNodes`, `Chains.SortNodes`) and over strings (`SortSpec.Merge`, `SortSpec.MergeSort`). The pointer-rewiring methods are proved to produce the node orders. Sortedness and permutation are then proved of the orders.
- **`strcasecmp`** (`case_compare.dfy`) is modelled by the sign of its result in the "C" locale: characters are compared after ASCII lower-casing, and a proper prefix ranks first.

Three behaviours of queue.c shape the model:

- **The sort is not stable.** `merge` takes the right-hand node when `strcasecmp(l1->value, l2->value) >= 0` (queue.c:264, 273), so on a tie the later string goes first. `["b", "B", "a"]` sorts to `["a", "B", "b"]` (`SortSpec.SortExamples`). Sorting twice can therefore differ from sorting once (`SortSpec.SortIsNotIdempotent`).
- **`tail` goes stale.** Removing the last element leaves `tail` pointing at the removed element (queue.c:120), so `Valid` constrains `tail` only while `size > 0`. `Queues.TailRoundTrip` shows an insert at the tail followed by a removal emptying the queue with `tail` still non-null.
- **The tail walk of `q_sort`** starts from the old `tail` node, which after sorting may sit anywhere in the chain (queue.c:220-221).

## Model

| member | source | states |
|---|---|---|
| CaseCompare.StrCaseCmp | queue.c:264 | the comparison used by `merge` yields only the signs -1, 0, 1 |
| CaseCompare.StrCaseCmpAntisymmetric | queue.c:264 | swapping the operands of `strcasecmp` flips the sign; `>= 0` is "right ranks no higher than left" |
| CaseCompare.StrCaseCmpZero | queue.c:273 | `strcasecmp` is 0 exactly when both strings agree after lower-casing |
| CaseCompare.StrCaseCmpTransitive | queue.c:273 | the case-insensitive order is transitive |
| CaseCompare.StrCaseCmpOfLower | queue.c:273 | comparing lower-cased strings gives the same sign: letter case is invisible |
| CaseCompare.CaseLeTotal | queue.c:273 | any two strings are ordered one way or the other |
| CaseCompare.StrCaseCmpIgnoresCase | queue.c:264 | "b" and "B" tie although they differ; "B" ranks above "a" although 'B' < 'a' in code |
| SortSpec.MergeBy | queue.c:256-290 | the splice order of `merge`: the front of `l2` goes first when the test says so, otherwise the front of `l1`, and an exhausted list leaves the rest of the other; every element of both inputs is placed once (length is the sum) |
| SortSpec.MergeSortBy | queue.c:292-311 | the recursion of `mergeSortList`: length 0 or 1 is returned as it is, longer inputs are cut after `ceil(n/2)` elements, both halves sorted and merged; the length is kept |
| SortSpec.SplitIsProper | queue.c:297-305 | for two or more nodes both halves of the fast/slow split are non-empty, so the recursion terminates |
| SortSpec.MergeSorted | queue.c:256-290 | merging two sorted string sequences gives a sorted sequence |
| SortSpec.MergePermutation | queue.c:256-290 | the merge holds exactly the strings of both inputs (multiset union) |
| SortSpec.MergeTakesRightOnTie | queue.c:264-266 | on a tie the front of `l2` goes first |
| SortSpec.MergeSortSorted | queue.c:292-311 | the merge sort result is non-decreasing case-insensitively |
| SortSpec.MergeSortPermutation | queue.c:292-311 | the merge sort result is a permutation of its input |
| SortSpec.SortedPairwise | queue.c:292-311 | in a sorted result every earlier string ranks no higher than every later one |
| SortSpec.SortExamples | queue.c:292-311 | `["3","1","2"]` sorts to `["1","2","3"]`; `["b","B","a"]` sorts to `["a","B","b"]` (not stable) |
| SortSpec.SortIsNotIdempotent | queue.c:264-276 | sorting `["b","B"]` gives `["B","b"]`, and sorting that again gives `["b","B"]` |
| Chains.ListDistinct | queue.c:256-311 | a null-terminated chain visits no node twice |
| Chains.ListNext | queue.c:300-302 | in a chain, the `next` of position j is position j+1, or null after the last |
| Chains.ValuesMergeNodes | queue.c:256-290 | the strings of the merged node order are the string merge of the inputs' strings |
| Chains.ValuesSortNodes | queue.c:292-311 | the strings of the sorted node order are the string merge sort of the chain's strings |
| Chains.MergeNodesDistinct | queue.c:256-290 | merging two disjoint chains repeats no node |
| Chains.SortNodesDistinct | queue.c:292-311 | sorting a distinct chain repeats no node |
| Chains.MergedChainSorted | queue.c:256-290 | for sorted inputs the merged chain is sorted and consists of exactly the nodes of both |
| Chains.SortedChain | queue.c:292-311 | the sorted chain is sorted and is a permutation of the input nodes |
| Chains.Merge | queue.c:256-290 | an empty input returns the other; otherwise the result heads a null-terminated chain visiting `MergeNodes(xs, ys)` |
| Chains.Splice | queue.c:271-288 | after the first pick, the splice loop and its last step complete the chain of the merged order |
| Chains.Link | queue.c:273-281 | one loop splice sets `tmpNode->next` to the next node of the merged order and extends the built prefix |
| Chains.Finish | queue.c:283-288 | once one chain is exhausted, the rest of the merged order is the other chain, and hanging it from `tmpNode` completes the merged chain |
| Chains.Attach | queue.c:283-288 | the write `tmpNode->next = l1` (or `l2`) joins the built segment and the remaining chain into one null-terminated chain |
| Chains.Node.constructor | queue.c:52-61 | a new list element holds its own copy of the string and a null `next` |
| Chains.FindMiddle | queue.c:297-303 | the fast/slow walk stops `slow` at position `ceil(n/2) - 1`, the last node of the left half |
| Chains.Cut | queue.c:304-305 | `fast = slow->next; slow->next = NULL` leaves two disjoint chains: the first k+1 nodes and the rest |
| Chains.Halve | queue.c:297-305 | the chain becomes the chain of its first `ceil(n/2)` nodes and the chain of the rest, disjoint |
| Chains.MergeSortList | queue.c:292-311 | the result heads a null-terminated chain visiting `SortNodes(ns)`; chains of length 0 or 1 come back as they are (`SortNodes` is the identity there) |
| Queues.Queue.constructor | queue.c:19-21 | a fresh record has null head and tail, size 0 and no contents |
| Queues.New | queue.c:13-23 | null exactly when allocation fails, otherwise an empty valid queue |
| Queues.Size | queue.c:134-139 | 0 for a null queue, otherwise the number of stored strings, read from the stored count |
| Queues.InsertHead | queue.c:46-68 | false for a null queue or failed allocation, with nothing changed; otherwise contents `[s] + old`, size + 1, new node at the head, `tail` set to it when the queue was empty |
| Queues.InsertTail | queue.c:77-101 | false for a null queue or failed allocation, with nothing changed; otherwise contents `old + [s]`, size + 1, a fresh `tail` with null `next`, equal to `head` when the queue was empty; only the old tail node is written |
| Queues.Strlcpy | queue.c:117-119 | a size-0 buffer is not written; otherwise it holds the prefix of the value of length `min(len, bufsize - 1)` |
| Queues.RemoveHead | queue.c:111-128 | false with nothing changed on a null or empty queue; otherwise contents `old[1..]`, size - 1, `tail` unchanged, and the buffer receives `Strlcpy(old[0], bufsize)` when `sp` is non-null |
| Queues.Reverse | queue.c:148-162 | no change on a null or empty queue; otherwise nodes and contents reversed, size kept, new `tail` the old head, new `head` the old last node; every node of the new chain was in the old one |
| Queues.ReverseChain | queue.c:153-160 | the rewiring loop turns the chain into the chain of the reversed node sequence, headed by the old last node |
| Queues.ValuesRev | queue.c:148-162 | the strings of the reversed chain are the reversed strings |
| Sequences.RevInvolution | queue.c:148-162 | reversing twice restores the original order |
| Sequences.RevMultiset | queue.c:148-162 | reversal keeps the same elements, with no node added or lost |
| Sequences.RevAt | queue.c:153-160 | position k of the reversal is position `n-1-k` of the original |
| Queues.Sort | queue.c:211-222 | no change on a null, empty or one-element queue; otherwise nodes become `SortNodes(old)`, contents `MergeSort(old)` (sorted, a permutation: `SortSpec.MergeSortSorted`, `SortSpec.MergeSortPermutation`), size kept, `tail` the last node, and every node of the new chain was in the old one |
| Queues.SortKeepsNodes | queue.c:218-221 | sorting only rewires the chain's own nodes: the old `tail` is still in the sorted chain, so the tail walk starts inside it |
| Queues.Install | queue.c:218-221 | the sorted chain becomes `head` and its last node `tail`; the count is unchanged and the queue is valid again |
| Queues.WalkToEnd | queue.c:220-221 | walking `next` from any node of a chain stops at its last node, whose `next` is null |
| Queues.ValidTail | queue.c:96-98 | in a non-empty valid queue `tail` is non-null and its `next` is null |
| Queues.TailRoundTrip | queue.c:92-128 | tail insert then head remove on an empty queue returns the string, empties the queue and leaves `tail` non-null |
| Queues.Free | queue.c:26-38 | the traversal of `q_free` visits every element once, front to back, releasing the strings in queue order |

## Left out

- Memory management: `malloc` and `free` are not modelled, because Dafny memory is garbage-collected. An allocation result is a boolean parameter. The two allocations of an insert (element and string copy) share one flag, because both failure paths return false with the queue unchanged.
- Queues.Free: does not release anything; it only models the traversal, and its result lists the strings the C loop frees.
- C strings: NUL terminators, `strlen` and byte buffers are not modelled. Values are Dafny strings, and `strlcpy` into `sp` is the prefix it leaves (`Queues.Strlcpy`).
- Queues.Strlcpy, Queues.RemoveHead: lengths and `bufsize` count characters, not bytes, and a string may hold '\0'. The copy matches C only for ASCII values without NUL; for a multi-byte character cut by `bufsize`, C keeps part of its encoding and the model keeps or drops the whole character. `strlen` and `strcasecmp` stop at a NUL; the model reads the whole string.
- Queues.Size and the size field: 32-bit `int` overflow of `size` is not modelled. Counts are unbounded integers, because overflow needs more than 2^31 elements.
- CaseCompare.StrCaseCmp: models only the sign of `strcasecmp`, and only the ASCII "C" locale. Locale-dependent case mapping is not modelled.
- Queues.Reverse, Queues.Sort: the C loops use `q->head` (reverse) and `q->tail` (sort) as the cursor. The model walks a local cursor (`ReverseChain`, `WalkToEnd`) and stores the result in the field afterwards. The same pointers are followed and written.
- Chains.Merge, Chains.MergeSortList: state the node order of the result. Sortedness and the permutation property follow from `Chains.MergedChainSorted` and `Chains.SortedChain`.
- The code of `merge` and `mergeSortList` is cut into the helpers `Splice`, `Link`, `Finish`, `Attach`, `FindMiddle`, `Cut` and `Halve`. This keeps each proof small; the statements are the same as in C.
- The commented-out bubble sort (queue.c:170-208) and the commented-out `sort` (queue.c:223-255) are not modelled, because they are dead code.
- `queue.h`, `harness.h` and the interactive command driver are not part of this model.
