# dsa-python linked lists and n-ary trees, modelled in Dafny

This project models the data-structure core of the `dsa-python` repository:

- the five linked-list operation modules: singly linear, doubly linear, circular singly, its near-identical copy `singly_circular_linked_list`, and circular doubly;
- the n-ary tree operations on `TreeNode`;
- the node and container records;
- the `MultipleElementsHandler` record and the stable sort by index that the batch operations apply.

Every operation updates nodes and containers in place, so each record is a Dafny `class` and each operation an imperative `method` with `modifies` clauses. Where the source loops, the method loops too.

**Linked lists.** Each container class carries a ghost sequence `nodes` listing the linked nodes from head to tail. `Valid()` ties `head`, `tail`, `size`, the `initialized` flag and the `next` chain to it. The contracts say how `nodes`, and so the sequence of payloads, changes.

The model follows the code where it departs from a textbook list:

- A one-node circular list links to None, not to itself.
- Removing the head of a circular singly list leaves the tail linking to the removed node. `Ring()` records whether the ring is closed.
- Circular-doubly middle insertions and deletions touch only `next`. The back links are a separate predicate, `PrevLinked()`.
- `delete_cdll_last_element` leaves `tail` on the removed node. `Chain()` is the forward chain alone and admits that stale tail; `Valid()` adds that `tail` is the last node. Appending, removing the first node, removing the last node and reading by index take `Chain()` and state what they do after a stale tail.
- Removing the head of a doubly list leaves the new head's `prev` on the removed node.
- The doubly batch insertion makes its newest node link to itself.

**Batch operations.** The batch operations of the singly, circular singly and circular doubly lists are specified by two pure functions on payload sequences:

- `BatchSemantics.InsertMany` and `BatchSemantics.DeleteMany` process the items in sorted order, each checked against the size the list has at its turn;
- their accounting, conservation and ordering properties are proved as lemmas;
- each loop keeps a progress invariant that ends in exactly that function.

The doubly list's batch operations walk one cursor forward across the whole batch. `DoublyBatchSemantics` specifies them by what the cursor does.

**Trees.** The tree operations are specified against a ghost datatype `Tree(node, subtrees)` that a caller draws of the heap:

- `Mirrors`: every children list is as drawn;
- `Parents`: every parent field points back up;
- `Unique`: no node is drawn twice;
- `WellFormed`: all three at once.

The three traversals and the two searches are proved equal to pure functions on the drawn tree (`PreOrder`, `PostOrder`, `LevelOrder`, `FirstWith`). The insertions and removals return the new drawn tree and prove that it stays well formed and gains or loses exactly the nodes concerned.

**Parameters for what Dafny cannot see.** Python truthiness of a payload is a parameter `truthy: T -> bool`. Python's `ValueError` and `IndexError` are the two cases of `Wrappers.Exception` inside a `Result`.

## Model

| member | source | states |
|---|---|---|
| LinkedListUtilities.SortListMultipleElementsHandlersSorts | src/data_structures/linked_lists/linked_list_utilities.py:7-10 | the handlers `sort_list_multiple_elements_handlers` returns are a permutation of its input, non-decreasing by index, and handlers with equal indices keep their input order (a stable sort) |
| LinkedListUtilities.SortByKeyPermutes | src/data_structures/linked_lists/linked_list_utilities.py:7-10 | sorting by key loses and adds no element |
| LinkedListUtilities.SortByKeySorted | src/data_structures/linked_lists/linked_list_utilities.py:7-10 | the sorted sequence is non-decreasing by key |
| LinkedListUtilities.SortByKeyStable | src/data_structures/linked_lists/linked_list_utilities.py:7-10 | for every key, the elements with that key come out in their input order |
| LinkedListUtilities.InsertByKeyPermutes | src/data_structures/linked_lists/linked_list_utilities.py:7-10 | one insertion step of the sort adds exactly the element inserted |
| LinkedListUtilities.InsertByKeySorted | src/data_structures/linked_lists/linked_list_utilities.py:7-10 | inserting into a key-sorted sequence keeps it key-sorted |
| LinkedListUtilities.InsertByKeyStable | src/data_structures/linked_lists/linked_list_utilities.py:7-10 | the inserted element goes before those already there with an equal key |
| LinkedListUtilities.SortIndicesSorts | src/data_structures/linked_lists/singly_linked_list/singly_linked_list_operations.py:274 | the `sorted(indices)` the batch deletions walk is an ascending permutation of the indices given |
| SinglyLinkedList.Node.constructor | src/data_structures/linked_lists/singly_linked_list/singly_linked_list.py:4-7 | a new node holds the payload and links to None |
| SinglyLinkedList.List.constructor | src/data_structures/linked_lists/singly_linked_list/singly_linked_list.py:10-16 | a new list is empty: no head, no tail, size 0, not initialized, no `sll_node` |
| CircularSinglyLinkedList.Node.constructor | src/data_structures/linked_lists/circular_singly_linked_list/circular_singly_linked_list.py:4-7 | a new node holds the payload and links to None, not to itself |
| CircularSinglyLinkedList.List.constructor | src/data_structures/linked_lists/circular_singly_linked_list/circular_singly_linked_list.py:10-15 | a new list is empty, uninitialized, and trivially a ring |
| CircularDoublyLinkedList.Node.constructor | src/data_structures/linked_lists/circular_doubly_linked_list/circular_doubly_linked_list.py:4-8 | a new node holds the payload and links to None both ways, not to itself |
| CircularDoublyLinkedList.List.constructor | src/data_structures/linked_lists/circular_doubly_linked_list/circular_doubly_linked_list.py:11-16 | a new list is empty and uninitialized, with no node ever linked |
| DoublyLinkedList.Node.constructor | src/data_structures/linked_lists/doubly_linked_list/doubly_linked_list.py:13-17 | a new node holds the payload with `prev` and `next` None |
| DoublyLinkedList.List.constructor | src/data_structures/linked_lists/doubly_linked_list/doubly_linked_list.py:4-10 | a new list is empty, uninitialized, with no `dll_node` |
| TreeNodes.TreeNode.constructor | src/data_structures/trees/tree_node.py:4-18 | stores the payload and the parent; the children are the list given, or a fresh empty list for None; every flag starts False |
| TreeNodes.BinaryTreeNode.constructor | src/data_structures/trees/tree_node.py:21-37 | stores the payload, parent and both child slots; every flag starts False |
| TreeNodes.TernaryTreeNode.constructor | src/data_structures/trees/tree_node.py:40-59 | stores the payload, parent and three child slots; every flag starts False |
| BatchSemantics.InsertManyCounts | src/data_structures/linked_lists/singly_linked_list/singly_linked_list_operations.py:145-176 | every handler of a batch insertion is either inserted or skipped, and the list grows by exactly one per insertion |
| BatchSemantics.InsertManyPartitions | src/data_structures/linked_lists/singly_linked_list/singly_linked_list_operations.py:145-176 | the inserted and the skipped handlers together are a permutation of the handlers given |
| BatchSemantics.InsertManyConserves | src/data_structures/linked_lists/singly_linked_list/singly_linked_list_operations.py:145-176 | no payload is lost: the final payloads are the initial ones plus the inserted elements |
| BatchSemantics.InsertManySkips | src/data_structures/linked_lists/singly_linked_list/singly_linked_list_operations.py:145-148 | since the list only grows, a skipped handler's index is below 1 or beyond the initial size, and an index below 1 is always skipped |
| BatchSemantics.InsertAtPlaces | src/data_structures/linked_lists/singly_linked_list/singly_linked_list_operations.py:152-176 | one accepted insertion adds exactly its element: at its index for an index below the size, last (not at the index) when the index equals the size |
| BatchSemantics.DeleteManyAccounts | src/data_structures/linked_lists/singly_linked_list/singly_linked_list_operations.py:274-306 | every index of a batch deletion is either deleted or skipped, the list shrinks by one per deletion (final size = initial size minus the results), and each result holds the payload that left |
| BatchSemantics.DeleteManySorted | src/data_structures/linked_lists/singly_linked_list/singly_linked_list_operations.py:274-306 | with the ascending indices the source sorts into, results keep ascending order, each was within the size at its turn, and a skipped index is below 1 or beyond the size left at the end |
| BatchSemantics.DeleteManyIndicesFrom | src/data_structures/linked_lists/singly_linked_list/singly_linked_list_operations.py:274-306 | every result and every skipped entry carries one of the requested indices |
| BatchSemantics.RemoveAtConserves | src/data_structures/linked_lists/singly_linked_list/singly_linked_list_operations.py:284-306 | one deletion removes exactly the payload at its position: one element fewer, the rest kept |
| BatchSemantics.DeleteManyExample | src/data_structures/linked_lists/singly_linked_list/singly_linked_list_operations.py:274-306 | on five payloads, indices 1, 3 and 6: positions 1 and then 3 of the shrunk list go, 6 is skipped, three payloads remain |
| BatchSemantics.InsertProgressEnd | src/data_structures/linked_lists/singly_linked_list/singly_linked_list_operations.py:145-176 | a loop that kept the insertion progress invariant to the end computed exactly `InsertMany` of the starting payloads |
| BatchSemantics.DeleteProgressEnd | src/data_structures/linked_lists/singly_linked_list/singly_linked_list_operations.py:274-306 | a loop that kept the deletion progress invariant to the end computed exactly `DeleteMany` of the starting payloads |
| SinglyLinkedListOperations.InitializeSll | src/data_structures/linked_lists/singly_linked_list/singly_linked_list_operations.py:10-32 | the list becomes the one fresh node holding the payload: head and tail, size 1, initialized |
| SinglyLinkedListOperations.InsertSllElement | src/data_structures/linked_lists/singly_linked_list/singly_linked_list_operations.py:35-63 | appends: the nodes are the old ones plus the new tail, size +1, the old tail links to it; an uninitialized list is initialized instead |
| SinglyLinkedListOperations.InsertSllFirstElement | src/data_structures/linked_lists/singly_linked_list/singly_linked_list_operations.py:115-133 | prepends: the new node is the head in front of the old nodes, size +1 |
| SinglyLinkedListOperations.InsertAfterHops | src/data_structures/linked_lists/singly_linked_list/singly_linked_list_operations.py:196-211 | `index - 2` hops reach the predecessor and the new node is spliced in at position `index`; head, tail and the other links are kept |
| SinglyLinkedListOperations.InsertSllNthElement | src/data_structures/linked_lists/singly_linked_list/singly_linked_list_operations.py:181-211 | IndexError and no change exactly when the index is outside 1..size+1; otherwise the new node is at position `index` of the old nodes |
| SinglyLinkedListOperations.DeleteSllFirstElement | src/data_structures/linked_lists/singly_linked_list/singly_linked_list_operations.py:214-229 | None and no change on an empty list; otherwise the old head leaves and is returned, still linking to the new head |
| SinglyLinkedListOperations.DeleteSllLastElement | src/data_structures/linked_lists/singly_linked_list/singly_linked_list_operations.py:66-112 | None and no change on an empty list; otherwise the old tail leaves and is returned, and the second-to-last node becomes the tail linking to None |
| SinglyLinkedListOperations.DeleteAfterHops | src/data_structures/linked_lists/singly_linked_list/singly_linked_list_operations.py:247-262 | `index - 2` hops reach the predecessor, which is linked past the node at `index`; that node is removed and returned |
| SinglyLinkedListOperations.DeleteSllNthElement | src/data_structures/linked_lists/singly_linked_list/singly_linked_list_operations.py:232-262 | IndexError and no change exactly when the index is outside 1..size; otherwise exactly the node at `index` is removed and returned |
| SinglyLinkedListOperations.InsertHandler | src/data_structures/linked_lists/singly_linked_list/singly_linked_list_operations.py:152-176 | one in-range handler: index 1 prepends, the size appends, any other index splices; the nodes become `InsertAt` of the old ones |
| SinglyLinkedListOperations.InsertSllMultipleElements | src/data_structures/linked_lists/singly_linked_list/singly_linked_list_operations.py:136-178 | ValueError exactly on an empty list; otherwise the payloads become `InsertMany` of the handlers sorted by index, the skipped handlers are returned, and the nodes returned are fresh and hold the inserted elements in order |
| SinglyLinkedListOperations.DeleteIndex | src/data_structures/linked_lists/singly_linked_list/singly_linked_list_operations.py:279-306 | one in-range index: the node at it leaves and the result pairs the index with its payload |
| SinglyLinkedListOperations.DeleteSllMultipleElements | src/data_structures/linked_lists/singly_linked_list/singly_linked_list_operations.py:265-308 | ValueError exactly on an empty list; otherwise the payloads, results and skipped indices are exactly `DeleteMany` of the sorted indices |
| SinglyLinkedListOperations.GetElementAtIndex | src/data_structures/linked_lists/singly_linked_list/singly_linked_list_operations.py:311-326 | None when uninitialized, IndexError outside 1..size, otherwise the node at position `index`; nothing changes |
| SinglyLinkedListOperations.ShallowClearSinglyLinkedList | src/data_structures/linked_lists/singly_linked_list/singly_linked_list_operations.py:329-342 | head and tail None, size 0, not initialized; no link is touched |
| SinglyLinkedListOperations.DeepClearSinglyLinkedList | src/data_structures/linked_lists/singly_linked_list/singly_linked_list_operations.py:345-381 | every formerly linked node links to None, and the list is empty and uninitialized |
| CircularSinglyLinkedListOperations.InitializeCsll | src/data_structures/linked_lists/circular_singly_linked_list/circular_singly_linked_list_operations.py:13-37 | the list becomes one fresh node, head and tail, linking to None (not to itself), size 1, initialized |
| CircularSinglyLinkedListOperations.InsertCsllElement | src/data_structures/linked_lists/circular_singly_linked_list/circular_singly_linked_list_operations.py:40-71 | appends behind the old tail and closes the ring through the new tail to the head; size +1 |
| CircularSinglyLinkedListOperations.InsertCsllFirstElement | src/data_structures/linked_lists/circular_singly_linked_list/circular_singly_linked_list_operations.py:74-90 | prepends, the tail linking to the new head, so the ring stays closed; size +1 |
| CircularSinglyLinkedListOperations.InsertAfterHops | src/data_structures/linked_lists/circular_singly_linked_list/circular_singly_linked_list_operations.py:108-123 | the middle insertion: the new node at position `index`, the tail's link unchanged |
| CircularSinglyLinkedListOperations.InsertCsllNthElement | src/data_structures/linked_lists/circular_singly_linked_list/circular_singly_linked_list_operations.py:93-123 | IndexError and no change exactly outside 1..size+1; otherwise the new node is at position `index`, and a closed ring stays closed |
| CircularSinglyLinkedListOperations.DeleteCsllFirstElement | src/data_structures/linked_lists/circular_singly_linked_list/circular_singly_linked_list_operations.py:175-194 | None on an empty list; otherwise the head leaves; with two or more left the tail still links to the removed node, so the ring is no longer closed |
| CircularSinglyLinkedListOperations.DeleteCsllLastElement | src/data_structures/linked_lists/circular_singly_linked_list/circular_singly_linked_list_operations.py:197-248 | None on an empty list; otherwise the tail leaves, its predecessor becoming the tail and taking over its link (None once one node is left); a closed ring stays closed |
| CircularSinglyLinkedListOperations.DeleteAfterHops | src/data_structures/linked_lists/circular_singly_linked_list/circular_singly_linked_list_operations.py:266-281 | the middle deletion: the node at `index` is linked past and returned, the tail's link unchanged |
| CircularSinglyLinkedListOperations.DeleteCsllNthElement | src/data_structures/linked_lists/circular_singly_linked_list/circular_singly_linked_list_operations.py:251-281 | IndexError and no change exactly outside 1..size; otherwise exactly the node at `index` leaves; only removing the head can open a closed ring |
| CircularSinglyLinkedListOperations.InsertHandler | src/data_structures/linked_lists/circular_singly_linked_list/circular_singly_linked_list_operations.py:140-171 | one in-range handler of the batch insertion: the nodes become `InsertAt` of the old ones |
| CircularSinglyLinkedListOperations.InsertCsllMultipleElements | src/data_structures/linked_lists/circular_singly_linked_list/circular_singly_linked_list_operations.py:126-172 | ValueError exactly on an empty list; otherwise the payloads become `InsertMany` of the sorted handlers, and the nodes returned are fresh and hold the inserted elements |
| CircularSinglyLinkedListOperations.DeleteIndex | src/data_structures/linked_lists/circular_singly_linked_list/circular_singly_linked_list_operations.py:293-328 | one in-range index of the batch deletion: the node at it leaves and its payload is recorded with the index |
| CircularSinglyLinkedListOperations.DeleteCsllMultipleElements | src/data_structures/linked_lists/circular_singly_linked_list/circular_singly_linked_list_operations.py:284-329 | ValueError exactly on an empty list; otherwise the payloads, results and skipped indices are `DeleteMany` of the sorted indices |
| CircularSinglyLinkedListOperations.GetElementAtIndex | src/data_structures/linked_lists/circular_singly_linked_list/circular_singly_linked_list_operations.py:332-347 | None when uninitialized, IndexError outside 1..size, otherwise the node at `index` |
| CircularSinglyLinkedListOperations.ShallowClearSinglyLinkedList | src/data_structures/linked_lists/circular_singly_linked_list/circular_singly_linked_list_operations.py:350-364 | the old tail links to None, and the list is empty and uninitialized |
| CircularSinglyLinkedListOperations.DeepClearSinglyLinkedList | src/data_structures/linked_lists/circular_singly_linked_list/circular_singly_linked_list_operations.py:367-387 | walking the ring and counting the size down, every node ends linking to None, and the list is empty and uninitialized |
| SinglyCircularLinkedListOperations.InitializeSll | src/data_structures/linked_lists/singly_circular_linked_list/singly_circular_linked_list_operations.py:13-37 | as `initialize_csll`: one fresh node linking to None, size 1, initialized |
| SinglyCircularLinkedListOperations.InsertSllElement | src/data_structures/linked_lists/singly_circular_linked_list/singly_circular_linked_list_operations.py:40-71 | appends and closes the ring through the new tail; size +1 |
| SinglyCircularLinkedListOperations.InsertSllFirstElement | src/data_structures/linked_lists/singly_circular_linked_list/singly_circular_linked_list_operations.py:74-90 | prepends, the tail linking to the new head; size +1 |
| SinglyCircularLinkedListOperations.InsertSllNthElement | src/data_structures/linked_lists/singly_circular_linked_list/singly_circular_linked_list_operations.py:93-123 | IndexError exactly outside 1..size+1; otherwise the new node at position `index`, a closed ring staying closed |
| SinglyCircularLinkedListOperations.InsertSllMultipleElements | src/data_structures/linked_lists/singly_circular_linked_list/singly_circular_linked_list_operations.py:126-172 | ValueError exactly on an empty list; otherwise the payloads become `InsertMany` of the sorted handlers |
| SinglyCircularLinkedListOperations.DeleteSllFirstElement | src/data_structures/linked_lists/singly_circular_linked_list/singly_circular_linked_list_operations.py:175-194 | None on an empty list; otherwise the head leaves and, with two or more left, the tail still links to it |
| SinglyCircularLinkedListOperations.DeleteSllLastElement | src/data_structures/linked_lists/singly_circular_linked_list/singly_circular_linked_list_operations.py:197-248 | None on an empty list; otherwise the tail leaves and its predecessor takes over its link |
| SinglyCircularLinkedListOperations.DeleteSllNthElement | src/data_structures/linked_lists/singly_circular_linked_list/singly_circular_linked_list_operations.py:251-281 | IndexError exactly outside 1..size; otherwise exactly the node at `index` leaves |
| SinglyCircularLinkedListOperations.DeleteSllMultipleElements | src/data_structures/linked_lists/singly_circular_linked_list/singly_circular_linked_list_operations.py:284-329 | ValueError exactly on an empty list; otherwise the outcome is `DeleteMany` of the sorted indices |
| SinglyCircularLinkedListOperations.GetElementAtIndex | src/data_structures/linked_lists/singly_circular_linked_list/singly_circular_linked_list_operations.py:332-347 | None when uninitialized, IndexError outside 1..size, otherwise the node at `index` |
| SinglyCircularLinkedListOperations.ShallowClearSinglyLinkedList | src/data_structures/linked_lists/singly_circular_linked_list/singly_circular_linked_list_operations.py:350-364 | the old tail links to None and the list is empty and uninitialized |
| SinglyCircularLinkedListOperations.TwinDeepClearStep | src/data_structures/linked_lists/singly_circular_linked_list/singly_circular_linked_list_operations.py:373-381 | one turn of the copy's deep-clear loop: the cursor's link is cleared, the cursor moves to the old successor, and the tail is pointed at the new cursor because the size never drops |
| SinglyCircularLinkedListOperations.TwinDeepClearNeverEnds | src/data_structures/linked_lists/singly_circular_linked_list/singly_circular_linked_list_operations.py:373-381 | on every ring of two or more nodes, after any number of turns the cursor is still a node, never None: the loop never ends |
| SinglyCircularLinkedListOperations.TwinDeepClearRunFrom | src/data_structures/linked_lists/singly_circular_linked_list/singly_circular_linked_list_operations.py:373-381 | the loop's state after `i` turns leads, `n` turns later, to the state after `i + n` turns, or stays on the tail |
| SinglyCircularLinkedListOperations.TwinDeepClearTwoNodes | src/data_structures/linked_lists/singly_circular_linked_list/singly_circular_linked_list_operations.py:373-381 | on a two-node ring one turn leaves the tail linking to itself, and every further turn stays there |
| SinglyCircularLinkedListOperations.DeepClearSinglyLinkedList | src/data_structures/linked_lists/singly_circular_linked_list/singly_circular_linked_list_operations.py:367-386 | the deep clear as the circular singly copy does it: every node links to None and the list is empty and uninitialized |
| CircularDoublyLinkedListOperations.InitializeCdll | src/data_structures/linked_lists/circular_doubly_linked_list/circular_doubly_linked_list_operations.py:13-37 | one fresh node, head and tail, linking to None both ways, size 1, initialized |
| CircularDoublyLinkedListOperations.InsertCdllElement | src/data_structures/linked_lists/circular_doubly_linked_list/circular_doubly_linked_list_operations.py:40-78 | appends after whatever `tail` names, linking it to the head both ways; on a `Valid()` list both rings stay closed; after a stale tail the new node hangs off the removed node and the last linked node keeps linking to the head (None for a single node); an uninitialized list is initialized instead |
| CircularDoublyLinkedListOperations.InsertCdllFirstElement | src/data_structures/linked_lists/circular_doubly_linked_list/circular_doubly_linked_list_operations.py:81-100 | prepends between the tail and the old head, linked both ways; size +1 |
| CircularDoublyLinkedListOperations.InsertAfterHops | src/data_structures/linked_lists/circular_doubly_linked_list/circular_doubly_linked_list_operations.py:118-133 | the middle insertion enters only the forward ring: the new node's `prev` stays None and no `prev` link changes |
| CircularDoublyLinkedListOperations.InsertCdllNthElement | src/data_structures/linked_lists/circular_doubly_linked_list/circular_doubly_linked_list_operations.py:103-133 | IndexError and no change exactly outside 1..size+1; 1 prepends, size+1 appends, any other index puts the node at that position of the forward ring |
| CircularDoublyLinkedListOperations.DeleteCdllFirstElement | src/data_structures/linked_lists/circular_doubly_linked_list/circular_doubly_linked_list_operations.py:185-219 | None on an empty list; one node becomes empty; otherwise the second node becomes the head, taking over the old head's `prev`, the tail links forward to it, a single remainder links to None both ways, and a `Valid()` or doubly linked list stays so, as does a tail linked back to the node before it; after a stale tail the removed tail is relinked and the last linked node still links to the deleted head |
| CircularDoublyLinkedListOperations.DeleteCdllLastElement | src/data_structures/linked_lists/circular_doubly_linked_list/circular_doubly_linked_list_operations.py:222-270 | None on an empty list; otherwise the node `tail` names is unlinked through its own links, no other link changes and the size drops, but `tail` still names it, so a second call returns the same node again; the other nodes keep their ring exactly when the removed node sat between the second-to-last node and the head; when its `prev` is an earlier node of the ring, the ring ends at that node |
| CircularDoublyLinkedListOperations.DeletionsTrace | tests/test_linked_lists/test_circular_doubly_linked_list_operations.py:60-71 | the deletion test's sequence (delete the 2nd, the last, then the first of `one, two, three`) returns `two`, `three`, `one` and ends with size 0, the last call running on the stale tail |
| CircularDoublyLinkedListOperations.StaleBackLinkTrace | src/data_structures/linked_lists/circular_doubly_linked_list/circular_doubly_linked_list_operations.py:253-262 | after inserting 9 at position 3 of `1, 2, 3`, deleting the last node leaves size 3 but a forward ring `1, 2, 1`: the tail still linked back to 2, so 9 left the ring too |
| CircularDoublyLinkedListOperations.DeleteLastTwiceTrace | src/data_structures/linked_lists/circular_doubly_linked_list/circular_doubly_linked_list_operations.py:253-270 | removing the last node twice from `one, two, three` returns `three` both times, because the first call leaves `tail` on it; the size still drops to 1 |
| CircularDoublyLinkedListOperations.DeleteAfterHops | src/data_structures/linked_lists/circular_doubly_linked_list/circular_doubly_linked_list_operations.py:288-303 | the middle deletion links the predecessor forward past the node at `index`; no `prev` changes |
| CircularDoublyLinkedListOperations.DeleteCdllNthElement | src/data_structures/linked_lists/circular_doubly_linked_list/circular_doubly_linked_list_operations.py:273-303 | IndexError outside 1..size, on an empty list too; otherwise the node at `index` is returned and the size drops; it leaves the forward ring, and only it, unless it is the tail and the tail links back to an earlier node, in which case the link writes of `delete_cdll_last_element` are stated |
| CircularDoublyLinkedListOperations.InsertHandler | src/data_structures/linked_lists/circular_doubly_linked_list/circular_doubly_linked_list_operations.py:150-181 | one in-range handler of the batch insertion: the forward ring becomes `InsertAt` of the old one |
| CircularDoublyLinkedListOperations.InsertCdllMultipleElements | src/data_structures/linked_lists/circular_doubly_linked_list/circular_doubly_linked_list_operations.py:136-182 | ValueError exactly when there is no head; otherwise the payloads become `InsertMany` of the sorted handlers and the nodes returned hold the inserted elements |
| CircularDoublyLinkedListOperations.DeleteIndex | src/data_structures/linked_lists/circular_doubly_linked_list/circular_doubly_linked_list_operations.py:315-350 | one in-range index of the batch deletion: the node at it is returned and leaves the forward ring, except for a tail not linked back to the node before it; a head or middle deletion keeps the tail linked back unless it removes that node |
| CircularDoublyLinkedListOperations.DeleteCdllMultipleElements | src/data_structures/linked_lists/circular_doubly_linked_list/circular_doubly_linked_list_operations.py:306-351 | ValueError exactly when there is no head; otherwise the results, skipped indices and size are those of `DeleteMany` of the sorted indices, and so are the payloads whenever the tail is linked back to the node before it at each deletion of the tail (`TailStaysLinked`) |
| CircularDoublyLinkedListOperations.IncreasingIndicesKeepTail | src/data_structures/linked_lists/circular_doubly_linked_list/circular_doubly_linked_list_operations.py:306-351 | with strictly increasing indices on a list whose tail links back, the batch never deletes the tail through a stale `prev`: after removing the node the tail links back to, the next index exceeds the size |
| CircularDoublyLinkedListOperations.GetElementAtIndex | src/data_structures/linked_lists/circular_doubly_linked_list/circular_doubly_linked_list_operations.py:354-369 | None when uninitialized, IndexError outside 1..size, otherwise the node at `index` of the forward ring |
| CircularDoublyLinkedListOperations.ShallowClearDoublyLinkedList | src/data_structures/linked_lists/circular_doubly_linked_list/circular_doubly_linked_list_operations.py:372-389 | the tail, if any, links to None, and the list is empty and uninitialized |
| CircularDoublyLinkedListOperations.DeepClearDoublyLinkedList | src/data_structures/linked_lists/circular_doubly_linked_list/circular_doubly_linked_list_operations.py:392-412 | returns at once when uninitialized; otherwise every node's `next` becomes None and the list is empty; no `prev` changes |
| DoublyLinkedListOperations.InitializeDll | src/data_structures/linked_lists/doubly_linked_list/doubly_linked_list_operations.py:19-45 | the list becomes one fresh node, head and tail, size 1, initialized |
| DoublyLinkedListOperations.InsertDllElement | src/data_structures/linked_lists/doubly_linked_list/doubly_linked_list_operations.py:48-97 | appends: the new node links back to the old tail, which links to it, and becomes the tail; size +1; an uninitialized list is initialized instead |
| DoublyLinkedListOperations.InsertDllNthElement | src/data_structures/linked_lists/doubly_linked_list/doubly_linked_list_operations.py:100-150 | ValueError when uninitialized; no bounds check: the node goes in only after a node with a successor, landing at position `max(index, 2)` and never becoming head or tail; otherwise None and no change |
| DoublyLinkedListOperations.SpliceAfter | src/data_structures/linked_lists/doubly_linked_list/doubly_linked_list_operations.py:141-148 | the splice after a node with a successor links the new node to both neighbours, both ways, and adds 1 to the size |
| DoublyLinkedListOperations.GetElementAtIndex | src/data_structures/linked_lists/doubly_linked_list/doubly_linked_list_operations.py:249-293 | ValueError when uninitialized, None (no exception) outside 1..size, otherwise the node at `index` |
| DoublyLinkedListOperations.ShallowClearDll | src/data_structures/linked_lists/doubly_linked_list/doubly_linked_list_operations.py:296-322 | head and tail None, size 0, not initialized; no link touched |
| DoublyLinkedListOperations.DeepClearDll | src/data_structures/linked_lists/doubly_linked_list/doubly_linked_list_operations.py:325-360 | every formerly linked node has `prev` and `next` None, and the list is empty and uninitialized |
| DoublyLinkedListOperations.DeleteDllTailElement | src/data_structures/linked_lists/doubly_linked_list/doubly_linked_list_operations.py:363-412 | ValueError on an empty list; one node becomes empty; otherwise the tail's predecessor becomes the tail linking to None, and the removed node's links are None |
| DoublyLinkedListOperations.DeleteDllHeadElement | src/data_structures/linked_lists/doubly_linked_list/doubly_linked_list_operations.py:415-464 | ValueError on an empty list; one node becomes empty; otherwise the successor becomes the head and the removed node's links are None, but the new head's `prev` still points at it |
| DoublyLinkedListOperations.UnlinkNode | src/data_structures/linked_lists/doubly_linked_list/doubly_linked_list_operations.py:530-533 | the four link writes join the node's neighbours over it and set its own links to None |
| DoublyLinkedListOperations.DeleteDllNthElement | src/data_structures/linked_lists/doubly_linked_list/doubly_linked_list_operations.py:467-536 | ValueError on an empty list, IndexError outside 1..size; otherwise the node at `index` is returned, unlinked only when both its links are set (the tail and an ordinary head stay) |
| DoublyLinkedListOperations.LinkBatchNode | src/data_structures/linked_lists/doubly_linked_list/doubly_linked_list_operations.py:216-220 | the batch insertion's link writes in source order: the successor links back to the new node, whose `next`, read back through that link, is itself |
| DoublyLinkedListOperations.InsertDllMultipleElements | src/data_structures/linked_lists/doubly_linked_list/doubly_linked_list_operations.py:153-246 | ValueError when uninitialized; otherwise the skipped and inserted handlers are exactly `DoublyInsertScan` of the sorted handlers, the size grows by the number inserted, and the newest node links to itself |
| DoublyLinkedListOperations.DeleteDllMultipleElements | src/data_structures/linked_lists/doubly_linked_list/doubly_linked_list_operations.py:539-633 | ValueError on an empty list; otherwise the skipped and deleted handlers are exactly `DoublyDeleteScan` of the sorted handlers, at most one node is unlinked, and the size drops by the number deleted |
| DoublyBatchSemantics.DoublyInsertScanAccounts | src/data_structures/linked_lists/doubly_linked_list/doubly_linked_list_operations.py:204-244 | every handler of the batch insertion is skipped, inserted or passed over; the first insertion lands strictly before the tail; an index below 1 is always skipped |
| DoublyBatchSemantics.DoublyDeleteScanAccounts | src/data_structures/linked_lists/doubly_linked_list/doubly_linked_list_operations.py:592-631 | at most one handler is acted on, at a node with a successor, past the head unless its `prev` is stale; an index below 1 is always skipped |
| DoublyBatchSemantics.DeleteScanActs | src/data_structures/linked_lists/doubly_linked_list/doubly_linked_list_operations.py:592-631 | a finished batch deletion acted on exactly one handler when it recorded a position, on none otherwise |
| DoublyBatchSemantics.DoublyInsertDocumentedExample | src/data_structures/linked_lists/doubly_linked_list/doubly_linked_list_operations.py:176-184 | the documented example (one node, indices 1 and 2) inserts nothing and skips nothing, though its text says two nodes go in |
| DoublyBatchSemantics.DoublyInsertExample | src/data_structures/linked_lists/doubly_linked_list/doubly_linked_list_operations.py:204-244 | on three nodes, indices 2, 2 and 9: the first 2 is inserted after the second node (`at == 1`), the second after that new node because the cursor never moves back, and 9 is skipped |
| DoublyBatchSemantics.DoublyDeleteDocumentedExample | src/data_structures/linked_lists/doubly_linked_list/doubly_linked_list_operations.py:563-574 | the documented example (three nodes, indices 1 and 3) deletes nothing, though its text says two nodes go |
| DoublyBatchSemantics.DoublyDeleteExample | src/data_structures/linked_lists/doubly_linked_list/doubly_linked_list_operations.py:592-631 | on four nodes, indices 2, 3 and 7: 2 deletes the second node, 3 then does nothing, and 7 is skipped |
| NAryTreeOperations.CreateRoot | src/data_structures/trees/n_ary_trees/n_ary_tree_operations.py:5-33 | a new root with parent None and the given children list; flagged a root, and a parent exactly when the list is non-empty; each child names it as parent and keeps its children and every flag, and trees handed over as children become one well-formed tree |
| NAryTreeOperations.CreateRootWithChildrenDataList | src/data_structures/trees/n_ary_trees/n_ary_tree_operations.py:36-71 | a new root, always flagged root and parent, with one fresh childless child per truthy item, in order, each naming the root; the result is a well-formed tree |
| NAryTreeOperations.PresentFilter | src/data_structures/trees/n_ary_trees/n_ary_tree_operations.py:171-177 | when each optional node is present exactly for a truthy item and holds it, the nodes present hold exactly the truthy items in order |
| NAryTreeOperations.CreateRootWithChildrenNodesList | src/data_structures/trees/n_ary_trees/n_ary_tree_operations.py:74-108 | a new root, always flagged root and parent, taking every node of the list that is not None, in order, as a child that names it as parent and keeps its children and every flag; handed-over trees become one well-formed tree |
| NAryTreeOperations.NonNullKeeps | src/data_structures/trees/n_ary_trees/n_ary_tree_operations.py:102-106 | every node of the list that is not None becomes a child |
| NAryTreeOperations.LeavesWellFormed | src/data_structures/trees/n_ary_trees/n_ary_tree_operations.py:61-71 | a root over distinct childless nodes that name it as parent is a well-formed tree of exactly those nodes |
| NAryTreeOperations.AttachLeaf | src/data_structures/trees/n_ary_trees/n_ary_tree_operations.py:137-144 | the step of adding a child: a fresh childless node with every flag false, inserted at the index, names the parent, which is flagged a parent and keeps its own parent and other flags; a well-formed tree stays well formed and gains exactly that node |
| NAryTreeOperations.AddChildNode | src/data_structures/trees/n_ary_trees/n_ary_tree_operations.py:111-146 | ValueError exactly for a None parent; a falsy payload gives None and no change; otherwise a fresh childless node is appended last, names the parent, the parent is flagged, and the tree stays well formed with one node more; the parent's own parent and its other flags are unchanged |
| NAryTreeOperations.AddChildNodes | src/data_structures/trees/n_ary_trees/n_ary_tree_operations.py:149-177 | None exactly for an empty list; ValueError for a non-empty list and no parent; otherwise one entry per item, present exactly for the truthy ones, the new children holding the truthy items in order after the old children; the tree stays well formed with exactly the new nodes added; the parent's own parent and its other flags are unchanged |
| NAryTreeOperations.AddChildNodeAtIndex | src/data_structures/trees/n_ary_trees/n_ary_tree_operations.py:180-219 | ValueError exactly for a None parent; a new node only for a truthy payload and 0 <= index <= len(children), inserted at `index` with the old children around it in order, the parent's own parent and other flags unchanged; otherwise None and no change |
| NAryTreeOperations.AddChildNodesFromIndex | src/data_structures/trees/n_ary_trees/n_ary_tree_operations.py:222-269 | ValueError exactly for a None parent; for a non-empty list and 0 <= index <= len(children), one fresh node per item, truthy or not, filling positions index.. in input order between the old children, the parent's own parent and other flags unchanged; otherwise None and no change; the tree stays well formed |
| NAryTreeOperations.PreOrderTraversal | src/data_structures/trees/n_ary_trees/n_ary_tree_operations.py:272-301 | None for no root; otherwise the payloads in pre-order, each node before its children, appended to the list given |
| NAryTreeOperations.PostOrderTraversal | src/data_structures/trees/n_ary_trees/n_ary_tree_operations.py:304-332 | None for no root; otherwise the payloads in post-order, each node after its children, appended to the list given |
| NAryTreeOperations.LevelOrderTraversal | src/data_structures/trees/n_ary_trees/n_ary_tree_operations.py:335-367 | None for no root; otherwise the payloads in the order a first-in first-out queue of subtrees gives, appended to the list given |
| NAryTreeOperations.BreadthFirstSearch | src/data_structures/trees/n_ary_trees/n_ary_tree_operations.py:370-408 | None for no root; otherwise the first node in level order holding the target, or None |
| NAryTreeOperations.DepthFirstSearch | src/data_structures/trees/n_ary_trees/n_ary_tree_operations.py:411-447 | None for no root; otherwise the first node in pre-order holding the target, or None |
| NAryTreeOperations.RemoveTargetRemoves | src/data_structures/trees/n_ary_trees/n_ary_tree_operations.py:450-497 | a node is removed exactly when the root does not hold the target and some node does; it holds the target, and the tree keeps its root, loses exactly that node and draws no node twice; otherwise nothing changes |
| NAryTreeOperations.SearchAndRemoveNode | src/data_structures/trees/n_ary_trees/n_ary_tree_operations.py:450-497 | None for no root; otherwise the tree becomes `RemoveTarget` of it (the first pre-order match, never the root, detached with its children appended to its parent's), it stays well formed, the removed node has parent None and no children, and no node's flags change, `is_parent` included |
| NAryTreeOperations.Unlink | src/data_structures/trees/n_ary_trees/n_ary_tree_operations.py:478-494 | the relinking: the removed node's children name its parent, the parent's children lose the node and gain its children at the end, the node's own links are cleared, every other children list and parent link is as before, and no flag of any node changes |
| NAryTreeOperations.SetParents | src/data_structures/trees/n_ary_trees/n_ary_tree_operations.py:481-482 | each moved child names the new parent; no other parent, no children list and no flag changes |
| NAryTreeOperations.RemoveTargetsRemoves | src/data_structures/trees/n_ary_trees/n_ary_tree_operations.py:500-534 | removing several targets in turn removes distinct non-root nodes, at most one per target, each holding a target; the tree keeps its root and loses exactly those nodes |
| NAryTreeOperations.SearchAndRemoveNodes | src/data_structures/trees/n_ary_trees/n_ary_tree_operations.py:500-534 | None for no root or no targets; otherwise the tree becomes `RemoveTargets` of the targets, stays well formed, the removed nodes are returned in order (None if there are none), each ends unlinked, and no node's flags change |
| NAryTrees.FirstWithFinds | src/data_structures/trees/n_ary_trees/n_ary_tree_operations.py:389-447 | the first-match search finds a node exactly when one holds the target, and it is the earliest such node |
| NAryTrees.TraversalsVisitTheSameNodes | src/data_structures/trees/n_ary_trees/n_ary_tree_operations.py:272-367 | the three traversals visit every node of the tree, each as often as the others; pre-order and level order start at the root, post-order ends there |
| NAryTrees.PreOrderVisitsNodes | src/data_structures/trees/n_ary_trees/n_ary_tree_operations.py:272-301 | pre-order visits exactly the nodes of the tree |
| NAryTrees.PostOrderPermutesPreOrder | src/data_structures/trees/n_ary_trees/n_ary_tree_operations.py:304-332 | post-order is a permutation of pre-order |
| NAryTrees.LevelOrderPermutesPreOrderOf | src/data_structures/trees/n_ary_trees/n_ary_tree_operations.py:335-367 | level order over a queue is a permutation of the pre-orders of the queued trees |
| NAryTrees.SearchesAgree | src/data_structures/trees/n_ary_trees/n_ary_tree_operations.py:370-447 | depth-first and breadth-first search agree on whether the target is in the tree, and each finds a node holding it |
| NAryTrees.DetachRemovesNode | src/data_structures/trees/n_ary_trees/n_ary_tree_operations.py:478-494 | detaching a non-root node keeps the root, removes exactly that node, and still draws no node twice |
| NAryTrees.DetachKeepsLinks | src/data_structures/trees/n_ary_trees/n_ary_tree_operations.py:478-494 | relinking as the removal does leaves every children list and parent link consistent with the detached tree |
| NAryTrees.InsertLeafAddsNode | src/data_structures/trees/n_ary_trees/n_ary_tree_operations.py:137-139 | inserting a new leaf under a node keeps the root, adds exactly the leaf, and still draws no node twice |
| NAryTrees.InsertLeafKeepsLinks | src/data_structures/trees/n_ary_trees/n_ary_tree_operations.py:137-139 | relinking as a leaf insertion does leaves every link consistent with the tree that draws the new leaf |
| NAryTrees.IndexIn | src/data_structures/trees/n_ary_trees/n_ary_tree_operations.py:485 | the position `list.remove` finds: the first occurrence of the node, or the length when it is absent |

## Left out

- The records of `singly_circular_linked_list.py` have the same fields as those of `circular_singly_linked_list.py`, so the copy's operations run on the circular singly classes. The copy's import of the misspelled `SinglyCircluarLinkedList` (`singly_circular_linked_list_operations.py:1-4`), which would fail when the module is loaded, is not modelled.
- Passing None as a linked-list container, or as the handler or index list of a batch operation, is not modelled: those Dafny parameters are non-null. The tree operations take `TreeNode?` and model their None root and None parent paths. The model covers the `ValueError` and `IndexError` the code raises for uninitialized lists, out-of-range indices and a None tree parent.
- Exceptions that Python raises only by dereferencing None are preconditions instead.
- CircularSinglyLinkedListOperations.ShallowClearSinglyLinkedList: requires a tail, because the source reads `tail.next` unconditionally and fails on a list that never had one. The same holds for the copy's `ShallowClearSinglyLinkedList`.
- The `children_nodes is None` branches of the tree operations are not modelled. The children list is a non-null sequence; only a caller overwriting the field could make it None. This includes the BFS/DFS branch for a root without a list.
- Python truthiness of tree payloads is the parameter `truthy`; the model does not compute it.
- The traversals append to a list the caller passes and return that same list. The model returns `result` extended by the visited payloads and does not model the caller's list being the same object.
- Aliasing between lists and nodes across containers is not modelled: each operation works on one container whose nodes it owns. Likewise `create_root` stores the very list object its caller passed as the new root's children, so later changes through either name show in both; the model holds the children as a sequence value and does not capture that sharing.
- DoublyLinkedListOperations.InsertDllMultipleElements: states the accounting, the self-linked newest node and the links around the first insertion, not the full shape of what remains, because the self-link cuts the rest of the old chain off.
- DoublyLinkedListOperations.DeleteDllMultipleElements: states the accounting and the single node unlinked, not the shape of the list when that node was the head.
- CircularDoublyLinkedListOperations.DeleteCdllLastElement: with `tail` left on the removed node the list is at best `Chain()`, not `Valid()`. The list's nodes are stated only when the removed node sat between the second-to-last node and the head. A middle insertion or deletion does not update `prev`, so the tail can link back to an earlier node or to one already removed. The node unlinked is then not the last one: the ring ends at the tail's `prev`, or keeps the tail. For those inputs the contract states the two link writes, that no other link changes, the size and, when the `prev` is an earlier node of the ring, that the ring ends there. It does not give the new ring as the list's nodes, so no further operation is modelled on it.
- CircularDoublyLinkedListOperations.DeleteCdllNthElement and CircularDoublyLinkedListOperations.DeleteIndex: at index = size, the same holds. The remaining nodes are stated only when `TailLinkedBack()` held. Otherwise only the returned node, the size and the link writes are stated.
- CircularDoublyLinkedListOperations.DeleteCdllMultipleElements: the results, skipped indices and size are stated for every input, but the payloads only under `TailStaysLinked`. That excludes a deletion of the tail after a middle insertion left its `prev` stale, or after the same batch removed the node before it (a repeated index, as in `[4, 4]` on five nodes).
- CircularDoublyLinkedListOperations.DeleteCdllFirstElement: not affected. It writes through the head and `tail`, never through a stale `prev`.
- CircularDoublyLinkedListOperations.InsertCdllFirstElement, InsertCdllNthElement, DeleteCdllNthElement, InsertCdllMultipleElements, DeleteCdllMultipleElements and DeepClearDoublyLinkedList require `Valid()`, so they are not modelled on a list whose `tail` was left on a removed node by `delete_cdll_last_element`; only `InsertCdllElement`, `DeleteCdllFirstElement`, `DeleteCdllLastElement` and `GetElementAtIndex` are.
- DoublyLinkedListOperations: every operation requires `Valid()`, which a list no longer meets after `InsertDllMultipleElements` inserted (its newest node links to itself), after `DeleteDllMultipleElements` removed the head, or after `DeleteDllNthElement` at index 1 with a stale head `prev`; what those leave is stated field by field, but no further operation is modelled on it.
- `is_parent` is never cleared when a removal takes a parent's last child: `SearchAndRemoveNode`, `SearchAndRemoveNodes` and `Unlink` state that no flag of any node changes. `is_root` is set only on the new root the create operations build, and the children they adopt keep every flag. The `is_left`, `is_right` and `is_leaf` flags are stored but never written by any operation.
- NAryTreeOperations.SearchAndRemoveNode and NAryTreeOperations.SearchAndRemoveNodes: removal is modelled from a root with no parent only, since `WellFormed` draws the tree with `Parents(t, null)`. The code also accepts a subtree root that still has a parent, such as an old root adopted by `create_root_with_children_nodes_list`; a match on that root would then be removed from a parent outside the tree, which the model does not cover.
- NAryTreeOperations.AddChildNodesFromIndex: the `is_parent` write after the loop is folded into the first insertion, which already sets the flag. No other state depends on when it is set.
- `BinaryTreeNode` and `TernaryTreeNode` are records only; the repository has no operations on them.
- The unused `sll_node` and `dll_node` container fields are kept and shown unchanged by every operation. No operation reads them.
- The commented-out `sort_sll` in `singly_linked_list_operations.py` and the re-exports of `singly_linked_list/__init__.py` are not part of this model.
- Freeing memory behind the deep clears is not modelled; only the link writes are.
- Several assertions in the repository's tests disagree with the code. The contracts follow the code:
  - the singly append returns the node rather than True;
  - circular doubly lists are not self-linked;
  - on an empty circular doubly list, insertion at an index initializes the list and deletion at an index raises IndexError, where the tests expect ValueError;
  - on an empty circular singly list, and on its copy, insertion at index 1 initializes the list (`circular_singly_linked_list_operations.py:102-103` reaching `:80-81`), where `test_circular_singly_linked_list_operations.py:41-44` and `test_singly_circular_linked_list_operations.py:41-44` expect ValueError;
  - `add_child_nodes` keeps None entries for falsy items.
- The documented examples of the doubly batch operations disagree with the code. `DoublyInsertDocumentedExample` and `DoublyDeleteDocumentedExample` prove what the code does on them.
- SinglyCircularLinkedListOperations.TwinDeepClearStep: models the copy's deep-clear loop on a ring of node numbers rather than on the heap, because the loop does not terminate and so cannot be a Dafny method.

## Findings

| source | as written | input that shows it | evidently intended | confidence | as-written member | corrected member |
|---|---|---|---|---|---|---|
| src/data_structures/linked_lists/singly_circular_linked_list/singly_circular_linked_list_operations.py:373-381 | the deep-clear loop never decrements `size`, so for a size of two or more it points the tail at the cursor on every turn, re-closing the ring behind the cursor | a ring of two nodes: after one turn the tail links to itself and the cursor stays on it forever | decrement the size each turn, as `circular_singly_linked_list_operations.py:377` does, so the loop clears every link and ends | high (proved on every ring of two or more nodes; not executed) | SinglyCircularLinkedListOperations.TwinDeepClearNeverEnds | SinglyCircularLinkedListOperations.DeepClearSinglyLinkedList |
