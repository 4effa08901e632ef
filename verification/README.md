# FastRemovalQueue in Dafny

A model of Redisson's `FastRemovalQueue`. This is an ordered set of distinct
elements, oldest first, in which any element can be removed in constant time.
It pairs two structures:

- an **index**, a map from element to node;
- an intrusive **doubly linked list** of nodes, with `head` the oldest and `tail` the newest.

Every node carries its element, `prev` and `next` links, and a `deleted`
tombstone. The public operations are:

- `add`: append if absent;
- `moveToTail`: move a present element to the newest end;
- `remove`;
- `poll`: pop the oldest element;
- `clear`.

## Files

- `collections.dfy`, module `Collections`: `Option`, duplicate-freedom, and deleting a value from a sequence.
- `ordered_set.dfy`, module `OrderedSet`: the abstract behaviour as functions on `seq<E>`. This is the reference that the linked structure refines.
- `linked_list.dfy`, module `LinkedList`: the nested classes `Node` and `DoublyLinkedList`.
  - Object references become handles into an arena `map<Handle, Node<E>>`, and `null` becomes `None`.
  - The chain of linked handles, head first, is a ghost sequence tied to the pointers by `Links`.
  - Each list method is one sequential step, as it runs under the list lock. Each returns the new list value and states the chain it leaves.
- `fast_removal_queue.dfy`, module `FastRemovalQueue`: the facade.
  - `Valid` says that some chain `Tracks` the queue: the list links that chain, and the index maps each linked element to its node and nothing else.
  - `Elems` reads the elements along the chain.
  - Each facade method is its index step and its list step, in the source's order (for `poll`, the list step comes first). Each is proved to act on `Elems` exactly as the matching `OrderedSet` function (`new` and `clear`: `Elems` becomes empty).
- `scenarios.dfy`, module `Scenarios`: consequences over several calls.
  - FIFO draining.
  - Fixed call sequences: add A, B, C, move A to the tail, then poll; add A and B, remove A, then poll; add A twice, then poll.
  - The state after `clear`.
  - The interleaving of `poll` and `remove` that the tombstone guards against.

Notes on the code (all lines of `FastRemovalQueue.java`):

- The tombstone is set only by `DoublyLinkedList.remove` (line 116) and `removeFirst` (line 159).
- `moveToTail` (lines 138-146) never sets the tombstone and never checks it.
- `removeFirst` (lines 148-163) does not check the tombstone either.
- The `head == tail` branch of `removeFirst` (line 151) covers the one-node list and also the empty list.

## Model

| member | source | states |
|---|---|---|
| Collections.WithoutAt | redisson/src/main/java/org/redisson/cache/FastRemovalQueue.java:121-136 | In a duplicate-free sequence, deleting a value is the same as cutting out the one position that holds it. This is what unlinking a single node does to the chain. |
| OrderedSet.AddKeepsNoDup | redisson/src/main/java/org/redisson/cache/FastRemovalQueue.java:20-25 | Abstract `add` keeps the elements distinct and leaves the added element present. |
| OrderedSet.MoveToTailKeepsNoDup | redisson/src/main/java/org/redisson/cache/FastRemovalQueue.java:27-34 | Abstract `moveToTail` keeps the elements distinct. |
| OrderedSet.RemoveKeepsNoDup | redisson/src/main/java/org/redisson/cache/FastRemovalQueue.java:36-42 | Abstract `remove` keeps the elements distinct and leaves the removed element absent. |
| OrderedSet.PollKeepsNoDup | redisson/src/main/java/org/redisson/cache/FastRemovalQueue.java:44-51 | Abstract `poll` keeps the elements distinct. |
| OrderedSet.AddAllDistinct | redisson/src/main/java/org/redisson/cache/FastRemovalQueue.java:20-25 | Adding distinct elements one by one to an empty queue yields them in the order they were added. |
| OrderedSet.AddAllPresent | redisson/src/main/java/org/redisson/cache/FastRemovalQueue.java:20-25 | Adding elements that are already present, in any number and order, changes nothing. |
| LinkedList.ChainsAgree | redisson/src/main/java/org/redisson/cache/FastRemovalQueue.java:79-80 | Two chains that both match the same `head` and `next` pointers agree position by position. |
| LinkedList.ChainUnique | redisson/src/main/java/org/redisson/cache/FastRemovalQueue.java:79-80 | The pointers determine the chain: at most one handle sequence is linked by a given list. |
| LinkedList.ForwardAlong | redisson/src/main/java/org/redisson/cache/FastRemovalQueue.java:58-62 | Following `next` k times from a linked node reaches the node k places later in the chain. |
| LinkedList.BackwardAlong | redisson/src/main/java/org/redisson/cache/FastRemovalQueue.java:58-62 | Following `prev` k times from a linked node reaches the node k places earlier in the chain. |
| LinkedList.PrevInvertsNext | redisson/src/main/java/org/redisson/cache/FastRemovalQueue.java:58-62 | On linked nodes, `prev` is the inverse of `next` in both directions, and neither leaves the chain. |
| LinkedList.WellFormed | redisson/src/main/java/org/redisson/cache/FastRemovalQueue.java:77-80 | The list is empty exactly when `head` is null, and exactly when `tail` is null. Otherwise `head.prev` and `tail.next` are null, walking `next` from `head` reaches `tail`, and walking `prev` from `tail` reaches `head`. |
| LinkedList.LinkedLive | redisson/src/main/java/org/redisson/cache/FastRemovalQueue.java:58-75 | No node in the chain carries the tombstone. |
| LinkedList.Clear | redisson/src/main/java/org/redisson/cache/FastRemovalQueue.java:85-90 | `clear` leaves an empty, well-linked list. No node record changes, so nothing is tombstoned. |
| LinkedList.AddNode | redisson/src/main/java/org/redisson/cache/FastRemovalQueue.java:92-107 | Appending a fresh node extends the chain by that node, which becomes `tail`. No element or tombstone changes. |
| LinkedList.Bypass | redisson/src/main/java/org/redisson/cache/FastRemovalQueue.java:121-136 | Rewiring around a node changes only the two neighbours' facing links, or `head`/`tail` when a neighbour is missing. Nothing else changes. |
| LinkedList.BypassCuts | redisson/src/main/java/org/redisson/cache/FastRemovalQueue.java:121-136 | Rewiring around the node at position k leaves a well-linked chain with position k cut out. The bypassed node's own record is untouched. |
| LinkedList.CutLinks | redisson/src/main/java/org/redisson/cache/FastRemovalQueue.java:121-136 | If only the neighbours and the ends are rewired around position k, the list links the chain with k removed. |
| LinkedList.RemoveNode | redisson/src/main/java/org/redisson/cache/FastRemovalQueue.java:121-136 | Unlinking a linked node removes exactly that node from the chain, keeping the others in order. `head` or `tail` moves when the node was an end. The node keeps its stale links and is not tombstoned. |
| LinkedList.Remove | redisson/src/main/java/org/redisson/cache/FastRemovalQueue.java:109-119 | On a tombstoned node, `remove` returns false and changes nothing. On a live, linked node, it returns true, removes the node from the chain and tombstones it, and touches no other tombstone. |
| LinkedList.MoveToTail | redisson/src/main/java/org/redisson/cache/FastRemovalQueue.java:138-146 | The same node leaves its place and becomes `tail`. The other nodes keep their order, and the node stays live. |
| LinkedList.RemoveFirst | redisson/src/main/java/org/redisson/cache/FastRemovalQueue.java:148-163 | On an empty list, `removeFirst` returns null and changes nothing. Otherwise it returns the first node, tombstoned, and the list holds the rest of the chain. |
| FastRemovalQueue.ChainIs | redisson/src/main/java/org/redisson/cache/FastRemovalQueue.java:17-18 | Any chain that keeps index and list in step is the queue's chain: the abstraction is determined by the state. |
| FastRemovalQueue.IndexMatchesChain | redisson/src/main/java/org/redisson/cache/FastRemovalQueue.java:17-18 | The index's keys are exactly the linked elements. Each key maps to the node at that element's position. No element is linked twice. |
| FastRemovalQueue.AppendTracks | redisson/src/main/java/org/redisson/cache/FastRemovalQueue.java:20-25 | Indexing an absent element at a new node and appending that node keeps index and chain in step, and appends the element. |
| FastRemovalQueue.DropTracks | redisson/src/main/java/org/redisson/cache/FastRemovalQueue.java:36-42 | Unindexing an element and unlinking its node keeps index and chain in step. |
| FastRemovalQueue.PollStep | redisson/src/main/java/org/redisson/cache/FastRemovalQueue.java:44-51 | Unlinking the first node and unindexing its element leaves a valid queue holding all elements but the first. The element returned is the first. |
| FastRemovalQueue.MoveTracks | redisson/src/main/java/org/redisson/cache/FastRemovalQueue.java:27-34 | Moving a node to the end of the chain, with the index unchanged, keeps index and chain in step. |
| FastRemovalQueue.New | redisson/src/main/java/org/redisson/cache/FastRemovalQueue.java:17-18 | A new queue is valid and empty. |
| FastRemovalQueue.Add | redisson/src/main/java/org/redisson/cache/FastRemovalQueue.java:20-25 | `add` appends an absent element, or leaves the queue exactly as it was when the element is present. Afterwards the element is indexed, and validity is kept. |
| FastRemovalQueue.MoveToTail | redisson/src/main/java/org/redisson/cache/FastRemovalQueue.java:27-34 | `moveToTail` returns true exactly when the element is present. It then moves the element last, keeping the others in order, and the index is untouched. An absent element changes nothing. |
| FastRemovalQueue.Remove | redisson/src/main/java/org/redisson/cache/FastRemovalQueue.java:36-42 | `remove` returns true exactly when the element is present. It drops the element from both index and order and tombstones its node. An absent element changes nothing. |
| FastRemovalQueue.RemoveKeepsOthers | redisson/src/main/java/org/redisson/cache/FastRemovalQueue.java:36-42 | Removing one element leaves every other indexed element indexed: `remove` unindexes only its own element. |
| FastRemovalQueue.Poll | redisson/src/main/java/org/redisson/cache/FastRemovalQueue.java:44-51 | `poll` pops the oldest element and unindexes it. It returns null, changing nothing, exactly when the queue is empty. |
| FastRemovalQueue.Clear | redisson/src/main/java/org/redisson/cache/FastRemovalQueue.java:53-56 | `clear` leaves a valid queue with no elements and an empty index. The nodes are not tombstoned. |
| Scenarios.AddEach | redisson/src/main/java/org/redisson/cache/FastRemovalQueue.java:20-25 | A run of `add` calls acts as the abstract run of appends-if-absent. |
| Scenarios.Drain | redisson/src/main/java/org/redisson/cache/FastRemovalQueue.java:44-51 | Polling until null yields every element, oldest first, and leaves the queue empty. |
| Scenarios.AddAllThenDrain | redisson/src/main/java/org/redisson/cache/FastRemovalQueue.java:20-51 | FIFO: adds followed by polls return the elements in first-added order, without repeats. Distinct elements come back in exactly the order they were added. |
| Scenarios.AbstractMoveToTail | redisson/src/main/java/org/redisson/cache/FastRemovalQueue.java:27-34 | Abstractly, after A, B and C are added, moving A to the tail gives B, C, A. |
| Scenarios.MoveToTailOrder | redisson/src/main/java/org/redisson/cache/FastRemovalQueue.java:20-51 | add A, B, C; moveToTail A; then polls return B, C, A and null. |
| Scenarios.RemoveThenPoll | redisson/src/main/java/org/redisson/cache/FastRemovalQueue.java:20-51 | add A, B; remove A reports true; then polls return B and null. |
| Scenarios.AddTwice | redisson/src/main/java/org/redisson/cache/FastRemovalQueue.java:20-25 | An element added twice is queued once: polls return it and then null. |
| Scenarios.RemoveTwice | redisson/src/main/java/org/redisson/cache/FastRemovalQueue.java:36-42 | A second `remove` of the same element returns false and leaves the result of the first. |
| Scenarios.ClearForgets | redisson/src/main/java/org/redisson/cache/FastRemovalQueue.java:27-56 | After `clear`, `remove` and `moveToTail` of any element return false, and `poll` returns null. |
| Scenarios.PollRacesRemove | redisson/src/main/java/org/redisson/cache/FastRemovalQueue.java:36-51 | In this interleaving, `poll` unlinks and tombstones the head first. The `remove` of that element then finds the tombstone, and its list step returns false and changes nothing. `poll` still returns the head, and the end state is that of a plain `poll`. |

## Left out

- Concurrency: `WrappedLock` and `ConcurrentHashMap` internals are not modelled. Each list method is one atomic step, and each facade method is the sequential composition of its index step and its list step, in the source's order (for `poll`, the list step comes first). The only interleaving modelled is `Scenarios.PollRacesRemove`.
- LinkedList.MoveToTail: requires a live, linked node. The source does not check the tombstone here. When `moveToTail` races a `remove` or `poll` of the same element, it can reach an already-unlinked node; that case is not modelled. Sequentially, the facade always passes a node found through the index, and such a node is linked.
- LinkedList.AddNode: requires a node of the arena that is not linked, live, and has null links. The source assumes this of its callers: a freshly constructed node, or the moved node after `moveToTail` clears its links.
- LinkedList.RemoveFirst: states nothing about the links left on the removed node. They are stale, and nothing reaches the node through the list afterwards.
- FastRemovalQueue.Add: when the element is already present, the source allocates a candidate node and discards it. The model allocates nothing in that case, since that node is never reachable.
- Garbage collection: handles are never reused and the arena never shrinks. Nodes unlinked by `remove`, `poll` or `clear` stay in it.
- Java `null`: elements cannot be null. A null node reference or result is `None`. Element equality is Dafny equality, not `equals`/`hashCode`.
- `Node.setDeleted` and `Node.isDeleted` are reads and updates of the `deleted` field, not separate members.
