# Concurrent containers and a tournament-tree mutex, modelled sequentially

This project models the core data structures of the `concurrent-computing`
repository in Dafny:

- `StripedHashSet` (`hash_set.h`), in module `StripedHashSets` (`hash_set.dfy`).
  It is a chained hash set whose bucket vector grows by `growth_factor` once the
  integer load `size / buckets` exceeds `max_load_factor`.
- `OptimisticLinkedSet` (`optimistic_list.h`), in module `OptimisticLists`
  (`optimistic_list.dfy`). It is a sorted singly-linked set between a `Min()` head
  sentinel and a `Max()` tail sentinel. `Locate` walks the list, and `Validate`
  checks the two nodes it returns.
- `SPSCRingBuffer` (`spsc_ring_buffer.h`), in module `SpscRingBuffers`
  (`spsc_ring_buffer.dfy`). It is a ring of `capacity + 1` slots that always keeps
  one slot free.
- `BlockingQueue` (`blocking_queue.h`), in module `BlockingQueues`
  (`blocking_queue.dfy`). It is a bounded FIFO queue with a shutdown flag.
- `TreeMutex` (`tree_mutex.cpp`), in module `TreeMutexes` (`tree_mutex.dfy`). It is
  a heap-ordered tree of two-thread Peterson locks. `lock` climbs from leaf
  `size + id` to the root, and `unlock` walks back down, steering by the bits of `id`.

Every structure is modelled for one thread, on plain fields. The hash set, the list,
the ring buffer and the queue are classes whose fields their methods update in place.
`TreeMutex` keeps only its constant size; its Peterson locks are replaced by the
trace of calls made into them. The locks, atomics and memory orders that make the
structures safe under concurrency are absent.

Each class keeps an invariant `Valid()` that every method preserves:

- The hash set's invariant:
  - every element sits exactly once, in bucket `hash % buckets`;
  - `size` counts the entries;
  - the load stays below the bound that the integer check implies.
- The list's invariant:
  - a linked, unmarked chain from the head to the tail sentinel;
  - elements strictly increasing past the head;
  - `size` counts the nodes between the sentinels.
- The two queues use a ghost history: what was taken out, followed by what is
  still stored, is exactly what was put in (first in, first out).

`TreeMutex::lock` and `unlock` return the trace of the Peterson-lock calls they make.
The lemmas about those traces show that:

- `unlock` releases exactly the locks `lock` took, in the reverse order and with
  the same sides;
- every lock on the path lies inside the tree;
- the climb reaches the root after `levels` steps.

Integers are unbounded. The one place where `size_t` wrap-around is modelled is
the `Remove` finding below, where it is written out explicitly. The other places
where it could occur are listed under "Left out".

Where the design description and the code differ, the model follows the code:

- The design says the sentinels are never removed. The code's `Remove(Max())`
  removes the tail sentinel. This is recorded under Findings, and `Remove` is
  modelled with the guard the design intends.
- The design says `Contains` reports membership. For the maximum, the code's
  `Contains` reports true, because `Locate` stops at the tail sentinel, which
  holds `Max()`. This is the second row under Findings:
  `OptimisticLists.OptimisticLinkedSet.ContainsAsWritten` keeps the code's answer,
  and `OptimisticLists.OptimisticLinkedSet.Contains` reports `Max()` absent.
- For the same reason, `Insert(Max())` reports false and changes nothing. The
  maximum is never an element, so this already agrees with set semantics and
  needs no correction.
- The design says the list is strictly increasing from the head sentinel on, and
  that the sentinels lie below and above every real element. The code lets
  `Min()` itself be inserted: `Locate(Min())` stops at the head and its
  successor (optimistic_list.h:123-125), so `Insert(Min())` links a second node
  holding `Min()` right after the head sentinel (optimistic_list.h:79-81). The
  model follows the code and treats `Min()` as an ordinary element. The order
  invariant therefore starts after the head, and the head sentinel may equal the
  first real element. Set semantics still hold, as
  `OptimisticLists.MinIsAnElement` shows: `Min()` can be inserted, found and
  removed like any other element. No Findings row is recorded for this.
- The hash set's load check compares against the truncated integer quotient
  `size / buckets`, as the code does.

## Model

| member | source | states |
|---|---|---|
| TreeMutexes.GetBit | tree_mutex.cpp:99-101 | `get_bit` is 0 or 1, and is 1 exactly when `n & mask` is non-zero |
| TreeMutexes.GetBitOfPowerOfTwo | tree_mutex.cpp:99-101 | with a mask of `2^j`, `get_bit` reads binary digit `j` of `n` |
| TreeMutexes.Other | tree_mutex.cpp:62-64 | the other side of a two-thread lock is a side (0 or 1) different from `id` |
| TreeMutexes.TreeMutex.TreeSize | tree_mutex.cpp:90-97 | `size + 1` is a power of two `2^levels`, with `levels >= 1`, that is at least `nThreads`, and it is the smallest such (`2^(levels-1) < nThreads` unless `levels == 1`) |
| TreeMutexes.TreeMutex.constructor | tree_mutex.cpp:66 | the tree holds `2^levels - 1` locks, enough leaves for `nThreads` threads and no more than twice what is needed |
| TreeMutexes.TreeMutex.Lock | tree_mutex.cpp:68-76 | on a valid tree (`size >= 1`, so the do-while and a test-first loop agree), thread `id` makes exactly the calls of the upward walk `Climb(size + id)` from its leaf |
| TreeMutexes.ClimbStep | tree_mutex.cpp:71-75 | one iteration of the `lock` loop moves the next call of the walk into the trace |
| TreeMutexes.ClimbShape | tree_mutex.cpp:68-76 | the walk up from node `m` starts at its parent, climbs strictly, ends at the root 0, and uses sides 0 and 1 only |
| TreeMutexes.ClimbLength | tree_mutex.cpp:68-76 | from a leaf of a tree of depth `d`, the walk up takes exactly `d` steps |
| TreeMutexes.LockShape | tree_mutex.cpp:68-76 | `lock` on a tree of depth `d` takes `d` locks, ends at the root, climbs strictly, and every lock it touches lies in the tree (`< size`) |
| TreeMutexes.TreeMutex.Unlock | tree_mutex.cpp:78-88 | thread `id` makes exactly the calls of the downward walk `Descend(levels, id)`, steered by the bits of `id` from the highest down |
| TreeMutexes.DescendStep | tree_mutex.cpp:83-87 | one iteration of the `unlock` loop: the bit `get_bit(id, mask)` selects the child, and the mask halves down to 0 after the last level |
| TreeMutexes.DescendShape | tree_mutex.cpp:78-88 | the walk down a tree of depth `d` makes `d` calls, each on a lock inside the tree, with side 0 or 1 |
| TreeMutexes.ClimbIsReversedDescend | tree_mutex.cpp:79 | the path restored from the bits of the thread number is the path `lock` climbed, reversed |
| TreeMutexes.UnlockMirrorsLock | tree_mutex.cpp:68-88 | `unlock(id)`'s calls, reversed, are `lock(id)`'s calls: `levels` calls, all on locks inside the tree |
| TreeMutexes.ReversedSameCalls | tree_mutex.cpp:68-88 | reversing a trace keeps the same multiset of (lock, side) calls, so `unlock` releases each acquired lock once |
| SpscRingBuffers.Occupied | spsc_ring_buffer.h:42-48 | the number of stored elements between `head` and `tail` is below the slot count, is 0 exactly when they are equal, and `head + count` reaches `tail` modulo the slot count |
| SpscRingBuffers.Window | spsc_ring_buffer.h:55-57 | the stored elements, read from `head` to `tail` with wrap-around, number exactly `Occupied` |
| SpscRingBuffers.WindowPush | spsc_ring_buffer.h:23-24 | writing slot `tail` and advancing `tail` appends the element at the back of the stored sequence |
| SpscRingBuffers.WindowPop | spsc_ring_buffer.h:36-37 | slot `head` holds the front element, and advancing `head` drops exactly that element |
| SpscRingBuffers.SPSCRingBuffer.Next | spsc_ring_buffer.h:50-52 | the next slot is a slot, wrapping from the last slot to 0 |
| SpscRingBuffers.SPSCRingBuffer.Full | spsc_ring_buffer.h:42-44 | `Full` holds exactly when `capacity` elements are stored |
| SpscRingBuffers.SPSCRingBuffer.Empty | spsc_ring_buffer.h:46-48 | `Empty` holds exactly when no element is stored |
| SpscRingBuffers.SPSCRingBuffer.WithinCapacity | spsc_ring_buffer.h:11-13 | a buffer never stores more than `capacity` elements |
| SpscRingBuffers.SPSCRingBuffer.constructor | spsc_ring_buffer.h:11-13 | `capacity + 1` slots, empty |
| SpscRingBuffers.SPSCRingBuffer.Publish | spsc_ring_buffer.h:15-26 | reports true exactly when the buffer was not full; it then appends the element (FIFO history extended) and writes only slot `tail`; otherwise nothing changes |
| SpscRingBuffers.SPSCRingBuffer.Consume | spsc_ring_buffer.h:28-39 | reports true exactly when the buffer was not empty; it then hands back the oldest element and drops it; otherwise `element` is left as it was |
| BlockingQueues.BlockingQueue.constructor | blocking_queue.h:26-28 | an empty queue of the given capacity, not shut down |
| BlockingQueues.BlockingQueue.Put | blocking_queue.h:30-39 | after a shutdown it throws `ShutdownQueueException` and changes nothing; otherwise it appends at the back; the queue never exceeds its capacity |
| BlockingQueues.BlockingQueue.Get | blocking_queue.h:41-52 | reports true exactly when the queue was non-empty, even after a shutdown; it then returns and removes the front element (FIFO); otherwise `result` is untouched |
| BlockingQueues.BlockingQueue.Shutdown | blocking_queue.h:54-60 | sets the flag and leaves the contents as they were |
| StripedHashSets.WithoutRemoves | hash_set.h:122 | `forward_list::remove(x)` keeps exactly the values other than `x`, changes nothing when `x` is absent, and drops one entry when `x` was there once |
| StripedHashSets.PushKeepsTable | hash_set.h:106-107 | pushing a new element onto its own bucket keeps every element once in its bucket, adds the element and adds one entry |
| StripedHashSets.RemoveKeepsTable | hash_set.h:122 | removing from its own bucket keeps every element once in its bucket |
| StripedHashSets.RemoveDropsElement | hash_set.h:122-123 | removing a present element from its bucket removes it from the set and drops exactly one entry, matching `--size_` |
| StripedHashSets.WellPlacedDisjoint | hash_set.h:69 | since each element sits in bucket `hash % buckets`, no element is in two buckets |
| StripedHashSets.DisjointCount | hash_set.h:65 | when buckets are disjoint and duplicate-free, the number of entries is the number of distinct elements |
| StripedHashSets.CountIsCardinality | hash_set.h:65 | in a well-formed table, `size_` (the entry count) is the number of elements |
| StripedHashSets.LoadBound | hash_set.h:101-105 | passing the integer load check gives `size + 1 <= (maxLoad + 1) * buckets` after the insert |
| StripedHashSets.OverLoaded | hash_set.h:101 | failing the load check means `size >= buckets`, so growing by a factor of at least 2 is what the retry needs |
| StripedHashSets.StripedHashSet.constructor | hash_set.h:80-89 | an empty set with `concurrency_level` buckets and stripes and the given factors |
| StripedHashSets.StripedHashSet.BucketIndex | hash_set.h:69 | the bucket index is a valid bucket |
| StripedHashSets.StripedHashSet.StripeIndex | hash_set.h:70 | the stripe index is a valid stripe |
| StripedHashSets.StripedHashSet.CheckForElem | hash_set.h:138-144 | searching the element's own bucket finds it exactly when it is in the set |
| StripedHashSets.StripedHashSet.InItsBucket | hash_set.h:138-144 | an element is in the set exactly when it is in bucket `hash % buckets` |
| StripedHashSets.StripedHashSet.Size | hash_set.h:65 | `size_` is the number of elements |
| StripedHashSets.StripedHashSet.Contains | hash_set.h:128-136 | reports exactly whether the element is in the set |
| StripedHashSets.StripedHashSet.Insert | hash_set.h:91-110 | reports true exactly when the element was absent; the set gains the element and `size` grows by one exactly then; a present element changes nothing; without a resize, only its bucket changes, by a push at the front; an overloaded table is first rehashed to at least `growthFactor` times the buckets, which keeps the load bound |
| StripedHashSets.StripedHashSet.PushFront | hash_set.h:106-107 | the element goes onto the front of its bucket, nothing else changes, and `size` grows by one |
| StripedHashSets.StripedHashSet.Remove | hash_set.h:112-126 | reports true exactly when the element was present; the set loses it, `size` drops by one exactly then, and only its bucket changes |
| StripedHashSets.StripedHashSet.Rehash | hash_set.h:146-164 | a fresh table `growthFactor` times larger, holding the same elements and count, each in bucket `hash % new_size`; with a growth factor of at least 2 the bucket count at least doubles |
| StripedHashSets.StripedHashSet.MoveBucket | hash_set.h:153-159 | moving one old bucket adds exactly its elements and entries to the new table, keeping each in its bucket |
| StripedHashSets.StripedHashSet.BucketIsNew | hash_set.h:153-159 | each old bucket's entries are distinct and appear in no earlier bucket, so moving them never duplicates |
| OptimisticLists.Node.constructor | optimistic_list.h:51 | a node holds its element and successor and starts unmarked |
| OptimisticLists.OptimisticLinkedSet.constructor | optimistic_list.h:64-68 | the new set is valid, empty and of size 0, and every node it owns is newly allocated, so its creator may go on to change it |
| OptimisticLists.OptimisticLinkedSet.CreateEmptyList | optimistic_list.h:118-121 | a fresh head sentinel `Min()` links to a fresh tail sentinel `Max()`, these two are the set's nodes, and the set is empty |
| OptimisticLists.OptimisticLinkedSet.Validate | optimistic_list.h:132-136 | `Validate` holds when neither node is marked and `pred` still links to `curr`; its meaning on a valid list is stated by `ValidateIffAdjacent` |
| OptimisticLists.OptimisticLinkedSet.ValidateIffAdjacent | optimistic_list.h:132-136 | on a valid list, `Validate` holds exactly when `curr` is the node right after `pred` |
| OptimisticLists.OptimisticLinkedSet.Locate | optimistic_list.h:123-130 | returns adjacent nodes `pred`, `curr` with every element up to `pred` (past the head) below `element` and `element <= curr.element`; `Validate` holds on the result |
| OptimisticLists.OptimisticLinkedSet.LocatedIsOnly | optimistic_list.h:123-130 | an element is in the set exactly when the node `Locate` stops at holds it and is not the tail |
| OptimisticLists.OptimisticLinkedSet.MaxIsNoElement | optimistic_list.h:7-15 | `Max()`, held by the tail sentinel, is never an element of a valid list |
| OptimisticLists.OptimisticLinkedSet.Insert | optimistic_list.h:70-87 | reports true exactly when the element was absent and is not `Max()`; the set then gains it in a newly allocated node and `size` grows by one; otherwise the list and its nodes are unchanged; no node's mark changes |
| OptimisticLists.OptimisticLinkedSet.LinkAfter | optimistic_list.h:79-83 | a newly allocated node is spliced between the adjacent pair and joins the set's nodes, the list stays sorted and linked, `size` grows by one, and no node's mark changes |
| OptimisticLists.OptimisticLinkedSet.LinkedValid | optimistic_list.h:79-83 | the list after the splice satisfies the invariant and holds one more element |
| OptimisticLists.LinkIn | optimistic_list.h:80-81 | after the splice, every node links to the next one and the tail links to nothing |
| OptimisticLists.OrderIn | optimistic_list.h:79-81 | a node whose element lies between its neighbours keeps the elements strictly increasing and distinct |
| OptimisticLists.KeepIn | optimistic_list.h:79-81 | the splice keeps the head and tail sentinels |
| OptimisticLists.UnmarkedIn | optimistic_list.h:79 | a fresh, unmarked node keeps every node of the list unmarked |
| OptimisticLists.ValuesIn | optimistic_list.h:79-81 | the splice adds exactly the new element to the set |
| OptimisticLists.OptimisticLinkedSet.Remove | optimistic_list.h:89-105 | reports true exactly when the element was present; its node is then marked and unlinked and `size` drops by one; `Max()` and absent elements leave the list unchanged; a marked node stays marked, and only the node holding the removed element can become marked |
| OptimisticLists.OptimisticLinkedSet.RemoveAsWritten | optimistic_list.h:89-105 | as written, `Remove(Max())` reports true, marks the tail sentinel and leaves its predecessor linked to nothing; on an empty set `head_->next_` becomes null and `size_` wraps to `SIZE_MAX` |
| OptimisticLists.OptimisticLinkedSet.Unlink | optimistic_list.h:98-100 | the node is marked and bypassed, the set loses its element, `size` drops by one, and no other node's mark changes |
| OptimisticLists.OptimisticLinkedSet.UnlinkedValid | optimistic_list.h:98-100 | the list after the unlink satisfies the invariant and holds one element fewer |
| OptimisticLists.LinkOut | optimistic_list.h:99 | after the bypass, every remaining node links to the next one |
| OptimisticLists.OrderOut | optimistic_list.h:99 | removing a node keeps the elements strictly increasing and distinct |
| OptimisticLists.KeepOut | optimistic_list.h:98-99 | removing an inner node keeps the head and tail sentinels |
| OptimisticLists.UnmarkedOut | optimistic_list.h:98 | when the removed node is the only marked one, every node left in the list is unmarked |
| OptimisticLists.ValuesOut | optimistic_list.h:98-99 | the unlink removes exactly the removed node's element from the set |
| OptimisticLists.ValuesCount | optimistic_list.h:113-115 | strictly increasing nodes hold as many distinct elements as there are nodes, so the count of nodes between the sentinels is the number of elements |
| OptimisticLists.OptimisticLinkedSet.Contains | optimistic_list.h:107-111 | reports true exactly for the set's elements; `Max()`, the tail sentinel, is reported absent |
| OptimisticLists.OptimisticLinkedSet.ContainsAsWritten | optimistic_list.h:107-111 | as written, reports true exactly for the set's elements and for `Max()` (the tail sentinel) |
| OptimisticLists.MaxOnNewSet | optimistic_list.h:107-111 | on a new, empty set, `Contains(Max())` as written reports true, and the corrected `Contains` reports false |
| OptimisticLists.MinIsAnElement | optimistic_list.h:70-111 | on a new set, `Insert(Min())`, then `Contains(Min())`, then `Remove(Min())` all report true |
| OptimisticLists.InsertTwiceRemoveTwice | optimistic_list.h:70-105 | on a new set, `Insert(e)` twice reports true then false, and `Remove(e)` twice then reports true then false (all false for `Max()`) |
| OptimisticLists.OptimisticLinkedSet.Size | optimistic_list.h:113-115 | `size_` is the number of elements |

## Left out

- Synchronisation is not modelled; every operation runs alone on plain fields. This covers:
  - the stripe locks (`RWLock`, `hash_set.h:11-54`);
  - the node spin locks (`SpinLock`, `optimistic_list.h:17-40`);
  - the Peterson locks' internals (`tree_mutex.cpp:50-60`);
  - the atomics and memory orders of the ring buffer;
  - the blocking queue's mutex and condition variables.
- BlockingQueues.BlockingQueue.Put and BlockingQueues.BlockingQueue.Get: a call that would block forever on its own is not modelled. The condition each `wait` blocks on is a precondition instead.
- OptimisticLists.OptimisticLinkedSet.Insert and OptimisticLists.OptimisticLinkedSet.Remove: the retry loop is left out. With one thread, `Validate` always holds on what `Locate` returns (`Locate`'s postcondition), so the loop body runs once.
- StripedHashSets.StripedHashSet.constructor: `growth_factor` and `max_load_factor` are `double`s in the source. The model uses natural numbers and requires `growthFactor >= 2`, so a fractional factor such as 1.5 is not modelled. It also requires `concurrency_level >= 1`, since a zero level makes `%` divide by zero.
- StripedHashSets.StripedHashSet: the hash function is a parameter `T -> nat`, and `size_t` wrap-around of hash values is not modelled.
- StripedHashSets.StripedHashSet.Rehash: states the new table's elements, count and placement. It does not state the order of entries inside each new bucket.
- StripedHashSets.StripedHashSet.Insert: when a resize happens, states only that the bucket count at least multiplies by `growthFactor`, not the exact table afterwards.
- SpscRingBuffers.SPSCRingBuffer.constructor: the buffer holds `capacity + 1` slots as an unbounded integer. The `size_t` wrap of `capacity + 1` to 0 at `SIZE_MAX` (spsc_ring_buffer.h:12) is not modelled.
- OptimisticLists.OptimisticLinkedSet.Valid: states that the list's nodes are unmarked. It does not state the converse, that every node the set allocated and that is off the list is marked. Each operation instead states how it changes marks: `Insert` changes none, and `Remove` marks at most the removed node and never clears a mark.
- TreeMutexes.TreeMutex.TreeSize: `size_t` overflow of the doubling for huge thread counts is not modelled.
- TreeMutexes.TreeMutex.Lock and TreeMutexes.TreeMutex.Unlock: what the Peterson locks do is not modelled. Both return the sequence of calls they make instead, and both require `id <= size`, which every thread id below the thread count meets.
- The `arena_allocator.h` allocator is not part of this model; nodes are allocated with `new` and never freed.
- The element type of the list is fixed to 64-bit signed integers, whose `numeric_limits` give the sentinels.
- The element type of the ring buffer needs a default value, which is what `std::vector<T>(capacity + 1)` needs too.
- BlockingQueues.BlockingQueue: the `Container` template parameter is a sequence, and move semantics are not modelled.
- The rest of the repository is not part of this model, including `thread_pool.h`, `lock_free_stack.h`, the spin locks, the barrier and the robot examples.

## Findings

| source | as written | input that shows it | evidently intended | confidence | as-written member | corrected member |
|---|---|---|---|---|---|---|
| optimistic_list.h:89-105 | `Remove` checks only that the located node holds `element`. For `Max()`, `Locate` stops at the tail sentinel, which holds it, so the tail is marked and cut off and `size_` is decremented | `Remove(std::numeric_limits<int64_t>::max())` on an empty set returns true, sets `head_->next_` to null and wraps `size_` to `SIZE_MAX`; a later `Locate` then follows a null pointer | `Max()` is a sentinel, not an element: `Remove(Max())` reports false and changes nothing | not executed | OptimisticLists.OptimisticLinkedSet.RemoveAsWritten | OptimisticLists.OptimisticLinkedSet.Remove |
| optimistic_list.h:107-111 | `Contains` checks only that the located node holds `element` and is unmarked. For `Max()`, `Locate` stops at the tail sentinel, which holds it and is never marked | `Contains(std::numeric_limits<int64_t>::max())` on a new, empty set returns true | `Max()` is a sentinel, not an element: `Contains(Max())` reports false | not executed | OptimisticLists.OptimisticLinkedSet.ContainsAsWritten | OptimisticLists.OptimisticLinkedSet.Contains |
