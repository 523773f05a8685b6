# mini_stl, modelled and verified in Dafny

mini_stl is a teaching reimplementation of the SGI STL in C++. This project models its
core in Dafny 4.11 and proves what each operation does:

- the two-level allocator;
- the red-black tree behind set and map;
- the chained hashtable and its prime bucket sizes;
- vector, list, deque and the toy singly linked list;
- the deque iterator;
- the heap and copy algorithms;
- distance and advance.

Code that changes state in place is modelled imperatively:

- classes whose fields are the source's members and whose methods carry `modifies` clauses;
- arrays for heap ranges, vector storage and the deque map;
- maps from addresses to node words for linked nodes.

Each method is proved against a specification: a sequence, a multiset, a sorted sequence or a
tree value. The properties of that specification are proved as separate lemmas. The unit tests'
concrete outcomes are restated as lemmas or as methods that change nothing: the vector capacities
1, 2, 4, 4, 8; the hashtable growing from 53 to 97 buckets; the red-black tree's shape after the
test's insertions.

Elements are `int` throughout. The templates' element type, comparator, hash and key extractor
are fixed as each module's header comment states:

- `less<int>` and the identity key for the tree and the hashtable;
- the hash function is a parameter of the hashtable.

Pointers are natural-number addresses, with 0 standing for null. Iterators are addresses or
indices, as each container's header comment says.

| file | module | models |
|---|---|---|
| malloc_alloc.dfy | MallocAlloc | `__malloc_alloc_template`, with the C library's malloc/free as the oracle class `SystemHeap` (code/include/mini_stl/memory/mini_memory_alloc.h) |
| default_alloc.dfy | DefaultAlloc | `__default_alloc_template` (free lists, refill, chunk_alloc) and `simple_alloc` (same file) |
| prime_table.dfy | PrimeTable | `__mini_stl_prime_list` and `__mini_stl_next_prime` (code/include/mini_stl/base/mini_define.h) |
| heap.dfy | Heap | the heap algorithms (code/include/mini_stl/algorithm/mini_algorithm_heap.h) |
| algo_base.dfy | AlgoBase | find, for_each, copy, copy_backward (code/include/mini_stl/algorithm/mini_algorithm_base.h) |
| iter_base.dfy | IterBase | `__distance` and `__advance` (code/include/mini_stl/iterator/mini_iterator_base.h) |
| toy_list.dfy | ToyList | the toy `List` (code/include/mini_stl/container/mini_container_list_toy.h) |
| vector.dfy | Vector | `vector` (code/include/mini_stl/container/mini_container_vector.h) |
| list_links.dfy, list_seqs.dfy, list_sort.dfy, list.dfy | ListLinks, ListSeqs, ListSort, ListContainer | `list`: node links and rings, the reference definitions of merge/reverse/remove, sort on values, and the container class (code/include/mini_stl/container/mini_container_list.h) |
| hashtable.dfy | Hashtable | `hashtable` and its iterator (code/include/mini_stl/utility/mini_utility_hashtable.h) |
| deque_iterator.dfy | DequeIterator | `__deque_buf_size` and `__deque_iterator` (code/include/mini_stl/iterator/mini_iterator_deque.h) |
| deque_layout.dfy, deque_shift.dfy, deque.dfy | DequeLayout, DequeShift, DequeContainer | `deque`: the map/buffer layout, element shifting, and the container class (code/include/mini_stl/container/mini_container_deque.h) |
| rbtree_values.dfy, rbtree_links.dfy, rbtree_insert.dfy, rbtree.dfy | RbTreeValues, RbTreeLinks, RbTreeInsert, RbTreeContainer | `rb_tree`: trees as values, their layout in node records, insertion and search on values, and the container class (code/include/mini_stl/utility/mini_utility_rbtree.h) |

Where the code and its comments disagree, the model follows the code:

- `__mini_stl_next_prime` is documented as returning the least prime "greater than" n. It is a
  `lower_bound`, so it returns the least table entry `>=` n, and `next_prime(53) == 53`.
  `PrimeTable.NextPrime` states the code's behaviour.
- `hashtable::insert_unique` calls `resize(num_elements_ + 1)` before it checks for a duplicate.
  Inserting a value already present can therefore rehash, and `Hashtable.Hashtable.InsertUnique`
  says so.
- The toy list's `insert_end` dereferences `front_`, so `ToyList.List.InsertEnd` requires a
  non-empty list.
- `vector::insert_aux` with spare room runs `copy_backward(pos, end_ - 2, end_ - 1)`. When pos is
  `end_`, that range is invalid. Its only caller, `push_back`, calls it only when the vector is
  full, so `Vector.Vector.InsertAux` requires pos < size in the spare-room case.
- The deque's `back()` carries a TODO doubting `*(end_ - 1)`; `DequeContainer.Deque.Back` proves it
  returns the last element.

## Model

| member | source | states |
|---|---|---|
| MallocAlloc.SystemHeap.Malloc | code/include/mini_stl/memory/mini_memory_alloc.h:40 | malloc as an oracle: null when the caller's script says this call fails, otherwise the 8-aligned address at the break, which moves up by n rounded up to 8 |
| MallocAlloc.Granular | code/include/mini_stl/memory/mini_memory_alloc.h:40 | the space a malloc of n bytes takes is the least multiple of 8 that is at least n, so the next address is aligned too |
| MallocAlloc.SystemHeap.Free | code/include/mini_stl/memory/mini_memory_alloc.h:47 | free returns the block to the system and nothing else changes |
| MallocAlloc.MallocAllocator.constructor | code/include/mini_stl/memory/mini_memory_alloc.h:67-69 | the out-of-memory handler starts out null |
| MallocAlloc.MallocAllocator.SetMallocHandler | code/include/mini_stl/memory/mini_memory_alloc.h:59-64 | installs the new handler and returns the one installed before |
| MallocAlloc.MallocAllocator.Allocate | code/include/mini_stl/memory/mini_memory_alloc.h:38-45 | the result is the 8-aligned break on success, which moves up by n rounded up to 8; it is the fatal out-of-memory exit exactly when malloc fails and no handler is installed |
| MallocAlloc.MallocAllocator.OomMalloc | code/include/mini_stl/memory/mini_memory_alloc.h:73-89 | without a handler the exit is immediate; with one, malloc is retried until it succeeds, and the result is the first successful block |
| MallocAlloc.MallocAllocator.Deallocate | code/include/mini_stl/memory/mini_memory_alloc.h:47 | free(p) whatever the size |
| DefaultAlloc.RoundUp | code/include/mini_stl/memory/mini_memory_alloc.h:140 | the least multiple of 8 that is at least the request |
| DefaultAlloc.FreeListIndex | code/include/mini_stl/memory/mini_memory_alloc.h:150 | for 1..128 bytes the index is in 0..15 and the list's block size, 8 * (index + 1), is the rounded-up request |
| DefaultAlloc.BlockSizeIndex | code/include/mini_stl/memory/mini_memory_alloc.h:140-150 | a block size 8, 16, ..., 128 rounds to itself and is served by list size / 8 - 1 |
| DefaultAlloc.BytesIsProduct | code/include/mini_stl/memory/mini_memory_alloc.h:262 | the block-by-block byte count of k blocks of n bytes is n * k |
| DefaultAlloc.FitIsQuotient | code/include/mini_stl/memory/mini_memory_alloc.h:270 | the number of whole blocks that fit is bytes_left / n |
| DefaultAlloc.FitCount | code/include/mini_stl/memory/mini_memory_alloc.h:265-270 | k blocks of n bytes fit in bytes_left exactly when bytes_left / n is at least k, so case 1 is the case bytes_left >= total_bytes |
| DefaultAlloc.StrideShape | code/include/mini_stl/memory/mini_memory_alloc.h:242-253 | a batch of k blocks of n bytes lies within its n * k bytes, in increasing order, each block n bytes after the one before |
| DefaultAlloc.FirstNonEmpty | code/include/mini_stl/memory/mini_memory_alloc.h:294-303 | the first non-empty list at or after an index, every list before it empty |
| DefaultAlloc.InstallBatch | code/include/mini_stl/memory/mini_memory_alloc.h:237-254 | once linked, blocks 1..n_objs-1 of the chunk are exactly list index(n), in address order, and the free-list invariant holds again |
| DefaultAlloc.FreeListsInstall | code/include/mini_stl/memory/mini_memory_alloc.h:237-254 | filing a fresh chain of blocks as an empty list keeps every list a null-terminated chain of distinct free blocks of its size, and every pool block handed out or listed |
| DefaultAlloc.PoolAllocator.constructor | code/include/mini_stl/memory/mini_memory_alloc.h:164-173 | the sixteen lists are null, start_free = end_free = 0 and heap_size = 0 |
| DefaultAlloc.PoolAllocator.Allocate | code/include/mini_stl/memory/mini_memory_alloc.h:176-197 | every address returned is 8-aligned; above 128 bytes the first-level allocator serves the request and the pool is untouched; otherwise the head of list index(n) is popped when there is one, else refill(ROUND_UP(n)) serves it and the result and lists are exactly what refill gives; the block returned is a pool block of the rounded size not already handed out |
| DefaultAlloc.PoolAllocator.AllocateSmall | code/include/mini_stl/memory/mini_memory_alloc.h:186-196 | for 1..128 bytes: a non-empty list index(n) loses exactly its head, which is returned, and nothing else in the pool changes; an empty one is refilled, with the result and lists exactly what refill gives |
| DefaultAlloc.PoolAllocator.Miss | code/include/mini_stl/memory/mini_memory_alloc.h:189-192 | with list index(n) empty, the 8-aligned block returned is a fresh pool block of ROUND_UP(n) bytes, and the lists are those refill(ROUND_UP(n)) produces |
| DefaultAlloc.PoolAllocator.PopHead | code/include/mini_stl/memory/mini_memory_alloc.h:194-196 | the head of list index(n) is returned and handed out, the list head moves to its link, and the list loses exactly that block |
| DefaultAlloc.PoolAllocator.Deallocate | code/include/mini_stl/memory/mini_memory_alloc.h:199-219 | null is a no-op; above 128 bytes the block goes to free; otherwise p becomes the head of list index(n), linked to the old head |
| DefaultAlloc.PoolAllocator.DeallocateThenAllocate | code/include/mini_stl/memory/mini_memory_alloc.h:176-219 | deallocate(p, n) followed by allocate(n) returns p and restores every list |
| DefaultAlloc.PoolAllocator.Carve | code/include/mini_stl/memory/mini_memory_alloc.h:265-274 | chunk_alloc's cases 1 and 2: the result is start_free, n_objs becomes all requested blocks or bytes_left / n, and start_free advances by n times that count |
| DefaultAlloc.PoolAllocator.ChunkAlloc | code/include/mini_stl/memory/mini_memory_alloc.h:258-320 | all three cases: 1 <= n_objs_out <= n_objs_in, n_objs_out is min(n_objs, bytes_left / n) when a block fits and n_objs after a fresh malloc; case 3 donates the fragment, grows heap_size by 2 * total + ROUND_UP(heap_size >> 4), or on malloc failure takes one block of 8 * (k + 1) bytes from the first non-empty list k of size n or more, after which n_objs_out is min(n_objs, 8 * (k + 1) / n); the lists end up exactly as those steps leave them; out of memory only when malloc fails with no handler and no such list |
| DefaultAlloc.PoolAllocator.Replenish | code/include/mini_stl/memory/mini_memory_alloc.h:275-314 | case 3 up to its recursive call: the fragment is donated, then the arena becomes a fresh malloc of bytes_to_get bytes at the old break, or the head block of the first non-empty list k of size n or more, 8 * (k + 1) bytes long, which that list loses |
| DefaultAlloc.PoolAllocator.Restock | code/include/mini_stl/memory/mini_memory_alloc.h:287-314 | malloc of bytes_to_get with heap_size grown by it and no list changed, or on failure the steal (the lists lose exactly the stolen head, and the arena is 8 * (k + 1) bytes long), or the first-level allocator's retry loop |
| DefaultAlloc.PoolAllocator.DonateFragment | code/include/mini_stl/memory/mini_memory_alloc.h:278-285 | a non-empty leftover fragment, a multiple of 8 under 128 bytes, is pushed onto list index(bytes_left); an empty one changes no list; either way the arena is then empty |
| DefaultAlloc.PushFragment | code/include/mini_stl/memory/mini_memory_alloc.h:283-284 | pushing a fragment under 128 bytes onto the head of its list keeps the free lists well formed and leaves an empty arena |
| DefaultAlloc.PoolAllocator.FindStocked | code/include/mini_stl/memory/mini_memory_alloc.h:294-297 | the scan of the lists for sizes n, n + 8, ..., 128 stops at the first non-empty one |
| DefaultAlloc.PoolAllocator.StealBlock | code/include/mini_stl/memory/mini_memory_alloc.h:294-303 | exactly the head block of the first non-empty list of size n or more leaves that list and becomes the arena, 8 * (index + 1) bytes long; nothing changes when all those lists are empty |
| DefaultAlloc.StealFacts | code/include/mini_stl/memory/mini_memory_alloc.h:298-300 | unlinking the head of a non-empty list keeps the other blocks well formed, and the block's own bytes form a valid arena |
| DefaultAlloc.PoolAllocator.Salvage | code/include/mini_stl/memory/mini_memory_alloc.h:294-309 | after a failed malloc: the head of the first non-empty list k of size n or more becomes an arena of 8 * (k + 1) bytes, else the first-level allocator is asked, which fails only without a handler |
| DefaultAlloc.PoolAllocator.Refill | code/include/mini_stl/memory/mini_memory_alloc.h:221-256 | called with list index(n) empty: block 0 of what chunk_alloc delivers goes to the caller; a single block leaves the lists as chunk_alloc left them, otherwise list index(n) becomes exactly blocks 1..n_objs-1 at stride n, the last link null |
| DefaultAlloc.PoolAllocator.Distribute | code/include/mini_stl/memory/mini_memory_alloc.h:233-254 | the first delivered block is handed out, and list index(n) becomes the other delivered blocks at stride n |
| DefaultAlloc.PoolAllocator.TakeBatch | code/include/mini_stl/memory/mini_memory_alloc.h:237-255 | the batch part of refill: the head of list index(n) is chunk + n and the list is the rest of the batch in order |
| DefaultAlloc.PoolAllocator.LinkBatch | code/include/mini_stl/memory/mini_memory_alloc.h:245-254 | each of the k blocks links to the next block n bytes on, the last to null; every word below the first block or past the start of the last one keeps its link |
| DefaultAlloc.SimpleAlloc.constructor | code/include/mini_stl/memory/mini_memory_alloc.h:340-341 | a typed front end for objects of a fixed size |
| DefaultAlloc.SimpleAlloc.Allocate | code/include/mini_stl/memory/mini_memory_alloc.h:353 | null for n == 0, otherwise the pool's 8-aligned block for n * sizeof(T) bytes |
| DefaultAlloc.SimpleAlloc.AllocateOne | code/include/mini_stl/memory/mini_memory_alloc.h:354 | the pool's 8-aligned block for sizeof(T) bytes |
| DefaultAlloc.SimpleAlloc.Deallocate | code/include/mini_stl/memory/mini_memory_alloc.h:355-363 | nothing for null or n == 0, otherwise the pool's deallocate of n * sizeof(T) bytes |
| DefaultAlloc.SimpleAlloc.DeallocateOne | code/include/mini_stl/memory/mini_memory_alloc.h:364 | the pool's deallocate of sizeof(T) bytes |
| PrimeTable.TableShape | code/include/mini_stl/base/mini_define.h:9-17 | 25 strictly increasing entries, from 53 to 805306457 |
| PrimeTable.LowerBound | code/include/mini_stl/base/mini_define.h:29 | std::lower_bound: every entry before the result is less than n, the one at it is not |
| PrimeTable.NextPrime | code/include/mini_stl/base/mini_define.h:25-31 | a table entry: the least one not below n, or 805306457 when n exceeds them all |
| PrimeTable.NextPrimeExamples | code/include/mini_stl/base/mini_define.h:19-31 | next_prime(50) = 53, next_prime(53) = 53 (not the next larger entry), next_prime(54) = 97, and the last entry beyond the table |
| DefaultAlloc.AllocateFromFresh | code/include/mini_stl/memory/mini_memory_alloc.h:186-192 | on a pool with empty lists, an empty arena and a malloc that does not fail, allocate(size) returns the old break and list index(size) becomes the other 19 blocks of the chunk at stride ROUND_UP(size) |
| DefaultAlloc.AllocateTwoFromList | code/include/mini_stl/memory/mini_memory_alloc.h:194-196 | two allocate(size) calls on a list holding a stride of blocks return its first two blocks, ROUND_UP(size) bytes apart |
| DefaultAlloc.ConsecutiveScenario | test/unittest/memory/mini_memory_test.cpp:42-54 | three simple_alloc<uint32_t> allocate() calls on a fresh pool return blocks 8 bytes apart, the pointer difference 2 the test expects; in general blocks ROUND_UP(sizeof(T)) apart, so 16 bytes for __uint128_t from a fresh pool |
| DefaultAlloc.RequestBytes | code/include/mini_stl/memory/mini_memory_alloc.h:277 | bytes_to_get = 2 * total_bytes + ROUND_UP(heap_size >> 4) is a multiple of 8 and at least n, so the fresh arena holds one block of n at least |
| Heap.PushHole | code/include/mini_stl/algorithm/mini_algorithm_heap.h:8-20 | __push_heap: percolating value up from hole to top leaves every node from top on at least its children, a permutation of the range with value in the hole, nothing outside [top, hole] changed |
| Heap.SinkHole | code/include/mini_stl/algorithm/mini_algorithm_heap.h:36-53 | __adjust_heap's descent: the hole moves to a leaf along the larger child each time, each child's value moving up into its parent |
| Heap.SinkOnce | code/include/mini_stl/algorithm/mini_algorithm_heap.h:40-47 | one step with two children: the left child is chosen exactly when it is greater than the right, and its value fills the hole |
| Heap.MoveDown | code/include/mini_stl/algorithm/mini_algorithm_heap.h:45-53 | the child's value moves into the hole and the descent invariant is kept |
| Heap.AdjustHeap | code/include/mini_stl/algorithm/mini_algorithm_heap.h:33-58 | once the sub-heaps below hole are heaps, after the call the sub-heap at hole is one, holding value in place of the old entry; nothing at or beyond len except the hole moves |
| Heap.PushHeap | code/include/mini_stl/algorithm/mini_algorithm_heap.h:60-71 | a heap followed by one more element becomes a heap of the same elements; the rest of the array is unchanged |
| Heap.PopHeap | code/include/mini_stl/algorithm/mini_algorithm_heap.h:73-91 | the old maximum moves to the last position, is at least every other element, the front len-1 elements are a heap, and the range is a permutation |
| Heap.SortHeap | code/include/mini_stl/algorithm/mini_algorithm_heap.h:93-103 | a heap becomes sorted in increasing order, a permutation of itself |
| Heap.MakeHeap | code/include/mini_stl/algorithm/mini_algorithm_heap.h:105-126 | any range, empty and single-element ones included, becomes a heap of the same elements |
| Heap.HeapRootMax | code/include/mini_stl/algorithm/mini_algorithm_heap.h:77 | every element of a heap is at most its root, so pop_heap takes the maximum |
| Heap.RootMaxAll | code/include/mini_stl/algorithm/mini_algorithm_heap.h:77 | the root of a non-empty heap is its maximum |
| Heap.PopKeeps | code/include/mini_stl/algorithm/mini_algorithm_heap.h:98-102 | one pop_heap in sort_heap's loop keeps the invariant: the tail is sorted and holds the largest elements |
| Heap.SortedJoin | code/include/mini_stl/algorithm/mini_algorithm_heap.h:100 | when sort_heap stops at one element left, the whole range is sorted |
| AlgoBase.Find | code/include/mini_stl/algorithm/mini_algorithm_base.h:11-18 | the first position in the range holding value, every position before it different; last when there is none |
| AlgoBase.Recorder.constructor | code/include/mini_stl/algorithm/mini_algorithm_base.h:20-21 | a function object that starts having seen nothing |
| AlgoBase.Recorder.Call | code/include/mini_stl/algorithm/mini_algorithm_base.h:24 | one call of func records its argument |
| AlgoBase.ForEach | code/include/mini_stl/algorithm/mini_algorithm_base.h:20-27 | func is called on every element of the range once, front to back, and last is returned |
| AlgoBase.CopiedUnique | code/include/mini_stl/algorithm/mini_algorithm_base.h:102-107 | two copies of the same range to the same place leave the same array, so every dispatch path of copy agrees |
| AlgoBase.CopiedAt | code/include/mini_stl/algorithm/mini_algorithm_base.h:36-38 | after a copy each destination element is the matching source element inside the target range and unchanged outside it |
| AlgoBase.CopyInput | code/include/mini_stl/algorithm/mini_algorithm_base.h:31-40 | the input-iterator __copy writes the source range at result, changes nothing else, and returns result + (last - first) |
| AlgoBase.CopyD | code/include/mini_stl/algorithm/mini_algorithm_base.h:42-51 | __copy_d, counted down by the distance, has the same outcome |
| AlgoBase.Memmove | code/include/mini_stl/algorithm/mini_algorithm_base.h:64 | memmove copies as if through a temporary, for any overlap of the two ranges |
| AlgoBase.CopyT | code/include/mini_stl/algorithm/mini_algorithm_base.h:61-66 | the trivially assignable __copy_t is one memmove and returns result + (last - first) |
| AlgoBase.Copy | code/include/mini_stl/algorithm/mini_algorithm_base.h:82-107 | copy on int pointers dispatches to the memmove path and has the outcome every copy promises |
| AlgoBase.CopyBackward | code/include/mini_stl/algorithm/mini_algorithm_base.h:125-132 | copy_backward writes the source range so that it ends at d_last, safe for a destination overlapping on the right, and returns the start of the written range |
| IterBase.DistanceInput | code/include/mini_stl/iterator/mini_iterator_base.h:92-102 | counting increments from first reaches last after n steps, n = last - first |
| IterBase.DistanceRandom | code/include/mini_stl/iterator/mini_iterator_base.h:104-109 | first advanced by the result is last |
| IterBase.AdvanceInput | code/include/mini_stl/iterator/mini_iterator_base.h:120-126 | n increments for n > 0, none otherwise: an input iterator cannot go back |
| IterBase.AdvanceBidirectional | code/include/mini_stl/iterator/mini_iterator_base.h:128-140 | n increments or -n decrements, so the iterator moves by exactly n |
| IterBase.AdvanceRandom | code/include/mini_stl/iterator/mini_iterator_base.h:142-146 | the distance from the old position to the new one is n |
| ToyList.ListItem.constructor | code/include/mini_stl/container/mini_container_list_toy.h:13-16 | an item holding the value and the given next pointer |
| ToyList.ListItem.SetValue | code/include/mini_stl/container/mini_container_list_toy.h:18 | the value changes and the link does not |
| ToyList.ListItem.SetNext | code/include/mini_stl/container/mini_container_list_toy.h:19 | the link changes and the value does not |
| ToyList.List.constructor | code/include/mini_stl/container/mini_container_list_toy.h:63-67 | front_ = end_ = null, size_ = 0: the empty list |
| ToyList.List.InsertFront | code/include/mini_stl/container/mini_container_list_toy.h:36-41 | the values become value followed by the old values; the chain stays distinct, null-terminated and counted by size_ |
| ToyList.List.InsertEnd | code/include/mini_stl/container/mini_container_list_toy.h:42-52 | on a non-empty list the values become the old values followed by value, end_ stays null |
| ToyList.List.Display | code/include/mini_stl/container/mini_container_list_toy.h:53-59 | the values visited from front_ to end_ are exactly the list's contents, in order |
| ToyList.List.Find | code/include/mini_stl/algorithm/mini_algorithm_base.h:11-18 | algo::find instantiated with ListIter, whose ++ follows next(): the loop walks the items from front_ and returns null exactly when value is not in the list, otherwise the first item holding it |
| ToyList.RoundStep | test/unittest/iterator/mini_iterator_test.cpp:19-22 | one round of insert_front(i), insert_end(i + 2) turns the round-i contents into the round-(i+1) contents |
| ToyList.Build | test/unittest/iterator/mini_iterator_test.cpp:18-22 | the five rounds leave 4 3 2 1 0 2 3 4 5 6 |
| ToyList.Scenario | test/unittest/iterator/mini_iterator_test.cpp:18-44 | display shows 4 3 2 1 0 2 3 4 5 6, find of 3 succeeds and find of 7 reaches the end |
| Vector.Fill | code/include/mini_stl/container/mini_container_vector.h:200-210 | std::fill writes value over [first, last) and nothing else |
| Vector.InsertedFillAt | code/include/mini_stl/container/mini_container_vector.h:182-237 | element k after inserting n copies of v at pos: the old element k before pos, v in [pos, pos + n), the old element k - n after it |
| Vector.AuxShiftResult | code/include/mini_stl/container/mini_container_vector.h:272-278 | insert_aux with spare room: constructing the last element one further, copy_backward of [pos, end - 2) and the store at pos insert value at pos |
| Vector.ReallocResult | code/include/mini_stl/container/mini_container_vector.h:213-223 | the reallocation path's three copies (the prefix, the new values, the suffix) give the old elements with the new ones at pos |
| Vector.LongTailResult | code/include/mini_stl/container/mini_container_vector.h:191-200 | with more than n elements after pos, the three steps of the spare-room insert give n copies of v inserted at pos |
| Vector.ShortTailResult | code/include/mini_stl/container/mini_container_vector.h:201-211 | with at most n elements after pos, the fill, the copy of the tail and the fill over it give the same |
| Vector.Vector.constructor | code/include/mini_stl/container/mini_container_vector.h:23-27 | vector(): no elements, capacity 0 |
| Vector.Vector.Filled | code/include/mini_stl/container/mini_container_vector.h:322-334 | vector(n, value): n copies of value, capacity exactly n |
| Vector.Vector.FromRange | code/include/mini_stl/container/mini_container_vector.h:311-320 | vector(first, last): the elements of the range, capacity exactly last - first |
| Vector.Vector.Get | code/include/mini_stl/container/mini_container_vector.h:45 | operator[](n) is element n |
| Vector.Vector.At | code/include/mini_stl/container/mini_container_vector.h:47-53 | at(n) is the out_of_range exception exactly when n >= size(), element n otherwise |
| Vector.Vector.Set | code/include/mini_stl/container/mini_container_vector.h:45 | vec[n] = x replaces element n and nothing else |
| Vector.Vector.Reserve | code/include/mini_stl/container/mini_container_vector.h:73-109 | the elements are kept; the capacity grows to new_cap only when new_cap exceeds it; length_error exactly when new_cap exceeds both the capacity and max_size() |
| Vector.Vector.PushBack | code/include/mini_stl/container/mini_container_vector.h:119-127 | value is appended; the capacity stays while there is room, and when full becomes twice the size (1 from empty) |
| Vector.Vector.PopBack | code/include/mini_stl/container/mini_container_vector.h:129-133 | the last element is removed and the capacity kept |
| Vector.Vector.InsertAux | code/include/mini_stl/container/mini_container_vector.h:269-309 | value is inserted at pos; the capacity is kept with spare room and otherwise becomes 2 * size, or 1 |
| Vector.Vector.InsertAuxSpare | code/include/mini_stl/container/mini_container_vector.h:272-278 | the spare-room branch keeps the storage and inserts value at pos |
| Vector.Vector.InsertAuxRealloc | code/include/mini_stl/container/mini_container_vector.h:279-308 | the full-storage branch moves to new storage of 2 * size (1 from empty) with value at pos |
| Vector.Vector.EraseAt | code/include/mini_stl/container/mini_container_vector.h:135-144 | erase(pos) removes element pos, keeps the storage and returns pos |
| Vector.Vector.EraseRange | code/include/mini_stl/container/mini_container_vector.h:153-159 | erase(first, last) removes [first, last), keeps the storage and returns first |
| Vector.Vector.Clear | code/include/mini_stl/container/mini_container_vector.h:117 | clear() empties the vector and keeps its capacity |
| Vector.Vector.InsertFill | code/include/mini_stl/container/mini_container_vector.h:182-237 | insert(pos, n, value) inserts n copies at pos; spare room is used when it suffices, otherwise the capacity becomes size + max(size, n); n == 0 changes nothing |
| Vector.Vector.InsertSpareLongTail | code/include/mini_stl/container/mini_container_vector.h:191-200 | the spare-room branch with more than n elements after pos |
| Vector.ShiftLongTail | code/include/mini_stl/container/mini_container_vector.h:191-200 | with more than n elements after pos, the copies, the backward copy and the fill leave the first size + n slots equal to the old elements with n copies of value inserted at pos |
| Vector.Vector.InsertSpareShortTail | code/include/mini_stl/container/mini_container_vector.h:201-211 | the spare-room branch with at most n elements after pos |
| Vector.Vector.InsertRealloc | code/include/mini_stl/container/mini_container_vector.h:212-236 | the reallocating branch: new storage of size + max(size, n) holding the inserted result |
| Vector.Vector.Resize | code/include/mini_stl/container/mini_container_vector.h:239-247 | resize(k, v) keeps the first k elements or pads with v up to k; the capacity follows erase or insert |
| Vector.Vector.Swap | code/include/mini_stl/container/mini_container_vector.h:250-256 | the two vectors exchange their elements and capacities |
| Vector.EraseInserted | code/include/mini_stl/container/mini_container_vector.h:153-159 | erasing the n inserted elements undoes insert(pos, n, v) |
| Vector.ResizedShape | code/include/mini_stl/container/mini_container_vector.h:239-247 | resize(k, v) leaves exactly k elements: the old ones, then copies of v |
| Vector.PushesCapacityBounds | code/include/mini_stl/container/mini_container_vector.h:119-127 | after k >= 1 push_backs on an empty vector the capacity is a power of two c with k <= c < 2k |
| Vector.PushScenario | test/unittest/container/mini_container_vector_test.cpp:51-73 | the pushes of 1..5 give capacities 1, 2, 4, 4, 8 |
| Vector.GrowthScenario | test/unittest/container/mini_container_vector_test.cpp:51-85 | then insert(begin, 5, 10) gives 10 10 10 10 10 1 2 3 4 5 with capacity 10, and clear keeps capacity 10 |
| Vector.RenumberScenario | test/unittest/container/mini_container_vector_test.cpp:87-97 | twelve 20s into capacity 10 reallocate to capacity 12; vec[i] = i renumbers them |
| Vector.EraseScenario | test/unittest/container/mini_container_vector_test.cpp:98-108 | erase at 10 gives ... 9 11, and erase of [1, 3) gives 0 3 4 ... |
| Vector.ReserveScenario | test/unittest/container/mini_container_vector_test.cpp:118-137 | reserve(0) does nothing, reserve(10) gives capacity 10; on vector(2, 2) reserve(1) does nothing and reserve(3) gives capacity 3 keeping 2 2 |
| Vector.GrownCapacity | code/include/mini_stl/container/mini_container_vector.h:283-284 | the full branch of insert_aux allocates more than size slots: twice the size, or 1 from empty |
| Vector.PushBackCapacity | code/include/mini_stl/container/mini_container_vector.h:119-127 | push_back keeps the capacity while there is spare room, else takes insert_aux's grown capacity; either way there is a slot for the new element and capacity never shrinks |
| Vector.FillCapacity | code/include/mini_stl/container/mini_container_vector.h:188-214 | insert(pos, n, value) keeps the capacity exactly when the spare room holds n elements, else allocates size + max(size, n); either way the n new elements fit and capacity never shrinks |
| ListContainer.Nodes.constructor | code/include/mini_stl/container/mini_container_list.h:314 | node memory starts with no node allocated |
| ListContainer.Nodes.GetNode | code/include/mini_stl/container/mini_container_list.h:314 | get_node hands out a fresh address with both link words null, no existing node changed |
| ListContainer.Nodes.CreateNode | code/include/mini_stl/container/mini_container_list.h:317-322 | create_node is get_node with the value stored in the new node's data field |
| ListContainer.Nodes.PutNode | code/include/mini_stl/container/mini_container_list.h:325 | put_node frees the node: its words and data disappear, the others stay |
| ListContainer.Nodes.DestroyNode | code/include/mini_stl/container/mini_container_list.h:328-332 | destroy_node frees the node the same way |
| ListContainer.Nodes.SetNext | code/include/mini_stl/container/mini_container_list.h:342-359 | one next word is written |
| ListContainer.Nodes.SetPrev | code/include/mini_stl/container/mini_container_list.h:343-360 | one prev word is written |
| ListContainer.Nodes.Relink | code/include/mini_stl/container/mini_container_list.h:368-380 | the link words after transfer's six assignments are TransferLinks of the words before |
| ListContainer.List.constructor | code/include/mini_stl/container/mini_container_list.h:305-309 | list(): a fresh sentinel linked to itself, no elements |
| ListContainer.List.Reset | code/include/mini_stl/container/mini_container_list.h:299-303 | the sentinel's two words point back at it |
| ListContainer.List.Begin | code/include/mini_stl/container/mini_container_list.h:47 | begin() is the first element node, and is end() exactly when the list is empty |
| ListContainer.List.Empty | code/include/mini_stl/container/mini_container_list.h:57 | empty() exactly when there are no elements |
| ListContainer.List.Size | code/include/mini_stl/container/mini_container_list.h:59 | size(), counted by stepping from begin() to end(), is the number of elements |
| ListContainer.List.Front | code/include/mini_stl/container/mini_container_list.h:52 | front() is the first value |
| ListContainer.List.Back | code/include/mini_stl/container/mini_container_list.h:54 | back() is the last value |
| ListContainer.List.InsertAt | code/include/mini_stl/container/mini_container_list.h:337-350 | a new node holding value is linked in before pos and returned; the ring stays a ring and no other node changes |
| ListContainer.List.EraseAt | code/include/mini_stl/container/mini_container_list.h:353-363 | the node at pos is unlinked and freed and the node after it returned; the values lose exactly that element |
| ListContainer.List.PushBack | code/include/mini_stl/container/mini_container_list.h:62 | value is appended |
| ListContainer.List.PushFront | code/include/mini_stl/container/mini_container_list.h:64 | value is prepended |
| ListContainer.List.PopBack | code/include/mini_stl/container/mini_container_list.h:66-70 | the last element is removed |
| ListContainer.List.PopFront | code/include/mini_stl/container/mini_container_list.h:72 | the first element is removed |
| ListContainer.List.Insert | code/include/mini_stl/container/mini_container_list.h:74 | value is inserted before pos |
| ListContainer.List.Erase | code/include/mini_stl/container/mini_container_list.h:76 | the element at pos is removed and the next position returned |
| ListContainer.List.Transfer | code/include/mini_stl/container/mini_container_list.h:368-380 | transfer moves [first, last) in front of pos, within one list or from another, keeping every value and every node outside the three rings |
| ListContainer.List.Reverse | code/include/mini_stl/container/mini_container_list.h:203-216 | reverse() leaves the nodes, and so the values, in reverse order |
| ListContainer.List.ReverseLoop | code/include/mini_stl/container/mini_container_list.h:209-215 | the loop that moves each node after the first to the front reverses a list of two or more |
| ListContainer.List.Merge | code/include/mini_stl/container/mini_container_list.h:175-196 | merge(other) leaves this list holding Merged(this, other), the front of other going first only when strictly less, and other empty |
| ListContainer.List.MergeTake | code/include/mini_stl/container/mini_container_list.h:183-186 | a smaller front of other is moved in front of cur1 |
| ListContainer.List.MergeSkip | code/include/mini_stl/container/mini_container_list.h:187-189 | otherwise cur1 advances |
| ListContainer.List.MergeRest | code/include/mini_stl/container/mini_container_list.h:192-195 | what is left of other goes to the end |
| ListContainer.List.Remove | code/include/mini_stl/container/mini_container_list.h:99-111 | remove(value) erases exactly the nodes holding value, keeping the others in order |
| ListContainer.List.RemoveOne | code/include/mini_stl/container/mini_container_list.h:103-110 | one step of remove keeps the loop invariant |
| ListContainer.List.Clear | code/include/mini_stl/container/mini_container_list.h:83-92 | clear() frees every element node and leaves the empty list |
| ListContainer.List.ClearOne | code/include/mini_stl/container/mini_container_list.h:86-90 | one node freed per step |
| ListContainer.List.ClearEnd | code/include/mini_stl/container/mini_container_list.h:91 | the final reset |
| ListContainer.List.Swap | code/include/mini_stl/container/mini_container_list.h:225-233 | swap(other) exchanges the two lists' nodes and values; a list swapped with itself is left as it is |
| ListContainer.List.SwapApart | code/include/mini_stl/container/mini_container_list.h:225-233 | the two splices of swap exchange two different lists |
| ListContainer.List.SpliceAll | code/include/mini_stl/container/mini_container_list.h:123-132 | splice(pos, other) moves all of other in front of pos and empties it; nothing happens when other is empty or this list |
| ListContainer.List.SpliceOne | code/include/mini_stl/container/mini_container_list.h:141-149 | splice(pos, list, i) moves the one element at i in front of pos, and does nothing when pos is i or the node after it |
| ListContainer.List.MoveOne | code/include/mini_stl/container/mini_container_list.h:148 | the transfer of [i, i + 1) |
| ListContainer.List.SpliceRange | code/include/mini_stl/container/mini_container_list.h:159-166 | splice(pos, list, first, last) moves [first, last) in front of pos; an empty range changes nothing |
| ListLinks.SelfSwapCycle | code/include/mini_stl/container/mini_container_list.h:225-233 | swap(*this) as written: the second splice's transfer cuts the sentinel out of the ring, so walking from begin() never reaches end() |
| ListLinks.LinkedAppend | code/include/mini_stl/container/mini_container_list.h:12 | a linked sequence is exactly two linked halves joined by one link |
| ListLinks.RingRotate | code/include/mini_stl/container/mini_container_list.h:12 | a ring read from any node is still the ring |
| ListLinks.TransferAt | code/include/mini_stl/container/mini_container_list.h:368-380 | the six words transfer rewrites and the values they get |
| ListLinks.TransferApart | code/include/mini_stl/container/mini_container_list.h:368-380 | moving a range from one ring to another leaves two rings |
| ListLinks.TransferWithin | code/include/mini_stl/container/mini_container_list.h:368-380 | moving a range within one ring leaves the ring with the range moved |
| ListLinks.TransferCross | code/include/mini_stl/container/mini_container_list.h:368-380 | transfer between two lists: both rings, no node shared, nothing else changed |
| ListLinks.TransferInside | code/include/mini_stl/container/mini_container_list.h:368-380 | transfer within one list: the ring with MoveRange applied |
| ListLinks.InsertRing | code/include/mini_stl/container/mini_container_list.h:337-350 | insert_at's four writes put the new node in the ring just before pos |
| ListLinks.EraseRing | code/include/mini_stl/container/mini_container_list.h:353-363 | erase_at's two writes leave the ring without the node |
| ListLinks.NoDupPerm | code/include/mini_stl/container/mini_container_list.h:16-17 | rearranging the nodes keeps them distinct |
| ListLinks.Values | code/include/mini_stl/container/mini_container_list.h:47-54 | the values of a node sequence, element by element |
| ListSeqs.MergeNodes | code/include/mini_stl/container/mini_container_list.h:175-196 | the node order merge leaves, as long as its inputs |
| ListSeqs.ValuesMerge | code/include/mini_stl/container/mini_container_list.h:175-196 | the values of that node order are Merged of the two lists' values |
| ListSeqs.MergePerm | code/include/mini_stl/container/mini_container_list.h:175-196 | merge loses and adds no value |
| ListSeqs.MergeLower | code/include/mini_stl/container/mini_container_list.h:182-195 | a lower bound of both fronts bounds the whole merge |
| ListSeqs.MergeSorted | code/include/mini_stl/container/mini_container_list.h:171 | merging two sorted lists gives a sorted list |
| ListSeqs.MergeStable | code/include/mini_stl/container/mini_container_list.h:183 | merge is stable: equal values keep this list's nodes first and each list's own order |
| ListSeqs.Reversed | code/include/mini_stl/container/mini_container_list.h:203-216 | reversal keeps the length |
| ListSeqs.ReversedAt | code/include/mini_stl/container/mini_container_list.h:203-216 | element i of the reversal is element n-1-i |
| ListSeqs.ReversedTwice | code/include/mini_stl/container/mini_container_list.h:203-216 | reversing twice is the identity |
| ListSeqs.ValuesReversed | code/include/mini_stl/container/mini_container_list.h:203-216 | reversing the nodes reverses the values |
| ListSeqs.Keep | code/include/mini_stl/container/mini_container_list.h:99-111 | the nodes remove keeps form a subsequence |
| ListSeqs.ValuesKeep | code/include/mini_stl/container/mini_container_list.h:99-111 | the values of the kept nodes are Removed of the values |
| ListSeqs.RemovedCount | code/include/mini_stl/container/mini_container_list.h:99-111 | after remove(v), v does not occur and every other value occurs as often as before |
| ListSeqs.RemovedAppend | code/include/mini_stl/container/mini_container_list.h:99-111 | remove works element by element: it distributes over concatenation |
| ListSeqs.RemovedAbsent | code/include/mini_stl/container/mini_container_list.h:99-111 | removing an absent value changes nothing |
| ListSort.Pow2 | code/include/mini_stl/container/mini_container_list.h:250 | the size of a full counter, at least 1 |
| ListSort.Pow2Mono | code/include/mini_stl/container/mini_container_list.h:250 | larger counters hold more |
| ListSort.MergedSize | code/include/mini_stl/container/mini_container_list.h:257-267 | a merge of two counters holds both |
| ListSort.CountersSet | code/include/mini_stl/container/mini_container_list.h:260 | storing a run of 2^i sorted values in counter[i] keeps the counters' invariant |
| ListSort.CarryStep | code/include/mini_stl/container/mini_container_list.h:256-258 | merging a full counter[i] into a carry of 2^i gives a sorted carry of 2^(i+1) and empties counter[i], keeping the values |
| ListSort.Place | code/include/mini_stl/container/mini_container_list.h:260-263 | the carry lands in the first empty counter, and fill grows when it is counter[fill] |
| ListSort.CollapseStep | code/include/mini_stl/container/mini_container_list.h:266-268 | merging counter[i-1] into counter[i] keeps every counter sorted and the values |
| ListSort.CollapseBag | code/include/mini_stl/container/mini_container_list.h:266-267 | merging counter[i-1] into counter[i] and emptying counter[i-1] keeps the multiset of all values |
| ListSort.Sort | code/include/mini_stl/container/mini_container_list.h:243-271 | sort() leaves the values sorted and a permutation of the old ones |
| ListSort.SortRound | code/include/mini_stl/container/mini_container_list.h:253-264 | one outer round moves one value into the counters |
| ListSort.CarryUp | code/include/mini_stl/container/mini_container_list.h:255-259 | the carry loop: the carry is a sorted run of 2^i and counter[i] is empty or counter[fill] |
| ListSort.CarryOne | code/include/mini_stl/container/mini_container_list.h:257-258 | one merge-and-swap of the carry loop |
| ListSort.Collapse | code/include/mini_stl/container/mini_container_list.h:266-270 | merging all counters upward and swapping with counter[fill-1] leaves a sorted permutation |
| ListLinks.TransferLinks | code/include/mini_stl/container/mini_container_list.h:368-380 | transfer's six pointer writes as a function on the link words; ListLinks.TransferAt, ListLinks.TransferWithin and ListLinks.TransferCross state what they do to the rings |
| ListLinks.InsertLinks | code/include/mini_stl/container/mini_container_list.h:337-349 | insert_at's four pointer writes as a function on the link words; ListLinks.InsertRing states that the node ends up before pos |
| ListLinks.EraseLinks | code/include/mini_stl/container/mini_container_list.h:353-363 | erase_at's two pointer writes as a function on the link words; ListLinks.EraseRing states that the node is unlinked |
| ListContainer.List.ReverseOne | code/include/mini_stl/container/mini_container_list.h:211-215 | one round of reverse's loop: the i-th node moves in front of begin() and the node after it is returned, keeping the loop's invariant: the first i + 1 original nodes now stand reversed in front of the rest, with every value and the other nodes' links kept |
| ListContainer.List.SkipMatch | code/include/mini_stl/container/mini_container_list.h:104-109 | one round of remove's loop on a node that does not hold value: the node is kept and the next node is returned, keeping the loop's invariant that the nodes so far are exactly those of the first i + 1 not holding value, followed by the untouched rest |
| ListContainer.List.EraseMatch | code/include/mini_stl/container/mini_container_list.h:104-109 | one round of remove's loop on a node that holds value: that node is erased and freed and the next node is returned, keeping the same invariant with i + 1 |
| Hashtable.BktNumKey | code/include/mini_stl/utility/mini_utility_hashtable.h:406-415 | bkt_num_key(key, n) = hash(key) % n always names one of the n buckets |
| Hashtable.FlattenUpdate | code/include/mini_stl/utility/mini_utility_hashtable.h:354-377 | replacing one chain changes the elements by exactly the chain taken out and the chain put in |
| Hashtable.CountInBucket | code/include/mini_stl/utility/mini_utility_hashtable.h:239-266 | with every value in its hash bucket, the number of copies of x in the table is the number in x's own bucket |
| Hashtable.InBucket | code/include/mini_stl/utility/mini_utility_hashtable.h:239-252 | so x is in the table exactly when it is in bucket hash(x) % n |
| Hashtable.ChainFind | code/include/mini_stl/utility/mini_utility_hashtable.h:245-250 | the scan of one chain stops at the first node holding value, or at the end exactly when value is absent |
| Hashtable.SetChain | code/include/mini_stl/utility/mini_utility_hashtable.h:351-377 | writing one bucket head changes that bucket only; the multiset of elements changes by the chains swapped |
| Hashtable.MoveHead | code/include/mini_stl/utility/mini_utility_hashtable.h:345-357 | one step of resize's loop: the head of the old bucket is pushed onto the head of its bucket hash % new size in the new table, which is otherwise unchanged |
| Hashtable.DrainBucket | code/include/mini_stl/utility/mini_utility_hashtable.h:345-358 | the inner loop empties one old bucket into the new table by head insertion, node by node in chain order (Hashtable.PushedAllSameBucket gives the resulting order) |
| Hashtable.Rehash | code/include/mini_stl/utility/mini_utility_hashtable.h:344-359 | the outer loop moves every node of buckets 0, 1, ... in turn by head insertion: the old buckets end empty, the new table is exactly that sequence of pushes applied to its old contents, so it holds the union of both, each value in bucket hash % new size |
| Hashtable.PushedAllSameBucket | code/include/mini_stl/utility/mini_utility_hashtable.h:351-355 | when one old chain all lands in one new bucket, that bucket becomes the chain reversed followed by its old contents, and every other bucket is unchanged: resize reverses such chains |
| Hashtable.Hashtable.constructor | code/include/mini_stl/utility/mini_utility_hashtable.h:323-332 | next_prime(n) empty buckets and no elements |
| Hashtable.Hashtable.MaxBucketCount | code/include/mini_stl/utility/mini_utility_hashtable.h:219-222 | max_bucket_count() is the largest table entry |
| Hashtable.Hashtable.Empty | code/include/mini_stl/utility/mini_utility_hashtable.h:226 | empty() exactly when the table has no element |
| Hashtable.Hashtable.ElementsInBucket | code/include/mini_stl/utility/mini_utility_hashtable.h:228-235 | the count of nodes in the chain is its length |
| Hashtable.Hashtable.Find | code/include/mini_stl/utility/mini_utility_hashtable.h:239-252 | find(key) is the end iterator exactly when key is absent; otherwise the first node holding key in its bucket |
| Hashtable.Hashtable.Count | code/include/mini_stl/utility/mini_utility_hashtable.h:254-266 | count(key) is the number of elements equal to key |
| Hashtable.Hashtable.Relink | code/include/mini_stl/utility/mini_utility_hashtable.h:376-402 | storing a chain in its home bucket and adjusting num_elements_ keeps the table's invariant |
| Hashtable.Hashtable.InsertUniqueNoResize | code/include/mini_stl/utility/mini_utility_hashtable.h:363-380 | an equal value already present returns its node with false and changes nothing; otherwise value becomes the head of its bucket, true, size + 1 |
| Hashtable.Hashtable.InsertEqualNoResize | code/include/mini_stl/utility/mini_utility_hashtable.h:383-404 | value goes right after the first equal node of its chain, or at the head when there is none; size + 1 always |
| Hashtable.Hashtable.Resize | code/include/mini_stl/utility/mini_utility_hashtable.h:334-361 | nothing when n <= bucket_count(); otherwise next_prime(n) buckets holding the same elements, each in its new hash bucket, in the order the head-insertion loop leaves them |
| Hashtable.Hashtable.InsertUnique | code/include/mini_stl/utility/mini_utility_hashtable.h:270-274 | resize(size + 1) then insert_unique_no_resize: inserted exactly when value was absent, the bucket count as resize leaves it |
| Hashtable.Hashtable.InsertEqual | code/include/mini_stl/utility/mini_utility_hashtable.h:276-280 | resize(size + 1) then insert_equal_no_resize: one more copy of value, and the returned iterator is the new node, in bucket hash(value) % the bucket count as resize leaves it; without a resize the table is the old one with value inserted right after the first equal node of its chain, or at the chain's head when there is none |
| Hashtable.Hashtable.Clear | code/include/mini_stl/utility/mini_utility_hashtable.h:282-294 | every bucket empty, size 0, the bucket vector kept |
| Hashtable.Hashtable.Begin | code/include/mini_stl/utility/mini_utility_hashtable.h:189-198 | begin() is the head of the first non-empty bucket, the first element of the traversal, or end() for an empty table |
| Hashtable.Hashtable.Increment | code/include/mini_stl/utility/mini_utility_hashtable.h:65-76 | ++ moves to the next element of the traversal, down the chain and then to the next non-empty bucket, and reaches end() after the last |
| Hashtable.Hashtable.Dump | code/include/mini_stl/utility/mini_utility_hashtable.h:189-198 | walking from begin() with ++ to end() visits every element exactly once, bucket by bucket |
| Hashtable.UniqueTraversal | test/unittest/utility/mini_utility_hashtable_test.cpp:41 | the six values in buckets 0, 2, 6 and 10 traverse as 53 55 2 108 59 63 |
| Hashtable.TestBucketValues | test/unittest/utility/mini_utility_hashtable_test.cpp:30-37 | the reference table after the seven insert_unique calls: buckets 0, 2, 6 and 10 hold 53; 55 2 108; 59; 63 |
| Hashtable.UniqueStep | test/unittest/utility/mini_utility_hashtable_test.cpp:30-37 | one insert_unique keeps the table equal to the reference table |
| Hashtable.UniqueRun | test/unittest/utility/mini_utility_hashtable_test.cpp:22-37 | a run of insert_unique calls without rehash builds the reference table |
| Hashtable.UniqueInserts | test/unittest/utility/mini_utility_hashtable_test.cpp:22-37 | the seven calls from the test, with 55 twice, leave the listed chains |
| Hashtable.UniqueScenario | test/unittest/utility/mini_utility_hashtable_test.cpp:19-47 | 53 buckets, size 6, dump 53 55 2 108 59 63 and chain lengths 1, 3, 1, 1 |
| Hashtable.Upto | test/unittest/utility/mini_utility_hashtable_test.cpp:50 | the values 0..n-1 |
| Hashtable.UptoCount | test/unittest/utility/mini_utility_hashtable_test.cpp:50 | each of 0..n-1 once and nothing else |
| Hashtable.EqualStep | test/unittest/utility/mini_utility_hashtable_test.cpp:50-52 | one insert_equal of the loop: size and bucket count as the test expects |
| Hashtable.EqualFacts | test/unittest/utility/mini_utility_hashtable_test.cpp:50-54 | the size and bucket count after i + 1 rounds: 6 + i + 1, and 97 once the size passes 53 |
| Hashtable.EqualScenario | test/unittest/utility/mini_utility_hashtable_test.cpp:19-58 | after 48 insert_equal calls: size 54, 97 buckets, find(108) is 108 and count(2) is 2 |
| Hashtable.Flatten | code/include/mini_stl/utility/mini_utility_hashtable.h:189-198 | the chains one after the other, bucket 0 first: the order in which begin() and operator++ visit the nodes; Hashtable.Hashtable.Dump and Hashtable.FlattenUpdate state its uses |
| DequeIterator.BufSize | code/include/mini_stl/iterator/mini_iterator_deque.h:15-18 | the user's buffer size when non-zero, otherwise as many elements as fit in 512 bytes, and 1 for elements of 512 bytes or more; never 0 |
| DequeIterator.NodeOffsetIsFloor | code/include/mini_stl/iterator/mini_iterator_deque.h:110-112 | both branches of +='s node offset compute the floor of offset / buffer_size, negative offsets included |
| DequeIterator.PosOrder | code/include/mini_stl/iterator/mini_iterator_deque.h:143-148 | a position in an earlier buffer is before every position in a later one |
| DequeIterator.CursorOrder | code/include/mini_stl/iterator/mini_iterator_deque.h:143-148 | comparing by node, then by cur, is comparing global positions |
| DequeIterator.Iter.constructor | code/include/mini_stl/iterator/mini_iterator_deque.h:38-42 | an iterator with all pointers null |
| DequeIterator.Iter.Clone | code/include/mini_stl/iterator/mini_iterator_deque.h:126-132 | the copy self tmp = *this: the same four fields |
| DequeIterator.Iter.SetNode | code/include/mini_stl/iterator/mini_iterator_deque.h:45-50 | node is new_node, first its buffer's start, last first + buffer_size(), cur unchanged |
| DequeIterator.Iter.Increment | code/include/mini_stl/iterator/mini_iterator_deque.h:64-73 | ++ moves the global position one forward, staying in the buffer or jumping to the next node's first slot; cur stays in [first, last) |
| DequeIterator.Iter.PostIncrement | code/include/mini_stl/iterator/mini_iterator_deque.h:75-80 | it++ returns the old position and moves one forward |
| DequeIterator.Iter.Decrement | code/include/mini_stl/iterator/mini_iterator_deque.h:82-91 | -- moves one back, to the previous node's last slot at a buffer start |
| DequeIterator.Iter.PostDecrement | code/include/mini_stl/iterator/mini_iterator_deque.h:93-98 | it-- returns the old position and moves one back |
| DequeIterator.Iter.AddAssign | code/include/mini_stl/iterator/mini_iterator_deque.h:102-119 | += n moves the global position by exactly n, forwards or backwards, staying in the buffer when the target offset fits |
| DequeIterator.Iter.SubAssign | code/include/mini_stl/iterator/mini_iterator_deque.h:122 | -= n moves it back by n |
| DequeIterator.Iter.Plus | code/include/mini_stl/iterator/mini_iterator_deque.h:124-128 | it + n is a new iterator n positions on |
| DequeIterator.Iter.Minus | code/include/mini_stl/iterator/mini_iterator_deque.h:130-134 | it - n is a new iterator n positions back |
| DequeIterator.Iter.Diff | code/include/mini_stl/iterator/mini_iterator_deque.h:57-62 | the difference of two iterators is the difference of their global positions, whichever is larger |
| DequeIterator.Iter.Less | code/include/mini_stl/iterator/mini_iterator_deque.h:143-148 | < exactly when this position is before the other |
| DequeIterator.Iter.Equal | code/include/mini_stl/iterator/mini_iterator_deque.h:139 | comparing cur alone is comparing positions, for buffers that do not overlap |
| DequeIterator.PlusThenDiff | code/include/mini_stl/iterator/mini_iterator_deque.h:124-128 | (it + n) - it == n |
| DequeIterator.IncrementThenDecrement | code/include/mini_stl/iterator/mini_iterator_deque.h:64-91 | -- undoes ++ |
| DequeIterator.NodeOffset | code/include/mini_stl/iterator/mini_iterator_deque.h:110-112 | the node offset operator+= computes for a target outside the current buffer, branch by branch; DequeIterator.NodeOffsetIsFloor states that both branches give floor(offset / buffer_size) |
| DequeLayout.Locate | code/include/mini_stl/iterator/mini_iterator_deque.h:102-119 | the cursor k elements after b stays inside a buffer and has rank exactly k from b |
| DequeLayout.Repeat | code/include/mini_stl/container/mini_container_deque.h:238-254 | n copies of the value, nothing else |
| DequeLayout.LiveSequential | code/include/mini_stl/container/mini_container_deque.h:273-275 | map slots filled by consecutive allocations name exactly the buffers allocated |
| DequeLayout.SequentialShape | code/include/mini_stl/container/mini_container_deque.h:256-290 | after create_map_and_nodes, begin_ at the first slot's start and end_ at n % buffer_size of slot n / buffer_size hold exactly n positions |
| DequeLayout.WriteAt | code/include/mini_stl/container/mini_container_deque.h:45 | writing through operator[] k changes element k of the deque and no other |
| DequeLayout.ReadAt | code/include/mini_stl/container/mini_container_deque.h:45 | operator[] k reads element k |
| DequeLayout.GapFormula | code/include/mini_stl/iterator/mini_iterator_deque.h:57-62 | the element count between two cursors equals the iterator's operator- formula |
| DequeLayout.EmptyIffSame | code/include/mini_stl/container/mini_container_deque.h:60 | the deque is empty exactly when begin_ == end_ |
| DequeLayout.PushBackFast | code/include/mini_stl/container/mini_container_deque.h:65-67 | writing at end_.cur and stepping it appends the value when the last buffer has room to spare |
| DequeLayout.PushBackSlow | code/include/mini_stl/container/mini_container_deque.h:292-305 | writing the last free slot and moving end_ to a fresh buffer appends the value |
| DequeLayout.PushFrontFast | code/include/mini_stl/container/mini_container_deque.h:76-78 | writing before begin_.cur prepends the value |
| DequeLayout.PushFrontSlow | code/include/mini_stl/container/mini_container_deque.h:314-322 | moving begin_ to the last slot of a fresh buffer in the slot before prepends the value |
| DequeLayout.SubLayout | code/include/mini_stl/container/mini_container_deque.h:162-193 | a narrower pair of cursors over kept buffers lays out the matching slice of the elements |
| DequeLayout.PopBackFast | code/include/mini_stl/container/mini_container_deque.h:87-89 | stepping end_.cur back drops the last element |
| DequeLayout.PopBackSlow | code/include/mini_stl/container/mini_container_deque.h:333-340 | when end_.cur is at a buffer's start there is an earlier buffer, and freeing the last buffer drops the last element |
| DequeLayout.PopFrontFast | code/include/mini_stl/container/mini_container_deque.h:98-100 | stepping begin_.cur drops the first element |
| DequeLayout.PopFrontSlow | code/include/mini_stl/container/mini_container_deque.h:342-348 | when begin_.cur is a buffer's last slot there is a later buffer, and freeing the first buffer drops the first element |
| DequeLayout.ShapeRemap | code/include/mini_stl/container/mini_container_deque.h:387-417 | copying the used map slots to a new position keeps the cursors' shape |
| DequeLayout.Remap | code/include/mini_stl/container/mini_container_deque.h:387-417 | relocating the map slots, in place or into a new map, keeps every element in order |
| DequeLayout.ClearTo | code/include/mini_stl/container/mini_container_deque.h:112-130 | keeping only begin_'s buffer and setting end_ = begin_ leaves an empty deque owning exactly that buffer |
| DequeLayout.TrimFront | code/include/mini_stl/container/mini_container_deque.h:174-181 | freeing the buffers before begin_ + n and moving begin_ there drops the first n elements |
| DequeLayout.TrimBack | code/include/mini_stl/container/mini_container_deque.h:184-190 | freeing the buffers after end_ - n and moving end_ there drops the last n elements |
| DequeLayout.Filled | code/include/mini_stl/container/mini_container_deque.h:244-249 | a shape whose live slots all hold the value lays out n copies of it |
| DequeShift.Shifted | code/include/mini_stl/algorithm/mini_algorithm_base.h:74-132 | moving n elements keeps the element count |
| DequeShift.ShiftNone | code/include/mini_stl/algorithm/mini_algorithm_base.h:74-132 | copying zero elements changes nothing |
| DequeShift.ShiftStep | code/include/mini_stl/algorithm/mini_algorithm_base.h:42-51 | one more step of a forward copy writes the next source element, which no earlier step has overwritten |
| DequeShift.ShiftStepBack | code/include/mini_stl/algorithm/mini_algorithm_base.h:125-132 | one more step of a backward copy writes the next source element from the end, not yet overwritten |
| DequeShift.EraseByFront | code/include/mini_stl/container/mini_container_deque.h:144-147 | copy_backward of the prefix then pop_front erases element idx |
| DequeShift.EraseByBack | code/include/mini_stl/container/mini_container_deque.h:148-150 | copy of the suffix then pop_back erases element idx |
| DequeShift.EraseRangeByFront | code/include/mini_stl/container/mini_container_deque.h:172-181 | copy_backward of the prefix then dropping n from the front erases [first, last) |
| DequeShift.EraseRangeByBack | code/include/mini_stl/container/mini_container_deque.h:182-190 | copy of the suffix then dropping n from the back erases [first, last) |
| DequeShift.InsertByFront | code/include/mini_stl/container/mini_container_deque.h:353-368 | push_front(front()), shifting [2, idx + 1) one slot forward and storing at idx inserts the value before element idx |
| DequeShift.InsertByFrontAsWritten | code/include/mini_stl/container/mini_container_deque.h:353-368 | the code as written stores at the old element's slot idx + 1: element idx is lost and element idx - 1 is duplicated |
| DequeShift.InsertByFrontAsWrittenLoses | code/include/mini_stl/container/mini_container_deque.h:353-368 | inserting 9 before index 1 of [1, 2, 3, 4] as written gives [1, 1, 9, 3, 4], not [1, 9, 2, 3, 4] |
| DequeShift.InsertByBack | code/include/mini_stl/container/mini_container_deque.h:360-368 | push_back(back()), copy_backward of [idx, size - 1) and storing at idx inserts the value before element idx |
| DequeContainer.Max | code/include/mini_stl/container/mini_container_deque.h:262 | std::max: at least both arguments and equal to one of them |
| DequeContainer.CopySlots | code/include/mini_stl/container/mini_container_deque.h:396-397 | std::copy of map slots to a lower position: the target range holds the old source slots, all other slots unchanged |
| DequeContainer.CopySlotsBackward | code/include/mini_stl/container/mini_container_deque.h:398-399 | std::copy_backward of map slots to a higher position: the target range holds the old source slots, all other slots unchanged |
| DequeContainer.CopySlotsAcross | code/include/mini_stl/container/mini_container_deque.h:407 | std::copy of the used slots into a new map: the target range holds the source slots, the rest of the new map unchanged |
| DequeContainer.Deque.constructor | code/include/mini_stl/container/mini_container_deque.h:238-290 | deque(n, value) holds n copies of value, with a map of max(8, n / buffer_size + 3) slots and begin_ centred at the start of its buffer |
| DequeContainer.Deque.AllocateNode | code/include/mini_stl/container/mini_container_deque.h:419 | a fresh buffer of buffer_size slots; nothing else changes |
| DequeContainer.Deque.DeallocateNode | code/include/mini_stl/container/mini_container_deque.h:421 | the buffer is released; nothing else changes |
| DequeContainer.Deque.ReleaseNodes | code/include/mini_stl/container/mini_container_deque.h:178-189 | the buffers named by the slots in the range are released and no others |
| DequeContainer.Deque.CreateMapAndNodes | code/include/mini_stl/container/mini_container_deque.h:256-290 | a map of max(8, n / buffer_size + 3) slots, with n / buffer_size + 1 buffers centred in it and cursors n positions apart |
| DequeContainer.Deque.CreateNodes | code/include/mini_stl/container/mini_container_deque.h:273-275 | every slot of [nbegin, nend] gets its own fresh buffer, and those are all the buffers |
| DequeContainer.Deque.FillInitialize | code/include/mini_stl/container/mini_container_deque.h:238-254 | filling the live slots makes the contents n copies of the value |
| DequeContainer.Deque.FillWholeNodes | code/include/mini_stl/container/mini_container_deque.h:244-247 | every slot of every buffer before end_'s holds the value |
| DequeContainer.Deque.Size | code/include/mini_stl/container/mini_container_deque.h:56 | the number of elements |
| DequeContainer.Deque.Empty | code/include/mini_stl/container/mini_container_deque.h:60 | true exactly when there are no elements |
| DequeContainer.Deque.At | code/include/mini_stl/container/mini_container_deque.h:45 | operator[] k returns element k |
| DequeContainer.Deque.Front | code/include/mini_stl/container/mini_container_deque.h:47 | the first element |
| DequeContainer.Deque.Back | code/include/mini_stl/container/mini_container_deque.h:49-53 | the last element (the TODO's *(end_ - 1) is correct) |
| DequeContainer.Deque.Set | code/include/mini_stl/container/mini_container_deque.h:368 | assigning through operator[] k replaces element k and keeps the layout |
| DequeContainer.Deque.Copy | code/include/mini_stl/container/mini_container_deque.h:149-359 | algo::copy over deque iterators moves n elements to a lower index, as Shifted describes |
| DequeContainer.Deque.CopyBackward | code/include/mini_stl/container/mini_container_deque.h:146-366 | algo::copy_backward over deque iterators moves n elements to a higher index, as Shifted describes |
| DequeContainer.Deque.ReallocateMap | code/include/mini_stl/container/mini_container_deque.h:387-417 | recentres in place when the map has more than twice the needed slots, else grows it to size + max(size, nodes_to_add) + 2; the elements are kept in order and the requested slots are free afterwards |
| DequeContainer.Deque.Recentre | code/include/mini_stl/container/mini_container_deque.h:393-400 | the used slots moved within the same map to the new start, elements kept |
| DequeContainer.Deque.Regrow | code/include/mini_stl/container/mini_container_deque.h:401-413 | a new map of the given size holding the used slots at the new start, elements kept |
| DequeContainer.Deque.Rebase | code/include/mini_stl/container/mini_container_deque.h:415-416 | set_node on both cursors at the new start keeps both offsets and all elements |
| DequeContainer.Deque.ReserveMapAtBack | code/include/mini_stl/container/mini_container_deque.h:372-377 | afterwards there are nodes_to_add free slots after end_'s, with elements unchanged |
| DequeContainer.Deque.ReserveMapAtFront | code/include/mini_stl/container/mini_container_deque.h:379-385 | afterwards there are nodes_to_add free slots before begin_'s, with elements unchanged |
| DequeContainer.Deque.PushBack | code/include/mini_stl/container/mini_container_deque.h:63-72 | the value is appended |
| DequeContainer.Deque.PushBackAux | code/include/mini_stl/container/mini_container_deque.h:292-312 | with one slot left in the last buffer, the value is appended, growing the map if needed |
| DequeContainer.Deque.StoreAtNewBackNode | code/include/mini_stl/container/mini_container_deque.h:301-305 | with a free map slot after end_'s, a new buffer is linked and the value appended |
| DequeContainer.Deque.PushFront | code/include/mini_stl/container/mini_container_deque.h:74-83 | the value is prepended |
| DequeContainer.Deque.PushFrontAux | code/include/mini_stl/container/mini_container_deque.h:314-331 | with begin_ at its buffer's start, the value is prepended, growing the map if needed |
| DequeContainer.Deque.StoreAtNewFrontNode | code/include/mini_stl/container/mini_container_deque.h:317-322 | with a free map slot before begin_'s, a new buffer is linked and the value prepended |
| DequeContainer.Deque.PopBack | code/include/mini_stl/container/mini_container_deque.h:85-94 | the last element is removed; the map is kept |
| DequeContainer.Deque.PopBackAux | code/include/mini_stl/container/mini_container_deque.h:333-340 | with end_ at a buffer's start, that buffer is freed and the last element removed |
| DequeContainer.Deque.PopFront | code/include/mini_stl/container/mini_container_deque.h:96-105 | the first element is removed; the map is kept |
| DequeContainer.Deque.PopFrontAux | code/include/mini_stl/container/mini_container_deque.h:342-348 | with one element left in the first buffer, that buffer is freed and the first element removed |
| DequeContainer.Deque.Clear | code/include/mini_stl/container/mini_container_deque.h:107-130 | no elements remain, begin_ is unchanged and only begin_'s buffer is kept |
| DequeContainer.Deque.Erase | code/include/mini_stl/container/mini_container_deque.h:138-153 | element idx is removed, whichever side is shifted, and the returned position is idx |
| DequeContainer.Deque.EraseRange | code/include/mini_stl/container/mini_container_deque.h:162-193 | elements [first, last) are removed and the result is first; erasing everything is clear() |
| DequeContainer.Deque.EraseFront | code/include/mini_stl/container/mini_container_deque.h:175-181 | the first k elements are dropped and their emptied buffers freed |
| DequeContainer.Deque.EraseBack | code/include/mini_stl/container/mini_container_deque.h:185-190 | the last k elements are dropped and their emptied buffers freed |
| DequeContainer.Deque.Insert | code/include/mini_stl/container/mini_container_deque.h:202-216 | push_front at idx 0, push_back at idx size, otherwise the corrected insert_aux of the first "## Findings" row; the value is inserted before element idx and the result is idx (as written, the source's insert loses an element whenever 1 <= idx < size / 2, see DequeContainer.Deque.InsertAuxAsWritten) |
| DequeContainer.Deque.InsertAux | code/include/mini_stl/container/mini_container_deque.h:350-370 | the corrected insert_aux inserts the value before a middle element idx and returns idx |
| DequeContainer.Deque.InsertAuxAsWritten | code/include/mini_stl/container/mini_container_deque.h:350-370 | as written, the front branch returns idx + 1 with element idx lost and element idx - 1 duplicated; the back branch is a correct insert |
| DequeContainer.MoveSlots | code/include/mini_stl/container/mini_container_deque.h:393-400 | reallocate_map's slot move within the old map: std::copy when the slots move to the front, std::copy_backward otherwise; every target slot ends up holding its source slot's old value, for any overlap |
| DequeContainer.Built | code/include/mini_stl/container/mini_container_deque.h:63-72 | push_back of each value in turn, on an empty deque<int, alloc, 3>, gives a valid deque holding exactly those values in order |
| DequeContainer.InsertScenario | test/unittest/container/mini_container_deque_test.cpp:98-115 | on "0 1 7" with the test's 3-slot buffers, insert(begin() + 1, 100) and insert(end() - 1, 6) both take insert_aux's back branch even as the source writes it, returning 1 and 3; the two end inserts return 0 and 6, and the deque ends as "-3 0 100 1 6 7 -1", the dumps the test expects |
| RbTreeValues.Wrap | code/include/mini_stl/utility/mini_utility_rbtree.h:60-63 | hanging a subtree back under a recorded path frame gives a node with that frame's id, colour and key |
| RbTreeValues.UniqueWalk | code/include/mini_stl/utility/mini_utility_rbtree.h:371-404 | a tree has no repeated node ids exactly when its in-order walk lists no id twice |
| RbTreeValues.WalkDistinct | code/include/mini_stl/utility/mini_utility_rbtree.h:371-404 | in a tree with distinct ids, no two in-order positions hold the same node |
| RbTreeValues.RotateLeftKeeps | code/include/mini_stl/utility/mini_utility_rbtree.h:530-562 | a left rotation keeps the in-order sequence and the node set, and keeps ids distinct |
| RbTreeValues.RotateRightKeeps | code/include/mini_stl/utility/mini_utility_rbtree.h:570-602 | a right rotation keeps the in-order sequence and the node set, and keeps ids distinct |
| RbTreeValues.UniqueRotated | code/include/mini_stl/utility/mini_utility_rbtree.h:530-562 | the node a rotation rebuilds has distinct ids when its parts are disjoint |
| RbTreeValues.UniqueRotatedBack | code/include/mini_stl/utility/mini_utility_rbtree.h:570-602 | the mirror-image rebuilt node has distinct ids when its parts are disjoint |
| RbTreeValues.Locate | code/include/mini_stl/utility/mini_utility_rbtree.h:72-114 | every in-order position i is one node of the tree, found with exactly i entries before it |
| RbTreeValues.WrapHeight | code/include/mini_stl/utility/mini_utility_rbtree.h:467-522 | a node is black-balanced exactly when both children are, at equal black height, which grows by one for a black node |
| RbTreeValues.StartFixing | code/include/mini_stl/utility/mini_utility_rbtree.h:470 | recolouring a new leaf red in a red-black tree leaves at most one red-red violation, at that leaf |
| RbTreeValues.ParentRed | code/include/mini_stl/utility/mini_utility_rbtree.h:473-475 | while the parent is red it is not the root, so a black grandparent exists |
| RbTreeValues.Sibling | code/include/mini_stl/utility/mini_utility_rbtree.h:475-503 | the frame seen from the uncle's side describes the same grandparent node |
| RbTreeValues.RecolourPaths | code/include/mini_stl/utility/mini_utility_rbtree.h:479-508 | the three colour writes of the red-uncle case, done one at a time, produce the recoloured grandparent subtree |
| RbTreeValues.UncleRedStep | code/include/mini_stl/utility/mini_utility_rbtree.h:477-508 | with a red uncle, recolouring moves the only violation two levels up and keeps the in-order sequence |
| RbTreeValues.InnerStep | code/include/mini_stl/utility/mini_utility_rbtree.h:486-513 | with a black uncle and an inner child, the rotation at the parent turns the case into an outer one, keeping the in-order sequence |
| RbTreeValues.OuterStep | code/include/mini_stl/utility/mini_utility_rbtree.h:493-517 | with a black uncle and an outer child, recolouring and rotating at the grandparent removes the violation under a black subtree root, keeping the in-order sequence |
| RbTreeValues.FinishFixing | code/include/mini_stl/utility/mini_utility_rbtree.h:473-521 | when the loop stops (at the root, or under a black parent), blackening the root gives a red-black tree with the same in-order sequence |
| RbTreeLinks.Relink | code/include/mini_stl/utility/mini_utility_rbtree.h:371-398 | setting one child pointer of a record keeps its other child, parent, colour and key |
| RbTreeLinks.RotateLeftLinks | code/include/mini_stl/utility/mini_utility_rbtree.h:530-562 | the pointer writes of rotate_left leave the record map describing the rotated tree |
| RbTreeLinks.RotateRightLinks | code/include/mini_stl/utility/mini_utility_rbtree.h:570-602 | the pointer writes of rotate_right leave the record map describing the rotated tree |
| RbTreeLinks.RecolorLinks | code/include/mini_stl/utility/mini_utility_rbtree.h:479-495 | writing a node's colour field keeps the record map describing the tree with that node recoloured |
| RbTreeLinks.AttachLeftmost | code/include/mini_stl/utility/mini_utility_rbtree.h:378-385 | after __insert the header's leftmost is the first node of the new in-order walk: z when it went left of the old leftmost or into an empty tree |
| RbTreeLinks.AttachRightmost | code/include/mini_stl/utility/mini_utility_rbtree.h:378-391 | after __insert the header's rightmost is the last node of the new in-order walk: z when it went right of the old rightmost or into an empty tree |
| RbTreeLinks.AttachLinks | code/include/mini_stl/utility/mini_utility_rbtree.h:378-398 | linking the new node below y, with header's root, leftmost and rightmost updated as __insert does, describes the tree with the new leaf |
| RbTreeLinks.NodeView | code/include/mini_stl/utility/mini_utility_rbtree.h:473-476 | the record of a node reached by a path holds its colour, key, child pointers and the right parent pointer; at the root the header is the parent |
| RbTreeLinks.LocateRecord | code/include/mini_stl/utility/mini_utility_rbtree.h:72-114 | for position i of the in-order walk there is a record whose children and parent pointers match its place in the tree |
| RbTreeLinks.Family | code/include/mini_stl/utility/mini_utility_rbtree.h:473-476 | node->parent and node->parent->parent are the father and grandparent records of the path, with the uncle read off the other child |
| RbTreeInsert.StepFrame | code/include/mini_stl/utility/mini_utility_rbtree.h:252-299 | one step of the descent from the root records the node and the side taken |
| RbTreeInsert.Rank | code/include/mini_stl/utility/mini_utility_rbtree.h:252-256 | the in-order position where the descent stops, never past the end |
| RbTreeInsert.DescendRank | code/include/mini_stl/utility/mini_utility_rbtree.h:248-258 | in a sorted tree, the descent stops at the gap that splits the in-order sequence at Rank: keys before it <= k (or < k for find) and keys after it above |
| RbTreeInsert.UniqueTest | code/include/mini_stl/utility/mini_utility_rbtree.h:274-290 | in a sorted sequence, k is present exactly when the entry just before insert_unique's stopping point has key k |
| RbTreeInsert.FindTest | code/include/mini_stl/utility/mini_utility_rbtree.h:301-302 | in a sorted sequence, k is present exactly when the entry at find's stopping point has key k |
| RbTreeInsert.UniqueStop | code/include/mini_stl/utility/mini_utility_rbtree.h:262-291 | the parent where insert_unique's descent stops is the entry after the gap when it went left, or the one before it when it went right; k is present exactly when that predecessor holds k |
| RbTreeInsert.FindStop | code/include/mini_stl/utility/mini_utility_rbtree.h:293-303 | the last node find went left at is the first entry with key >= k, and k is present exactly when that entry has key k |
| RbTreeInsert.RebalancedFixes | code/include/mini_stl/utility/mini_utility_rbtree.h:467-522 | the rebalance loop, run to its end from any single red-red violation, yields a red-black tree with the same in-order sequence |
| RbTreeInsert.InnerRebalanced | code/include/mini_stl/utility/mini_utility_rbtree.h:486-491 | the inner-case rotation does not change where the loop ends |
| RbTreeInsert.OuterRebalanced | code/include/mini_stl/utility/mini_utility_rbtree.h:493-496 | the outer-case rotation does not change where the loop ends |
| RbTreeInsert.SortedInsert | code/include/mini_stl/utility/mini_utility_rbtree.h:248-258 | putting an entry between keys <= and >= it keeps the sequence sorted |
| RbTreeInsert.InsertTreeSpec | code/include/mini_stl/utility/mini_utility_rbtree.h:467-522 | insert_equal keeps a red-black, sorted tree with unique ids, adds exactly the new node, and places it after every equal key |
| RbTreeInsert.StrictInsert | code/include/mini_stl/utility/mini_utility_rbtree.h:262-291 | putting an entry strictly between its neighbours keeps the keys strictly increasing |
| RbTreeInsert.InsertUniqueStrict | code/include/mini_stl/utility/mini_utility_rbtree.h:262-291 | insert_unique keeps a red-black tree with strictly increasing keys, the key is present afterwards, and the size grows by one exactly when it was absent |
| RbTreeInsert.KeysOf | test/unittest/utility/mini_utility_rbtree_test.cpp:83 | the keys of an in-order walk, in order |
| RbTreeInsert.Grow1 | test/unittest/utility/mini_utility_rbtree_test.cpp:64-66 | 10 is absent from the empty tree, and inserting it gives a single black root |
| RbTreeInsert.Duplicate10 | test/unittest/utility/mini_utility_rbtree_test.cpp:68-69 | after the first insert 10 is present, so the second insert_unique(10) is refused |
| RbTreeInsert.Grow2 | test/unittest/utility/mini_utility_rbtree_test.cpp:71 | inserting 7 gives the tree drawn in the model |
| RbTreeInsert.Grow3 | test/unittest/utility/mini_utility_rbtree_test.cpp:72 | inserting 8 gives the tree drawn in the model |
| RbTreeInsert.Grow4 | test/unittest/utility/mini_utility_rbtree_test.cpp:74 | inserting 15 gives the tree drawn in the model |
| RbTreeInsert.Grow5 | test/unittest/utility/mini_utility_rbtree_test.cpp:75 | inserting 5 gives the tree drawn in the model |
| RbTreeInsert.Grow6 | test/unittest/utility/mini_utility_rbtree_test.cpp:76 | inserting 6 gives the tree drawn in the model |
| RbTreeInsert.Grow7 | test/unittest/utility/mini_utility_rbtree_test.cpp:78 | inserting 11 gives the tree drawn in the model |
| RbTreeInsert.Grow8 | test/unittest/utility/mini_utility_rbtree_test.cpp:79 | inserting 13 gives the tree drawn in the model |
| RbTreeInsert.Grow9 | test/unittest/utility/mini_utility_rbtree_test.cpp:80 | inserting 12 gives the final nine-node tree |
| RbTreeInsert.Chain1 | test/unittest/utility/mini_utility_rbtree_test.cpp:64-72 | the first four insert_unique calls, the duplicate skipped, reach the three-node tree |
| RbTreeInsert.Chain2 | test/unittest/utility/mini_utility_rbtree_test.cpp:74-76 | the next three calls reach the six-node tree |
| RbTreeInsert.Chain3 | test/unittest/utility/mini_utility_rbtree_test.cpp:78-80 | the last three calls reach the nine-node tree |
| RbTreeInsert.Grown9Order | test/unittest/utility/mini_utility_rbtree_test.cpp:82-94 | the final tree lists 5 6 7 8 10 11 12 13 15 in order and 8 6 5 7 11 10 13 12 15 in pre-order, which are the five root-to-leaf paths the test expects |
| RbTreeInsert.Grown9Find | test/unittest/utility/mini_utility_rbtree_test.cpp:96-98 | 8 is found and 9 is not |
| RbTreeInsert.Scenario | test/unittest/utility/mini_utility_rbtree_test.cpp:60-98 | the whole test sequence of insert_unique calls yields the expected order, shape and find results |
| RbTreeContainer.RbTree.constructor | code/include/mini_stl/utility/mini_utility_rbtree.h:411-422 | an empty tree: a red header whose root is null and whose leftmost and rightmost are itself |
| RbTreeContainer.RbTree.Begin | code/include/mini_stl/utility/mini_utility_rbtree.h:308 | leftmost(): the first node in order, or the header when empty |
| RbTreeContainer.RbTree.End | code/include/mini_stl/utility/mini_utility_rbtree.h:228-232 | the header, a record that is no tree node |
| RbTreeContainer.RbTree.Rightmost | code/include/mini_stl/utility/mini_utility_rbtree.h:310 | the last node in order, or the header when empty |
| RbTreeContainer.RbTree.Root | code/include/mini_stl/utility/mini_utility_rbtree.h:306 | the root node, null exactly when the tree is empty |
| RbTreeContainer.RbTree.Empty | code/include/mini_stl/utility/mini_utility_rbtree.h:236 | true exactly when the tree has no nodes |
| RbTreeContainer.RbTree.Size | code/include/mini_stl/utility/mini_utility_rbtree.h:241 | the number of nodes in the tree |
| RbTreeContainer.RbTree.Minimum | code/include/mini_stl/utility/mini_utility_rbtree.h:36-42 | the first node in order of the subtree at x, and null for a null x |
| RbTreeContainer.RbTree.Maximum | code/include/mini_stl/utility/mini_utility_rbtree.h:50-56 | the last node in order of the subtree at x, and null for a null x |
| RbTreeContainer.RbTree.SetColor | code/include/mini_stl/utility/mini_utility_rbtree.h:479-521 | one colour write: only that record changes, and the links describe the tree with the node recoloured |
| RbTreeContainer.RbTree.RelinkLeft | code/include/mini_stl/utility/mini_utility_rbtree.h:530-562 | the pointer writes of rotate_left: x, y, y's old left child and x's parent change as stated, every other record unchanged |
| RbTreeContainer.RbTree.RelinkRight | code/include/mini_stl/utility/mini_utility_rbtree.h:570-602 | the pointer writes of rotate_right: x, y, y's old right child and x's parent change as stated, every other record unchanged |
| RbTreeContainer.RbTree.RotateLeft | code/include/mini_stl/utility/mini_utility_rbtree.h:530-562 | the links afterwards describe the left-rotated subtree, the in-order sequence is unchanged, and root is updated when x was the root |
| RbTreeContainer.RbTree.RotateRight | code/include/mini_stl/utility/mini_utility_rbtree.h:570-602 | the links afterwards describe the right-rotated subtree, the in-order sequence is unchanged, and root is updated when x was the root |
| RbTreeContainer.RbTree.RecolourCase | code/include/mini_stl/utility/mini_utility_rbtree.h:477-508 | the red-uncle case moves node two levels up, still one violation, without changing where the loop ends |
| RbTreeContainer.RbTree.InnerCase | code/include/mini_stl/utility/mini_utility_rbtree.h:486-513 | the inner-case rotation leaves an outer case for the same grandparent |
| RbTreeContainer.RbTree.OuterCase | code/include/mini_stl/utility/mini_utility_rbtree.h:493-517 | the outer case ends the violation: the subtree root is black afterwards |
| RbTreeContainer.RbTree.RebalanceStep | code/include/mini_stl/utility/mini_utility_rbtree.h:473-519 | one loop iteration shortens the path to the root and keeps the eventual result |
| RbTreeContainer.RbTree.Rebalance | code/include/mini_stl/utility/mini_utility_rbtree.h:467-522 | __rb_tree_rebalance makes the tree red-black, keeps its in-order sequence and yields the tree the value model predicts |
| RbTreeContainer.RbTree.LinkNode | code/include/mini_stl/utility/mini_utility_rbtree.h:376-399 | the new node is linked as the left or right child of y, by the source's condition, with header's root, leftmost and rightmost updated and every other record unchanged |
| RbTreeContainer.RbTree.Hang | code/include/mini_stl/utility/mini_utility_rbtree.h:376-399 | linking the new node at the descent's empty slot describes the tree with that new leaf |
| RbTreeContainer.RbTree.Insert | code/include/mini_stl/utility/mini_utility_rbtree.h:371-404 | __insert adds one red-black rebalanced node after every equal key, returns it, and counts it |
| RbTreeContainer.RbTree.InsertEqual | code/include/mini_stl/utility/mini_utility_rbtree.h:248-258 | the new node is placed after every equal key, the tree stays red-black, and the count grows by one |
| RbTreeContainer.RbTree.Descent | code/include/mini_stl/utility/mini_utility_rbtree.h:264-272 | the search loop follows exactly the root-to-null path that the key determines, left when the key is smaller and right otherwise; parent is the last node on it (the header for an empty tree), and comp is true exactly when the last step went left or the tree is empty |
| RbTreeContainer.RbTree.InsertUnique | code/include/mini_stl/utility/mini_utility_rbtree.h:262-291 | inserted exactly when the key was absent; otherwise nothing changes and the result is the node holding the key |
| RbTreeContainer.RbTree.Find | code/include/mini_stl/utility/mini_utility_rbtree.h:293-303 | end() exactly when the key is absent, else the first node in order with that key |
| RbTreeContainer.RbTree.Increment | code/include/mini_stl/utility/mini_utility_rbtree.h:72-92 | the next node in order, or the header after the last |
| RbTreeContainer.RbTree.Decrement | code/include/mini_stl/utility/mini_utility_rbtree.h:94-114 | the previous node in order, and the last node when stepping back from end() |
| RbTreeInsert.DescendFrom | code/include/mini_stl/utility/mini_utility_rbtree.h:251-256 | the descent loop `while (x) x = comp ? left(x) : right(x)` from a subtree, as a function: the frames it passes and the side it takes at each; RbTreeInsert.DescendRank and RbTreeInsert.DescendStep state where it stops |
| RbTreeInsert.Descend | code/include/mini_stl/utility/mini_utility_rbtree.h:248-256 | the descent of insert_equal (equal keys go right) and of insert_unique and find from the root; RbTreeInsert.DescendRank, RbTreeInsert.UniqueStop and RbTreeInsert.FindStop state where it stops |
| RbTreeInsert.Rebalanced | code/include/mini_stl/utility/mini_utility_rbtree.h:473-519 | the loop of __rb_tree_rebalance as a function, case by case: stop at the root or below a black parent, recolour on a red uncle, otherwise rotate once or twice; RbTreeInsert.RebalancedFixes states its outcome |
| RbTreeInsert.InsertTree | code/include/mini_stl/utility/mini_utility_rbtree.h:248-258 | insert_equal as a function: descend, hang a red node at the null child, rebalance and blacken the root; RbTreeInsert.InsertTreeSpec states its outcome |
| RbTreeInsert.InsertUniqueTree | code/include/mini_stl/utility/mini_utility_rbtree.h:262-290 | insert_unique as a function: the tree is unchanged when the key is present, else insert_equal's tree; RbTreeInsert.InsertUniqueStrict states its outcome |
| RbTreeValues.RotateLeft | code/include/mini_stl/utility/mini_utility_rbtree.h:530-562 | __rb_tree_rotate_left on values: the right child takes the node's place and the node becomes its left child; RbTreeValues.RotateLeftKeeps states that the in-order sequence and the addresses are kept |
| RbTreeValues.RotateRight | code/include/mini_stl/utility/mini_utility_rbtree.h:570-602 | __rb_tree_rotate_right on values, the mirror of RotateLeft; RbTreeValues.RotateRightKeeps states what it keeps |
| RbTreeValues.Recoloured | code/include/mini_stl/utility/mini_utility_rbtree.h:477-508 | the red-uncle case on values: parent and uncle black, grandparent red; RbTreeValues.RecolourPaths and RbTreeValues.UncleRedStep state its effect |
| RbTreeValues.Blacken | code/include/mini_stl/utility/mini_utility_rbtree.h:521 | root->color = black on values; RbTreeValues.FinishFixing states that it completes the red-black properties |
| RbTreeContainer.RbTree.DecrementNode | code/include/mini_stl/utility/mini_utility_rbtree.h:99-112 | from the i-th node in order (not the header), both branches of decrement reach the (i-1)-th node: the rightmost node of the left subtree, or the first ancestor reached from a right child |

## Left out

- The C library's `malloc`, `free` and `realloc` are foreign calls. They are modelled by the oracle class `MallocAlloc.SystemHeap`. A script the caller chooses decides which calls fail. Freed memory is never handed out again.
- The out-of-memory handler is foreign code. It is modelled as an installed non-null value whose call has no effect on memory. With no handler installed, `exit(1)` is the `OutOfMemory` outcome.
- MallocAlloc.MallocAllocator.OomMalloc: its loop ends because the malloc script is finite, and malloc succeeds once the script is used up. In the source, a handler that frees nothing while malloc keeps failing makes oom_malloc loop forever. Its promise of an `Ok` result whenever a handler is installed therefore rests on the finite script, and so does the same promise in MallocAlloc.MallocAllocator.Allocate.
- DefaultAlloc.PoolAllocator.ChunkAlloc: its "a handler means the result is `Ok`" clause rests on the same finite script. So do the matching clauses of Replenish, Restock and Salvage. The dependence comes through the first-level allocator call at mini_memory_alloc.h:309. Without that assumption the source may never return from chunk_alloc.
- DefaultAlloc.ConsecutiveScenario: the test mini_memory_alloc.primitive_type allocates three __uint128_t blocks from the same static pool the three uint32_t calls left. The model shows that half only on a fresh pool. PoolAllocator.Allocate does not expose the arena the first refill leaves, so the 16-byte stride on the shared pool is not derived.
- The first-level `reallocate` and `oom_realloc` are not modelled: no core operation calls them. The second-level `reallocate` is declared but never defined in the source.
- `allocate(0)` and `deallocate(p, 0)` underflow in `FREELSIT_INDEX`, which is undefined behaviour. The pool's operations require n >= 1.
- `size_t` wrap-around is not modelled: sizes, `heap_size` and byte counts are unbounded naturals. The only width kept is vector's `max_size()`.
- The containers are not composed with the allocator model. The vector, list, deque, hashtable and rb_tree models get their storage from Dafny arrays, fresh addresses and buffer maps. Their `allocate` and `deallocate` do not go through `simple_alloc` and the pool of `DefaultAlloc`, so no container operation is shown to use that pool.
- Threads and `volatile` are not modelled: the allocator is single-threaded.
- Object construction and destruction in raw storage are not modelled. This covers construct, destroy, and the uninitialized_copy/fill family. An `int` slot is an ordinary cell, and an uninitialized buffer holds zeros.
- Exceptions, rollback paths and `std::cerr` logging are not modelled. These are the try/catch blocks of vector, deque, rbtree and hashtable. `at()` and `reserve()` return an error value instead of throwing.
- The `dump()` and `display` string formatting is not modelled. Contents are sequences, and the toy list's `display` returns the visited values.
- Iterators are positions: array indices, node addresses, or a bucket and a chain index. Nothing models an iterator invalidated by reallocation or by freeing its node.
- The random-access `__copy` of mini_algorithm_base.h:54-59 has no return statement. `AlgoBase.CopyD` models the `__copy_d` it forwards to.
- `list::insert` (line 74) has no return statement. `ListContainer.List.Insert` returns nothing.
- `vector::insert(pos, value)` is a stub that returns NULL (line 162). Only `insert(pos, n, value)` and `insert_aux` are modelled.
- `hashtable::copy_from` inserts `buckets_.size()` null buckets just after clearing them (line 300). That is zero buckets, so the copy then indexes an empty vector. It is not modelled, nor is the copy constructor built on it.
- rb_tree's `clear`, `__copy` and `__erase` are empty bodies, so they are not modelled. The same goes for the destructor and `put_node`, `max_size` and `key_comp`.
- The source's `__insert` links the new node left when `x != 0`. Every caller passes a null x, so `RbTreeContainer.RbTree.Insert` requires x == 0.
- `create_node` leaves the new node's colour unset. The model writes Black, a placeholder that `__rb_tree_rebalance` overwrites with Red at once. The header's key is likewise an unused placeholder 0.
- RbTreeContainer.RbTree.Increment and RbTreeContainer.RbTree.Decrement: the `++` of end() and the `--` of begin() are undefined in the source and excluded by the requires.
- The `get_root_to_leaf_paths` helper of the rbtree test is a test utility, not part of the container. `RbTreeInsert.Grown9Order` states the same shape as the tree's pre-order key sequence.
- ListContainer.List.Merge: requires other != this, so it does not model `l.merge(l)`. The source has no self-check. On a strictly increasing list a self-merge changes nothing, because every `transfer` it makes has pos == last (mini_container_list.h:370). On a list such as [1, 1, 2] it never ends: it moves the first two nodes in front of the third again and again while cur1 stays put.
- `list::sort` is modelled on values. `ListSort` works on the carry and the 64 counter lists as sequences of values, with splice, merge and swap as their updates. The same relinking is proved on nodes for `ListContainer.List.Merge` and `SpliceOne`, but the sort does not relink nodes in place.
- Thin wrappers and adapters are not modelled: set, map, unordered_set, stack, queue, priority_queue, back_insert_iterator, the `ListIter` of mini_iter_list.h, the functional/* functors, `util::pair`, and the base macros.
- code/include/mini_stl/allocator/mini_allocator.h is a stale, non-compiling copy of the allocator, so it is not part of this model. mini_allocator_base.h, mini_memory_construct.h and mini_memory_uninitialized.h are not part of this model either.

## Findings

| source | as written | input that shows it | evidently intended | confidence | as-written member | corrected member |
|---|---|---|---|---|---|---|
| code/include/mini_stl/container/mini_container_deque.h:353-359 | after `push_front(front())`, `pos` still points at the old element, which now sits at index idx + 1; `copy(begin_ + 2, pos, begin_ + 1)` and `*pos = value` then overwrite element idx and duplicate element idx - 1 | inserting 9 before index 1 of [1, 2, 3, 4] gives [1, 1, 9, 3, 4] | keep `copy(begin_ + 2, pos, begin_ + 1)` and store the value through `begin_ + idx`, which is `pos - 1` after the push, giving [1, 9, 2, 3, 4] | not executed | DequeShift.InsertByFrontAsWrittenLoses | DequeContainer.Deque.InsertAux |
| code/include/mini_stl/container/mini_container_list.h:225-233 | `swap(other)` with `other` being `*this` splices the list into itself; the second splice's `transfer(begin, begin, end)` has no self-check and cuts the sentinel out of the ring | `l.swap(l)` on the one-element list [1] | a self-swap leaves the list unchanged | not executed | ListLinks.SelfSwapCycle | ListContainer.List.Swap |
