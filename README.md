# cpp_data_structures in Dafny

This project models, and proves properties of, the container templates and graph routines of
the C++ teaching repository `cpp_data_structures`:

- `UnorderedMap`: a separate-chaining hash map. It has a fixed bucket array, singly linked
  chains, a cached pointer `_head` to the first node, and forward and local iterators.
- The two string hashes it is used with: a polynomial rolling hash and 64-bit FNV-1a.
- `Vector`: a dynamic array over a nullable buffer that doubles its capacity.
- `List`, a doubly linked list with sentinel nodes, and the `Queue` adaptor built on it.
- `BinarySearchTree`: a map from keys to values, ordered by `std::less`.
- `PriorityQueue`: a binary max-heap over a vector.
- The graph routines:
  - `computeIndegrees`, and Kahn's topological sort;
  - Dijkstra's single-source shortest paths with its helpers (`relax`, `infinity`,
    `initializeSingleSource`, the heap comparator), and the reconstruction of the path to
    one destination.

## How the model is built

- **Objects the C++ code updates in place are Dafny classes.** Their methods have `modifies`
  clauses and their functions have `reads` clauses.
- **`Vector` keeps an `array?`.** Its element loops (grow, shift on insert and erase, fill,
  copy) are `while` loops with invariants.
- **The hash map keeps its nodes in an arena.** The arena is a sequence of slots that only
  grows.
  - A bucket holds the slot of the front of its chain, and every node holds the slot of its
    successor.
  - A ghost field `chains` lists the slots of each chain. `Traversal()` lists every slot in
    iteration order: ascending bucket, then front to back.
  - An unlinked node keeps its slot. This is how the model represents a freed node that a
    stale `_head` still names.
- **`List` and the priority queue's container are sequences.** The operations reassign them.
- **Trees, graphs, distance maps and predecessor maps are values.**
- **Iterators are positions or slots.** A null iterator is `None`.
- **Exceptions are `Result` failures.** These are `out_of_range` from `Vector::at` and from
  `std::unordered_map::at`, and `invalid_argument` from `Vector::front`/`back`.
- **Fixed-width integers are written out where the code relies on them:**
  - `size_t` wrap-around in `PriorityQueue::parent(0)` and in the binary search tree's
    `_size--` and `_size++`;
  - modulo 2^64 in both hashes;
  - `int` maximum as `infinity()`.
- **The iteration order of the standard library's `unordered_map` is left open.** The model
  picks any remaining key. Where a loop pops a vertex of least distance, the model picks
  any such vertex.

## Model

| member | source | states |
|---|---|---|
| `HashFunctions.PolynomialRollingHash` | hashmap/hash_functions.cpp:3-15 | the loop computes the sum of `str[i] * 19^i mod 3298534883309`, reduced modulo 2^64 |
| `HashFunctions.ProductsFit` | hashmap/hash_functions.cpp:9-12 | neither `str[i] * p` nor `p * 19` overflows 64 bits for seven-bit characters, so only the accumulation wraps |
| `HashFunctions.PolyHashAppend` | hashmap/hash_functions.cpp:9-12 | rolling property: appending a character adds its term at the next power, modulo 2^64 |
| `HashFunctions.PolyHashEmpty` | hashmap/hash_functions.cpp:4-5 | the empty string hashes to 0 |
| `HashFunctions.PolyHashExample` | hashmap/hash_functions.cpp:3-15 | "ab" hashes to 97 + 98 * 19 = 1959 |
| `HashFunctions.Fnv1aHash` | hashmap/hash_functions.cpp:17-28 | the loop computes 64-bit FNV-1a: start at the offset basis; for each character, exclusive-or it in, then multiply by the FNV prime modulo 2^64 |
| `HashFunctions.Fnv1aEmpty` | hashmap/hash_functions.cpp:18-20 | the empty string hashes to the offset basis 0xCBF29CE484222325 |
| `HashFunctions.Fnv1aAppend` | hashmap/hash_functions.cpp:22-25 | appending a character is exactly one more FNV-1a step |
| `HashFunctions.Fnv1aExample` | hashmap/hash_functions.cpp:17-28 | the published test vector: FNV-1a 64 of "a" is 0xAF63DC4C8601EC8C |
| `UnorderedMaps.RangeHash` | hashmap/UnorderedMap.h:48-50 | a bucket index is below the bucket count, and codes already below it map to themselves |
| `UnorderedMaps.UnorderedMap.Bucket` | hashmap/UnorderedMap.h:197-211 | a key's bucket is a valid bucket index: its hash modulo the bucket count |
| `UnorderedMaps.UnorderedMap.Size` | hashmap/UnorderedMap.h:459-461 | the stored count equals the number of nodes the traversal reaches |
| `UnorderedMaps.UnorderedMap.IsEmpty` | hashmap/UnorderedMap.h:463-465 | empty exactly when the traversal reaches no node |
| `UnorderedMaps.UnorderedMap.BucketCount` | hashmap/UnorderedMap.h:467-469 | the bucket count is positive and there is one chain per bucket |
| `UnorderedMaps.UnorderedMap.InOwnBucket` | hashmap/UnorderedMap.h:522-525 | every node the traversal reaches sits in the chain of the bucket its key hashes to |
| `UnorderedMaps.UnorderedMap.FindInBucket` | hashmap/UnorderedMap.h:213-227 | the scan returns a node of the chain holding the key, or null exactly when no node of the chain holds it |
| `UnorderedMaps.UnorderedMap.Find` | hashmap/UnorderedMap.h:606-612 | `find` returns a node of the key's own bucket holding the key, or `end()` exactly when the key is absent |
| `UnorderedMaps.UnorderedMap.BucketSize` | hashmap/UnorderedMap.h:504-514 | the count is the length of chain `n` |
| `UnorderedMaps.UnorderedMap.LocalBegin` | hashmap/UnorderedMap.h:494-502 | `begin(n)` is the front of chain `n`, or `end(n)` for an empty chain |
| `UnorderedMaps.UnorderedMap.LocalNext` | hashmap/UnorderedMap.h:175-179 | the local `++` moves to the next node of the same chain, or to `end(n)` after its last node |
| `UnorderedMaps.UnorderedMap.Begin` | hashmap/UnorderedMap.h:471-483 | when the cached head is the first node, `begin()` is the first node of the traversal, and it is `end()` exactly when the map is empty |
| `UnorderedMaps.UnorderedMap.NextNonEmpty` | hashmap/UnorderedMap.h:103-106 | the scan stops at the first non-empty bucket from `index` on, and the bucket array points at that chain's front |
| `UnorderedMaps.UnorderedMap.Advance` | hashmap/UnorderedMap.h:92-112 | `++` moves to the next position of the traversal, across buckets, and to `end()` after the last |
| `UnorderedMaps.UnorderedMap.PushFront` | hashmap/UnorderedMap.h:560-604 | an absent key gets a new node at the front of its chain; the count grows by one and the map stays well formed |
| `UnorderedMaps.UnorderedMap.SetValue` | hashmap/UnorderedMap.h:560-604 | overwriting a present key's value changes nothing else: no link, no count, no head |
| `UnorderedMaps.UnorderedMap.AddNode` | hashmap/UnorderedMap.h:580-598 | a new node keeps the map well formed and sets the head as the source's rule does; a head that was the first node stays the first node |
| `UnorderedMaps.UnorderedMap.Insert` | hashmap/UnorderedMap.h:560-604 | `inserted` is true exactly when the key was absent; then the key is added at the front of its chain, otherwise only its value is overwritten; a head that was the first node stays the first node |
| `UnorderedMaps.UnorderedMap.InsertIntoBucket` | hashmap/UnorderedMap.h:236-282 | overwrites a present key's value, else adds a node at the front of the bucket's chain; the head moves to that node when it was null or its bucket is not before `bucket`, with the head's bucket read before the scan |
| `UnorderedMaps.UnorderedMap.InsertMove` | hashmap/UnorderedMap.h:527-558 | `inserted` is true exactly when the key was absent; a present key's value is overwritten in place, otherwise `_insert_into_bucket` adds the node at the front of its chain; a head that was the first node stays the first node |
| `UnorderedMaps.UnorderedMap.Index` | hashmap/UnorderedMap.h:614-633 | `operator[]` returns a present key's node and value and changes nothing; for an absent key it adds a node holding the default value |
| `UnorderedMaps.UnorderedMap.FindWithPrev` | hashmap/UnorderedMap.h:679-698 | the erase scan finds the first node of the chain holding the key, with its predecessor, or reports none exactly when no node holds it |
| `UnorderedMaps.UnorderedMap.Unlink` | hashmap/UnorderedMap.h:684-692 | unlinking via the bucket (front) or the predecessor removes exactly that position from the traversal and decrements the count; every node keeps its key and value |
| `UnorderedMaps.UnorderedMap.EraseKey` | hashmap/UnorderedMap.h:673-700 | `erase(key)` returns 1 and unlinks the key's node when present; otherwise it returns 0 and changes nothing; every node keeps its key and value; the cached head is never touched |
| `UnorderedMaps.UnorderedMap.LocateSlot` | hashmap/UnorderedMap.h:635-671 | a traversal position is a node in the chain of its key's bucket |
| `UnorderedMaps.UnorderedMap.EraseHeadFacts` | hashmap/UnorderedMap.h:635-671 | dropping traversal position `pos`: the new first node is the old second when `pos` was first, and is unchanged otherwise |
| `UnorderedMaps.UnorderedMap.EraseAt` | hashmap/UnorderedMap.h:635-671 | `erase(it)` returns `end()` unchanged for `end()`; otherwise it removes that traversal position and returns its successor, every node keeps its key and value, so the other positions hold the same pairs in the same order, and a head that was first stays first |
| `UnorderedMaps.UnorderedMap.EraseKeyCorrected` | hashmap/UnorderedMap.h:673-700 | as `EraseKey` for the count and the pairs: 1 exactly when the key was present, and then its traversal position is removed while every node keeps its key and value; a head naming the erased node moves to its successor, so a head that was first stays first |
| `UnorderedMaps.UnorderedMap.Clear` | hashmap/UnorderedMap.h:445-457 | every bucket becomes null and every chain empty, the count becomes 0, and `_head` keeps its old value |
| `UnorderedMaps.UnorderedMap.ClearStaleHead` | hashmap/UnorderedMap.h:445-457 | after `clear()` as written, a head that named a node is no longer the first node of the now empty traversal |
| `UnorderedMaps.UnorderedMap.ClearCorrected` | hashmap/UnorderedMap.h:445-457 | as `Clear`, with the head null, so `begin() == end()` |
| `UnorderedMaps.UnorderedMap.constructor` | hashmap/UnorderedMap.h:302-311 | `nextPrime(n)` null buckets, no node, null head, count 0 |
| `UnorderedMaps.UnorderedMap.AppendNode` | hashmap/UnorderedMap.h:359-369 | a copied node goes to the end of chain `i`, linked from the bucket or from the previous copy |
| `UnorderedMaps.UnorderedMap.CopyNode` | hashmap/UnorderedMap.h:358-371 | one copy step: chain `i` grows by a copy holding the same pair, and the head is set at the first copy |
| `UnorderedMaps.UnorderedMap.CopyBucket` | hashmap/UnorderedMap.h:355-373 | chain `i` becomes a copy of the other map's chain `i`, with the same pairs in the same order |
| `UnorderedMaps.UnorderedMap.CopyNext` | hashmap/UnorderedMap.h:352-374 | one outer step extends the copied prefix of buckets by one |
| `UnorderedMaps.UnorderedMap.CopyBuckets` | hashmap/UnorderedMap.h:350-374 | every chain holds the other map's pairs in the same order, and the map is well formed with the same count; the head is the first copy, or, for copy assignment, the first copy of the last non-empty bucket |
| `UnorderedMaps.UnorderedMap.CopyStart` | hashmap/UnorderedMap.h:347-350 | an all-empty map is the start state of the copy loop |
| `UnorderedMaps.UnorderedMap.CopyDone` | hashmap/UnorderedMap.h:352-374 | after the last bucket, the copy is well formed, holds the same pairs and is traversed over its new slots in order |
| `UnorderedMaps.UnorderedMap.Copy` | hashmap/UnorderedMap.h:336-376 | the copy constructor gives the same hash, bucket count, count and pairs per chain; a non-empty copy's head is its first node |
| `UnorderedMaps.UnorderedMap.Move` | hashmap/UnorderedMap.h:378-393 | the move constructor takes over buckets, nodes, count and head; the source is left valid, empty and with a null head |
| `UnorderedMaps.UnorderedMap.Reset` | hashmap/UnorderedMap.h:387-389 | the moved-from state: a fresh all-null bucket array of the same length, count 0, null head |
| `UnorderedMaps.UnorderedMap.CopyAssign` | hashmap/UnorderedMap.h:395-430 | self-assignment changes nothing; otherwise the map holds copies of the other's pairs per chain, and the head is the first copy of the last non-empty bucket |
| `UnorderedMaps.UnorderedMap.Rebuild` | hashmap/UnorderedMap.h:398-403 | copy assignment's first step takes the other's hash, bucket count and count, with all-null buckets |
| `UnorderedMaps.UnorderedMap.CopyAssignCorrected` | hashmap/UnorderedMap.h:395-430 | as `CopyAssign`, and the head is the first node of the traversal |
| `UnorderedMaps.UnorderedMap.MoveAssign` | hashmap/UnorderedMap.h:432-443 | self-assignment changes nothing; otherwise the map takes the other's state, and the other is left valid and empty |
| `UnorderedMaps.EraseKeyStaleHead` | hashmap/UnorderedMap.h:673-700 | when `erase(key)` removes the first node of the traversal, the unchanged `_head` is no longer the first node |
| `UnorderedMaps.CopyAssignHeadNotFirst` | hashmap/UnorderedMap.h:405-424 | with one node in each of two buckets, copy assignment's head rule picks the second node, not the first |
| `UnorderedMaps.UnlinkEffect` | hashmap/UnorderedMap.h:684-692 | unlinking any chain element of a well-formed map yields a well-formed map whose traversal lacks exactly that position |
| `UnorderedMaps.PrependFirst` | hashmap/UnorderedMap.h:585-594 | a node put in front of chain `b` becomes the first of the traversal exactly when the map was empty or `b` is at most the first node's bucket |
| `Vectors.GrownCapacity` | vector/Vector.h:30-37 | `grow` picks 1 for a null buffer, otherwise twice the capacity |
| `Vectors.GrowStuckAtZero` | vector/Vector.h:30-37 | a non-null buffer of capacity 0 grows to capacity 0 |
| `Vectors.GrownCapacityCorrected` | vector/Vector.h:18-49 | the corrected capacity is always larger, and doubles a positive capacity |
| `Vectors.EraseRangeResult` | vector/Vector.h:416-429 | `erase(first, last)` returns the new `end()` when `last` was the last position, and `first` otherwise |
| `Vectors.EraseRangeSkipsLast` | vector/Vector.h:423-428 | erasing `[0, 1)` of two elements returns position 1 (the new end), not position 0 where the following element now sits |
| `Vectors.Vector.Empty` | vector/Vector.h:52-61 | null buffer, capacity 0, no elements |
| `Vectors.Vector.Filled` | vector/Vector.h:62-79 | `count` copies of `value` with capacity `count`, and no buffer when `count` is 0 |
| `Vectors.Vector.Sized` | vector/Vector.h:80-94 | `count` default values with capacity `count` |
| `Vectors.Vector.Copy` | vector/Vector.h:95-110 | a fresh buffer of the same capacity holding the same elements |
| `Vectors.Vector.Move` | vector/Vector.h:111-125 | takes over buffer, size and capacity; the source is left with none |
| `Vectors.Vector.CopyAssign` | vector/Vector.h:135-152 | self-assignment changes nothing; otherwise the same size, capacity and elements in a fresh buffer |
| `Vectors.Vector.MoveAssign` | vector/Vector.h:153-172 | self-assignment changes nothing; otherwise takes the other's buffer, and the other is left with none |
| `Vectors.Vector.Grow` | vector/Vector.h:18-49 | the elements are kept in a fresh buffer of capacity `GrownCapacity` |
| `Vectors.Vector.GrowCorrected` | vector/Vector.h:18-49 | the elements are kept, and afterwards the capacity exceeds the size |
| `Vectors.Vector.IsEmpty` | vector/Vector.h:184-190 | true exactly when there are no elements |
| `Vectors.Vector.Size` | vector/Vector.h:191-194 | the number of elements, at most the capacity |
| `Vectors.Vector.Get` | vector/Vector.h:218-225 | `operator[]` returns the element at that position |
| `Vectors.Vector.At` | vector/Vector.h:200-217 | the element at `pos` exactly when `pos` is below the size; otherwise `out_of_range` |
| `Vectors.Vector.Front` | vector/Vector.h:226-239 | `invalid_argument` exactly when there is no buffer; otherwise slot 0, which is the first element when there is one |
| `Vectors.Vector.Back` | vector/Vector.h:240-253 | `invalid_argument` exactly when there is no buffer; otherwise the last element |
| `Vectors.Vector.FrontOfEmptied` | vector/Vector.h:226-239 | an emptied vector that keeps its buffer still answers `front()` with a value |
| `Vectors.Vector.FrontCorrected` | vector/Vector.h:226-239 | `invalid_argument` exactly when there are no elements; otherwise the first element |
| `Vectors.Vector.BackCorrected` | vector/Vector.h:240-253 | `invalid_argument` exactly when there are no elements; otherwise the last element |
| `Vectors.Vector.ShiftIn` | vector/Vector.h:314-323 | the shifting loop puts `v` at `at` and moves the suffix one place right |
| `Vectors.Vector.PushBack` | vector/Vector.h:255-280 | the value is appended; the buffer is kept when there was room; otherwise it grows by the corrected rule, which equals `grow()` as written except on a non-null buffer of capacity 0 |
| `Vectors.Vector.PopBack` | vector/Vector.h:281-287 | drops the last element; an empty vector stays empty |
| `Vectors.Vector.Insert` | vector/Vector.h:289-346 | the value is inserted at `pos`, the other elements keep their order, and the result is `pos`; the capacity is kept or grown as in `PushBack` |
| `Vectors.Vector.InsertCount` | vector/Vector.h:347-388 | `count` copies of the value are inserted at `pos`, the other elements keep their order, and the result is `pos` |
| `Vectors.Vector.OpenGap` | vector/Vector.h:369-381 | the prefix stays put and the suffix moves `count` places right |
| `Vectors.Vector.Fill` | vector/Vector.h:383-385 | `[pos, pos + count)` holds the value and nothing else changes |
| `Vectors.Vector.Erase` | vector/Vector.h:389-415 | the element at `pos` is removed, the others keep their order, the capacity is kept, and the result is `pos` |
| `Vectors.Vector.EraseRange` | vector/Vector.h:416-429 | `[first, last)` is removed and the result is `EraseRangeResult` |
| `Vectors.Vector.EraseRangeCorrected` | vector/Vector.h:416-429 | `[first, last)` is removed and the result is the position of the element that followed the range |
| `Vectors.Vector.Clear` | vector/Vector.h:555-559 | no elements; buffer and capacity kept |
| `Lists.List.Empty` | linked-list/List.h:111-118 | linked sentinels and no elements |
| `Lists.List.Filled` | linked-list/List.h:119-136 | `count` copies of `value` |
| `Lists.List.Sized` | linked-list/List.h:137-149 | `count` default values |
| `Lists.List.AppendAll` | linked-list/List.h:163-169 | appends every element of the other list, in order |
| `Lists.List.Copy` | linked-list/List.h:150-171 | the same elements in the same order |
| `Lists.List.Move` | linked-list/List.h:172-190 | takes the other's elements and leaves it empty; the sentinels are linked exactly when there were elements |
| `Lists.List.MoveCorrected` | linked-list/List.h:172-190 | takes the other's elements with linked sentinels in both cases, so `begin() == end()` when empty |
| `Lists.List.CopyAssign` | linked-list/List.h:212-231 | self-assignment changes nothing; otherwise the same elements as the other |
| `Lists.List.MoveAssign` | linked-list/List.h:232-255 | self-assignment changes nothing; otherwise takes the other's elements and leaves it empty |
| `Lists.List.Begin` | linked-list/List.h:273-288 | the first position when the sentinels are linked; null otherwise |
| `Lists.List.End` | linked-list/List.h:290-304 | the position after the last element |
| `Lists.List.UnlinkedRange` | linked-list/List.h:172-190 | a list move-constructed from an empty list has no elements, yet `begin() != end()` |
| `Lists.List.IsEmpty` | linked-list/List.h:306-308 | true exactly when there are no elements |
| `Lists.List.Size` | linked-list/List.h:310-312 | the number of elements |
| `Lists.List.Front` | linked-list/List.h:257-263 | the first element |
| `Lists.List.Back` | linked-list/List.h:265-271 | the last element |
| `Lists.List.Clear` | linked-list/List.h:314-324 | no elements, with linked sentinels |
| `Lists.List.Insert` | linked-list/List.h:326-348 | the value is inserted before `pos`, and the result points at it |
| `Lists.List.Erase` | linked-list/List.h:350-374 | on a non-empty list, removes the element at `pos` and returns its successor's position; on an empty list, changes nothing and returns the null pointer read from the tail |
| `Lists.List.PushBack` | linked-list/List.h:376-394 | appends the value, which becomes `back()` |
| `Lists.List.PushFront` | linked-list/List.h:415-433 | prepends the value, which becomes `front()` |
| `Lists.List.PopBack` | linked-list/List.h:396-413 | drops the last element; an empty list stays empty |
| `Lists.List.PopFront` | linked-list/List.h:435-446 | drops the first element; an empty list stays empty |
| `Queues.Queue.Empty` | linked-list/Queue.h:24-29 | an empty queue over a fresh list |
| `Queues.Queue.Front` | linked-list/Queue.h:31-37 | the oldest element |
| `Queues.Queue.Back` | linked-list/Queue.h:38-43 | the newest element |
| `Queues.Queue.IsEmpty` | linked-list/Queue.h:45-47 | true exactly when nothing is queued |
| `Queues.Queue.Size` | linked-list/Queue.h:48-50 | the number of queued elements |
| `Queues.Queue.Push` | linked-list/Queue.h:52-57 | appends at the back, which becomes `back()` |
| `Queues.Queue.Pop` | linked-list/Queue.h:58-60 | removes the oldest element; an empty queue stays empty |
| `Queues.QueueEquals` | linked-list/Queue.h:63-79 | equal exactly when both queues hold the same elements in the same order |
| `Queues.RunFifo` | linked-list/Queue.h:52-60 | first in, first out: over any sequence of pushes and pops, the values popped followed by those left are the initial contents followed by the values pushed |
| `BinarySearchTrees.Entries` | binary-search-tree/BinarySearchTree.h:159-259 | the map a tree represents has exactly the tree's keys |
| `BinarySearchTrees.Contains` | binary-search-tree/BinarySearchTree.h:275-287 | on a search tree, true exactly when the key is stored |
| `BinarySearchTrees.FindNode` | binary-search-tree/BinarySearchTree.h:303-314 | on a search tree, the node holding the key, with the value the map binds it to, or null exactly when absent |
| `BinarySearchTrees.MinNode` | binary-search-tree/BinarySearchTree.h:261-266 | the leftmost element holds a stored key, which on a search tree is the smallest |
| `BinarySearchTrees.MaxNode` | binary-search-tree/BinarySearchTree.h:268-273 | the rightmost element holds a stored key, which on a search tree is the largest |
| `BinarySearchTrees.CopyConstruct` | binary-search-tree/BinarySearchTree.h:45-55 | the deep copy is the same tree |
| `BinarySearchTrees.InsertInto` | binary-search-tree/BinarySearchTree.h:159-218 | stays a search tree, binds the key to the value, and reports a new node exactly when the key was absent |
| `BinarySearchTrees.EraseFrom` | binary-search-tree/BinarySearchTree.h:220-259 | stays a search tree and removes exactly the key; a node with two children takes the minimum of its right subtree |
| `BinarySearchTrees.InsertedRight` | binary-search-tree/BinarySearchTree.h:170-177 | inserting into the right subtree of a smaller key keeps the order and binds the key in the whole tree |
| `BinarySearchTrees.InsertedLeft` | binary-search-tree/BinarySearchTree.h:179-185 | inserting into the left subtree of a larger key keeps the order and binds the key in the whole tree |
| `BinarySearchTrees.MinReplacesRoot` | binary-search-tree/BinarySearchTree.h:243-246 | the right subtree's minimum, erased from that subtree, can replace the root's key and keep the order |
| `BinarySearchTrees.DecrementedSize` | binary-search-tree/BinarySearchTree.h:121 | `_size--` on `size_t`: 0 wraps to 2^64 - 1, otherwise one less |
| `BinarySearchTrees.IncrementedSize` | binary-search-tree/BinarySearchTree.h:165-210 | `_size++` on `size_t`: 2^64 - 1 wraps to 0, otherwise one more, always below 2^64 |
| `BinarySearchTrees.SizeStepsInverse` | binary-search-tree/BinarySearchTree.h:121 | the wrapping decrement and increment undo each other on every `size_t` value, so an erase from an empty tree followed by inserting a new key gives size 0 |
| `BinarySearchTrees.BinarySearchTree.Empty` | binary-search-tree/BinarySearchTree.h:69-73 | an empty map with a correct count |
| `BinarySearchTrees.BinarySearchTree.Copy` | binary-search-tree/BinarySearchTree.h:74-79 | the same tree and count |
| `BinarySearchTrees.BinarySearchTree.Move` | binary-search-tree/BinarySearchTree.h:80-87 | takes the other's tree and count; the other is left empty with a correct count |
| `BinarySearchTrees.BinarySearchTree.CopyAssign` | binary-search-tree/BinarySearchTree.h:123-137 | the other's tree and count, also when assigning to itself |
| `BinarySearchTrees.BinarySearchTree.MoveAssign` | binary-search-tree/BinarySearchTree.h:138-153 | self-assignment changes nothing; otherwise takes the other's tree and count and leaves it empty |
| `BinarySearchTrees.BinarySearchTree.Min` | binary-search-tree/BinarySearchTree.h:97 | a stored entry whose key no stored key is below |
| `BinarySearchTrees.BinarySearchTree.Max` | binary-search-tree/BinarySearchTree.h:98 | a stored entry whose key no stored key is above |
| `BinarySearchTrees.BinarySearchTree.RootElement` | binary-search-tree/BinarySearchTree.h:99-102 | a stored entry whose key lies between the left and right subtrees' keys |
| `BinarySearchTrees.BinarySearchTree.ContainsKey` | binary-search-tree/BinarySearchTree.h:103 | true exactly when the key is stored |
| `BinarySearchTrees.BinarySearchTree.Find` | binary-search-tree/BinarySearchTree.h:105 | the value stored under the key |
| `BinarySearchTrees.BinarySearchTree.IsEmpty` | binary-search-tree/BinarySearchTree.h:106-109 | reads the count; with a correct count, true exactly when nothing is stored |
| `BinarySearchTrees.BinarySearchTree.Size` | binary-search-tree/BinarySearchTree.h:110-113 | with a correct count, the number of stored keys |
| `BinarySearchTrees.BinarySearchTree.Clear` | binary-search-tree/BinarySearchTree.h:115-118 | an empty map with a correct count |
| `BinarySearchTrees.BinarySearchTree.Insert` | binary-search-tree/BinarySearchTree.h:119-120 | binds the key to the value; the count grows by the wrapping `_size++` exactly when the key is new; a correct count stays correct unless the increment wraps |
| `BinarySearchTrees.BinarySearchTree.Erase` | binary-search-tree/BinarySearchTree.h:121 | removes the key; the count is decremented even when the key was absent, which makes a correct count wrong |
| `BinarySearchTrees.BinarySearchTree.EraseCorrected` | binary-search-tree/BinarySearchTree.h:121 | removes the key and decrements the count only when a node was removed, so a correct count stays correct |
| `BinarySearchTrees.EraseEmptyMiscounts` | binary-search-tree/BinarySearchTree.h:121 | erasing from an empty tree leaves no node but a count of 2^64 - 1 |
| `PriorityQueues.Parent` | priority-queue/PriorityQueue.h:20 | a positive index's parent is smaller, and the index is one of its two children; index 0 wraps to `SIZE_MAX / 2` |
| `PriorityQueues.LeftChild` | priority-queue/PriorityQueue.h:21 | a larger index whose parent is `index` |
| `PriorityQueues.RightChild` | priority-queue/PriorityQueue.h:22 | the left child plus one, whose parent is `index` |
| `PriorityQueues.ChildrenOfParent` | priority-queue/PriorityQueue.h:20-22 | the only positions whose parent is `index` are its two children |
| `PriorityQueues.Swap` | priority-queue/PriorityQueue.h:49 | `std::swap` exchanges two positions and keeps the multiset |
| `PriorityQueues.BelowTop` | priority-queue/PriorityQueue.h:116-119 | every element of a heap is at most its top |
| `PriorityQueues.UpStep` | priority-queue/PriorityQueue.h:38-53 | one upheap swap moves the single violation up to the parent |
| `PriorityQueues.DownStep` | priority-queue/PriorityQueue.h:66-99 | one downheap swap with the largest child moves the single violation down to that child |
| `PriorityQueues.DownDone` | priority-queue/PriorityQueue.h:66-99 | downheap may stop when no child exceeds the element |
| `PriorityQueues.PopShape` | priority-queue/PriorityQueue.h:184-193 | swapping the top with the last and dropping it removes the top from the multiset and leaves only position 0 out of place |
| `PriorityQueues.PriorityQueue.Empty` | priority-queue/PriorityQueue.h:102 | an empty heap |
| `PriorityQueues.PriorityQueue.IsInternal` | priority-queue/PriorityQueue.h:23 | true exactly when some element has `index` as its parent |
| `PriorityQueues.PriorityQueue.IsLeaf` | priority-queue/PriorityQueue.h:24 | true exactly when no element has `index` as its parent |
| `PriorityQueues.PriorityQueue.Upheap` | priority-queue/PriorityQueue.h:38-53 | restores the heap from a single upward violation and keeps the multiset |
| `PriorityQueues.PriorityQueue.Downheap` | priority-queue/PriorityQueue.h:66-99 | restores the heap from a single downward violation and keeps the multiset |
| `PriorityQueues.PriorityQueue.Top` | priority-queue/PriorityQueue.h:116-119 | a stored element no element exceeds |
| `PriorityQueues.PriorityQueue.IsEmpty` | priority-queue/PriorityQueue.h:129-131 | true exactly when nothing is stored |
| `PriorityQueues.PriorityQueue.Size` | priority-queue/PriorityQueue.h:140-142 | the number of stored elements |
| `PriorityQueues.PriorityQueue.Push` | priority-queue/PriorityQueue.h:153-174 | stays a heap, with the value added to the multiset |
| `PriorityQueues.PriorityQueue.Pop` | priority-queue/PriorityQueue.h:184-193 | stays a heap, with the old top removed from the multiset; an empty heap stays empty |
| `TopSortHelpers.InDegreeZero` | graph-algorithms/top-sort-helpers.h:21-25 | a vertex's in-degree is zero exactly when no edge ends at it |
| `TopSortHelpers.ZeroVertices` | graph-algorithms/top-sort-helpers.h:17-19 | every vertex's entry is zero and the other entries are kept |
| `TopSortHelpers.CountEdges` | graph-algorithms/top-sort-helpers.h:22-24 | each target's entry grows by the number of edges of the list ending at it, with missing entries read as zero |
| `TopSortHelpers.CountAll` | graph-algorithms/top-sort-helpers.h:21-25 | after every adjacency list is counted, each entry is its zeroed value plus all edges into it |
| `TopSortHelpers.CountedAll` | graph-algorithms/top-sort-helpers.h:17-25 | the two passes give every vertex its in-degree and every other key its old entry plus its in-degree |
| `TopSortHelpers.ComputeIndegrees` | graph-algorithms/top-sort-helpers.h:8-28 | every vertex gets exactly its in-degree; keys that are not vertices keep their entry plus their in-degree |
| `TopSortHelpers.IndegreesTotal` | graph-algorithms/top-sort-helpers.h:8-28 | handshake: on a graph whose edges end at vertices, the in-degrees sum to the number of edges |
| `GraphAlgorithms.Sources` | graph-algorithms/graph-algorithms.h:135-139 | the queue is seeded with each zero-in-degree key exactly once |
| `GraphAlgorithms.KahnStart` | graph-algorithms/graph-algorithms.h:134-139 | the seeded queue and the in-degrees are the start state of Kahn's loop |
| `GraphAlgorithms.EmitFront` | graph-algorithms/graph-algorithms.h:142-144 | the front of the queue is an unemitted vertex all of whose predecessors are already emitted |
| `GraphAlgorithms.ReleaseStep` | graph-algorithms/graph-algorithms.h:146-151 | one decrement keeps each entry equal to the number of edges from vertices not yet released, and queues a vertex exactly when its entry reaches zero |
| `GraphAlgorithms.ReleaseOne` | graph-algorithms/graph-algorithms.h:147-150 | the step method for one edge, which appends to the queue at most the edge's target |
| `GraphAlgorithms.ReleaseTargets` | graph-algorithms/graph-algorithms.h:146-151 | after the inner loop, the state is Kahn's invariant with the vertex counted as emitted, and the old queue is a prefix of the new one |
| `GraphAlgorithms.KahnStuck` | graph-algorithms/graph-algorithms.h:141-153 | when the queue empties, every unemitted vertex has an edge from another unemitted vertex |
| `GraphAlgorithms.TopologicalSort` | graph-algorithms/graph-algorithms.h:114-163 | the emitted list is duplicate-free with every edge pointing forward; it holds every vertex exactly when the graph has no cycle; the result is that list, or empty when there is a cycle |
| `GraphCycles.KahnVerdict` | graph-algorithms/graph-algorithms.h:155-157 | the size check is right: an ordered stuck list is complete exactly when the graph is acyclic |
| `GraphCycles.NoCycleWhenOrdered` | graph-algorithms/graph-algorithms.h:155-157 | a duplicate-free list of all vertices with every edge pointing forward rules out a cycle |
| `GraphCycles.CycleWhenStuck` | graph-algorithms/graph-algorithms.h:155-157 | an unemitted vertex when Kahn's loop is stuck lies on a walk back that must repeat, hence a cycle |
| `DijkstrasHelpers.InfinityIsMaximum` | graph-algorithms/dijkstras-helpers.h:35-38 | `infinity()` is the largest `int` weight |
| `DijkstrasHelpers.Relax` | graph-algorithms/dijkstras-helpers.h:13-33 | relaxes exactly when `d[u] + w < d[v]`, then sets `d[v]` and `v`'s predecessor; distances never rise; afterwards the edge's triangle inequality holds |
| `DijkstrasHelpers.ResetVertices` | graph-algorithms/dijkstras-helpers.h:45-49 | every vertex gets distance infinity and no predecessor, and other keys keep their entries |
| `DijkstrasHelpers.InitializeSingleSource` | graph-algorithms/dijkstras-helpers.h:40-51 | as above, and the source gets distance 0; throws `out_of_range` exactly when the source has no entry |
| `DijkstrasHelpers.Compare` | graph-algorithms/dijkstras-helpers.h:53-61 | throws `out_of_range` when either vertex has no distance; otherwise true exactly when `a` is farther |
| `DijkstrasHelpers.Negated` | graph-algorithms/dijkstras-helpers.h:58-60 | the heap under the comparator is a max-heap of negated distances |
| `DijkstrasHelpers.NearestOnTop` | graph-algorithms/dijkstras-helpers.h:63-70 | after `make_heap` with the comparator, the top has the least distance, and the comparator ranks it after no element |
| `GraphAlgorithms.RelaxStep` | graph-algorithms/graph-algorithms.h:79-85 | relaxing an edge from a visited vertex into an unvisited one keeps the loop invariant |
| `GraphAlgorithms.Visit` | graph-algorithms/graph-algorithms.h:66-75 | popping a finite-distance vertex and marking it visited keeps the loop invariant |
| `GraphAlgorithms.RelaxEdges` | graph-algorithms/graph-algorithms.h:77-86 | the inner loop keeps the invariant; each vertex keeps its entries, or, when unvisited, gets a lower distance with the popped vertex as predecessor |
| `GraphAlgorithms.NearestExists` | graph-algorithms/graph-algorithms.h:57-58 | a non-empty queue has a vertex of least distance |
| `GraphAlgorithms.LoweredStep` | graph-algorithms/graph-algorithms.h:77-86 | an iteration's changes compose: distances only drop, and drop exactly where a predecessor was set |
| `GraphAlgorithms.RelaxedStep` | graph-algorithms/graph-algorithms.h:57-86 | a round keeps relaxed every edge out of a visited vertex into a vertex not visited before it |
| `GraphAlgorithms.RelaxedNoNearer` | graph-algorithms/graph-algorithms.h:77-86 | with no negative weight, a distance lowered through the popped vertex is at least that vertex's distance |
| `GraphAlgorithms.MonotoneStep` | graph-algorithms/graph-algorithms.h:57-86 | with no negative weight, a round keeps the vertices visited in order of distance |
| `GraphAlgorithms.ClosedAtEnd` | graph-algorithms/graph-algorithms.h:57-88 | with no negative weight, no edge is tense once the loop stops |
| `GraphAlgorithms.DijkstraRound` | graph-algorithms/graph-algorithms.h:58-86 | one round, popping a nearest vertex at finite distance, keeps the whole loop state |
| `GraphAlgorithms.DijkstraLoop` | graph-algorithms/graph-algorithms.h:57-88 | at the end, the source is visited at distance 0, unvisited vertices are at infinity and visited ones finite; distances only dropped, and exactly where a predecessor was set; each predecessor was visited before its successor and reaches it by a tight edge; every edge out of a visited vertex into one not visited before it is relaxed; with no negative weight no edge is tense |
| `GraphAlgorithms.WalkBound` | graph-algorithms/graph-algorithms.h:26-31 | with no tense edge, a walk's last vertex is no farther than its first plus the walk's weight |
| `GraphAlgorithms.TightWalk` | graph-algorithms/graph-algorithms.h:94-103 | a chain of tight edges is a walk weighing the difference of the distances at its ends |
| `GraphAlgorithms.PathIsWalk` | graph-algorithms/graph-algorithms.h:94-103 | a chain of tight edges from a vertex at distance 0 is a walk weighing its last vertex's distance |
| `GraphAlgorithms.ReconstructPath` | graph-algorithms/graph-algorithms.h:94-103 | following predecessors from the destination gives a chain of predecessor links that ends at the destination and starts at a vertex without one; the chain is empty exactly when the destination is not the source and has no predecessor |
| `GraphAlgorithms.Rooted` | graph-algorithms/graph-algorithms.h:52-88 | every predecessor was visited before its successor, and a vertex that is some vertex's predecessor but has no predecessor of its own is the source |
| `GraphAlgorithms.DijkstrasAlgorithm` | graph-algorithms/graph-algorithms.h:24-106 | throws `out_of_range` exactly when the source is not a vertex; otherwise the source is at distance 0 and the path runs from the source to the destination along edges whose weights equal the differences of the final distances, so it is a walk weighing the destination's distance; it is empty exactly when the destination is not the source and its distance stayed infinite; with no negative weight no walk from the source to the destination weighs less, so the path is a shortest one, and a destination reachable at a weight below infinity gets a non-empty path |

## Left out

- Input, output and printing are not modelled: `printLevelByLevel`, `printNode`, `printTree`
  and `vizTree`, the graph stream operators, and `readEdge`.
- `weighted-graph.hpp` and `graph-types.h` are not part of this model. A graph is a map from
  each vertex to its adjacency list of `(target, weight)` pairs.
- `GraphAlgorithms.TopologicalSort`, `GraphAlgorithms.DijkstrasAlgorithm` and
  `GraphAlgorithms.DijkstraLoop` require every edge to end at a vertex. The model takes this
  as what the graph's `push_edge` guarantees.
- `GraphAlgorithms.DijkstrasAlgorithm` proves that the path is a shortest one only when no
  weight is negative. The source neither checks nor documents that condition; with a
  negative weight the model still proves a walk of tight edges from the source.
- Destructors, `deleteTree`, and memory release in general are not modelled. A freed
  hash-map node stays in the arena with its last contents.
- `UnorderedMap::load_factor`, `cbegin`/`cend`, and the iterators' dereference and
  comparison operators are left out. They read a field or compare pointers.
- `next_greater_prime` is not part of this model. It is the constructor parameter
  `nextPrime`, required to give a positive count.
- `UnorderedMaps.UnorderedMap.EraseAt` computes the successor before unlinking; the source
  unlinks first and then increments the iterator. The increment reads only the erased
  node's link and the buckets after its own, which unlinking does not change, so the result
  is the same.
- Copy and move assignment release the old bucket array with `delete` instead of
  `delete[]`. Memory release is not modelled.
- `UnorderedMaps.UnorderedMap.Copy`: the copy constructor never assigns `_head` for an
  empty source. The model leaves the head an arbitrary value in that case.
- `BinarySearchTree::clone` repeats `copyConstruct` and is not used; `CopyConstruct` covers
  both.
- The non-const `BinarySearchTree::find(key, t)` is left out. It does not compile as
  written: a misplaced parenthesis hands `comp` one argument. The const overload is modelled.
- Template generality is left out:
  - the binary search tree's keys are integers ordered by `<`;
  - the priority queue holds integers compared by `std::less`;
  - `key_equal` is `==` on the key type.
- `Queue`'s defaulted copy and move operations are left out. They copy or move the
  underlying list, which `List.Copy` and `List.Move` model.
- `Vector::capacity()`, `begin()`, `end()` and the iterator class are left out. Iterators are
  positions in the model.
- `updateHeap`/`make_heap` inside Dijkstra's loop are abstracted: the loop pops any vertex
  of least distance. `NearestOnTop` shows that this is what the heap's top is.
- Weights and distances are unbounded integers. Overflow of `d[u] + w` in `relax` is not
  modelled.
- `HashFunctions.PolynomialRollingHash` and `HashFunctions.Fnv1aHash` require seven-bit
  characters. A `char` at or above 0x80 is sign-extended where `char` is signed, which
  depends on the platform.
- `Vectors.Vector.Front` requires a buffer of positive capacity when there is one. A
  zero-capacity buffer has no slot 0 to read.
- `Vectors.Vector.Back` requires at least one element when there is a buffer. With none,
  `_size - 1` wraps and reads outside the buffer.
- `Vectors.Vector.Get` requires a position below the size. `operator[]` does no check.
- `Vectors.Vector.PushBack`, `Vectors.Vector.Insert` and `Vectors.Vector.InsertCount` grow by
  the corrected rule (`GrowCorrected`). The as-written `grow()` leaves a non-null
  zero-capacity buffer at capacity 0. After that, `push_back` and `insert` write out of
  bounds, and the growing loop of `insert(pos, count, value)` never stops. The model does not
  reproduce those effects. In every other case both rules give the same capacity.
- `Vectors.Vector.InsertCount` and `Vectors.Vector.OpenGap` require `pos` below the size
  when `count > 0`. At `pos == size` the shifting loop reads past the last element and never
  reaches `end()`.
- `Lists.List.Insert`, `Lists.List.PushBack`, `Lists.List.PushFront` and
  `Lists.List.AppendAll` require linked sentinels. On a list move-constructed from an empty
  list they dereference null.
- `Lists.List.Erase` requires `pos` to be an element position on a non-empty list. Erasing
  `end()` would unlink the tail sentinel.
- `Lists.List.Front`, `Lists.List.Back`, `Queues.Queue.Front` and `Queues.Queue.Back`
  require a non-empty list, because they read a sentinel's neighbour.
- `PriorityQueues.PriorityQueue.Top` requires a non-empty container, because `c[0]` of an
  empty vector is undefined.
- `BinarySearchTrees.BinarySearchTree.Min`, `BinarySearchTrees.BinarySearchTree.Max` and
  `BinarySearchTrees.BinarySearchTree.RootElement` require a non-empty tree.
  `BinarySearchTrees.BinarySearchTree.Find` requires a present key. Otherwise each
  dereferences null.

## Findings

| source | as written | input that shows it | evidently intended | confidence | as-written member | corrected member |
|---|---|---|---|---|---|---|
| vector/Vector.h:30-37 | `grow()` doubles any non-null buffer, so a capacity-0 buffer stays at 0 | copy-construct an empty vector (a non-null buffer of capacity 0), then `push_back`: it writes slot 0 of a zero-length buffer | a capacity of at least 1 after growing | not executed | `Vectors.GrowStuckAtZero` | `Vectors.Vector.GrowCorrected` |
| vector/Vector.h:226-239 | `front()` throws only when there is no buffer | `push_back(1)`, then `pop_back()`; `front()` returns a stale value instead of throwing | throw exactly when there are no elements | not executed | `Vectors.Vector.FrontOfEmptied` | `Vectors.Vector.FrontCorrected` |
| vector/Vector.h:423-428 | `erase(first, last)` returns the new `end()` when `last` was the last position | erase `[0, 1)` of `[a, b]`: the result is position 1, past `b` | the position of the element that followed the range | not executed | `Vectors.EraseRangeSkipsLast` | `Vectors.Vector.EraseRangeCorrected` |
| binary-search-tree/BinarySearchTree.h:121 | `erase(x)` decrements `_size` even when `x` is absent | `erase(5)` on an empty tree: `size()` becomes 2^64 - 1 | decrement only when a node is removed | not executed | `BinarySearchTrees.EraseEmptyMiscounts` | `BinarySearchTrees.BinarySearchTree.EraseCorrected` |
| hashmap/UnorderedMap.h:673-700 | `erase(key)` never updates `_head` | insert one key, then erase it: `begin()` still names the freed node | move the head on, as `erase(iterator)` does | not executed | `UnorderedMaps.EraseKeyStaleHead` | `UnorderedMaps.UnorderedMap.EraseKeyCorrected` |
| hashmap/UnorderedMap.h:445-457 | `clear()` leaves `_head` pointing at a freed node | insert one key, then `clear()`: `begin() != end()` on an empty map | a null head | not executed | `UnorderedMaps.UnorderedMap.ClearStaleHead` | `UnorderedMaps.UnorderedMap.ClearCorrected` |
| hashmap/UnorderedMap.h:405-424 | copy assignment resets `isHead` for every bucket, so `_head` ends at the first copy of the last non-empty bucket | assign a map with one key in bucket 0 and one in bucket 1: `begin()` starts at the bucket-1 node | the first node in traversal order, as the copy constructor sets it | not executed | `UnorderedMaps.CopyAssignHeadNotFirst` | `UnorderedMaps.UnorderedMap.CopyAssignCorrected` |
| linked-list/List.h:172-190 | move-constructing from an empty list leaves the sentinels unlinked | `List<int> b(std::move(a))` with `a` empty: `b.begin() != b.end()` though `b` is empty | sentinels linked to each other | not executed | `Lists.List.UnlinkedRange` | `Lists.List.MoveCorrected` |
