# TinySTL core in Dafny

TinySTL is a small re-implementation of the C++ standard template library. This project models
its core and proves properties of that model:

- the sequence algorithms of `algo.h` and `algobase.h`: the `all_of`/`any_of`/`none_of` and
  `count`/`find` families, `max`/`min`, `iter_swap`, `copy`, `copy_backward` and `copy_if`;
- the heap algorithms of `heap_algo.h`;
- `swap`, `swap_range` and `pair` from `util.h`;
- the `char_traits` primitives of `basic_string.h`;
- the `deque` iterator of `deque.h`;
- the bucket-count prime table and `stl_next_prime` of `hashtable.h`;
- the doubly linked `list` of `tmp/list.h`;
- the singly linked list primitives of `slist.h`;
- `vector` from `vector.h`;
- the red-black tree of `rb_tree.h`: node primitives, rotations, iterator steps, insert and
  erase rebalancing, and the `rb_tree` container operations;
- the segment tree of `Extend/segtree.h`.

## How the model is built

Each header is one module. Algorithms that work through iterators over contiguous storage
become methods over a Dafny `array` with integer indices, and their loops keep the source's
structure. Containers whose members update fields become classes, as follows:

- `vector` is a class over an `array` buffer with `finish` as an index.
- `list` is a class over a shared node heap. `prev`, `next` and `value` are sequences indexed by
  node number, and `freed` holds the nodes that `destroy_node` has released.
- `slist` and the red-black tree use arenas of node links. The index 0 of the tree arena is the
  header; `Null` (-1) is the null pointer.
- The segment tree is a class over its slot sequence `d`.

Comparisons are an injected `lt` relation whose properties are stated by `StrictWeakOrder` or
`StrictTotalOrder`. One Dafny member covers both the `operator<` overload and the `Compare`
overload of an algorithm. Each class has a ghost specification state that its methods are proved
against:

- `Contents()` for the value containers;
- `Pos()` for the deque iterator;
- the ghost `tree` of a red-black arena;
- `Values()` for the segment tree.

Exceptions become values of `Wrappers.Error`. `THROW_LENGTH_ERROR_IF` is defined twice in
`exceptdef.h`, and the definition in force throws `std::out_of_range`, so every size-limit check
yields `OutOfRange`. `ConstructionFailed` stands for a value constructor that throws.

`char` is signed on the targets the library is built for, so a `char_traits<char>` character is
the newtype `BasicString.Char` over -128..127, and `compare` orders characters by that signed
value.

## Model

| member | source | states |
|---|---|---|
| Algo.AllOf | TinySTL/algo.h:24-33 | true exactly when pred holds of every element of [first, last) |
| Algo.AnyOf | TinySTL/algo.h:39-48 | true exactly when pred holds of some element of [first, last) |
| Algo.NoneOf | TinySTL/algo.h:54-63 | true exactly when pred holds of no element of [first, last) |
| Algo.Count | TinySTL/algo.h:69-79 | the result is the multiplicity of value in the multiset of [first, last) |
| Algo.CountIf | TinySTL/algo.h:85-95 | the result is the number of elements of [first, last) that satisfy pred |
| Algo.CountMatchesCountIf | TinySTL/algo.h:69-95 | counting a value is count_if with the equality predicate |
| Algo.Find | TinySTL/algo.h:101-108 | the first index in [first, last) holding value, and last exactly when value does not occur |
| Algo.FindIf | TinySTL/algo.h:114-121 | the first index whose element satisfies pred, or last when none does |
| Algo.FindIfNot | TinySTL/algo.h:127-134 | the first index whose element fails pred, or last when every element satisfies it |
| Algobase.Max | TinySTL/algobase.h:16-27 | the result is one of the two arguments; lhs unless lhs < rhs; under a strict weak order neither argument is above it (both overloads) |
| Algobase.Min | TinySTL/algobase.h:29-34 | the result is one of the two arguments; it is rhs unless lhs < rhs, so equivalent arguments give rhs; under a strict weak order neither argument is below it |
| Algobase.MinCmp | TinySTL/algobase.h:37-41 | the comparator overload of min: lhs unless rhs < lhs, so equivalent arguments give lhs |
| Algobase.MinFormsAgree | TinySTL/algobase.h:29-41 | the two min overloads agree except on equivalent arguments, where the `<` form returns rhs and the comparator form lhs |
| Algobase.IterSwap | TinySTL/algobase.h:47-51 | the two slots exchange their values; every other slot is unchanged |
| Algobase.Copy | TinySTL/algobase.h:60-110 | the destination range holds the old source range, the returned end is result + n, and nothing else changes |
| Algobase.CopyBackward | TinySTL/algobase.h:119-148 | copying from the back, the range ending at result holds the old source range even when the ranges overlap forward; returns its start |
| Algobase.CopyForward | TinySTL/algobase.h:151-171 | the `memmove` specialisation: the destination holds the old source range for any overlap |
| Algobase.FilterAppend | TinySTL/algobase.h:177-187 | filtering a concatenation filters each part in turn, the step that copy_if's loop relies on |
| Algobase.CopyIf | TinySTL/algobase.h:177-187 | the destination holds exactly the elements of the old source range that satisfy pred, in order; the returned end is after them |
| BasicString.Length | TinySTL/basic_string.h:24-30 | the number of characters before the first zero character |
| BasicString.Compare | TinySTL/basic_string.h:32-42 | the result is -1, 0 or 1; 0 exactly when the n characters agree; otherwise its sign is the signed comparison at the first difference |
| BasicString.Copy | TinySTL/basic_string.h:44-51 | for disjoint ranges, the n characters at dst equal the old n characters at src and the rest is unchanged; returns dst |
| BasicString.Move | TinySTL/basic_string.h:53-69 | for any overlap, the n characters at dst equal the old n characters at src and the rest is unchanged; returns dst |
| BasicString.Fill | TinySTL/basic_string.h:71-77 | exactly [dst, dst + count) holds ch and the rest is unchanged; returns dst |
| Deque.BufSize | TinySTL/deque.h:31-36 | for elements under 256 bytes, the largest count whose buffer fits in 4096 bytes; otherwise 16; always at least 16 |
| Deque.NodeOffset | TinySTL/deque.h:141-155 | for an offset outside the buffer, the node step of `operator+=` is the floor of offset / buffer size, for negative offsets too |
| Deque.PositionOrder | TinySTL/deque.h:180-186 | comparing node first and slot second orders linear positions |
| Deque.Iter.At | TinySTL/deque.h:64-67 | the constructor as intended: the iterator is valid, in buffer y at address x, at linear position y * b + (x - first) |
| Deque.Iter.AtAsWritten | TinySTL/deque.h:64-67 | the constructor as written: node keeps an indeterminate value; the iterator is valid exactly when that value names a buffer at the same address as y |
| Deque.AtAsWrittenBroken | TinySTL/deque.h:64-67 | a concrete as-written iterator, in buffer 0 with node 1, that is not valid |
| Deque.Iter.Copy | TinySTL/deque.h:68-71 | the copy has the same four pointers and the same map |
| Deque.Iter.SetNode | TinySTL/deque.h:171-176 | node is k and first, last bound buffer k; cur is kept |
| Deque.Iter.Difference | TinySTL/deque.h:100-104 | the distance is the difference of the linear positions |
| Deque.Iter.Incr | TinySTL/deque.h:106-115 | the position grows by one, stepping to the first slot of the next buffer from the last slot |
| Deque.Iter.Decr | TinySTL/deque.h:124-133 | the position drops by one, stepping to the last slot of the previous buffer from the first slot |
| Deque.Iter.AddAssign | TinySTL/deque.h:141-155 | for any n whose target lies in the map, the position grows by n and the iterator stays valid |
| Deque.Iter.SubAssign | TinySTL/deque.h:163 | the position drops by n |
| Deque.Iter.Plus | TinySTL/deque.h:157-161 | a new iterator at position + n |
| Deque.Iter.Minus | TinySTL/deque.h:165-169 | a new iterator at position - n |
| Deque.Iter.Eq | TinySTL/deque.h:180 | over a map of disjoint buffers, equal addresses are equal positions |
| Deque.Iter.Lt | TinySTL/deque.h:182-183 | on one map, `<` is position order |
| Deque.Iter.Ne | TinySTL/deque.h:181 | the negation of `==` |
| Deque.Iter.Gt | TinySTL/deque.h:184 | on one map, `>` is reverse position order |
| Deque.Iter.Le | TinySTL/deque.h:185 | on one map, `<=` is position order or equality |
| Deque.Iter.Ge | TinySTL/deque.h:186 | on one map, `>=` is reverse position order or equality |
| Hashtable.PrimeList64Increasing | TinySTL/hashtable.h:194-216 | the 64-bit table has 99 entries, starts at 101 and increases strictly |
| Hashtable.PrimeList32Increasing | TinySTL/hashtable.h:224-232 | the 32-bit table has 44 entries, starts at 101 and increases strictly |
| Hashtable.PrimeListShape | TinySTL/hashtable.h:188-232 | on either target the table has `PRIME_NUM` entries, starts at 101 and increases strictly |
| Hashtable.LowerBound | TinySTL/hashtable.h:240 | every entry before the result is below n and every entry from it on is at least n |
| Hashtable.LowerBoundOrLast | TinySTL/hashtable.h:240-241 | an entry of the table: the least one at least n, or the last one when n exceeds them all |
| Hashtable.NextPrime | TinySTL/hashtable.h:235-242 | `stl_next_prime(n)` is an entry of the table: the least one at least n, or the last one when n exceeds them all |
| Hashtable.SmallRequestsGetFirstPrime | TinySTL/hashtable.h:235-242 | any n up to 101 gets 101 buckets |
| Hashtable.NextPrimeIsLeast | TinySTL/hashtable.h:235-242 | no entry at least n is below the result |
| HeapAlgo.PushHeapAux | TinySTL/heap_algo.h:21-32 | sifting value up from the hole gives a heap from top; the multiset is the old one with the hole's slot set to value; slots off the path are unchanged (also the comparator overload at 47-60) |
| HeapAlgo.PushHeap | TinySTL/heap_algo.h:34-44 | a heap on [first, last - 1) with a new last value becomes a heap on [first, last) with the same multiset; the tail is unchanged (also 62-73) |
| HeapAlgo.AdjustHeap | TinySTL/heap_algo.h:79-99 | moving the hole down to a leaf and pushing value up makes [hole, len) a heap with the old multiset and value in place of the hole (also 117-138) |
| HeapAlgo.PopHeapAux | TinySTL/heap_algo.h:102-108 | the old root goes to result, and the rest is a heap holding the old prefix without the root plus the displaced value (also 140-146) |
| HeapAlgo.PopHeap | TinySTL/heap_algo.h:110-114 | the old root is at last - 1; [first, last - 1) is a heap; the multiset of [first, last) is unchanged; the moved root is not below any element before it (also 148-153) |
| HeapAlgo.SortHeap | TinySTL/heap_algo.h:160-177 | a heap on [first, last) becomes sorted with the same multiset |
| HeapAlgo.MakeHeap | TinySTL/heap_algo.h:183-227 | any range becomes a heap with the same multiset; the rest of the array is unchanged |
| HeapAlgo.HeapRootMax | TinySTL/heap_algo.h:110-114 | in a heap, no element is above the root: why pop_heap removes a largest element |
| List.Heap.Create | tmp/list.h:442-443 | a fresh node number with value v, not freed (declared without a body in the source; contract is the model's own) |
| List.Heap.Destroy | tmp/list.h:445 | the node joins the freed set and nothing else changes (declared without a body in the source; contract is the model's own) |
| List.Heap.Unlink | tmp/list.h:43 | node k links to itself both ways; every other link is unchanged |
| List.Iter.Incr | tmp/list.h:91-96 | the iterator moves from position i of the ring to position i + 1 |
| List.Iter.Decr | tmp/list.h:103-108 | the iterator moves from position i of the ring to position i - 1 |
| List.List.constructor | tmp/list.h:157-158 | a sentinel linked to itself and no values (`fill_init` is declared without a body in the source; contract is the model's own) |
| List.List.Empty | tmp/list.h:243-244 | true exactly when the list holds no values |
| List.List.Size | tmp/list.h:246-247 | `size_` is the number of values |
| List.List.CreateNode | tmp/list.h:442-443 | a new node holding v, on no ring and not freed (declared without a body in the source; contract is the model's own) |
| List.List.LinkNodesAtFront | tmp/list.h:456 | the new node becomes the first of the ring (declared without a body in the source; contract is the model's own) |
| List.List.LinkNodesAtBack | tmp/list.h:457 | the new node becomes the last of the ring (declared without a body in the source; contract is the model's own) |
| List.List.LinkNodes | tmp/list.h:455 | the new node sits just before p, at p's index (declared without a body in the source; contract is the model's own) |
| List.List.UnlinkNodes | tmp/list.h:458 | the nodes from f to l leave the ring, and the node before f links to the one after l (declared without a body in the source; contract is the model's own) |
| List.List.PushFront | tmp/list.h:347-353 | an out-of-range error exactly when size_ > max_size() - 1, with the list unchanged; otherwise v comes before the old values |
| List.List.PushBack | tmp/list.h:360-366 | an out-of-range error exactly when size_ > max_size() - 1, with the list unchanged; otherwise v comes after the old values |
| List.List.Emplace | tmp/list.h:306-314 | an out-of-range error exactly at the size limit, with the list unchanged; otherwise v is inserted at pos's index and its node returned (emplace_front and emplace_back at 289-304 behave as PushFront and PushBack) |
| List.List.PopFront | tmp/list.h:374-381 | the values lose their first one and its node is freed |
| List.List.PopBack | tmp/list.h:383-390 | the values lose their last one and its node is freed |
| List.List.Erase | tmp/list.h:481-492 | the value at pos is removed, its node freed, and the node after it returned |
| List.List.EraseRange | tmp/list.h:495-511 | the values from first up to last are removed and their nodes freed; returns last |
| List.List.EraseWalk | tmp/list.h:502-508 | the destroy loop frees exactly the unlinked nodes, drops size_ by their number and leaves the links and values as they are |
| List.List.Clear | tmp/list.h:514-527 | every node of the list is freed, no values remain and the sentinel links to itself |
| List.List.ClearWalk | tmp/list.h:518-522 | the destroy loop of a non-empty list frees exactly its nodes and leaves the links and values as they are |
| List.List.Swap | tmp/list.h:401-405 | the two lists exchange sentinels and sizes, and so their values |
| SList.Arena.MakeLink | TinySTL/slist.h:27-33 | new takes prev's successor and becomes prev's successor; returns new |
| SList.MakeLinkInserts | TinySTL/slist.h:27-33 | on a path, make_link inserts new right after prev and keeps the path's end |
| SList.Arena.Previous | TinySTL/slist.h:35-49 | null exactly when no node of the chain links to node; otherwise the first node of the chain that does |
| SList.Arena.SpliceAfter | TinySTL/slist.h:51-63 | no change when pos is one of the two ends; otherwise the three links are rewired as a splice |
| SList.SpliceMoves | TinySTL/slist.h:51-63 | on paths, splicing moves the segment after before_first up to before_last, in order, to just after pos |
| SList.Arena.Reverse | TinySTL/slist.h:65-78 | the chain is relinked in reverse order ending at null; returns its old last node; no other node changes |
| SList.Arena.Incr | TinySTL/slist.h:118 | the successor is null or a node of the arena (also `operator++` at 126-137) |
| SList.Arena.CreateNode | TinySTL/slist.h:162-175 | a new node holding value with a null successor; when construction throws, a construction error and the arena unchanged |
| Util.Swap | TinySTL/util.h:35-41 | the two slots exchange their values; the rest is unchanged |
| Util.SwapRange | TinySTL/util.h:44-50 | the two ranges exchange their contents (the same range stays as it is); returns first2 + n; the rest is unchanged |
| Util.SwapArrays | TinySTL/util.h:53-57 | two distinct arrays exchange their contents |
| Util.PairEqIsEquality | TinySTL/util.h:214-218 | pair `==` is value equality and `!=` its negation |
| Util.PairLessIsLexicographic | TinySTL/util.h:220-226 | pair `<` is lexicographic order, firsts before seconds |
| Util.PairLessIsStrictTotalOrder | TinySTL/util.h:220-226 | over strictly totally ordered members, pair `<` is a strict total order |
| Util.PairDerivedOperators | TinySTL/util.h:234-250 | `>`, `<=` and `>=` agree with `<` and equality as a total order requires |
| Util.PairCell.Swap | TinySTL/util.h:203-210 | a pair swapped with itself is unchanged; otherwise both members are exchanged |
| Vector.TryInit | TinySTL/vector.h:305-319 | `try_init` as intended: an empty buffer at the allocated block with room for 16 |
| Vector.TryInitAsWritten | TinySTL/vector.h:309-311 | `try_init` as written: start and finish take the indeterminate old finish; correct exactly when that equals the block's address |
| Vector.TryInitAsWrittenLosesBlock | TinySTL/vector.h:309-311 | with the block at 4096 and finish 0, start is null while capacity reads 16 |
| Vector.Vector.constructor | TinySTL/vector.h:60-61 | `vector()` through the intended `try_init`: no values and capacity 16 |
| Vector.Vector.Filled | TinySTL/vector.h:66-67 | n copies of value, with capacity max(16, n) (`fill_initialize` at 339-345) |
| Vector.Vector.Size | TinySTL/vector.h:140-141 | the number of values held |
| Vector.Vector.Capacity | TinySTL/vector.h:144-145 | never below the size |
| Vector.Vector.Empty | TinySTL/vector.h:138-139 | true exactly when the size is 0 |
| Vector.Vector.MaxSize | TinySTL/vector.h:142-143 | the largest count whose byte size fits in a 64-bit size_t |
| Vector.Vector.Get | TinySTL/vector.h:149-159 | the value at index n |
| Vector.Vector.At | TinySTL/vector.h:161-171 | an out-of-range error exactly when n >= size(); otherwise the value at n |
| Vector.Vector.Front | TinySTL/vector.h:173-183 | the first value |
| Vector.Vector.Back | TinySTL/vector.h:185-195 | the last value |
| Vector.Vector.InsertAux | TinySTL/vector.h:548-583 | value is inserted at pos; the buffer is kept with spare room, otherwise replaced by one of twice the size (1 when empty) |
| Vector.Vector.ShiftInsert | TinySTL/vector.h:551-558 | with spare room, value is inserted at pos in the same buffer |
| Vector.Vector.GrowInsert | TinySTL/vector.h:559-582 | on a full buffer, value is inserted at pos in a new buffer of twice the size (1 when empty) |
| Vector.Vector.PushBack | TinySTL/vector.h:496-507 | value is appended; the buffer is kept when there is room, otherwise it grows as insert_aux does (push_back at 228-237) |
| Vector.Vector.PopBack | TinySTL/vector.h:242-246 | the last value is dropped and the buffer kept |
| Vector.Vector.InsertAsWritten | TinySTL/vector.h:253-263 | `insert(pos, value)` as written: at the end with spare room the vector is left unchanged; otherwise value is inserted at pos |
| Vector.Vector.Insert | TinySTL/vector.h:478-494 | value ends up at index pos and the other values keep their order; returns pos (`emplace`, and `insert` at 253-263 as intended) |
| Vector.Vector.InsertFill | TinySTL/vector.h:586-636 | n copies of value are inserted at pos; the buffer is kept when n fits, otherwise it becomes old_size + max(old_size, n) |
| Vector.Vector.GrowFill | TinySTL/vector.h:612-634 | without room, the copies go in at pos in a new buffer of old_size + max(old_size, n) |
| Vector.Vector.InsertFillInPlace | TinySTL/vector.h:591-611 | with room, the copies go in at pos in the same buffer |
| Vector.Vector.FillLongTail | TinySTL/vector.h:596-602 | with more than n values after pos, the in-place path inserts the copies at pos |
| Vector.Vector.FillShortTail | TinySTL/vector.h:603-610 | with at most n values after pos, the in-place path inserts the copies at pos |
| Vector.Vector.RangeInsert | TinySTL/vector.h:638-692 | the values of the source range are inserted at pos, with insert(pos, n, value)'s growth rule |
| Vector.Vector.GrowRange | TinySTL/vector.h:668-690 | without room, the range goes in at pos in a new buffer of old_size + max(old_size, n) |
| Vector.Vector.RangeInsertInPlace | TinySTL/vector.h:646-667 | with room, the range goes in at pos in the same buffer |
| Vector.Vector.RangeLongTail | TinySTL/vector.h:650-656 | with more than n values after pos, the in-place path inserts the range at pos |
| Vector.Vector.RangeShortTail | TinySTL/vector.h:657-666 | with at most n values after pos, the in-place path inserts the range at pos |
| Vector.Vector.Erase | TinySTL/vector.h:694-705 | the value at pos is removed, the others keep their order and the buffer is kept; returns pos |
| Vector.Vector.EraseRange | TinySTL/vector.h:707-718 | the values in [first, last) are removed, the others keep their order; returns first |
| Vector.EraseUndoesInsert | TinySTL/vector.h:694-718 | erasing the values just inserted at pos gives back the old values |
| Vector.Vector.Reserve | TinySTL/vector.h:398-415 | no change when the capacity is at least n; an out-of-range error exactly when it is not and n > max_size(); otherwise the same values in a buffer of capacity n |
| Vector.Vector.Resize | TinySTL/vector.h:720-727 | truncates to new_size, or appends copies of value up to it |
| Vector.Vector.Swap | TinySTL/vector.h:729-738 | the two vectors exchange their buffers and sizes, and so their values |
| Vector.Vector.Clear | TinySTL/vector.h:740-746 | no values remain |
| RbNodes.Arena.Minimum | TinySTL/rb_tree.h:35-39 | the leftmost node of the subtree, the first of its in-order sequence |
| RbNodes.Arena.Maximum | TinySTL/rb_tree.h:41-45 | the rightmost node of the subtree, the last of its in-order sequence |
| RbNodes.Arena.RotateLeft | TinySTL/rb_tree.h:178-195 | the links represent the old tree rotated left at x; the header's colour and extreme pointers are kept |
| RbNodes.Arena.RotateRight | TinySTL/rb_tree.h:208-224 | the links represent the old tree rotated right at x; the header's colour and extreme pointers are kept |
| RbShape.RotationKeepsOrder | TinySTL/rb_tree.h:178-224 | both rotations keep the in-order sequence of nodes |
| RbIter.Increment | TinySTL/rb_tree.h:63-82 | the node after n in order, or the header after the last node |
| RbIter.Decrement | TinySTL/rb_tree.h:84-106 | the node before n in order; from the header, the last node |
| RbIter.NextPrev | TinySTL/rb_tree.h:63-106 | stepping back after stepping forward returns to the node |
| RbInsert.Rebalance | TinySTL/rb_tree.h:246-303 | a new red leaf under a red-black tree leaves a red-black tree with the same in-order sequence; the header is kept |
| RbErase.EraseFixup | TinySTL/rb_tree.h:382-456 | from the fix-up invariant, the tree becomes red-black with the same in-order sequence (corrected as listed under Findings) |
| RbErase.FixSide | TinySTL/rb_tree.h:386-419 | one round of the fix-up loop keeps the invariant with x one level up, or settles the tree (case-B test corrected) |
| RbErase.FixCaseC | TinySTL/rb_tree.h:439-445 | case C with its rotation (the mirror case corrected) reaches the state case D needs |
| RbErase.SpliceOne | TinySTL/rb_tree.h:358-380 | a node with at most one child is replaced by that child; the in-order sequence loses z; the extreme pointers name the first and last nodes (hook and root update corrected) |
| RbErase.SpliceTwo | TinySTL/rb_tree.h:322-357 | a node with two children is replaced by its successor, the leftmost node of its right subtree; the in-order sequence loses z (successor search corrected) |
| RbErase.RebalanceForErase | TinySTL/rb_tree.h:308-458 | the tree stays red-black, its in-order sequence loses z, the extreme pointers name its first and last nodes, and z is returned |
| RbTree.RbTree.constructor | TinySTL/rb_tree.h:574-592 | the empty tree: a red header with null root, leftmost and rightmost the header, and no nodes |
| RbTree.RbTree.Begin | TinySTL/rb_tree.h:646 | the first node in order, the header when empty |
| RbTree.RbTree.Empty | TinySTL/rb_tree.h:671 | true exactly when the tree holds no values |
| RbTree.RbTree.Size | TinySTL/rb_tree.h:672 | `node_count` is the number of values |
| RbTree.RbTree.EraseSince | TinySTL/rb_tree.h:855-856 | every node of the subtree is destroyed (declared without a body in the source; contract is the model's own) |
| RbTree.RbTree.Clear | TinySTL/rb_tree.h:1076-1087 | no values remain, the node count is 0 and the header is back in its empty state |
| RbTree.RbTree.LowerBound | TinySTL/rb_tree.h:789-793 | the node at the lower-bound index of k in the contents (declared without a body in the source; contract is the model's own) |
| RbTree.RbTree.UpperBound | TinySTL/rb_tree.h:795-799 | the node at the upper-bound index of k in the contents (declared without a body in the source; contract is the model's own) |
| RbTree.RbTree.Find | TinySTL/rb_tree.h:773-777 | the first node with a key equivalent to k; the header exactly when there is none (declared without a body in the source; contract is the model's own) |
| RbTree.RbTree.CountUnique | TinySTL/rb_tree.h:786-787 | 1 exactly when some key is equivalent to k, else 0; with unique keys, the number of equivalent keys |
| RbTree.RbTree.EqualRangeMulti | TinySTL/rb_tree.h:802-812 | the lower and upper bounds, which enclose exactly the values with keys equivalent to k |
| RbTree.RbTree.CountMulti | TinySTL/rb_tree.h:779-784 | the number of values whose keys are equivalent to k |
| RbTree.RbTree.EqualRangeUnique | TinySTL/rb_tree.h:814-828 | (end, end) exactly when no key is equivalent; otherwise the found node and its successor |
| RbTree.RbTree.GetInsertMultiPos | TinySTL/rb_tree.h:830-834 | the empty place reached sits at the upper bound of k (declared without a body in the source; contract is the model's own) |
| RbTree.RbTree.GetInsertUniquePos | TinySTL/rb_tree.h:836-838 | insertion may go on exactly when no key is equivalent to k; otherwise the node with the equivalent key (declared without a body in the source; contract is the model's own) |
| RbTree.RbTree.InsertNodeAt | TinySTL/rb_tree.h:845 | v enters the contents at the upper bound of its key and the count grows by one (declared without a body in the source; contract is the model's own) |
| RbTree.RbTree.EmplaceMulti | TinySTL/rb_tree.h:863-874 | an out-of-range error at the size limit with nothing changed; otherwise v goes after every value with an equivalent key |
| RbTree.RbTree.EmplaceUnique | TinySTL/rb_tree.h:876-892 | an error at the size limit; otherwise (existing node, false) with nothing changed when an equivalent key exists, else v inserted in order and (its node, true); unique keys stay unique |
| RbTree.RbTree.EraseAt | TinySTL/rb_tree.h:1020-1033 | the value at the node's position is removed, the count drops by one, every other node keeps its place, and the successor is returned |
| RbTree.RbTree.EraseRange | TinySTL/rb_tree.h:1062-1074 | the values at the positions of [first, last) are removed and the rest keep their order |
| RbTree.RbTree.EraseEach | TinySTL/rb_tree.h:1071-1072 | the loop erases the positions of [first, last) one at a time |
| RbTree.RbTree.EraseMulti | TinySTL/rb_tree.h:1035-1045 | the values with keys equivalent to k are removed, the rest keep their order, and their number is returned |
| RbTree.RbTree.EraseUnique | TinySTL/rb_tree.h:1047-1060 | as intended: 1 with the found value removed, or 0 with nothing changed when no key is equivalent |
| RbTree.RbTree.EraseUniqueAsWritten | TinySTL/rb_tree.h:1059 | as written: always returns 1, also when no key is equivalent and nothing was erased |
| RbAsWritten.SuccessorAsWrittenMisses | TinySTL/rb_tree.h:325-328 | the successor search as written never reaches the leftmost node of z's right subtree |
| RbAsWritten.HookAsWrittenKeepsZ | TinySTL/rb_tree.h:364-367 | as written, a right child z stays in its parent's right link |
| RbAsWritten.RootSpliceAsWrittenLosesRoot | TinySTL/rb_tree.h:310 | as written, erasing a root with at most one child leaves the header pointing at it |
| RbAsWritten.CaseBTestAsWrittenMisroutes | TinySTL/rb_tree.h:398-399 | as written, a red left child with a black right child takes case B and leaves red over red |
| RbAsWritten.MirrorCaseCAsWrittenUnbalanced | TinySTL/rb_tree.h:439-445 | as written, the mirror of case C leaves an unbalanced subtree that the corrected case C balances |
| SegTree.Tree.constructor | Extend/segtree.h:41-52 | the tree holds exactly v and every internal slot is the fold of its children (build loop corrected) |
| SegTree.Tree.Sized | Extend/segtree.h:36-39 | the tree over n copies of e |
| SegTree.Tree.Update | Extend/segtree.h:170 | slot k becomes the op of its two children; every other slot is unchanged |
| SegTree.Tree.Set | Extend/segtree.h:54-61 | value p becomes x and the other values are unchanged; the tree stays consistent |
| SegTree.Tree.Repair | Extend/segtree.h:59-60 | the ancestors of the leaf are recomputed, leaves untouched, and every internal slot is consistent again |
| SegTree.Tree.Get | Extend/segtree.h:63-67 | value p |
| SegTree.Tree.AllProd | Extend/segtree.h:88 | the fold of all values |
| SegTree.Tree.Prod | Extend/segtree.h:69-86 | the fold of values l through r - 1 |
| SegTree.Tree.MaxRight | Extend/segtree.h:97-128 | f holds of the fold of [l, r) and, unless r = n, fails once value r is added (exit test corrected) |
| SegTree.Tree.MinLeft | Extend/segtree.h:135-164 | f holds of the fold of [l, r) and, unless l = 0, fails once value l - 1 is added |
| SegTree.RootFold | Extend/segtree.h:88 | in a consistent tree slot 1 holds the fold of all values |
| SegTreeAsWritten.BuildAsWrittenOkIff | Extend/segtree.h:50 | the build loop as written completes exactly when size is 1 |
| SegTreeAsWritten.BuildAsWrittenRunsOff | Extend/segtree.h:50 | once entered, the loop as written reads past the slots |
| SegTreeAsWritten.MaxRightAsWrittenOnOne | Extend/segtree.h:126 | as written, max_right(0, x <= 1) over [1] returns 0 |
| SegTreeAsWritten.MaxRightIntendedOnOne | Extend/segtree.h:97-128 | the promised answer for that input is 1 |
| SegTreeAsWritten.MaxRightAsWrittenOnZero | Extend/segtree.h:126 | as written, max_right over [0] with f = x <= 0 never terminates |

## Left out

- The allocators and `construct`/`destroy`: nodes and buffers come from Dafny's heap, and only
  `slist`'s `create_node` models a throwing constructor. No other allocation failure is
  modelled.
- Integer widths:
  - `size_t` counters such as `size_` and `node_count` are unbounded naturals. The size-limit
    guards are modelled with `max_size()` as a constant.
  - Iterators into vectors and deques are integer addresses or indices, and pointer arithmetic
    is integer arithmetic.
  - The segment tree's `int` indices and `1 << log` do not overflow here.
- RbTree: the erasers take a node's value out of `vals`. The node's link record stays in the
  arena, and arena indices are never reused.
- List: nodes that `destroy_node` releases join `freed` and are not reused. The list destructor
  and `list(n)`/`list(n, value)`/copy construction are not modelled.
- List: `splice`, `remove`/`remove_if`, `unique`, `merge`, `sort`, `resize`,
  `insert(pos, value)` (through `link_iter_node`), `fill_insert`, `copy_insert` and the assigns
  are declared without bodies in the source. Nothing in the source defines their behaviour, so
  they are not modelled.
- The `deque` class itself (its map, constructors and members) is not part of this model; only
  its iterator is. The default iterator constructor and the move constructor, which only null
  the pointers, are left out too.
- Hashtable: the class's members are declared without bodies. Only the prime table and
  `stl_next_prime` are modelled. The target's pointer width, chosen by the preprocessor, is the
  parameter `Target`. How the table was generated (the 1.7 growth factor) is not modelled.
- Vector:
  - the range, copy and move constructors, the assignments, `assign`, `reverse`, and the
    iterator and reverse-iterator accessors are not modelled;
  - `emplace` with several constructor arguments is modelled as inserting one value.
- Const and move overloads that only forward to the modelled member are not repeated.
- rb_tree:
  - the copy constructor and `copy_from`, `insert_value_at`, the hint-based inserts and the
    `insert_multi`/`insert_unique` forwarding overloads are not modelled;
  - the iterator's post-decrement at rb_tree.h:145-150 returns `*this` instead of the copy; it
    is not modelled;
  - `swap` and the copy and move assignments are not modelled.
- Segment tree: the `static_assert`s on run-time values (segtree.h:56, 65, 71, 100, 102, 138,
  140) become preconditions of the members.
- SList.Arena.Incr: the contract says only that the successor is null or a node of the arena,
  because `incr` itself reads one link and promises nothing more.
- Util: `move`, `forward` and `pair`'s constructors and assignments are not modelled; they
  only transfer values.
- Heap algorithms: the `Distance` and value-type template parameters are integer indices and
  the element type.

## Findings

| source | as written | input that shows it | evidently intended | confidence | as-written member | corrected member |
|---|---|---|---|---|---|---|
| TinySTL/rb_tree.h:325-328 | `while (nullptr == y->left) y = y->left;` loops while the left link IS null | any z with two children: y stays at z's right child, or becomes null and is dereferenced | walk left while a left child exists, to the leftmost node of z's right subtree | high (not executed) | RbAsWritten.SuccessorAsWrittenMisses | RbErase.SpliceTwo |
| TinySTL/rb_tree.h:364 | `z->parent->left = z` assigns instead of comparing | z with at most one child that is a right child: its parent's right link still names z and the left link is overwritten | `z->parent->left == z` | high (not executed) | RbAsWritten.HookAsWrittenKeepsZ | RbErase.SpliceOne |
| TinySTL/rb_tree.h:310 | `root` is passed by value, so `root = x` (line 363) and `root = y` (line 349) change a copy | erasing the root of a one-node tree: the header still points at the erased node | pass `root` by reference, like `leftmost` and `rightmost` | high (not executed) | RbAsWritten.RootSpliceAsWrittenLosesRoot | RbErase.RebalanceForErase |
| TinySTL/rb_tree.h:398-399 | `(A) && nullptr == w->right \|\| w->right->color == black` groups as `(A && null right) \|\| black right` | w with a red left child and a black right child: case B colours w red over a red child | both of w's children black or null | high (not executed) | RbAsWritten.CaseBTestAsWrittenMisroutes | RbErase.FixSide |
| TinySTL/rb_tree.h:439-445 | the mirror case C recolours w's near child and w but does not rotate or reload w | the subtree (black 1 (black 2 _ (red 3)) nil) with x a right child: case D then leaves it unbalanced | `rb_tree_rotate_left(w, root)` before `w = x_parent->left`, mirroring line 410 | high (not executed) | RbAsWritten.MirrorCaseCAsWrittenUnbalanced | RbErase.FixCaseC |
| TinySTL/rb_tree.h:1059 | `erase_unique` returns 1 when the key is absent | any key with no equivalent in the tree: nothing is erased and 1 is returned | `return 0;` | high (not executed) | RbTree.RbTree.EraseUniqueAsWritten | RbTree.RbTree.EraseUnique |
| TinySTL/vector.h:256-259 | `insert(pos, value)` at the end with spare room constructs at `finish` but never advances it | insert at end() into an empty vector of capacity 16: the size stays 0 | `++finish` after the construct, as `emplace` does at line 489 | high (not executed) | Vector.Vector.InsertAsWritten | Vector.Vector.Insert |
| TinySTL/vector.h:309-311 | `start = finish` overwrites the allocated block with the indeterminate `finish`, and `finish` is never set | block at 4096 with finish holding 0: start is null while capacity() reads 16 | `finish = start;` | high (not executed) | Vector.TryInitAsWrittenLosesBlock | Vector.TryInit |
| TinySTL/deque.h:64-67 | the initialiser list of `deque_iterator(x, y)` sets cur, first and last but not `node` | an iterator on the last slot of buffer 0 whose node holds 1: `++` steps to buffer 2, past the map | `node(y)` in the initialiser list | high (not executed) | Deque.AtAsWrittenBroken | Deque.Iter.At |
| Extend/segtree.h:50 | the build loop `for (int i = size - 1; i >= 1; i++)` counts up | any tree over two or more values: `update(i)` reads past the 2 * size slots | `i--` | high (not executed) | SegTreeAsWritten.BuildAsWrittenOkIff | SegTree.Tree.constructor |
| Extend/segtree.h:126 | the loop exit test is `(l & -l) != 1` | the sum tree over [1], l = 0, f = x <= 1: returns 0 instead of 1; over [0] with f = x <= 0 the loop never ends | `(l & -l) != l`, stopping once l is a power of two | high (not executed) | SegTreeAsWritten.MaxRightAsWrittenOnOne | SegTree.Tree.MaxRight |

The following source lines do not compile as written. There is no as-written behaviour to model,
so each is listed here, not in the table above. The model takes the evident intent
(intended only; the source does not compile):

- tmp/list.h:107: `operator--` returns `node_` where the iterator is expected; the model moves
  the iterator.
- tmp/list.h:380: `--size()` decrements a returned value; the model decrements `size_`.
- tmp/list.h:501: `last.node_->pre` names a member that does not exist; the model takes `prev`.
- TinySTL/util.h:243: the return statement of pair `operator<=` lacks its `;`.
- TinySTL/vector.h:163 and 169: `THROW_OUT_OF_RANGE_IF` is defined by no header; the model takes
  it as an out-of-range error.
- TinySTL/heap_algo.h:21: the template parameter list reads `class Distance.` with a full stop.
- TinySTL/heap_algo.h:65-66 and 137: the comparator `push_heap_aux` takes six arguments (first,
  last, hole, top, value, comp) but is called with five.
- TinySTL/heap_algo.h:125: the comparator overload of `adjust_heap` names `comp`, which is not
  declared there.
- TinySTL/heap_algo.h:223: the template parameter list `template <class RandomIterator, >` ends
  with an empty parameter.
- Extend/segtree.h:141: `min_left` returns `n`, but the member is `_n`; the model returns 0, as
  `r == 0` means.
- Extend/segtree.h:138: the `static_assert` of `min_left` tests `l`, which is not declared
  there; the model requires r <= n.
- TinySTL/rb_tree.h:869, 882, 900, 944, 997 and 1010: `node_count_` names a member that does not
  exist; the model uses `node_count`.
- TinySTL/rb_tree.h:135: the iterator's arrow operator is declared `operator->)()`.
- TinySTL/rb_tree.h:1000: `insert_multi` passes `valuem`, which is not declared; it is not
  modelled (see Left out).
- TinySTL/slist.h:27: the parameter type of `slist_make_link` is written `slist_make_link*`.
