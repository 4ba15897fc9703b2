# Marcus sequence containers in Dafny

This project models the three sequence containers of the Marcus C++ library:

- `Marcus::vector`, a growable contiguous buffer (`include/containers/vector.hpp`);
- `Marcus::list`, a circular doubly linked list threaded through a sentinel node (`include/containers/list.hpp`);
- `Marcus::array<T, N>`, a fixed-size aggregate, together with its zero-length specialisation (`include/containers/array.hpp`).

It proves what each operation does to the sequence of elements. All three follow the array, list and vector clauses of ISO/IEC 14882 ([array], [list], [vector]). Where the code departs from the standard the model follows the code:

- `reserve(n)` does nothing when `n < cap` and otherwise grows to `max(n, 2 * cap)`, so a real growth at least doubles the capacity; it reallocates even when `n == cap`.
- `push_back` grows as soon as `size + 1 >= cap`, that is, one element before the buffer is full.
- `emplace`, the single-element `insert`, and every `insert` of `n > 0` elements call `reserve(size + n)`, so an insertion that exactly fills the buffer still reallocates. An `insert` of no elements returns at once.
- The general `array::at` throws with the message "array:at"; the zero-length specialisation throws with "array::at".

Files:

- `common.dfy` (module `Common`): the outcome of a bounds-checked access, either an element or `std::out_of_range` with its message.
- `seqs.dfy` (module `Seqs`): the reference definitions every operation is specified by: `Repeat`, `InsertAt`, `Excise`, `RemoveAll`, `RemoveWhere` and `CountWhere`. The lemmas there state what the definitions mean.
- `vector.dfy` (module `Vectors`): class `Vector` holds a Dafny `array<T>` buffer `data`, with `size` and `cap`. The invariant is `size <= cap == data.Length`. Every method states its effect on `data[..size]` and on the capacity. The shift, copy and fill loops of `vector.hpp` are `while` loops, proved against their specifications.
- `list.dfy` (module `Lists`): class `Node` has `next`, `prev` and `value` fields. Class `List` has the sentinel `dummy`, the `size` counter, and ghost `nodes`, `contents` and `Repr`.
  - The invariant: following `next` from the sentinel visits exactly `nodes` and returns to the sentinel; `prev` mirrors `next`; the values are `contents`; `size == |contents|`.
  - Iterators are node references. A ghost index says which position each one denotes: `-1` and `|nodes|` both denote the sentinel, that is `end()`.
  - Each link rewiring is proved to keep the invariant.
  - The node-walking loops of `_uninit_assign`, `clear`, `remove`, `remove_if` and the range `insert` and `erase` are `while` and `for` loops with invariants.
- `array.dfy` (module `Arrays`): class `Array` has a constant length `N` and a Dafny `array<T>` of that length. The zero-length specialisation is the same class with `N == 0`; the members whose behaviour differs, `at` and `empty`, test for it.

The three test programs of these containers are modelled as clients without their printing: `Vectors.VectorTest`, `Lists.ListTest` and `Arrays.ArrayTest`. Each proves the element sequences, sizes, capacities and emptiness flags the program prints (`sizeof(vector)` excepted).

## Model

| member | source | states |
|---|---|---|
| Common.Max | include/containers/vector.hpp:223 | the larger of two sizes, as `std::max` in `reserve` |
| Vectors.Grown | include/containers/vector.hpp:219-224 | the capacity `reserve(n)` leaves: unchanged below the current capacity, else the larger of `n` and twice the capacity |
| Vectors.GrownCovers | include/containers/vector.hpp:219-224 | `reserve` never shrinks and covers the request; a real growth at least doubles; below the capacity nothing changes |
| Vectors.ShiftRight | include/containers/vector.hpp:487-490 | the backward shift loop moves `a[j..size]` to `a[j+n..size+n]` and leaves `a[..j]` alone |
| Vectors.ShiftLeft | include/containers/vector.hpp:407-409 | the forward shift loop of `erase` moves `a[from..size]` to `a[from-diff..size-diff]` and leaves the prefix alone |
| Vectors.ShiftedInsert | include/containers/vector.hpp:486-494 | shifting the tail right by the gap length and filling the gap with `t` makes the live prefix `InsertAt(old, j, t)` |
| Vectors.CopyInto | include/containers/vector.hpp:512-515 | the copy loop of range `insert` writes `src` into `a[j..j+|src|]` and touches nothing else |
| Vectors.FillRun | include/containers/vector.hpp:492-494 | the fill loop of `insert(it, n, val)` writes `n` copies of `val` into `a[j..j+n]` and touches nothing else |
| Vectors.Vector.Contents | include/containers/vector.hpp:27-29 | the live elements `data[..size]`, of length `size` |
| Vectors.Vector.constructor | include/containers/vector.hpp:33-37 | `vector()`: no elements, capacity 0 |
| Vectors.Vector.OfSize | include/containers/vector.hpp:42-49 | `vector(n)`: `n` value-initialised elements, capacity exactly `n` |
| Vectors.Vector.OfRange | include/containers/vector.hpp:62-75 | `vector(first, last)` and the initializer-list constructor: a copy of the range, capacity exactly its length |
| Vectors.Vector.Copy | include/containers/vector.hpp:114-124 | the copy constructor: a fresh buffer with the other vector's elements, capacity equal to its size |
| Vectors.Vector.Move | include/containers/vector.hpp:77-84 | the move constructor takes over buffer, size and capacity, and leaves the source with size and capacity 0 |
| Vectors.Vector.MoveAssign | include/containers/vector.hpp:95-112 | a self-move changes nothing; otherwise this vector takes the other's buffer, size and capacity, and the other is left empty with capacity 0 |
| Vectors.Vector.Swap | include/containers/vector.hpp:155-160 | the two vectors exchange buffers, sizes, capacities and hence contents |
| Vectors.Vector.Clear | include/containers/vector.hpp:162-167 | no element is left; buffer and capacity unchanged |
| Vectors.Vector.Reserve | include/containers/vector.hpp:219-243 | contents and size unchanged; capacity becomes `Grown(cap, n)`; a fresh buffer exactly when `n >= cap` |
| Vectors.Vector.ShrinkToFit | include/containers/vector.hpp:199-217 | contents unchanged in a fresh buffer whose capacity equals the size |
| Vectors.Vector.PushBack | include/containers/vector.hpp:299-313 | appends `val`, keeping every earlier element; grows to `Grown(cap, size+1)` exactly when `size + 1 >= cap` |
| Vectors.Vector.EmplaceBack | include/containers/vector.hpp:315-324 | as `push_back`, and returns the new last element |
| Vectors.Vector.PopBack | include/containers/vector.hpp:386-389 | drops the last element, keeps the prefix; buffer and capacity unchanged |
| Vectors.Vector.Emplace | include/containers/vector.hpp:443-479 | `emplace` and single `insert`: the result is `InsertAt(old, j, [val])`, the returned index is `j`, the capacity is `Grown(cap, size+1)` |
| Vectors.Vector.OpenGap | include/containers/vector.hpp:486-490 | `reserve(size+n)`, then the tail from `j` moved `n` slots right, with the prefix kept |
| Vectors.Vector.InsertCopies | include/containers/vector.hpp:481-496 | `n == 0` changes nothing; otherwise the result is `old[..j] + n copies + old[j..]`; either way it returns `j` |
| Vectors.Vector.InsertRange | include/containers/vector.hpp:498-521 | range and initializer-list `insert`: the result is `InsertAt(old, j, src)`, it returns `j`, and an empty range changes nothing |
| Vectors.Vector.Erase | include/containers/vector.hpp:391-400 | the result is `old` without position `i`; it returns `i`; buffer and capacity unchanged |
| Vectors.Vector.EraseRange | include/containers/vector.hpp:402-415 | the result is `old[..first] + old[last..]`; it returns `first` |
| Vectors.Vector.Resize | include/containers/vector.hpp:169-197 | size becomes `n`; shrinking keeps the first `n`; growing keeps all and appends copies of `val`, reserving `n`; the buffer is kept unless growing reallocates, that is, `n >= cap` |
| Vectors.Vector.Assign | include/containers/vector.hpp:417-424 | exactly `n` copies of `val`, capacity `Grown(cap, n)`; a fresh buffer exactly when `n >= cap`, otherwise the same one |
| Vectors.Vector.AssignRange | include/containers/vector.hpp:426-441 | exactly the range, capacity `Grown(cap, |src|)`; a fresh buffer exactly when `|src| >= cap`, otherwise the same one |
| Vectors.Vector.Size | include/containers/vector.hpp:249-251 | the number of live elements |
| Vectors.Vector.Capacity | include/containers/vector.hpp:245-247 | the buffer length, never below the size |
| Vectors.Vector.Empty | include/containers/vector.hpp:253-255 | true exactly when there is no element |
| Vectors.Vector.At | include/containers/vector.hpp:269-281 | element `i` when `i < size`; otherwise `out_of_range("vector::at")`, both directions |
| Vectors.Vector.Get | include/containers/vector.hpp:261-267 | `operator[]`: element `i` of a live index |
| Vectors.Vector.Front | include/containers/vector.hpp:283-289 | the first element |
| Vectors.Vector.Back | include/containers/vector.hpp:291-297 | the last element |
| Vectors.PushPopRestores | include/containers/vector.hpp:299-389 | `push_back` then `pop_back` gives back the original contents |
| Vectors.InsertEraseRestores | include/containers/vector.hpp:391-521 | inserting a range at `j` and erasing `[j, j+|src|)` gives back the original contents |
| Vectors.PushedCap | include/containers/vector.hpp:299-305 | the capacity after `k` pushes into an empty vector is at least `k`; from the third push on it exceeds `k` and is at most `2k` |
| Vectors.PushedSixteen | test/vector_test.cpp:7-10 | sixteen pushes into an empty vector leave capacity 32 |
| Vectors.VectorTest | test/vector_test.cpp:4-25 | the 16 pushes give 0..15 with capacity 32; inserting {40, 41, 42} at index 3 gives 0, 1, 2, 40, 41, 42, 3..15 with capacity still 32; before the move assignment the sizes are 19 and 3, after it 0 and 19 |
| Seqs.Reverse | include/containers/list.hpp:421-427 | the sequence backwards: element `k` is element `|s|-1-k` |
| Seqs.Repeat | include/containers/vector.hpp:417-424 | `n` elements, each `v` |
| Seqs.InsertAt | include/containers/vector.hpp:481-496 | the insertion has length `|s| + |t|` |
| Seqs.Excise | include/containers/vector.hpp:402-415 | the erasure has length `|s| - (last - first)` |
| Seqs.InsertAtIndex | include/containers/vector.hpp:481-496 | each position of an insertion: the old prefix, then the run, then the old tail shifted by `|t|` |
| Seqs.ExciseIndex | include/containers/vector.hpp:402-415 | each position of an erasure: the prefix, then the tail shifted left by `last - first` |
| Seqs.InsertNothing | include/containers/vector.hpp:483-485 | inserting an empty run changes nothing |
| Seqs.EraseInserted | include/containers/vector.hpp:391-521 | erasing what was just inserted gives back the original |
| Seqs.InsertAtEnds | include/containers/list.hpp:218-258 | inserting at the front or back is concatenation |
| Seqs.RemoveWhereDeletes | include/containers/list.hpp:479-493 | nothing left satisfies `p`, and the length drops by the number of elements that do |
| Seqs.RemoveWhereKeeps | include/containers/list.hpp:479-493 | every value that does not satisfy `p` keeps its multiplicity |
| Seqs.RemoveWhereNone | include/containers/list.hpp:479-493 | a predicate true nowhere deletes nothing and counts 0 |
| Seqs.RemoveAllDeletes | include/containers/list.hpp:464-477 | no copy of `v` is left, the length drops by the number of copies, every other value keeps its multiplicity |
| Seqs.RemoveAllIsRemoveWhere | include/containers/list.hpp:464-493 | `remove(v)` is `remove_if` with "equals v", and its count is the multiplicity of `v` |
| Lists.RingInjective | include/containers/list.hpp:437-447 | in a ring of distinct value nodes without the sentinel, a node has one position |
| Lists.List.PositionsApart | include/containers/list.hpp:11-14 | in a valid ring, two positions up to the sentinel hold different nodes |
| Lists.List.NodesDistinct | include/containers/list.hpp:11-14 | a valid ring visits no node twice |
| Lists.List.constructor | include/containers/list.hpp:68-71 | `list()`: size 0, no contents, sentinel linked to itself |
| Lists.List.Empty | include/containers/list.hpp:117-119 | "the sentinel's successor is itself" holds exactly when the size is 0 and the contents are empty |
| Lists.List.Size | include/containers/list.hpp:194-196 | the number of elements |
| Lists.List.Front | include/containers/list.hpp:121-131 | the first element |
| Lists.List.Back | include/containers/list.hpp:125-135 | the last element |
| Lists.List.Hang | include/containers/list.hpp:165-169 | a fresh node holding `v`, linked after the tail of a chain, extends the chain |
| Lists.List.Close | include/containers/list.hpp:173-174 | linking the tail back to the sentinel closes the chain into a ring |
| Lists.List.UninitAssign | include/containers/list.hpp:160-175 | fresh nodes holding `src` in order, a valid ring, size `|src|` |
| Lists.List.UninitAssignCopies | include/containers/list.hpp:177-191 | `n` fresh nodes holding `val`, a valid ring, size `n` |
| Lists.List.OfRange | include/containers/list.hpp:146-153 | `list(first, last)` and the initializer-list constructor hold the range |
| Lists.List.OfSize | include/containers/list.hpp:137-144 | `list(n, val)` holds `n` copies of `val` |
| Lists.List.Values | include/containers/list.hpp:394-400 | walking `cbegin()` to `cend()` yields the contents in order |
| Lists.List.ReverseValues | include/containers/list.hpp:421-427 | walking `crbegin()` to `crend()`, along `prev` from the sentinel, yields the contents reversed |
| Lists.List.Copy | include/containers/list.hpp:105-107 | the copy constructor holds the other list's contents in fresh nodes |
| Lists.List.Clear | include/containers/list.hpp:264-274 | no elements, size 0, sentinel self-linked |
| Lists.List.Assign | include/containers/list.hpp:202-211 | exactly the range afterwards |
| Lists.List.AssignCopies | include/containers/list.hpp:213-216 | exactly `n` copies of `val` afterwards |
| Lists.List.AdoptLinks | include/containers/list.hpp:94-98 | the other list's nodes are threaded into a ring closed by this sentinel, and the other sentinel is self-linked |
| Lists.List.UninitMoveAssign | include/containers/list.hpp:93-102 | this list takes the other's nodes, contents and size; the other is left empty, self-linked, with size 0 |
| Lists.List.ThreadedValid | include/containers/list.hpp:93-102 | a threaded ring recorded as the nodes and contents is a valid list |
| Lists.List.Move | include/containers/list.hpp:78-80 | the move constructor holds the source's contents and size, and the source is left empty |
| Lists.List.LinkedKeepsValid | include/containers/list.hpp:495-507 | linking a fresh node between positions `i-1` and `i` and recording it at `i` keeps the list valid |
| Lists.List.Link | include/containers/list.hpp:500-503 | the four link writes put `cur` between `pre` and `nxt`, and `prev` mirrors `next` around it |
| Lists.List.Emplace | include/containers/list.hpp:495-507 | a fresh node holding `val` at position `i`, just before `pos`; size grows by 1; it returns the new node |
| Lists.List.Insert | include/containers/list.hpp:509-515 | as `emplace`: a fresh node holding `val` recorded at position `i` and added to the footprint, size +1, and it returns that node |
| Lists.List.EmplaceBack | include/containers/list.hpp:234-245 | appends `val`, size grows by 1, returns `val`; every existing node keeps its position, the new one is last |
| Lists.List.EmplaceFront | include/containers/list.hpp:247-258 | prepends `val`, size grows by 1, returns `val`; every existing node moves up exactly one position behind the new one |
| Lists.List.PushBack | include/containers/list.hpp:218-224 | appends `val`; the existing nodes keep their positions |
| Lists.List.PushFront | include/containers/list.hpp:226-232 | prepends `val`; the existing nodes follow the new one in their order |
| Lists.List.InsertCopies | include/containers/list.hpp:517-531 | `n` copies of `val` before `pos`; returns the first inserted, or `pos` when `n == 0`; the nodes before `pos` and from `pos` on stay, the latter shifted by `n` |
| Lists.List.InsertRange | include/containers/list.hpp:533-551 | the range in order before `pos`; returns the first inserted, or `pos` when the range is empty; the nodes around the new run stay, in order |
| Lists.List.UnlinkedKeepsValid | include/containers/list.hpp:437-447 | pointing the neighbours of position `i` at each other and dropping it keeps the list valid, and the follower moves to position `i` |
| Lists.List.Erase | include/containers/list.hpp:437-447 | exactly the node at `i` is unlinked and freed; size drops by 1; it returns the node that followed |
| Lists.List.EraseRange | include/containers/list.hpp:449-454 | exactly `[first, last)` is removed, the rest keep their order; it returns `last` |
| Lists.List.PopFront | include/containers/list.hpp:456-458 | drops the first element |
| Lists.List.PopBack | include/containers/list.hpp:460-462 | drops the last element |
| Lists.List.Remove | include/containers/list.hpp:464-477 | every element equal to `val` is deleted, the rest keep their order; the count returned is their number and the drop in size; every node left was in the list before |
| Lists.List.RemoveIf | include/containers/list.hpp:479-493 | every element satisfying `p` is deleted, the rest keep their order; the count returned is their number and the drop in size; every node left was in the list before |
| Lists.TestErasePrefix | test/list_test.cpp:12-13 | erasing the first two of {1, 2, 4, 5, 6} leaves {4, 5, 6} |
| Lists.TestInsertPushBack | test/list_test.cpp:14-17 | inserting {40, 41, 42} in front and pushing 100..102 gives 40, 41, 42, 4, 5, 6, 100, 101, 102 |
| Lists.TestPushFront | test/list_test.cpp:18-20 | pushing 200..202 in front puts them in reverse order ahead of the rest |
| Lists.TestCopyErase | test/list_test.cpp:27-39 | the copy walked backwards is the original reversed; erased from its second position it keeps one element and is not empty; erasing that element empties it |
| Lists.ListTest | test/list_test.cpp:11-42 | the whole test: the twelve values walked forwards, the same twelve walked backwards on the copy, `arr.size() == 12`, the copy's sizes 1 and 0 with empties false and true, and `list<int>(3)` of size 3 |
| Arrays.Array.constructor | include/containers/array.hpp:25 | aggregate initialisation of `_M_elements[_N]`: the elements are the initialisers, and `N` is their number, as the deduction guide fixes it |
| Arrays.Array.Get | include/containers/array.hpp:27-33 | `operator[]`: element `i` of an index below `N` |
| Arrays.Array.At | include/containers/array.hpp:35-47 | element `i` exactly when `i < N`, otherwise `out_of_range("array:at")`; for `N == 0` always `out_of_range("array::at")` |
| Arrays.Array.AtIsGet | include/containers/array.hpp:27-47 | `at` and `operator[]` agree below `N` |
| Arrays.Array.Front | include/containers/array.hpp:62-68 | element 0, which `at(0)` also returns |
| Arrays.Array.Back | include/containers/array.hpp:70-76 | element `N-1`, which `at(N-1)` also returns |
| Arrays.Array.Size | include/containers/array.hpp:82-84 | `N`, the storage length, for `N == 0` as well |
| Arrays.Array.MaxSize | include/containers/array.hpp:86-88 | equal to `size()` |
| Arrays.Array.Empty | include/containers/array.hpp:78-80 | false for the general template and true for the zero-length specialisation: exactly when there are no elements |
| Arrays.Array.Begin | include/containers/array.hpp:118-120 | the range from `begin()` on is the whole storage |
| Arrays.Array.End | include/containers/array.hpp:122-124 | `end() - begin()` is the storage length and `[begin(), end())` is every element |
| Arrays.Array.IteratorSpan | include/containers/array.hpp:102-124 | `end() - begin() == size()`, the range covers all elements, and it is empty exactly when the array is |
| Arrays.Array.Fill | include/containers/array.hpp:49-54 | every one of the `N` elements is `val` afterwards; nothing when `N == 0` |
| Arrays.Array.Swap | include/containers/array.hpp:56-60 | the two arrays exchange their elements; swapping storage with itself changes nothing |
| Arrays.SwapTwice | include/containers/array.hpp:56-60 | swapping twice restores both arrays |
| Arrays.Iota | test/array_test.cpp:4-10 | walking `begin()` to `end()` writes 0, 1, 2, ... |
| Arrays.ArrayTest | test/array_test.cpp:12-29 | `array{2, 1, 0}` walks as 2, 1, 0; after `iota` indexing gives 0, 1, 2, `front()` is 0, `back()` is 2, and the reverse walk gives 2, 1, 0 |

## Left out

- Allocation and object lifetime: `_alloc.allocate`/`deallocate`, `newNode`/`deleteNode`, `construct_at`/`destroy_at` and the allocator objects are not modelled. A new buffer or node is a fresh Dafny object; a freed one is dropped from the footprint.
- Vectors.Vector.constructor: `vector.hpp`'s empty vector holds no buffer (nullptr). The model gives it an empty Dafny array, which is indistinguishable through the interface.
- Vectors.Vector.OfSize and Vectors.Vector.Resize: the value-initialised element of `vector(n)` and `resize(n)` is passed in as `init`/`val`, because Dafny has no default construction. `resize(n)` is `Resize(n, T())`.
- Lists.List.OfSize: `list(n)` is `list(n, T())` in the same way.
- `vector(n, val)` (vector.hpp:51-57) is not modelled, since it never sets the size and capacity.
- Vector copy assignment (vector.hpp:138-148) is not modelled, since it overwrites the old elements without destroying them.
- The list's move, copy and initializer-list assignment operators (list.hpp:86-90, 113-115, 155-157) are not modelled as operations, since they lack `return *this`. The move assignment is `clear` followed by `_uninit_move_assign`; the other two are a call to `assign`, which does its own clearing (list.hpp:203-211). Those are modelled.
- `const_iterator::operator--(int)` (list.hpp:367-371) steps forward, and `list::splice` (list.hpp:553-556) copies values without relinking. Neither is modelled.
- Iterator objects, including `operator++`, `operator--`, `operator*` and the reverse iterator types, are not modelled. A vector or array iterator is an index; a list iterator is a node with a ghost position. Lists.List.Values stands for the `cbegin()`..`cend()` walk and Lists.List.ReverseValues for the `crbegin()`..`crend()` walk.
- Lists.List.AdoptLinks: this is the link half of `_uninit_move_assign` and is called only from Lists.List.UninitMoveAssign.
- Lists.List.Clear: the walk frees each node, which here means only giving the nodes up. The model does not state that the freed nodes are unreachable.
- Lists.List.UninitAssignCopies: the model stores the size before the ring is closed, while `list.hpp` stores it just after. Neither step reads the other's field.
- Vectors.Vector.EraseRange: moves are modelled as copies. With `first == last < size` the loop of vector.hpp:406-408 still runs with `diff == 0` and self-move-assigns every element of `data[last..size]`. The model's "contents unchanged" for an empty range therefore holds only for element types whose self-move assignment keeps the value, such as `int`; a type whose self-move empties it would lose its tail.
- Lists.List.RemoveIf: the predicate is a pure Dafny function `T -> bool`. A C++ predicate may keep state between calls; `list.hpp` calls it once per element, front to back (list.hpp:479-493), and that order of calls is not captured.
- Vectors.Vector.PushBack, Vectors.Vector.EmplaceBack, Vectors.Vector.Emplace, Vectors.Vector.InsertCopies, Vectors.Vector.Resize, Vectors.Vector.Assign and Lists.List.Remove: the element argument is a value that never aliases an element of the container. The C++ takes `const T&`, which may refer into the container itself. Then `push_back(v[0])` on a full vector, or `insert`/`resize` with a reallocation, reads the old buffer after `reserve` freed it (vector.hpp:241). Without a reallocation, `insert(begin(), v[1])` copies the value the shift loop moved into `v[1]` (vector.hpp:472-477). `l.remove(l.front())` keeps comparing against the freed node (list.hpp:470). The model states the result for an argument that does not alias the container.
- Fixed-width arithmetic is not modelled: `size_t` overflow of `_size + _n`, `_cap * 2` and the `max_size()` bounds. Sizes are unbounded naturals.
- Comparison operators come from a macro in a header that is not part of this model. `data()`, `cdata()`, `get_allocator()` and the const and rvalue duplicates of each operation are left out as well.
- Vectors.VectorTest: the printed `sizeof(Marcus::vector<int>)` (vector_test.cpp:24) is not modelled, since it depends on the object layout.
- The printing itself is not modelled; the test clients return the printed values instead.
