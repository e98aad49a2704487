# til::small_vector in Dafny

A model of `til::small_vector<T, N>` from Windows Terminal's `src/inc/til/small_vector.h`.
The container is a dynamic array that keeps up to `N` elements in an embedded buffer.
When that buffer is full it moves them into a heap buffer of its own.
All of its state is three fields: the data pointer, `_capacity` and `_size`.

The project has five modules:

- `SizeT` (sizet.dfy): 64-bit `size_t` addition with wrap-around, and `max_size()` as `SIZE_MAX / sizeof(T)`.
- `Failures` (failures.dfy): the three exceptions the container throws (`length_error`, `bad_alloc`, `out_of_range`), plus `Result`, `Outcome` and `Option`.
- `VecModel` (vec_model.dfy): the observable state as a value, `Vec(elems, capacity, isInline)`.
  It holds the representation invariant `Wf`, with one specification function per operation.
  The properties the container promises are proved about these functions.
- `SmallVectors` (small_vector.dfy): the class `SmallVector<T>`, whose fields are the ones the source has.
  `buffer` is the embedded `_buffer[N]`, and `data`, `capacity` and `size` stand for `_data`, `_capacity` and `_size`.
  The elements live in Dafny arrays.
  Every mutator updates the fields in place and is proved to leave `Model()` equal to its specification function.
  On a length_error or bad_alloc, it is proved to leave `Model()` unchanged (the strong guarantee for those two exceptions; element constructors are taken not to throw, see Left out).
- `AsWritten` (as_written.dfy): four members modelled the way the source writes them, each with the input that shows the defect (see Findings).

Conventions:

- `N` and `sizeof(T)` are the constants `N` and `elemSize` of a vector.
- Iterators are indices into the elements.
- Allocation is an input: `allocOk` says whether `malloc` succeeds during that call.
- `T{}`, the value that `resize(n)` gives its new slots, is the constant `valueInit` fixed at construction.

## Model

| member | source | states |
|---|---|---|
| `SizeT.Add` | src/inc/til/small_vector.h:289 | size_t addition: it equals the true sum when that fits; past SIZE_MAX it wraps to a value below the first operand, which is what the `newCap < cap` test detects |
| `SizeT.MaxSize` | src/inc/til/small_vector.h:56 | max_size() is the largest count whose byte size fits in size_t: `m * sizeof(T) <= SIZE_MAX < (m + 1) * sizeof(T)` |
| `SizeT.ByteSizeFits` | src/inc/til/small_vector.h:296 | any count up to max_size() times sizeof(T) does not overflow, so the byte size given to malloc is exact |
| `VecModel.Default` | src/inc/til/small_vector.h:32-35 | the default constructor leaves no elements, capacity N and the inline buffer, and that state satisfies the invariant |
| `VecModel.ReleasesStorage` | src/inc/til/small_vector.h:47-54 | the destructor's `_capacity != N` test holds exactly when the storage is a heap buffer |
| `VecModel.GrowCapacity` | src/inc/til/small_vector.h:286-311 | _grow succeeds exactly when the allocation succeeds and `cap + max(add, cap/2)` is at most max_size(). The new capacity is then that sum, at least `cap + add` and `cap + cap / 2`, and its byte size fits. It throws length_error exactly when the sum exceeds max_size(), wrap-around included, and bad_alloc otherwise |
| `VecModel.CapacityFor` | src/inc/til/small_vector.h:159-164 | making room for `need` slots keeps the capacity when they fit. Otherwise the result is exactly _grow(need - cap): its capacity of at least `need` and `cap + cap / 2`, or its error |
| `VecModel.PushBack` | src/inc/til/small_vector.h:215-224 | on success the elements are the old ones followed by `x`, and the invariant holds. When not full the capacity and mode are unchanged. When full, its outcome is exactly _grow(1)'s: it throws whenever _grow(1) throws, with the same error, and otherwise the capacity becomes `cap + max(1, cap/2)` on the heap. A failure happens only when full |
| `VecModel.PushAll` | src/inc/til/small_vector.h:37-45 | pushing a range in order gives the old elements followed by the range. It cannot fail while everything fits in the current capacity |
| `VecModel.PushAllSplits` | src/inc/til/small_vector.h:41-44 | pushing `xs + ys` is pushing `xs` and then `ys`, where a failure in `xs` stops the pushes |
| `VecModel.Resized` | src/inc/til/small_vector.h:155-169 | the result has `newSize` elements, the first `min(old, newSize)` unchanged and the rest equal to the fill value |
| `VecModel.Resize` | src/inc/til/small_vector.h:153-189 | resize keeps the invariant, gives the elements `Resized`, and leaves capacity at least `newSize`. Capacity and mode are untouched when `newSize <= capacity`. When `newSize > capacity`, its outcome is exactly _grow(newSize - capacity)'s: it throws whenever that throws, and otherwise takes that capacity on the heap. It fails in no other case |
| `VecModel.Clear` | src/inc/til/small_vector.h:139-151 | clear() returns any vector to exactly the default-constructed state |
| `VecModel.ShrinkToFit` | src/inc/til/small_vector.h:191-213 | the elements are unchanged and the result satisfies the invariant. The capacity becomes `max(N, size)`, inline exactly when `size <= N`. It is a no-op when the capacity is N or equals the size. It fails, with bad_alloc, exactly when the heap path (`N < size < capacity`) meets a failed allocation |
| `VecModel.Erased` | src/inc/til/small_vector.h:263-267 | an empty range leaves the elements alone. Otherwise the length drops by `last - first`, the prefix before `first` stays, and the tail from `last` follows it in order |
| `VecModel.EraseRange` | src/inc/til/small_vector.h:256-268 | erase keeps the capacity, the mode and the invariant, and leaves the elements `Erased` |
| `VecModel.EraseNext` | src/inc/til/small_vector.h:258-261 | erase(first, last) returns `last` for an empty range and `first` otherwise |
| `VecModel.EraseOneRemovesExactlyOne` | src/inc/til/small_vector.h:250-254 | erase(pos) removes one element: the rest keep their relative order, and the multiset loses exactly the element at `pos` |
| `VecModel.InlineToHeapAndBack` | src/inc/til/small_vector.h:215-224 | with N = 4, four pushes stay inline and a fifth grows to capacity 6 on the heap. Erasing index 0 leaves 2, 3, 4, 5, and shrink_to_fit returns inline with capacity 4 |
| `SmallVectors.MoveElements` | src/inc/til/small_vector.h:302 | the first `count` slots of the new storage hold the old elements in order |
| `SmallVectors.FillSlots` | src/inc/til/small_vector.h:185 | the slots `[from, to)` hold the value, and the slots before `from` are unchanged |
| `SmallVectors.SmallVector.Model` | src/inc/til/small_vector.h:322-325 | the abstract value of the fields `_data`, `_capacity`, `_size` and `_buffer`, under the class invariant `Valid` (built on `VecModel.Layout`/`Wf`). The invariant says N and sizeof(T) are at least 1, `size <= capacity`, `N <= capacity <= max_size()`, and `_data` is the inline buffer exactly when `_capacity == N`, the convention the destructor (line 50) and clear (line 143) rely on. Every value it gives satisfies `Wf` |
| `SmallVectors.SmallVector.constructor` | src/inc/til/small_vector.h:32-35 | a fresh vector in the default state, with its data at its own inline buffer |
| `SmallVectors.SmallVector.FromRange` | src/inc/til/small_vector.h:37-45 | the range constructor ends in the state `PushAll` specifies. On success its elements equal the input range, and otherwise it throws the first push's error |
| `SmallVectors.SmallVector.ReleasesHeap` | src/inc/til/small_vector.h:47-54 | the destructor frees exactly when `_data` is not the inline buffer |
| `SmallVectors.SmallVector.Size` | src/inc/til/small_vector.h:61 | size() is the number of live elements |
| `SmallVectors.SmallVector.Capacity` | src/inc/til/small_vector.h:60 | capacity() is at least size() and at least N |
| `SmallVectors.SmallVector.Empty` | src/inc/til/small_vector.h:62 | empty() holds exactly when there are no elements (corrected; see Findings) |
| `SmallVectors.SmallVector.Get` | src/inc/til/small_vector.h:109-119 | operator[] needs `off < size()` and returns element `off` |
| `SmallVectors.SmallVector.Front` | src/inc/til/small_vector.h:85-95 | front() needs `size() != 0` and returns the first element |
| `SmallVectors.SmallVector.Back` | src/inc/til/small_vector.h:97-107 | back() needs `size() != 0` and returns the last element |
| `SmallVectors.SmallVector.At` | src/inc/til/small_vector.h:121-137 | at(off) throws out_of_range exactly when `off >= size()`, and otherwise returns element `off` |
| `SmallVectors.SmallVector.Equals` | src/inc/til/small_vector.h:72-75 | operator== holds exactly when the two element sequences are equal, meaning the same length and equal elements in order. Capacity and mode play no part |
| `SmallVectors.SmallVector.Grow` | src/inc/til/small_vector.h:286-311 | _grow reports `GrowCapacity`'s outcome. On success it holds a fresh heap buffer of that capacity with the same elements. On failure nothing changes |
| `SmallVectors.SmallVector.PushBack` | src/inc/til/small_vector.h:215-235 | both push_back overloads end in the state `VecModel.PushBack` specifies, or throw its error and leave the state unchanged. The argument is a value, so this does not cover an argument that aliases an element (see Left out) |
| `SmallVectors.SmallVector.EmplaceBack` | src/inc/til/small_vector.h:237-248 | as push_back, and the returned position is the old size, holding the new element. This is a correction: as written the returned reference does not compile (see Left out) |
| `SmallVectors.SmallVector.Resize` | src/inc/til/small_vector.h:153-170 | resize(n) ends in `VecModel.Resize` with `T{}` as fill, or throws its error and leaves the state unchanged |
| `SmallVectors.SmallVector.ResizeFill` | src/inc/til/small_vector.h:172-189 | resize(n, value) ends in `VecModel.Resize` with `value` as fill, or throws its error and leaves the state unchanged. The fill is a value, so an aliasing `value` is not covered (see Left out) |
| `SmallVectors.SmallVector.Clear` | src/inc/til/small_vector.h:139-151 | clear() ends in the default state, with data at the inline buffer |
| `SmallVectors.SmallVector.ShrinkToFit` | src/inc/til/small_vector.h:191-213 | shrink_to_fit ends in `VecModel.ShrinkToFit` (corrected inline path), or throws bad_alloc and leaves the state unchanged |
| `SmallVectors.SmallVector.EraseRange` | src/inc/til/small_vector.h:256-268 | erase(first, last) compacts in place to `VecModel.EraseRange` and returns `EraseNext(first, last)` |
| `SmallVectors.SmallVector.EraseAt` | src/inc/til/small_vector.h:250-254 | erase(pos) removes exactly the element at `pos`, shortens the vector by one and returns `pos` (corrected) |
| `AsWritten.ShrinkToFitAsWritten` | src/inc/til/small_vector.h:198-212 | the written shrink_to_fit keeps the elements and sets the capacity to the size on both paths |
| `AsWritten.ShrinkToFitAsWrittenBreaksInlineTest` | src/inc/til/small_vector.h:209-212 | from any heap vector with fewer than N elements, the written version goes inline with a capacity other than N, which breaks the invariant. The corrected one goes inline with capacity N |
| `AsWritten.ShrinkToFitAsWrittenExample` | src/inc/til/small_vector.h:212 | N = 4, elements 1, 2 in a heap buffer of 6: as written the result is capacity 2 inline, and corrected it is capacity 4 inline |
| `AsWritten.DataPointer` | src/inc/til/small_vector.h:322 | `_data` is never null: it is the inline buffer exactly in inline mode, and a heap buffer otherwise |
| `AsWritten.EmptyAsWritten` | src/inc/til/small_vector.h:62 | `!_data` holds exactly of a null pointer |
| `AsWritten.EmptyAsWrittenOnDefault` | src/inc/til/small_vector.h:32-35 | a default-constructed vector has no elements, yet the written empty() says it is not empty |
| `AsWritten.EraseAtAsWritten` | src/inc/til/small_vector.h:250-254 | the written erase(pos) destroys slot `pos`, keeps `_size` and returns nothing |
| `AsWritten.EraseAtSlots` | src/inc/til/small_vector.h:250-254 | erase(pos) as meant leaves exactly the first `size - 1` slots live and returns `pos` |
| `AsWritten.EraseAtAsWrittenLeavesDeadSlot` | src/inc/til/small_vector.h:253 | after the written erase(pos), a destroyed slot lies inside `[0, size)`, while after the intended one the live slots are again a prefix |
| `AsWritten.EraseRangeResultAsWritten` | src/inc/til/small_vector.h:256-268 | the written erase(first, last) returns `last` for an empty range and no value otherwise (the control flow the text describes; the overload does not compile once instantiated) |
| `AsWritten.EraseRangeAsWrittenMissesResult` | src/inc/til/small_vector.h:264-268 | erasing `[0, 1)` returns nothing as written, where the corrected version returns 0 |

## Left out

- src/cascadia/Remoting/WindowManager.h holds WinRT declarations with no implementation. It is not part of this model.
- Raw memory: `malloc`/`free`, placement `new`, `destroy_n`, `destroy_at` and the byte arithmetic are not modelled. Elements live in Dafny arrays, and an allocation is a fresh array or a failure chosen by `allocOk`. Nothing models the moved-from originals left in the old storage without being destroyed: `_grow` (lines 302-307) and shrink_to_fit (lines 208-209) both move the elements and then free or abandon the old buffer.
- SmallVectors.SmallVector.PushBack, SmallVectors.SmallVector.EmplaceBack, SmallVectors.SmallVector.Resize, SmallVectors.SmallVector.ResizeFill: building an element is taken not to throw. That covers the copy in push_back (lines 222 and 233), the construction in emplace_back (line 245), and `T{}` and the fill in resize (lines 166 and 185). In the source those run after `_grow` has succeeded. If T's constructor throws there, the vector keeps the grown capacity (in heap mode) and the old size, which is only the basic guarantee. The model has no such exception.
- The destructor's element destruction is not modelled; only its free test is (`ReleasesHeap`).
- `swap` (lines 77-83) is left out. It passes a size where `std::swap_ranges` wants an iterator, and it does nothing unless both vectors are inline, so it has no coherent contract to model.
- The private `_alloc` (lines 313-320) is dead code that uses `capacity` as a variable. It is left out.
- `data()`, `begin()`, `end()`, `cbegin()`, `cend()` and the reverse and const iterator types are left out. Positions are indices, and `data` is the storage array itself.
- The `static_assert`s (lines 15-16) become type-level assumptions: `N >= 1`, and moving an element cannot fail (moving a value).
- `push_back(T&&)` copies where it could move (line 233). Values have no such distinction, so both overloads are one method.
- `emplace_back` forwards constructor arguments. The model passes the constructed value instead.
- SmallVectors.SmallVector.EmplaceBack: returns the index of the new element, which is a correction. As written (lines 245-247), `new` yields a `T*`, which is bound to `const auto&` and returned as `T&`. That does not compile once instantiated.
- SmallVectors.SmallVector.PushBack, SmallVectors.SmallVector.EmplaceBack, SmallVectors.SmallVector.ResizeFill: arguments are values, so aliasing is not modelled. `push_back(const T&)` (line 215) and `resize(n, const T&)` (line 172) read their argument after `_grow` has moved the elements out and freed a heap buffer (lines 302-307). So `v.push_back(v[0])` on a full vector reads freed memory (heap mode) or a moved-from element (inline mode). The model always appends the old element.
- `size_t` is taken as 64 bits, and `sizeof(T)` is the constant `elemSize`, at least 1.
- SmallVectors.SmallVector.FromRange: one `allocOk` flag covers all the allocations the range constructor makes, so it cannot model a failure on a later growth after an earlier one succeeded.
- SmallVectors.SmallVector.Grow: requires `add >= 1`, which every caller passes. With `add == 0` and `_capacity == 1` it would move the elements into a heap buffer of capacity N, which is a state the inline test cannot recognise.
- Debug `assert`s on indices and iterators (lines 87-111, 252, 263) become `requires` clauses. That also makes erase(first, last) require `last <= size()` only on its non-empty path, as the source does.
- The growth policy is modelled as written. A push or resize throws length_error once `cap + max(add, cap/2)` exceeds max_size(), even when the size actually needed would still fit.

## Findings

| source | as written | input that shows it | evidently intended | confidence | as-written member | corrected member |
|---|---|---|---|---|---|---|
| src/inc/til/small_vector.h:198-212 | shrink_to_fit sets `_capacity = _size` also when the elements move into the inline buffer | N = 4; five pushes (capacity 6, heap); resize(2) (capacity stays 6); shrink_to_fit gives capacity 2 with `_data` inline, so the destructor's `_capacity != N` frees the inline buffer | capacity N on the inline path | high (not executed) | `AsWritten.ShrinkToFitAsWrittenBreaksInlineTest` | `VecModel.ShrinkToFit` |
| src/inc/til/small_vector.h:62 | `empty()` returns `!_data` | a default-constructed vector: no elements, `_data` is the inline buffer, so empty() is false | `size() == 0` | high (not executed) | `AsWritten.EmptyAsWrittenOnDefault` | `SmallVectors.SmallVector.Empty` |
| src/inc/til/small_vector.h:250-254 | erase(pos) destroys the object at `pos`, moves nothing, keeps `_size` and returns no iterator. It is also ill-formed once instantiated (`_data + pos` adds a `T*` to a `const T*`); the model follows the evident reading of the text | three elements, erase(begin()), read as written: slot 0 is destroyed but still counted as live | erase(pos, pos + 1), returning pos | high (not executed) | `AsWritten.EraseAtAsWrittenLeavesDeadSlot` | `SmallVectors.SmallVector.EraseAt` |
| src/inc/til/small_vector.h:256-268 | erase(first, last) has no return statement on its non-empty path. It is also ill-formed once instantiated: `return last` converts a const_iterator to an iterator, and `std::move(last, it1, first)` mixes `const T*` with `T*` and writes through a const_iterator | erase(begin(), begin() + 1) on a vector of one element | return `first` | high (not executed) | `AsWritten.EraseRangeAsWrittenMissesResult` | `SmallVectors.SmallVector.EraseRange` |
