# runtime-array: fixed-capacity arrays and a ring buffer, in Dafny

This project models the core of the Rust crate `runtime-array`. The crate has three parts:

- `HeapArray<T>` (`src/heap_array.rs`) is a fixed-capacity container. One allocation holds exactly `len` initialised slots. It has checked access (`get`/`get_mut`, absent on a miss) and aborting access (`Index`/`IndexMut`, panic on a miss). It has three iteration protocols: borrowing `Iter`, mutable `IterMut`, and consuming `IntoIter`, which drains what is left when it is dropped. Its elements are torn down in index order.
- `RuntimeArray<T>` (`src/lib.rs`) is a near-duplicate of the same contract. It fills with clones. It copies a slice through an owned copy. Its `Index`/`IndexMut` check bounds directly instead of going through `get`.
- `RingBuffer<T>` (`src/ring_buffer.rs`) keeps two cursors, `next_read` and `last_write`, over a `HeapArray`. Both are taken modulo the store's length.

Modules:

- `Wrappers`: `Option`, and `Checked` (`Ok(v)` or `Panic(len, index)`), which is the result of an access that aborts.
- `ArrayIters`: the three iterator classes. `Iter` and `IterMut` hold raw cursors into the container's backing storage. `IntoIter` owns the container itself (a `ManuallyDrop` of it) plus two cursors, and it only ever reads that container's storage. So each iterator is modelled once, over a Dafny `array<T>` with `nat` cursors, and both containers use it. Every iterator works on the store of the container it came from (`it.buf == buf`). It does not copy that store.
- `HeapArrays` and `RuntimeArrays`: one class per container. Each has its own fill, copy, clone and teardown loops, and its own contracts. Each module also has client methods that state what the iterators deliver.
- `RingModel`: the ring buffer's state as a value `Ring(data, nextRead, lastWrite)`. Every operation is a function of that state. Beside them is `Unread`, an independent description of what is waiting to be read, and lemmas that relate the two.
- `RingBuffers`: the `RingBuffer` class. Each of its methods is proved to change `State()` exactly as the matching `RingModel` function does.

Modelling conventions:

- A mutable reference `&mut T` is modelled as the index of the slot it designates. This covers `get_mut`, `IndexMut`, `IterMut` and `as_mut_slice`. Writing through such a reference is `Store(slot, v)`.
- `clone()` of an element is the identity on values.
- A teardown (`Drop`) returns the sequence of elements it destroys, in the order it destroys them.
- The length of both containers is a `const`, so no operation can change it.

The code and its documented behaviour disagree on the ring buffer. The documentation says that after `from_slice([1, 2, 3])` and `write(4)`, a `read()` yields 4. The code yields 2. The model follows the code (see Findings).

## Model

| member | source | states |
|---|---|---|
| `ArrayIters.Iter.Over` | src/heap_array.rs:163-169 | `iter()` starts the cursor at slot 0 with `end` at `len`, so what remains to be yielded is the whole array |
| `ArrayIters.Iter.Next` | src/heap_array.rs:258-266 | absent once `ptr == end`; otherwise yields the element at `ptr` and moves `ptr` on by one (the iterator at src/lib.rs:228-236 is the same) |
| `ArrayIters.Iter.SizeHint` | src/heap_array.rs:268-271 | both bounds equal `end - ptr`, which is the number of elements not yet yielded |
| `ArrayIters.IterMut.Over` | src/heap_array.rs:172-178 | `iter_mut()` will yield the slots `0, 1, ..., len - 1` |
| `ArrayIters.IterMut.Next` | src/heap_array.rs:283-291 | absent once `ptr == end`; otherwise yields slot `ptr`, which is in range, and moves on by one (same at src/lib.rs:253-261) |
| `ArrayIters.IterMut.SizeHint` | src/heap_array.rs:293-296 | both bounds equal the number of slots not yet yielded |
| `ArrayIters.IntoIter.Take` | src/heap_array.rs:214-221 | `into_iter(self)` sets `start = 0` and `end = len`; what remains is the whole array |
| `ArrayIters.IntoIter.Next` | src/heap_array.rs:308-316 | absent once `start == end`; otherwise takes the element at `start` and increments `start` (same at src/lib.rs:280-288) |
| `ArrayIters.IntoIter.SizeHint` | src/heap_array.rs:318-321 | both bounds equal `end - start`, the number of elements not yet taken |
| `ArrayIters.IntoIter.Drop` | src/heap_array.rs:324-327 | dropping runs `next` until `start == end` and tears down exactly the elements not yet taken, in index order (same at src/lib.rs:296-299) |
| `HeapArrays.HeapArray.FromRaw` | src/heap_array.rs:48-52 | the struct literal `Self { ptr, len, .. }`: a container over exactly the given store (not a copy), with `len` its length; only `Clone` calls it, on freshly allocated storage |
| `HeapArrays.HeapArray.Default` | src/heap_array.rs:91-98 | the default array is the empty sentinel, with `len == 0` |
| `HeapArrays.HeapArray.New` | src/heap_array.rs:102-123 | `len == n` and every slot holds `value`; `n == 0` gives the empty array |
| `HeapArrays.HeapArray.FromSlice` | src/heap_array.rs:57-89 | `len == abs(s)` and the whole view equals `s`, in the same order |
| `HeapArrays.FromIter` | src/heap_array.rs:237-240 | collecting items gives the array `from_slice` builds from them, with the items in order |
| `HeapArrays.HeapArray.AsSlice` | src/heap_array.rs:126-128 | the read-only view has exactly `len` elements |
| `HeapArrays.HeapArray.AsMutSlice` | src/heap_array.rs:131-133 | the mutable view gives access to slots `0..len`, the i-th being slot i |
| `HeapArrays.HeapArray.ToVec` | src/heap_array.rs:30-32 | the owned copy equals `as_slice()` |
| `HeapArrays.HeapArray.Len` | src/heap_array.rs:136-138 | the length is the number of slots in the store |
| `HeapArrays.HeapArray.IsEmpty` | src/heap_array.rs:141-143 | true exactly when the array holds no element |
| `HeapArrays.HeapArray.Get` | src/heap_array.rs:146-152 | present exactly when `index < len`, and then it is the element at `index` |
| `HeapArrays.HeapArray.GetMut` | src/heap_array.rs:155-161 | present exactly when `index < len`, and then it is slot `index` |
| `HeapArrays.HeapArray.Index` | src/heap_array.rs:180-187 | panics exactly when `index >= len`, with the length and the index; otherwise it gives the same element as `get` |
| `HeapArrays.HeapArray.IndexMut` | src/heap_array.rs:188-195 | panics exactly when `index >= len`; otherwise it gives the same slot as `get_mut` |
| `HeapArrays.HeapArray.Store` | src/heap_array.rs:155-161 | a write through a mutable reference changes that slot only |
| `HeapArrays.HeapArray.SetIndex` | src/heap_array.rs:188-195 | `a[index] = v` changes slot `index` only when it is in range, and changes nothing when it panics |
| `HeapArrays.HeapArray.Clone` | src/heap_array.rs:34-55 | gives fresh storage with the same `len` and equal elements in order |
| `HeapArrays.CloneIsIndependent` | src/heap_array.rs:34-55 | writing to the clone leaves the original unchanged |
| `HeapArrays.HeapArray.Drop` | src/heap_array.rs:196-210 | tears down exactly the elements of the array, in index order |
| `HeapArrays.HeapArray.Iter` | src/heap_array.rs:223-229 | `&a` into an iterator: a fresh cursor over the array's own storage, from slot 0 to `len` |
| `HeapArrays.HeapArray.IterMut` | src/heap_array.rs:230-236 | `&mut a` into an iterator: a fresh cursor over the array's storage, from slot 0 to `len` |
| `HeapArrays.HeapArray.IntoIter` | src/heap_array.rs:211-222 | the consuming iterator owns the storage, and what it will yield is the array's contents |
| `HeapArrays.CollectIter` | src/heap_array.rs:255-272 | the borrowing iterator, run to exhaustion, yields exactly the array's elements in index order |
| `HeapArrays.CollectIterMut` | src/heap_array.rs:280-297 | the mutable iterator, run to exhaustion, yields every slot exactly once, in index order |
| `HeapArrays.ConsumeThenDrop` | src/heap_array.rs:305-327 | after `k` calls of `next` and then drop, each element is taken exactly once, yielded or torn down, in index order; `min(k, len)` of them are yielded |
| `RuntimeArrays.RuntimeArray.FromRaw` | src/lib.rs:209-213 | the struct literal `Self { ptr, len, .. }`: a container over exactly the given store (not a copy), with `len` its length; only `Clone` calls it, on freshly allocated storage |
| `RuntimeArrays.RuntimeArray.New` | src/lib.rs:30-49 | `len == n` and every slot holds a clone of `value`; `n == 0` gives the empty array |
| `RuntimeArrays.RuntimeArray.FromSlice` | src/lib.rs:51-71 | `len == abs(s)` and the whole view equals `s`, in order |
| `RuntimeArrays.RuntimeArray.ToVec` | src/lib.rs:74-76 | the owned copy equals `as_slice()` |
| `RuntimeArrays.RuntimeArray.Len` | src/lib.rs:81-83 | the length is the number of slots in the store |
| `RuntimeArrays.RuntimeArray.IsEmpty` | src/lib.rs:86-88 | true exactly when the array holds no element |
| `RuntimeArrays.RuntimeArray.AsSlice` | src/lib.rs:91-93 | the read-only view has exactly `len` elements |
| `RuntimeArrays.RuntimeArray.AsMutSlice` | src/lib.rs:96-98 | the mutable view gives access to slots `0..len`, the i-th being slot i |
| `RuntimeArrays.RuntimeArray.Get` | src/lib.rs:101-107 | present exactly when `index < len`, and then it is the element at `index` |
| `RuntimeArrays.RuntimeArray.GetMut` | src/lib.rs:110-116 | present exactly when `index < len`, and then it is slot `index` |
| `RuntimeArrays.RuntimeArray.Index` | src/lib.rs:135-144 | panics exactly when `index >= len`, with the length and the index; otherwise it gives the element `get` returns |
| `RuntimeArrays.RuntimeArray.IndexMut` | src/lib.rs:145-153 | panics exactly when `index >= len`; otherwise it addresses slot `index` only |
| `RuntimeArrays.RuntimeArray.Store` | src/lib.rs:110-116 | a write through a mutable reference changes that slot only |
| `RuntimeArrays.RuntimeArray.SetIndex` | src/lib.rs:145-153 | `a[index] = v` changes slot `index` only when it is in range, and changes nothing when it panics |
| `RuntimeArrays.RuntimeArray.Clone` | src/lib.rs:195-216 | gives fresh storage with the same `len` and element-wise equal contents in order |
| `RuntimeArrays.CloneIsIndependent` | src/lib.rs:195-216 | writing to the clone leaves the original unchanged |
| `RuntimeArrays.RuntimeArray.Drop` | src/lib.rs:154-168 | tears down exactly the elements of the array, in index order |
| `RuntimeArrays.RuntimeArray.Iter` | src/lib.rs:118-124 | a fresh cursor over the array's own storage, from slot 0 to `len` |
| `RuntimeArrays.RuntimeArray.IterMut` | src/lib.rs:127-133 | a fresh cursor over the array's storage, from slot 0 to `len` |
| `RuntimeArrays.RuntimeArray.IntoIter` | src/lib.rs:169-180 | the consuming iterator owns the storage, and what it will yield is the array's contents |
| `RuntimeArrays.CollectIter` | src/lib.rs:225-242 | the borrowing iterator, run to exhaustion, yields exactly the array's elements in index order |
| `RuntimeArrays.CollectIterMut` | src/lib.rs:250-267 | the mutable iterator, run to exhaustion, yields every slot exactly once, in index order |
| `RuntimeArrays.ConsumeThenDrop` | src/lib.rs:277-300 | after `k` calls of `next` and then drop, each element is taken exactly once, yielded or torn down, in index order; `min(k, len)` are yielded |
| `RingModel.WriteSlot` | src/ring_buffer.rs:44 | the write slot `(last_write + 1) % len` is in range, and it is slot 0 whenever `last_write == len - 1` |
| `RingModel.Pending` | src/ring_buffer.rs:34 | the number of unread elements is below `len` (one slot is sacrificial), and it is 0 exactly when `read` would report empty |
| `RingModel.Unread` | src/ring_buffer.rs:51-58 | the reference description of what is waiting to be read: one element per pending slot, from the read cursor onwards, wrapping at `len` |
| `RingModel.FromSlice` | src/ring_buffer.rs:25-31 | the store is `s`, `next_read = 0` and `last_write = abs(s) - 1`; requires a non-empty `s` |
| `RingModel.Read` | src/ring_buffer.rs:33-42 | absent with no change exactly when `next_read == (last_write + 1) % len`; otherwise the element at `next_read`, with the cursor advanced modulo `len`; the store and `last_write` never change |
| `RingModel.Write` | src/ring_buffer.rs:43-49 | stores `v` at the write slot, changes no other slot, and advances `next_read` modulo `len` exactly when it sat on that slot; `last_write` is unchanged |
| `RingModel.ReadAll` | src/ring_buffer.rs:51-58 | terminates, returns one element per pending slot, and leaves the buffer reading as empty, with the store and `last_write` unchanged |
| `RingModel.WriteAll` | src/ring_buffer.rs:59-61 | `write` folded over the values in order; it keeps the length and the cursor invariant |
| `RingModel.ReadShrinksPending` | src/ring_buffer.rs:53-56 | each read from a non-empty buffer leaves one element fewer unread, so the drain loop terminates |
| `RingModel.ReadAllStep` | src/ring_buffer.rs:53-56 | one round of the drain loop takes the element at `next_read` and continues from the advanced state |
| `RingModel.ReadPopsFront` | src/ring_buffer.rs:33-42 | `read` returns the oldest unread element and removes it from the front, and it is absent exactly when nothing is unread |
| `RingModel.ReadAllIsUnread` | src/ring_buffer.rs:51-58 | `read_all` returns exactly the unread elements, oldest first, and nothing is unread afterwards |
| `RingModel.ReadAllOfEmpty` | src/ring_buffer.rs:53 | draining an empty buffer returns nothing and changes nothing |
| `RingModel.FromSliceReadsEmpty` | src/ring_buffer.rs:25-34 | right after `from_slice`, `read` reports absent and nothing is unread, although the store holds `s` |
| `RingModel.UnreadUnderInv` | src/ring_buffer.rs:43-49 | with `last_write` pinned at `len - 1`, the unread elements are the tail of the store from `next_read`, and nothing when `next_read == 0` |
| `RingModel.WriteAsWritten` | src/ring_buffer.rs:43-49 | as written, `write` overwrites slot 0, which is never unread; a write into an empty buffer makes the stale slots `1..len` unread |
| `RingModel.WriteAllAppend` | src/ring_buffer.rs:59-61 | writing two sequences one after the other is writing their concatenation |
| `RingModel.WriteAllAsWritten` | src/ring_buffer.rs:59-61 | as written, `write_all` leaves slots `1..len` untouched, and the unread elements afterwards come from the original store: either its old unread elements, or slots `1..len`; no value passed in is ever unread |
| `RingModel.WriteThenReadTrace` | src/ring_buffer.rs:43-49 | `from_slice([1,2,3])` then `write(4)` gives store `[4,2,3]` with `next_read = 1`; reads then yield 2 and 3, never 4 |
| `RingModel.WriteIntended` | src/ring_buffer.rs:43-49 | the corrected write keeps the store's length and the cursor bounds |
| `RingModel.WriteIntendedNotFull` | src/ring_buffer.rs:43-49 | the corrected write into a buffer that is not full appends the value to the unread elements |
| `RingModel.WriteIntendedFull` | src/ring_buffer.rs:43-49 | the corrected write into a full buffer evicts the oldest unread element and appends the value |
| `RingModel.WriteIntendedIsFifo` | src/ring_buffer.rs:43-49 | the corrected write is a bounded FIFO push: the unread elements become the newest `len - 1` of the old ones plus the value |
| `RingModel.WriteIntendedTrace` | src/ring_buffer.rs:43-49 | with the corrected write, `from_slice([1,2,3])` then `write(4)` makes `read()` yield 4 |
| `RingBuffers.RingBuffer.FromSlice` | src/ring_buffer.rs:25-31 | builds the state `RingModel.FromSlice(s)` over fresh storage, with the cursor invariant established |
| `RingBuffers.RingBuffer.Read` | src/ring_buffer.rs:33-42 | returns and leaves the state exactly as `RingModel.Read`, and keeps the cursor invariant |
| `RingBuffers.RingBuffer.Write` | src/ring_buffer.rs:43-49 | changes the state exactly as `RingModel.Write`, and keeps the cursor invariant |
| `RingBuffers.RingBuffer.ReadAll` | src/ring_buffer.rs:51-58 | the while loop terminates and returns, and leaves the state, exactly as `RingModel.ReadAll` |
| `RingBuffers.RingBuffer.WriteAll` | src/ring_buffer.rs:59-61 | the for loop changes the state exactly as `RingModel.WriteAll` |
| `RingBuffers.RingBuffer.ToVec` | src/ring_buffer.rs:19-21 | returns what `read_all` returns and, like it, leaves the buffer empty |
| `RingBuffers.ReadAllDrains` | src/ring_buffer.rs:51-58 | a drain of the buffer returns its unread elements, oldest first, and afterwards nothing is unread |

## Findings

| source | as written | input that shows it | evidently intended | confidence | as-written member | corrected member |
|---|---|---|---|---|---|---|
| src/ring_buffer.rs:43-49 | `write` never assigns `last_write`, and it advances `next_read` when it equals the write slot, which is the empty test rather than the full test | `from_slice([1,2,3])`, `write(4)`, `read()` gives `Some(2)`; no written value is ever read back | `last_write` moves to the slot written, and the oldest element is evicted only when the buffer is full, so `read()` gives `Some(4)` | high, not executed | `RingModel.WriteThenReadTrace` | `RingModel.WriteIntendedIsFifo` |

Adding only the missing `last_write` assignment would not be enough. A write into an empty buffer would still move `next_read` past the new element, so the buffer would still read as empty. `RingModel.WriteIntended` therefore fixes both points. `RingModel.WriteAllAsWritten` states the general form of the defect. The `RingBuffer` class keeps the behaviour as written.

## Left out

- Raw allocation and deallocation (`alloc`, `dealloc`, `Layout`, `NonNull::dangling`, pointer arithmetic, `from_raw_parts`): storage is a Dafny array. The empty sentinel is an array of length 0. The panic when `alloc` returns null, and the layout-overflow panic, are not modelled.
- The zero-sized-type branch of `HeapArray::from_slice` and the no-op `size_of` test in `HeapArray::new`: both concern memory layout only.
- These memory-safety defects have no counterpart in a value model:
  - the bitwise duplicate of one value in `HeapArray::new`;
  - the per-element `read().clone()` in `HeapArray::clone` (src/heap_array.rs:46) and `RuntimeArray::clone` (src/lib.rs:207). `read()` makes a bitwise copy of the original element, the clone is taken from that copy, and the copy is then dropped. So both `clone`s also destroy the original's elements, and the original's later `drop` destroys them again;
  - `IntoIter` never freeing its `ManuallyDrop` buffer.

  Only the element values and the order of teardown are modelled. The rows for `HeapArrays.HeapArray.Clone`, `HeapArrays.CloneIsIndependent`, `HeapArrays.HeapArray.Drop`, `RuntimeArrays.RuntimeArray.Clone`, `RuntimeArrays.CloneIsIndependent` and `RuntimeArrays.RuntimeArray.Drop` hold in that value model only. In the program, each original element is destroyed once by `clone` and once more by `drop`, and an element whose destructor frees memory is left dangling in the original.
- Moves and ownership: `into_iter(self)` consumes the array, but Dafny cannot forbid using it afterwards. Storage is also not exclusively owned in the model:
  - `FromRaw` and the three iterators use the store they are given;
  - only `Default`, `New`, `FromSlice` and `Clone` allocate a fresh store;
  - `FromRaw` is called only by `Clone`, on storage `Clone` has just allocated;
  - a caller that passes an existing container's store to `FromRaw` gets two containers over one store, which the Rust API cannot produce.
- Lifetimes, `PhantomData`, and the `Send`/`Sync` impls: these are concurrency markers.
- `Debug` formatting and the text of panic messages. The length and the index the message reports are kept in `Checked.Panic`.
- The `array!` and `ring!` macros: sugar over the constructors.
- `RingModel.FromSlice`: an empty slice is a precondition violation. The release-mode wrap-around of `slice.len() - 1` is not modelled.
- Integer width: lengths and cursors are `nat`. `usize` overflow cannot occur, because `last_write + 1 <= len`.
- Element `clone()` is the identity. A clone with side effects, or one not equal to its source, is outside the model.
- Destructor side effects: `Drop` methods return the sequence of elements torn down and nothing more.
