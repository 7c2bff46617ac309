# advanced-vector in Dafny

A model of `RawMemory<T>` and `Vector<T>` from `advanced-vector/vector.h`: a
growable array that keeps raw storage apart from object lifetime.

- `RawMemory.Block<T>` is the storage block. It is a sequence of cells, and
  each cell is either `None` (uninitialised memory) or `Some(x)` (a live
  object holding `x`).
- Placement construction is allowed only into a `None` cell. Destruction and
  assignment are allowed only on a `Some` cell. Deallocation is allowed only
  when the block holds no live object. These rules are preconditions, so every
  step of every algorithm is checked against object lifetime, except in the
  two as-written members listed under "## Findings", which show where the
  code breaks these rules.
- `Vectors.Vector<T>` is a block plus `size`. `Vectors.Valid` is the container
  invariant: `size <= capacity`, cells `[0, size)` are live and cells
  `[size, capacity)` are uninitialised. `Vectors.Elements` is the abstract
  contents, the values of the live prefix in order. Every contract is stated
  in terms of this sequence.
- `ElementTypes.ElementType<T>` describes the element type:
  - the value of `T()`;
  - which values throw when an object holding them is constructed;
  - `is_nothrow_move_constructible` and `is_copy_constructible`;
  - the moved-from state, which is a parameter so that no contract can rely
    on it.
- A mutating operation returns the post-state and a `Status`. `Threw` means an
  element constructor threw and the exception propagated, so the exception
  guarantees are statements about the returned post-state.
- `MemoryAlgorithms` models the standard routines the header calls, cell by
  cell, with loops:
  - `std::destroy_n`;
  - `std::uninitialized_copy_n` and `std::uninitialized_move_n`;
  - `std::uninitialized_value_construct_n`;
  - `std::copy_n`, `std::move` and `std::move_backward`.
- `VectorObjects` keeps vectors in a store addressed by references. Copy and
  move assignment and `Swap` compare object identities, so this is where
  self-assignment and "no other object changes" are stated.
- `VectorProperties` states properties of sequences of calls: appends in push
  order with a relocation count for the doubling policy, and the
  insert-then-erase round trip.

Iterators are modelled as indices: `pos` stands for `pos - begin()`.

Two behaviours of the code that the model keeps exactly:
- `PopBack` on an empty vector is a no-op (vector.h:227).
- `Reserve(n)` with `n > capacity` allocates exactly `n` cells (vector.h:202).

## Model

| member | source | states |
|---|---|---|
| ElementTypes.Relocation | advanced-vector/vector.h:271-277 | Relocation moves whenever the move cannot throw, and whenever the type cannot be copied. It copies only a copyable type whose move may throw. So whenever the type is nothrow-movable or copyable, a relocation either leaves the originals intact or cannot fail. |
| RawMemory.Allocate | advanced-vector/vector.h:15-18 | A new block has exactly the requested number of cells, and every cell is uninitialised. |
| RawMemory.Null | advanced-vector/vector.h:91-92 | A default-constructed block has capacity 0 and holds no live object. |
| RawMemory.Get | advanced-vector/vector.h:58-61 | For `i < capacity`, indexing a live cell yields the object stored in that cell. |
| RawMemory.GetAfterWrite | advanced-vector/vector.h:58-61 | Reading a cell after constructing or storing `x` there yields `x`; reading any other live cell yields what it held before. |
| RawMemory.Swap | advanced-vector/vector.h:63-66 | Two blocks exchange their cells and capacities. |
| RawMemory.MoveConstruct | advanced-vector/vector.h:23-28 | The new block takes the source's cells and capacity. The source is left null with capacity 0. |
| RawMemory.MoveAssign | advanced-vector/vector.h:29-38 | The target's buffer is deallocated, which is only allowed when it holds no live object. The target takes the source's cells, and the source is left with capacity 0. |
| MemoryAlgorithms.DestroyN | advanced-vector/vector.h:121-123 | Ends the lifetime of exactly the live cells `[at, at+n)`. All other cells and the capacity are unchanged. |
| MemoryAlgorithms.UninitializedConstructN | advanced-vector/vector.h:271-277 | Copies or moves `n` live objects into uninitialised cells, and leaves all other cells untouched. It throws iff constructing one of the sources throws. On a throw, the objects already built are destroyed, so the target block is as before. A copy never changes the source. A move keeps the source cells live, with unspecified values. |
| MemoryAlgorithms.UninitializedValueConstructN | advanced-vector/vector.h:213 | Value-initialises `n` uninitialised cells to `T()`. It throws iff `n > 0` and `T()` throws. A throw leaves the block unchanged. |
| MemoryAlgorithms.AssignN | advanced-vector/vector.h:148 | The first `n` live objects take the values of the other block's first `n` objects. The remaining cells are unchanged. |
| MemoryAlgorithms.ShiftLeft | advanced-vector/vector.h:261 | Every object of `[lo, hi-1)` takes its right neighbour's value. The whole range stays live, and nothing outside it changes. |
| MemoryAlgorithms.ShiftRight | advanced-vector/vector.h:305 | Every object of `(lo, hi)` takes its left neighbour's value. The whole range stays live, and nothing outside it changes. |
| Vectors.Empty | advanced-vector/vector.h:98 | The default vector is valid, has no elements and has capacity 0. |
| Vectors.WithSize | advanced-vector/vector.h:100-105 | `Vector(n)` holds `n` copies of `T()` in exactly `n` cells. It fails iff `n > 0` and `T()` throws. |
| Vectors.CopyOf | advanced-vector/vector.h:107-112 | The copy has the same elements and capacity `other.size`. It fails iff copying some element throws. |
| Vectors.MoveConstruct | advanced-vector/vector.h:114-119 | The new vector has the source's elements and capacity. The source is left valid with size 0 and capacity 0. |
| Vectors.Dispose | advanced-vector/vector.h:121-123 | The destructor hands the allocator a block of the same capacity that holds no live object. |
| Vectors.At | advanced-vector/vector.h:137-140 | For `index < size`, indexing returns the element at that position of the abstract contents. |
| Vectors.Reserve | advanced-vector/vector.h:198-206 | For `n <= capacity` nothing changes. Otherwise the elements are kept and the capacity becomes exactly `n`. It throws iff some relocation throws. A throw keeps size and capacity, and keeps the elements whenever relocation is safe. |
| Vectors.Resize | advanced-vector/vector.h:208-216 | The size becomes `n`. Shrinking keeps the prefix. Growing keeps the old elements and appends copies of `T()`, with capacity `n` when the old capacity was smaller, even when `T()` then throws. It throws iff growing needs a throwing relocation or `T()` throws. A throw leaves the size unchanged, and leaves the elements unchanged unless it was a throwing relocation (when relocation is safe, even then). A throwing relocation keeps the capacity, and leaves the vector exactly as it was when relocation is safe. |
| Vectors.RelocateAround | advanced-vector/vector.h:284-294 | Elements before `index` land in the same cells of the new block, and the rest land one cell further, around the new element. It throws iff relocating some element throws. On a throw the `catch` blocks destroy the new element and the relocated prefix, so the new block holds no live object. |
| Vectors.RelocateAfter | advanced-vector/vector.h:289-294 | The elements from `index` on land one cell further, after the relocated prefix and the new element. It throws iff relocating one of them throws, and then the prefix and the new element are destroyed, so the new block holds no live object. |
| Vectors.EmplaceWithRelocate | advanced-vector/vector.h:280-297 | From a full block it produces a block of capacity `2*size` (1 when empty) holding `s[..i] + [x] + s[i..]`, having relocated all `size` elements. On a throw the new block is emptied and discarded and the old block remains valid; it is unchanged when relocation is safe or when constructing `x` was what threw. |
| Vectors.EmplaceWithoutRelocate | advanced-vector/vector.h:300-314 | With a free cell and the same capacity, it produces `s[..i] + [x] + s[i..]`. It throws iff `x`'s construction throws or moving the last element throws. A throw changes nothing. |
| Vectors.Emplace | advanced-vector/vector.h:238-249 | Inserting at `i <= size` gives `s[..i] + [x] + s[i..]` and returns `i`. The capacity doubles (1 from empty) exactly when the block was full, and is otherwise kept. A growth relocates all `size` elements, and otherwise none is relocated. The throw condition is characterised exactly. On a throw, size and capacity are kept, and so are the elements, except during a relocation by a throwing move. A throwing construction of `x` changes nothing at all. |
| Vectors.Insert | advanced-vector/vector.h:251-257 | Same contract as `Emplace`. |
| Vectors.EmplaceBack | advanced-vector/vector.h:233-236 | Appends `x`, giving `s + [x]`, under the same growth rule, relocation count and exception guarantee as `Emplace`. |
| Vectors.PushBack | advanced-vector/vector.h:218-224 | Same contract as `EmplaceBack`. |
| Vectors.PopBack | advanced-vector/vector.h:226-231 | Removes exactly the last element, keeps the capacity, and is a no-op on an empty vector. |
| Vectors.Erase | advanced-vector/vector.h:259-265 | Corrected: erasing `i < size` gives `s[..i] + s[i+1..]`, keeps the capacity, returns `i` and keeps the container invariant. |
| Vectors.EraseAsWritten | advanced-vector/vector.h:259-265 | As written: the destroyed cell is `size`, which never holds a live object and lies past the block when the block is full. The moved-from object at `size-1` stays alive beyond the new size, so the invariant is broken. |
| VectorObjects.CopyAssignInPlace | advanced-vector/vector.h:147-156 | Reusing storage when `rhs.size <= capacity`: the target gets `rhs`'s elements and keeps its capacity. It throws iff copying one of the missing elements throws. A throw leaves the old size, holding a prefix of `rhs`. |
| VectorObjects.CopyAssign | advanced-vector/vector.h:142-159 | The target gets `rhs`'s elements. Its capacity becomes `rhs.size` if that exceeded the old capacity, and is kept otherwise. `rhs` and every other object are unchanged, and self-assignment is a no-op. A throw on the growth path changes nothing. |
| VectorObjects.MoveAssign | advanced-vector/vector.h:160-167 | Corrected: the target gets `rhs`'s elements and capacity, and `rhs` is left with size 0 and capacity 0. The deallocated block holds no live object. Self-move is a no-op, and no other object changes. |
| VectorObjects.MoveAssignAsWritten | advanced-vector/vector.h:160-167 | As written: the visible result is the same, but a non-empty target's block is deallocated with its live objects never destroyed. |
| VectorObjects.Swap | advanced-vector/vector.h:193-196 | Two vectors exchange their elements and capacities, and no other object changes. |
| VectorObjects.SwapTwice | advanced-vector/vector.h:193-196 | Swapping twice restores every object. |
| VectorProperties.PushAll | advanced-vector/vector.h:218-249 | Pushing `xs` gives `s + xs`, so `N` pushes from empty give size `N` in push order. The relocations each append reports add up so that each relocated element pays for one cell of capacity gained, and the capacity stays below twice the size once it has grown, so `N` pushes from empty relocate fewer than `2N` elements. With enough capacity, for example after `Reserve`, nothing is relocated. |
| VectorProperties.InsertThenErase | advanced-vector/vector.h:238-265 | `Insert(i, x)` followed by `Erase(i)` restores the original elements. |

## Left out

- Allocation failure (`operator new` throwing `std::bad_alloc`) and byte sizing (`n * sizeof(T)`) are not modelled. Allocation always succeeds and yields uninitialised cells.
- Raw pointers and iterators (`begin`, `end`, `cbegin`, `cend`, `GetAddress`, `RawMemory::operator+`) and the `const` overloads are not modelled. Positions are indices.
- Variadic arguments and perfect forwarding are not modelled. The arguments are one value `x`, and constructing from them throws exactly when constructing a copy of `x` would.
- Assignment operators of the element type never throw in this model. So the weaker guarantees of the in-place insertion path (when `move_backward` throws) and of `Erase` (when the move assignment throws) are not modelled.
- Vectors.Emplace: when relocating an element throws on the growth path, the elements are promised unchanged only when the type is nothrow-movable or copyable. A type that is neither is relocated by a move that may throw, and a throwing move leaves moved-from originals behind, so the code gives no stronger promise. Every other throw leaves the vector unchanged. The same holds for `Vectors.Reserve`, `Vectors.EmplaceBack`, `Vectors.PushBack` and `Vectors.Insert`.
- Vectors.Resize: when the relocation inside `Reserve` throws, the capacity is kept, and the vector is promised unchanged only when the type is nothrow-movable or copyable, for the reason above. When `T()` throws after `Reserve` has grown the block, size and elements are kept but the capacity stays the new `n`, as in the code. A `T()` throw without growth leaves the vector unchanged.
- Vectors.Capacity and `RawMemory.Block.Capacity` are plain accessors with no contract of their own; the capacity is constrained by the contracts of the operations that change it and by `Vectors.Valid`.
- A constructor that throws is assumed to leave its source unchanged.
- ElementTypes.Throws: a move that is not `noexcept` throws on exactly the values a copy throws on. A copyable type whose copy can throw but whose potentially-throwing move never does cannot be described, so for such a type the model may throw where the code does not (for example at the move of the last element in `EmplaceWithoutRelocate`).
- `size_t` arithmetic is not modelled: sizes are unbounded, so `size_ * 2` cannot wrap.
- The self-check inside `RawMemory`'s move assignment is not modelled. Blocks have no identity in the model; identity is modelled for vectors, in `VectorObjects`.
- The `Size()` query is the `size` field, and `RawMemory`'s destructor is the requirement that a deallocated block holds no live object. Neither has a member of its own.
- Iterator invalidation and the complexity of operations other than appends are not modelled. The cost model covers only the relocations counted by `VectorProperties.PushAll`.

## Findings

| source | as written | input that shows it | evidently intended | confidence | as-written member | corrected member |
|---|---|---|---|---|---|---|
| advanced-vector/vector.h:262 | After shifting left, `Erase` destroys the cell at `begin() + size_`. That cell is uninitialised, or one past the block when it is full. The moved-from object left in cell `size_ - 1` is never destroyed. | A vector holding `[1, 2]` with capacity 2; `Erase(begin())` destroys cell 2, past the block, and leaves the object in cell 1 alive. | `std::destroy_n(begin() + size_ - 1, 1)` | high; not executed | Vectors.EraseAsWritten | Vectors.Erase |
| advanced-vector/vector.h:162 | Move assignment hands the target's block to `RawMemory`'s move assignment, which deallocates it without running destructors. The target's live elements are never destroyed. | A target `Vector<std::string>` holding one string, move-assigned from another vector; the string's destructor never runs. | Destroy the target's `size_` elements before taking over `rhs`'s block, or swap with `rhs`. | high; not executed | VectorObjects.MoveAssignAsWritten | VectorObjects.MoveAssign |
