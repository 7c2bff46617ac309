/** `Vector<T>` (advanced-vector/vector.h:95-315): one `RawMemory` block plus
    `size_`, the number of live objects at the front of the block. */
module Vectors {
  import opened Wrappers
  import opened RawMemory
  import opened ElementTypes
  import opened MemoryAlgorithms

  datatype Vector<T> = Vector(data: Block<T>, size: nat)

  /** The container invariant: `size <= capacity`, cells `[0, size)` hold live
      objects and cells `[size, capacity)` are uninitialised. */
  predicate Valid<T>(v: Vector<T>)
  {
    v.size <= v.data.Capacity() && v.data.AllLive(0, v.size) && v.data.AllRaw(v.size, v.data.Capacity())
  }

  /** `Vector::Capacity`. */
  function Capacity<T>(v: Vector<T>): nat
  {
    v.data.Capacity()
  }

  /** The abstract contents: the values of the live prefix, in order. */
  function Elements<T>(v: Vector<T>): (s: seq<T>)
    requires Valid(v)
    ensures |s| == v.size
  {
    seq(v.size, i requires 0 <= i < v.size => v.data.cells[i].value)
  }

  /** Block `b` holds exactly the objects of `s`, at the front, and nothing else. */
  ghost predicate Holds<T>(b: Block<T>, s: seq<T>)
  {
    |s| <= b.Capacity() && b.AllRaw(|s|, b.Capacity())
    && forall i | 0 <= i < |s| :: b.cells[i] == Some(s[i])
  }

  lemma HoldsIsValid<T>(b: Block<T>, s: seq<T>)
    requires Holds(b, s)
    ensures Valid(Vector(b, |s|)) && Elements(Vector(b, |s|)) == s
  {
  }

  /** The capacity `Emplace` leaves behind: doubled (1 from empty) when the
      block is full, unchanged otherwise. */
  function GrownCapacity<T>(v: Vector<T>): nat
  {
    if v.size == Capacity(v) then (if v.size == 0 then 1 else 2 * v.size) else Capacity(v)
  }

  /** Relocating the elements of `v` throws for some element. */
  predicate RelocationThrows<T>(v: Vector<T>, ty: ElementType<T>)
    requires Valid(v)
  {
    exists i | 0 <= i < v.size :: Throws(ty, Relocation(ty), Elements(v)[i])
  }

  /** A relocation failure found on the cells `[lo, hi)` of a valid vector is
      a failure on its elements. */
  lemma RelocationThrowsOnCells<T>(v: Vector<T>, ty: ElementType<T>, lo: nat, hi: nat)
    requires Valid(v) && lo <= hi <= v.size
    requires exists i | lo <= i < hi :: Throws(ty, Relocation(ty), v.data.cells[i].value)
    ensures RelocationThrows(v, ty)
  {
    var i :| lo <= i < hi && Throws(ty, Relocation(ty), v.data.cells[i].value);
    assert Elements(v)[i] == v.data.cells[i].value;
  }

  // ---------------------------------------------------------------- constructors

  /** `Vector()`: the empty vector without storage. */
  function Empty<T>(): (v: Vector<T>)
    ensures Valid(v) && Elements(v) == [] && Capacity(v) == 0
  {
    Vector(Null(), 0)
  }

  /** `Vector(size)`: `n` value-initialised elements in a block of exactly `n`
      cells; the construction fails when value initialisation throws. */
  method WithSize<T>(n: nat, ty: ElementType<T>) returns (r: Result<Vector<T>, Error>)
    ensures r.Failure? <==> n > 0 && ty.throwsOn(ty.zero)
    ensures r.Success? ==> Valid(r.value) && Capacity(r.value) == n
    ensures r.Success? ==> Elements(r.value) == seq(n, _ => ty.zero)
  {
    var b, st := UninitializedValueConstructN(Allocate(n), 0, n, ty);
    if st == Threw {
      return Failure(ConstructorThrew);
    }
    r := Success(Vector(b, n));
  }

  /** The copy constructor: a new block of exactly `other.size` cells holding
      copies of `other`'s elements; it fails when some copy throws. */
  method CopyOf<T>(other: Vector<T>, ty: ElementType<T>) returns (r: Result<Vector<T>, Error>)
    requires Valid(other)
    ensures r.Failure? <==> exists i | 0 <= i < other.size :: ty.throwsOn(Elements(other)[i])
    ensures r.Success? ==> Valid(r.value) && Capacity(r.value) == other.size
    ensures r.Success? ==> Elements(r.value) == Elements(other)
  {
    var _, b, st := UninitializedConstructN(other.data, 0, other.size, Allocate(other.size), 0, Copy, ty);
    if st == Threw {
      var i :| 0 <= i < other.size && ty.throwsOn(other.data.cells[i].value);
      assert Elements(other)[i] == other.data.cells[i].value;
      return Failure(ConstructorThrew);
    }
    r := Success(Vector(b, other.size));
  }

  /** The move constructor: the new vector takes `other`'s block and size;
      `other` is left empty, with no storage. */
  function MoveConstruct<T>(other: Vector<T>): (r: (Vector<T>, Vector<T>))
    requires Valid(other)
    ensures Valid(r.0) && Elements(r.0) == Elements(other) && Capacity(r.0) == Capacity(other)
    ensures Valid(r.1) && r.1.size == 0 && Capacity(r.1) == 0
  {
    var (taken, left) := RawMemory.MoveConstruct(other.data);
    (Vector(taken, other.size), Vector(left, 0))
  }

  /** The destructor: every live element is destroyed, so the block handed
      back to the allocator holds no live object. */
  method Dispose<T>(v: Vector<T>) returns (freed: Block<T>)
    requires Valid(v)
    ensures freed.Unoccupied() && freed.Capacity() == Capacity(v)
  {
    freed := DestroyN(v.data, 0, v.size);
  }

  // ---------------------------------------------------------------- access

  /** `operator[]` with the assertion `index < size` of `vector.h` as a precondition. */
  function At<T>(v: Vector<T>, index: nat): (x: T)
    requires Valid(v) && index < v.size
    ensures x == Elements(v)[index]
  {
    Get(v.data, index)
  }

  // ---------------------------------------------------------------- capacity

  /** `Reserve(n)`: a no-op when `n <= capacity`; otherwise the elements are
      relocated into a block of exactly `n` cells. A relocation that throws
      leaves size and capacity as they were, and the elements too whenever the
      element type allows a safe relocation. */
  method Reserve<T>(v: Vector<T>, n: nat, ty: ElementType<T>) returns (w: Vector<T>, st: Status)
    requires Valid(v)
    ensures Valid(w) && w.size == v.size
    ensures n <= Capacity(v) ==> w == v && st == Completed
    ensures st == Threw <==> n > Capacity(v) && RelocationThrows(v, ty)
    ensures st == Completed ==> Elements(w) == Elements(v)
    ensures st == Completed ==> Capacity(w) == if n <= Capacity(v) then Capacity(v) else n
    ensures st == Threw ==> Capacity(w) == Capacity(v)
    ensures st == Threw && RelocationIsSafe(ty) ==> w == v
  {
    if n <= Capacity(v) {
      return v, Completed;
    }
    var prev, newData, moved := UninitializedConstructN(v.data, 0, v.size, Allocate(n), 0, Relocation(ty), ty);
    if moved == Threw {
      w, st := Vector(prev, v.size), Threw;
      RelocationThrowsOnCells(v, ty, 0, v.size);
      return;
    }
    prev := DestroyN(prev, 0, v.size);
    assert prev.Unoccupied();
    w, st := Vector(newData, v.size), Completed;
  }

  /** `Resize(n)`: shrinking destroys the trailing elements and keeps the
      prefix; growing reserves exactly `n` cells when needed and appends
      value-initialised elements. A failed growth leaves the size unchanged;
      when it was `T()` that threw, the elements are kept too, but a growth
      that `Reserve` already completed keeps its capacity of `n`. */
  method Resize<T>(v: Vector<T>, n: nat, ty: ElementType<T>) returns (w: Vector<T>, st: Status)
    requires Valid(v)
    ensures Valid(w)
    ensures st == Threw <==>
      n > v.size && ((n > Capacity(v) && RelocationThrows(v, ty)) || ty.throwsOn(ty.zero))
    ensures st == Completed ==> w.size == n
    ensures st == Completed && n <= v.size ==> Elements(w) == Elements(v)[..n]
    ensures st == Completed && n > v.size ==>
      Elements(w)[..v.size] == Elements(v) && forall i | v.size <= i < n :: Elements(w)[i] == ty.zero
    ensures Capacity(w) == Capacity(v) || (n > Capacity(v) && Capacity(w) == n)
    ensures st == Completed && n > Capacity(v) ==> Capacity(w) == n
    ensures st == Threw ==> w.size == v.size
    ensures st == Threw && RelocationIsSafe(ty) ==> Elements(w) == Elements(v)
    ensures st == Threw && !(n > Capacity(v) && RelocationThrows(v, ty)) ==> Elements(w) == Elements(v)
    ensures st == Threw && n > Capacity(v) && !RelocationThrows(v, ty) ==> Capacity(w) == n && w != v
    ensures st == Threw && n > Capacity(v) && RelocationThrows(v, ty) ==> Capacity(w) == Capacity(v)
    ensures st == Threw && n > Capacity(v) && RelocationThrows(v, ty) && RelocationIsSafe(ty) ==> w == v
  {
    if v.size > n {
      var b := DestroyN(v.data, n, v.size - n);
      w, st := Vector(b, n), Completed;
    } else if v.size < n {
      var grown, reserved := Reserve(v, n, ty);
      if reserved == Threw {
        return grown, Threw;
      }
      var b, built := UninitializedValueConstructN(grown.data, v.size, n - v.size, ty);
      if built == Threw {
        // the elements were relocated by `Reserve`, or left where they were
        return grown, Threw;
      }
      w, st := Vector(b, n), Completed;
      assert forall i | 0 <= i < v.size :: Elements(w)[i] == Elements(grown)[i];
    } else {
      w, st := v, Completed;
    }
  }

  // ---------------------------------------------------------------- insertion

  /** Inserting `x` at `index` into `v` throws: the new element's constructor
      throws, or a relocation throws on the growth path, or moving the last
      element into the free cell throws on the in-place path. */
  predicate EmplaceThrows<T>(v: Vector<T>, index: nat, x: T, ty: ElementType<T>)
    requires Valid(v)
  {
    || ty.throwsOn(x)
    || (v.size == Capacity(v) && RelocationThrows(v, ty))
    || (v.size < Capacity(v) && index < v.size && Throws(ty, Move, Elements(v)[v.size - 1]))
  }

  /** No element of a valid vector throws on relocation when none of its
      cells does. */
  lemma NoRelocationThrows<T>(v: Vector<T>, ty: ElementType<T>)
    requires Valid(v)
    requires forall i | 0 <= i < v.size :: !Throws(ty, Relocation(ty), v.data.cells[i].value)
    ensures !RelocationThrows(v, ty)
  {
  }

  /** A block laid out as `v`'s cells before `index`, the object `x`, then
      `v`'s cells from `index` on, and nothing after, holds the elements of
      `v` with `x` inserted at `index`. */
  lemma InsertedHolds<T>(v: Vector<T>, index: nat, x: T, b: Block<T>)
    requires Valid(v) && index <= v.size < b.Capacity()
    requires forall i | 0 <= i < index :: b.cells[i] == v.data.cells[i]
    requires b.cells[index] == Some(x)
    requires forall i | index < i <= v.size :: b.cells[i] == v.data.cells[i - 1]
    requires b.AllRaw(v.size + 1, b.Capacity())
    ensures Holds(b, Elements(v)[..index] + [x] + Elements(v)[index..])
  {
  }

  /** The two `SafetyMoveOrCopy` calls of `EmplaceWithRelocate` and their
      `catch` blocks. `dst` holds only the new element, in cell `index`. The
      live cells `[0, index)` of `src` go to the same cells of `dst`, and
      `[index, size)` go one cell further, around the new element. When the
      first relocation throws, the new element is destroyed; when the second
      throws, the relocated prefix and the new element are destroyed. Either
      way `dst` is left without live objects. */
  method RelocateAround<T>(src: Block<T>, size: nat, index: nat, dst: Block<T>, ty: ElementType<T>)
    returns (src': Block<T>, dst': Block<T>, st: Status)
    requires index <= size < dst.Capacity() && src.AllLive(0, size)
    requires dst.AllRaw(0, index) && dst.Live(index) && dst.AllRaw(index + 1, dst.Capacity())
    ensures src'.Capacity() == src.Capacity() && src'.AllLive(0, size)
    ensures forall i | size <= i < |src.cells| :: src'.cells[i] == src.cells[i]
    ensures Relocation(ty) == Copy ==> src' == src
    ensures st == Threw <==> exists i | 0 <= i < size :: Throws(ty, Relocation(ty), src.cells[i].value)
    ensures dst'.Capacity() == dst.Capacity()
    ensures st == Threw ==> dst'.Unoccupied()
    ensures st == Completed ==> forall i | 0 <= i < index :: dst'.cells[i] == src.cells[i]
    ensures st == Completed ==> dst'.cells[index] == dst.cells[index]
    ensures st == Completed ==> forall i | index < i <= size :: dst'.cells[i] == src.cells[i - 1]
    ensures st == Completed ==> dst'.AllRaw(size + 1, dst.Capacity())
  {
    var front, moved;
    src', front, moved := UninitializedConstructN(src, 0, index, dst, 0, Relocation(ty), ty);
    if moved == Threw {
      // `std::destroy_n(new_data + index, 1)`
      dst', st := DestroyAt(front, index), Threw;
      return;
    }
    var prev := src';
    src', dst', st := RelocateAfter(prev, size, index, front, ty);
    if st == Threw {
      var i :| index <= i < size && Throws(ty, Relocation(ty), prev.cells[i].value);
      assert prev.cells[i] == src.cells[i];
    }
  }

  /** The second `SafetyMoveOrCopy` of `RelocateAround` and its `catch`
      block: `dst` already holds the relocated prefix and the new element in
      `[0, index]`; the cells `[index, size)` of `src` go one cell further. On
      a throw, `[0, index]` is destroyed. */
  method RelocateAfter<T>(src: Block<T>, size: nat, index: nat, dst: Block<T>, ty: ElementType<T>)
    returns (src': Block<T>, dst': Block<T>, st: Status)
    requires index <= size < dst.Capacity() && src.AllLive(index, size)
    requires dst.AllLive(0, index + 1) && dst.AllRaw(index + 1, dst.Capacity())
    ensures src'.Capacity() == src.Capacity() && src'.AllLive(index, size)
    ensures forall i | 0 <= i < |src.cells| && !(index <= i < size) :: src'.cells[i] == src.cells[i]
    ensures Relocation(ty) == Copy ==> src' == src
    ensures st == Threw <==> exists i | index <= i < size :: Throws(ty, Relocation(ty), src.cells[i].value)
    ensures dst'.Capacity() == dst.Capacity()
    ensures st == Threw ==> dst'.Unoccupied()
    ensures st == Completed ==> forall i | 0 <= i <= index :: dst'.cells[i] == dst.cells[i]
    ensures st == Completed ==> forall i | index < i <= size :: dst'.cells[i] == src.cells[i - 1]
    ensures st == Completed ==> dst'.AllRaw(size + 1, dst.Capacity())
  {
    src', dst', st := UninitializedConstructN(src, index, size - index, dst, index + 1, Relocation(ty), ty);
    if st == Threw {
      // `std::destroy_n(new_data, index + 1)`
      dst' := DestroyN(dst', 0, index + 1);
    }
  }

  /** `EmplaceWithRelocate`: the block is full; a block of twice the size (1
      when empty) receives the new element at `index` first, then the
      elements before and after it, and the old elements are destroyed.
      `relocated` counts the elements moved into the new block. On an
      exception the new block is emptied and discarded and the old one is
      kept; a throwing construction of `x` happens before any relocation, so
      it leaves the old block untouched for every element type. */
  method EmplaceWithRelocate<T>(v: Vector<T>, index: nat, x: T, ty: ElementType<T>)
    returns (b: Block<T>, st: Status, relocated: nat)
    requires Valid(v) && index <= v.size && v.size == Capacity(v)
    ensures st == Threw <==> EmplaceThrows(v, index, x, ty)
    ensures st == Completed ==> b.Capacity() == GrownCapacity(v) && relocated == v.size
    ensures st == Completed ==> Holds(b, Elements(v)[..index] + [x] + Elements(v)[index..])
    ensures st == Threw ==> Valid(Vector(b, v.size)) && b.Capacity() == Capacity(v)
    ensures st == Threw && (RelocationIsSafe(ty) || ty.throwsOn(x)) ==> b == v.data
  {
    var newData := Allocate(if v.size == 0 then 1 else v.size * 2);
    if ty.throwsOn(x) {
      return v.data, Threw, 0;
    }
    newData := ConstructAt(newData, index, x);
    var prev, back, moved := RelocateAround(v.data, v.size, index, newData, ty);
    if moved == Threw {
      // `back` holds no live object, so the new block may be deallocated
      assert back.Unoccupied();
      RelocationThrowsOnCells(v, ty, 0, v.size);
      return prev, Threw, 0;
    }
    relocated := v.size;
    NoRelocationThrows(v, ty);
    prev := DestroyN(prev, 0, v.size);
    assert prev.Unoccupied();
    b, st := back, Completed;
    InsertedHolds(v, index, x, b);
  }

  /** `EmplaceWithoutRelocate`: a free cell exists. At the end the new object
      is constructed directly. Elsewhere a temporary is built from `x`, the
      last element is move-constructed into the free cell, `[index, size-1)`
      is moved one step right by `std::move_backward`, and the temporary is
      move-assigned into cell `index`. When one of the two constructions
      throws, nothing has changed. */
  method EmplaceWithoutRelocate<T>(v: Vector<T>, index: nat, x: T, ty: ElementType<T>)
    returns (b: Block<T>, st: Status)
    requires Valid(v) && index <= v.size < Capacity(v)
    ensures st == Threw <==> EmplaceThrows(v, index, x, ty)
    ensures st == Completed ==> b.Capacity() == Capacity(v)
    ensures st == Completed ==> Holds(b, Elements(v)[..index] + [x] + Elements(v)[index..])
    ensures st == Threw ==> b == v.data
  {
    ghost var s := Elements(v);
    if ty.throwsOn(x) {
      return v.data, Threw;
    }
    if index == v.size {
      b, st := ConstructAt(v.data, index, x), Completed;
      assert s[..index] + [x] + s[index..] == s + [x];
      return;
    }
    // `T temp(x)` succeeded; now move the last element into the free cell
    var last := Get(v.data, v.size - 1);
    if Throws(ty, Move, last) {
      return v.data, Threw;
    }
    b := ConstructAt(v.data, v.size, last);
    b := SetValue(b, v.size - 1, ty.movedFrom(last));
    var shifted := ShiftRight(b, index, v.size, ty);
    b, st := SetValue(shifted, index, x), Completed;
    InsertedHolds(v, index, x, b);
  }

  /** `Emplace(pos, x)`, with `pos` given as the index `pos - begin()`: inserts
      `x` before position `index` and returns `index`. A full block grows to
      twice the size (1 when empty), relocating all `size` elements;
      otherwise the capacity is kept and nothing is relocated. When a
      constructor throws, size and capacity are unchanged, and so are the
      elements unless a relocation by a throwing move was under way. A
      throwing construction of `x` always leaves the vector untouched. */
  method Emplace<T>(v: Vector<T>, index: nat, x: T, ty: ElementType<T>)
    returns (w: Vector<T>, st: Status, pos: nat, relocated: nat)
    requires Valid(v) && index <= v.size
    ensures Valid(w)
    ensures st == Threw <==> EmplaceThrows(v, index, x, ty)
    ensures st == Completed ==> Elements(w) == Elements(v)[..index] + [x] + Elements(v)[index..]
    ensures st == Completed ==> pos == index && Capacity(w) == GrownCapacity(v)
    ensures st == Completed ==> relocated == if v.size == Capacity(v) then v.size else 0
    ensures st == Threw ==> w.size == v.size && Capacity(w) == Capacity(v)
    ensures st == Threw && (RelocationIsSafe(ty) || v.size < Capacity(v)) ==> w == v
    ensures ty.throwsOn(x) ==> st == Threw && w == v
  {
    var b;
    relocated := 0;
    if v.size == Capacity(v) {
      b, st, relocated := EmplaceWithRelocate(v, index, x, ty);
    } else {
      b, st := EmplaceWithoutRelocate(v, index, x, ty);
    }
    if st == Threw {
      return Vector(b, v.size), Threw, index, relocated;
    }
    HoldsIsValid(b, Elements(v)[..index] + [x] + Elements(v)[index..]);
    w, pos := Vector(b, v.size + 1), index;
  }

  /** `Insert(pos, value)`: forwards to `Emplace`. */
  method Insert<T>(v: Vector<T>, index: nat, x: T, ty: ElementType<T>)
    returns (w: Vector<T>, st: Status, pos: nat, relocated: nat)
    requires Valid(v) && index <= v.size
    ensures Valid(w)
    ensures st == Threw <==> EmplaceThrows(v, index, x, ty)
    ensures st == Completed ==> Elements(w) == Elements(v)[..index] + [x] + Elements(v)[index..]
    ensures st == Completed ==> pos == index && Capacity(w) == GrownCapacity(v)
    ensures st == Completed ==> relocated == if v.size == Capacity(v) then v.size else 0
    ensures st == Threw ==> w.size == v.size && Capacity(w) == Capacity(v)
    ensures st == Threw && (RelocationIsSafe(ty) || v.size < Capacity(v)) ==> w == v
    ensures ty.throwsOn(x) ==> st == Threw && w == v
  {
    w, st, pos, relocated := Emplace(v, index, x, ty);
  }

  /** `EmplaceBack(x)`: `Emplace` at the end; the element is appended. */
  method EmplaceBack<T>(v: Vector<T>, x: T, ty: ElementType<T>)
    returns (w: Vector<T>, st: Status, relocated: nat)
    requires Valid(v)
    ensures Valid(w)
    ensures st == Threw <==> EmplaceThrows(v, v.size, x, ty)
    ensures st == Completed ==> Elements(w) == Elements(v) + [x] && Capacity(w) == GrownCapacity(v)
    ensures st == Completed ==> relocated == if v.size == Capacity(v) then v.size else 0
    ensures st == Threw ==> w.size == v.size && Capacity(w) == Capacity(v)
    ensures st == Threw && (RelocationIsSafe(ty) || v.size < Capacity(v)) ==> w == v
    ensures ty.throwsOn(x) ==> st == Threw && w == v
  {
    var pos;
    w, st, pos, relocated := Emplace(v, v.size, x, ty);
    assert Elements(v)[..v.size] + [x] + Elements(v)[v.size..] == Elements(v) + [x];
  }

  /** `PushBack(value)`: forwards to `EmplaceBack`. */
  method PushBack<T>(v: Vector<T>, x: T, ty: ElementType<T>)
    returns (w: Vector<T>, st: Status, relocated: nat)
    requires Valid(v)
    ensures Valid(w)
    ensures st == Threw <==> EmplaceThrows(v, v.size, x, ty)
    ensures st == Completed ==> Elements(w) == Elements(v) + [x] && Capacity(w) == GrownCapacity(v)
    ensures st == Completed ==> relocated == if v.size == Capacity(v) then v.size else 0
    ensures st == Threw ==> w.size == v.size && Capacity(w) == Capacity(v)
    ensures st == Threw && (RelocationIsSafe(ty) || v.size < Capacity(v)) ==> w == v
    ensures ty.throwsOn(x) ==> st == Threw && w == v
  {
    w, st, relocated := EmplaceBack(v, x, ty);
  }

  // ---------------------------------------------------------------- removal

  /** `PopBack`: destroys the last element; a no-op on an empty vector. */
  function PopBack<T>(v: Vector<T>): (w: Vector<T>)
    requires Valid(v)
    ensures Valid(w) && Capacity(w) == Capacity(v)
    ensures v.size == 0 ==> w == v
    ensures v.size > 0 ==> Elements(w) == Elements(v)[..v.size - 1]
  {
    if v.size != 0 then Vector(DestroyAt(v.data, v.size - 1), v.size - 1) else v
  }

  /** `Erase(pos)`, with `pos` given as an index of a live element: the
      elements after it move one step left, the vacated last cell is
      destroyed, and `index` is returned. */
  method Erase<T>(v: Vector<T>, index: nat, ty: ElementType<T>) returns (w: Vector<T>, pos: nat)
    requires Valid(v) && index < v.size
    ensures Valid(w) && Capacity(w) == Capacity(v)
    ensures Elements(w) == Elements(v)[..index] + Elements(v)[index + 1..]
    ensures pos == index
  {
    ghost var s := Elements(v);
    var b := ShiftLeft(v.data, index, v.size, ty);
    b := DestroyAt(b, v.size - 1);
    w, pos := Vector(b, v.size - 1), index;
    forall i | 0 <= i < v.size - 1
      ensures Elements(w)[i] == (s[..index] + s[index + 1..])[i]
    {
      if i >= index {
        assert b.cells[i] == v.data.cells[i + 1];
      }
    }
  }

  /** `Erase` as `vector.h` writes it: after the shift it destroys the cell at
      `size` instead of the vacated cell `size - 1`. The returned `target` is
      the cell destroyed; it never holds a live object (it may even lie past
      the block), while the moved-from object at `size - 1` stays alive
      beyond the new size, so the result breaks the container invariant. */
  method EraseAsWritten<T>(v: Vector<T>, index: nat, ty: ElementType<T>)
    returns (w: Vector<T>, target: nat)
    requires Valid(v) && index < v.size
    ensures target == v.size && !v.data.Live(target)
    ensures v.size == Capacity(v) ==> target >= w.data.Capacity()
    ensures w.data.Live(w.size) && !Valid(w)
  {
    var b := ShiftLeft(v.data, index, v.size, ty);
    target := v.size;
    // `std::destroy_n(begin() + size_, 1)` reaches no live object: nothing is destroyed
    w := Vector(b, v.size - 1);
  }
}
