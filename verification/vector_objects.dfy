/** The operations of `Vector` that involve two objects and compare their
    identities (`this != &rhs`): copy and move assignment and `Swap`. Objects
    live in a store addressed by references, so that self-assignment and
    "every other object is unchanged" can be stated. */
module VectorObjects {
  import opened RawMemory
  import opened ElementTypes
  import opened MemoryAlgorithms
  import opened Vectors

  type Ref = nat

  /** The vectors in existence, by address. */
  type Objects<T> = map<Ref, Vector<T>>

  /** Both objects exist and satisfy the container invariant. */
  predicate Operands<T>(h: Objects<T>, a: Ref, b: Ref)
  {
    a in h && b in h && Valid(h[a]) && Valid(h[b])
  }

  /** Only the objects `a` and `b` may differ between `h` and `h'`. */
  ghost predicate OthersUnchanged<T>(h: Objects<T>, h': Objects<T>, a: Ref, b: Ref)
  {
    h'.Keys == h.Keys && forall r | r in h && r != a && r != b :: h'[r] == h[r]
  }

  /** The capacity-reusing branch of `operator=(const Vector&)`, for
      `rhs.size <= capacity`: the common prefix is copy-assigned, surplus
      elements are destroyed and missing ones copy-constructed into the free
      cells. A throwing copy leaves the target at its old size, holding a
      prefix of `rhs`. */
  method CopyAssignInPlace<T>(target: Vector<T>, rhs: Vector<T>, ty: ElementType<T>)
    returns (w: Vector<T>, st: Status)
    requires Valid(target) && Valid(rhs) && rhs.size <= Capacity(target)
    ensures Valid(w) && Capacity(w) == Capacity(target)
    ensures st == Threw <==> exists i | target.size <= i < rhs.size :: ty.throwsOn(Elements(rhs)[i])
    ensures st == Completed ==> Elements(w) == Elements(rhs)
    ensures st == Threw ==> w.size == target.size && Elements(w) == Elements(rhs)[..target.size]
  {
    var common := if target.size < rhs.size then target.size else rhs.size;
    var b := AssignN(rhs.data, target.data, common);
    if target.size > rhs.size {
      b := DestroyN(b, rhs.size, target.size - rhs.size);
    } else if target.size < rhs.size {
      // `Reserve(rhs.size)` is a no-op here, since `rhs.size <= capacity`
      var _, tail, copied := UninitializedConstructN(rhs.data, target.size, rhs.size - target.size,
                                                     b, target.size, Copy, ty);
      if copied == Threw {
        w, st := Vector(b, target.size), Threw;
        assert forall i | 0 <= i < target.size :: Elements(w)[i] == Elements(rhs)[i];
        var i :| target.size <= i < rhs.size && ty.throwsOn(rhs.data.cells[i].value);
        assert Elements(rhs)[i] == rhs.data.cells[i].value;
        return;
      }
      b := tail;
      assert !exists i | target.size <= i < rhs.size :: ty.throwsOn(Elements(rhs)[i]) by {
        forall i | target.size <= i < rhs.size
          ensures !ty.throwsOn(Elements(rhs)[i])
        {
          assert Elements(rhs)[i] == rhs.data.cells[i].value;
        }
      }
    }
    w, st := Vector(b, rhs.size), Completed;
    assert forall i | 0 <= i < rhs.size :: Elements(w)[i] == Elements(rhs)[i];
  }

  /** `operator=(const Vector&)`. When `rhs` has more elements than the target's
      capacity, a copy of `rhs` is built and swapped in, so the target's
      capacity becomes `rhs.size`; otherwise the target's storage is reused
      (`CopyAssignInPlace`). `rhs` and every other object are never changed,
      and self-assignment is a no-op. A throwing copy leaves the target
      untouched on the first path; on the second it keeps its size and
      capacity, now holding a prefix of `rhs`. */
  method CopyAssign<T>(h: Objects<T>, dst: Ref, src: Ref, ty: ElementType<T>)
    returns (h': Objects<T>, st: Status)
    requires Operands(h, dst, src)
    ensures OthersUnchanged(h, h', dst, dst) && Valid(h'[dst])
    ensures dst == src ==> h' == h && st == Completed
    ensures st == Threw <==> dst != src && exists i |
      (if h[src].size > Capacity(h[dst]) then 0 else h[dst].size) <= i < h[src].size ::
        ty.throwsOn(Elements(h[src])[i])
    ensures st == Completed ==> Elements(h'[dst]) == Elements(h[src])
    ensures st == Completed ==>
      Capacity(h'[dst]) == (if h[src].size > Capacity(h[dst]) then h[src].size else Capacity(h[dst]))
    ensures st == Threw && h[src].size > Capacity(h[dst]) ==> h' == h
    ensures st == Threw && h[src].size <= Capacity(h[dst]) ==>
      && h'[dst].size == h[dst].size && Capacity(h'[dst]) == Capacity(h[dst])
      && Elements(h'[dst]) == Elements(h[src])[..h[dst].size]
  {
    if dst == src {
      return h, Completed;
    }
    var target, rhs := h[dst], h[src];
    if rhs.size > Capacity(target) {
      var temp := CopyOf(rhs, ty);
      if temp.Failure? {
        return h, Threw;
      }
      // `Swap(temp)`; the temporary then destroys the old elements
      var _ := Dispose(target);
      return h[dst := temp.value], Completed;
    }
    var w;
    w, st := CopyAssignInPlace(target, rhs, ty);
    h' := h[dst := w];
  }

  /** `operator=(Vector&&)`, as intended: the target's elements are destroyed,
      its block (`released`) is deallocated holding no live object, and the
      target takes `rhs`'s block and size; `rhs` is left empty with no
      storage. Self-assignment is a no-op. */
  method MoveAssign<T>(h: Objects<T>, dst: Ref, src: Ref) returns (h': Objects<T>, released: Block<T>)
    requires Operands(h, dst, src)
    ensures OthersUnchanged(h, h', dst, src) && Valid(h'[dst]) && Valid(h'[src])
    ensures dst == src ==> h' == h
    ensures dst != src ==> Elements(h'[dst]) == Elements(h[src]) && Capacity(h'[dst]) == Capacity(h[src])
    ensures dst != src ==> h'[src].size == 0 && Capacity(h'[src]) == 0
    ensures released.Unoccupied() && (dst != src ==> released.Capacity() == Capacity(h[dst]))
  {
    if dst == src {
      return h, Null();
    }
    released := DestroyN(h[dst].data, 0, h[dst].size);
    var (taken, left) := RawMemory.MoveAssign(released, h[src].data);
    h' := h[dst := Vector(taken, h[src].size)][src := Vector(left, 0)];
  }

  /** `operator=(Vector&&)` as `vector.h` writes it: the target's block is
      handed straight to `RawMemory`'s move assignment, which deallocates it
      without running destructors. `released` is that block: whenever the
      target was not empty, it still holds live objects that are never
      destroyed. The visible result is otherwise that of `MoveAssign`. */
  method MoveAssignAsWritten<T>(h: Objects<T>, dst: Ref, src: Ref)
    returns (h': Objects<T>, released: Block<T>)
    requires Operands(h, dst, src)
    ensures OthersUnchanged(h, h', dst, src) && Valid(h'[dst]) && Valid(h'[src])
    ensures dst == src ==> h' == h
    ensures dst != src ==> Elements(h'[dst]) == Elements(h[src]) && Capacity(h'[dst]) == Capacity(h[src])
    ensures dst != src ==> h'[src].size == 0 && Capacity(h'[src]) == 0
    ensures dst != src && h[dst].size > 0 ==> !released.Unoccupied()
  {
    if dst == src {
      return h, Null();
    }
    released := h[dst].data;
    if h[dst].size > 0 {
      assert released.cells[0].Some?;
    }
    h' := h[dst := Vector(h[src].data, h[src].size)][src := Vector(Null(), 0)];
  }

  /** `Swap`: the two objects exchange blocks and sizes; no element is
      touched. Swapping an object with itself changes nothing. */
  function Swap<T>(h: Objects<T>, a: Ref, b: Ref): (h': Objects<T>)
    requires Operands(h, a, b)
    ensures OthersUnchanged(h, h', a, b) && Valid(h'[a]) && Valid(h'[b])
    ensures Elements(h'[a]) == Elements(h[b]) && Capacity(h'[a]) == Capacity(h[b])
    ensures Elements(h'[b]) == Elements(h[a]) && Capacity(h'[b]) == Capacity(h[a])
  {
    var (da, db) := RawMemory.Swap(h[a].data, h[b].data);
    h[a := Vector(da, h[b].size)][b := Vector(db, h[a].size)]
  }

  /** Swapping twice restores every object. */
  lemma SwapTwice<T>(h: Objects<T>, a: Ref, b: Ref)
    requires Operands(h, a, b)
    ensures Swap(Swap(h, a, b), a, b) == h
  {
  }
}
