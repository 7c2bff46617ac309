/** Properties of sequences of operations on one vector: repeated appends and
    the insert/erase round trip. */
module VectorProperties {
  import opened ElementTypes
  import opened Vectors

  /** Appends the elements of `xs` one by one with `PushBack`, stopping at the
      first exception. `pushed` counts the appends that completed and
      `relocated` adds up the elements that each append reports having moved
      to a new block.
      On success the elements of `xs` follow those of `v` in push order. The
      doubling policy bounds the work: every relocated element paid for one
      cell of capacity gained, and the capacity never exceeds twice the size
      once it has grown, so appending N elements relocates fewer than 2N
      elements in total when starting empty; when the capacity already
      suffices (for instance after `Reserve`), nothing is relocated. */
  method PushAll<T>(v: Vector<T>, xs: seq<T>, ty: ElementType<T>)
    returns (w: Vector<T>, st: Status, pushed: nat, relocated: nat)
    requires Valid(v)
    ensures Valid(w) && pushed <= |xs|
    ensures st == Completed ==> pushed == |xs| && Elements(w) == Elements(v) + xs
    ensures st == Threw ==> pushed < |xs| && w.size == v.size + pushed
    ensures st == Threw && RelocationIsSafe(ty) ==> Elements(w) == Elements(v) + xs[..pushed]
    ensures Capacity(v) <= Capacity(w) && relocated <= Capacity(w) - Capacity(v)
    ensures Capacity(w) == Capacity(v) || Capacity(w) < 2 * w.size
    ensures v.size + |xs| <= Capacity(v) ==> Capacity(w) == Capacity(v) && relocated == 0
  {
    w, st, pushed, relocated := v, Completed, 0, 0;
    while pushed < |xs|
      invariant Valid(w) && pushed <= |xs| && w.size == v.size + pushed
      invariant Elements(w) == Elements(v) + xs[..pushed]
      invariant Capacity(v) <= Capacity(w) && relocated <= Capacity(w) - Capacity(v)
      invariant Capacity(w) == Capacity(v) || Capacity(w) < 2 * w.size
      invariant v.size + |xs| <= Capacity(v) ==> Capacity(w) == Capacity(v) && relocated == 0
    {
      var next, status, moved := PushBack(w, xs[pushed], ty);
      if status == Threw {
        return next, Threw, pushed, relocated;
      }
      relocated := relocated + moved;
      assert xs[..pushed + 1] == xs[..pushed] + [xs[pushed]];
      w, pushed := next, pushed + 1;
    }
    assert xs[..pushed] == xs;
  }

  /** `Insert(index, x)` followed by `Erase(index)` restores the original
      elements; only the capacity may have grown. */
  method InsertThenErase<T>(v: Vector<T>, index: nat, x: T, ty: ElementType<T>)
    returns (w: Vector<T>, st: Status)
    requires Valid(v) && index <= v.size
    ensures Valid(w)
    ensures st == Threw <==> EmplaceThrows(v, index, x, ty)
    ensures st == Completed ==> Elements(w) == Elements(v) && Capacity(w) == GrownCapacity(v)
  {
    var inserted, pos, relocated;
    inserted, st, pos, relocated := Insert(v, index, x, ty);
    if st == Threw {
      return inserted, Threw;
    }
    ghost var t := Elements(inserted);
    w, pos := Erase(inserted, pos, ty);
    assert t[..index] == Elements(v)[..index];
    assert t[index + 1..] == Elements(v)[index..];
    assert Elements(v)[..index] + Elements(v)[index..] == Elements(v);
  }
}
