/** The `<memory>` and `<algorithm>` routines the container calls, modelled on
    cells: each step checks that it constructs only into uninitialised cells
    and assigns to or destroys only live objects. */
module MemoryAlgorithms {
  import opened Wrappers
  import opened RawMemory
  import opened ElementTypes

  /** `std::destroy_n(at, n)`: ends the lifetime of the `n` objects at `[at, at+n)`. */
  method DestroyN<T>(b: Block<T>, at: nat, n: nat) returns (r: Block<T>)
    requires b.AllLive(at, at + n)
    ensures r.Capacity() == b.Capacity()
    ensures r.AllRaw(at, at + n)
    ensures forall i | 0 <= i < |b.cells| && !(at <= i < at + n) :: r.cells[i] == b.cells[i]
  {
    r := b;
    var k := 0;
    while k < n
      invariant k <= n
      invariant r.Capacity() == b.Capacity()
      invariant r.AllRaw(at, at + k)
      invariant forall i | 0 <= i < |b.cells| && !(at <= i < at + k) :: r.cells[i] == b.cells[i]
    {
      r := DestroyAt(r, at + k);
      k := k + 1;
    }
  }

  /** `std::uninitialized_copy_n` (`how == Copy`) and `std::uninitialized_move_n`
      (`how == Move`): constructs, in the uninitialised cells `[to, to+n)` of
      `dst`, new objects from the `n` live objects at `[from, from+n)` of the
      distinct block `src`. When a construction throws, the objects already
      constructed in `dst` are destroyed and the exception propagates, so
      `dst` is as before; the sources already moved from keep their lifetime
      but hold unspecified values. */
  method UninitializedConstructN<T>(src: Block<T>, from: nat, n: nat, dst: Block<T>, to: nat,
                                    how: Construction, ty: ElementType<T>)
    returns (src': Block<T>, dst': Block<T>, st: Status)
    requires src.AllLive(from, from + n)
    requires dst.AllRaw(to, to + n)
    ensures src'.Capacity() == src.Capacity()
    ensures src'.AllLive(from, from + n)
    ensures forall i | 0 <= i < |src.cells| && !(from <= i < from + n) :: src'.cells[i] == src.cells[i]
    ensures how == Copy ==> src' == src
    ensures st == Threw <==> exists i | from <= i < from + n :: Throws(ty, how, src.cells[i].value)
    ensures st == Threw ==> dst' == dst
    ensures st == Completed ==> dst'.Capacity() == dst.Capacity()
    ensures st == Completed ==> forall i | to <= i < to + n :: dst'.cells[i] == src.cells[i - to + from]
    ensures st == Completed ==>
      forall i | 0 <= i < |dst.cells| && !(to <= i < to + n) :: dst'.cells[i] == dst.cells[i]
  {
    src', dst' := src, dst;
    var k := 0;
    while k < n
      invariant k <= n
      invariant src'.Capacity() == src.Capacity()
      invariant src'.AllLive(from, from + n)
      invariant forall i | 0 <= i < |src.cells| && !(from <= i < from + k) :: src'.cells[i] == src.cells[i]
      invariant how == Copy ==> src' == src
      invariant forall i | from <= i < from + k :: !Throws(ty, how, src.cells[i].value)
      invariant dst'.Capacity() == dst.Capacity()
      invariant dst'.AllLive(to, to + k)
      invariant forall i | to <= i < to + k :: dst'.cells[i] == src.cells[i - to + from]
      invariant forall i | 0 <= i < |dst.cells| && !(to <= i < to + k) :: dst'.cells[i] == dst.cells[i]
    {
      var x := Get(src', from + k);
      if Throws(ty, how, x) {
        // unwind: destroy the objects constructed so far, then rethrow
        dst' := DestroyN(dst', to, k);
        assert dst'.cells == dst.cells;
        st := Threw;
        return;
      }
      dst' := ConstructAt(dst', to + k, x);
      if how == Move {
        src' := SetValue(src', from + k, ty.movedFrom(x));
      }
      k := k + 1;
    }
    st := Completed;
  }

  /** `std::uninitialized_value_construct_n`: value-initialises `n` objects in
      the uninitialised cells `[at, at+n)`. Every object is initialised the
      same way, so either the first construction throws and nothing is left
      constructed, or none throws. */
  method UninitializedValueConstructN<T>(b: Block<T>, at: nat, n: nat, ty: ElementType<T>)
    returns (r: Block<T>, st: Status)
    requires b.AllRaw(at, at + n)
    ensures st == Threw <==> n > 0 && ty.throwsOn(ty.zero)
    ensures st == Threw ==> r == b
    ensures st == Completed ==> r.Capacity() == b.Capacity()
    ensures st == Completed ==> forall i | at <= i < at + n :: r.cells[i] == Some(ty.zero)
    ensures st == Completed ==> forall i | 0 <= i < |b.cells| && !(at <= i < at + n) :: r.cells[i] == b.cells[i]
  {
    if n > 0 && ty.throwsOn(ty.zero) {
      return b, Threw;
    }
    r := b;
    var k := 0;
    while k < n
      invariant k <= n
      invariant r.Capacity() == b.Capacity()
      invariant forall i | at <= i < at + k :: r.cells[i] == Some(ty.zero)
      invariant forall i | 0 <= i < |b.cells| && !(at <= i < at + k) :: r.cells[i] == b.cells[i]
    {
      r := ConstructAt(r, at + k, ty.zero);
      k := k + 1;
    }
    st := Completed;
  }

  /** `std::copy_n` into live objects: the first `n` objects of `dst` are
      copy-assigned from the first `n` objects of the distinct block `src`. */
  method AssignN<T>(src: Block<T>, dst: Block<T>, n: nat) returns (r: Block<T>)
    requires src.AllLive(0, n) && dst.AllLive(0, n)
    ensures r.Capacity() == dst.Capacity()
    ensures forall i | 0 <= i < n :: r.cells[i] == src.cells[i]
    ensures forall i | n <= i < |dst.cells| :: r.cells[i] == dst.cells[i]
  {
    r := dst;
    var k := 0;
    while k < n
      invariant k <= n
      invariant r.Capacity() == dst.Capacity()
      invariant r.AllLive(0, n)
      invariant forall i | 0 <= i < k :: r.cells[i] == src.cells[i]
      invariant forall i | k <= i < |dst.cells| :: r.cells[i] == dst.cells[i]
    {
      r := SetValue(r, k, Get(src, k));
      k := k + 1;
    }
  }

  /** `std::move(first + 1, last, first)` over the live objects `[lo, hi)`:
      every object of `[lo, hi-1)` is move-assigned from its right neighbour,
      walking left to right. The last object of the range stays live in a
      moved-from state. */
  method ShiftLeft<T>(b: Block<T>, lo: nat, hi: nat, ty: ElementType<T>) returns (r: Block<T>)
    requires lo < hi && b.AllLive(lo, hi)
    ensures r.Capacity() == b.Capacity()
    ensures r.AllLive(lo, hi)
    ensures forall i | lo <= i < hi - 1 :: r.cells[i] == b.cells[i + 1]
    ensures forall i | 0 <= i < |b.cells| && !(lo <= i < hi) :: r.cells[i] == b.cells[i]
  {
    r := b;
    var k := lo;
    while k < hi - 1
      invariant lo <= k <= hi - 1
      invariant r.Capacity() == b.Capacity()
      invariant r.AllLive(lo, hi)
      invariant forall i | lo <= i < k :: r.cells[i] == b.cells[i + 1]
      invariant forall i | k < i < hi :: r.cells[i] == b.cells[i]
      invariant forall i | 0 <= i < |b.cells| && !(lo <= i < hi) :: r.cells[i] == b.cells[i]
    {
      var x := Get(r, k + 1);
      r := SetValue(r, k, x);
      r := SetValue(r, k + 1, ty.movedFrom(x));
      k := k + 1;
    }
  }

  /** `std::move_backward(lo, hi - 1, hi)` over the live objects `[lo, hi)`:
      every object of `[lo+1, hi)` is move-assigned from its left neighbour,
      walking right to left. The first object of the range stays live in a
      moved-from state. */
  method ShiftRight<T>(b: Block<T>, lo: nat, hi: nat, ty: ElementType<T>) returns (r: Block<T>)
    requires lo < hi && b.AllLive(lo, hi)
    ensures r.Capacity() == b.Capacity()
    ensures r.AllLive(lo, hi)
    ensures forall i | lo < i < hi :: r.cells[i] == b.cells[i - 1]
    ensures forall i | 0 <= i < |b.cells| && !(lo <= i < hi) :: r.cells[i] == b.cells[i]
  {
    r := b;
    var k := hi - 1;
    while k > lo
      invariant lo <= k <= hi - 1
      invariant r.Capacity() == b.Capacity()
      invariant r.AllLive(lo, hi)
      invariant forall i | k < i < hi :: r.cells[i] == b.cells[i - 1]
      invariant forall i | lo <= i < k :: r.cells[i] == b.cells[i]
      invariant forall i | 0 <= i < |b.cells| && !(lo <= i < hi) :: r.cells[i] == b.cells[i]
    {
      var x := Get(r, k - 1);
      r := SetValue(r, k, x);
      r := SetValue(r, k - 1, ty.movedFrom(x));
      k := k - 1;
    }
  }
}
