/** `RawMemory<T>` (advanced-vector/vector.h:10-93): a block of `capacity`
    cells that owns storage but knows nothing about which cells hold live
    objects. The model gives every cell an explicit state, `None` for
    uninitialised memory and `Some(x)` for a live object holding `x`, so that
    the owner's placement constructions and destructions can be checked. */
module RawMemory {
  import opened Wrappers

  datatype Block<T> = Block(cells: seq<Option<T>>) {

    /** `RawMemory::Capacity`. */
    function Capacity(): nat
    {
      |cells|
    }

    /** Cell `i` exists and holds a live object. */
    predicate Live(i: int)
    {
      0 <= i < |cells| && cells[i].Some?
    }

    /** Every cell of `[lo, hi)` holds a live object. */
    predicate AllLive(lo: int, hi: int)
    {
      0 <= lo <= hi <= |cells| && forall i | lo <= i < hi :: cells[i].Some?
    }

    /** Every cell of `[lo, hi)` is uninitialised memory. */
    predicate AllRaw(lo: int, hi: int)
    {
      0 <= lo <= hi <= |cells| && forall i | lo <= i < hi :: cells[i].None?
    }

    /** No cell holds a live object: the only state in which the block may be
        deallocated, because deallocation never runs destructors. */
    predicate Unoccupied()
    {
      AllRaw(0, |cells|)
    }
  }

  /** `RawMemory(capacity)`: `n` uninitialised cells (no allocation for `n == 0`). */
  function Allocate<T>(n: nat): (b: Block<T>)
    ensures b.Capacity() == n && b.Unoccupied()
  {
    Block(seq(n, _ => None))
  }

  /** The default-constructed block: null buffer, capacity 0. */
  function Null<T>(): (b: Block<T>)
    ensures b.Capacity() == 0 && b.Unoccupied()
  {
    Block([])
  }

  /** `operator[]`: the object in cell `i`. `vector.h` asserts `i < capacity`;
      reading the cell as an object additionally needs it to be live. */
  function Get<T>(b: Block<T>, i: nat): (x: T)
    requires i < b.Capacity()
    requires b.Live(i)
    ensures b.cells[i] == Some(x)
  {
    b.cells[i].value
  }

  /** Placement construction of an object holding `x` in the uninitialised cell `i`. */
  function ConstructAt<T>(b: Block<T>, i: nat, x: T): (r: Block<T>)
    requires i < b.Capacity() && !b.Live(i)
    ensures r.Capacity() == b.Capacity() && r.Live(i)
    ensures forall j | 0 <= j < |b.cells| && j != i :: r.cells[j] == b.cells[j]
  {
    Block(b.cells[i := Some(x)])
  }

  /** Destruction of the live object in cell `i`; the cell becomes uninitialised. */
  function DestroyAt<T>(b: Block<T>, i: nat): (r: Block<T>)
    requires b.Live(i)
    ensures r.Capacity() == b.Capacity() && !r.Live(i)
    ensures forall j | 0 <= j < |b.cells| && j != i :: r.cells[j] == b.cells[j]
  {
    Block(b.cells[i := None])
  }

  /** The live object in cell `i` now holds `x` (an assignment, or the state a
      move leaves behind). */
  function SetValue<T>(b: Block<T>, i: nat, x: T): (r: Block<T>)
    requires b.Live(i)
    ensures r.Capacity() == b.Capacity() && r.Live(i)
    ensures forall j | 0 <= j < |b.cells| && j != i :: r.cells[j] == b.cells[j]
  {
    Block(b.cells[i := Some(x)])
  }

  /** Reading a cell returns what was last constructed or stored in it, and
      writing one cell leaves the objects in the others readable as before. */
  lemma GetAfterWrite<T>(b: Block<T>, i: nat, j: nat, x: T)
    requires i < b.Capacity()
    ensures !b.Live(i) ==> Get(ConstructAt(b, i, x), i) == x
    ensures b.Live(i) ==> Get(SetValue(b, i, x), i) == x
    ensures !b.Live(i) && j != i && b.Live(j) ==> Get(ConstructAt(b, i, x), j) == Get(b, j)
    ensures b.Live(i) && j != i && b.Live(j) ==> Get(SetValue(b, i, x), j) == Get(b, j)
  {
  }

  /** `RawMemory::Swap`: the two blocks exchange buffers and capacities. */
  function Swap<T>(a: Block<T>, b: Block<T>): (r: (Block<T>, Block<T>))
    ensures r.0.Capacity() == b.Capacity() && r.1.Capacity() == a.Capacity()
    ensures r.0.cells == b.cells && r.1.cells == a.cells
  {
    (b, a)
  }

  /** The move constructor: the new block takes the buffer and capacity, and
      the source is left null with capacity 0. */
  function MoveConstruct<T>(source: Block<T>): (r: (Block<T>, Block<T>))
    ensures r.0.cells == source.cells && r.0.Capacity() == source.Capacity()
    ensures r.1.Capacity() == 0
  {
    (source, Null())
  }

  /** The move assignment between two distinct blocks: the target's buffer is
      deallocated, which is only sound when it holds no live object; the
      target then takes the source's buffer and the source becomes null. */
  function MoveAssign<T>(target: Block<T>, source: Block<T>): (r: (Block<T>, Block<T>))
    requires target.Unoccupied()
    ensures r.0.cells == source.cells && r.1.Capacity() == 0
  {
    (source, Null())
  }
}
