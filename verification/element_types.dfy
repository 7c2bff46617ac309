/** What the container needs to know about its element type `T`: the value a
    value-initialised `T()` holds, which constructions throw, and the type
    traits that `SafetyMoveOrCopy` (advanced-vector/vector.h:271-277) consults. */
module ElementTypes {

  /** A model of an element type.
      - `zero` is the value of a value-initialised object `T()`;
      - `throwsOn(x)` holds when constructing an object holding `x` throws
        (copy construction, construction from arguments and value
        initialisation alike);
      - `nothrowMove` is `std::is_nothrow_move_constructible_v<T>`: when it
        holds, move construction never throws;
      - `copyable` is `std::is_copy_constructible_v<T>`;
      - `movedFrom(x)` is the valid but unspecified state a move leaves in an
        object that held `x`; it is a parameter so that nothing may be
        concluded about moved-from contents. */
  datatype ElementType<!T> = ElementType(
    zero: T,
    throwsOn: T -> bool,
    nothrowMove: bool,
    copyable: bool,
    movedFrom: T -> T)

  /** How a new object is made from an existing one. */
  datatype Construction = Copy | Move

  /** The outcome of a mutating operation: it ran to the end, or an element
      constructor threw and the exception propagated to the caller. */
  datatype Status = Completed | Threw

  /** The error a constructor of the container reports when it cannot build the object. */
  datatype Error = ConstructorThrew

  /** Does constructing a new object from `x` in the manner `how` throw? */
  predicate Throws<T>(ty: ElementType<T>, how: Construction, x: T)
  {
    match how
    case Copy => ty.throwsOn(x)
    case Move => !ty.nothrowMove && ty.throwsOn(x)
  }

  /** The element type lets growth keep the strong exception guarantee:
      its move cannot throw, or it can be copied instead. */
  predicate RelocationIsSafe<T>(ty: ElementType<T>)
  {
    ty.nothrowMove || ty.copyable
  }

  /** `SafetyMoveOrCopy`: relocate by moving when the move cannot throw or when
      the type cannot be copied at all; otherwise relocate by copying.
      Whenever the type allows it, the choice either leaves the originals
      untouched (a copy) or cannot fail (a move that never throws). Moving
      is never chosen when a copy would do and the move might throw. */
  function Relocation<T>(ty: ElementType<T>): (how: Construction)
    ensures ty.nothrowMove ==> how == Move
    ensures !ty.copyable ==> how == Move
    ensures how == Copy ==> ty.copyable && !ty.nothrowMove
    ensures RelocationIsSafe(ty) && how == Move ==> ty.nothrowMove
  {
    if ty.nothrowMove || !ty.copyable then Move else Copy
  }
}
