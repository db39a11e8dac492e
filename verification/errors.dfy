/**
 * The failures of the core, and the result type that carries them. Type and
 * arity errors are the language's own; the store errors and the escaped
 * control signals are internal-consistency failures.
 */
module Errors {
  import opened Locations
  import opened Values

  datatype Error =
    /** `Store.ValueNotFoundException` */
    | ValueNotFound(valueLoc: ValueLocation)
    /** `Store.ValueAlreadyDefinedException` */
    | ValueAlreadyDefined(valueLoc: ValueLocation)
    /** `Store.VariableNotFoundException` */
    | VariableNotFound(variableLoc: VariableLocation)
    /** `CastException(expected, typeName(actual))`; the offending value is kept. */
    | CastException(expected: string, actual: Value)
    /** `Function.ArityException(expected, actual)` */
    | ArityException(expectedCount: nat, actualCount: nat)
    /** a number that is not an integral `int` where an index or length is needed */
    | IllegalArgument(n: real)
    /** `new Value[n]` with a negative `n` */
    | NegativeArraySize(requested: int)
    /** an array index outside `0 <= i < length` */
    | IndexOutOfBounds(index: int, length: nat)
    /** the `AssertionError` of a break reaching a function's top level */
    | BreakAtFunctionTop(loop: LoopLabel)
    /** the `AssertionError` of a break reaching the program's top level */
    | BreakAtTopLevel(loop: LoopLabel)
    /** the `AssertionError` of a return reaching the program's top level */
    | ReturnAtTopLevel(returned: Value)
    /** `Deque.removeFirst` on an empty environment stack */
    | NoSuchElement
    /** installing through the `null` current environment of an empty stack */
    | NullPointer
    /** the evaluation budget of the model ran out (no source counterpart) */
    | OutOfFuel

  datatype Result<+T> = Success(value: T) | Failure(error: Error) {

    predicate IsFailure() {
      Failure?
    }

    function PropagateFailure<U>(): Result<U>
      requires Failure?
    {
      Failure(error)
    }

    function Extract(): T
      requires Success?
    {
      value
    }
  }

}
