/**
 * The fixed-arity adapters every built-in is written against: they check the
 * argument count before the body sees any argument.
 */
module AbstractFunctions {
  import opened Values
  import opened Errors

  /** `FunctionN.apply`'s guard: exactly `expected` arguments, else an arity error naming both counts. */
  function CheckArity(expected: nat, args: seq<Value>): (r: Result<()>)
    ensures r.Success? <==> |args| == expected
    ensures r.Failure? ==> r.error == ArityException(expected, |args|)
  {
    if |args| != expected then Failure(ArityException(expected, |args|)) else Success(())
  }

}
