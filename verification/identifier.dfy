/**
 * What a name resolves to at parse time. The inaccessible forms record a
 * variable or loop declared outside the nearest enclosing function, which the
 * resolver refuses to let a function body use.
 */
module Identifiers {
  import opened Options
  import opened Locations

  datatype Identifier =
    | Unbound
    | Value(valueLoc: ValueLocation)
    | Variable(variableLoc: VariableLocation)
    | InaccessibleVariable(variableLoc: VariableLocation)
    | Loop(loopLabel: LoopLabel)
    | InaccessibleLoop(loopLabel: LoopLabel)

  /** The identity number of the location an identifier carries, if any. */
  function LocationId(i: Identifier): (r: Option<nat>)
    ensures r.None? <==> i.Unbound?
  {
    match i
    case Unbound => None
    case Value(l) => Some(l.id)
    case Variable(l) => Some(l.id)
    case InaccessibleVariable(l) => Some(l.id)
    case Loop(l) => Some(l.id)
    case InaccessibleLoop(l) => Some(l.id)
  }

  /** True when every location the identifier carries was drawn before `next`. */
  predicate DrawnBefore(i: Identifier, next: nat)
  {
    LocationId(i).Some? ==> LocationId(i).value < next
  }

}
