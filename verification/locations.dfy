/**
 * Location tokens produced by the resolver: value locations, variable
 * locations and loop labels. Each carries the unique identity drawn from a
 * counter and a name kept for diagnostics and printing.
 */
module Locations {

  /** A single-assignment binding site (`val x = ...`). */
  datatype ValueLocation = ValueLocation(id: nat, name: string)

  /** A reassignable binding site (`x = ...`). */
  datatype VariableLocation = VariableLocation(id: nat, name: string)

  /** The label of a `loop`, the target of a `break`. */
  datatype LoopLabel = LoopLabel(id: nat, name: string)

  /** The reserved name a bare `break` resolves through. */
  const NoLabel: string := "<no_label>"

}
