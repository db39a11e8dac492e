/**
 * The signal every statement produces: fall through, break out of a labelled
 * loop, or return a value from the enclosing function.
 */
module ControlActions {
  import opened Options
  import opened Locations
  import opened Values

  datatype ControlAction =
    | Next
    | Break(loop: LoopLabel)
    | Return(returned: Value)

  /** `shouldExit`: every signal but `Next` stops a statement list. */
  function ShouldExit(a: ControlAction): (r: bool)
    ensures r <==> GetLoopLabel(a).Some? || a.Return?
  {
    !a.Next?
  }

  /** `getLoopLabel`: the label of a break, `None` for the other signals. */
  function GetLoopLabel(a: ControlAction): (r: Option<LoopLabel>)
    ensures r.Some? <==> a.Break?
    ensures r.Some? ==> a == Break(r.value)
  {
    match a
    case Break(l) => Some(l)
    case _ => None
  }

}
