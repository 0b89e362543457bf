/** Results of steps that may yield nothing or fail. */
module Wrappers {

  datatype Option<+T> = None | Some(value: T)

  datatype Status = Done | Failed {
    predicate IsFailure() { Failed? }
    function PropagateFailure(): Status { this }
  }
}
