// Results of the operations of nsDashboard that may raise.

module Outcomes {
  datatype Option<+T> = None | Some(value: T)

  datatype Error = ValueError | TypeError | OverflowError | ParseFailure

  datatype Result<+T> = Ok(value: T) | Err(error: Error)
}
