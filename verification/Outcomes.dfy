/** Result shapes shared by every component: an optional value, and a value or a stable error code. */
module Outcomes {
  datatype Option<+T> = None | Some(value: T)

  datatype Result<+T> = Success(value: T) | Failure(code: string)
}
