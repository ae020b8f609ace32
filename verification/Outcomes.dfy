/** The two result shapes the services use: a value or null, and a value or a thrown error. */
module Outcomes {
  datatype Option<+T> = None | Some(value: T)

  datatype Attempt<+T> = Returned(value: T) | Thrown
}
