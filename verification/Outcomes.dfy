/** Results of operations that can fail. */
module Outcomes {
  datatype Option<+T> = None | Some(value: T)
}
