/** The failure-carrying value used where the source returns NaN. */
module Wrappers {

  datatype Option<+T> = None | Some(value: T)
}
