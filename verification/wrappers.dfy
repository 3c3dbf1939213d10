/** The optional value used for browser storage slots and the selected event. */
module Wrappers {

  /** `null`/`undefined` versus a present value. */
  datatype Option<+T> = None | Some(value: T)
}
