/** The conventional optional value, used for JSON keys that may be absent. */
module Wrappers {

  datatype Option<+T> = None | Some(value: T)

}
