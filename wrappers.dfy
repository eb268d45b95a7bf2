/** The optional value used wherever the source has `null` or `undefined`, or a regular
    expression that may fail to match. */
module Wrappers {

  datatype Option<+T> = None | Some(value: T)

}
