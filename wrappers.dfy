/** The optional value used wherever the dashboard can fail to produce a result. */
module Wrappers {

  datatype Option<+T> = None | Some(value: T)

}
