/** The optional value used wherever the component holds "a track or null". */
module Wrappers {

  datatype Option<+T> = None | Some(value: T)
}
