// Optional results: the NULL pointers the graph library returns.
module Wrappers {

  datatype Option<T> = None | Some(value: T)
}
