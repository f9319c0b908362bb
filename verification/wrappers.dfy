/** The optional value used for the page's nullable state (`sortField` may be `null`). */
module Wrappers {

  datatype Option<+T> = None | Some(value: T)
}
