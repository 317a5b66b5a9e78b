/** Optional values: a query parameter, a header or a document that may be absent. */
module Wrappers {

  datatype Option<+T> = None | Some(value: T)
}
