/** The optional value used for nullable cells, ids and query results. */
module Wrappers {

  datatype Option<+T> = None | Some(value: T)
}
