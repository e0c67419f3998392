/** The optional value used for a query that may find nothing and for a
    template argument that a handler may leave out. */
module Wrappers {

  datatype Option<+T> = None | Some(value: T)

}
