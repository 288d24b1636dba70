/** The optional value shared by the ledger and the report model. */
module Wrappers {
  datatype Option<T> = None | Some(value: T)
}
