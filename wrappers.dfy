/** The optional value shared by the editor model and the main-process helpers. */
module Wrappers {
  datatype Option<T> = None | Some(value: T)
}
