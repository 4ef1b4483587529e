// What several modules share.
module Basics {

  datatype Option<T> = None | Some(value: T)

  /** An atom, known by its handle. */
  type Handle = nat
}
