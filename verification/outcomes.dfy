/** Values shared by every part of the model: nullable references and the
    exceptions the deque can raise. */
module Outcomes {

  /** A Java reference that may be null: `None` is null. */
  datatype Option<T> = None | Some(value: T)

  /** The exceptions that can leave the deque's operations. */
  datatype Exception =
    | NullPointer        // inserting a null element
    | NoSuchElement      // strict access to an empty deque
    | IndexOutOfBounds   // a slot index outside the block's array

  /** The result of a Java call: a returned value or a thrown exception. */
  datatype Outcome<T> = Ok(value: T) | Throws(ex: Exception)
}
