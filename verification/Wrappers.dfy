/** The types that many modules share. */
module Wrappers {

  newtype Byte = x: int | 0 <= x < 256

  /** `None` stands for null, a refusal or a thrown error. */
  datatype Option<+T> = None | Some(value: T) {

    predicate IsFailure() {
      None?
    }

    function PropagateFailure<U>(): Option<U>
      requires None?
    {
      None
    }

    function Extract(): T
      requires Some?
    {
      value
    }
  }
}
