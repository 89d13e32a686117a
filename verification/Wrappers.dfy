/** The optional value used wherever the kernel can fail on an input. */
module Wrappers {

  /** None stands for a failed assertion or an exception in math_up:
      the proof step that needed the value is rejected. */
  datatype Option<+T> = None | Some(value: T) {

    predicate IsFailure() {
      None?
    }

    function PropagateFailure<U>(): Option<U>
      requires None?
    {
      None
    }

    function Extract(): T
      requires Some?
    {
      value
    }
  }
}
