/**
 The few JavaScript values the component handles, as they look once a reply has been
 parsed: optional values (a property that may be `undefined`), numbers that are only ever
 turned into text, and the errors a `.catch` block receives.
 */
module JsValues {

  /** A value that may be missing (`undefined` or `null` on the JavaScript side). */
  datatype Option<+T> = None | Some(value: T)

  /** A JavaScript number. The component never computes with coordinates, durations or
      distances; it only concatenates them into strings. So a number is represented by the
      text JavaScript's string conversion gives for it. */
  datatype Number = Number(text: string)

  /** The number literal `0`. */
  const Zero := Number("0")

  /** Why a promise chain ended in its `.catch` block. */
  datatype Fault =
    | Rejected(message: string)       // the server call failed, or its reply was not JSON
    | UndefinedRead(property: string) // a TypeError: `property` was read from `undefined`

  /** The result of code that either completes or throws. */
  datatype Outcome<+T> = Done(value: T) | Threw(fault: Fault) {

    predicate IsFailure() {
      Threw?
    }

    function PropagateFailure<U>(): Outcome<U>
      requires Threw?
    {
      Threw(fault)
    }

    function Extract(): T
      requires Done?
    {
      value
    }
  }
}
