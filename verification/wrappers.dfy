/** Small datatypes shared by the whole model. */
module Wrappers {

  /** A value that may be absent: JavaScript's `undefined`, or a `find` that matched nothing. */
  datatype Option<+T> = None | Some(value: T)

  /** The outcome of an operation that may throw. */
  datatype Result<+T, +E> = Success(value: T) | Failure(error: E)

  /** What a React state updater hands back: the very same value (so nothing re-renders
      and nothing is recorded) or a freshly built replacement. */
  datatype Update<+T> = Kept | Replaced(value: T) {

    /** The state in effect after the updater has run on `current`. */
    function Apply(current: T): T {
      match this
      case Kept => current
      case Replaced(v) => v
    }
  }
}
