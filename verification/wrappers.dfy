/** Option, Result and Outcome datatypes used throughout the model:
- Option<T> stands for Python's `Optional[T]` (None or a value);
- Result<R, E> stands for a call that either returns R or raises E;
- Outcome<E> stands for a call that returns nothing or raises E.
 */
module Wrappers {

  datatype Option<+T> = None | Some(value: T)

  datatype Result<+R, +E> = Success(value: R) | Failure(error: E)

  datatype Outcome<+E> = Pass | Fail(error: E)
}
