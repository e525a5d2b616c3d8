/** Result shapes shared by the model.

- Option<T> stands for a .NET reference that may be null.
- Call<T> is the outcome of a member that lets an exception escape to its caller:
  either it returns a value, or it throws.
 */
module Wrappers {

  /** A value, or null. */
  datatype Option<+T> = None | Some(value: T)

  /** A returned value, or an exception that the member does not catch. */
  datatype Call<+T> = Returns(value: T) | Throws
}
