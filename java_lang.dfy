/** The few pieces of Java's runtime semantics that the plugin manager relies on:
    a nullable reference, and how a call ends (normally or with an exception). */
module JavaLang {

  /** A Java reference that may be null. */
  datatype Option<+T> = None | Some(value: T)

  /** The unchecked exceptions the modelled code can raise on its own. */
  datatype JavaException =
    | NullPointerException
    | ArrayIndexOutOfBoundsException

  /** How a call completes: with a return value, or by throwing. */
  datatype Completion<+T> = Normal(value: T) | Thrown(exception: JavaException)
}
