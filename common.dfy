/** Small value types shared by the whole model. */
module Common {

  /** A value that may be absent: Java's `null`. */
  datatype Option<+T> = None | Some(value: T)

  /** The outcome of an operation that can throw. */
  datatype Result<+R, +E> = Success(value: R) | Failure(error: E)

  /** A Java `String` that may be null, such as an XML attribute that is not set. */
  type Attr = Option<string>
}
