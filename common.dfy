/** Failure-compatible wrappers shared by every module: Java's `null` becomes
    `None`, and a thrown exception becomes `Failure`. */
module Common {

  datatype Option<+T> = None | Some(value: T)

  datatype Result<+T, +E> = Success(value: T) | Failure(error: E)
}
