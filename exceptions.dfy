/** The outcome of a Java method that may throw instead of returning. */
module Exceptions {
  datatype Exception = IllegalArgumentException(message: string)

  datatype Result<T> = Returned(value: T) | Threw(exception: Exception)
}
