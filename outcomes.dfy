/** Failure-carrying values shared by every part of the cleaner. */
module Outcomes {

  datatype Option<+T> = None | Some(value: T)

  /** The three kinds of exception the cleaner lets escape. */
  datatype Error =
    | DomainException(message: string)
    | RuntimeException(message: string)
      /** thrown by the XML parser when a document or stylesheet is not well formed */
    | XmlException(message: string)

  /** A value, or the exception thrown instead of returning it. */
  datatype Result<+T> = Success(value: T) | Failure(error: Error)
}
