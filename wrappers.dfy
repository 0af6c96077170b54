/** Option and outcome types shared by the whole model. */
module Wrappers {

  /** A possibly absent value; `None` stands for a Java `null` reference. */
  datatype Option<+T> = None | Some(value: T)

  /** The exceptions the placement engine can raise. */
  datatype Error =
    | NotEnoughSpace    // RuntimeException("There isn't enough space")
    | NullPointer       // NullPointerException from dereferencing a null Data or a null set
    | DuplicateKey      // IllegalStateException from Collectors.toMap on a repeated key
    | IllegalArgument   // IllegalArgumentException("You cannot connect a User to another User")

  /** Either normal completion or the exception that ended the call. */
  datatype Outcome = Ok | Err(error: Error)

  /** Either a value or the exception that ended the call. */
  datatype Result<+T> = Success(value: T) | Failure(error: Error)
}
