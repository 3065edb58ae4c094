/** The exceptions the core throws or lets through, and the result type that
    replaces throwing: an operation either returns a value or ends in an exception. */
module Exceptions {
  import opened Common

  const BAD_REQUEST := 400
  const UNAUTHORIZED := 401
  const NOT_FOUND := 404
  const INTERNAL_SERVER_ERROR := 500

  /** One binding error of a rejected request body (field name and its default message). */
  datatype FieldError = FieldError(field: string, defaultMessage: string)

  /** The exception classes the global handler distinguishes. */
  datatype Kind =
    | Api(status: int)                        // ApiException and subclasses, each with its own status
    | BadCredentials                          // BadCredentialsException
    | UsernameNotFound                        // UsernameNotFoundException
    | MaxUploadSizeExceeded(maxUploadSize: int)
    | MessageNotReadable                      // HttpMessageNotReadableException
    | ArgumentNotValid(fieldErrors: seq<FieldError>)   // MethodArgumentNotValidException
    | DataIntegrityViolation
    | ConstraintViolation                     // jakarta.validation.ConstraintViolationException
    | Persistence                             // jakarta.persistence.PersistenceException and subclasses
    | TransactionSystem
    | Other                                   // anything else

  /** A thrown exception: its class, its message and its cause (getCause()). */
  datatype Exception = Exception(kind: Kind, message: string, cause: Option<Exception>)

  function BadRequest(message: string): Exception
  {
    Exception(Api(BAD_REQUEST), message, None)
  }

  function Unauthorized(message: string): Exception
  {
    Exception(Api(UNAUTHORIZED), message, None)
  }

  function NotFound(message: string): Exception
  {
    Exception(Api(NOT_FOUND), message, None)
  }

  /** The exception a rejected password check raises inside the authentication manager. */
  const BadCredentialsError := Exception(BadCredentials, "Bad credentials", None)

  /** The store refusing a row (a NOT NULL column left null). */
  const NotNullViolation := Exception(DataIntegrityViolation, "not-null property references a null value", None)

  /** Either the operation's value or the exception it ends in. */
  datatype Result<+T> = Ok(value: T) | Err(error: Exception)
}
