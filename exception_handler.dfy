/** GlobalExceptionHandler: every exception that leaves a controller becomes
    an HTTP status and an unsuccessful response body. The handler chosen is
    the one for the most specific class, which the Kind of the exception
    names directly. */
module ExceptionHandler {
  import opened Common
  import opened Exceptions

  const INVALID_CREDENTIALS := "Invalid credentials"
  const UPLOAD_TOO_LARGE := "File size exceeds the maximum allowed (e.g. 5MB for images)"
  const UNREADABLE_BODY := "Invalid request body. Check that the JSON is valid (e.g. string values in quotes)."
  const VALIDATION_FAILED := "Validation failed"
  const ALREADY_IN_USE := "Username or email already in use"
  const INVALID_DATA := "Invalid request data"
  const INTERNAL_ERROR := "Internal server error"

  /** The response: its status and the body's success flag, message and error
      details (the payload is always null and the timestamp is not modelled). */
  datatype ApiResponse = ApiResponse(status: int, success: bool, message: string, error: Option<seq<string>>)

  /** The messages a handler writes itself, whatever the exception says. */
  const FIXED_MESSAGES: set<string> :=
    {INVALID_CREDENTIALS, UPLOAD_TOO_LARGE, UNREADABLE_BODY, VALIDATION_FAILED,
     ALREADY_IN_USE, INVALID_DATA, INTERNAL_ERROR}

  /** "field: default message" for each binding error, in order. */
  function FieldErrorMessages(errors: seq<FieldError>): (r: seq<string>)
    ensures |r| == |errors|
    ensures forall i :: 0 <= i < |errors| ==> r[i] == errors[i].field + ": " + errors[i].defaultMessage
  {
    if errors == [] then []
    else [errors[0].field + ": " + errors[0].defaultMessage] + FieldErrorMessages(errors[1..])
  }

  predicate IsPersistence(ex: Exception)
  {
    ex.kind.Persistence?
  }

  /** handleTransaction's test: the cause, or the cause's cause, is a PersistenceException. */
  predicate CausedByPersistence(ex: Exception)
  {
    ex.cause.Some? && (IsPersistence(ex.cause.value)
                       || (ex.cause.value.cause.Some? && IsPersistence(ex.cause.value.cause.value)))
  }

  function Unsuccessful(status: int, message: string): ApiResponse
  {
    ApiResponse(status, false, message, None)
  }

  /** The handler for the exception's class. */
  function Handle(ex: Exception): (r: ApiResponse)
    ensures !r.success
    ensures r.error.Some? <==> ex.kind.ArgumentNotValid?
    ensures ex.kind.ArgumentNotValid? ==>
      r.status == BAD_REQUEST && r.message == VALIDATION_FAILED
      && r.error.value == FieldErrorMessages(ex.kind.fieldErrors)
    ensures ex.kind.Api? ==> r.status == ex.kind.status && r.message == ex.message
    ensures ex.kind.BadCredentials? || ex.kind.UsernameNotFound? ==>
      r.status == UNAUTHORIZED && r.message == INVALID_CREDENTIALS
    ensures ex.kind.TransactionSystem? ==>
      (CausedByPersistence(ex) ==> r.status == BAD_REQUEST && r.message == ALREADY_IN_USE)
      && (!CausedByPersistence(ex) ==> r.status == INTERNAL_SERVER_ERROR && r.message == INTERNAL_ERROR)
    ensures ex.kind.MaxUploadSizeExceeded? ==> r.status == BAD_REQUEST && r.message == UPLOAD_TOO_LARGE
    ensures ex.kind.MessageNotReadable? ==> r.status == BAD_REQUEST && r.message == UNREADABLE_BODY
    ensures ex.kind.DataIntegrityViolation? ==> r.status == BAD_REQUEST && r.message == ALREADY_IN_USE
    ensures ex.kind.ConstraintViolation? ==> r.status == BAD_REQUEST && r.message == INVALID_DATA
    ensures ex.kind.Persistence? ==> r.status == BAD_REQUEST && r.message == ALREADY_IN_USE
    ensures ex.kind.Other? ==> r.status == INTERNAL_SERVER_ERROR && r.message == INTERNAL_ERROR
  {
    match ex.kind
    case BadCredentials => Unsuccessful(UNAUTHORIZED, INVALID_CREDENTIALS)
    case UsernameNotFound => Unsuccessful(UNAUTHORIZED, INVALID_CREDENTIALS)
    case Api(status) => Unsuccessful(status, ex.message)
    case MaxUploadSizeExceeded(_) => Unsuccessful(BAD_REQUEST, UPLOAD_TOO_LARGE)
    case MessageNotReadable => Unsuccessful(BAD_REQUEST, UNREADABLE_BODY)
    case ArgumentNotValid(fieldErrors) =>
      ApiResponse(BAD_REQUEST, false, VALIDATION_FAILED, Some(FieldErrorMessages(fieldErrors)))
    case DataIntegrityViolation => Unsuccessful(BAD_REQUEST, ALREADY_IN_USE)
    case ConstraintViolation => Unsuccessful(BAD_REQUEST, INVALID_DATA)
    case Persistence => Unsuccessful(BAD_REQUEST, ALREADY_IN_USE)
    case TransactionSystem =>
      if CausedByPersistence(ex) then Unsuccessful(BAD_REQUEST, ALREADY_IN_USE)
      else Unsuccessful(INTERNAL_SERVER_ERROR, INTERNAL_ERROR)
    case Other => Unsuccessful(INTERNAL_SERVER_ERROR, INTERNAL_ERROR)
  }

  /** Only the application's own exceptions carry their message to the
      client: every other response message is one the handler writes, and
      the exception's message does not change the response. */
  lemma OnlyApiMessagesReachTheClient(ex: Exception, otherMessage: string)
    requires !ex.kind.Api?
    ensures Handle(ex).message in FIXED_MESSAGES
    ensures Handle(Exception(ex.kind, otherMessage, ex.cause)) == Handle(ex)
  {
  }

  /** Every response is an error status: the application's own status, a
      client error (400, 401) or 500. */
  lemma StatusIsAnError(ex: Exception)
    requires ex.kind.Api? ==> 400 <= ex.kind.status <= 599
    ensures 400 <= Handle(ex).status <= 599
    ensures !ex.kind.Api? ==> Handle(ex).status in {BAD_REQUEST, UNAUTHORIZED, INTERNAL_SERVER_ERROR}
  {
  }

  /** A post saved without title or content is refused by the store, and the
      client is told that a username or email is already in use. */
  lemma NullColumnReadsAsDuplicateCredentials()
    ensures Handle(NotNullViolation) == ApiResponse(BAD_REQUEST, false, ALREADY_IN_USE, None)
  {
  }

  /** A transaction failure two causes away from a persistence error is
      still reported as a duplicate; three causes away it is an internal error. */
  lemma PersistenceCauseDepth()
    ensures var p := Exception(Persistence, "p", None);
            var wrapped := Exception(Other, "w", Some(p));
            Handle(Exception(TransactionSystem, "t", Some(wrapped))).status == BAD_REQUEST
            && Handle(Exception(TransactionSystem, "t",
                                Some(Exception(Other, "v", Some(wrapped))))).status == INTERNAL_SERVER_ERROR
  {
  }
}
