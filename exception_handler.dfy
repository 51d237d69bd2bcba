/** `GlobalExceptionHandler`: how an exception that leaves a controller
    becomes an `ErrorResponse`. The clock (`LocalDateTime.now()`) and the
    request path (`request.getDescription(false)`) are parameters. */
module ExceptionHandling {
  import opened Wrappers
  import opened Jvm

  const MsgValidation: string := "Valideringsfeil"
  const MsgInvalidValue: string := "Ugyldig verdi"
  const MsgInvalidRequest: string := "Ugyldig forespørsel"
  const MsgInternal: string := "Noe gikk galt, prøv igjen senere"
  const MsgDuplicateEmail: string := "Epost addressen er allerede registrert"
  const MsgUserNotFound: string := "Bruker ikke funnet"

  const BAD_REQUEST: int := 400
  const NOT_FOUND: int := 404
  const CONFLICT: int := 409
  const INTERNAL_SERVER_ERROR: int := 500

  /** `ErrorResponse`; `errors` is set only for bean-validation failures. */
  datatype ErrorResponse = ErrorResponse(
    message: string,
    code: string,
    status: int,
    timestamp: Timestamp,
    path: string,
    errors: Option<map<string, string>>)

  // ---------------------------------------------------------------------------
  // handleValidationExceptions

  predicate AllFieldErrors(errors: seq<BindingError>) {
    forall i :: 0 <= i < |errors| ==> errors[i].FieldError?
  }

  /** What one field error puts in the map. */
  function MessageOf(e: BindingError): string {
    e.defaultMessage.GetOr(MsgInvalidValue)
  }

  /** The field map after the errors are entered in order. */
  function FieldMap(errors: seq<BindingError>): (m: map<string, string>)
    requires AllFieldErrors(errors)
    ensures |m| <= |errors|
    ensures errors != [] ==> errors[|errors| - 1].field in m
  {
    if errors == [] then map[]
    else
      var last := errors[|errors| - 1];
      FieldMap(errors[..|errors| - 1])[last.field := MessageOf(last)]
  }

  /** The map has one entry per field that has an error, and each holds the
      message of that field's last error. */
  lemma {:induction false} FieldMapLastWins(errors: seq<BindingError>)
    requires AllFieldErrors(errors)
    ensures forall f :: f in FieldMap(errors) <==> exists i :: 0 <= i < |errors| && errors[i].field == f
    ensures forall i :: 0 <= i < |errors| && (forall j :: i < j < |errors| ==> errors[j].field != errors[i].field) ==>
      FieldMap(errors)[errors[i].field] == MessageOf(errors[i])
  {
    FieldMapKeys(errors);
    if errors != [] {
      var n := |errors|;
      var p := Front(errors);
      var last := errors[n - 1];
      FieldMapLastWins(p);
      var m := FieldMap(errors);
      assert m == FieldMap(p)[last.field := MessageOf(last)];
      forall i | 0 <= i < n && (forall j :: i < j < n ==> errors[j].field != errors[i].field)
        ensures m[errors[i].field] == MessageOf(errors[i])
      {
        if i < n - 1 {
          assert p[i] == errors[i];
          forall j | i < j < |p| ensures p[j].field != p[i].field {
            assert p[j] == errors[j];
          }
        }
      }
    }
  }

  /** The map's keys are exactly the fields that have an error. */
  lemma {:induction false} FieldMapKeys(errors: seq<BindingError>)
    requires AllFieldErrors(errors)
    ensures forall f :: f in FieldMap(errors) <==> exists i :: 0 <= i < |errors| && errors[i].field == f
  {
    if errors != [] {
      var n := |errors|;
      var p := Front(errors);
      var last := errors[n - 1];
      FieldMapKeys(p);
      var m := FieldMap(errors);
      assert m == FieldMap(p)[last.field := MessageOf(last)];
      forall f | f in m ensures exists i :: 0 <= i < n && errors[i].field == f {
        if f != last.field {
          var i :| 0 <= i < |p| && p[i].field == f;
          assert errors[i] == p[i];
        }
      }
      forall f | exists i :: 0 <= i < n && errors[i].field == f ensures f in m {
        var i :| 0 <= i < n && errors[i].field == f;
        if i < n - 1 {
          assert p[i] == errors[i];
        }
      }
    }
  }

  /** All errors but the last, still all field errors. */
  function Front(errors: seq<BindingError>): (p: seq<BindingError>)
    requires AllFieldErrors(errors) && errors != []
    ensures AllFieldErrors(p) && p == errors[..|errors| - 1]
  {
    var p := errors[..|errors| - 1];
    assert forall i :: 0 <= i < |p| ==> p[i] == errors[i];
    p
  }

  /** `handleValidationExceptions`: every error is cast to a field error
      (a global error makes the cast throw) and entered in a fresh map. */
  method HandleValidationExceptions(allErrors: seq<BindingError>, now: Timestamp, path: string)
    returns (r: Result<ErrorResponse, Exception>)
    ensures !AllFieldErrors(allErrors) ==> r == Failure(ClassCast)
    ensures AllFieldErrors(allErrors) ==>
      r == Success(ErrorResponse(MsgValidation, "VALIDATION_ERROR", BAD_REQUEST, now, path, Some(FieldMap(allErrors))))
  {
    var errors: map<string, string> := map[];
    var i := 0;
    while i < |allErrors|
      invariant 0 <= i <= |allErrors|
      invariant AllFieldErrors(allErrors[..i])
      invariant errors == FieldMap(allErrors[..i])
    {
      var error := allErrors[i];
      if !error.FieldError? {
        return Failure(ClassCast);
      }
      var fieldName := error.field;
      var errorMessage := error.defaultMessage.GetOr(MsgInvalidValue);
      errors := errors[fieldName := errorMessage];
      assert allErrors[..i + 1][..i] == allErrors[..i];
      i := i + 1;
    }
    assert allErrors[..i] == allErrors;
    r := Success(ErrorResponse(MsgValidation, "VALIDATION_ERROR", BAD_REQUEST, now, path, Some(errors)));
  }

  // ---------------------------------------------------------------------------
  // handleIllegalArgumentException

  /** The first `when`: the HTTP status. */
  function StatusFor(message: Option<string>): int {
    if message == Some(MsgDuplicateEmail) then CONFLICT
    else if message == Some(MsgUserNotFound) then NOT_FOUND
    else BAD_REQUEST
  }

  /** The second `when`: the error code. */
  function CodeFor(message: Option<string>): string {
    if message == Some(MsgDuplicateEmail) then "DUPLICATE_EMAIL"
    else if message == Some(MsgUserNotFound) then "USER_NOT_FOUND"
    else "INVALID_REQUEST"
  }

  /** The two `when`s agree: each status comes with its own code. */
  lemma CodeMatchesStatus(message: Option<string>)
    ensures StatusFor(message) == CONFLICT <==> CodeFor(message) == "DUPLICATE_EMAIL"
    ensures StatusFor(message) == NOT_FOUND <==> CodeFor(message) == "USER_NOT_FOUND"
    ensures StatusFor(message) == BAD_REQUEST <==> CodeFor(message) == "INVALID_REQUEST"
  {
  }

  /** `handleIllegalArgumentException`. */
  function HandleIllegalArgument(message: Option<string>, now: Timestamp, path: string): (r: ErrorResponse)
    ensures r.status == CONFLICT <==> message == Some(MsgDuplicateEmail)
    ensures r.status == NOT_FOUND <==> message == Some(MsgUserNotFound)
    ensures r.status == BAD_REQUEST <==> message != Some(MsgDuplicateEmail) && message != Some(MsgUserNotFound)
    ensures message.Some? ==> r.message == message.value
    ensures message.None? ==> r.message == MsgInvalidRequest
    ensures r.errors.None?
  {
    ErrorResponse(message.GetOr(MsgInvalidRequest), CodeFor(message), StatusFor(message), now, path, None)
  }

  // ---------------------------------------------------------------------------
  // handleGeneralException

  /** `handleGeneralException`: a fixed 500 response that hides the cause. */
  function HandleGeneral(now: Timestamp, path: string): (r: ErrorResponse)
    ensures r.status == INTERNAL_SERVER_ERROR && r.code == "INTERNAL_ERROR"
    ensures r.message == MsgInternal && r.errors.None?
  {
    ErrorResponse(MsgInternal, "INTERNAL_ERROR", INTERNAL_SERVER_ERROR, now, path, None)
  }

  /** The handler Spring picks: the most specific exception type wins. The
      validation handler throws `ClassCast` on an error that names no field. */
  method Handle(ex: Exception, now: Timestamp, path: string) returns (r: Result<ErrorResponse, Exception>)
    ensures ex.MethodArgumentNotValid? && AllFieldErrors(ex.errors) ==>
      r == Success(ErrorResponse(MsgValidation, "VALIDATION_ERROR", BAD_REQUEST, now, path, Some(FieldMap(ex.errors))))
    ensures ex.MethodArgumentNotValid? && !AllFieldErrors(ex.errors) ==> r == Failure(ClassCast)
    ensures ex.IllegalArgument? ==> r == Success(HandleIllegalArgument(ex.message, now, path))
    ensures !ex.MethodArgumentNotValid? && !ex.IllegalArgument? ==> r == Success(HandleGeneral(now, path))
    ensures r.Success? ==> r.value.status in {BAD_REQUEST, NOT_FOUND, CONFLICT, INTERNAL_SERVER_ERROR}
  {
    match ex
    case MethodArgumentNotValid(errors) =>
      r := HandleValidationExceptions(errors, now, path);
    case IllegalArgument(message) =>
      r := Success(HandleIllegalArgument(message, now, path));
    case _ =>
      r := Success(HandleGeneral(now, path));
  }
}
