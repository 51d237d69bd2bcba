/** How an error travels from a use case to the web client: the exception
    the facade or the validator raises, the response `GlobalExceptionHandler`
    makes of it, and the `ApiError` the client's response interceptor makes
    of that response. */
module ErrorFlow {
  import opened Wrappers
  import opened Jvm
  import H = ExceptionHandling
  import C = ApiClient
  import V = TimeEntryValidator
  import P = Projects
  import TimeEntries
  import UserService
  import ProjectService
  import TimeEntryService

  /** The axios error for an error response that arrived: its status and its
      body's message, with whatever message and code axios itself set. */
  function Received(resp: H.ErrorResponse, axiosMessage: string, axiosCode: Option<string>): C.AxiosError {
    C.AxiosError(axiosMessage, axiosCode, Some(C.Response(resp.status, Some(resp.message))), true)
  }

  /** The two user errors keep their meaning end to end: a taken email is a
      409 that the client shows as DUPLICATE_EMAIL with the same text, and a
      missing user is a 404 whose text the client shows as sent. */
  lemma UserErrorsReachClient(now: Timestamp, path: string, axiosMessage: string, axiosCode: Option<string>)
    ensures var resp := H.HandleIllegalArgument(Some(UserService.MsgDuplicateEmail), now, path);
      && resp.status == 409 && resp.code == "DUPLICATE_EMAIL"
      && C.ClientError(Received(resp, axiosMessage, axiosCode)) == C.ApiError(UserService.MsgDuplicateEmail, "DUPLICATE_EMAIL", 409)
    ensures var resp := H.HandleIllegalArgument(Some(UserService.MsgUserNotFound), now, path);
      && resp.status == 404 && resp.code == "USER_NOT_FOUND"
      && C.ClientError(Received(resp, axiosMessage, axiosCode)).message == UserService.MsgUserNotFound
      && C.ClientError(Received(resp, axiosMessage, axiosCode)).status == 404
  {
    var notFound := H.HandleIllegalArgument(Some(UserService.MsgUserNotFound), now, path);
    C.OtherStatusShowsServerMessage(Received(notFound, axiosMessage, axiosCode), UserService.MsgUserNotFound);
  }

  /** Every refusal of the time-entry validator is a 400 INVALID_REQUEST that
      carries the validator's message, and the client replaces that message
      with its fixed text for 400. */
  lemma ValidatorRefusalsAreBadRequests(projects: seq<P.Project>, entries: seq<TimeEntries.TimeEntry>,
                                        entry: TimeEntries.TimeEntry, now: Timestamp, path: string,
                                        axiosMessage: string, axiosCode: Option<string>)
    requires V.ValidateCreateOrUpdate(projects, entries, entry).Fail?
    ensures var ex := V.ValidateCreateOrUpdate(projects, entries, entry).error;
      var resp := H.HandleIllegalArgument(ex.message, now, path);
      && ex.IllegalArgument? && ex.message.Some?
      && resp.status == 400 && resp.code == "INVALID_REQUEST" && resp.message == ex.message.value
      && C.ClientError(Received(resp, axiosMessage, axiosCode)) == C.ApiError("Ugyldig forespørsel", "BAD_REQUEST", 400)
  {
    V.FirstFailureWins(projects, entries, entry);
  }

  /** A missing project or time entry is a 400, not a 404 like a missing
      user: only the user message has a status of its own. */
  lemma OtherNotFoundIsBadRequest(now: Timestamp, path: string)
    ensures H.HandleIllegalArgument(Some(ProjectService.MsgProjectNotFound), now, path).status == 400
    ensures H.HandleIllegalArgument(Some(TimeEntryService.MsgEntryNotFound), now, path).status == 400
    ensures H.HandleIllegalArgument(Some(ProjectService.MsgProjectNotFound), now, path).code == "INVALID_REQUEST"
    ensures H.HandleIllegalArgument(Some(TimeEntryService.MsgEntryNotFound), now, path).code == "INVALID_REQUEST"
  {
  }

  /** An `IllegalStateException` (a project that still has hours, a lost
      update, a stale user version) falls to the general handler: the client
      sees only a server error, never the reason. */
  lemma IllegalStateIsServerError(now: Timestamp, path: string, axiosMessage: string, axiosCode: Option<string>)
    ensures var resp := H.HandleGeneral(now, path);
      && resp.status == 500 && resp.code == "INTERNAL_ERROR"
      && C.ClientError(Received(resp, axiosMessage, axiosCode)) == C.ApiError("Server feil", "SERVER_ERROR", 500)
  {
  }

  /** The field map of a bean-validation response does not reach the user:
      the client turns every 400 into its fixed message. */
  lemma FieldErrorsNotShown(errors: seq<BindingError>, now: Timestamp, path: string,
                            axiosMessage: string, axiosCode: Option<string>)
    requires H.AllFieldErrors(errors)
    ensures var resp := H.ErrorResponse(H.MsgValidation, "VALIDATION_ERROR", 400, now, path, Some(H.FieldMap(errors)));
      C.ClientError(Received(resp, axiosMessage, axiosCode)) == C.ApiError("Ugyldig forespørsel", "BAD_REQUEST", 400)
  {
  }
}
