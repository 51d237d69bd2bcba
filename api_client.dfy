/** The two axios interceptors of the web client's `apiClient`: the request
    interceptor that adds the stored bearer token, and the response
    interceptor that turns every failed request into an `ApiError`. The
    token store (`localStorage`) and the failed request are parameters. */
module ApiClient {
  import opened Wrappers

  const MsgDefault: string := "Noe gikk galt"
  const MsgTryAgain: string := "Noe gikk galt, prøv igjen"
  const MsgNoContact: string := "Kunne ikke kontakte server"
  const AuthorizationHeader: string := "Authorization"

  /** `ApiError`. */
  datatype ApiError = ApiError(message: string, code: string, status: int)

  /** What the interceptor reads of a received response: its status and the
      `message` field of its body, when the body has one. */
  datatype Response = Response(status: int, dataMessage: Option<string>)

  /** What the interceptor reads of an `AxiosError`: whether a response came
      back, and otherwise whether the request was sent at all. */
  datatype AxiosError = AxiosError(
    message: string,
    code: Option<string>,
    response: Option<Response>,
    requestSent: bool)

  /** How the promise the interceptor returns settles. */
  datatype Settlement = Resolved | Rejected(reason: ApiError)

  /** JavaScript's `a || b` on a string that may be missing: a missing or
      empty string is false. */
  function Or(a: Option<string>, b: string): (r: string)
    ensures a.Some? && a.value != "" ==> r == a.value
    ensures !(a.Some? && a.value != "") ==> r == b
    ensures b != "" ==> r != ""
  {
    if a.Some? && a.value != "" then a.value else b
  }

  /** `error.response?.status || 500`: a missing response or status 0 gives 500. */
  function StatusOf(error: AxiosError): (r: int)
    ensures r != 0
    ensures error.response.None? || error.response.value.status == 0 ==> r == 500
    ensures error.response.Some? && error.response.value.status != 0 ==> r == error.response.value.status
  {
    if error.response.Some? && error.response.value.status != 0 then error.response.value.status else 500
  }

  /** The statuses the `switch` names, each with its fixed message and code. */
  function Fixed(status: int): Option<(string, string)> {
    if status == 400 then Some(("Ugyldig forespørsel", "BAD_REQUEST"))
    else if status == 401 then Some(("Ikke autorisert", "UNAUTHORIZED"))
    else if status == 409 then Some(("Epost addressen er allerede registrert", "DUPLICATE_EMAIL"))
    else if status == 422 then Some(("Ugyldig data", "VALIDATION_ERROR"))
    else if status == 500 then Some(("Server feil", "SERVER_ERROR"))
    else None
  }

  /** The error the interceptor rejects with, case by case. */
  function ClientError(error: AxiosError): (r: ApiError)
    ensures r.status != 0
    ensures error.response.Some? && error.response.value.status != 0 ==> r.status == error.response.value.status
    ensures error.response.Some? && Fixed(error.response.value.status).None? ==>
      r.message == Or(error.response.value.dataMessage, MsgTryAgain)
  {
    var status := StatusOf(error);
    var code := Or(error.code, "UNKNOWN_ERROR");
    match error.response
    case Some(resp) =>
      (match Fixed(resp.status)
       case Some(pair) => ApiError(pair.0, pair.1, status)
       case None => ApiError(Or(resp.dataMessage, MsgTryAgain), code, status))
    case None =>
      if error.requestSent then ApiError(MsgNoContact, "NETWORK_ERROR", status)
      else ApiError(Or(Some(error.message), MsgDefault), code, status)
  }

  /** The response interceptor's error handler: build the defaults, then
      overwrite message and code by the kind of failure; always reject. */
  method OnResponseError(error: AxiosError) returns (r: Settlement)
    ensures r == Rejected(ClientError(error))
  {
    var message := Or(Some(error.message), MsgDefault);
    var code := Or(error.code, "UNKNOWN_ERROR");
    var status := if error.response.Some? && error.response.value.status != 0 then error.response.value.status else 500;
    if error.response.Some? {
      var resp := error.response.value;
      if resp.status == 400 {
        message := "Ugyldig forespørsel";
        code := "BAD_REQUEST";
      } else if resp.status == 401 {
        message := "Ikke autorisert";
        code := "UNAUTHORIZED";
      } else if resp.status == 409 {
        message := "Epost addressen er allerede registrert";
        code := "DUPLICATE_EMAIL";
      } else if resp.status == 422 {
        message := "Ugyldig data";
        code := "VALIDATION_ERROR";
      } else if resp.status == 500 {
        message := "Server feil";
        code := "SERVER_ERROR";
      } else {
        message := Or(resp.dataMessage, MsgTryAgain);
      }
    } else if error.requestSent {
      message := MsgNoContact;
      code := "NETWORK_ERROR";
    }
    r := Rejected(ApiError(message, code, status));
  }

  /** The error the client shows always has a message, a code and a non-zero
      status, whatever axios reported. */
  lemma ClientErrorComplete(error: AxiosError)
    ensures var e := ClientError(error);
      e.message != "" && e.code != "" && e.status != 0
  {
  }

  /** For a status the switch names, the message and code depend on the
      status alone: the server's message and axios' code are dropped. */
  lemma FixedStatusIgnoresDetails(a: AxiosError, b: AxiosError)
    requires a.response.Some? && b.response.Some? && a.response.value.status == b.response.value.status
    requires Fixed(a.response.value.status).Some?
    ensures ClientError(a) == ClientError(b)
    ensures ClientError(a).status == a.response.value.status
  {
  }

  /** For any other status the server's message is shown when it has one,
      and the status is passed on unless it is 0. */
  lemma OtherStatusShowsServerMessage(error: AxiosError, serverMessage: string)
    requires error.response.Some? && Fixed(error.response.value.status).None?
    requires error.response.value.dataMessage == Some(serverMessage) && serverMessage != ""
    ensures ClientError(error).message == serverMessage
    ensures ClientError(error).code == Or(error.code, "UNKNOWN_ERROR")
    ensures error.response.value.status != 0 ==> ClientError(error).status == error.response.value.status
  {
  }

  /** A request that got no response is a network error with status 500. */
  lemma NoResponseIsNetworkError(error: AxiosError)
    requires error.response.None? && error.requestSent
    ensures ClientError(error) == ApiError(MsgNoContact, "NETWORK_ERROR", 500)
  {
  }

  // ---------------------------------------------------------------------------
  // Request interceptor

  /** The part of an axios request config the interceptor touches. */
  class RequestConfig {
    var headers: map<string, string>

    constructor(headers: map<string, string>)
      ensures this.headers == headers
    {
      this.headers := headers;
    }
  }

  /** JavaScript truthiness of the stored token: missing or empty is false. */
  predicate HasToken(token: Option<string>) {
    token.Some? && token.value != ""
  }

  /** The request interceptor: with a stored token, set
      `Authorization: Bearer <token>`; return the same config. */
  method OnRequest(config: RequestConfig, token: Option<string>) returns (r: RequestConfig)
    modifies config
    ensures r == config
    ensures HasToken(token) ==> config.headers == old(config.headers)[AuthorizationHeader := "Bearer " + token.value]
    ensures !HasToken(token) ==> config.headers == old(config.headers)
  {
    if token.Some? && token.value != "" {
      config.headers := config.headers[AuthorizationHeader := "Bearer " + token.value];
    }
    r := config;
  }
}
