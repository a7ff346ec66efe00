/** The authentication endpoints. The authentication service is a parameter:
    each endpoint receives the function the service computes and applies it to
    the request fields it forwards, so an endpoint whose response does not
    depend on that parameter is one that never calls the service. A service
    call either returns a value or throws; a throw becomes status 500. */
module AuthController {
  import opened Wrappers
  import opened Text
  import opened Http
  import Base64
  import opened Bytes

  datatype Reply<+T> = Returned(value: T) | Threw(message: string)

  datatype RegisterDto = RegisterDto(name: string, email: string, password: string, confirmPassword: string)
  datatype LoginDto = LoginDto(email: string, password: string, rememberMe: bool)

  /** The parts of the HTTP context `GetClientIpAddress` reads: the values of the
      `X-Forwarded-For` header when present, and the peer address when known. */
  datatype Connection = Connection(forwardedFor: Option<seq<string>>, remoteIpAddress: Option<string>)

  const UnknownIpAddress: string := "UNKNOWN"

  const PasswordsDoNotMatch: string := "Passwords do not match."
  const RegistrationRejected: string :=
    "Registration failed. Email may already exist or password does not meet requirements."
  const RefreshTokenRequired: string := "Refresh token is required."
  const UserIdMissing: string := "User ID not found in token."
  const VerificationInputRequired: string := "UserId and verification token are required."
  const EmailRequired: string := "Email is required."

  /** The first hop of `X-Forwarded-For` when the header is present, otherwise
      the peer address, otherwise "UNKNOWN". A header whose values are all
      empty yields the empty address. */
  function GetClientIpAddress(c: Connection): (ip: string)
    ensures c.forwardedFor.None? ==> ip == c.remoteIpAddress.GetOr(UnknownIpAddress)
    ensures c.forwardedFor.Some? ==> ',' !in ip
    ensures c.forwardedFor.Some? && |ip| > 0 ==> !IsWhiteSpace(ip[0]) && !IsWhiteSpace(ip[|ip| - 1])
    ensures c.forwardedFor.Some? && (forall i :: 0 <= i < |c.forwardedFor.value| ==> |c.forwardedFor.value[i]| == 0)
      ==> ip == ""
  {
    match c.forwardedFor
    case Some(values) => FirstHop(Join(values, ','))
    case None => c.remoteIpAddress.GetOr(UnknownIpAddress)
  }

  /** The service produced a session: a response that carries a user. */
  predicate Issued(reply: Reply<Option<AuthResponse>>) {
    reply.Returned? && reply.value.Some? && reply.value.value.user.Some?
  }

  /** The outcome mapping shared by register, login and refresh: a throw is 500,
      a null response is the endpoint's rejection, a response is 200 — except that
      logging `User.Id` on a response without a user throws, which is 500 too. */
  function SessionResponse(reply: Reply<Option<AuthResponse>>, rejection: Response, errorText: string)
    : (r: Response)
    requires rejection.status != StatusOk && rejection.status != StatusInternalServerError
    ensures r.status in {StatusOk, StatusInternalServerError, rejection.status}
    ensures r.status == StatusOk <==> Issued(reply)
    ensures r.status == StatusOk ==> r.body == Session(reply.value.value)
    ensures r.status == rejection.status <==> reply == Returned(None)
    ensures r.status == rejection.status ==> r == rejection
    ensures r.status == StatusInternalServerError ==> r.body == PlainText(errorText)
  {
    match reply
    case Threw(_) => Response(StatusInternalServerError, PlainText(errorText))
    case Returned(None) => rejection
    case Returned(Some(a)) =>
      if a.user.Some? then Response(StatusOk, Session(a))
      else Response(StatusInternalServerError, PlainText(errorText))
  }

  /** The mapping shared by the endpoints whose service answers yes or no. */
  function FlagResponse(reply: Reply<bool>, accepted: Response, refused: Response, errorText: string)
    : (r: Response)
    requires accepted.status != refused.status && accepted.status != StatusInternalServerError
    ensures r in {accepted, refused, Response(StatusInternalServerError, PlainText(errorText))}
    ensures r.status == accepted.status <==> reply == Returned(true)
    ensures r.status == accepted.status ==> r == accepted
    ensures reply.Threw? ==> r.status == StatusInternalServerError
  {
    match reply
    case Threw(_) => Response(StatusInternalServerError, PlainText(errorText))
    case Returned(ok) => if ok then accepted else refused
  }

  /** `modelValid` is the model-state verdict. The controller is an
      `[ApiController]`, so an invalid model is answered by the framework's
      model-state filter with its own 400 before the action runs; `ModelErrors`
      stands for that body, and the action's own `ModelState.IsValid` test
      gives the same status. */
  function Register(modelValid: bool, dto: RegisterDto, service: RegisterDto -> Reply<Option<AuthResponse>>)
    : (r: Response)
    ensures r.status in {StatusOk, StatusBadRequest, StatusInternalServerError}
    ensures !modelValid ==> r == Response(StatusBadRequest, ModelErrors)
    ensures modelValid && dto.password != dto.confirmPassword ==>
      r == Response(StatusBadRequest, PlainText(PasswordsDoNotMatch))
    ensures r.status == StatusOk <==> modelValid && dto.password == dto.confirmPassword && Issued(service(dto))
    ensures r.status == StatusOk ==> r.body == Session(service(dto).value.value)
    ensures r.status == StatusBadRequest <==>
      !modelValid || dto.password != dto.confirmPassword || service(dto) == Returned(None)
  {
    if !modelValid then Response(StatusBadRequest, ModelErrors)
    else if dto.password != dto.confirmPassword then Response(StatusBadRequest, PlainText(PasswordsDoNotMatch))
    else SessionResponse(service(dto), Response(StatusBadRequest, PlainText(RegistrationRejected)),
                         "An error occurred during registration.")
  }

  function Login(modelValid: bool, dto: LoginDto, c: Connection,
                 service: (LoginDto, string) -> Reply<Option<AuthResponse>>): (r: Response)
    ensures r.status in {StatusOk, StatusBadRequest, StatusUnauthorized, StatusInternalServerError}
    ensures r.status == StatusBadRequest <==> !modelValid
    ensures !modelValid ==> r == Response(StatusBadRequest, ModelErrors)
    ensures r.status == StatusOk <==> modelValid && Issued(service(dto, GetClientIpAddress(c)))
    ensures r.status == StatusOk ==> r.body == Session(service(dto, GetClientIpAddress(c)).value.value)
    ensures r.status == StatusUnauthorized <==> modelValid && service(dto, GetClientIpAddress(c)) == Returned(None)
  {
    if !modelValid then Response(StatusBadRequest, ModelErrors)
    else
      SessionResponse(service(dto, GetClientIpAddress(c)),
        Response(StatusUnauthorized, Problem("Authentication Failed",
          "Invalid credentials or email not verified. Please verify your email address before logging in.")),
        "An error occurred during login.")
  }

  /** As for `Register`, `modelValid` is the framework's verdict on the body,
      given before the action's own blank-token test runs. */
  function Refresh(modelValid: bool, token: Option<string>, c: Connection,
                   service: (string, string) -> Reply<Option<AuthResponse>>): (r: Response)
    ensures r.status in {StatusOk, StatusBadRequest, StatusUnauthorized, StatusInternalServerError}
    ensures r.status == StatusBadRequest <==> !modelValid || IsNullOrWhiteSpace(token)
    ensures !modelValid ==> r == Response(StatusBadRequest, ModelErrors)
    ensures modelValid && IsNullOrWhiteSpace(token) ==> r == Response(StatusBadRequest, PlainText(RefreshTokenRequired))
    ensures r.status == StatusOk <==>
      modelValid && !IsNullOrWhiteSpace(token) && Issued(service(token.value, GetClientIpAddress(c)))
    ensures r.status == StatusOk ==> r.body == Session(service(token.value, GetClientIpAddress(c)).value.value)
    ensures r.status == StatusUnauthorized <==>
      modelValid && !IsNullOrWhiteSpace(token) && service(token.value, GetClientIpAddress(c)) == Returned(None)
  {
    if !modelValid then Response(StatusBadRequest, ModelErrors)
    else if IsNullOrWhiteSpace(token) then Response(StatusBadRequest, PlainText(RefreshTokenRequired))
    else
      SessionResponse(service(token.value, GetClientIpAddress(c)),
        Response(StatusUnauthorized, Problem("Invalid Refresh Token",
          "The refresh token is invalid, expired, or has been revoked.")),
        "An error occurred during token refresh.")
  }

  function Logout(modelValid: bool, token: Option<string>, c: Connection, service: (string, string) -> Reply<bool>)
    : (r: Response)
    ensures r.status in {StatusNoContent, StatusBadRequest, StatusInternalServerError}
    ensures !modelValid ==> r == Response(StatusBadRequest, ModelErrors)
    ensures modelValid && IsNullOrWhiteSpace(token) ==> r == Response(StatusBadRequest, PlainText(RefreshTokenRequired))
    ensures r.status == StatusNoContent <==>
      modelValid && !IsNullOrWhiteSpace(token) && service(token.value, GetClientIpAddress(c)) == Returned(true)
    ensures r.status == StatusInternalServerError <==>
      modelValid && !IsNullOrWhiteSpace(token) && service(token.value, GetClientIpAddress(c)).Threw?
  {
    if !modelValid then Response(StatusBadRequest, ModelErrors)
    else if IsNullOrWhiteSpace(token) then Response(StatusBadRequest, PlainText(RefreshTokenRequired))
    else
      FlagResponse(service(token.value, GetClientIpAddress(c)),
        Response(StatusNoContent, NoBody), Response(StatusBadRequest, PlainText("Logout failed.")),
        "An error occurred during logout.")
  }

  /** `userIdClaim` is the value of the first name-identifier claim of the caller, if any.
      A refusal by the service is a 500, like a throw. */
  function RevokeAllTokens(userIdClaim: Option<string>, c: Connection, service: (string, string) -> Reply<bool>)
    : (r: Response)
    ensures r.status in {StatusNoContent, StatusUnauthorized, StatusInternalServerError}
    ensures r.status == StatusUnauthorized <==> IsNullOrEmpty(userIdClaim)
    ensures IsNullOrEmpty(userIdClaim) ==> r == Response(StatusUnauthorized, PlainText(UserIdMissing))
    ensures r.status == StatusNoContent <==>
      !IsNullOrEmpty(userIdClaim) && service(userIdClaim.value, GetClientIpAddress(c)) == Returned(true)
  {
    if IsNullOrEmpty(userIdClaim) then Response(StatusUnauthorized, PlainText(UserIdMissing))
    else
      FlagResponse(service(userIdClaim.value, GetClientIpAddress(c)),
        Response(StatusNoContent, NoBody), Response(StatusInternalServerError, PlainText("Failed to revoke tokens.")),
        "An error occurred while revoking tokens.")
  }

  /** The outcome `VerifyEmail` reports for a service answer. */
  function VerificationOutcome(reply: Reply<bool>): (r: Response)
    ensures r.status in {StatusOk, StatusBadRequest, StatusInternalServerError}
    ensures r.status == StatusOk <==> reply == Returned(true)
    ensures r.status == StatusInternalServerError <==> reply.Threw?
  {
    FlagResponse(reply,
      Response(StatusOk, MessageObject("Email verified successfully. You can now login.")),
      Response(StatusBadRequest, Problem("Email Verification Failed",
        "The verification token is invalid, expired, or has already been used.")),
      "An error occurred during email verification.")
  }

  /** The token reaches the service percent-decoded once more. `modelValid` is
      the framework's verdict on the two query parameters. */
  function VerifyEmail(modelValid: bool, userId: Option<string>, token: Option<string>,
                       service: (string, string) -> Reply<bool>): (r: Response)
    ensures r.status in {StatusOk, StatusBadRequest, StatusInternalServerError}
    ensures !modelValid ==> r == Response(StatusBadRequest, ModelErrors)
    ensures modelValid && (IsNullOrWhiteSpace(userId) || IsNullOrWhiteSpace(token)) ==>
      r == Response(StatusBadRequest, PlainText(VerificationInputRequired))
    ensures r.status == StatusOk <==>
      modelValid && !IsNullOrWhiteSpace(userId) && !IsNullOrWhiteSpace(token)
      && service(userId.value, PercentDecode(token.value)) == Returned(true)
    ensures r.status == StatusInternalServerError <==>
      modelValid && !IsNullOrWhiteSpace(userId) && !IsNullOrWhiteSpace(token)
      && service(userId.value, PercentDecode(token.value)).Threw?
  {
    if !modelValid then Response(StatusBadRequest, ModelErrors)
    else if IsNullOrWhiteSpace(userId) || IsNullOrWhiteSpace(token) then
      Response(StatusBadRequest, PlainText(VerificationInputRequired))
    else
      VerificationOutcome(service(userId.value, PercentDecode(token.value)))
  }

  function ResendVerificationEmail(modelValid: bool, email: Option<string>, service: string -> Reply<bool>)
    : (r: Response)
    ensures r.status in {StatusOk, StatusBadRequest, StatusInternalServerError}
    ensures !modelValid ==> r == Response(StatusBadRequest, ModelErrors)
    ensures modelValid && IsNullOrWhiteSpace(email) ==> r == Response(StatusBadRequest, PlainText(EmailRequired))
    ensures r.status == StatusOk <==>
      modelValid && !IsNullOrWhiteSpace(email) && service(email.value) == Returned(true)
    ensures r.status == StatusInternalServerError <==>
      modelValid && !IsNullOrWhiteSpace(email) && service(email.value).Threw?
  {
    if !modelValid then Response(StatusBadRequest, ModelErrors)
    else if IsNullOrWhiteSpace(email) then Response(StatusBadRequest, PlainText(EmailRequired))
    else
      FlagResponse(service(email.value),
        Response(StatusOk, MessageObject("Verification email sent. Please check your inbox.")),
        Response(StatusBadRequest, Problem("Resend Verification Failed",
          "Email not found, already verified, or too many resend requests (max once per 2 minutes).")),
        "An error occurred while sending verification email.")
  }

  // ---------------- properties across services ----------------

  /** Mismatched passwords are refused whatever the service would have said. */
  lemma MismatchedPasswordsSkipService(dto: RegisterDto, s1: RegisterDto -> Reply<Option<AuthResponse>>,
                                       s2: RegisterDto -> Reply<Option<AuthResponse>>)
    requires dto.password != dto.confirmPassword
    ensures Register(true, dto, s1) == Register(true, dto, s2)
    ensures Register(true, dto, s1).status == StatusBadRequest
  {
  }

  /** A blank refresh token is refused by refresh and logout without consulting the service. */
  lemma BlankRefreshTokenSkipsService(modelValid: bool, token: Option<string>, c: Connection,
                                      s1: (string, string) -> Reply<Option<AuthResponse>>,
                                      s2: (string, string) -> Reply<Option<AuthResponse>>,
                                      f1: (string, string) -> Reply<bool>, f2: (string, string) -> Reply<bool>)
    requires IsNullOrWhiteSpace(token)
    ensures Refresh(modelValid, token, c, s1) == Refresh(modelValid, token, c, s2)
    ensures Logout(modelValid, token, c, f1) == Logout(modelValid, token, c, f2)
    ensures Refresh(modelValid, token, c, s1).status == StatusBadRequest
    ensures Logout(modelValid, token, c, f1).status == StatusBadRequest
  {
  }

  /** An invalid login model is refused whatever the service would have said. */
  lemma InvalidLoginSkipsService(dto: LoginDto, c: Connection, s1: (LoginDto, string) -> Reply<Option<AuthResponse>>,
                                 s2: (LoginDto, string) -> Reply<Option<AuthResponse>>)
    ensures Login(false, dto, c, s1) == Login(false, dto, c, s2)
    ensures Login(false, dto, c, s1) == Response(StatusBadRequest, ModelErrors)
  {
  }

  /** A caller without a user id is refused before the service or the client address is consulted. */
  lemma MissingUserIdSkipsService(userIdClaim: Option<string>, c1: Connection, c2: Connection,
                                  s1: (string, string) -> Reply<bool>, s2: (string, string) -> Reply<bool>)
    requires IsNullOrEmpty(userIdClaim)
    ensures RevokeAllTokens(userIdClaim, c1, s1) == RevokeAllTokens(userIdClaim, c2, s2)
    ensures RevokeAllTokens(userIdClaim, c1, s1).status == StatusUnauthorized
  {
  }

  /** A blank email, or a blank user id or token, is refused whatever the service would have said. */
  lemma BlankVerificationInputSkipsService(modelValid: bool, email: Option<string>, userId: Option<string>,
                                           token: Option<string>,
                                           r1: string -> Reply<bool>, r2: string -> Reply<bool>,
                                           v1: (string, string) -> Reply<bool>, v2: (string, string) -> Reply<bool>)
    ensures IsNullOrWhiteSpace(email) ==>
      ResendVerificationEmail(modelValid, email, r1) == ResendVerificationEmail(modelValid, email, r2)
      && ResendVerificationEmail(modelValid, email, r1).status == StatusBadRequest
    ensures IsNullOrWhiteSpace(userId) || IsNullOrWhiteSpace(token) ==>
      VerifyEmail(modelValid, userId, token, v1) == VerifyEmail(modelValid, userId, token, v2)
      && VerifyEmail(modelValid, userId, token, v1).status == StatusBadRequest
  {
  }

  /** The framework's implicit requirement on a non-nullable string: `[Required]`
      refuses null, empty and white-space text. */
  predicate MeetsImplicitRequired(v: Option<string>) {
    !IsNullOrWhiteSpace(v)
  }

  /** Where the framework treats the token as required, a blank token is
      answered by its validation 400 and the action's own message never appears. */
  lemma RequiredTokenAnsweredByFramework(modelValid: bool, token: Option<string>, c: Connection,
                                         s: (string, string) -> Reply<Option<AuthResponse>>,
                                         f: (string, string) -> Reply<bool>)
    requires modelValid ==> MeetsImplicitRequired(token)
    ensures IsNullOrWhiteSpace(token) ==> Refresh(modelValid, token, c, s) == Response(StatusBadRequest, ModelErrors)
    ensures IsNullOrWhiteSpace(token) ==> Logout(modelValid, token, c, f) == Response(StatusBadRequest, ModelErrors)
    ensures Refresh(modelValid, token, c, s) != Response(StatusBadRequest, PlainText(RefreshTokenRequired))
    ensures Logout(modelValid, token, c, f) != Response(StatusBadRequest, PlainText(RefreshTokenRequired))
  {
  }

  /** The same for the verification endpoints' user id, token and email. */
  lemma RequiredVerificationInputAnsweredByFramework(modelValid: bool, userId: Option<string>, token: Option<string>,
                                                     email: Option<string>, v: (string, string) -> Reply<bool>,
                                                     r: string -> Reply<bool>)
    requires modelValid ==> MeetsImplicitRequired(userId) && MeetsImplicitRequired(token)
    requires modelValid ==> MeetsImplicitRequired(email)
    ensures VerifyEmail(modelValid, userId, token, v) != Response(StatusBadRequest, PlainText(VerificationInputRequired))
    ensures ResendVerificationEmail(modelValid, email, r) != Response(StatusBadRequest, PlainText(EmailRequired))
    ensures IsNullOrWhiteSpace(email) ==> ResendVerificationEmail(modelValid, email, r) == Response(StatusBadRequest, ModelErrors)
  {
  }

  /** The query string is decoded once before the action runs, so a link whose
      `token` was percent-encoded twice arrives as `PercentEncode(token)`; the
      action's own decoding then hands the service the token itself, for every
      ASCII token. */
  lemma VerificationLinkRoundTrip(userId: string, token: string, service: (string, string) -> Reply<bool>)
    requires !AllWhiteSpace(userId) && IsAscii(token) && !AllWhiteSpace(token)
    ensures VerifyEmail(true, Some(userId), Some(PercentEncode(token)), service)
         == VerificationOutcome(service(userId, token))
  {
    DecodeEncode(token);
    assert !AllWhiteSpace(PercentEncode(token)) by {
      if AllWhiteSpace(PercentEncode(token)) {
        DecodeEncode(token);
        WhiteSpaceDecodesToItself(PercentEncode(token));
      }
    }
  }

  /** The address is the first hop of the first non-empty `X-Forwarded-For`
      value, whatever the peer address. */
  lemma ClientIpIsFirstNonEmptyHop(values: seq<string>, remote: Option<string>)
    ensures GetClientIpAddress(Connection(Some(values), remote)) == FirstHop(FirstNonEmpty(values))
  {
    FirstSegmentOfJoin(values, ',');
  }

  /** Empty header values are skipped: they contribute no hop. */
  lemma EmptyHeaderValuesSkipped(rest: seq<string>, remote1: Option<string>, remote2: Option<string>)
    ensures GetClientIpAddress(Connection(Some([""] + rest), remote1))
         == GetClientIpAddress(Connection(Some(rest), remote2))
  {
    assert ([""] + rest)[1..] == rest;
  }

  /** Once a non-empty first value is present, every later header value and
      the peer address are ignored; "a, b" yields "a". */
  lemma FirstHopOnly(first: string, rest: seq<string>, remote1: Option<string>, remote2: Option<string>)
    requires |first| > 0
    ensures GetClientIpAddress(Connection(Some([first] + rest), remote1))
         == GetClientIpAddress(Connection(Some([first]), remote2))
  {
    ClientIpIsFirstNonEmptyHop([first] + rest, remote1);
    ClientIpIsFirstNonEmptyHop([first], remote2);
  }

  lemma NoEscapeInBase64(bs: seq<byte>)
    requires |bs| > 0
    ensures '%' !in Base64.Encode(bs)
    ensures Base64.IsAlphabetChar(Base64.Encode(bs)[0])
  {
    var t := Base64.Encode(bs);
    forall i | 0 <= i < |t| ensures t[i] != '%' {
      if i < |t| - Base64.PadCount(|bs|) {
        assert Base64.IsAlphabetChar(t[i]);
      } else {
        assert t[i] == Base64.Pad;
      }
    }
  }

  /** A token without '%' reaches the service exactly as sent. */
  lemma UnescapedTokenPassesThrough(userId: string, token: string, service: (string, string) -> Reply<bool>)
    requires !AllWhiteSpace(userId) && !AllWhiteSpace(token) && '%' !in token
    ensures VerifyEmail(true, Some(userId), Some(token), service)
         == VerificationOutcome(service(userId, token))
  {
  }

  /** A Base64 token sent without escaping holds no '%', so decoding leaves it as it is. */
  lemma RawBase64TokenPassesThrough(userId: string, bs: seq<byte>, token: string, service: (string, string) -> Reply<bool>)
    requires !AllWhiteSpace(userId) && |bs| > 0 && token == Base64.Encode(bs)
    ensures VerifyEmail(true, Some(userId), Some(token), service) == VerificationOutcome(service(userId, token))
  {
    NoEscapeInBase64(bs);
    assert !IsWhiteSpace(token[0]);
    UnescapedTokenPassesThrough(userId, token, service);
  }
}
