/** What an endpoint hands back: a status code and a body. Only the parts of
    the payload the controllers choose are kept; serialisation is not modelled. */
module Http {
  import opened Wrappers
  import opened Time
  import opened Keys

  const StatusOk: int := 200
  const StatusNoContent: int := 204
  const StatusBadRequest: int := 400
  const StatusUnauthorized: int := 401
  const StatusInternalServerError: int := 500

  datatype UserDto = UserDto(id: string, name: string, email: string, teamId: int)

  /** `AuthResponseDto`; `user` is `None` when the service left `User` null. */
  datatype AuthResponse = AuthResponse(
    accessToken: string,
    refreshToken: string,
    accessTokenExpiration: Instant,
    refreshTokenExpiration: Instant,
    user: Option<UserDto>)

  datatype Body =
    | NoBody
    | PlainText(text: string)                 // a bare string result
    | Problem(title: string, detail: string)  // `ProblemDetails`
    | MessageObject(message: string)          // an anonymous `{ message = ... }` object
    | TeamIdObject(teamId: Guid)              // an anonymous `{ TeamId = ... }` object
    | ModelErrors                             // the `ModelState` dictionary
    | Session(response: AuthResponse)

  datatype Response = Response(status: int, body: Body)
}
