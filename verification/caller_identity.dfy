/** The authenticated caller as controllers see it, and how an issued access
    token describes it. `User.Identity.Name` is the token's name claim (the
    bearer handler keeps the default name claim type), which the codec fills
    with the display name; the user id is the name-identifier claim. */
module CallerIdentity {
  import opened Wrappers
  import opened Keys
  import opened Claims
  import opened Time
  import opened Bytes
  import opened Persistence
  import JwtService

  /** The authenticated caller as the bearer handler sees it: the first
      name-identifier claim is `FindFirst(ClaimTypes.NameIdentifier)`, and the
      first name claim is `User.Identity.Name`. */
  datatype Caller = Caller(nameIdentifier: UserId, name: string)

  /** The caller a token's claims describe, when both claims are present. */
  function CallerOf(claims: seq<Claim>): (c: Option<Caller>)
    ensures c.Some? <==> HasType(claims, NameIdentifierType) && HasType(claims, NameType)
    ensures c.Some? ==> Some(c.value.nameIdentifier) == FirstValue(claims, NameIdentifierType)
    ensures c.Some? ==> Some(c.value.name) == FirstValue(claims, NameType)
  {
    match (FirstValue(claims, NameIdentifierType), FirstValue(claims, NameType))
    case (Some(id), Some(name)) => Some(Caller(id, name))
    case _ => None
  }

  /** A token the codec issued describes its user: the id as name identifier
      and the display name as name, whatever registered claims follow. */
  lemma IssuedTokenCaller(opts: JwtService.JwtOptions, userId: UserId, user: User, jwtGuid: Bytes16, now: Instant,
                          appended: seq<Claim>)
    ensures CallerOf(JwtService.CreateAccessToken(opts, userId, user, jwtGuid, now).claims + appended)
         == Some(Caller(userId, user.name))
  {
    var c := JwtService.CreateAccessToken(opts, userId, user, jwtGuid, now).claims;
    FirstValueOfPrefix(c, appended, NameIdentifierType);
    FirstValueOfPrefix(c, appended, NameType);
  }

  /** A registered user whose display name is not their id: user "u1",
      displayed as "Alice", with one idea of theirs and no team. */
  const AliceStore: Store := Store(map["u1" := User("Alice", None, None, false)], map[],
                                   map[0 := Idea("t", "d", false, "u1", None)], map[], map[], map[])

  /** The token the codec issues to "u1" describes the caller ("u1", "Alice"). */
  lemma AliceTokenCaller(opts: JwtService.JwtOptions, jwtGuid: Bytes16, now: Instant)
    ensures CallerOf(JwtService.CreateAccessToken(opts, "u1", AliceStore.users["u1"], jwtGuid, now).claims)
         == Some(Caller("u1", "Alice"))
  {
    var c := JwtService.CreateAccessToken(opts, "u1", AliceStore.users["u1"], jwtGuid, now).claims;
    IssuedTokenCaller(opts, "u1", AliceStore.users["u1"], jwtGuid, now, []);
    assert c + [] == c;
  }
}
