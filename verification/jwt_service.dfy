/** The token codec (`BlindIdea.Infrastructure.Services.JwtService`): access
    token lifetime and claims, `jti` extraction, and the shape of refresh
    secrets and their stored digests. HMAC signing, the CSPRNG and SHA-256 are
    parameters: the random octets and the digest function are supplied by the caller. */
module JwtService {
  import opened Wrappers
  import opened Time
  import opened Keys
  import opened Bytes
  import opened Claims
  import Base64
  import Hex
  import Persistence

  datatype JwtOptions = JwtOptions(
    key: string,
    issuer: string,
    audience: string,
    accessTokenExpiryMinutes: int,
    refreshTokenExpiryDays: int)

  const DefaultAccessTokenExpiryMinutes: int := 15
  const DefaultRefreshTokenExpiryDays: int := 7

  /** The options object before configuration binding. */
  const DefaultOptions: JwtOptions := JwtOptions("", "", "", DefaultAccessTokenExpiryMinutes, DefaultRefreshTokenExpiryDays)

  /** The configured access lifetime when positive, otherwise 15 minutes. */
  function AccessLifetimeMinutes(opts: JwtOptions): (m: int)
    ensures m > 0
    ensures opts.accessTokenExpiryMinutes > 0 ==> m == opts.accessTokenExpiryMinutes
    ensures opts.accessTokenExpiryMinutes <= 0 ==> m == DefaultAccessTokenExpiryMinutes
  {
    if opts.accessTokenExpiryMinutes > 0 then opts.accessTokenExpiryMinutes else DefaultAccessTokenExpiryMinutes
  }

  /** The four claims of an access token, in order: whoever reads them back
      finds the user id, email (empty when the user has none), display name and
      token id under their claim types. */
  function AccessClaims(userId: UserId, user: Persistence.User, jwtId: string): (c: seq<Claim>)
    ensures |c| == 4
    ensures FirstValue(c, NameIdentifierType) == Some(userId)
    ensures FirstValue(c, EmailType) == Some(user.email.GetOr(""))
    ensures FirstValue(c, NameType) == Some(user.name)
    ensures FirstValue(c, JwtIdType) == Some(jwtId)
  {
    var c := [ Claim(NameIdentifierType, userId),
               Claim(EmailType, user.email.GetOr("")),
               Claim(NameType, user.name),
               Claim(JwtIdType, jwtId) ];
    assert IsFirstOfType(c, 0, NameIdentifierType);
    assert IsFirstOfType(c, 1, EmailType);
    assert IsFirstOfType(c, 2, NameType);
    assert IsFirstOfType(c, 3, JwtIdType);
    c
  }

  /** `CreateAccessToken`; `jwtGuid` is the fresh `Guid.NewGuid()` and `now` the
      clock. The payload keeps the expiry as whole seconds since the epoch. */
  function CreateAccessToken(opts: JwtOptions, userId: UserId, user: Persistence.User, jwtGuid: Bytes16, now: Instant)
    : (t: AccessToken)
    ensures t.issuer == opts.issuer && t.audience == opts.audience
    ensures t.claims == AccessClaims(userId, user, Hex.GuidToString(jwtGuid))
    ensures t.exp == IntDate(AddMinutes(now, AccessLifetimeMinutes(opts)))
    ensures FirstValue(t.claims, JwtIdType) == Some(Hex.GuidToString(jwtGuid))
  {
    AccessToken(opts.issuer, opts.audience, AccessClaims(userId, user, Hex.GuidToString(jwtGuid)),
                IntDate(AddMinutes(now, AccessLifetimeMinutes(opts))))
  }

  /** Issued after the epoch, the token expires exactly the lifetime's seconds
      after the second it was issued in, and so strictly later. */
  lemma AccessExpiryIsLifetime(opts: JwtOptions, userId: UserId, user: Persistence.User, jwtGuid: Bytes16,
                               now: Instant)
    requires now >= UnixEpoch
    ensures CreateAccessToken(opts, userId, user, jwtGuid, now).exp == IntDate(now) + 60 * AccessLifetimeMinutes(opts)
    ensures CreateAccessToken(opts, userId, user, jwtGuid, now).exp > IntDate(now)
  {
    var m := AccessLifetimeMinutes(opts);
    assert AddMinutes(now, m) == now + (60 * m) * TicksPerSecond;
    IntDateAddSeconds(now, 60 * m);
  }

  /** `ExtractJwtId`. `read` is what `ReadToken` yields: the payload claims, or
      None when the string cannot be read (the exception the method swallows). */
  function ExtractJwtId(read: Option<seq<Claim>>): (r: Option<string>)
    ensures read.None? ==> r.None?
    ensures read.Some? ==> (r.Some? <==> HasType(read.value, JwtIdType))
    ensures r.Some? ==> exists i :: IsFirstOfType(read.value, i, JwtIdType) && read.value[i].value == r.value
  {
    match read
    case None => None
    case Some(claims) => FirstValue(claims, JwtIdType)
  }

  /** Reading back a token this codec issued yields the `jti` it embedded,
      whatever registered claims the writer appends after the four. */
  lemma ExtractJwtIdRoundTrip(opts: JwtOptions, userId: UserId, user: Persistence.User, jwtGuid: Bytes16,
                              now: Instant, appended: seq<Claim>)
    ensures ExtractJwtId(Some(CreateAccessToken(opts, userId, user, jwtGuid, now).claims + appended))
         == Some(Hex.GuidToString(jwtGuid))
  {
    var claims := CreateAccessToken(opts, userId, user, jwtGuid, now).claims;
    assert claims[3].claimType == JwtIdType;
    FirstValueOfPrefix(claims, appended, JwtIdType);
  }

  /** `GenerateRefreshToken`: the Base64 text of 32 random octets. */
  function GenerateRefreshToken(random: Bytes32): (s: string)
    ensures |s| == 44
    ensures s[43] == Base64.Pad
    ensures forall i :: 0 <= i < 43 ==> Base64.IsAlphabetChar(s[i])
    ensures Base64.Decode(s) == Some(random)
  {
    Base64.DecodeEncode(random);
    Base64.ShapeOf32(random);
    Base64.Encode(random)
  }

  /** `HashToken`: the upper-case hexadecimal text of the 32-octet digest of
      the token (`digest` stands for UTF-8 encoding followed by SHA-256). */
  function HashToken(digest: string -> Bytes32, token: string): (h: string)
    ensures |h| == 64
    ensures forall i :: 0 <= i < |h| ==> Hex.IsUpperHexDigit(h[i])
    ensures Hex.FromHex(h) == Some(digest(token))
  {
    Hex.FromHexRender(digest(token), true);
    Hex.ToHex(digest(token))
  }

  /** Two secrets have the same stored digest text exactly when their digests are equal. */
  lemma HashTokenEqualIff(digest: string -> Bytes32, a: string, b: string)
    ensures HashToken(digest, a) == HashToken(digest, b) <==> digest(a) == digest(b)
  {
    if HashToken(digest, a) == HashToken(digest, b) {
      Hex.RenderInjective(digest(a), digest(b), true);
    }
  }

  /** The codec's outputs fit the columns that store them. */
  lemma OutputsFitColumns(jwtGuid: Bytes16, digest: string -> Bytes32, token: string)
    ensures |Hex.GuidToString(jwtGuid)| <= Persistence.JwtIdMaxLength
    ensures |HashToken(digest, token)| <= Persistence.TokenHashMaxLength
  {
  }
}
