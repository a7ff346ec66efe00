/** The older codec (`BlindIdea.Application.Services.Implementations.JwtService`):
    three claims and no `jti`, a lifetime in days, GUID-based refresh secrets
    and Base64 digests. */
module LegacyJwtService {
  import opened Wrappers
  import opened Time
  import opened Keys
  import opened Bytes
  import opened Claims
  import Base64
  import Persistence
  import JwtService

  datatype LegacyJwtOptions = LegacyJwtOptions(key: string, issuer: string, audience: string, expireDays: int)

  /** `new Claim(type, null)` throws `ArgumentNullException`. */
  datatype CodecError = ArgumentNull

  /** `CreateAccessToken`. The email is dereferenced with the null-forgiving
      operator, which checks nothing, so a user without email makes the claim
      constructor throw. */
  function CreateAccessToken(opts: LegacyJwtOptions, userId: UserId, user: Persistence.User, now: Instant)
    : (r: Result<AccessToken, CodecError>)
    ensures r.Success? <==> user.email.Some?
    ensures r.Success? ==> var t := r.value;
      && t.issuer == opts.issuer && t.audience == opts.audience
      && t.claims == [Claim(NameIdentifierType, userId), Claim(EmailType, user.email.value), Claim(NameType, user.name)]
      && !HasType(t.claims, JwtIdType)
      && t.exp == IntDate(AddDays(now, opts.expireDays))
  {
    match user.email
    case None => Failure(ArgumentNull)
    case Some(email) =>
      Success(AccessToken(opts.issuer, opts.audience,
        [Claim(NameIdentifierType, userId), Claim(EmailType, email), Claim(NameType, user.name)],
        IntDate(AddDays(now, opts.expireDays))))
  }

  /** A legacy token carries no `jti`, so the newer codec's extraction finds none. */
  lemma NoJwtIdInLegacyToken(opts: LegacyJwtOptions, userId: UserId, user: Persistence.User, now: Instant,
                             appended: seq<Claim>)
    requires CreateAccessToken(opts, userId, user, now).Success?
    requires !HasType(appended, JwtIdType)
    ensures JwtService.ExtractJwtId(Some(CreateAccessToken(opts, userId, user, now).value.claims + appended)) == None
  {

  }

  /** The token expires after the second it is issued in only when `ExpireDays`
      is positive; then it expires exactly that many days of seconds later. */
  lemma ExpiryInFutureIff(opts: LegacyJwtOptions, userId: UserId, user: Persistence.User, now: Instant)
    requires CreateAccessToken(opts, userId, user, now).Success?
    requires now >= UnixEpoch
    ensures CreateAccessToken(opts, userId, user, now).value.exp > IntDate(now) <==> opts.expireDays > 0
    ensures opts.expireDays > 0 ==>
      CreateAccessToken(opts, userId, user, now).value.exp == IntDate(now) + opts.expireDays * 86400
  {
    var d := opts.expireDays;
    if d > 0 {
      assert AddDays(now, d) == now + (d * 86400) * TicksPerSecond;
      IntDateAddSeconds(now, d * 86400);
    } else {
      IntDateMonotone(AddDays(now, d), now);
    }
  }

  /** `GenerateRefreshToken`: the Base64 text of a GUID's 16 octets. */
  function GenerateRefreshToken(guid: Bytes16): (s: string)
    ensures |s| == 24
    ensures s[22] == Base64.Pad && s[23] == Base64.Pad
    ensures forall i :: 0 <= i < 22 ==> Base64.IsAlphabetChar(s[i])
    ensures Base64.Decode(s) == Some(guid)
  {
    Base64.DecodeEncode(guid);
    Base64.ShapeOf16(guid);
    Base64.Encode(guid)
  }

  /** `HashToken`: the Base64 text of the 32-octet digest. */
  function HashToken(digest: string -> Bytes32, token: string): (h: string)
    ensures |h| == 44
    ensures h[43] == Base64.Pad
    ensures forall i :: 0 <= i < 43 ==> Base64.IsAlphabetChar(h[i])
    ensures Base64.Decode(h) == Some(digest(token))
  {
    var d := digest(token);
    Base64.DecodeEncode(d);
    Base64.ShapeOf32(d);
    Base64.Encode(d)
  }

  /** Two secrets have the same stored digest text exactly when their digests are equal. */
  lemma HashTokenEqualIff(digest: string -> Bytes32, a: string, b: string)
    ensures HashToken(digest, a) == HashToken(digest, b) <==> digest(a) == digest(b)
  {
    if HashToken(digest, a) == HashToken(digest, b) {
      Base64.EncodeInjective(digest(a), digest(b));
    }
  }
}
