/** The two persisted token records and their time-dependent state
    predicates. The C# properties read `DateTime.UtcNow`; here the clock
    reading is the explicit parameter `now`. */
module Tokens {
  import opened Wrappers
  import opened Time
  import opened Keys

  /** A refresh-token row; its `Id` is the key under which the store keeps it. */
  datatype RefreshToken = RefreshToken(
    tokenHash: string,
    jwtId: string,
    userId: UserId,
    expiresAt: Instant,
    createdAt: Instant,
    createdByIp: Option<string>,
    revokedAt: Option<Instant>,
    revokedByIp: Option<string>,
    replacedByTokenId: Option<Guid>,
    isUsed: bool)

  /** An email-verification row; its `Id` is the key under which the store keeps it. */
  datatype EmailVerificationToken = EmailVerificationToken(
    tokenHash: string,
    userId: UserId,
    expiresAt: Instant,
    createdAt: Instant,
    verifiedAt: Option<Instant>)

  // ---------------- RefreshToken ----------------

  predicate IsRevoked(t: RefreshToken) {
    t.revokedAt.Some?
  }

  predicate IsExpired(t: RefreshToken, now: Instant) {
    now >= t.expiresAt
  }

  predicate IsValid(t: RefreshToken, now: Instant) {
    !IsRevoked(t) && !IsExpired(t, now)
  }

  /** The `IsUsed` column default: a row inserted without a value is unused. */
  const IsUsedDefault: bool := false

  /** A freshly inserted row: nothing revoked, no successor, `IsUsed` left to its default. */
  function NewRefreshToken(tokenHash: string, jwtId: string, userId: UserId,
                           createdAt: Instant, expiresAt: Instant, createdByIp: Option<string>): (t: RefreshToken)
    ensures !t.isUsed && !IsRevoked(t) && t.replacedByTokenId.None?
    ensures t.tokenHash == tokenHash && t.jwtId == jwtId && t.userId == userId
    ensures forall now :: IsValid(t, now) <==> now < expiresAt
  {
    RefreshToken(tokenHash, jwtId, userId, expiresAt, createdAt, createdByIp, None, None, None, IsUsedDefault)
  }

  /** Valid exactly when no revocation time is recorded and the expiry lies strictly in the future. */
  lemma RefreshValidIff(t: RefreshToken, now: Instant)
    ensures IsValid(t, now) <==> t.revokedAt.None? && now < t.expiresAt
    ensures IsRevoked(t) <==> t.revokedAt.Some?
  {
  }

  /** The expiry instant itself already counts as expired. */
  lemma RefreshExpiresAtBoundary(t: RefreshToken)
    ensures IsExpired(t, t.expiresAt)
    ensures !IsValid(t, t.expiresAt)
  {
  }

  /** Validity does not look at `IsUsed`: a used, unrevoked, unexpired token still reports valid. */
  lemma RefreshValidityIgnoresUsed(t: RefreshToken, now: Instant)
    ensures IsValid(t.(isUsed := true), now) == IsValid(t.(isUsed := false), now)
    ensures t.revokedAt.None? && now < t.expiresAt ==> IsValid(t.(isUsed := true), now)
  {
  }

  /** Expiry is permanent: once expired, expired at every later instant. */
  lemma RefreshExpiryMonotone(t: RefreshToken, now: Instant, later: Instant)
    requires IsExpired(t, now) && now <= later
    ensures IsExpired(t, later) && !IsValid(t, later)
  {
  }

  /** Revocation is permanent: a token with a revocation time is invalid at every instant. */
  lemma RefreshRevokedNeverValid(t: RefreshToken)
    requires t.revokedAt.Some?
    ensures forall now :: !IsValid(t, now)
  {
  }

  // ---------------- EmailVerificationToken ----------------

  predicate IsUsed(t: EmailVerificationToken) {
    t.verifiedAt.Some?
  }

  predicate IsExpiredVerification(t: EmailVerificationToken, now: Instant) {
    now >= t.expiresAt
  }

  predicate IsValidVerification(t: EmailVerificationToken, now: Instant) {
    !IsExpiredVerification(t, now) && !IsUsed(t)
  }

  /** Valid exactly when it has not been used and the expiry lies strictly in the future. */
  lemma VerificationValidIff(t: EmailVerificationToken, now: Instant)
    ensures IsValidVerification(t, now) <==> t.verifiedAt.None? && now < t.expiresAt
    ensures IsUsed(t) <==> t.verifiedAt.Some?
  {
  }

  /** The expiry instant itself already counts as expired. */
  lemma VerificationExpiresAtBoundary(t: EmailVerificationToken)
    ensures IsExpiredVerification(t, t.expiresAt)
    ensures !IsValidVerification(t, t.expiresAt)
  {
  }

  /** Once a verification time is stamped the token is invalid at every instant,
      whatever verification time is later written over it. */
  lemma VerificationUsedNeverValid(t: EmailVerificationToken, stamp: Instant)
    requires t.verifiedAt.Some?
    ensures forall now :: !IsValidVerification(t, now)
    ensures forall now :: !IsValidVerification(t.(verifiedAt := Some(stamp)), now)
  {
  }

  /** Expiry is permanent: invalid by expiry now means invalid at every later instant. */
  lemma VerificationExpiryMonotone(t: EmailVerificationToken, now: Instant, later: Instant)
    requires IsExpiredVerification(t, now) && now <= later
    ensures IsExpiredVerification(t, later) && !IsValidVerification(t, later)
  {
  }
}
