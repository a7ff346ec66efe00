# BlindIdea core in Dafny

BlindIdea is an ASP.NET Core service where team members post ideas and rate
each other's ideas anonymously, behind JWT authentication. This project
models its core in Dafny and proves properties of that model:

- **Token records.** `RefreshToken` and `EmailVerificationToken` with their
  computed `IsRevoked`/`IsUsed`/`IsExpired`/`IsValid` properties. The clock
  is an explicit `now` parameter, counted in 100-ns ticks.
- **Token codec.** The infrastructure `JwtService` and the older application
  `JwtService`. Covered: access-token lifetime, the claim list, `jti`
  extraction, the Base64 and hexadecimal texts of refresh secrets and their
  digests, and the `Guid.ToString()` format. The random octets and the
  SHA-256 digest are parameters. Each encoder has a reference decoder, and a
  round-trip lemma connects the two.
- **Store.** The tables of `AppDbContext` as maps keyed by primary key, plus
  the constraints the model configuration declares:
  - maximum lengths;
  - the rating check constraint;
  - the unique indexes;
  - foreign keys with their restrict and cascade delete behaviours;
  - the soft-delete query filter.

  `SaveChanges` is `Persistence.Commit`, which is all-or-nothing: the pending
  state becomes the store only when every declared constraint holds.
- **Services.** `TeamService`, `RatingService` and `IdeaService` as pure
  transitions from a store to `Result<store, error>`. Each C# exception is an
  `Error` value whose `Message` is the exception text. Queries that return
  rows in an unspecified order are ghost functions that list a key set
  exactly.
- **Controllers.** The input gating and result-to-status mapping of
  `AuthController` and `RatingController`, and the caller identity that
  `RatingController` and `TeamController` pass to the services. This
  includes `GetClientIpAddress` and the percent-decoding of verification
  tokens. The authentication service is a function parameter, and a thrown
  exception is the `Reply.Threw` value.

Modules follow the source: `Tokens`, `Time`, `Bytes`, `Base64`, `Hex`,
`Claims`, `JwtService`, `LegacyJwtService`, `Persistence`, `Listing`,
`Collation`, `TeamService`, `RatingService`, `IdeaService`, `Text`, `Http`,
`CallerIdentity`, `AuthController`, `RatingController`, `TeamController`,
plus `Wrappers` and `Keys`.

### Where the model follows the code rather than the documentation

- **Rating range.** The rating services never check that a value is in
  1..5. Only the database check constraint does. So
  `RatingService.AddRating` fails with the save error for a value of 7,
  rather than with a range error.
- **Member count.** `TeamDto.MemberCount` counts members through a
  navigation that the soft-delete filter applies to, so soft-deleted users
  are not counted.
- **Null `User` in an auth response.** Register, login and refresh log
  `authResponse.User.Id` before answering. A response whose `User` is null
  therefore throws inside the `try` and becomes status 500, not 200.
- **Legacy codec and null email.** The legacy codec passes `user.Email!` to
  the `Claim` constructor. That throws for a null email, so the model
  returns a failure.
- **Legacy expiry.** `ExpireDays <= 0` gives a token that has already
  expired.
- **Empty `X-Forwarded-For`.** A header that is present but whose values are
  all empty yields the empty string, not the peer address. When the header
  is sent several times, empty values are skipped (as `StringValues` joins
  them), so the first non-empty value supplies the address.
- **Framework validation.** The controller is an `[ApiController]`, so the
  framework's model-state filter answers an invalid request with its own 400
  before the action runs. The DTOs declare their strings non-nullable
  (initialised with `null!`), and so does `VerifyEmail`'s parameter list.
  Where nullable reference types are enabled, the framework then treats
  those values as required and refuses null, empty and white-space text
  itself. The endpoints therefore take the framework's verdict as a
  `modelValid` flag, and the action's own blank-value test answers only when
  that verdict is "valid".
- **Name comparison.** The database compares `nvarchar` text under its
  default collation, which ignores case and trailing blanks. The unique
  index on `Team.Name` therefore refuses "alpha" or "Alpha " next to
  "Alpha", and `Collation.Key` is the comparison the model uses for it.
- **RevokeAll guard.** `RevokeAll` rejects only a null or empty user-id
  claim, not a white-space one.
- **Double decoding.** `VerifyEmail` percent-decodes the token on top of the
  framework's own query decoding.
- **Digest uniqueness.** Nothing makes refresh-token digests unique.
- **Access-token expiry.** The payload stores `exp` as whole seconds since the
  Unix epoch, with the fraction dropped. The model's tokens carry that
  NumericDate, not the exact `DateTime` the codec computed.
- **User keys.** `BlindIdea.Core/Entities/User.cs` declares `int Id` and a
  non-nullable `int TeamId`, so `user.TeamId != null` in `TeamService` would
  always hold for that class. The services, the tokens and `AppDbContext`
  instead treat user ids as strings (Identity keys) and the team as an
  optional `Guid` (`IsRequired(false)`, "Guid?"). The model follows the
  services: `UserId` is a string and `User.teamId` is an `Option<Guid>`.

## Model

| member | source | states |
|---|---|---|
| Tokens.NewRefreshToken | BlindIdea.Core/Entities/RefreshToken.cs:56-87 | a newly inserted token is unused, unrevoked and has no successor, and it is valid at `now` iff `now` is before its expiry |
| Tokens.RefreshValidIff | BlindIdea.Core/Entities/RefreshToken.cs:77-87 | a refresh token is valid iff it has no revocation time and `now < ExpiresAt`; it is revoked iff `RevokedAt` is set |
| Tokens.RefreshExpiresAtBoundary | BlindIdea.Core/Entities/RefreshToken.cs:87 | at the instant `ExpiresAt` itself the token is already expired and invalid |
| Tokens.RefreshValidityIgnoresUsed | BlindIdea.Core/Entities/RefreshToken.cs:72-82 | `IsValid` does not consult `IsUsed`: a used, unrevoked, unexpired token reports valid |
| Tokens.RefreshExpiryMonotone | BlindIdea.Core/Entities/RefreshToken.cs:82-87 | once expired, a token stays expired and invalid at every later instant |
| Tokens.RefreshRevokedNeverValid | BlindIdea.Core/Entities/RefreshToken.cs:77-82 | a token with a revocation time is invalid at every instant |
| Tokens.VerificationValidIff | BlindIdea.Core/Entities/EmailVerificationToken.cs:48-58 | a verification token is valid iff it has no verification time and `now < ExpiresAt` |
| Tokens.VerificationExpiresAtBoundary | BlindIdea.Core/Entities/EmailVerificationToken.cs:58 | at `ExpiresAt` itself the verification token is expired and invalid |
| Tokens.VerificationUsedNeverValid | BlindIdea.Core/Entities/EmailVerificationToken.cs:43-53 | once a verification time is stamped, the token is invalid at every instant, whatever stamp is written later |
| Tokens.VerificationExpiryMonotone | BlindIdea.Core/Entities/EmailVerificationToken.cs:53-58 | an expired verification token stays expired and invalid later |
| Base64.Encode | BlindIdea.Infrastructure/Services/JwtService.cs:87 | `Convert.ToBase64String` output has length 4·⌈n/3⌉; `=` appears exactly in the last (3 − n mod 3) mod 3 positions; every other character is in the RFC 4648 alphabet |
| Base64.DecodeEncode | BlindIdea.Infrastructure/Services/JwtService.cs:87 | decoding the Base64 text gives back exactly the encoded octets, for every octet string |
| Base64.EncodeInjective | BlindIdea.Application/Services/Implementations/JwtService.cs:57 | distinct octet strings never have the same Base64 text |
| Base64.ShapeOf32 | BlindIdea.Infrastructure/Services/JwtService.cs:83-87 | 32 octets encode to 43 alphabet characters and one `=` |
| Base64.ShapeOf16 | BlindIdea.Application/Services/Implementations/JwtService.cs:50 | 16 octets encode to 22 alphabet characters and `==` |
| Hex.Render | BlindIdea.Infrastructure/Services/JwtService.cs:106 | `Convert.ToHexString` gives two digits per octet, in the requested case |
| Hex.FromHexRender | BlindIdea.Infrastructure/Services/JwtService.cs:106 | parsing the hexadecimal text gives back the octets, in either case |
| Hex.RenderInjective | BlindIdea.Infrastructure/Services/JwtService.cs:106 | distinct octet strings never have the same hexadecimal text |
| Hex.GuidToString | BlindIdea.Infrastructure/Services/JwtService.cs:41 | `Guid.ToString()` is 36 characters: hyphens exactly at positions 8, 13, 18 and 23, lower-case hexadecimal digits everywhere else |
| Hex.GuidToStringParsesBack | BlindIdea.Infrastructure/Services/JwtService.cs:41 | removing the hyphens from a GUID's text leaves hexadecimal that parses back to its octets in display order: octets 3,2,1,0, then 5,4, then 7,6, then 8..15 as stored |
| Hex.GuidToStringInjective | BlindIdea.Infrastructure/Services/JwtService.cs:41 | distinct GUIDs have distinct texts, so distinct `jti` values |
| Claims.FirstValue | BlindIdea.Infrastructure/Services/JwtService.cs:122 | `FirstOrDefault(c => c.Type == t)?.Value` is null iff no claim has type `t`; otherwise it is the value of the first claim of that type |
| Claims.FirstValueOfPrefix | BlindIdea.Infrastructure/Services/JwtService.cs:122 | once a list has a claim of type `t`, appending more claims does not change the first match |
| JwtService.AccessLifetimeMinutes | BlindIdea.Infrastructure/Services/JwtService.cs:57-59 | the lifetime is the configured minutes when positive and 15 otherwise, so it is always positive |
| JwtService.AccessClaims | BlindIdea.Infrastructure/Services/JwtService.cs:43-49 | a reader looking up each claim type finds the user id as name identifier, the email (or "" when null) as email, the display name as name, and the fresh GUID text as `jti` |
| JwtService.CreateAccessToken | BlindIdea.Infrastructure/Services/JwtService.cs:39-70 | issuer and audience come from the options; the claims are the four access claims; `exp` is the NumericDate of `now` plus the lifetime, in whole seconds; the first `jti` claim is the fresh GUID text |
| JwtService.AccessExpiryIsLifetime | BlindIdea.Infrastructure/Services/JwtService.cs:57-68 | for a clock after the epoch, `exp` is exactly 60 × lifetime seconds after the second of issue, so strictly later |
| JwtService.ExtractJwtId | BlindIdea.Infrastructure/Services/JwtService.cs:116-128 | an unreadable token gives null; a readable one gives a value iff some claim is `jti`, and then it is the first such claim's value |
| JwtService.ExtractJwtIdRoundTrip | BlindIdea.Infrastructure/Services/JwtService.cs:116-122 | reading back a token the codec issued yields the `jti` it embedded, whatever claims the writer appends |
| JwtService.GenerateRefreshToken | BlindIdea.Infrastructure/Services/JwtService.cs:81-89 | the refresh secret is 44 characters (43 alphabet characters and a final `=`) and decodes to the 32 random octets |
| JwtService.HashToken | BlindIdea.Infrastructure/Services/JwtService.cs:101-108 | the stored digest is 64 upper-case hexadecimal digits that parse back to the SHA-256 digest |
| JwtService.HashTokenEqualIff | BlindIdea.Infrastructure/Services/JwtService.cs:101-108 | two secrets have equal digest texts iff their digests are equal |
| JwtService.OutputsFitColumns | BlindIdea.Infrastructure/Persistence/AppDbContext.cs:163-169 | the `jti` text and the digest text fit the 256-character `JwtId` and `TokenHash` columns |
| LegacyJwtService.CreateAccessToken | BlindIdea.Application/Services/Implementations/JwtService.cs:21-45 | succeeds iff the user has an email; the token then carries exactly the three claims id, email and name, no `jti`, and its `exp` is the NumericDate, in whole seconds, of `ExpireDays` days after `now` |
| LegacyJwtService.NoJwtIdInLegacyToken | BlindIdea.Application/Services/Implementations/JwtService.cs:23-28 | the newer codec's `jti` extraction finds nothing in a legacy token |
| LegacyJwtService.ExpiryInFutureIff | BlindIdea.Application/Services/Implementations/JwtService.cs:40 | for a clock after the epoch, a legacy token's `exp` is after the second of issue iff `ExpireDays` is positive, and then exactly `ExpireDays` × 86400 seconds later |
| LegacyJwtService.GenerateRefreshToken | BlindIdea.Application/Services/Implementations/JwtService.cs:48-51 | the legacy secret is 24 characters ending in `==` and decodes to the GUID's 16 octets |
| LegacyJwtService.HashToken | BlindIdea.Application/Services/Implementations/JwtService.cs:53-58 | the legacy digest text is 44 Base64 characters ending in `=` and decodes to the SHA-256 digest |
| LegacyJwtService.HashTokenEqualIff | BlindIdea.Application/Services/Implementations/JwtService.cs:53-58 | two secrets have equal legacy digest texts iff their digests are equal |
| Persistence.DeleteUser | BlindIdea.Infrastructure/Persistence/AppDbContext.cs:74-223 | deleting a user is refused iff it is a team admin, idea author or rater (restrict); otherwise the user row goes, exactly its refresh and verification tokens go with it (cascade), and every other row is unchanged |
| Persistence.DeleteTeam | BlindIdea.Infrastructure/Persistence/AppDbContext.cs:48-115 | deleting a team is refused iff some user (soft-deleted included) or idea refers to it; otherwise only the team row goes |
| Persistence.DeleteIdea | BlindIdea.Infrastructure/Persistence/AppDbContext.cs:147-150 | deleting an idea fails only for a missing row, with the save error; otherwise the idea row and exactly its ratings go (cascade), and every other row is unchanged |
| Persistence.DeleteUserPreservesValid | BlindIdea.Infrastructure/Persistence/AppDbContext.cs:74-223 | a permitted user deletion keeps every declared constraint |
| Persistence.DeleteTeamPreservesValid | BlindIdea.Infrastructure/Persistence/AppDbContext.cs:48-115 | a permitted team deletion keeps every declared constraint |
| Persistence.DeleteIdeaPreservesValid | BlindIdea.Infrastructure/Persistence/AppDbContext.cs:147-150 | an idea deletion keeps every declared constraint |
| Persistence.DigestsNeedNotBeUnique | BlindIdea.Infrastructure/Persistence/AppDbContext.cs:195-197 | some valid store holds two refresh tokens with the same digest: only non-unique indexes are declared |
| Collation.Key | BlindIdea.Infrastructure/Persistence/AppDbContext.cs:67-68 | the comparison key of a name has no upper-case ASCII letter and no trailing space, and is no longer than the name |
| Collation.KeyIgnoresTrailingSpaces | BlindIdea.Infrastructure/Persistence/AppDbContext.cs:67-68 | appending spaces to a name does not change how the database compares it |
| Collation.KeyIgnoresAsciiCase | BlindIdea.Infrastructure/Persistence/AppDbContext.cs:67-68 | names that differ only in ASCII case compare equal |
| Collation.PlainCollideIff | BlindIdea.Infrastructure/Persistence/AppDbContext.cs:67-68 | names without upper-case ASCII letters or trailing spaces compare equal iff they are equal |
| Collation.CaseAndPaddingVariantsCollide | BlindIdea.Infrastructure/Persistence/AppDbContext.cs:67-68 | "Alpha", "alpha" and "Alpha " are one name to the unique index |
| Persistence.AtMostOneRatingPerPair | BlindIdea.Infrastructure/Persistence/AppDbContext.cs:152-153 | in a valid store, two ratings by the same user of the same idea are the same row |
| Persistence.FindUserAgreesWithCollation | BlindIdea.Application/Services/Implementations/TeamService.cs:31-33 | when the stored user keys and the requested id have no upper-case ASCII letter and no trailing space, the model's exact lookup finds a visible row iff the database's case-insensitive lookup does |
| Persistence.SoftDeleteHidesOnlyThatUser | BlindIdea.Infrastructure/Persistence/AppDbContext.cs:53 | setting `IsDeleted` on a user hides that user from every lookup and from the visible set, and leaves every other user's lookup unchanged |
| TeamService.CreateTeam | BlindIdea.Application/Services/Implementations/TeamService.cs:21-39 | fails with "Admin user not found." iff the admin is missing or soft-deleted; on success only the new team is added and the admin's team is set to it (overwriting any earlier one), and the store stays valid |
| TeamService.CreateTeamSucceedsIff | BlindIdea.Application/Services/Implementations/TeamService.cs:21-39 | with a visible admin, creation succeeds iff the id is fresh, the name fits 100 characters and no team already has that name as the database compares names, ignoring ASCII case and trailing spaces |
| TeamService.CaseVariantNameRefused | BlindIdea.Infrastructure/Persistence/AppDbContext.cs:67-68 | creating a team whose name differs from an existing team's only in ASCII case or trailing spaces fails with the save error |
| TeamService.AddUserToTeam | BlindIdea.Application/Services/Implementations/TeamService.cs:41-59 | the checks run in order (team exists, caller is its admin, user visible, user has no team), each with its message, and no other error than these and the save error occurs; success changes only that user's team and keeps the store valid |
| TeamService.AddUserToTeamNeverFailsToSave | BlindIdea.Application/Services/Implementations/TeamService.cs:41-59 | on a valid store the save never fails, so the call succeeds iff all four checks pass |
| TeamService.AddUserTwiceFails | BlindIdea.Application/Services/Implementations/TeamService.cs:50-55 | a user once added cannot be added again, to any team |
| TeamService.ToTeamDto | BlindIdea.Application/Services/Implementations/TeamService.cs:63-70 | a team's DTO carries that team's key, name and admin, and counts exactly the members that are not soft-deleted |
| TeamService.GetAllTeams | BlindIdea.Application/Services/Implementations/TeamService.cs:61-72 | one entry per team, no duplicates, each with the team's name, admin and member count |
| TeamService.AddUserToTeamCounts | BlindIdea.Application/Services/Implementations/TeamService.cs:57-69 | adding a member raises that team's count by one and leaves every other team's members unchanged |
| RatingService.AddRating | BlindIdea.Application/Services/Implementations/RatingService.cs:21-37 | fails with the duplicate message iff this user already rated this idea; otherwise it inserts exactly one rating and changes nothing else; a stored value is within 1..5 and the store stays valid |
| RatingService.HasRatedFindsOneRow | BlindIdea.Application/Services/Implementations/RatingService.cs:23-24 | in a valid store, the duplicate test holds iff exactly one rating row has this user and idea |
| RatingService.RateIdea | BlindIdea.Application/Services/Implementations/RatingService.cs:21-37 | fails with "User already rated this idea." iff this user already rated this idea; any other failure is the save error; a success uses a fresh id, adds exactly the one rating, changes nothing else, and leaves a valid store with the value in 1..5 |
| RatingService.AddRatingSucceedsIff | BlindIdea.Application/Services/Implementations/RatingService.cs:21-37 | on a valid store with no earlier rating, the insert succeeds iff the id is fresh, the value is within 1..5 and the idea and user rows exist |
| RatingService.RateTwiceFails | BlindIdea.Application/Services/Implementations/RatingService.cs:23-27 | after a successful rating, the same user rating the same idea again fails |
| RatingService.OtherRatingsNeverBlock | BlindIdea.Application/Services/Implementations/RatingService.cs:23-24 | a rating by another user, or of another idea, never counts as a duplicate |
| IdeaService.Create | BlindIdea.Application/Services/Implementations/IdeaService.cs:19-36 | on success exactly one idea is added, copying the DTO and the caller id under the returned id, and the store stays valid; any failure is the save error |
| IdeaService.CreateSucceedsIff | BlindIdea.Application/Services/Implementations/IdeaService.cs:19-36 | on a valid store, creation succeeds iff the id is fresh, title and description fit 200 and 2000 characters, and the author and the team (if any) exist |
| IdeaService.AverageRatingInRange | BlindIdea.Application/Services/Implementations/IdeaService.cs:56-58 | in a valid store an idea's average is 0 iff it has no ratings, and otherwise lies within 1..5 |
| IdeaService.AverageIsMean | BlindIdea.Application/Services/Implementations/IdeaService.cs:56-58 | the average is the mean of the idea's ratings: multiplied by their number it gives their sum; with no ratings it is 0 |
| IdeaService.ToIdeaDto | BlindIdea.Application/Services/Implementations/IdeaService.cs:48-59 | an idea's DTO carries its key, author, team and its average rating |
| IdeaService.GetById | BlindIdea.Application/Services/Implementations/IdeaService.cs:39-60 | null iff no idea has the id; otherwise the idea's fields and its average rating, which is 0 when it has no ratings |
| IdeaService.GetAll | BlindIdea.Application/Services/Implementations/IdeaService.cs:63-80 | one DTO per stored idea, no duplicates, each equal to what `GetById` returns for it |
| IdeaService.Rate | BlindIdea.Application/Services/Implementations/IdeaService.cs:83-102 | fails with "You already rated this idea." iff this user already rated this idea; any other failure is the save error; a success uses a fresh id, adds exactly the one rating, changes nothing else, and leaves a valid store |
| Text.Trim | BlindIdea.API/Controllers/AuthController.cs:368 | `Trim()` returns an infix of the input; everything removed at either end is white space, and the result neither starts nor ends with white space |
| Text.TrimIdempotent | BlindIdea.API/Controllers/AuthController.cs:368 | trimming a trimmed string changes nothing |
| Text.UpToSeparator | BlindIdea.API/Controllers/AuthController.cs:368 | `Split(',').First()` is the longest prefix without a comma: a comma or the end of the text follows it |
| Text.FirstHop | BlindIdea.API/Controllers/AuthController.cs:368 | the first hop contains no comma and has no white space at either end |
| Text.FirstHopOfList | BlindIdea.API/Controllers/AuthController.cs:368 | for "a,rest" with no comma in `a`, the first hop is `a` trimmed |
| Text.Join | BlindIdea.API/Controllers/AuthController.cs:368 | `StringValues.ToString()` is empty iff every value is empty, and starts with the first value; empty values are skipped |
| Text.FirstNonEmpty | BlindIdea.API/Controllers/AuthController.cs:368 | the first non-empty header value is one of the values, and is empty only when every value is |
| Text.FirstSegmentOfJoin | BlindIdea.API/Controllers/AuthController.cs:368 | for a repeated header, the first comma-separated segment of the joined text is that of the first non-empty value |
| Text.PercentDecode | BlindIdea.API/Controllers/AuthController.cs:282 | text without `%` decodes to itself, and decoding never lengthens the text |
| Text.DecodeEncode | BlindIdea.API/Controllers/AuthController.cs:282 | decoding undoes percent-encoding for every ASCII text |
| AuthController.GetClientIpAddress | BlindIdea.API/Controllers/AuthController.cs:362-378 | without `X-Forwarded-For` the result is the peer address, or "UNKNOWN"; with it the result has no comma and no white space at either end, and is empty when every header value is empty |
| AuthController.ClientIpIsFirstNonEmptyHop | BlindIdea.API/Controllers/AuthController.cs:366-370 | with the header present, the address is the first comma-separated element of the first non-empty header value, trimmed |
| AuthController.EmptyHeaderValuesSkipped | BlindIdea.API/Controllers/AuthController.cs:366-370 | an empty header value before the others changes nothing, and the peer address is not consulted |
| AuthController.FirstHopOnly | BlindIdea.API/Controllers/AuthController.cs:366-370 | once a non-empty first header value is present, later header values and the peer address do not affect the result |
| AuthController.Register | BlindIdea.API/Controllers/AuthController.cs:40-71 | answers only 200, 400 or 500; an invalid model (answered by the framework's model-state filter) or mismatched passwords give 400 with their bodies; 200 iff the model is valid, the passwords match and the service returned a response with a user, which is the body; 400 iff invalid, mismatched, or a null response |
| AuthController.Login | BlindIdea.API/Controllers/AuthController.cs:86-118 | answers only 200, 400, 401 or 500; 400 iff the model is invalid; 200 iff the model is valid and the service returned a response with a user, which is the body; 401 iff the service returned null |
| AuthController.Refresh | BlindIdea.API/Controllers/AuthController.cs:138-170 | answers only 200, 400, 401 or 500; 400 iff the framework found the body invalid or the token is null, empty or white space, with the framework's validation body in the first case and "Refresh token is required." in the second; 200 iff the body is valid, the token is not blank and the service returned a response with a user, which is the body; 401 iff it returned null |
| AuthController.Logout | BlindIdea.API/Controllers/AuthController.cs:184-209 | answers only 204, 400 or 500; an invalid body gives the framework's validation 400; on a valid body a blank token gives 400 "Refresh token is required."; 204 iff the body is valid, the token is not blank and the service returned true; 500 iff the service threw |
| AuthController.RevokeAllTokens | BlindIdea.API/Controllers/AuthController.cs:223-249 | answers only 204, 401 or 500; 401 iff the user-id claim is missing or empty (white space passes); 204 iff the claim is present and the service returned true, so a refusal is 500 |
| AuthController.VerificationOutcome | BlindIdea.API/Controllers/AuthController.cs:284-304 | answers only 200, 400 or 500: 200 iff the service returned true, 500 iff it threw |
| AuthController.VerifyEmail | BlindIdea.API/Controllers/AuthController.cs:272-306 | answers only 200, 400 or 500; invalid parameters give the framework's validation 400; otherwise a blank user id or token gives the action's 400; 200 iff the parameters are valid, both are non-blank and the service, given the percent-decoded token, returned true; 500 iff it threw |
| AuthController.ResendVerificationEmail | BlindIdea.API/Controllers/AuthController.cs:323-354 | answers only 200, 400 or 500; an invalid body gives the framework's validation 400; on a valid body a blank email gives 400 "Email is required."; 200 iff the body is valid, the email is not blank and the service returned true; 500 iff it threw |
| AuthController.MismatchedPasswordsSkipService | BlindIdea.API/Controllers/AuthController.cs:51-54 | with mismatched passwords, register answers 400 whatever the service would do, so the service is never consulted |
| AuthController.BlankRefreshTokenSkipsService | BlindIdea.API/Controllers/AuthController.cs:142-145 | a blank refresh token gets 400 from refresh and from logout, whichever layer answers, whatever the service would do |
| AuthController.RequiredTokenAnsweredByFramework | BlindIdea.API/Controllers/AuthController.cs:135-145 | where the framework treats the token as required, a blank token gets the framework's validation 400 from refresh and logout, and "Refresh token is required." is never answered |
| AuthController.RequiredVerificationInputAnsweredByFramework | BlindIdea.API/Controllers/AuthController.cs:269-330 | where the framework treats user id, token and email as required, the actions' own "required" messages are never answered, and a blank email gets the framework's validation 400 |
| AuthController.InvalidLoginSkipsService | BlindIdea.API/Controllers/AuthController.cs:90-93 | an invalid login model gets 400 with the model errors whatever the service would do |
| AuthController.MissingUserIdSkipsService | BlindIdea.API/Controllers/AuthController.cs:228-232 | a missing or empty user-id claim gets 401 whatever the service would do and whatever the client address |
| AuthController.BlankVerificationInputSkipsService | BlindIdea.API/Controllers/AuthController.cs:276-279 | a blank email for resend, or a blank user id or token for verification, gets 400 whatever the service would do |
| AuthController.VerificationLinkRoundTrip | BlindIdea.API/Controllers/AuthController.cs:276-284 | when the action receives the percent-encoded form of an ASCII token (a link encoded twice, since the query string is decoded once before the action runs), the service gets the token itself |
| AuthController.UnescapedTokenPassesThrough | BlindIdea.API/Controllers/AuthController.cs:281-284 | a token without `%` reaches the service exactly as sent |
| AuthController.RawBase64TokenPassesThrough | BlindIdea.API/Controllers/AuthController.cs:281-284 | an unescaped Base64 token reaches the service unchanged |
| RatingController.RateIdea | BlindIdea.API/Controllers/RatingController.cs:22-38 | answers only 200 or 400; 200 iff the value is within 1..5 and the service succeeds, and then the store is the service's; any 400 leaves the store unchanged, carrying the range message for an out-of-range value and the service's message otherwise |
| RatingController.OkStoresOneRating | BlindIdea.API/Controllers/RatingController.cs:29-32 | a 200 means exactly one rating with the requested value was stored and nothing else changed |
| RatingController.RejectionLeavesStore | BlindIdea.API/Controllers/RatingController.cs:26-37 | the only statuses are 200 and 400, and a 400 leaves the store as it was |
| RatingController.RateIdeaPreservesValid | BlindIdea.API/Controllers/RatingController.cs:22-38 | the endpoint keeps every declared store constraint |
| RatingController.RangeIsInclusive | BlindIdea.API/Controllers/RatingController.cs:26-31 | values 1 and 5 both pass the gate and, for a registered first-time rater, are accepted |
| RatingController.SecondRatingRefused | BlindIdea.API/Controllers/RatingController.cs:34-37 | a second rating by the same user gives 400 carrying the service's duplicate message, and the store is unchanged |
| RatingController.RateIdeaAsWritten | BlindIdea.API/Controllers/RatingController.cs:24-32 | as written, a 200 files the rating under the caller's display name, which therefore has to be a user id |
| RatingController.RateIdeaAsCaller | BlindIdea.API/Controllers/RatingController.cs:24-32 | corrected, a 200 files the rating under the caller's user id |
| CallerIdentity.IssuedTokenCaller | BlindIdea.Infrastructure/Services/JwtService.cs:43-49 | the caller read from a token the codec issued has the user id as name identifier and the display name as name, whatever claims follow |
| RatingController.CallerRatingAccepted | BlindIdea.API/Controllers/RatingController.cs:24-32 | corrected, a registered caller's first in-range rating of an existing idea is accepted and stored under their id |
| TeamController.CreateTeamAsWritten | BlindIdea.API/Controllers/TeamController.cs:22-28 | as written, the service receives the caller's display name as admin id; 200 iff the service succeeds, with the new team id as body, and then that name is a visible user id and the team's admin; any failure is 500 |
| TeamController.CreateTeamAsCaller | BlindIdea.API/Controllers/TeamController.cs:22-28 | corrected, the caller's user id is the admin id; 200 iff the service succeeds, and then the caller is the new team's admin |
| TeamController.AddUserToTeamAsWritten | BlindIdea.API/Controllers/TeamController.cs:31-37 | as written, the caller's display name is compared with the team's admin id; 200 iff the service succeeds, and then that name is the admin id; any failure is 500 |
| TeamController.AddUserToTeamAsCaller | BlindIdea.API/Controllers/TeamController.cs:31-37 | corrected, the caller's user id is compared with the admin id; 200 iff the service succeeds |
| TeamController.AdminRefusedByDisplayName | BlindIdea.API/Controllers/TeamController.cs:34-35 | for a team's admin whose display name is not their id, the endpoint as written answers 500 with "Only admin can add users." whoever is added, while the corrected endpoint passes the admin check |
| TeamController.DisplayNameIsNotAdminId | BlindIdea.API/Controllers/TeamController.cs:25-26 | user "u1" named "Alice" gets "Admin user not found." and 500 when creating a team as written, and 200 with the new team id when corrected |
| RatingController.DisplayNameIsNotUserId | BlindIdea.API/Controllers/RatingController.cs:24 | for user "u1" named "Alice", the caller read from the issued token has name "Alice"; as written the rating gets 400 with the save error, where the corrected endpoint gives 200 |

## Left out

- The `AuthService` behaviours are not modelled: registration, login, rotation with reuse detection, logout, revoke-all, verification and resend rate-limiting. Its methods all throw `NotImplementedException`. The controllers take the service as a function parameter instead.
- HMAC-SHA512 signing, JWT compact serialisation, SHA-256 and the random number generator are library code. The random octets, the fresh GUID and the digest function are parameters, and a token is represented by its claims.
- `ExtractJwtId` receives the claims `ReadToken` would produce, or none when reading fails. The parsing itself is library code.
- `EpochTime.GetIntDate` goes through `TimeSpan.TotalSeconds`, a `double`; the model truncates the exact tick count, so rounding of very large tick counts is not modelled.
- `DateTime` range limits are not modelled: instants are unbounded tick counts, so `AddMinutes`/`AddDays` overflow cannot occur.
- TeamService.CreateTeamSucceedsIff: names are compared up to ASCII case and trailing U+0020 spaces only. The rest of SQL Server's default collation (case of non-ASCII letters, width and kana rules) is not modelled.
- TeamService.AddUserToTeam: the user is looked up by exact key. `FindAsync` queries the database, whose collation ignores case and trailing spaces, so a route id such as "U1" finds the stored user "u1" in the source but gives "User not found." in the model. The two agree when the route id and the stored keys are in key form (`Persistence.FindUserAgreesWithCollation`).
- TeamService.AddUserToTeamNeverFailsToSave: "the user exists" is stated with the exact lookup. A route id differing from a stored id only in ASCII case or trailing spaces succeeds in the source but is outside this lemma's success condition.
- TeamService.CreateTeam: the admin is looked up by exact key as well, so an admin id differing from a stored id only in case or trailing spaces is found by the database but refused by the model.
- RatingService.AddRating: user ids in the duplicate test, the unique `(UserId, IdeaId)` index and the foreign keys are compared exactly, not under the collation. Identity issues user ids as lower-case GUID text, which has no upper-case letter and no trailing space, and on such text the two comparisons agree (`Collation.PlainCollideIff`).
- IdeaService.AverageRatingInRange: the average is an exact real. `double` rounding is not modelled.
- Text.PercentDecode: only escapes of octets below 0x80 are decoded. Multi-octet UTF-8 escapes are kept as they are, while `Uri.UnescapeDataString` would decode them.
- Text.DecodeEncode: the reference encoder covers ASCII text only.
- The framework's own query-string decoding is not modelled, including `+` becoming a space. Nor are model binding and validation, beyond the `modelValid` flag that carries their verdict.
- String lengths count Unicode scalar values, not UTF-16 code units, so the length limits differ for characters outside the Basic Multilingual Plane.
- The ASP.NET Identity tables other than the user row are not modelled, nor are columns the services never touch.
- `IdeasController` only forwards to the services, and the migration repeats `AppDbContext`. `TeamController`'s `GetAllTeams` only forwards to `TeamService.GetAllTeams`.
- Logging, `async`, dependency-injection wiring and HTTP pipeline configuration are not modelled.

## Findings

| source | as written | input that shows it | evidently intended | confidence | as-written member | corrected member |
|---|---|---|---|---|---|---|
| BlindIdea.API/Controllers/TeamController.cs:25 | `CreateTeam` passes `User.Identity.Name` (the display name, as for the rating endpoint) to the service as the admin id. | User "u1" named "Alice" creates team "T": the service looks up a user "Alice", finds none, and the exception becomes a 500. | The admin id is the caller's user id (the name-identifier claim). | medium, not executed | TeamController.CreateTeamAsWritten | TeamController.CreateTeamAsCaller |
| BlindIdea.API/Controllers/TeamController.cs:34 | `AddUserToTeam` compares `User.Identity.Name` with the team's admin id. | The admin "u1" named "Alice" of a team adds any user: "Alice" differs from "u1", so the service throws "Only admin can add users." and the answer is 500. | The caller's user id is compared with the admin id. | medium, not executed | TeamController.AddUserToTeamAsWritten | TeamController.AddUserToTeamAsCaller |
| BlindIdea.API/Controllers/RatingController.cs:24 | The rating is filed under `User.Identity.Name`. Under the default bearer configuration this is the access token's name claim, which the codec fills with the user's display name. | User id "u1", name "Alice", rating idea 0 with value 3: the insert names user "Alice", which does not exist, so the foreign key fails and the answer is 400 with the save error. | The rating is filed under the caller's user id (the name-identifier claim). | medium, not executed | RatingController.RateIdeaAsWritten | RatingController.RateIdeaAsCaller |
