/** The relational store behind `AppDbContext`: one map per table, keyed by the
    row's primary key, and the constraints the model configuration declares.
    `SaveChanges` is all-or-nothing: a commit either yields a store meeting
    every declared constraint or fails and leaves the store as it was. */
module Persistence {
  import opened Wrappers
  import opened Keys
  import opened Tokens
  import Collation

  /** An Identity user row. `IsDeleted` is the soft-delete flag. */
  datatype User = User(name: string, email: Option<string>, teamId: Option<Guid>, isDeleted: bool)

  datatype Team = Team(name: string, adminId: UserId)

  datatype Idea = Idea(title: string, description: string, isAnonymous: bool, userId: UserId, teamId: Option<Guid>)

  datatype Rating = Rating(value: int, ideaId: Guid, userId: UserId)

  datatype Store = Store(
    users: map<UserId, User>,
    teams: map<Guid, Team>,
    ideas: map<Guid, Idea>,
    ratings: map<Guid, Rating>,
    refreshTokens: map<Guid, RefreshToken>,
    verificationTokens: map<Guid, EmailVerificationToken>)

  /** The exceptions the services and `SaveChanges` raise. */
  datatype Error =
    | SaveFailed
    | AdminNotFound
    | TeamNotFound
    | NotTeamAdmin
    | UserNotFound
    | AlreadyInTeam
    | AlreadyRated(message: string)

  /** The exception's `Message`. */
  function Message(e: Error): string {
    match e
    case SaveFailed => "An error occurred while saving the entity changes. See the inner exception for details."
    case AdminNotFound => "Admin user not found."
    case TeamNotFound => "Team not found."
    case NotTeamAdmin => "Only admin can add users."
    case UserNotFound => "User not found."
    case AlreadyInTeam => "User already in a team."
    case AlreadyRated(m) => m
  }

  const UserNameMaxLength: int := 100
  const TeamNameMaxLength: int := 100
  const IdeaTitleMaxLength: int := 200
  const IdeaDescriptionMaxLength: int := 2000
  const TokenHashMaxLength: int := 256
  const JwtIdMaxLength: int := 256
  const IpAddressMaxLength: int := 45
  const MinRatingValue: int := 1
  const MaxRatingValue: int := 5

  // ---------------- declared constraints ----------------

  predicate UserColumnsOk(s: Store) {
    forall u | u in s.users :: |s.users[u].name| <= UserNameMaxLength
  }

  predicate TeamColumnsOk(s: Store) {
    forall t | t in s.teams :: |s.teams[t].name| <= TeamNameMaxLength
  }

  /** The unique index on `Team.Name`, enforced under the column's collation. */
  predicate TeamNamesUnique(s: Store) {
    forall a, b | a in s.teams && b in s.teams && a != b ::
      Collation.Key(s.teams[a].name) != Collation.Key(s.teams[b].name)
  }

  predicate IdeaColumnsOk(s: Store) {
    forall i | i in s.ideas ::
      |s.ideas[i].title| <= IdeaTitleMaxLength && |s.ideas[i].description| <= IdeaDescriptionMaxLength
  }

  /** The check constraint `CK_Rating_Value`. */
  predicate RatingValuesInRange(s: Store) {
    forall r | r in s.ratings :: MinRatingValue <= s.ratings[r].value <= MaxRatingValue
  }

  /** The unique index on `(UserId, IdeaId)`. */
  predicate RatingPairsUnique(s: Store) {
    forall a, b | a in s.ratings && b in s.ratings && a != b ::
      s.ratings[a].userId != s.ratings[b].userId || s.ratings[a].ideaId != s.ratings[b].ideaId
  }

  predicate OptionalIpOk(ip: Option<string>) {
    ip.None? || |ip.value| <= IpAddressMaxLength
  }

  predicate TokenColumnsOk(s: Store) {
    && (forall k | k in s.refreshTokens ::
          && |s.refreshTokens[k].tokenHash| <= TokenHashMaxLength
          && |s.refreshTokens[k].jwtId| <= JwtIdMaxLength
          && OptionalIpOk(s.refreshTokens[k].createdByIp)
          && OptionalIpOk(s.refreshTokens[k].revokedByIp))
    && (forall k | k in s.verificationTokens :: |s.verificationTokens[k].tokenHash| <= TokenHashMaxLength)
  }

  /** Every foreign key names an existing row. The database sees soft-deleted
      users too: the query filter does not apply to constraints. */
  predicate ForeignKeysOk(s: Store) {
    && (forall u | u in s.users :: s.users[u].teamId.None? || s.users[u].teamId.value in s.teams)
    && (forall t | t in s.teams :: s.teams[t].adminId in s.users)
    && (forall i | i in s.ideas ::
          s.ideas[i].userId in s.users && (s.ideas[i].teamId.None? || s.ideas[i].teamId.value in s.teams))
    && (forall r | r in s.ratings :: s.ratings[r].userId in s.users && s.ratings[r].ideaId in s.ideas)
    && (forall k | k in s.refreshTokens :: s.refreshTokens[k].userId in s.users)
    && (forall k | k in s.verificationTokens :: s.verificationTokens[k].userId in s.users)
  }

  predicate Valid(s: Store) {
    && UserColumnsOk(s)
    && TeamColumnsOk(s)
    && TeamNamesUnique(s)
    && IdeaColumnsOk(s)
    && RatingValuesInRange(s)
    && RatingPairsUnique(s)
    && TokenColumnsOk(s)
    && ForeignKeysOk(s)
  }

  /** `SaveChanges`: the pending state becomes the store only if it meets every constraint. */
  function Commit(pending: Store): (r: Result<Store, Error>)
    ensures r.Success? <==> Valid(pending)
    ensures r.Success? ==> r.value == pending
    ensures r.Failure? ==> r.error == SaveFailed
  {
    if Valid(pending) then Success(pending) else Failure(SaveFailed)
  }

  // ---------------- the soft-delete query filter ----------------

  /** `Users.FindAsync` under the filter `!IsDeleted`. */
  function FindUser(s: Store, id: UserId): (r: Option<User>)
    ensures r.Some? ==> id in s.users && r.value == s.users[id] && !r.value.isDeleted
    ensures r.None? <==> id !in s.users || s.users[id].isDeleted
  {
    if id in s.users && !s.users[id].isDeleted then Some(s.users[id]) else None
  }

  /** The database's own lookup by key: some visible row whose key equals `id`
      under the collation of the key column. */
  predicate FoundUnderCollation(s: Store, id: UserId) {
    exists k | k in s.users :: Collation.Key(k) == Collation.Key(id) && !s.users[k].isDeleted
  }

  /** Where the stored keys and the requested id are in key form, as the
      lower-case GUID text Identity issues is, the exact lookup finds a row
      exactly when the database's collated lookup does. */
  lemma FindUserAgreesWithCollation(s: Store, id: UserId)
    requires forall k | k in s.users :: Collation.Plain(k)
    requires Collation.Plain(id)
    ensures FindUser(s, id).Some? <==> FoundUnderCollation(s, id)
  {
    if FoundUnderCollation(s, id) {
      var k :| k in s.users && Collation.Key(k) == Collation.Key(id) && !s.users[k].isDeleted;
      Collation.PlainCollideIff(k, id);
    }
  }

  /** The users every query sees. */
  function VisibleUserIds(s: Store): (ids: set<UserId>)
    ensures forall id :: id in ids <==> FindUser(s, id).Some?
  {
    set id | id in s.users && !s.users[id].isDeleted
  }

  /** Soft-deleting a user hides that user from every query and no other. */
  lemma SoftDeleteHidesOnlyThatUser(s: Store, id: UserId, other: UserId)
    requires id in s.users
    ensures var t := s.(users := s.users[id := s.users[id].(isDeleted := true)]);
      && FindUser(t, id).None?
      && (other != id ==> FindUser(t, other) == FindUser(s, other))
      && VisibleUserIds(t) == VisibleUserIds(s) - {id}
  {
  }

  // ---------------- delete behaviours ----------------

  predicate UserReferenced(s: Store, id: UserId) {
    || (exists t | t in s.teams :: s.teams[t].adminId == id)
    || (exists i | i in s.ideas :: s.ideas[i].userId == id)
    || (exists r | r in s.ratings :: s.ratings[r].userId == id)
  }

  /** Deleting a user row: refused while it is a team admin, idea author or
      rater (`Restrict`); its refresh and verification tokens go with it (`Cascade`). */
  function DeleteUser(s: Store, id: UserId): (r: Result<Store, Error>)
    ensures r.Success? <==> id in s.users && !UserReferenced(s, id)
    ensures r.Failure? ==> r.error == SaveFailed
    ensures r.Success? ==> r.value.users == s.users - {id}
    ensures r.Success? ==> forall k :: k in r.value.refreshTokens <==> k in s.refreshTokens && s.refreshTokens[k].userId != id
    ensures r.Success? ==> forall k :: k in r.value.verificationTokens <==> k in s.verificationTokens && s.verificationTokens[k].userId != id
    ensures r.Success? ==> forall k | k in r.value.refreshTokens :: r.value.refreshTokens[k] == s.refreshTokens[k]
    ensures r.Success? ==> forall k | k in r.value.verificationTokens :: r.value.verificationTokens[k] == s.verificationTokens[k]
    ensures r.Success? ==> r.value.teams == s.teams && r.value.ideas == s.ideas && r.value.ratings == s.ratings
  {
    if id !in s.users || UserReferenced(s, id) then Failure(SaveFailed)
    else
      Success(s.(
        users := s.users - {id},
        refreshTokens := map k | k in s.refreshTokens && s.refreshTokens[k].userId != id :: s.refreshTokens[k],
        verificationTokens := map k | k in s.verificationTokens && s.verificationTokens[k].userId != id :: s.verificationTokens[k]))
  }

  predicate TeamReferenced(s: Store, id: Guid) {
    || (exists u | u in s.users :: s.users[u].teamId == Some(id))
    || (exists i | i in s.ideas :: s.ideas[i].teamId == Some(id))
  }

  /** Deleting a team row: refused while any user (soft-deleted ones included)
      is a member or any idea belongs to it (`Restrict` on both). */
  function DeleteTeam(s: Store, id: Guid): (r: Result<Store, Error>)
    ensures r.Success? <==> id in s.teams && !TeamReferenced(s, id)
    ensures r.Failure? ==> r.error == SaveFailed
    ensures r.Success? ==> r.value == s.(teams := s.teams - {id})
  {
    if id !in s.teams || TeamReferenced(s, id) then Failure(SaveFailed)
    else Success(s.(teams := s.teams - {id}))
  }

  /** Deleting an idea row: never refused; its ratings go with it (`Cascade`). */
  function DeleteIdea(s: Store, id: Guid): (r: Result<Store, Error>)
    ensures r.Success? <==> id in s.ideas
    ensures r.Failure? ==> r.error == SaveFailed
    ensures r.Success? ==> r.value.ideas == s.ideas - {id}
    ensures r.Success? ==> forall k :: k in r.value.ratings <==> k in s.ratings && s.ratings[k].ideaId != id
    ensures r.Success? ==> forall k | k in r.value.ratings :: r.value.ratings[k] == s.ratings[k]
    ensures r.Success? ==> r.value.users == s.users && r.value.teams == s.teams
    ensures r.Success? ==> r.value.refreshTokens == s.refreshTokens && r.value.verificationTokens == s.verificationTokens
  {
    if id !in s.ideas then Failure(SaveFailed)
    else
      Success(s.(
        ideas := s.ideas - {id},
        ratings := map k | k in s.ratings && s.ratings[k].ideaId != id :: s.ratings[k]))
  }

  /** The restrict rules are exactly what keeps user deletion from breaking a foreign key. */
  lemma DeleteUserPreservesValid(s: Store, id: UserId)
    requires Valid(s) && DeleteUser(s, id).Success?
    ensures Valid(DeleteUser(s, id).value)
  {
    var t := DeleteUser(s, id).value;
    assert ForeignKeysOk(t) by {
      forall k | k in t.teams ensures t.teams[k].adminId in t.users {
        assert s.teams[k].adminId != id;
      }
      forall k | k in t.ideas ensures t.ideas[k].userId in t.users {
        assert s.ideas[k].userId != id;
      }
      forall k | k in t.ratings ensures t.ratings[k].userId in t.users {
        assert s.ratings[k].userId != id;
      }
    }
  }

  lemma DeleteTeamPreservesValid(s: Store, id: Guid)
    requires Valid(s) && DeleteTeam(s, id).Success?
    ensures Valid(DeleteTeam(s, id).value)
  {
    var t := DeleteTeam(s, id).value;
    assert ForeignKeysOk(t) by {
      forall u | u in t.users ensures t.users[u].teamId.None? || t.users[u].teamId.value in t.teams {
        assert s.users[u].teamId != Some(id);
      }
      forall k | k in t.ideas ensures t.ideas[k].teamId.None? || t.ideas[k].teamId.value in t.teams {
        assert s.ideas[k].teamId != Some(id);
      }
    }
  }

  /** Without the cascade, deleting a rated idea would leave ratings pointing nowhere. */
  lemma DeleteIdeaPreservesValid(s: Store, id: Guid)
    requires Valid(s) && DeleteIdea(s, id).Success?
    ensures Valid(DeleteIdea(s, id).value)
  {
  }

  // ---------------- consequences of the constraints ----------------

  /** There is no unique index on `TokenHash`: a valid store may hold two refresh
      tokens with the same digest. */
  lemma DigestsNeedNotBeUnique()
    ensures exists s: Store, a: Guid, b: Guid ::
      Valid(s) && a in s.refreshTokens && b in s.refreshTokens && a != b
      && s.refreshTokens[a].tokenHash == s.refreshTokens[b].tokenHash
  {
    var t := NewRefreshToken("D1GEST", "jti", "u", 0, 1, None);
    var s := Store(map["u" := User("n", None, None, false)], map[], map[], map[], map[0 := t, 1 := t], map[]);
    assert Valid(s);
    assert s.refreshTokens[0].tokenHash == s.refreshTokens[1].tokenHash;
  }

  /** In a valid store a user has at most one rating per idea. */
  lemma AtMostOneRatingPerPair(s: Store, a: Guid, b: Guid)
    requires Valid(s) && a in s.ratings && b in s.ratings
    requires s.ratings[a].userId == s.ratings[b].userId && s.ratings[a].ideaId == s.ratings[b].ideaId
    ensures a == b
  {
  }
}
