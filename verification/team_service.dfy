/** `TeamService`: creating a team, adding a member, listing teams. */
module TeamService {
  import opened Wrappers
  import opened Keys
  import opened Persistence
  import opened Listing
  import Collation

  /** Creates a team named `name` administered by `adminId`; `newId` is the
      fresh `Guid.NewGuid()`. The admin is looked up before anything is saved,
      and the admin's current team, if any, is overwritten. */
  function CreateTeam(s: Store, name: string, adminId: UserId, newId: Guid): (r: Result<(Guid, Store), Error>)
    ensures r == Failure(AdminNotFound) <==> FindUser(s, adminId).None?
    ensures r.Failure? ==> r.error in {AdminNotFound, SaveFailed}
    ensures r.Success? ==> r.value.0 == newId && newId !in s.teams
    ensures r.Success? ==> var t := r.value.1;
      && t.teams.Keys == s.teams.Keys + {newId}
      && t.teams[newId] == Team(name, adminId)
      && (forall k | k in s.teams :: t.teams[k] == s.teams[k])
      && adminId in s.users && !s.users[adminId].isDeleted
      && t.users.Keys == s.users.Keys
      && t.users[adminId] == s.users[adminId].(teamId := Some(newId))
      && (forall u | u in s.users && u != adminId :: t.users[u] == s.users[u])
      && t.ideas == s.ideas && t.ratings == s.ratings
      && t.refreshTokens == s.refreshTokens && t.verificationTokens == s.verificationTokens
    ensures r.Success? ==> Valid(r.value.1)
  {
    match FindUser(s, adminId)
    case None => Failure(AdminNotFound)
    case Some(admin) =>
      if newId in s.teams then Failure(SaveFailed)
      else
        var pending := s.(teams := s.teams[newId := Team(name, adminId)],
                          users := s.users[adminId := admin.(teamId := Some(newId))]);
        match Commit(pending)
        case Success(t) => Success((newId, t))
        case Failure(e) => Failure(e)
  }

  /** Some team already has this name, as the database compares names. */
  predicate NameTaken(s: Store, name: string) {
    exists k | k in s.teams :: Collation.Key(s.teams[k].name) == Collation.Key(name)
  }

  /** On a valid store with a visible admin, creation succeeds exactly when the
      id is fresh, the name fits its column and no team already has that name
      up to case and trailing spaces. */
  lemma CreateTeamSucceedsIff(s: Store, name: string, adminId: UserId, newId: Guid)
    requires Valid(s) && FindUser(s, adminId).Some?
    ensures CreateTeam(s, name, adminId, newId).Success?
        <==> newId !in s.teams && |name| <= TeamNameMaxLength && !NameTaken(s, name)
  {
    if newId !in s.teams && |name| <= TeamNameMaxLength && !NameTaken(s, name) {
      var admin := s.users[adminId];
      var pending := s.(teams := s.teams[newId := Team(name, adminId)],
                        users := s.users[adminId := admin.(teamId := Some(newId))]);
      assert TeamNamesUnique(pending);
      assert ForeignKeysOk(pending);
      assert Valid(pending);
    }
  }

  /** A name that differs from an existing team's only in ASCII case or trailing
      spaces is refused by the unique index, so the save fails. */
  lemma CaseVariantNameRefused(s: Store, name: string, adminId: UserId, newId: Guid, k: Guid)
    requires Valid(s) && FindUser(s, adminId).Some?
    requires k in s.teams && Collation.Key(s.teams[k].name) == Collation.Key(name)
    ensures CreateTeam(s, name, adminId, newId) == Failure(SaveFailed)
  {
    CreateTeamSucceedsIff(s, name, adminId, newId);
  }

  /** Adds `userId` to team `teamId` on behalf of `adminId`. Checks run in
      order: team exists, caller is its admin, user exists, user has no team. */
  function AddUserToTeam(s: Store, teamId: Guid, adminId: UserId, userId: UserId): (r: Result<Store, Error>)
    ensures r.Failure? ==> r.error in {TeamNotFound, NotTeamAdmin, UserNotFound, AlreadyInTeam, SaveFailed}
    ensures teamId !in s.teams ==> r == Failure(TeamNotFound)
    ensures teamId in s.teams && s.teams[teamId].adminId != adminId ==> r == Failure(NotTeamAdmin)
    ensures teamId in s.teams && s.teams[teamId].adminId == adminId && FindUser(s, userId).None?
      ==> r == Failure(UserNotFound)
    ensures (teamId in s.teams && s.teams[teamId].adminId == adminId && FindUser(s, userId).Some?
             && s.users[userId].teamId.Some?) ==> r == Failure(AlreadyInTeam)
    ensures r.Success? ==>
      && teamId in s.teams && s.teams[teamId].adminId == adminId
      && userId in s.users && !s.users[userId].isDeleted && s.users[userId].teamId.None?
      && r.value == s.(users := s.users[userId := s.users[userId].(teamId := Some(teamId))])
      && Valid(r.value)
  {
    if teamId !in s.teams then Failure(TeamNotFound)
    else if s.teams[teamId].adminId != adminId then Failure(NotTeamAdmin)
    else match FindUser(s, userId)
      case None => Failure(UserNotFound)
      case Some(user) =>
        if user.teamId.Some? then Failure(AlreadyInTeam)
        else Commit(s.(users := s.users[userId := user.(teamId := Some(teamId))]))
  }

  /** The service's checks are enough: on a valid store, once they pass the save
      cannot fail, so the call succeeds exactly when all four checks pass. */
  lemma AddUserToTeamNeverFailsToSave(s: Store, teamId: Guid, adminId: UserId, userId: UserId)
    requires Valid(s)
    ensures AddUserToTeam(s, teamId, adminId, userId) != Failure(SaveFailed)
    ensures AddUserToTeam(s, teamId, adminId, userId).Success?
        <==> teamId in s.teams && s.teams[teamId].adminId == adminId
             && FindUser(s, userId).Some? && s.users[userId].teamId.None?
  {
    if teamId in s.teams && s.teams[teamId].adminId == adminId && FindUser(s, userId).Some?
       && s.users[userId].teamId.None? {
      var pending := s.(users := s.users[userId := s.users[userId].(teamId := Some(teamId))]);
      assert ForeignKeysOk(pending);
      assert Valid(pending);
    }
  }

  /** A user added once cannot be added again, to this or any other team. */
  lemma AddUserTwiceFails(s: Store, teamId: Guid, adminId: UserId, userId: UserId, teamId2: Guid, adminId2: UserId)
    requires AddUserToTeam(s, teamId, adminId, userId).Success?
    requires var t := AddUserToTeam(s, teamId, adminId, userId).value;
      teamId2 in t.teams && t.teams[teamId2].adminId == adminId2
    ensures AddUserToTeam(AddUserToTeam(s, teamId, adminId, userId).value, teamId2, adminId2, userId)
      == Failure(AlreadyInTeam)
  {
  }

  // ---------------- listing ----------------

  datatype TeamDto = TeamDto(id: Guid, name: string, adminId: UserId, memberCount: nat)

  /** The members a query sees: users not soft-deleted whose team is `teamId`. */
  function Members(s: Store, teamId: Guid): (m: set<UserId>)
    ensures forall u :: u in m <==> FindUser(s, u).Some? && s.users[u].teamId == Some(teamId)
  {
    set u | u in s.users && !s.users[u].isDeleted && s.users[u].teamId == Some(teamId)
  }

  /** The DTO of a stored team; the count covers only the members queries see. */
  function ToTeamDto(s: Store, id: Guid): (d: TeamDto)
    requires id in s.teams
    ensures d.id == id && d.name == s.teams[id].name && d.adminId == s.teams[id].adminId
    ensures d.memberCount == |Members(s, id)|
  {
    TeamDto(id, s.teams[id].name, s.teams[id].adminId, |Members(s, id)|)
  }

  /** The rows for the teams in `keys`, in the order the database returns them
      (unspecified, so chosen arbitrarily). */
  ghost function TeamRows(s: Store, keys: set<Guid>): (r: seq<TeamDto>)
    requires keys <= s.teams.Keys
    ensures ListsExactly(r, (d: TeamDto) => d.id, keys)
    ensures forall i :: 0 <= i < |r| ==> r[i] == ToTeamDto(s, r[i].id)
    decreases keys
  {
    if keys == {} then []
    else
      var k :| k in keys;
      var rest := TeamRows(s, keys - {k});
      var d := ToTeamDto(s, k);
      ConsStep(d, rest, (d: TeamDto) => d.id, k, keys);
      var r := [d] + rest;
      forall i | 0 <= i < |r| ensures r[i] == ToTeamDto(s, r[i].id) {
        if i > 0 { assert r[i] == rest[i - 1]; }
      }
      r
  }

  /** `GetAllTeamsAsync`: one entry per team, each carrying its member count. */
  ghost function GetAllTeams(s: Store): (r: seq<TeamDto>)
    ensures |r| == |s.teams|
    ensures forall k :: k in s.teams ==> exists i :: 0 <= i < |r| && r[i].id == k
    ensures forall i, j :: 0 <= i < j < |r| ==> r[i].id != r[j].id
    ensures forall i :: 0 <= i < |r| ==>
      && r[i].id in s.teams
      && r[i].name == s.teams[r[i].id].name
      && r[i].adminId == s.teams[r[i].id].adminId
      && r[i].memberCount == |Members(s, r[i].id)|
  {
    TeamRows(s, s.teams.Keys)
  }

  /** Adding a member raises that team's count by one and leaves every other team's count alone. */
  lemma AddUserToTeamCounts(s: Store, teamId: Guid, adminId: UserId, userId: UserId, other: Guid)
    requires AddUserToTeam(s, teamId, adminId, userId).Success?
    ensures var t := AddUserToTeam(s, teamId, adminId, userId).value;
      && |Members(t, teamId)| == |Members(s, teamId)| + 1
      && (other != teamId ==> Members(t, other) == Members(s, other))
  {
    var t := AddUserToTeam(s, teamId, adminId, userId).value;
    assert Members(t, teamId) == Members(s, teamId) + {userId};
  }
}
